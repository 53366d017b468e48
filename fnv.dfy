/**
 * The content fingerprint of an object: 64-bit FNV-1a, as computed by
 * `calculateHash` (a fresh `fnv.New64a()`, one `Write` of all the bytes,
 * then `Sum64`). Arithmetic is on `bv64`, so the multiplication wraps
 * modulo 2^64 exactly as Go's `uint64` does.
 */
module Fnv {

  /** The FNV-1a 64-bit offset basis: the state of a fresh hasher. */
  const OffsetBasis: bv64 := 14695981039346656037

  /** The FNV 64-bit prime. */
  const Prime: bv64 := 1099511628211

  /** One FNV-1a round: XOR the byte into the state, then multiply by the prime. */
  function Step(h: bv64, b: bv8): bv64
  {
    (h ^ (b as bv64)) * Prime
  }

  /** The state after feeding `s` to a hasher whose state is `h`, first byte first. */
  function HashFrom(h: bv64, s: seq<bv8>): bv64
    decreases |s|
  {
    if s == [] then h else HashFrom(Step(h, s[0]), s[1..])
  }

  /** `calculateHash`: the FNV-1a digest of `s`; zero bytes give the offset basis. */
  function Hash(s: seq<bv8>): (r: bv64)
    ensures |s| == 0 ==> r == OffsetBasis
  {
    HashFrom(OffsetBasis, s)
  }

  /** Feeding `s` and then `t` is the same as feeding `s + t`: a `Write` may be split anywhere. */
  lemma {:induction false} HashFromAppend(h: bv64, s: seq<bv8>, t: seq<bv8>)
    ensures HashFrom(h, s + t) == HashFrom(HashFrom(h, s), t)
    decreases |s|
  {
    if s == [] {
      assert s + t == t;
    } else {
      assert (s + t)[0] == s[0];
      assert (s + t)[1..] == s[1..] + t;
      HashFromAppend(Step(h, s[0]), s[1..], t);
    }
  }

  /** The digest is a left fold: appending one byte applies one more round to the digest so far. */
  lemma HashSnoc(s: seq<bv8>, b: bv8)
    ensures Hash(s + [b]) == Step(Hash(s), b)
  {
    HashFromAppend(OffsetBasis, s, [b]);
    assert [b][1..] == [];
  }

  /** The published FNV-1a 64 test vector for the one-byte input "a". */
  lemma HashOfA()
    ensures Hash([0x61]) == 0xaf63dc4c8601ec8c
  {
    assert [0x61 as bv8][1..] == [];
  }
}
