/**
 * The metadata index: container name -> object name -> ObjectMetadata,
 * the derived record of each object, the four updates the handlers make
 * to the index, and the index that the startup scan builds from a disk.
 */
module Metadata {
  import opened Fnv
  import opened Disk

  /**
   * What the index keeps per object. `extra` is reserved for user metadata
   * and always empty (the scan leaves Go's map nil, `createObject` makes an
   * empty one; a reader cannot tell the two apart).
   */
  datatype ObjectMetadata = ObjectMetadata(
    name: string,
    hash: bv64,
    contentType: string,
    contentLength: nat,
    extra: map<string, string>)

  datatype ContainerMetadata = ContainerMetadata(files: map<string, ObjectMetadata>)

  type Index = map<string, ContainerMetadata>

  /** No '/' in `p` from position `k` on: `k` lies in the last slash-separated element. */
  ghost predicate InLastElement(p: string, k: nat)
  {
    forall j :: k <= j < |p| ==> p[j] != '/'
  }

  /**
   * `path.Ext` scanning `p` backwards from position `i`: the characters
   * at `i` and beyond are already known to be neither '.' nor '/'.
   */
  function ExtFrom(p: string, i: nat): (e: string)
    requires i <= |p|
    requires forall j :: i <= j < |p| ==> p[j] != '.' && p[j] != '/'
    ensures e != "" ==> e[0] == '.' && |e| <= |p| && e == p[|p| - |e|..]
    ensures forall k :: 1 <= k < |e| ==> e[k] != '.' && e[k] != '/'
    ensures e == "" ==> forall k :: 0 <= k < |p| && InLastElement(p, k) ==> p[k] != '.'
    decreases i
  {
    if i == 0 || p[i - 1] == '/' then ""
    else if p[i - 1] == '.' then p[i - 1..]
    else ExtFrom(p, i - 1)
  }

  /**
   * `path.Ext`: the suffix of `p` from the last '.' of its last element,
   * or "" when that element has no '.'.
   */
  function Ext(p: string): (e: string)
    ensures e != "" ==> e[0] == '.' && |e| <= |p| && e == p[|p| - |e|..]
    ensures forall k :: 1 <= k < |e| ==> e[k] != '.' && e[k] != '/'
    ensures e == "" ==> forall k :: 0 <= k < |p| && InLastElement(p, k) ==> p[k] != '.'
  {
    ExtFrom(p, |p|)
  }

  /** `mime.TypeByExtension` against the process's table: "" for an unknown extension. */
  function TypeByExtension(mimeTypes: map<string, string>, ext: string): string
  {
    if ext in mimeTypes then mimeTypes[ext] else ""
  }

  /** Fresh metadata for the object `name` holding `bytes`. */
  function Describe(mimeTypes: map<string, string>, name: string, bytes: Bytes): ObjectMetadata
  {
    ObjectMetadata(name, Hash(bytes), TypeByExtension(mimeTypes, Ext(name)), |bytes|, map[])
  }

  // The four updates the handlers apply to the index.

  /** `createContainer` on success: the key maps to an empty container, replacing any entry. */
  function WithContainer(index: Index, c: string): (r: Index)
    ensures r.Keys == index.Keys + {c}
    ensures r[c].files == map[]
    ensures forall c' :: c' in index && c' != c ==> r[c'] == index[c']
  {
    index[c := ContainerMetadata(map[])]
  }

  /** `deleteContainer` on success: the key and all its objects go; an absent key is a no-op. */
  function WithoutContainer(index: Index, c: string): (r: Index)
    ensures r.Keys == index.Keys - {c}
    ensures forall c' :: c' in r ==> r[c'] == index[c']
    ensures c !in index ==> r == index
  {
    index - {c}
  }

  /** `createObject`: the object's entry is `meta`, whatever it was before. */
  function WithObject(index: Index, c: string, o: string, meta: ObjectMetadata): (r: Index)
    requires c in index
    ensures r.Keys == index.Keys
    ensures r[c].files.Keys == index[c].files.Keys + {o}
    ensures r[c].files[o] == meta
    ensures forall o' :: o' in index[c].files && o' != o ==> r[c].files[o'] == index[c].files[o']
    ensures forall c' :: c' in index && c' != c ==> r[c'] == index[c']
  {
    index[c := ContainerMetadata(index[c].files[o := meta])]
  }

  /** `deleteObject`: the object's entry is gone; an absent object is a no-op. */
  function WithoutObject(index: Index, c: string, o: string): (r: Index)
    requires c in index
    ensures r.Keys == index.Keys
    ensures r[c].files.Keys == index[c].files.Keys - {o}
    ensures forall o' :: o' in r[c].files ==> r[c].files[o'] == index[c].files[o']
    ensures forall c' :: c' in index && c' != c ==> r[c'] == index[c']
    ensures o !in index[c].files ==> r == index
  {
    var files := index[c].files - {o};
    assert o !in index[c].files ==> files == index[c].files;
    index[c := ContainerMetadata(files)]
  }

  /** Deleting an object twice leaves the index as deleting it once. */
  lemma WithoutObjectIdempotent(index: Index, c: string, o: string)
    requires c in index
    ensures WithoutObject(WithoutObject(index, c, o), c, o) == WithoutObject(index, c, o)
  {
  }

  /** Two writes of the same object: the last one wins, nothing of the first remains. */
  lemma WithObjectLastWins(index: Index, c: string, o: string, m1: ObjectMetadata, m2: ObjectMetadata)
    requires c in index
    ensures WithObject(WithObject(index, c, o, m1), c, o, m2) == WithObject(index, c, o, m2)
  {
    assert WithObject(index, c, o, m1)[c].files[o := m2] == index[c].files[o := m2];
  }

  /** Deleting a just-written object forgets the write entirely. */
  lemma WithoutObjectAfterWithObject(index: Index, c: string, o: string, m: ObjectMetadata)
    requires c in index
    ensures WithoutObject(WithObject(index, c, o, m), c, o) == WithoutObject(index, c, o)
  {
    assert index[c].files[o := m] - {o} == index[c].files - {o};
  }

  /** Deleting a container cascades: none of its objects survive, and re-creating it starts empty. */
  lemma WithoutContainerCascades(index: Index, c: string)
    ensures c !in WithoutContainer(index, c)
    ensures WithContainer(WithoutContainer(index, c), c)[c].files == map[]
  {
  }

  // The startup scan, `explore`, as a specification.

  /** `os.ReadDir` with its error ignored: a failed read ranges over no entries. */
  function Listing(d: Disk, p: DirPath): seq<DirEntry>
  {
    ReadDir(d, p).GetOr([])
  }

  /** `os.ReadFile` with its error ignored: a failed read yields no bytes. */
  function Contents(d: Disk, p: FilePath): Bytes
  {
    ReadFile(d, p).GetOr([])
  }

  /**
   * The path the scan reads object `o` of container `c` from. As written the
   * scan passes the bare entry name (`joined` false); the evidently intended
   * path is the one inside the container (`joined` true).
   */
  function ObjectPath(c: string, o: string, joined: bool): FilePath
  {
    if joined then InContainer(c, o) else InWorkingDir(o)
  }

  /** The objects the scan records for container `c` from its listing `files`: one per non-directory entry. */
  function ScanEntries(d: Disk, mimeTypes: map<string, string>, c: string, files: seq<DirEntry>, joined: bool): map<string, ObjectMetadata>
  {
    map o | o in FileNames(files) :: Describe(mimeTypes, o, Contents(d, ObjectPath(c, o, joined)))
  }

  /** The objects the scan records for container `c`. */
  function ScanFiles(d: Disk, mimeTypes: map<string, string>, c: string, joined: bool): map<string, ObjectMetadata>
  {
    ScanEntries(d, mimeTypes, c, Listing(d, ContainerDir(c)), joined)
  }

  /** The containers the scan records from the root listing `dirs`: one per directory entry. */
  function ScanDirs(d: Disk, mimeTypes: map<string, string>, dirs: seq<DirEntry>, joined: bool): Index
  {
    map c | c in DirNames(dirs) :: ContainerMetadata(ScanFiles(d, mimeTypes, c, joined))
  }

  /** The index the scan builds: one container per directory entry of the root. */
  function ScanIndex(d: Disk, mimeTypes: map<string, string>, joined: bool): Index
  {
    ScanDirs(d, mimeTypes, Listing(d, RootDir), joined)
  }

  /**
   * The scan's containers are exactly the root's directory entries:
   * plain files at the root are skipped, and an unreadable root gives an empty index.
   */
  lemma ScanContainers(d: Disk, mimeTypes: map<string, string>, joined: bool)
    ensures forall c :: c in ScanIndex(d, mimeTypes, joined) <==>
      exists e :: e in Listing(d, RootDir) && e.isDir && e.name == c
    ensures ReadDir(d, RootDir).None? ==> ScanIndex(d, mimeTypes, joined) == map[]
  {
    var r := ScanIndex(d, mimeTypes, joined);
    forall c ensures c in r <==> exists e :: e in Listing(d, RootDir) && e.isDir && e.name == c {
      if c in r {
        var e :| e in Listing(d, RootDir) && e.isDir && e.name == c;
      }
    }
  }

  /**
   * Each scanned container holds exactly the non-directory entries of its
   * listing (subdirectories are skipped, never entered), each described by
   * the bytes read for it; a failed read leaves length 0 and the offset basis.
   */
  lemma ScanObjects(d: Disk, mimeTypes: map<string, string>, joined: bool, c: string)
    requires c in ScanIndex(d, mimeTypes, joined)
    ensures forall o :: o in ScanIndex(d, mimeTypes, joined)[c].files <==>
      exists e :: e in Listing(d, ContainerDir(c)) && !e.isDir && e.name == o
    ensures forall o :: o in ScanIndex(d, mimeTypes, joined)[c].files ==>
      var m := ScanIndex(d, mimeTypes, joined)[c].files[o];
      var bytes := Contents(d, ObjectPath(c, o, joined));
      && m.name == o
      && m.contentLength == |bytes|
      && m.hash == Hash(bytes)
      && m.contentType == TypeByExtension(mimeTypes, Ext(o))
      && (ObjectPath(c, o, joined) !in d.files ==> m.contentLength == 0 && m.hash == OffsetBasis)
  {
    var files := ScanIndex(d, mimeTypes, joined)[c].files;
    forall o ensures o in files <==> exists e :: e in Listing(d, ContainerDir(c)) && !e.isDir && e.name == o {
      if o in files {
        var e :| e in Listing(d, ContainerDir(c)) && !e.isDir && e.name == o;
      }
    }
  }
}
