# fs-rest metadata index, in Dafny

fs-rest serves a directory tree over HTTP. Containers are the directories under a
root. Objects are the files inside a container. `lib/server.go` keeps an in-memory
metadata index, a two-level table: container name → object name → `ObjectMetadata`
(name, FNV-1a hash, MIME type, length, extra map). The index is a write-through cache
of the tree. It is built once by scanning the root (`explore`). After that, the four
mutating handlers update it in place after (or regardless of) their filesystem call.
`listContainerObjects` reads the tree itself.

The model has five modules:

- `Fnv` (fnv.dfy): `calculateHash`, 64-bit FNV-1a on `bv64`. Multiplication wraps
  modulo 2^64 as Go's `uint64` does.
- `Disk` (disk.dfy): the tree under the root as a value. It holds directory listings
  in enumeration order and file contents. A missing key is a read that fails. The
  module also gives the effect of each successful OS write call.
- `Metadata` (metadata.dfy): the index types and `path.Ext`. It has the MIME lookup,
  the four index updates made by the handlers, and the scan as a declarative
  specification.
- `Server` (server.dfy): `explore` as a method with the source's two nested loops,
  proved equal to the scan specification. It also has a `Server` class whose
  `containers` field is the index. The class methods are the handlers. Each states the
  status it returns and the new index. Each keeps the class invariant `Valid()`:
  every entry is keyed by its own name, typed by its own extension, and has no extra
  metadata.
- `Sync` (sync.dfy): `Mirrors`, the relation "the index is exactly what a scan of the
  disk would record". It says which handler steps preserve it and where the source's
  ignored errors break it.

OS call outcomes are inputs. `Mkdir` and `RemoveAll` succeed or fail according to a
boolean the caller supplies. `createObject` and `deleteObject` ignore the results of
`WriteFile` and `Remove`, so those handlers take no such input. Reads are lookups in a
`Disk` value. The MIME table is a map fixed when the server is built.

## Model

| member | source | states |
|---|---|---|
| `Fnv.Hash` | lib/server.go:214-218 | The digest of zero bytes is the FNV-1a offset basis 14695981039346656037. |
| `Fnv.HashFromAppend` | lib/server.go:214-218 | Hashing `s` and then `t` from any state equals hashing `s + t`, so the one `Write` may be split anywhere. |
| `Fnv.HashSnoc` | lib/server.go:214-218 | The digest is a left fold: one more byte XORs that byte in, then multiplies by the prime (mod 2^64). |
| `Fnv.HashOfA` | lib/server.go:214-218 | The digest of the single byte "a" is the published FNV-1a 64 value 0xaf63dc4c8601ec8c. |
| `Metadata.ExtFrom` | lib/server.go:78 | A backwards scan for `path.Ext` returns one of two results. The first is a suffix that starts with '.' and has no other '.' or '/'. The second is "" when the last path element has no '.'. |
| `Metadata.Ext` | lib/server.go:78 | `path.Ext` of a name is either the suffix from the last '.' of its last element, or "" exactly when that element has no '.'. |
| `Metadata.WithContainer` | lib/server.go:142-144 | A created container is a key with an empty `files` map, replacing any earlier entry. Every other container is unchanged. |
| `Metadata.WithoutContainer` | lib/server.go:159 | The key and all its objects are gone. Every other container is unchanged. Deleting an absent key changes nothing. |
| `Metadata.WithObject` | lib/server.go:192-199 | The object maps to the new metadata, whatever it held before. Other objects and other containers are unchanged, and so is the set of containers. |
| `Metadata.WithoutObject` | lib/server.go:210 | The object is no longer a key of its container. Nothing else changes. An absent object is a no-op. |
| `Metadata.WithoutObjectIdempotent` | lib/server.go:203-211 | Deleting an object twice leaves the same index as deleting it once. |
| `Metadata.WithObjectLastWins` | lib/server.go:182-200 | Two writes of one object leave exactly the second write's metadata, with nothing kept from the first. |
| `Metadata.WithoutObjectAfterWithObject` | lib/server.go:182-211 | Deleting an object just written leaves the index as if the write had never happened, then the delete. |
| `Metadata.WithoutContainerCascades` | lib/server.go:149-161 | After a container is deleted, no entry for it remains. Re-creating it starts with no objects. |
| `Metadata.ScanContainers` | lib/server.go:60-68 | The scanned index's keys are exactly the names of the root's directory entries. Plain files at the root are skipped. An unreadable root gives an empty index. |
| `Metadata.ScanObjects` | lib/server.go:70-91 | Each scanned container holds exactly its listing's non-directory entries, and subdirectories are skipped. Each entry carries its name, the length, digest and type of the bytes read, and length 0 with the offset basis when that read fails. |
| `Server.FilesSoFarIsScan` | lib/server.go:72-93 | Visiting a container's entries in order, as the inner loop does, records exactly one metadata per non-directory entry. |
| `Server.ScannedSoFarIsScan` | lib/server.go:62-95 | Visiting the root's entries in order, as the outer loop does, records exactly one container per directory entry. |
| `Server.Explore` | lib/server.go:59-101 | The nested loops build exactly the scanned index. Each file is read by its bare name, and every read error is ignored. |
| `Server.EntryNames` | lib/server.go:122-125 | The names have the listing's length and order: the k-th name is the k-th entry's name. |
| `Server.Server.constructor` | lib/server.go:37-43 | A new server's index is what `explore` finds on the disk, and it satisfies `Valid()`. |
| `Server.Server.ListContainerObjects` | lib/server.go:103-129 | A failed listing is NotFound, and only a failed listing is. Otherwise the result is the entries' names in listing order, or the index entry (possibly none) when `exportMeta` is set. The empty container name lists the root itself. |
| `Server.Server.CreateContainer` | lib/server.go:131-147 | A failed `Mkdir` gives 409 and an unchanged index. Otherwise the status is 201 and the index gains the empty container. |
| `Server.Server.DeleteContainer` | lib/server.go:149-162 | A failed `RemoveAll` gives 500 and an unchanged index. Otherwise the status is 204 and the container key is removed. |
| `Server.Server.CreateObject` | lib/server.go:182-201 | The status is always 201. The object's entry becomes fresh metadata for the body whether or not the write succeeded. The container must already be indexed. |
| `Server.Server.DeleteObject` | lib/server.go:203-212 | No status is written, so it is HTTP's default 200. The object's entry is removed. The container must already be indexed. |
| `Sync.ScanJoinedMirrors` | lib/server.go:70-91 | If the scan reads each file inside its container, it mirrors every disk whose directories and files can all be read. |
| `Sync.ScanAsWrittenDiverges` | lib/server.go:79 | On a readable disk with a 2-byte file, the scan as written records length 0. It does not mirror the disk. |
| `Sync.MirroredContainersListed` | lib/server.go:103-127 | Every container of a mirroring index appears among the names that listing the root returns. |
| `Sync.CreateContainerMirrors` | lib/server.go:131-146 | For a non-empty name that the root does not yet list, a successful `Mkdir` of a readable directory followed by the index update keeps the index mirroring the disk. |
| `Sync.CreateContainerModeDirUnlistable` | lib/server.go:135-144 | The `Mkdir` as written creates a mode-0000 directory. The container is indexed, yet listing it fails (NotFound), and the index no longer mirrors the disk. |
| `Sync.DeleteContainerMirrors` | lib/server.go:149-161 | A successful `RemoveAll` followed by the index update keeps the mirror. Listing the container then fails with NotFound. |
| `Sync.CreateObjectMirrors` | lib/server.go:182-200 | A successful `WriteFile` of a readable file, followed by the index update, keeps the mirror. |
| `Sync.CreateObjectModeExclusiveUnreadable` | lib/server.go:189-199 | The `WriteFile` as written creates a new object's file with mode 0000. The object is indexed, yet its file cannot be read, and the index no longer mirrors the disk. |
| `Sync.CreateObjectFailedWriteDiverges` | lib/server.go:189-199 | When the write fails, the error is ignored but a new object is still indexed, so the index never mirrors the unchanged disk. |
| `Sync.DeleteObjectMirrors` | lib/server.go:203-211 | A successful `Remove` followed by the index update keeps the mirror. |
| `Disk.DirOf` | lib/server.go:106 | `path.Join(root, container)` is the root itself exactly when the container name is empty, and that container's directory otherwise. |

## Left out

- `getObject` (lib/server.go:164-180) is not part of this model. It reads a file from the disk and never reads or changes the index.
- main.go is not part of this model. It holds flag parsing, the listener, and an older set of handlers with no index.
- HTTP plumbing is not modelled: routing, `mux.Vars`, the `ResponseWriter`, headers and JSON encoding. Handlers take their path variables as parameters and return a status code or a `ListResponse` value.
- Real filesystem I/O is replaced by the `Disk` value. `os.ReadDir` sorts by file name; the model takes the stored listing order as that order and does not model the sorting. A newly created entry is appended to the listing, since only membership matters to the index.
- When `os.ReadDir` fails partway, it returns the entries read so far. The model treats any failed read as no listing. A failed `os.ReadFile` is likewise modelled as no bytes, not as the partial data it may return.
- `io.ReadAll` errors on the request body are not modelled. The body is the bytes that were read.
- The conditions under which `Mkdir` or `RemoveAll` fail are not modelled. Their outcomes are caller-supplied booleans. The `Disk` effect functions describe only successful OS calls.
- `mime.TypeByExtension` is an exact lookup in a table given to the server, with "" for unknown extensions. Go's case-insensitive fallback and its system MIME files are not modelled.
- `path.Join` normalisation is not modelled. Container and object names are atomic, and only `Join(root, "") == root` is kept. The server's `root` string itself is not kept, because the `Disk` is indexed relative to it.
- Concurrency is not modelled. Handlers run one at a time, so the source's unsynchronised map access and its races are not captured.
- Logging (`fmt.Println`) is not modelled.
- The index holds `*ContainerMetadata` and `*ObjectMetadata` references; they are modelled as values. Every entry is freshly allocated and never shared, so no aliasing is lost.
- Go distinguishes a nil `extra` map (left by the scan) from an empty one (made by `createObject`). The model uses an empty map for both, since readers cannot tell them apart.
- A key in `Disk.dirs` or `Disk.files` means the server can read that directory or file. `Disk.Mkdir` and `Disk.WriteFile` create entries the server can read, as a permissive mode (0755, 0644) or a privileged process would. The modes the source actually passes create unreadable entries; see "## Findings", where `Disk.MkdirModeDir` and `Disk.CreateModeExclusive` model them. Overwriting an existing file keeps that file's mode, and the model assumes such a file is writable.
- `Server.Server.ListContainerObjects`: with `exportMeta` set, the model returns the index entry itself. The source JSON-encodes a `*ContainerMetadata` whose only field is unexported, so a client receives `{}`, or `null` for an unindexed container. Both routes pass `false` (lib/server.go:47-48), so no request reaches that branch.
- `contentLength` is a Go `int` and is modelled as an unbounded `nat`.
- `Server.Server.CreateObject`: requires the container to be indexed. When it is not, the source dereferences nil and panics after the write and after the 201 header; the panic is not modelled.
- `Server.Server.DeleteObject`: requires the container to be indexed. When it is not, the source panics on a nil dereference after the `Remove`; the panic is not modelled.

## Findings

| source | as written | input that shows it | evidently intended | confidence | as-written member | corrected member |
|---|---|---|---|---|---|---|
| lib/server.go:79 | The scan reads `os.ReadFile(file.Name())`. That is the bare entry name, resolved against the process's working directory rather than the container. | The root has one directory "c" holding the 2-byte file "x.txt", and the working directory has no "x.txt". The read fails, and the index records length 0 and the offset-basis hash for a 2-byte file. | Read `path.Join(root, dir.Name(), file.Name())`, so that every scanned entry describes its own file. | high; not executed | `Sync.ScanAsWrittenDiverges` | `Sync.ScanJoinedMirrors` |
| lib/server.go:135 | `os.Mkdir(path, fs.ModeDir)`. `fs.ModeDir` is a file-type bit with no permission bits, so the directory is created with mode 0000. | A server running as an ordinary user gets PUT /c for a root that has no entry "c". `Mkdir` succeeds, the handler answers 201 and indexes "c", but `os.ReadDir(root/c)` then fails, so GET /c answers 404 and writes into "c" fail. | Pass a permission such as 0755, so the server can list and fill the containers it creates. | high; not executed | `Sync.CreateContainerModeDirUnlistable` | `Sync.CreateContainerMirrors` |
| lib/server.go:189 | `os.WriteFile(path, bytes, fs.ModeExclusive)`. `fs.ModeExclusive` carries no permission bits, so a new file is created with mode 0000. | A server running as an ordinary user gets PUT /c/x.txt for a new object. The bytes are written through the descriptor just opened and the index records the object, but the file can no longer be read, and a later PUT of the same object cannot reopen it. | Pass a permission such as 0644. | high; not executed | `Sync.CreateObjectModeExclusiveUnreadable` | `Sync.CreateObjectMirrors` |

`Server.Explore` and the `Server` constructor keep the read path as written, because
that is what the running server does. The corrected scan is `ScanIndex(d, m, true)`.
`Sync.ScanJoinedMirrors` proves that it establishes `Mirrors`. The handler lemmas in
`Sync` then preserve `Mirrors` from that starting point.

The handlers in `Server` change only the index, so the two mode findings do not touch
them. The `Sync` lemmas about successful writes use `Disk.Mkdir` and `Disk.WriteFile`,
the readable outcomes. The two lemmas named as as-written members use the mode-0000
outcomes.
