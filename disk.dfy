/**
 * The filesystem under the server's root, as a value. A directory listing
 * is the sequence of entries `os.ReadDir` enumerates, in its order; a key
 * missing from `dirs` or `files` is a directory or file whose read fails
 * (absent, unreadable, or a permission error). The functions at the end
 * give the effect of each successful OS write call the handlers make.
 */
module Disk {

  datatype Option<T> = None | Some(value: T) {
    function GetOr(default: T): T
    {
      match this
      case Some(v) => v
      case None => default
    }
  }

  type Bytes = seq<bv8>

  /** One result of `os.ReadDir`: the entry's base name and whether it is a directory. */
  datatype DirEntry = DirEntry(name: string, isDir: bool)

  /** A directory the server lists: the root itself, or `root/<container>`. */
  datatype DirPath = RootDir | ContainerDir(container: string)

  /**
   * A file path handed to the OS: a path inside a container, or a bare
   * name, which the OS resolves against the process's working directory.
   */
  datatype FilePath = InContainer(container: string, name: string) | InWorkingDir(name: string)

  datatype Disk = Disk(dirs: map<DirPath, seq<DirEntry>>, files: map<FilePath, Bytes>)

  /** `path.Join(root, container)`: the empty container name denotes the root itself. */
  function DirOf(container: string): (p: DirPath)
    ensures p == RootDir <==> container == ""
    ensures p.ContainerDir? ==> p.container == container
  {
    if container == "" then RootDir else ContainerDir(container)
  }

  /** `os.ReadDir`: the listing, or `None` when the directory cannot be read. */
  function ReadDir(d: Disk, p: DirPath): Option<seq<DirEntry>>
  {
    if p in d.dirs then Some(d.dirs[p]) else None
  }

  /** `os.ReadFile`: the contents, or `None` when the file cannot be read. */
  function ReadFile(d: Disk, p: FilePath): Option<Bytes>
  {
    if p in d.files then Some(d.files[p]) else None
  }

  /** Names of the directory entries of a listing. */
  function DirNames(es: seq<DirEntry>): set<string>
  {
    set e | e in es && e.isDir :: e.name
  }

  /** Names of the non-directory entries of a listing. */
  function FileNames(es: seq<DirEntry>): set<string>
  {
    set e | e in es && !e.isDir :: e.name
  }

  /** The listing without any entry called `name`, order kept. */
  function Without(es: seq<DirEntry>, name: string): (r: seq<DirEntry>)
    ensures forall e :: e in r <==> e in es && e.name != name
    ensures |r| <= |es|
  {
    if es == [] then []
    else if es[0].name == name then Without(es[1..], name)
    else [es[0]] + Without(es[1..], name)
  }

  /**
   * The effect of a successful `os.Mkdir(root/c, perm)` whose `perm` lets the
   * server read and write the new directory (0755, say): an empty directory,
   * listed under the root. `os.Mkdir` fails when the root already has an entry
   * called `c`, and `root/""` is the root itself, which always exists.
   */
  function Mkdir(d: Disk, c: string): (r: Disk)
    requires c != ""
    requires RootDir in d.dirs ==> forall e :: e in d.dirs[RootDir] ==> e.name != c
    ensures r.files == d.files
    ensures r.dirs.Keys == d.dirs.Keys + {ContainerDir(c)} && r.dirs[ContainerDir(c)] == []
    ensures RootDir in d.dirs ==> r.dirs[RootDir] == d.dirs[RootDir] + [DirEntry(c, true)]
    ensures forall p :: p in d.dirs && p != RootDir && p != ContainerDir(c) ==> r.dirs[p] == d.dirs[p]
  {
    var dirs := d.dirs[ContainerDir(c) := []];
    Disk(if RootDir in d.dirs then dirs[RootDir := d.dirs[RootDir] + [DirEntry(c, true)]] else dirs, d.files)
  }

  /** The effect of a successful `os.RemoveAll(root/c)`: the entry, its listing and every file under it are gone. */
  function RemoveAll(d: Disk, c: string): (r: Disk)
    ensures r.dirs.Keys == d.dirs.Keys - {ContainerDir(c)}
    ensures RootDir in d.dirs ==> r.dirs[RootDir] == Without(d.dirs[RootDir], c)
    ensures forall p :: p in r.dirs && p != RootDir ==> r.dirs[p] == d.dirs[p]
    ensures forall p :: p in r.files <==> p in d.files && !(p.InContainer? && p.container == c)
    ensures forall p :: p in r.files ==> r.files[p] == d.files[p]
  {
    var dirs := map p | p in d.dirs && p != ContainerDir(c) :: d.dirs[p];
    var files := map p | p in d.files && !(p.InContainer? && p.container == c) :: d.files[p];
    Disk(if RootDir in d.dirs then dirs[RootDir := Without(d.dirs[RootDir], c)] else dirs, files)
  }

  /**
   * The effect of a successful `os.WriteFile(root/c/o, bytes, perm)` whose
   * `perm` lets the server read the file back (0644, say): the file holds
   * exactly `bytes`, and the container lists it if it did not already.
   */
  function WriteFile(d: Disk, c: string, o: string, bytes: Bytes): (r: Disk)
    ensures r.files == d.files[InContainer(c, o) := bytes]
    ensures r.dirs.Keys == d.dirs.Keys
    ensures ContainerDir(c) in d.dirs ==> DirEntry(o, false) in r.dirs[ContainerDir(c)]
    ensures ContainerDir(c) in d.dirs ==> forall e :: e in d.dirs[ContainerDir(c)] ==> e in r.dirs[ContainerDir(c)]
    ensures ContainerDir(c) in d.dirs ==> forall e :: e in r.dirs[ContainerDir(c)] ==> e in d.dirs[ContainerDir(c)] || e == DirEntry(o, false)
    ensures forall p :: p in d.dirs && p != ContainerDir(c) ==> r.dirs[p] == d.dirs[p]
  {
    var p := ContainerDir(c);
    var dirs :=
      if p in d.dirs && DirEntry(o, false) !in d.dirs[p] then d.dirs[p := d.dirs[p] + [DirEntry(o, false)]]
      else d.dirs;
    Disk(dirs, d.files[InContainer(c, o) := bytes])
  }

  /**
   * The effect of a successful `os.Mkdir(root/c, fs.ModeDir)`: `fs.ModeDir`
   * is a file-type bit and carries no permission bits, so the directory is
   * created with mode 0000. The root lists it, but a process without
   * privileges can no longer read it.
   */
  function MkdirModeDir(d: Disk, c: string): (r: Disk)
    requires c != ""
    requires RootDir in d.dirs ==> forall e :: e in d.dirs[RootDir] ==> e.name != c
    ensures r.files == d.files
    ensures r.dirs.Keys == d.dirs.Keys - {ContainerDir(c)}
    ensures RootDir in d.dirs ==> r.dirs[RootDir] == d.dirs[RootDir] + [DirEntry(c, true)]
  {
    var dirs := d.dirs - {ContainerDir(c)};
    Disk(if RootDir in d.dirs then dirs[RootDir := d.dirs[RootDir] + [DirEntry(c, true)]] else dirs, d.files)
  }

  /**
   * The effect of `os.WriteFile(root/c/o, bytes, fs.ModeExclusive)` creating
   * a new file: `fs.ModeExclusive` carries no permission bits, so the file is
   * created with mode 0000. The bytes go through the descriptor the call
   * opened, and the container lists the file, but a process without
   * privileges can no longer read it.
   */
  function CreateModeExclusive(d: Disk, c: string, o: string): (r: Disk)
    requires ContainerDir(c) in d.dirs ==> forall e :: e in d.dirs[ContainerDir(c)] ==> e.name != o
    ensures InContainer(c, o) !in r.files
    ensures r.dirs.Keys == d.dirs.Keys
    ensures ContainerDir(c) in d.dirs ==> r.dirs[ContainerDir(c)] == d.dirs[ContainerDir(c)] + [DirEntry(o, false)]
  {
    var p := ContainerDir(c);
    Disk(if p in d.dirs then d.dirs[p := d.dirs[p] + [DirEntry(o, false)]] else d.dirs, d.files - {InContainer(c, o)})
  }

  /** The effect of a successful `os.Remove(root/c/o)`: the entry and the file are gone. */
  function Remove(d: Disk, c: string, o: string): (r: Disk)
    ensures r.files == d.files - {InContainer(c, o)}
    ensures r.dirs.Keys == d.dirs.Keys
    ensures ContainerDir(c) in d.dirs ==> r.dirs[ContainerDir(c)] == Without(d.dirs[ContainerDir(c)], o)
    ensures forall p :: p in d.dirs && p != ContainerDir(c) ==> r.dirs[p] == d.dirs[p]
  {
    var p := ContainerDir(c);
    Disk(if p in d.dirs then d.dirs[p := Without(d.dirs[p], o)] else d.dirs, d.files - {InContainer(c, o)})
  }
}
