/**
 * The server of lib/server.go: the startup scan `explore`, and the `Server`
 * whose `containers` field is the metadata index that the request handlers
 * read and update in place. HTTP routing and encoding are left out: each
 * handler takes its path variables as parameters and returns its status
 * code or its response value.
 */
module Server {
  import opened Fnv
  import opened Disk
  import opened Metadata

  const StatusOK := 200
  const StatusCreated := 201
  const StatusNoContent := 204
  const StatusNotFound := 404
  const StatusConflict := 409
  const StatusInternalServerError := 500

  /** What the scan has recorded for one container after visiting its entries `files`, in order. */
  ghost function FilesSoFar(d: Disk, mimeTypes: map<string, string>, files: seq<DirEntry>): map<string, ObjectMetadata>
    decreases |files|
  {
    if files == [] then map[]
    else
      var done := FilesSoFar(d, mimeTypes, files[..|files| - 1]);
      var file := files[|files| - 1];
      if file.isDir then done
      else done[file.name := Describe(mimeTypes, file.name, Contents(d, InWorkingDir(file.name)))]
  }

  /** What the scan has recorded after visiting the root entries `dirs`, in order. */
  ghost function ScannedSoFar(d: Disk, mimeTypes: map<string, string>, dirs: seq<DirEntry>): Index
    decreases |dirs|
  {
    if dirs == [] then map[]
    else
      var done := ScannedSoFar(d, mimeTypes, dirs[..|dirs| - 1]);
      var dir := dirs[|dirs| - 1];
      if !dir.isDir then done
      else done[dir.name := ContainerMetadata(FilesSoFar(d, mimeTypes, Listing(d, ContainerDir(dir.name))))]
  }

  /** One more container entry adds its object to the scan when it is not a directory. */
  lemma ScanEntriesSnoc(d: Disk, mimeTypes: map<string, string>, c: string, files: seq<DirEntry>, file: DirEntry)
    ensures ScanEntries(d, mimeTypes, c, files + [file], false) ==
      if file.isDir then ScanEntries(d, mimeTypes, c, files, false)
      else ScanEntries(d, mimeTypes, c, files, false)[file.name := Describe(mimeTypes, file.name, Contents(d, InWorkingDir(file.name)))]
  {
    assert FileNames(files + [file]) == FileNames(files) + if file.isDir then {} else {file.name};
  }

  /** One more root entry adds its container to the scan when it is a directory. */
  lemma ScanDirsSnoc(d: Disk, mimeTypes: map<string, string>, dirs: seq<DirEntry>, dir: DirEntry)
    ensures ScanDirs(d, mimeTypes, dirs + [dir], false) ==
      if dir.isDir then ScanDirs(d, mimeTypes, dirs, false)[dir.name := ContainerMetadata(ScanFiles(d, mimeTypes, dir.name, false))]
      else ScanDirs(d, mimeTypes, dirs, false)
  {
    assert DirNames(dirs + [dir]) == DirNames(dirs) + if dir.isDir then {dir.name} else {};
  }

  /** The in-order visit of a container's entries records what the scan specifies for them. */
  lemma {:induction false} FilesSoFarIsScan(d: Disk, mimeTypes: map<string, string>, c: string, files: seq<DirEntry>)
    ensures FilesSoFar(d, mimeTypes, files) == ScanEntries(d, mimeTypes, c, files, false)
    decreases |files|
  {
    if files != [] {
      var init, file := files[..|files| - 1], files[|files| - 1];
      FilesSoFarIsScan(d, mimeTypes, c, init);
      assert files == init + [file];
      ScanEntriesSnoc(d, mimeTypes, c, init, file);
    }
  }

  /** The in-order visit of the root's entries builds what the scan specifies for them. */
  lemma {:induction false} ScannedSoFarIsScan(d: Disk, mimeTypes: map<string, string>, dirs: seq<DirEntry>)
    ensures ScannedSoFar(d, mimeTypes, dirs) == ScanDirs(d, mimeTypes, dirs, false)
    decreases |dirs|
  {
    if dirs != [] {
      var init, dir := dirs[..|dirs| - 1], dirs[|dirs| - 1];
      ScannedSoFarIsScan(d, mimeTypes, init);
      assert dirs == init + [dir];
      ScanDirsSnoc(d, mimeTypes, init, dir);
      FilesSoFarIsScan(d, mimeTypes, dir.name, Listing(d, ContainerDir(dir.name)));
    }
  }

  /** Visiting the root's whole listing in order builds the scanned index. */
  lemma ScannedSoFarComplete(d: Disk, mimeTypes: map<string, string>)
    ensures ScannedSoFar(d, mimeTypes, Listing(d, RootDir)) == ScanIndex(d, mimeTypes, false)
  {
    ScannedSoFarIsScan(d, mimeTypes, Listing(d, RootDir));
  }

  /** One step of the inner loop of `explore`: the container's entry gains the visited file, if it is one. */
  lemma ExploreFileStep(d: Disk, mimeTypes: map<string, string>, done: Index, name: string, files: seq<DirEntry>, j: nat)
    requires j < |files|
    ensures
      var record := done[name := ContainerMetadata(FilesSoFar(d, mimeTypes, files[..j]))];
      var file := files[j];
      done[name := ContainerMetadata(FilesSoFar(d, mimeTypes, files[..j + 1]))] ==
        if file.isDir then record
        else record[name := ContainerMetadata(record[name].files[file.name :=
          Describe(mimeTypes, file.name, Contents(d, InWorkingDir(file.name)))])]
  {
    assert files[..j + 1][..j] == files[..j];
  }

  /**
   * `explore`: walk the root's directories and, in each, its non-directory
   * entries, reading each file by its bare name; every read error is ignored.
   */
  method Explore(disk: Disk, mimeTypes: map<string, string>) returns (record: Index)
    ensures record == ScanIndex(disk, mimeTypes, false)
  {
    record := map[];
    var dirs := ReadDir(disk, RootDir).GetOr([]);
    for i := 0 to |dirs|
      invariant record == ScannedSoFar(disk, mimeTypes, dirs[..i])
    {
      var dir := dirs[i];
      assert dirs[..i + 1][..i] == dirs[..i];
      if !dir.isDir {
        continue;
      }
      ghost var done := record;
      record := record[dir.name := ContainerMetadata(map[])];

      var files := ReadDir(disk, ContainerDir(dir.name)).GetOr([]);
      for j := 0 to |files|
        invariant record == done[dir.name := ContainerMetadata(FilesSoFar(disk, mimeTypes, files[..j]))]
      {
        var file := files[j];
        ExploreFileStep(disk, mimeTypes, done, dir.name, files, j);
        if file.isDir {
          continue;
        }
        var ext := Ext(file.name);
        var bytes := ReadFile(disk, InWorkingDir(file.name)).GetOr([]);
        var meta := ObjectMetadata(file.name, Hash(bytes), TypeByExtension(mimeTypes, ext), |bytes|, map[]);
        record := record[dir.name := ContainerMetadata(record[dir.name].files[file.name := meta])];
      }
      assert files[..|files|] == files;
    }
    assert dirs[..|dirs|] == dirs;
    ScannedSoFarComplete(disk, mimeTypes);
  }

  /** The names of a directory listing, in listing order. */
  function EntryNames(es: seq<DirEntry>): (names: seq<string>)
    ensures |names| == |es|
    ensures forall k :: 0 <= k < |es| ==> names[k] == es[k].name
  {
    if es == [] then [] else [es[0].name] + EntryNames(es[1..])
  }

  /** The response of `listContainerObjects`. */
  datatype ListResponse =
    | NotFound
    | Names(names: seq<string>)
    | Snapshot(meta: Option<ContainerMetadata>)

  /** The invariant every object entry keeps: keyed by its own name, typed by its extension, no extra metadata. */
  ghost predicate WellFormedEntry(mimeTypes: map<string, string>, o: string, m: ObjectMetadata)
  {
    m.name == o && m.contentType == TypeByExtension(mimeTypes, Ext(o)) && m.extra == map[]
  }

  class Server {
    /** The process's MIME table, which `mime.TypeByExtension` consults. */
    const mimeTypes: map<string, string>
    /** The metadata index: container name -> its objects' metadata. */
    var containers: Index

    ghost predicate Valid()
      reads this
    {
      forall c, o :: c in containers && o in containers[c].files ==>
        WellFormedEntry(mimeTypes, o, containers[c].files[o])
    }

    /** `CreateServer`: the index is whatever `explore` finds on the disk. */
    constructor (disk: Disk, mimeTypes: map<string, string>)
      ensures Valid()
      ensures this.mimeTypes == mimeTypes
      ensures containers == ScanIndex(disk, mimeTypes, false)
    {
      this.mimeTypes := mimeTypes;
      var record := Explore(disk, mimeTypes);
      containers := record;
    }

    /**
     * `listContainerObjects`: list `root/container` (the root itself for the
     * empty name). A read error is NotFound; otherwise either the entry names
     * in listing order or, when `exportMeta` is set, the index entry.
     */
    method ListContainerObjects(disk: Disk, container: string, exportMeta: bool) returns (r: ListResponse)
      ensures ReadDir(disk, DirOf(container)).None? <==> r == NotFound
      ensures ReadDir(disk, DirOf(container)).Some? && exportMeta ==>
        r == Snapshot(if container in containers then Some(containers[container]) else None)
      ensures ReadDir(disk, DirOf(container)).Some? && !exportMeta ==>
        r == Names(EntryNames(ReadDir(disk, DirOf(container)).value))
    {
      var filesEntry := ReadDir(disk, DirOf(container));
      if filesEntry.None? {
        return NotFound;
      }
      if exportMeta {
        return Snapshot(if container in containers then Some(containers[container]) else None);
      }
      var es := filesEntry.value;
      var files := new string[|es|];
      for i := 0 to |es|
        invariant forall k :: 0 <= k < i ==> files[k] == es[k].name
      {
        files[i] := es[i].name;
      }
      assert files[..] == EntryNames(es);
      return Names(files[..]);
    }

    /** `createContainer`: 409 and no change when `os.Mkdir` fails, else 201 and an empty container. */
    method CreateContainer(container: string, mkdirOk: bool) returns (status: int)
      requires Valid()
      modifies this
      ensures Valid()
      ensures status == if mkdirOk then StatusCreated else StatusConflict
      ensures containers == if mkdirOk then WithContainer(old(containers), container) else old(containers)
    {
      if !mkdirOk {
        return StatusConflict;
      }
      containers := containers[container := ContainerMetadata(map[])];
      return StatusCreated;
    }

    /** `deleteContainer`: 500 and no change when `os.RemoveAll` fails, else 204 and the key is gone. */
    method DeleteContainer(container: string, removeOk: bool) returns (status: int)
      requires Valid()
      modifies this
      ensures Valid()
      ensures status == if removeOk then StatusNoContent else StatusInternalServerError
      ensures containers == if removeOk then WithoutContainer(old(containers), container) else old(containers)
    {
      if !removeOk {
        return StatusInternalServerError;
      }
      containers := containers - {container};
      return StatusNoContent;
    }

    /**
     * `createObject`: the write's outcome is ignored, so the status is always
     * 201 and the entry always becomes fresh metadata for `body`. The source
     * dereferences the container's entry unchecked, hence the precondition.
     */
    method CreateObject(container: string, obj: string, body: Bytes) returns (status: int)
      requires Valid()
      requires container in containers
      modifies this
      ensures Valid()
      ensures status == StatusCreated
      ensures containers == WithObject(old(containers), container, obj, Describe(mimeTypes, obj, body))
    {
      var ext := Ext(obj);
      status := StatusCreated;
      var meta := ObjectMetadata(obj, Hash(body), TypeByExtension(mimeTypes, ext), |body|, map[]);
      containers := containers[container := ContainerMetadata(containers[container].files[obj := meta])];
    }

    /**
     * `deleteObject`: the removal's outcome is ignored and no status is
     * written (so HTTP's default 200); the entry is gone afterwards.
     */
    method DeleteObject(container: string, obj: string) returns (status: int)
      requires Valid()
      requires container in containers
      modifies this
      ensures Valid()
      ensures status == StatusOK
      ensures containers == WithoutObject(old(containers), container, obj)
    {
      containers := containers[container := ContainerMetadata(containers[container].files - {obj})];
      status := StatusOK;
    }
  }

  /** `path.Ext("a.png")` is ".png". */
  lemma ExtOfPng()
    ensures Ext("a.png") == ".png"
  {
    var p := "a.png";
    assert p[4] == 'g' && p[3] == 'n' && p[2] == 'p' && p[1] == '.';
    assert ExtFrom(p, 2) == p[1..] == ".png";
    assert ExtFrom(p, 3) == ExtFrom(p, 2);
    assert ExtFrom(p, 4) == ExtFrom(p, 3);
  }

  /**
   * A client of the handlers' contracts: create "photos", store a 17-byte
   * "a.png" in it, then delete the container.
   */
  method PhotosScenario(disk: Disk, body: Bytes)
    requires |body| == 17
  {
    var server := new Server(disk, map[".png" := "image/png"]);
    var status := server.CreateContainer("photos", true);
    assert status == StatusCreated && server.containers["photos"].files == map[];

    status := server.CreateObject("photos", "a.png", body);
    assert status == StatusCreated;
    ExtOfPng();
    var meta := server.containers["photos"].files["a.png"];
    assert meta.contentLength == 17 && meta.hash == Hash(body) && meta.contentType == "image/png";

    status := server.DeleteContainer("photos", true);
    assert status == StatusNoContent && "photos" !in server.containers;
  }
}
