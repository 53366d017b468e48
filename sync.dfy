/**
 * The index as a write-through cache of the disk. `Mirrors` says the index
 * is exactly what a scan of the disk would record; the lemmas say which
 * handler steps keep that true when their OS call succeeds, where the
 * handlers' ignored errors break it, and that the startup scan as written
 * does not establish it.
 */
module Sync {
  import opened Disk
  import opened Metadata
  import Server

  /** The entry for container `c` lists exactly its files, each described by its current bytes. */
  ghost predicate MirrorsContainer(cm: ContainerMetadata, d: Disk, mimeTypes: map<string, string>, c: string)
  {
    && ContainerDir(c) in d.dirs
    && cm.files.Keys == FileNames(d.dirs[ContainerDir(c)])
    && forall o :: o in cm.files ==>
         InContainer(c, o) in d.files && cm.files[o] == Describe(mimeTypes, o, d.files[InContainer(c, o)])
  }

  /** The index has one entry per directory under the root, each mirroring that directory. */
  ghost predicate Mirrors(index: Index, d: Disk, mimeTypes: map<string, string>)
  {
    && RootDir in d.dirs
    && index.Keys == DirNames(d.dirs[RootDir])
    && forall c :: c in index ==> MirrorsContainer(index[c], d, mimeTypes, c)
  }

  /** Every directory under the root and every file in such a directory can be read. */
  ghost predicate Readable(d: Disk)
  {
    && RootDir in d.dirs
    && (forall c :: c in DirNames(d.dirs[RootDir]) ==> ContainerDir(c) in d.dirs)
    && (forall c, o :: ContainerDir(c) in d.dirs && o in FileNames(d.dirs[ContainerDir(c)]) ==> InContainer(c, o) in d.files)
  }

  /** The scan reading each file inside its container mirrors any readable disk. */
  lemma ScanJoinedMirrors(d: Disk, mimeTypes: map<string, string>)
    requires Readable(d)
    ensures Mirrors(ScanIndex(d, mimeTypes, true), d, mimeTypes)
  {
    var index := ScanIndex(d, mimeTypes, true);
    forall c | c in index
      ensures MirrorsContainer(index[c], d, mimeTypes, c)
    {
      var files := index[c].files;
      forall o | o in files
        ensures InContainer(c, o) in d.files && files[o] == Describe(mimeTypes, o, d.files[InContainer(c, o)])
      {
        assert o in FileNames(d.dirs[ContainerDir(c)]);
      }
    }
  }

  /** A disk with one container "c" holding the 2-byte file "x.txt", and nothing in the working directory. */
  function OneFileDisk(): Disk
  {
    Disk(map[RootDir := [DirEntry("c", true)], ContainerDir("c") := [DirEntry("x.txt", false)]],
         map[InContainer("c", "x.txt") := [0x68, 0x69]])
  }

  /** The example disk is readable: the scan has no excuse for missing its file. */
  lemma OneFileDiskReadable()
    ensures Readable(OneFileDisk())
  {
    var d := OneFileDisk();
    assert DirNames(d.dirs[RootDir]) == {"c"} by {
      assert DirEntry("c", true) in d.dirs[RootDir];
    }
    forall c, o | ContainerDir(c) in d.dirs && o in FileNames(d.dirs[ContainerDir(c)])
      ensures InContainer(c, o) in d.files
    {
      assert c == "c";
      var e :| e in d.dirs[ContainerDir(c)] && !e.isDir && e.name == o;
    }
  }

  /**
   * The scan as written reads "x.txt" from the working directory, fails,
   * and records length 0 for a 2-byte file: it does not mirror the disk.
   */
  lemma ScanAsWrittenDiverges(mimeTypes: map<string, string>)
    ensures ScanIndex(OneFileDisk(), mimeTypes, false)["c"].files["x.txt"].contentLength == 0
    ensures !Mirrors(ScanIndex(OneFileDisk(), mimeTypes, false), OneFileDisk(), mimeTypes)
  {
    var d := OneFileDisk();
    assert DirEntry("c", true) in d.dirs[RootDir];
    assert DirEntry("x.txt", false) in d.dirs[ContainerDir("c")];
    var index := ScanIndex(d, mimeTypes, false);
    assert InWorkingDir("x.txt") !in d.files;
    var m := index["c"].files["x.txt"];
    assert m.contentLength == 0 != |d.files[InContainer("c", "x.txt")]|;
  }

  /** The listing of the root names every container of a mirroring index. */
  lemma MirroredContainersListed(index: Index, d: Disk, mimeTypes: map<string, string>, c: string)
    requires Mirrors(index, d, mimeTypes)
    requires c in index
    ensures c in Server.EntryNames(d.dirs[RootDir])
  {
    var es := d.dirs[RootDir];
    var e :| e in es && e.isDir && e.name == c;
    var k :| 0 <= k < |es| && es[k] == e;
    assert Server.EntryNames(es)[k] == c;
  }

  /** `createContainer` after a successful `os.Mkdir` keeps the index mirroring the disk. */
  lemma CreateContainerMirrors(index: Index, d: Disk, mimeTypes: map<string, string>, c: string)
    requires Mirrors(index, d, mimeTypes)
    requires c != ""
    requires forall e :: e in d.dirs[RootDir] ==> e.name != c
    ensures Mirrors(WithContainer(index, c), Mkdir(d, c), mimeTypes)
  {
    var index', d' := WithContainer(index, c), Mkdir(d, c);
    assert DirNames(d'.dirs[RootDir]) == DirNames(d.dirs[RootDir]) + {c} by {
      assert d'.dirs[RootDir] == d.dirs[RootDir] + [DirEntry(c, true)];
    }
    assert FileNames(d'.dirs[ContainerDir(c)]) == {};
    forall c' | c' in index'
      ensures MirrorsContainer(index'[c'], d', mimeTypes, c')
    {
      if c' != c {
        assert MirrorsContainer(index[c'], d, mimeTypes, c');
      }
    }
  }

  /**
   * `createContainer` as written makes the directory with mode 0000: the
   * handler answers 201 and indexes the container, yet listing it then fails
   * (GET answers 404) and the index no longer mirrors the disk.
   */
  lemma CreateContainerModeDirUnlistable(index: Index, d: Disk, mimeTypes: map<string, string>, c: string)
    requires Mirrors(index, d, mimeTypes)
    requires c != ""
    requires forall e :: e in d.dirs[RootDir] ==> e.name != c
    ensures ReadDir(MkdirModeDir(d, c), DirOf(c)).None?
    ensures c in WithContainer(index, c)
    ensures !Mirrors(WithContainer(index, c), MkdirModeDir(d, c), mimeTypes)
  {
    var index', d' := WithContainer(index, c), MkdirModeDir(d, c);
    assert !MirrorsContainer(index'[c], d', mimeTypes, c);
  }

  /**
   * `deleteContainer` after a successful `os.RemoveAll` keeps the index
   * mirroring the disk, and the container can no longer be listed.
   */
  lemma DeleteContainerMirrors(index: Index, d: Disk, mimeTypes: map<string, string>, c: string)
    requires Mirrors(index, d, mimeTypes)
    requires c != ""
    ensures Mirrors(WithoutContainer(index, c), RemoveAll(d, c), mimeTypes)
    ensures ReadDir(RemoveAll(d, c), DirOf(c)).None?
  {
    var index', d' := WithoutContainer(index, c), RemoveAll(d, c);
    assert DirNames(d'.dirs[RootDir]) == DirNames(d.dirs[RootDir]) - {c};
    forall c' | c' in index'
      ensures MirrorsContainer(index'[c'], d', mimeTypes, c')
    {
      assert MirrorsContainer(index[c'], d, mimeTypes, c');
      forall o | o in index'[c'].files
        ensures InContainer(c', o) in d'.files && d'.files[InContainer(c', o)] == d.files[InContainer(c', o)]
      {
      }
    }
  }

  /** A container entry keeps mirroring a disk that did not change its listing or its files. */
  lemma MirrorsContainerFrame(cm: ContainerMetadata, d: Disk, d': Disk, mimeTypes: map<string, string>, c: string)
    requires MirrorsContainer(cm, d, mimeTypes, c)
    requires ContainerDir(c) in d'.dirs && d'.dirs[ContainerDir(c)] == d.dirs[ContainerDir(c)]
    requires forall o :: o in cm.files ==> InContainer(c, o) in d'.files && d'.files[InContainer(c, o)] == d.files[InContainer(c, o)]
    ensures MirrorsContainer(cm, d', mimeTypes, c)
  {
  }

  /** After a write into container `c`, its file names are the old ones plus the written object. */
  lemma WriteFileListsFile(d: Disk, c: string, o: string, bytes: Bytes)
    requires ContainerDir(c) in d.dirs
    ensures FileNames(WriteFile(d, c, o, bytes).dirs[ContainerDir(c)]) == FileNames(d.dirs[ContainerDir(c)]) + {o}
  {
    var es, es' := d.dirs[ContainerDir(c)], WriteFile(d, c, o, bytes).dirs[ContainerDir(c)];
    forall n | n in FileNames(es')
      ensures n in FileNames(es) + {o}
    {
      var e :| e in es' && !e.isDir && e.name == n;
    }
    forall n | n in FileNames(es)
      ensures n in FileNames(es')
    {
      var e :| e in es && !e.isDir && e.name == n;
    }
    assert DirEntry(o, false) in es';
  }

  /** After a write, every object of the updated entry is described by the bytes now on disk. */
  lemma WrittenFilesDescribed(cm: ContainerMetadata, d: Disk, mimeTypes: map<string, string>, c: string, o: string, bytes: Bytes)
    requires MirrorsContainer(cm, d, mimeTypes, c)
    ensures var files, d' := cm.files[o := Describe(mimeTypes, o, bytes)], WriteFile(d, c, o, bytes);
      forall o' :: o' in files ==> InContainer(c, o') in d'.files && files[o'] == Describe(mimeTypes, o', d'.files[InContainer(c, o')])
  {
    var files, d' := cm.files[o := Describe(mimeTypes, o, bytes)], WriteFile(d, c, o, bytes);
    assert d'.files == d.files[InContainer(c, o) := bytes];
    forall o' | o' in files
      ensures InContainer(c, o') in d'.files && files[o'] == Describe(mimeTypes, o', d'.files[InContainer(c, o')])
    {
      if o' != o {
        assert files[o'] == cm.files[o'];
      }
    }
  }

  /** The written container's entry mirrors the container after the write. */
  lemma CreateObjectMirrorsContainer(cm: ContainerMetadata, d: Disk, mimeTypes: map<string, string>, c: string, o: string, bytes: Bytes)
    requires MirrorsContainer(cm, d, mimeTypes, c)
    requires DirEntry(o, true) !in d.dirs[ContainerDir(c)]
    ensures MirrorsContainer(ContainerMetadata(cm.files[o := Describe(mimeTypes, o, bytes)]), WriteFile(d, c, o, bytes), mimeTypes, c)
  {
    WriteFileListsFile(d, c, o, bytes);
    WrittenFilesDescribed(cm, d, mimeTypes, c, o, bytes);
  }

  /**
   * `createObject` after a successful `os.WriteFile` (the object's name is
   * not a directory in the container) keeps the index mirroring the disk.
   */
  lemma CreateObjectMirrors(index: Index, d: Disk, mimeTypes: map<string, string>, c: string, o: string, bytes: Bytes)
    requires Mirrors(index, d, mimeTypes)
    requires c in index
    requires DirEntry(o, true) !in d.dirs[ContainerDir(c)]
    ensures Mirrors(WithObject(index, c, o, Describe(mimeTypes, o, bytes)), WriteFile(d, c, o, bytes), mimeTypes)
  {
    var index', d' := WithObject(index, c, o, Describe(mimeTypes, o, bytes)), WriteFile(d, c, o, bytes);
    assert d'.dirs[RootDir] == d.dirs[RootDir];
    forall c' | c' in index'
      ensures MirrorsContainer(index'[c'], d', mimeTypes, c')
    {
      assert MirrorsContainer(index[c'], d, mimeTypes, c');
      if c' == c {
        CreateObjectMirrorsContainer(index[c], d, mimeTypes, c, o, bytes);
      } else {
        MirrorsContainerFrame(index[c'], d, d', mimeTypes, c');
      }
    }
  }

  /**
   * `createObject` as written creates a new object's file with mode 0000:
   * the index gains the object, yet its file can no longer be read, so the
   * index no longer mirrors the disk.
   */
  lemma CreateObjectModeExclusiveUnreadable(index: Index, d: Disk, mimeTypes: map<string, string>, c: string, o: string, bytes: Bytes)
    requires Mirrors(index, d, mimeTypes)
    requires c in index
    requires forall e :: e in d.dirs[ContainerDir(c)] ==> e.name != o
    ensures ReadFile(CreateModeExclusive(d, c, o), InContainer(c, o)).None?
    ensures o in WithObject(index, c, o, Describe(mimeTypes, o, bytes))[c].files
    ensures !Mirrors(WithObject(index, c, o, Describe(mimeTypes, o, bytes)), CreateModeExclusive(d, c, o), mimeTypes)
  {
    var index', d' := WithObject(index, c, o, Describe(mimeTypes, o, bytes)), CreateModeExclusive(d, c, o);
    assert !MirrorsContainer(index'[c], d', mimeTypes, c);
  }

  /**
   * `createObject` ignores a failed `os.WriteFile`: the disk is unchanged but
   * the index gains the object, so a new object always breaks the mirror.
   */
  lemma CreateObjectFailedWriteDiverges(index: Index, d: Disk, mimeTypes: map<string, string>, c: string, o: string, meta: ObjectMetadata)
    requires Mirrors(index, d, mimeTypes)
    requires c in index
    requires o !in index[c].files
    ensures !Mirrors(WithObject(index, c, o, meta), d, mimeTypes)
  {
    assert MirrorsContainer(index[c], d, mimeTypes, c);
    assert o !in FileNames(d.dirs[ContainerDir(c)]);
  }

  /** The container an object is removed from still mirrors its entry without that object. */
  lemma DeleteObjectMirrorsContainer(cm: ContainerMetadata, d: Disk, mimeTypes: map<string, string>, c: string, o: string)
    requires MirrorsContainer(cm, d, mimeTypes, c)
    ensures MirrorsContainer(ContainerMetadata(cm.files - {o}), Remove(d, c, o), mimeTypes, c)
  {
    var d' := Remove(d, c, o);
    assert FileNames(d'.dirs[ContainerDir(c)]) == FileNames(d.dirs[ContainerDir(c)]) - {o} by {
      forall n | n in FileNames(d.dirs[ContainerDir(c)]) - {o}
        ensures n in FileNames(d'.dirs[ContainerDir(c)])
      {
        var e :| e in d.dirs[ContainerDir(c)] && !e.isDir && e.name == n;
        assert e in d'.dirs[ContainerDir(c)];
      }
    }
  }

  /** `deleteObject` after a successful `os.Remove` keeps the index mirroring the disk. */
  lemma DeleteObjectMirrors(index: Index, d: Disk, mimeTypes: map<string, string>, c: string, o: string)
    requires Mirrors(index, d, mimeTypes)
    requires c in index
    ensures Mirrors(WithoutObject(index, c, o), Remove(d, c, o), mimeTypes)
  {
    var index', d' := WithoutObject(index, c, o), Remove(d, c, o);
    assert d'.dirs[RootDir] == d.dirs[RootDir];
    forall c' | c' in index'
      ensures MirrorsContainer(index'[c'], d', mimeTypes, c')
    {
      assert MirrorsContainer(index[c'], d, mimeTypes, c');
      if c' == c {
        DeleteObjectMirrorsContainer(index[c], d, mimeTypes, c, o);
      } else {
        MirrorsContainerFrame(index[c'], d, d', mimeTypes, c');
      }
    }
  }
}
