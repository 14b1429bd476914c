/**
 * What every run of `create_backup` guarantees, whichever filesystem
 * operations fail: stated over the operations a run performed (its trace)
 * and the files before and after it, as `CreateBackup` promises them.
 */
module BackupFacts {
  import opened Wrappers
  import opened Text
  import opened Hex
  import opened Paths
  import opened FileSystems
  import opened SafetyNet

  /** A run of `create_backup` on `path` that turned the files `files` into `files'`. */
  ghost predicate Run(path: Path, sha: DigestFn, files: map<Path, seq<Byte>>, files': map<Path, seq<Byte>>,
                      ev: seq<Event>)
  {
    && path.parts != []
    && BackupTrace(ev, path, sha, files)
    && FilesFollowTrace(files, files', ev)
  }

  /** The sidecar directory is a child of the file's directory, so the file itself is never inside it. */
  lemma FileIsNotInSidecar(path: Path)
    requires path.parts != []
    ensures !InSidecar(path, path)
    ensures path != IndexPath(path)
  {
    assert |SidecarDir(path).parts| == |path.parts|;
  }

  /** The backup copy and the index are two different entries of the sidecar directory. */
  lemma SidecarEntries(path: Path, h: string)
    requires path.parts != [] && |h| >= 8
    ensures InSidecar(BackupPath(path, h), path) && InSidecar(IndexPath(path), path)
    ensures BackupPath(path, h) != IndexPath(path)
  {
    assert BackupPath(path, h).parts[|BackupPath(path, h).parts| - 1] == BackupFileName(path, h);
  }

  /**
   * Only the copy and the append write, and they write the backup path
   * and the index of `path`, with the file's bytes and its hash.
   */
  lemma LastOfTrace(path: Path, sha: DigestFn, files: map<Path, seq<Byte>>, ev: seq<Event>)
    requires path.parts != [] && BackupTrace(ev, path, sha, files)
    ensures var last := ev[|ev| - 1];
            && (last.CopyFile? || last.AppendText? || last == ReadText(IndexPath(path), true) ==> path in files)
            && (last == ReadText(IndexPath(path), true) ==> Indexed(files, IndexPath(path), FileHash(sha, files[path])))
            && (last.CopyFile? ==> last == CopyFile(path, BackupPath(path, FileHash(sha, files[path])), last.ok))
            && (last.AppendText? ==>
                  var h := FileHash(sha, files[path]);
                  && |ev| >= 2 && ev[|ev| - 2] == CopyFile(path, BackupPath(path, h), true)
                  && last == AppendText(IndexPath(path), h + "\n", last.ok))
  {
    if |ev| > 2 {
      var h := FileHash(sha, files[path]);
      var rest := ev[2..];
      assert StoreTrace(rest, path, h, files);
      var w := if rest[0].ReadText? then rest[1..] else rest;
      assert |w| >= 1 ==> w[|w| - 1] == ev[|ev| - 1];
      assert |w| >= 2 ==> w[|w| - 2] == ev[|ev| - 2];
    }
  }

  /**
   * What a run left behind, by its last operation: nothing changed unless
   * it ended with the copy or the append, and those changed the backup
   * path and the index as `FilesFollowTrace` says.
   */
  lemma LastOperation(path: Path, sha: DigestFn, files: map<Path, seq<Byte>>,
                                         files': map<Path, seq<Byte>>, ev: seq<Event>)
    requires Run(path, sha, files, files', ev)
    ensures var last := ev[|ev| - 1];
            && (!last.CopyFile? && !last.AppendText? ==> files' == files)
            && (last.CopyFile? || last.AppendText? || last == ReadText(IndexPath(path), true) ==> path in files)
            && (last == ReadText(IndexPath(path), true) ==> Indexed(files, IndexPath(path), FileHash(sha, files[path])))
    ensures var last := ev[|ev| - 1];
            path in files && last.CopyFile? ==>
              var b := BackupPath(path, FileHash(sha, files[path]));
              && last == CopyFile(path, b, last.ok)
              && if last.ok then files' == files[b := files[path]] else PartialWrite(files, files', b, [], files[path])
    ensures var last := ev[|ev| - 1];
            path in files && last.AppendText? ==>
              var h := FileHash(sha, files[path]);
              var b := BackupPath(path, h);
              var copied := files[b := files[path]];
              var full := ContentsOr(copied, IndexPath(path)) + AsciiBytes(h + "\n");
              && |ev| >= 2 && ev[|ev| - 2] == CopyFile(path, b, true)
              && last == AppendText(IndexPath(path), h + "\n", last.ok)
              && if last.ok then files' == copied[IndexPath(path) := full]
                 else PartialWrite(copied, files', IndexPath(path), ContentsOr(copied, IndexPath(path)), full)
  {
    LastOfTrace(path, sha, files, ev);
  }

  /**
   * A backup writes only inside the sidecar directory: every other path,
   * the backed-up file first of all, keeps exactly what it held.
   */
  lemma WritesStayInSidecar(path: Path, sha: DigestFn, files: map<Path, seq<Byte>>,
                                               files': map<Path, seq<Byte>>, ev: seq<Event>)
    requires Run(path, sha, files, files', ev)
    ensures forall q :: !InSidecar(q, path) ==> SameAt(files, files', q)
    ensures path in files ==> path in files' && files'[path] == files[path]
  {
    FileIsNotInSidecar(path);
    LastOperation(path, sha, files, files', ev);
    if path in files {
      var h := FileHash(sha, files[path]);
      var b := BackupPath(path, h);
      SidecarEntries(path, h);
      var last := ev[|ev| - 1];
      if last.CopyFile? {
        assert files' == files || files' == files[b := files'[b]];
      } else if last.AppendText? {
        var copied := files[b := files[path]];
        assert files' == copied || files' == copied[IndexPath(path) := files'[IndexPath(path)]];
      }
      forall q | !InSidecar(q, path)
        ensures SameAt(files, files', q)
      {
        assert q != b && q != IndexPath(path);
      }
    }
  }

  /**
   * The index is append-only: whatever a run does, the old index is a
   * prefix of the new one, an existing index is never removed, and it is
   * untouched unless the run ended by appending to it.
   */
  lemma IndexOnlyGrows(path: Path, sha: DigestFn, files: map<Path, seq<Byte>>,
                                          files': map<Path, seq<Byte>>, ev: seq<Event>)
    requires Run(path, sha, files, files', ev)
    ensures ContentsOr(files, IndexPath(path)) <= ContentsOr(files', IndexPath(path))
    ensures IndexPath(path) in files ==> IndexPath(path) in files'
    ensures !ev[|ev| - 1].AppendText? ==> SameAt(files, files', IndexPath(path))
  {
    var index := IndexPath(path);
    LastOperation(path, sha, files, files', ev);
    if path in files {
      var h := FileHash(sha, files[path]);
      SidecarEntries(path, h);
      var last := ev[|ev| - 1];
      if last.AppendText? {
        var copied := files[BackupPath(path, h) := files[path]];
        assert ContentsOr(copied, index) == ContentsOr(files, index);
        if last.ok {
          assert ContentsOr(files', index) == ContentsOr(files, index) + AsciiBytes(h + "\n");
        }
      }
    }
  }

  /**
   * The index is appended to only right after the file was copied in
   * full: the backup copy then holds exactly the file's bytes.
   */
  lemma AppendFollowsCopy(path: Path, sha: DigestFn, files: map<Path, seq<Byte>>,
                                             files': map<Path, seq<Byte>>, ev: seq<Event>)
    requires Run(path, sha, files, files', ev)
    requires ev[|ev| - 1].AppendText?
    ensures path in files
    ensures var h := FileHash(sha, files[path]);
            && |ev| >= 2 && ev[|ev| - 2] == CopyFile(path, BackupPath(path, h), true)
            && ev[|ev| - 1].text == h + "\n"
            && BackupPath(path, h) in files' && files'[BackupPath(path, h)] == files[path]
  {
    LastOperation(path, sha, files, files', ev);
    var h := FileHash(sha, files[path]);
    SidecarEntries(path, h);
  }

  /** A failed copy leaves the index as it was, and at most a prefix of the file at the backup path. */
  lemma FailedCopy(path: Path, sha: DigestFn, files: map<Path, seq<Byte>>,
                                      files': map<Path, seq<Byte>>, ev: seq<Event>)
    requires Run(path, sha, files, files', ev)
    requires ev[|ev| - 1].CopyFile? && !ev[|ev| - 1].ok
    ensures path in files
    ensures SameAt(files, files', IndexPath(path))
    ensures forall q :: q != BackupPath(path, FileHash(sha, files[path])) ==> SameAt(files, files', q)
    ensures var b := BackupPath(path, FileHash(sha, files[path]));
            b in files' ==> SameAt(files, files', b) || files'[b] <= files[path]
    ensures !Succeeded(ev)
  {
    LastOperation(path, sha, files, files', ev);
    SidecarEntries(path, FileHash(sha, files[path]));
  }

  /**
   * A hash the index already lists is not backed up again: once the index
   * was read, the run ends there, successfully and without writing.
   */
  lemma ListedHashIsNotCopied(path: Path, sha: DigestFn, files: map<Path, seq<Byte>>,
                                                 files': map<Path, seq<Byte>>, ev: seq<Event>)
    requires Run(path, sha, files, files', ev)
    requires path in files && Indexed(files, IndexPath(path), FileHash(sha, files[path]))
    requires ReadText(IndexPath(path), true) in ev
    ensures files' == files && Succeeded(ev)
    ensures forall i :: 0 <= i < |ev| ==> !ev[i].CopyFile? && !ev[i].AppendText?
  {
    var h := FileHash(sha, files[path]);
    var index := IndexPath(path);
    var start := [MakeDirs(SidecarDir(path), true), OpenFile(path, true)];
    assert ev[..2] == start;
    var rest := ev[2..];
    assert ev == start + rest;
    assert StoreTrace(rest, path, h, files);
  }

  /**
   * A successful run either found the hash listed and wrote nothing, or
   * copied the file to its backup path and then appended its hash and a
   * line break to the index.
   */
  lemma SuccessfulRun(path: Path, sha: DigestFn, files: map<Path, seq<Byte>>,
                                         files': map<Path, seq<Byte>>, ev: seq<Event>)
    requires Run(path, sha, files, files', ev) && Succeeded(ev)
    ensures path in files
    ensures var h := FileHash(sha, files[path]);
            || (files' == files && Indexed(files, IndexPath(path), h))
            || files' == WithLine(files[BackupPath(path, h) := files[path]], IndexPath(path), h)
  {
    LastOperation(path, sha, files, files', ev);
    LastOfTrace(path, sha, files, ev);
    var h := FileHash(sha, files[path]);
    HexIsPlainText(h);
    if ev[|ev| - 1].AppendText? {
      assert files' == WithLine(files[BackupPath(path, h) := files[path]], IndexPath(path), h);
    }
  }

  /**
   * After a successful run on a well-formed index, the index lists the
   * hash of the file's (unchanged) contents and is still well-formed.
   */
  lemma SuccessListsHash(path: Path, sha: DigestFn, files: map<Path, seq<Byte>>,
                                            files': map<Path, seq<Byte>>, ev: seq<Event>)
    requires Run(path, sha, files, files', ev) && Succeeded(ev)
    requires WellFormedIndex(files, IndexPath(path))
    ensures path in files' && files'[path] == files[path]
    ensures Indexed(files', IndexPath(path), FileHash(sha, files'[path]))
    ensures WellFormedIndex(files', IndexPath(path))
  {
    SuccessfulRun(path, sha, files, files', ev);
    WritesStayInSidecar(path, sha, files, files', ev);
    var h := FileHash(sha, files[path]);
    var index := IndexPath(path);
    if files' != files {
      var copied := files[BackupPath(path, h) := files[path]];
      SidecarEntries(path, h);
      assert SameAt(files, copied, index);
      assert WellFormedIndex(copied, index);
      AppendedHashIsIndexed(copied, index, h);
    }
  }

  /**
   * Backing up the same unchanged file twice: once the first run
   * succeeded, the second, as soon as it reads the index, is a successful
   * no-op.
   */
  lemma SecondBackupIsNoOp(path: Path, sha: DigestFn, files0: map<Path, seq<Byte>>,
                                              files1: map<Path, seq<Byte>>, files2: map<Path, seq<Byte>>,
                                              ev1: seq<Event>, ev2: seq<Event>)
    requires Run(path, sha, files0, files1, ev1) && Succeeded(ev1)
    requires WellFormedIndex(files0, IndexPath(path))
    requires Run(path, sha, files1, files2, ev2)
    requires ReadText(IndexPath(path), true) in ev2
    ensures files2 == files1 && Succeeded(ev2)
    ensures forall i :: 0 <= i < |ev2| ==> !ev2[i].CopyFile?
  {
    SuccessListsHash(path, sha, files0, files1, ev1);
    ListedHashIsNotCopied(path, sha, files1, files2, ev2);
  }

  /**
   * The first backup into a sidecar directory without an index: when it
   * succeeds, the index holds exactly one line, the file's hash, and the
   * backup path holds the file's bytes.
   */
  lemma FirstBackup(path: Path, sha: DigestFn, files: map<Path, seq<Byte>>,
                                       files': map<Path, seq<Byte>>, ev: seq<Event>)
    requires Run(path, sha, files, files', ev) && Succeeded(ev)
    requires IndexPath(path) !in files
    ensures path in files
    ensures var h := FileHash(sha, files[path]);
            && IndexPath(path) in files' && Decode(files'[IndexPath(path)]).Some?
            && Lines(Decode(files'[IndexPath(path)]).value) == [h]
            && BackupPath(path, h) in files' && files'[BackupPath(path, h)] == files[path]
  {
    SuccessfulRun(path, sha, files, files', ev);
    var h := FileHash(sha, files[path]);
    var copied := files[BackupPath(path, h) := files[path]];
    SidecarEntries(path, h);
    assert IndexPath(path) !in copied;
    AppendedHashIsIndexed(copied, IndexPath(path), h);
  }

  /** A file with an extension keeps it: `photo.jpg` is backed up as `photo_<8 digits>.jpg`. */
  lemma PhotoBackupName(dir: seq<string>, h: string)
    requires |h| >= 8
    ensures BackupFileName(Path(true, dir + ["photo.jpg"]), h) == "photo_" + h[..8] + ".jpg"
  {
    var p := Path(true, dir + ["photo.jpg"]);
    PhotoLiterals();
    assert p.FileStem() == Some("photo") && p.Extension() == Some("jpg") by {
      SplitFileNameJoin("photo", "jpg");
    }
    AppendAssociative("photo_" + h[..8], ".", "jpg");
  }

  lemma PhotoLiterals()
    ensures "photo" + "." + "jpg" == "photo.jpg"
    ensures "photo" + "_" == "photo_" && "." + "jpg" == ".jpg"
  {
  }

  /** A file without an extension gets ".bak": `README` is backed up as `README_<8 digits>.bak`. */
  lemma ReadmeBackupName(dir: seq<string>, h: string)
    requires |h| >= 8
    ensures BackupFileName(Path(true, dir + ["README"]), h) == "README_" + h[..8] + ".bak"
  {
    var name := "README";
    assert LastDot(name) == None by {
      assert forall k :: 0 <= k < |name| ==> name[k] != '.';
    }
    assert "README" + "_" == "README_";
  }

  /** A trailing '.' is an empty extension, which also gets ".bak": `notes.` becomes `notes_<8 digits>.bak`. */
  lemma TrailingDotBackupName(dir: seq<string>, h: string)
    requires |h| >= 8
    ensures BackupFileName(Path(true, dir + ["notes."]), h) == "notes_" + h[..8] + ".bak"
  {
    var p := Path(true, dir + ["notes."]);
    assert "notes" + "." + "" == "notes." && "notes" + "_" == "notes_";
    assert p.FileStem() == Some("notes") && p.Extension() == Some("") by {
      SplitFileNameJoin("notes", "");
    }
  }

  /**
   * A leading '.' does not start an extension: `.bashrc` keeps its whole
   * name as its stem and becomes `.bashrc_<8 digits>.bak`.
   */
  lemma DotFileBackupName(dir: seq<string>, h: string)
    requires |h| >= 8
    ensures BackupFileName(Path(true, dir + [".bashrc"]), h) == ".bashrc_" + h[..8] + ".bak"
  {
    var name := ".bashrc";
    assert LastDot(name) == Some(0) by {
      assert name[0] == '.';
      assert forall k :: 0 < k < |name| ==> name[k] != '.';
    }
    assert ".bashrc" + "_" == ".bashrc_";
  }
}
