/**
 * The request handlers that touch files: serving an image, and deleting or
 * renaming a file. Deleting and renaming first check their request, then
 * back the file up (a failed backup only produces a warning), and only
 * then change the filesystem.
 */
module Handlers {
  import opened Wrappers
  import opened Text
  import opened Hex
  import opened Paths
  import opened FileSystems
  import opened SafetyNet
  import opened BackupFacts
  import opened Images

  /** The HTTP status codes the handlers answer with. */
  datatype Status = OK | NotFound | BadRequest | Conflict | InternalServerError

  /**
   * `serve_image_handler`, from the decoded path on: a path that is not
   * an existing regular file is NOT_FOUND, a failed read is
   * INTERNAL_SERVER_ERROR, otherwise the file's bytes with the content
   * type its extension selects.
   */
  method ServeImageHandler(fs: FileSystem, path: Path) returns (r: Result<(seq<Byte>, string), Status>)
    ensures path !in fs.files ==> r == Err(NotFound)
    ensures r.Err? ==> r.error == NotFound || r.error == InternalServerError
    ensures r.Ok? ==> path in fs.files && r.value == (fs.files[path], ContentType(path))
  {
    var present := fs.Exists(path);
    if !present {
      return Err(NotFound);
    }
    var isFile := fs.IsFile(path);
    if !isFile {
      return Err(NotFound);
    }
    var content := fs.ReadAll(path);
    if content.Err? {
      return Err(InternalServerError);
    }
    r := Ok((content.value, ContentType(path)));
  }

  /** The warning a handler logs for a failed backup, if any. */
  function Warning(backup: Result<(), BackupError>): (w: Option<BackupError>)
    ensures w.Some? <==> backup.Err?
    ensures w.Some? ==> w.value == backup.error
  {
    if backup.Err? then Some(backup.error) else None
  }

  /**
   * `delete_file_handler`. A path that is not an existing regular file is
   * NOT_FOUND and nothing is done. Otherwise the file is backed up and
   * then removed, whether the backup succeeded or not; a failed backup
   * is reported as a warning, a failed removal as INTERNAL_SERVER_ERROR.
   * The ghost `backup` and `afterBackup` are the backup's operations and
   * the files it left.
   */
  method DeleteFileHandler(fs: FileSystem, path: Path, sha: DigestFn)
      returns (status: Status, warning: Option<BackupError>,
               ghost backup: seq<Event>, ghost afterBackup: map<Path, seq<Byte>>)
    requires fs.Valid()
    modifies fs
    ensures fs.Valid() && old(fs.dirs) <= fs.dirs
    // Directories are only ever added by the backup: the sidecar and its ancestors.
    ensures status != NotFound ==> path.parts != [] && fs.dirs <= old(fs.dirs) + Ancestry(SidecarDir(path))
    ensures status != NotFound && warning == None ==> Ancestry(SidecarDir(path)) <= fs.dirs
    ensures path !in old(fs.files) ==> status == NotFound
    ensures status == NotFound ==>
              && warning == None
              && fs.log == old(fs.log) && fs.files == old(fs.files) && fs.dirs == old(fs.dirs)
    ensures status != NotFound ==>
              && path in old(fs.files)
              && Run(path, sha, old(fs.files), afterBackup, backup)
              && (warning == None <==> Succeeded(backup))
              && fs.log == old(fs.log) + backup + [RemoveFile(path, status == OK)]
              && (status == OK ==> fs.files == afterBackup - {path})
              && (status != OK ==> status == InternalServerError && fs.files == afterBackup)
  {
    backup, afterBackup := [], fs.files;
    var present := fs.Exists(path);
    if !present {
      return NotFound, None, backup, afterBackup;
    }
    var isFile := fs.IsFile(path);
    if !isFile {
      return NotFound, None, backup, afterBackup;
    }
    var backedUp;
    backedUp, backup := CreateBackup(fs, path, sha);
    afterBackup := fs.files;
    warning := Warning(backedUp);
    var removed := fs.Remove(path);
    status := if removed then OK else InternalServerError;
  }

  /**
   * After a delete whose backup succeeded on a well-formed index, the
   * file is gone but the index lists the hash of its contents; when the
   * backup made a fresh copy, that copy holds exactly the deleted bytes.
   */
  lemma DeletedBytesRecoverable(path: Path, sha: DigestFn, files: map<Path, seq<Byte>>,
                                                   afterBackup: map<Path, seq<Byte>>, backup: seq<Event>)
    requires Run(path, sha, files, afterBackup, backup) && Succeeded(backup)
    requires WellFormedIndex(files, IndexPath(path))
    ensures path in files
    ensures var after := afterBackup - {path};
            var h := FileHash(sha, files[path]);
            && path !in after
            && Indexed(after, IndexPath(path), h)
            && (backup[|backup| - 1].AppendText? ==> BackupPath(path, h) in after && after[BackupPath(path, h)] == files[path])
  {
    SuccessListsHash(path, sha, files, afterBackup, backup);
    FileIsNotInSidecar(path);
    var h := FileHash(sha, files[path]);
    SidecarEntries(path, h);
    assert SameAt(afterBackup, afterBackup - {path}, IndexPath(path));
    if backup[|backup| - 1].AppendText? {
      AppendFollowsCopy(path, sha, files, afterBackup, backup);
    }
  }

  /**
   * Where a rename puts the file: a relative new name is taken from the
   * old file's directory (a plain name stays in it), an absolute one is
   * used as it is.
   */
  function RenameTarget(oldPath: Path, newName: Path): (p: Path)
    requires oldPath.parts != []
    ensures newName.absolute ==> p == newName
    ensures !newName.absolute ==>
              p.absolute == oldPath.absolute && p.parts == oldPath.parts[..|oldPath.parts| - 1] + newName.parts
    ensures !newName.absolute && |newName.parts| == 1 ==> p.Parent() == oldPath.Parent()
  {
    oldPath.Parent().value.Join(newName)
  }

  /**
   * `rename_file_handler`. A source that is not an existing regular file
   * is NOT_FOUND, and a target that the `exists` probe finds is CONFLICT;
   * in both cases nothing is done. A probe that fails on an existing
   * target lets the rename go on and replace it. Otherwise the source is backed up and then renamed,
   * whether the backup succeeded or not; a failed backup is reported as
   * a warning, a failed rename as INTERNAL_SERVER_ERROR.
   */
  method RenameFileHandler(fs: FileSystem, oldPath: Path, newName: Path, sha: DigestFn)
      returns (status: Status, warning: Option<BackupError>,
               ghost backup: seq<Event>, ghost afterBackup: map<Path, seq<Byte>>)
    requires fs.Valid()
    modifies fs
    ensures fs.Valid() && old(fs.dirs) <= fs.dirs
    // Directories are only ever added by the backup: the sidecar and its ancestors.
    ensures status != NotFound && status != Conflict ==>
              oldPath.parts != [] && fs.dirs <= old(fs.dirs) + Ancestry(SidecarDir(oldPath))
    ensures status != NotFound && status != Conflict && warning == None ==> Ancestry(SidecarDir(oldPath)) <= fs.dirs
    ensures oldPath !in old(fs.files) ==> status == NotFound
    ensures status == NotFound || status == Conflict ==>
              && warning == None
              && fs.log == old(fs.log) && fs.files == old(fs.files) && fs.dirs == old(fs.dirs)
    ensures status == Conflict ==>
              && oldPath in old(fs.files)
              && var target := RenameTarget(oldPath, newName);
                 target in old(fs.files) || old(fs.IsDirectory(target))
    ensures status != NotFound && status != Conflict ==>
              && oldPath in old(fs.files)
              && var target := RenameTarget(oldPath, newName);
                 && Run(oldPath, sha, old(fs.files), afterBackup, backup)
                 && (warning == None <==> Succeeded(backup))
                 && fs.log == old(fs.log) + backup + [RenameFile(oldPath, target, status == OK)]
                 && (status == OK ==> fs.files == (afterBackup - {oldPath})[target := old(fs.files)[oldPath]])
                 && (status != OK ==> status == InternalServerError && fs.files == afterBackup)
  {
    backup, afterBackup := [], fs.files;
    var present := fs.Exists(oldPath);
    if !present {
      return NotFound, None, backup, afterBackup;
    }
    var isFile := fs.IsFile(oldPath);
    if !isFile {
      return NotFound, None, backup, afterBackup;
    }
    // A regular file always has a parent directory, so the BAD_REQUEST
    // answer for a missing parent cannot be given.
    var parentDir := oldPath.Parent().value;
    var newPath := parentDir.Join(newName);
    assert newPath == RenameTarget(oldPath, newName);
    var taken := fs.Exists(newPath);
    if taken {
      return Conflict, None, backup, afterBackup;
    }
    ghost var files0 := fs.files;
    var backedUp;
    backedUp, backup := CreateBackup(fs, oldPath, sha);
    afterBackup := fs.files;
    WritesStayInSidecar(oldPath, sha, files0, afterBackup, backup);
    warning := Warning(backedUp);
    var renamed := fs.Rename(oldPath, newPath);
    status := if renamed then OK else InternalServerError;
  }
}
