/**
 * The backup engine: before a file is deleted or renamed, a copy of it is
 * kept in a hidden `.safety_net` directory beside it, normally once per
 * distinct content. `index.txt` in that directory lists, one per line, the
 * SHA-256 (lowercase hexadecimal) of every content already backed up
 * there; a listed hash is not copied again once the index has been read.
 * Deduplication is missed in two ways: when the `exists` probe of the
 * index fails, the index is not read and the content is copied again; and
 * when an earlier append was cut short before its line break, the next
 * hash is glued to that partial line and is not listed.
 */
module SafetyNet {
  import opened Wrappers
  import opened Text
  import opened Hex
  import opened Paths
  import opened FileSystems

  const SidecarName := ".safety_net"
  const IndexName := "index.txt"
  /** Size of the read buffer `calculate_file_hash` hashes through. */
  const BufferSize := 8192
  /** Stem used when the file name has none. */
  const FallbackStem := "file"
  /** Suffix used when the file name has no (or an empty) extension. */
  const FallbackSuffix := ".bak"

  datatype BackupError =
    | NoParentDirectory   // the path is a root or empty: it has no parent directory
    | Io(cause: IoError)  // a failed filesystem operation, propagated by `?`

  // ---------------------------------------------------------------------
  // Where things go
  // ---------------------------------------------------------------------

  /** `<parent>/.safety_net` for a path that has a parent: a sibling of the file. */
  function SidecarDir(file: Path): (d: Path)
    requires file.parts != []
    ensures d.Parent() == file.Parent()
    ensures d.FileName() == Some(SidecarName)
  {
    file.Parent().value.Child(SidecarName)
  }

  /** `<parent>/.safety_net/index.txt`. */
  function IndexPath(file: Path): (p: Path)
    requires file.parts != []
    ensures p.Parent() == Some(SidecarDir(file))
    ensures p.FileName() == Some(IndexName)
  {
    SidecarDir(file).Child(IndexName)
  }

  /** `q` is an entry directly inside the sidecar directory of `file`. */
  predicate InSidecar(q: Path, file: Path)
    requires file.parts != []
  {
    q.Parent() == Some(SidecarDir(file))
  }

  /**
   * `<stem>_<first 8 hex digits>.<ext>`, or `<stem>_<first 8 hex digits>.bak`
   * when the extension is missing or empty; the stem is "file" when the
   * path has no file name.
   */
  function BackupFileName(file: Path, hash: string): (name: string)
    requires |hash| >= 8
    ensures name != IndexName
  {
    var stem := file.FileStem().GetOr(FallbackStem);
    var ext := file.Extension().GetOr("");
    var name := if ext == "" then stem + "_" + hash[..8] + FallbackSuffix
                else stem + "_" + hash[..8] + "." + ext;
    assert |name| > |IndexName|;
    name
  }

  /** Where the copy goes: inside the sidecar, under its backup name, never the index. */
  function BackupPath(file: Path, hash: string): (p: Path)
    requires file.parts != [] && |hash| >= 8
    ensures p.Parent() == Some(SidecarDir(file))
    ensures p.FileName() == Some(BackupFileName(file, hash))
    ensures p != IndexPath(file)
  {
    SidecarDir(file).Child(BackupFileName(file, hash))
  }

  /**
   * The backup keeps the original's extension, or gets "bak" when there is
   * none, and its stem is the original stem followed by "_" and the first
   * eight digits of the hash.
   */
  lemma BackupNameParts(file: Path, hash: string)
    requires file.parts != [] && |hash| >= 8 && IsLowerHex(hash)
    ensures var ext := file.Extension().GetOr("");
            var backup := BackupPath(file, hash);
            && backup.FileStem() == Some(file.FileStem().GetOr(FallbackStem) + "_" + hash[..8])
            && backup.Extension() == Some(if ext == "" then "bak" else ext)
  {
    var stem := file.FileStem().GetOr(FallbackStem);
    var ext := file.Extension().GetOr("");
    var base := stem + "_" + hash[..8];
    assert |base| >= 9;
    var suffix := if ext == "" then "bak" else ext;
    assert forall k :: 0 <= k < |suffix| ==> suffix[k] != '.' by {
      if ext != "" {
        var name := file.FileName().value;
        assert SplitFileName(name).1 == Some(ext);
      }
    }
    var name := BackupFileName(file, hash);
    assert name == base + "." + suffix;
    assert |name| > 2;
    SplitFileNameJoin(base, suffix);
    assert name != "." && name != "..";
  }

  // ---------------------------------------------------------------------
  // Hashing a file: `calculate_file_hash`
  // ---------------------------------------------------------------------

  function Concat(chunks: seq<seq<Byte>>): seq<Byte> {
    if chunks == [] then [] else Concat(chunks[..|chunks| - 1]) + chunks[|chunks| - 1]
  }

  /**
   * Opens the file and feeds the SHA-256 hasher with what each read puts in
   * an 8192-byte buffer, until a read returns 0. The ghost `chunks` are the
   * slices fed to the hasher, in order.
   */
  method CalculateFileHash(fs: FileSystem, path: Path, sha: DigestFn)
      returns (r: Result<string, IoError>, ghost isOpen: bool, ghost chunks: seq<seq<Byte>>)
    modifies fs`log
    ensures fs.log == old(fs.log) + [OpenFile(path, isOpen)]
    ensures r.Ok? ==> isOpen
    ensures r.Ok? ==> path in fs.files && r.value == FileHash(sha, fs.files[path])
    ensures r.Ok? ==> Concat(chunks) == fs.files[path]
    ensures r.Ok? ==> forall i :: 0 <= i < |chunks| ==> 0 < |chunks[i]| <= BufferSize
  {
    chunks := [];
    var isReadable := fs.Open(path);
    isOpen := isReadable;
    if !isReadable {
      return Err(IoError), isOpen, chunks;
    }
    var buffer := new Byte[BufferSize];
    var fed: seq<Byte> := [];  // everything the hasher has been updated with
    var pos := 0;
    while true
      invariant fs.log == old(fs.log) + [OpenFile(path, true)]
      invariant path in fs.files && pos <= |fs.files[path]|
      invariant fed == fs.files[path][..pos]
      invariant Concat(chunks) == fed
      invariant forall i :: 0 <= i < |chunks| ==> 0 < |chunks[i]| <= BufferSize
      decreases |fs.files[path]| - pos
    {
      var read := fs.Read(path, pos, buffer);
      if read.Err? {
        return Err(read.error), isOpen, chunks;
      }
      var n := read.value;
      if n == 0 {
        break;
      }
      fed := fed + buffer[..n];
      chunks := chunks + [buffer[..n]];
      pos := pos + n;
    }
    assert fed == fs.files[path];
    r := Ok(ToHex(sha(fed)));
  }

  // ---------------------------------------------------------------------
  // The index
  // ---------------------------------------------------------------------

  /** `files` and `files'` agree on `q`: both lack it, or both hold the same bytes there. */
  ghost predicate SameAt(files: map<Path, seq<Byte>>, files': map<Path, seq<Byte>>, q: Path) {
    (q in files <==> q in files') && (q in files ==> files[q] == files'[q])
  }

  /** The index lists `h`: it exists, reads as text, and one of its lines is exactly `h`. */
  ghost predicate Indexed(files: map<Path, seq<Byte>>, index: Path, h: string) {
    index in files && Decode(files[index]).Some? && h in Lines(Decode(files[index]).value)
  }

  /** The index is absent, or is text that ends with a line break (or is empty). */
  ghost predicate WellFormedIndex(files: map<Path, seq<Byte>>, index: Path) {
    index !in files || (Decode(files[index]).Some? && EndsLine(Decode(files[index]).value))
  }

  /** The files after the index at `index` had the line `h` appended (the file is created when absent). */
  function WithLine(files: map<Path, seq<Byte>>, index: Path, h: string): map<Path, seq<Byte>>
    requires IsLowerHex(h)
  {
    HexIsPlainText(h);
    files[index := ContentsOr(files, index) + AsciiBytes(h + "\n")]
  }

  /**
   * Appending a hash and a line break to a well-formed index adds exactly
   * that hash as a new last line, and keeps the index well-formed.
   */
  lemma AppendedHashIsIndexed(files: map<Path, seq<Byte>>, index: Path, h: string)
    requires WellFormedIndex(files, index) && IsLowerHex(h)
    ensures var files' := WithLine(files, index, h);
            && Indexed(files', index, h)
            && WellFormedIndex(files', index)
            && Lines(Decode(files'[index]).value)
               == (if index in files then Lines(Decode(files[index]).value) else []) + [h]
  {
    HexIsPlainText(h);
    var before := ContentsOr(files, index);
    var text := if index in files then Decode(files[index]).value else "";
    assert Decode(before) == Some(text);
    DecodeAscii(h + "\n");
    DecodeAppend(before, AsciiBytes(h + "\n"));
    LinesAppendLine(text, h);
    assert StripCarriageReturn(h) == h;
    if index !in files {
      assert Lines(text) == [];
    }
  }

  // ---------------------------------------------------------------------
  // What a run of `create_backup` may do
  // ---------------------------------------------------------------------

  /**
   * The writes of a backup of `path` whose hash `h` the index did not
   * list: a copy to the backup path that failed, or one that succeeded
   * followed by the append of `h` and a line break to the index.
   */
  ghost predicate MissWrites(w: seq<Event>, path: Path, h: string)
    requires path.parts != [] && |h| >= 8
  {
    || w == [CopyFile(path, BackupPath(path, h), false)]
    || (&& |w| == 2
        && w == [CopyFile(path, BackupPath(path, h), true), AppendText(IndexPath(path), h + "\n", w[1].ok)])
  }

  /**
   * The operations of a backup of `path` after its hash `h` is known: if
   * the index was found, read it, and stop there when that fails or the
   * index lists `h`; otherwise go on with the writes of a miss.
   */
  ghost predicate StoreTrace(ev: seq<Event>, path: Path, h: string, files: map<Path, seq<Byte>>)
    requires path.parts != [] && |h| >= 8
  {
    var index := IndexPath(path);
    && |ev| >= 1
    && if ev[0].ReadText? then
         && ev[0] == ReadText(index, ev[0].ok)
         && if !ev[0].ok || Indexed(files, index, h) then |ev| == 1 else MissWrites(ev[1..], path, h)
       else MissWrites(ev, path, h)
  }

  /**
   * The operations a backup of `path` (with a parent) performs, in order:
   * create the sidecar directory, open the file to hash it (opening or
   * reading it may fail), then go on as `StoreTrace` says with the hash of
   * its contents. Every run stops at its first failure.
   */
  ghost predicate BackupTrace(ev: seq<Event>, path: Path, sha: DigestFn, files: map<Path, seq<Byte>>)
    requires path.parts != []
  {
    && |ev| >= 1
    && ev[0] == MakeDirs(SidecarDir(path), ev[0].ok)
    && if !ev[0].ok then |ev| == 1
       else
         && |ev| >= 2
         && ev[1] == OpenFile(path, ev[1].ok)
         && (|ev| == 2 || (ev[1].ok && path in files && StoreTrace(ev[2..], path, FileHash(sha, files[path]), files)))
  }

  /** `files'` is `files`, or has `p` set to bytes that extend `low` and are a prefix of `high`. */
  ghost predicate PartialWrite(files: map<Path, seq<Byte>>, files': map<Path, seq<Byte>>, p: Path,
                               low: seq<Byte>, high: seq<Byte>)
  {
    files' == files || (p in files' && files' == files[p := files'[p]] && low <= files'[p] <= high)
  }

  /**
   * The files after a run whose operations were `ev`, from `files`: only
   * the last operation can have failed, it decides what was written, and
   * an append follows the copy that precedes it.
   */
  ghost predicate FilesFollowTrace(files: map<Path, seq<Byte>>, files': map<Path, seq<Byte>>, ev: seq<Event>) {
    if ev == [] then files' == files
    else match ev[|ev| - 1]
      case CopyFile(src, dst, ok) =>
        && src in files
        && if ok then files' == files[dst := files[src]] else PartialWrite(files, files', dst, [], files[src])
      case AppendText(file, text, ok) =>
        && |ev| >= 2 && ev[|ev| - 2].CopyFile? && ev[|ev| - 2].src in files && IsAscii(text)
        && var copied := files[ev[|ev| - 2].dst := files[ev[|ev| - 2].src]];
           var full := ContentsOr(copied, file) + AsciiBytes(text);
           if ok then files' == copied[file := full]
           else PartialWrite(copied, files', file, ContentsOr(copied, file), full)
      case _ => files' == files
  }

  /** The run ended well: the index was read and listed the hash, or the append succeeded. */
  predicate Succeeded(ev: seq<Event>) {
    |ev| > 0 && ((ev[|ev| - 1].ReadText? && ev[|ev| - 1].ok) || (ev[|ev| - 1].AppendText? && ev[|ev| - 1].ok))
  }

  // ---------------------------------------------------------------------
  // `create_backup`
  // ---------------------------------------------------------------------

  /**
   * The index check of `create_backup`: when the index exists, read it as
   * text and look for a line that is exactly `h`. An index that was not
   * seen counts as not listing `h`.
   */
  method IndexLists(fs: FileSystem, index: Path, h: string)
      returns (r: Result<bool, IoError>, ghost read: seq<Event>)
    modifies fs`log
    ensures fs.log == old(fs.log) + read
    ensures r.Err? ==> read == [ReadText(index, false)]
    ensures r == Ok(true) ==> read == [ReadText(index, true)] && Indexed(fs.files, index, h)
    ensures r == Ok(false) ==> read == [] || (read == [ReadText(index, true)] && !Indexed(fs.files, index, h))
  {
    var indexExists := fs.Exists(index);
    if !indexExists {
      return Ok(false), [];
    }
    var content := fs.ReadToString(index);
    read := [ReadText(index, content.Ok?)];
    if content.Err? {
      return Err(content.error), read;
    }
    r := Ok(h in Lines(content.value));
  }

  /**
   * The writes of `create_backup` on a miss: copy the file to its backup
   * path, then, only if the copy succeeded, append the hash and a line
   * break to the index. True when both succeeded.
   */
  method CopyAndRecord(fs: FileSystem, path: Path, fileHash: string)
      returns (ok: bool, ghost writes: seq<Event>)
    requires fs.Valid() && path.parts != [] && path in fs.files
    requires |fileHash| == 64 && IsLowerHex(fileHash)
    modifies fs
    ensures fs.Valid() && fs.dirs == old(fs.dirs)
    ensures fs.log == old(fs.log) + writes
    ensures MissWrites(writes, path, fileHash)
    ensures ok <==> writes[|writes| - 1].AppendText? && writes[|writes| - 1].ok
    ensures FilesFollowTrace(old(fs.files), fs.files, writes)
  {
    var backupDir := SidecarDir(path);
    var backupPath := backupDir.Child(BackupFileName(path, fileHash));
    assert |backupPath.parts| != |path.parts|;
    ok := fs.Copy(path, backupPath);
    if !ok {
      return ok, [CopyFile(path, backupPath, false)];
    }
    HexIsPlainText(fileHash);
    var indexPath := backupDir.Child(IndexName);
    ok := fs.Append(indexPath, fileHash + "\n");
    writes := [CopyFile(path, backupPath, true), AppendText(indexPath, fileHash + "\n", ok)];
  }

  /** Reads before the writes change neither what the writes did to the files nor how the run ended. */
  lemma WritesAfterReads(files: map<Path, seq<Byte>>, files': map<Path, seq<Byte>>, before: seq<Event>,
                         writes: seq<Event>)
    requires FilesFollowTrace(files, files', writes)
    requires |writes| >= 1 && (writes[|writes| - 1].AppendText? ==> |writes| >= 2)
    ensures FilesFollowTrace(files, files', before + writes)
    ensures Succeeded(before + writes) <==> Succeeded(writes)
  {
    var ev := before + writes;
    assert ev[|ev| - 1] == writes[|writes| - 1];
    if |writes| >= 2 {
      assert ev[|ev| - 2] == writes[|writes| - 2];
    }
  }

  /**
   * The part of `create_backup` after hashing: consult the index, and on
   * a miss copy the file into the sidecar directory and record `fileHash`.
   */
  method StoreBackup(fs: FileSystem, path: Path, fileHash: string)
      returns (r: Result<(), BackupError>, ghost events: seq<Event>)
    requires fs.Valid() && path.parts != [] && path in fs.files
    requires |fileHash| == 64 && IsLowerHex(fileHash)
    modifies fs
    ensures fs.Valid() && fs.dirs == old(fs.dirs)
    ensures fs.log == old(fs.log) + events
    ensures StoreTrace(events, path, fileHash, old(fs.files))
    ensures FilesFollowTrace(old(fs.files), fs.files, events)
    ensures r.Ok? <==> Succeeded(events)
    ensures r != Err(NoParentDirectory)
  {
    ghost var files0, log0 := fs.files, fs.log;
    var backupDir := SidecarDir(path);
    var indexPath := backupDir.Child(IndexName);
    var listed;
    ghost var read;
    listed, read := IndexLists(fs, indexPath, fileHash);
    if listed.Err? || listed.value {
      return if listed.Err? then Err(Io(listed.error)) else Ok(()), read;
    }
    var copied;
    ghost var writes;
    copied, writes := CopyAndRecord(fs, path, fileHash);
    events := read + writes;
    AppendAssociative(log0, read, writes);
    AfterIndexCheck(path, fileHash, files0, fs.files, read, writes);
    r := if copied then Ok(()) else Err(Io(IoError));
  }

  /** A miss of the index check followed by the writes of a miss is a run after hashing. */
  lemma AfterIndexCheck(path: Path, h: string, files: map<Path, seq<Byte>>, files': map<Path, seq<Byte>>,
                        read: seq<Event>, writes: seq<Event>)
    requires path.parts != [] && |h| >= 8
    requires read == [] || (read == [ReadText(IndexPath(path), true)] && !Indexed(files, IndexPath(path), h))
    requires MissWrites(writes, path, h)
    requires FilesFollowTrace(files, files', writes)
    ensures StoreTrace(read + writes, path, h, files)
    ensures FilesFollowTrace(files, files', read + writes)
    ensures Succeeded(read + writes) <==> Succeeded(writes)
  {
    if read == [] {
      assert read + writes == writes;
    } else {
      ConsParts(read[0], writes);
    }
    WritesAfterReads(files, files', read, writes);
  }

  /**
   * The operations of a backup of `path` from hashing on: open the file
   * (opening or reading it may fail), then go on as `StoreTrace` says
   * with the hash of its contents.
   */
  ghost predicate HashTrace(ev: seq<Event>, path: Path, sha: DigestFn, files: map<Path, seq<Byte>>)
    requires path.parts != []
  {
    && |ev| >= 1
    && ev[0] == OpenFile(path, ev[0].ok)
    && (|ev| == 1 || (ev[0].ok && path in files && StoreTrace(ev[1..], path, FileHash(sha, files[path]), files)))
  }

  /**
   * The part of `create_backup` after the sidecar directory exists: hash
   * the file, then store it as `StoreBackup` does.
   */
  method HashAndStore(fs: FileSystem, path: Path, sha: DigestFn)
      returns (r: Result<(), BackupError>, ghost events: seq<Event>)
    requires fs.Valid() && path.parts != []
    modifies fs
    ensures fs.Valid() && fs.dirs == old(fs.dirs)
    ensures fs.log == old(fs.log) + events
    ensures HashTrace(events, path, sha, old(fs.files))
    ensures FilesFollowTrace(old(fs.files), fs.files, events)
    ensures r.Ok? <==> Succeeded(events)
    ensures r != Err(NoParentDirectory)
  {
    ghost var files0, log0 := fs.files, fs.log;
    ghost var isOpen, chunks;
    var hashed;
    hashed, isOpen, chunks := CalculateFileHash(fs, path, sha);
    if hashed.Err? {
      return Err(Io(hashed.error)), [OpenFile(path, isOpen)];
    }
    ghost var stored;
    r, stored := StoreBackup(fs, path, hashed.value);
    events := [OpenFile(path, true)] + stored;
    AppendAssociative(log0, [OpenFile(path, true)], stored);
    AfterOpen(path, sha, files0, fs.files, stored);
  }

  /** A run that opened and hashed the file and went on as `stored` is a run from hashing on. */
  lemma AfterOpen(path: Path, sha: DigestFn, files: map<Path, seq<Byte>>, files': map<Path, seq<Byte>>,
                  stored: seq<Event>)
    requires path.parts != [] && path in files
    requires StoreTrace(stored, path, FileHash(sha, files[path]), files)
    requires FilesFollowTrace(files, files', stored)
    ensures var ev := [OpenFile(path, true)] + stored;
            && HashTrace(ev, path, sha, files)
            && FilesFollowTrace(files, files', ev)
            && (Succeeded(ev) <==> Succeeded(stored))
  {
    ConsParts(OpenFile(path, true), stored);
    WritesAfterReads(files, files', [OpenFile(path, true)], stored);
  }

  /** A run that created the sidecar directory and went on as `rest` follows the backup's order. */
  lemma AfterMakeDirs(path: Path, sha: DigestFn, files: map<Path, seq<Byte>>, files': map<Path, seq<Byte>>,
                      rest: seq<Event>)
    requires path.parts != []
    requires HashTrace(rest, path, sha, files)
    requires FilesFollowTrace(files, files', rest)
    ensures var ev := [MakeDirs(SidecarDir(path), true)] + rest;
            && BackupTrace(ev, path, sha, files)
            && FilesFollowTrace(files, files', ev)
            && (Succeeded(ev) <==> Succeeded(rest))
  {
    var ev := [MakeDirs(SidecarDir(path), true)] + rest;
    ConsParts(MakeDirs(SidecarDir(path), true), rest);
    DropAppend([MakeDirs(SidecarDir(path), true)], rest, 1);
    WritesAfterReads(files, files', [MakeDirs(SidecarDir(path), true)], rest);
  }

  /**
   * `create_backup`: copies `path` into the `.safety_net` directory beside
   * it, unless the index there already lists the hash of its contents.
   * The ghost `events` are the filesystem operations it performed, in
   * order, with their outcome.
   */
  method CreateBackup(fs: FileSystem, path: Path, sha: DigestFn)
      returns (r: Result<(), BackupError>, ghost events: seq<Event>)
    requires fs.Valid()
    modifies fs
    ensures fs.Valid()
    ensures fs.log == old(fs.log) + events
    // A path without a parent fails before any I/O.
    ensures r == Err(NoParentDirectory) <==> path.parts == []
    ensures path.parts == [] ==> events == [] && fs.files == old(fs.files) && fs.dirs == old(fs.dirs)
    // Otherwise the operations follow the backup's order, and the files follow the operations.
    ensures path.parts != [] ==> BackupTrace(events, path, sha, old(fs.files))
    ensures FilesFollowTrace(old(fs.files), fs.files, events)
    ensures r.Ok? <==> Succeeded(events)
    ensures old(fs.dirs) <= fs.dirs
    ensures path.parts != [] ==> fs.dirs <= old(fs.dirs) + Ancestry(SidecarDir(path))
    // Once the sidecar directory was made, it and its ancestors stay directories.
    ensures path.parts != [] && events != [] && events[0].ok ==> Ancestry(SidecarDir(path)) <= fs.dirs
    ensures r.Ok? ==> path.parts != [] && fs.IsDirectory(SidecarDir(path))
  {
    ghost var files0, log0 := fs.files, fs.log;
    var parent := path.Parent();
    if parent.None? {
      return Err(NoParentDirectory), [];
    }
    var backupDir := parent.value.Child(SidecarName);
    assert backupDir == SidecarDir(path);
    var made := fs.CreateDirAll(backupDir);
    if !made {
      return Err(Io(IoError)), [MakeDirs(backupDir, false)];
    }
    ghost var rest;
    r, rest := HashAndStore(fs, path, sha);
    events := [MakeDirs(backupDir, true)] + rest;
    AppendAssociative(log0, [MakeDirs(backupDir, true)], rest);
    AfterMakeDirs(path, sha, files0, fs.files, rest);
  }
}
