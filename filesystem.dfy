/**
 * The filesystem the server works on: regular files with their bytes and a
 * set of directories. Every I/O primitive may fail for reasons the model
 * does not see (permissions, a full disk, a device error); which calls fail
 * is chosen nondeterministically, so a property proved of a caller holds
 * whatever fails. The ghost `log` records, in order and with their outcome,
 * the operations that create, open, read as text, copy, append to, remove
 * or rename: the probes `exists`, `is_file` and `is_dir`, each chunk read,
 * `fs::read` and `read_dir` are not logged.
 */
module FileSystems {
  import opened Wrappers
  import opened Text
  import opened Paths

  /** The `io::Error` of a failed operation; its kind is not modelled. */
  datatype IoError = IoError

  datatype Event =
    | MakeDirs(dir: Path, ok: bool)                 // fs::create_dir_all
    | OpenFile(file: Path, ok: bool)                // File::open
    | ReadText(file: Path, ok: bool)                // fs::read_to_string
    | CopyFile(src: Path, dst: Path, ok: bool)      // fs::copy
    | AppendText(file: Path, text: string, ok: bool) // open with create+append, then write
    | RemoveFile(file: Path, ok: bool)              // fs::remove_file
    | RenameFile(from: Path, to: Path, ok: bool)    // fs::rename

  /** Every prefix of `d` that has at least one component: what `create_dir_all(d)` may create. */
  function Ancestry(d: Path): (s: set<Path>)
    ensures d.parts != [] ==> d in s
    ensures forall p :: p in s ==> p.parts != []
  {
    assert d.parts != [] ==> d.parts[..|d.parts|] == d.parts;
    set k | 1 <= k <= |d.parts| :: Path(d.absolute, d.parts[..k])
  }

  /** The bytes of `p`, or none when `p` does not exist (what opening with `create(true)` starts from). */
  function ContentsOr(files: map<Path, seq<Byte>>, p: Path): seq<Byte> {
    if p in files then files[p] else []
  }

  class FileSystem {
    var files: map<Path, seq<Byte>>
    var dirs: set<Path>
    ghost var log: seq<Event>

    /** A path is a file or a directory, not both; the root and the current directory are directories. */
    ghost predicate Valid()
      reads this
    {
      && files.Keys !! dirs
      && (forall p :: p in files ==> p.parts != [])
      && (forall p :: p in dirs ==> p.parts != [])
    }

    /**
     * The root "/" and the current directory "" always exist as directories
     * (relative paths are resolved from the current directory, though the
     * empty path itself answers false to `exists` and `is_dir`).
     */
    predicate IsDirectory(p: Path)
      reads this
    {
      p.parts == [] || p in dirs
    }

    /** A new entry can be made at `p`: its parent directory exists. */
    predicate ParentIsDirectory(p: Path)
      reads this
    {
      p.Parent().Some? && IsDirectory(p.Parent().value)
    }

    constructor (files: map<Path, seq<Byte>>, dirs: set<Path>)
      requires files.Keys !! dirs
      requires forall p :: p in files ==> p.parts != []
      requires forall p :: p in dirs ==> p.parts != []
      ensures Valid()
      ensures this.files == files && this.dirs == dirs && log == []
    {
      this.files := files;
      this.dirs := dirs;
      log := [];
    }

    /**
     * `Path::exists`: false whenever the metadata cannot be read, so `false`
     * does not prove absence; always false for the empty path, which names
     * no file even though relative paths are resolved from it.
     */
    method Exists(p: Path) returns (b: bool)
      ensures b ==> p in files || IsDirectory(p)
      ensures p == Path(false, []) ==> !b
    {
      b := *;
      b := b && (p in files || IsDirectory(p)) && p != Path(false, []);
    }

    /** `Path::is_file`. */
    method IsFile(p: Path) returns (b: bool)
      ensures b ==> p in files
    {
      b := *;
      b := b && p in files;
    }

    /** `Path::is_dir`: like `exists`, always false for the empty path. */
    method IsDir(p: Path) returns (b: bool)
      ensures b ==> IsDirectory(p)
      ensures p == Path(false, []) ==> !b
    {
      b := *;
      b := b && IsDirectory(p) && p != Path(false, []);
    }

    /**
     * `fs::create_dir_all`: on success `d` and all its ancestors are
     * directories; a failure may leave some of them created.
     */
    method CreateDirAll(d: Path) returns (ok: bool)
      requires Valid()
      modifies this
      ensures Valid()
      ensures files == old(files)
      ensures ok ==> IsDirectory(d) && Ancestry(d) <= dirs
      ensures old(dirs) <= dirs <= old(dirs) + Ancestry(d)
      ensures log == old(log) + [MakeDirs(d, ok)]
    {
      var chain := Ancestry(d);
      ok := *;
      if ok && chain !! files.Keys {
        dirs := dirs + chain;
      } else {
        ok := false;
        assert {} <= chain - files.Keys;
        var made: set<Path> :| made <= chain - files.Keys;
        dirs := dirs + made;
      }
      log := log + [MakeDirs(d, ok)];
    }

    /** `File::open` for reading. */
    method Open(p: Path) returns (ok: bool)
      modifies this`log
      ensures ok ==> p in files
      ensures log == old(log) + [OpenFile(p, ok)]
    {
      ok := *;
      ok := ok && p in files;
      log := log + [OpenFile(p, ok)];
    }

    /**
     * `Read::read` on an open file whose cursor is at `pos`: fills a prefix
     * of `buf` with the next bytes and returns how many; 0 only at the end
     * of the file (or for an empty buffer).
     */
    method Read(p: Path, pos: nat, buf: array<Byte>) returns (r: Result<nat, IoError>)
      requires p in files && pos <= |files[p]|
      modifies buf
      ensures r.Ok? ==> r.value <= buf.Length && pos + r.value <= |files[p]|
      ensures r.Ok? ==> (r.value == 0 <==> pos == |files[p]| || buf.Length == 0)
      ensures r.Ok? ==> buf[..r.value] == files[p][pos..pos + r.value]
    {
      var fails := *;
      if fails {
        return Err(IoError);
      }
      var rest := |files[p]| - pos;
      var n: nat;
      if rest == 0 || buf.Length == 0 {
        n := 0;
      } else {
        n :| 0 < n <= rest && n <= buf.Length;
      }
      var data := files[p];
      forall i | 0 <= i < n {
        buf[i] := data[pos + i];
      }
      r := Ok(n);
    }

    /** `fs::read_dir`: the paths directly inside `dir`, files and directories alike. */
    method ReadDir(dir: Path) returns (r: Result<set<Path>, IoError>)
      ensures r.Ok? ==> IsDirectory(dir)
      ensures r.Ok? ==> forall q :: q in r.value <==> (q in files || q in dirs) && q.Parent() == Some(dir)
    {
      var ok := *;
      if ok && IsDirectory(dir) {
        r := Ok(set q | q in files.Keys + dirs && q.Parent() == Some(dir));
      } else {
        r := Err(IoError);
      }
    }

    /** `fs::read`: the whole contents of a file. */
    method ReadAll(p: Path) returns (r: Result<seq<Byte>, IoError>)
      ensures r.Ok? ==> p in files && r.value == files[p]
    {
      var ok := *;
      if ok && p in files {
        r := Ok(files[p]);
      } else {
        r := Err(IoError);
      }
    }

    /** `fs::read_to_string`: the file's bytes, which must be well-formed UTF-8, as text. */
    method ReadToString(p: Path) returns (r: Result<string, IoError>)
      modifies this`log
      ensures r.Ok? ==> p in files && Decode(files[p]) == Some(r.value)
      ensures log == old(log) + [ReadText(p, r.Ok?)]
    {
      var ok := *;
      if ok && p in files && Decode(files[p]).Some? {
        r := Ok(Decode(files[p]).value);
      } else {
        r := Err(IoError);
      }
      log := log + [ReadText(p, r.Ok?)];
    }

    /**
     * `fs::copy`: on success `dst` holds the bytes of `src`, created or
     * overwritten; a failure after `dst` was opened leaves a prefix there.
     */
    method Copy(src: Path, dst: Path) returns (ok: bool)
      requires Valid() && src != dst
      modifies this
      ensures Valid() && dirs == old(dirs)
      ensures ok ==> src in old(files) && files == old(files)[dst := old(files)[src]]
      ensures !ok ==> files == old(files)
                      || (src in old(files) && dst in files && files == old(files)[dst := files[dst]]
                          && files[dst] <= old(files)[src])
      ensures log == old(log) + [CopyFile(src, dst, ok)]
    {
      var possible := src in files && dst !in dirs && ParentIsDirectory(dst);
      ok := *;
      ok := ok && possible;
      if ok {
        files := files[dst := files[src]];
      } else {
        var partial := *;
        if partial && possible {
          var k: nat :| k <= |files[src]|;
          files := files[dst := files[src][..k]];
        }
      }
      log := log + [CopyFile(src, dst, ok)];
    }

    /**
     * Opening `p` with `create(true).append(true)` and writing `text`: on
     * success the text's bytes follow the old contents (an absent file is
     * created first); a failure may leave part of them written.
     */
    method Append(p: Path, text: string) returns (ok: bool)
      requires Valid() && IsAscii(text)
      modifies this
      ensures Valid() && dirs == old(dirs)
      ensures ok ==> files == old(files)[p := ContentsOr(old(files), p) + AsciiBytes(text)]
      ensures !ok ==> files == old(files)
                      || (p in files && files == old(files)[p := files[p]]
                          && ContentsOr(old(files), p) <= files[p] <= ContentsOr(old(files), p) + AsciiBytes(text))
      ensures log == old(log) + [AppendText(p, text, ok)]
    {
      var possible := p !in dirs && ParentIsDirectory(p);
      var full := ContentsOr(files, p) + AsciiBytes(text);
      ok := *;
      ok := ok && possible;
      if ok {
        files := files[p := full];
      } else {
        var partial := *;
        if partial && possible {
          var k: nat :| |ContentsOr(files, p)| <= k <= |full|;
          files := files[p := full[..k]];
        }
      }
      log := log + [AppendText(p, text, ok)];
    }

    /** `fs::remove_file`. */
    method Remove(p: Path) returns (ok: bool)
      requires Valid()
      modifies this
      ensures Valid() && dirs == old(dirs)
      ensures ok ==> p in old(files) && files == old(files) - {p}
      ensures !ok ==> files == old(files)
      ensures log == old(log) + [RemoveFile(p, ok)]
    {
      ok := *;
      ok := ok && p in files;
      if ok {
        files := files - {p};
      }
      log := log + [RemoveFile(p, ok)];
    }

    /** `fs::rename` of a regular file; an existing file at `to` is replaced. */
    method Rename(from: Path, to: Path) returns (ok: bool)
      requires Valid()
      modifies this
      ensures Valid() && dirs == old(dirs)
      ensures ok ==> from in old(files) && files == (old(files) - {from})[to := old(files)[from]]
      ensures !ok ==> files == old(files)
      ensures log == old(log) + [RenameFile(from, to, ok)]
    {
      ok := *;
      ok := ok && from in files && to !in dirs && ParentIsDirectory(to);
      if ok {
        files := (files - {from})[to := files[from]];
      }
      log := log + [RenameFile(from, to, ok)];
    }
  }
}
