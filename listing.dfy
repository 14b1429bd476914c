/**
 * The directory listing: which entries of a directory are shown (visible
 * directories and images), and in what order (directories first, then by
 * lower-cased name).
 */
module Listing {
  import opened Wrappers
  import opened Text
  import opened Paths
  import opened FileSystems
  import opened Images
  import opened Handlers
  import opened SafetyNet

  datatype DirectoryEntry = DirectoryEntry(name: string, path: Path, isDir: bool, isImage: bool)

  datatype DirectoryListing = DirectoryListing(current: Path, parent: Option<Path>, entries: seq<DirectoryEntry>)

  /** A name starting with '.' is hidden, the `.safety_net` directory among them. */
  predicate Hidden(name: string) {
    |name| > 0 && name[0] == '.'
  }

  // ---------------------------------------------------------------------
  // The order
  // ---------------------------------------------------------------------

  datatype Ordering = Less | Equal | Greater

  /** `Ord::cmp` on strings: lexicographic, character by character. */
  function CompareStrings(a: string, b: string): (o: Ordering)
    ensures o == Equal <==> a == b
    ensures o != Greater <==> LexLeq(a, b)
    decreases |a|
  {
    if a == [] then (if b == [] then Equal else Less)
    else if b == [] then Greater
    else if a[0] < b[0] then Less
    else if a[0] > b[0] then Greater
    else
      assert a == [a[0]] + a[1..] && b == [b[0]] + b[1..];
      CompareStrings(a[1..], b[1..])
  }

  /**
   * The comparator of the listing's sort: directories before files, then by
   * lower-cased name; two entries are equal exactly when they are of the
   * same kind and their names differ only in case.
   */
  function CompareEntries(a: DirectoryEntry, b: DirectoryEntry): (o: Ordering)
    ensures o == Equal <==> a.isDir == b.isDir && Lower(a.name) == Lower(b.name)
    ensures o == Less <==> (a.isDir && !b.isDir) || (a.isDir == b.isDir && LexLeq(Lower(a.name), Lower(b.name)) && Lower(a.name) != Lower(b.name))
  {
    if a.isDir && !b.isDir then Less
    else if !a.isDir && b.isDir then Greater
    else CompareStrings(Lower(a.name), Lower(b.name))
  }

  /** `a` may come before `b`. */
  predicate InOrder(a: DirectoryEntry, b: DirectoryEntry) {
    CompareEntries(a, b) != Greater
  }

  /** What `InOrder` means: a directory before a file, or the same kind with names in lower-cased order. */
  lemma InOrderMeaning(a: DirectoryEntry, b: DirectoryEntry)
    ensures InOrder(a, b) <==> (a.isDir && !b.isDir) || (a.isDir == b.isDir && LexLeq(Lower(a.name), Lower(b.name)))
  {
  }

  /** The comparator is total: of two entries, one may come before the other. */
  lemma InOrderTotal(a: DirectoryEntry, b: DirectoryEntry)
    ensures InOrder(a, b) || InOrder(b, a)
  {
    LexLeqTotal(Lower(a.name), Lower(b.name));
  }

  lemma InOrderTransitive(a: DirectoryEntry, b: DirectoryEntry, c: DirectoryEntry)
    requires InOrder(a, b) && InOrder(b, c)
    ensures InOrder(a, c)
  {
    if a.isDir == b.isDir == c.isDir {
      LexLeqTransitive(Lower(a.name), Lower(b.name), Lower(c.name));
    }
  }

  /** The entries of `s` at positions `lo` to `hi` (excluded) are in order. */
  ghost predicate SortedBetween(s: seq<DirectoryEntry>, lo: int, hi: int) {
    forall k, l :: lo <= k < l < hi && 0 <= k && l < |s| ==> InOrder(s[k], s[l])
  }

  ghost predicate Sorted(s: seq<DirectoryEntry>) {
    SortedBetween(s, 0, |s|)
  }

  /** A sorted listing has every directory before every file, and each group in lower-cased name order. */
  lemma SortedListing(s: seq<DirectoryEntry>)
    requires Sorted(s)
    ensures forall i, j :: 0 <= i < j < |s| && s[j].isDir ==> s[i].isDir
    ensures forall i, j :: 0 <= i < j < |s| && s[i].isDir == s[j].isDir ==> LexLeq(Lower(s[i].name), Lower(s[j].name))
  {
    forall i, j | 0 <= i < j < |s|
      ensures s[j].isDir ==> s[i].isDir
      ensures s[i].isDir == s[j].isDir ==> LexLeq(Lower(s[i].name), Lower(s[j].name))
    {
      InOrderMeaning(s[i], s[j]);
    }
  }

  /** Both halves of an insertion in progress: `s[..j]` and `s[j..i + 1]` sorted, and the first before the second past `j`. */
  ghost predicate Inserting(s: seq<DirectoryEntry>, j: int, i: int)
    requires 0 <= j <= i < |s|
  {
    && SortedBetween(s, 0, j) && SortedBetween(s, j, i + 1)
    && forall k, l :: 0 <= k < j < l <= i ==> InOrder(s[k], s[l])
  }

  /** Swapping the entry being inserted with a greater left neighbour keeps the insertion going. */
  lemma SwapStep(s: seq<DirectoryEntry>, j: int, i: int)
    requires 0 < j <= i < |s| && Inserting(s, j, i) && !InOrder(s[j - 1], s[j])
    ensures Inserting(s[j - 1 := s[j]][j := s[j - 1]], j - 1, i)
  {
    var t := s[j - 1 := s[j]][j := s[j - 1]];
    InOrderTotal(s[j - 1], s[j]);
    assert SortedBetween(t, 0, j - 1);
    forall k, l | j - 1 <= k < l < i + 1
      ensures InOrder(t[k], t[l])
    {
      if k == j - 1 && l > j {
        assert t[k] == s[j] && t[l] == s[l];
      }
    }
  }

  /** An insertion whose entry is in order with its left neighbour (or first) leaves `s[..i + 1]` sorted. */
  lemma InsertionDone(s: seq<DirectoryEntry>, j: int, i: int)
    requires 0 <= j <= i < |s| && Inserting(s, j, i)
    requires 0 < j ==> InOrder(s[j - 1], s[j])
    ensures SortedBetween(s, 0, i + 1)
  {
    forall k, l | 0 <= k < j == l <= i
      ensures InOrder(s[k], s[l])
    {
      if k < j - 1 {
        InOrderTransitive(s[k], s[j - 1], s[j]);
      }
    }
  }

  /** Moves `a[i]` left past every greater entry, so that `a[..i + 1]` becomes sorted. */
  method Insert(a: array<DirectoryEntry>, i: int)
    requires 0 <= i < a.Length && SortedBetween(a[..], 0, i)
    modifies a
    ensures SortedBetween(a[..], 0, i + 1)
    ensures a[i + 1..] == old(a[i + 1..])
    ensures multiset(a[..]) == multiset(old(a[..]))
  {
    var j := i;
    while 0 < j && !InOrder(a[j - 1], a[j])
      invariant 0 <= j <= i
      invariant Inserting(a[..], j, i)
      invariant a[i + 1..] == old(a[i + 1..])
      invariant multiset(a[..]) == multiset(old(a[..]))
    {
      SwapStep(a[..], j, i);
      a[j - 1], a[j] := a[j], a[j - 1];
      j := j - 1;
    }
    InsertionDone(a[..], j, i);
  }

  /**
   * `entries.sort_by(...)` with the listing's comparator, as an in-place
   * insertion sort.
   */
  method SortEntries(a: array<DirectoryEntry>)
    modifies a
    ensures Sorted(a[..])
    ensures multiset(a[..]) == multiset(old(a[..]))
  {
    var i := 0;
    while i < a.Length
      invariant 0 <= i <= a.Length
      invariant SortedBetween(a[..], 0, i)
      invariant multiset(a[..]) == multiset(old(a[..]))
    {
      Insert(a, i);
      i := i + 1;
    }
  }

  // ---------------------------------------------------------------------
  // `list_directory_handler`
  // ---------------------------------------------------------------------

  /** The files and directories directly inside `dir`. */
  ghost predicate ChildOf(fs: FileSystem, dir: Path, q: Path)
    reads fs
  {
    (q in fs.files || q in fs.dirs) && q.Parent() == Some(dir)
  }

  /**
   * An entry as the listing makes it for a child of `dir`: named by the
   * child's file name, which is not hidden; a directory or an image, and
   * an image exactly when it is not a directory and has an image
   * extension; a directory only when it is one.
   */
  ghost predicate ShownEntry(fs: FileSystem, dir: Path, e: DirectoryEntry)
    reads fs
  {
    && ChildOf(fs, dir, e.path)
    && e.path.FileName() == Some(e.name)
    && !Hidden(e.name)
    && (e.isDir || e.isImage)
    && e.isImage == (!e.isDir && IsImageFile(e.path))
    && (e.isDir ==> fs.IsDirectory(e.path))
  }

  /** The listing never shows a sidecar directory: its name starts with '.'. */
  lemma SidecarNotShown(fs: FileSystem, dir: Path, e: DirectoryEntry)
    requires ShownEntry(fs, dir, e)
    ensures e.name != SidecarName
    ensures e.path.FileName() != Some(SidecarName)
  {
    assert SidecarName[0] == '.';
  }

  function PathsOf(entries: seq<DirectoryEntry>): set<Path> {
    set e | e in entries :: e.path
  }

  /** A child that is a regular file with a visible name and an image extension. */
  predicate VisibleImageFile(fs: FileSystem, dir: Path, q: Path)
    reads fs
  {
    && q in fs.files && q.Parent() == Some(dir)
    && q.FileName().Some? && !Hidden(q.FileName().value)
    && IsImageFile(q)
  }

  /** Appending an entry keeps the entries before it and adds its path. */
  lemma AppendEntry(entries: seq<DirectoryEntry>, entry: DirectoryEntry)
    ensures PathsOf(entries + [entry]) == PathsOf(entries) + {entry.path}
    ensures forall e :: e in entries + [entry] <==> e in entries || e == entry
  {
  }

  /**
   * The loop of `list_directory_handler` over the directory's entries,
   * taken in no particular order: skips hidden names, keeps directories
   * and image files. None when reading an entry fails.
   */
  method SelectEntries(fs: FileSystem, dir: Path, children: set<Path>) returns (r: Option<seq<DirectoryEntry>>)
    requires forall q :: q in children ==> ChildOf(fs, dir, q)
    ensures r.Some? ==> forall e :: e in r.value ==> ShownEntry(fs, dir, e)
    ensures r.Some? ==> forall q :: q in children && VisibleImageFile(fs, dir, q) ==> q in PathsOf(r.value)
  {
    var pending := children;
    var entries: seq<DirectoryEntry> := [];
    while pending != {}
      invariant pending <= children
      invariant forall e :: e in entries ==> ShownEntry(fs, dir, e)
      invariant forall q :: q in children - pending && VisibleImageFile(fs, dir, q) ==> q in PathsOf(entries)
      decreases |pending|
    {
      var entryPath :| entryPath in pending;
      pending := pending - {entryPath};
      // Reading the next entry can fail on its own.
      var readable := *;
      if !readable {
        return None;
      }
      var fileName := entryPath.FileName();
      if fileName.Some? && !Hidden(fileName.value) {
        var isDirectory := fs.IsDir(entryPath);
        var isImage := !isDirectory && IsImageFile(entryPath);
        if isDirectory || isImage {
          var entry := DirectoryEntry(fileName.value, entryPath, isDirectory, isImage);
          assert ShownEntry(fs, dir, entry);
          AppendEntry(entries, entry);
          entries := entries + [entry];
        }
      }
    }
    r := Some(entries);
  }

  /**
   * `list_directory_handler`, without the shared current-directory
   * update: a path that does not exist is NOT_FOUND, one that is not a
   * directory BAD_REQUEST, and a failure to read the directory or one of
   * its entries INTERNAL_SERVER_ERROR. Otherwise the visible directories
   * and images inside it, every visible image file among them, sorted
   * directories first and then by lower-cased name.
   */
  method ListDirectory(fs: FileSystem, dir: Path) returns (r: Result<DirectoryListing, Status>)
    requires fs.Valid()
    ensures r.Err? ==> r.error in {NotFound, BadRequest, InternalServerError}
    ensures r.Ok? ==> fs.IsDirectory(dir) && r.value.current == dir && r.value.parent == dir.Parent()
    ensures r.Ok? ==> forall e :: e in r.value.entries ==> ShownEntry(fs, dir, e)
    ensures r.Ok? ==> forall q :: VisibleImageFile(fs, dir, q) ==> q in PathsOf(r.value.entries)
    ensures r.Ok? ==> Sorted(r.value.entries)
  {
    var present := fs.Exists(dir);
    if !present {
      return Err(NotFound);
    }
    var isDir := fs.IsDir(dir);
    if !isDir {
      return Err(BadRequest);
    }
    var children := fs.ReadDir(dir);
    if children.Err? {
      return Err(InternalServerError);
    }
    var selected := SelectEntries(fs, dir, children.value);
    if selected.None? {
      return Err(InternalServerError);
    }
    var entries := selected.value;
    var a := new DirectoryEntry[|entries|](i requires 0 <= i < |entries| => entries[i]);
    assert a[..] == entries;
    SortEntries(a);
    assert forall e :: e in a[..] <==> e in entries by {
      assert forall e :: e in a[..] <==> e in multiset(a[..]);
    }
    assert PathsOf(a[..]) == PathsOf(entries);
    r := Ok(DirectoryListing(dir, dir.Parent(), a[..]));
  }
}
