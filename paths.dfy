/**
 * Paths as `std::path` sees them after splitting into components: whether
 * the path starts at the root, and its components. `parent`, `join`,
 * `file_name`, `file_stem` and `extension` follow the standard library.
 */
module Paths {
  import opened Wrappers

  datatype Path = Path(absolute: bool, parts: seq<string>) {

    /**
     * `Path::parent`: None for the root and for the empty path; otherwise
     * the path without its last component (the empty path for a bare name).
     */
    function Parent(): (r: Option<Path>)
      ensures r.Some? <==> parts != []
      ensures r.Some? ==> r.value.absolute == absolute && r.value.parts + [parts[|parts| - 1]] == parts
    {
      if parts == [] then None else Some(Path(absolute, parts[..|parts| - 1]))
    }

    /** `join` with a single file name. */
    function Child(name: string): (r: Path)
      ensures r.Parent() == Some(this)
      ensures r.parts[|r.parts| - 1] == name
    {
      Path(absolute, parts + [name])
    }

    /**
     * `Path::join`: an absolute argument replaces the base; a relative one
     * keeps the base's components and ends with its own.
     */
    function Join(other: Path): (r: Path)
      ensures other.absolute ==> r == other
      ensures r.absolute == (absolute || other.absolute)
      ensures |other.parts| <= |r.parts| && r.parts[|r.parts| - |other.parts|..] == other.parts
      ensures !other.absolute ==> |r.parts| == |parts| + |other.parts| && r.parts[..|parts|] == parts
    {
      if other.absolute then other else Path(absolute, parts + other.parts)
    }

    /**
     * `Path::file_name`: the last component, unless the path ends in "." or
     * "..": a path with a file name is that name joined to its parent.
     */
    function FileName(): (r: Option<string>)
      ensures r.Some? <==> parts != [] && parts[|parts| - 1] != "." && parts[|parts| - 1] != ".."
      ensures r.Some? ==> r.value == parts[|parts| - 1]
      ensures r.Some? ==> Parent().Some? && Parent().value.Child(r.value) == this
    {
      if parts == [] then None
      else
        var last := parts[|parts| - 1];
        if last == "." || last == ".." then None else Some(last)
    }

    /**
     * `Path::file_stem`: present exactly when the file name is; it is the
     * whole name when there is no extension, and the part before the
     * extension's '.' otherwise.
     */
    function FileStem(): (r: Option<string>)
      ensures r.Some? <==> FileName().Some?
      ensures r.Some? && Extension().None? ==> r.value == FileName().value
      ensures r.Some? && Extension().Some? ==> r.value != "" && r.value + "." + Extension().value == FileName().value
    {
      match FileName()
      case None => None
      case Some(name) => Some(SplitFileName(name).0)
    }

    /**
     * `Path::extension`: what follows the file name's last '.', which has
     * no '.' itself; none when the name has no '.' after its first character.
     */
    function Extension(): (r: Option<string>)
      ensures r.Some? ==> FileName().Some?
      ensures r.Some? ==> forall k :: 0 <= k < |r.value| ==> r.value[k] != '.'
      ensures r.None? && FileName().Some? ==> forall k :: 0 < k < |FileName().value| ==> FileName().value[k] != '.'
    {
      match FileName()
      case None => None
      case Some(name) => SplitFileName(name).1
    }
  }

  /** Joining a single relative name is taking a child: the base is its parent. */
  lemma JoinName(base: Path, name: string)
    ensures base.Join(Path(false, [name])) == base.Child(name)
    ensures base.Join(Path(false, [name])).Parent() == Some(base)
  {
  }

  /** The file name of a child is the name it was made with, unless that is "." or "..". */
  lemma ChildFileName(base: Path, name: string)
    requires name != "." && name != ".."
    ensures base.Child(name).FileName() == Some(name)
  {
  }

  /** Index of the last '.' in `s`. */
  function LastDot(s: string): (r: Option<nat>)
    ensures r.Some? ==> r.value < |s| && s[r.value] == '.'
    ensures r.Some? ==> forall k :: r.value < k < |s| ==> s[k] != '.'
    ensures r.None? ==> forall k :: 0 <= k < |s| ==> s[k] != '.'
  {
    if s == [] then None
    else if s[|s| - 1] == '.' then Some(|s| - 1)
    else LastDot(s[..|s| - 1])
  }

  /**
   * A file name split into stem and extension at its last '.', as the
   * standard library does: a name whose only '.' is its first character
   * (".bashrc") has no extension, and a trailing '.' gives an empty one.
   */
  function SplitFileName(name: string): (r: (string, Option<string>))
    ensures r.1.Some? ==> r.0 != "" && r.0 + "." + r.1.value == name
    ensures r.1.Some? ==> forall k :: 0 <= k < |r.1.value| ==> r.1.value[k] != '.'
    ensures r.1.None? ==> r.0 == name
    ensures r.1.None? ==> name == ".." || forall k :: 0 < k < |name| ==> name[k] != '.'
  {
    if name == ".." then (name, None)
    else match LastDot(name)
      case None => (name, None)
      case Some(i) =>
        if i == 0 then (name, None)
        else
          assert name[..i] + "." + name[i + 1..] == name by {
            assert name == name[..i] + [name[i]] + name[i + 1..];
          }
          (name[..i], Some(name[i + 1..]))
  }

  /**
   * Joining a non-empty stem and an extension at a '.' splits back into the
   * same two, except for "..", which has no extension.
   */
  lemma SplitFileNameJoin(stem: string, ext: string)
    requires stem != "" && (stem != "." || ext != "")
    requires forall k :: 0 <= k < |ext| ==> ext[k] != '.'
    ensures SplitFileName(stem + "." + ext) == (stem, Some(ext))
  {
    var name := stem + "." + ext;
    assert name[|stem|] == '.';
    var d := LastDot(name);
    assert forall k :: |stem| < k < |name| ==> name[k] == ext[k - |stem| - 1];
    assert d == Some(|stem|);
    assert name[..|stem|] == stem;
    assert name[|stem| + 1..] == ext;
    assert name != ".." by {
      assert |name| == |stem| + 1 + |ext|;
      assert |stem| == 1 && ext == [] ==> stem == name[..1];
    }
  }
}
