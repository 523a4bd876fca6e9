/** `Path::file_name` and `Path::extension` for the paths a directory listing
    yields: the directory joined with one entry name. */
module Paths {
  import opened Types
  import opened OsText

  const Separator: Unit := Char('/')
  const Dot: Unit := Char('.')

  /** The final component: the longest suffix holding no separator. */
  function FileName(p: OsStr): (r: OsStr)
    ensures |r| <= |p| && r == p[|p| - |r|..]
    ensures Separator !in r
    ensures |r| < |p| ==> p[|p| - |r| - 1] == Separator
    decreases |p|
  {
    if p == [] || p[|p| - 1] == Separator then []
    else FileName(p[..|p| - 1]) + [p[|p| - 1]]
  }

  /** Position of the last dot of a name, if any. */
  function LastDot(name: OsStr): (r: Option<nat>)
    ensures r.None? <==> Dot !in name
    ensures r.Some? ==> r.value < |name| && name[r.value] == Dot && Dot !in name[r.value + 1..]
    decreases |name|
  {
    if name == [] then None
    else if name[|name| - 1] == Dot then Some(|name| - 1)
    else
      var r := LastDot(name[..|name| - 1]);
      assert name[..|name| - 1] + [name[|name| - 1]] == name;
      r
  }

  /** The extension of a file name, as `Path::extension` finds it: the part
      after the last dot, unless the name is `..`, has no dot, or its only dot
      is the leading one. */
  function NameExtension(name: OsStr): (r: Option<OsStr>)
    ensures Dot !in name ==> r.None?
    ensures r.Some? ==> EndsInExtension(name, r.value)
  {
    if name == [Dot, Dot] then None
    else
      match LastDot(name)
      case None => None
      case Some(i) =>
        if i == 0 then None
        else
          assert name[i + 1..] == name[|name| - |name[i + 1..]|..];
          Some(name[i + 1..])
  }

  /** `Path::extension`. */
  function Extension(p: OsStr): (r: Option<OsStr>)
    ensures r.Some? ==> Dot !in r.value && |r.value| < |p| && r.value == p[|p| - |r.value|..]
  {
    NameExtension(FileName(p))
  }

  /** `x` is what follows the last dot of `name`, and something other than
      that dot precedes it, and `name` is not `..`. */
  ghost predicate EndsInExtension(name: OsStr, x: OsStr) {
    && name != [Dot, Dot]
    && |x| + 1 < |name|
    && name[|name| - |x| - 1] == Dot
    && x == name[|name| - |x|..]
    && Dot !in x
  }

  lemma NameExtensionComplete(name: OsStr, x: OsStr)
    requires EndsInExtension(name, x)
    ensures NameExtension(name) == Some(x)
  {
    var j := |name| - |x| - 1;
    assert name[j] == Dot;
    var i := LastDot(name).value;
    assert i == j;
  }

  /** The extension, characterised without reference to how it is found. */
  lemma ExtensionSpec(p: OsStr, x: OsStr)
    ensures Extension(p) == Some(x) <==> EndsInExtension(FileName(p), x)
  {
    if EndsInExtension(FileName(p), x) {
      NameExtensionComplete(FileName(p), x);
    }
  }

  /** Joining a directory and an entry name gives back that name as the
      file name. */
  lemma FileNameOfJoin(dir: OsStr, name: OsStr)
    requires Separator !in name
    ensures FileName(dir + [Separator] + name) == name
  {
    var p := dir + [Separator] + name;
    var r := FileName(p);
    assert p[|p| - |name|..] == name;
    assert p[|p| - |name| - 1] == Separator;
  }

  /** The path of entry `stem.x` in any directory has extension `x`, provided
      the stem is not empty, `x` holds no dot and the name is not `..`. */
  lemma JoinedExtension(dir: OsStr, stem: OsStr, x: OsStr)
    requires stem != [] && Dot !in x
    requires stem != [Dot] || x != []
    requires Separator !in stem && Separator !in x
    ensures Extension(dir + [Separator] + (stem + [Dot] + x)) == Some(x)
  {
    var name := stem + [Dot] + x;
    FileNameOfJoin(dir, name);
    assert name[|name| - |x|..] == x;
    assert name[|name| - |x| - 1] == Dot;
    NameExtensionComplete(name, x);
  }

  /** A path whose file name carries no dot has no extension. */
  lemma NoDotNoExtension(p: OsStr)
    ensures Dot !in FileName(p) ==> Extension(p).None?
  {
  }
}
