/** The extension allow-list and the per-entry filter of a directory listing. */
module ImageFilter {
  import opened Types
  import opened OsText
  import opened Paths

  /** `IMAGE_EXTENSIONS`, all lower case. */
  const ImageExtensions: seq<string> := ["jpg", "jpeg", "png"]

  /** A directory entry, seen through its path. */
  datatype DirEntry = DirEntry(path: OsStr)

  /** `is_image_ext`: the extension, lowered in ASCII case, has a text form
      that is on the allow-list. */
  predicate IsImageExt(ext: OsStr)
    ensures IsImageExt(ext) ==> ToStr(ext).Some? && (|ext| == 3 || |ext| == 4)
  {
    match ToStr(ToAsciiLowercase(ext))
    case Some(s) => s in ImageExtensions
    case None => false
  }

  /** `matches_image_path`: the entry's path, when its extension is accepted. */
  function MatchesImagePath(entry: DirEntry): (r: Option<OsStr>)
    ensures r.Some? ==> r.value == entry.path
    ensures Extension(entry.path).None? ==> r.None?
    ensures Extension(entry.path).Some? ==> (r.Some? <==> IsImageExt(Extension(entry.path).value))
  {
    match Extension(entry.path)
    case Some(ext) => if IsImageExt(ext) then Some(entry.path) else None
    case None => None
  }

  /** The entry `stem.x` of any directory is kept, as its own path, exactly
      when `x` is accepted. */
  lemma JoinedEntryFiltered(dir: OsStr, stem: OsStr, x: OsStr)
    requires stem != [] && Dot !in x
    requires stem != [Dot] || x != []
    requires Separator !in stem && Separator !in x
    ensures var path := dir + [Separator] + (stem + [Dot] + x);
      MatchesImagePath(DirEntry(path)) == if IsImageExt(x) then Some(path) else None
  {
    JoinedExtension(dir, stem, x);
  }

  /** `ext` spells `name` with any of its letters in either ASCII case. */
  ghost predicate SpellsIgnoringCase(ext: OsStr, name: string) {
    && |ext| == |name|
    && forall i :: 0 <= i < |ext| ==>
         ext[i] == Char(name[i]) || (IsAsciiLower(name[i]) && ext[i] == Char((name[i] as int - 32) as char))
  }

  predicate AllAsciiLower(name: string) {
    forall i :: 0 <= i < |name| ==> IsAsciiLower(name[i])
  }

  /** For an all-lower-case name, lowering `ext` yields the name exactly when
      `ext` spells it in any mix of cases. */
  lemma LowerMatchesName(ext: OsStr, name: string)
    requires AllAsciiLower(name)
    ensures ToStr(ToAsciiLowercase(ext)) == Some(name) <==> SpellsIgnoringCase(ext, name)
  {
    var low := ToAsciiLowercase(ext);
    if ToStr(low) == Some(name) {
      forall i | 0 <= i < |ext|
        ensures ext[i] == Char(name[i]) || ext[i] == Char((name[i] as int - 32) as char)
      {
        assert low[i] == Char(name[i]);
        assert low[i] == LowerUnit(ext[i]);
      }
    }
    if SpellsIgnoringCase(ext, name) {
      assert forall i :: 0 <= i < |ext| ==> low[i] == LowerUnit(ext[i]);
      assert low == FromStr(name);
      ToStrFromStr(name);
    }
  }

  /** `is_image_ext` accepts exactly the spellings of `jpg`, `jpeg` or `png`
      in any mix of ASCII case. */
  lemma IsImageExtSpec(ext: OsStr)
    ensures IsImageExt(ext) <==> exists name :: name in ImageExtensions && SpellsIgnoringCase(ext, name)
  {
    forall name | name in ImageExtensions
      ensures ToStr(ToAsciiLowercase(ext)) == Some(name) <==> SpellsIgnoringCase(ext, name)
    {
      LowerMatchesName(ext, name);
    }
  }

  /** An extension without a text form is rejected, never an error. */
  lemma NonTextRejected(ext: OsStr)
    requires ToStr(ext).None?
    ensures !IsImageExt(ext)
  {
    LowercaseKeepsText(ext);
  }

  /** `matches_image_path` keeps an entry exactly when its file name ends in
      a dot, preceded by something, and then one of the listed extensions in
      any mix of case with no further dot. */
  lemma MatchesImagePathSpec(entry: DirEntry)
    ensures MatchesImagePath(entry).Some? <==>
      exists x, name :: EndsInExtension(FileName(entry.path), x) && name in ImageExtensions && SpellsIgnoringCase(x, name)
  {
    if MatchesImagePath(entry).Some? {
      var x := Extension(entry.path).value;
      ExtensionSpec(entry.path, x);
      IsImageExtSpec(x);
    }
    if exists x, name :: EndsInExtension(FileName(entry.path), x) && name in ImageExtensions && SpellsIgnoringCase(x, name) {
      var x, name :| EndsInExtension(FileName(entry.path), x) && name in ImageExtensions && SpellsIgnoringCase(x, name);
      ExtensionSpec(entry.path, x);
      IsImageExtSpec(x);
    }
  }

  /** A string lowered in ASCII case. */
  function LowerString(t: string): (r: string)
    ensures |r| == |t|
    ensures forall i :: 0 <= i < |t| ==> r[i] == AsciiLower(t[i])
  {
    seq(|t|, i requires 0 <= i < |t| => AsciiLower(t[i]))
  }

  /** For an extension that is text, acceptance is membership of its
      lower-cased form in the allow-list. */
  lemma TextExtension(t: string)
    ensures IsImageExt(FromStr(t)) <==> LowerString(t) in ImageExtensions
  {
    assert ToAsciiLowercase(FromStr(t)) == FromStr(LowerString(t));
    ToStrFromStr(LowerString(t));
  }

  /** Mixed-case spellings of listed extensions are accepted. */
  lemma MixedCaseAccepted()
    ensures IsImageExt(FromStr("png"))
    ensures IsImageExt(FromStr("JPG"))
    ensures IsImageExt(FromStr("Png"))
    ensures IsImageExt(FromStr("jpeg"))
  {
    TextExtension("png");
    assert LowerString("png") == "png";
    TextExtension("JPG");
    assert LowerString("JPG") == "jpg";
    TextExtension("Png");
    assert LowerString("Png") == "png";
    TextExtension("jpeg");
    assert LowerString("jpeg") == "jpeg";
  }

  /** Extensions off the list are rejected, near misses included. */
  lemma UnlistedRejected()
    ensures !IsImageExt(FromStr("gif"))
    ensures !IsImageExt(FromStr("jpe"))
    ensures !IsImageExt(FromStr("txt"))
  {
    TextExtension("gif");
    assert LowerString("gif") == "gif";
    TextExtension("jpe");
    assert LowerString("jpe") == "jpe";
    TextExtension("txt");
    assert LowerString("txt") == "txt";
  }
}
