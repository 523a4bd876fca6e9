/** `select_wallpaper`: list a directory, keep the image entries, pick one at
    random, and hand back its text form. */
module Selection {
  import opened Types
  import opened OsText
  import opened Paths
  import opened ImageFilter
  import opened WallpaperErrors

  /** What `read_dir` yields: the directory could not be opened, or a run of
      entries, each of which may itself have failed to read. */
  type DirListing = Result<seq<Result<DirEntry, IoError>>, IoError>

  /** The random generator, seen through the one question asked of it: an
      index below a given length. */
  type Chooser = nat -> nat

  ghost predicate ValidChooser(choose: Chooser) {
    forall n: nat :: 0 < n ==> choose(n) < n
  }

  /** What one entry contributes: nothing if it failed to read or
      `matches_image_path` rejects it, otherwise the path it returned. */
  function Kept(r: Result<DirEntry, IoError>): (ps: seq<OsStr>)
    ensures |ps| <= 1
    ensures r.Err? ==> ps == []
    ensures ps != [] ==> ps == [r.value.path]
  {
    match r
    case Err(_) => []
    case Ok(entry) =>
      match MatchesImagePath(entry)
      case Some(p) => [p]
      case None => []
  }

  /** The candidate paths: entries that read successfully and pass
      `matches_image_path`, in listing order. */
  function Candidates(entries: seq<Result<DirEntry, IoError>>): (paths: seq<OsStr>)
    ensures |paths| <= |entries|
  {
    if entries == [] then [] else Kept(entries[0]) + Candidates(entries[1..])
  }

  /** Filtering is done entry by entry, so order is preserved. */
  lemma {:induction false} CandidatesAppend(a: seq<Result<DirEntry, IoError>>, b: seq<Result<DirEntry, IoError>>)
    ensures Candidates(a + b) == Candidates(a) + Candidates(b)
    decreases |a|
  {
    if a == [] {
      assert a + b == b;
    } else {
      assert (a + b)[1..] == a[1..] + b;
      CandidatesAppend(a[1..], b);
    }
  }

  lemma CandidatesSingleton(r: Result<DirEntry, IoError>)
    ensures Candidates([r]) == Kept(r)
  {
    assert [r][1..] == [];
  }

  /** Entry `r` read successfully and `matches_image_path` kept it as `p`. */
  predicate Yields(r: Result<DirEntry, IoError>, p: OsStr) {
    r.Ok? && MatchesImagePath(r.value) == Some(p)
  }

  /** Every entry that yields a path contributes it to the candidates. */
  lemma {:induction false} YieldedIsCandidate(entries: seq<Result<DirEntry, IoError>>, i: nat, p: OsStr)
    requires i < |entries| && Yields(entries[i], p)
    ensures p in Candidates(entries)
    decreases |entries|
  {
    assert Candidates(entries) == Kept(entries[0]) + Candidates(entries[1..]);
    if i == 0 {
      assert Kept(entries[0]) == [p];
    } else {
      assert entries[1..][i - 1] == entries[i];
      YieldedIsCandidate(entries[1..], i - 1, p);
    }
  }

  /** Every candidate was yielded by some entry. */
  lemma {:induction false} CandidateWasYielded(entries: seq<Result<DirEntry, IoError>>, p: OsStr)
    requires p in Candidates(entries)
    ensures exists i :: 0 <= i < |entries| && Yields(entries[i], p)
    decreases |entries|
  {
    assert Candidates(entries) == Kept(entries[0]) + Candidates(entries[1..]);
    if !Yields(entries[0], p) {
      assert p !in Kept(entries[0]);
      CandidateWasYielded(entries[1..], p);
      var i :| 0 <= i < |entries[1..]| && Yields(entries[1..][i], p);
      assert entries[i + 1] == entries[1..][i];
    }
  }

  /** A path is a candidate exactly when some entry yields it. */
  lemma {:induction false} CandidatesMembership(entries: seq<Result<DirEntry, IoError>>, p: OsStr)
    ensures p in Candidates(entries) <==> exists i :: 0 <= i < |entries| && Yields(entries[i], p)
  {
    if p in Candidates(entries) {
      CandidateWasYielded(entries, p);
    }
    if exists i :: 0 <= i < |entries| && Yields(entries[i], p) {
      var i :| 0 <= i < |entries| && Yields(entries[i], p);
      YieldedIsCandidate(entries, i, p);
    }
  }

  /** `SliceRandom::choose`: nothing for an empty slice, otherwise the element
      at the drawn index. */
  function Choose(paths: seq<OsStr>, choose: Chooser): (r: Option<OsStr>)
    requires ValidChooser(choose)
    ensures r.None? <==> paths == []
    ensures r.Some? ==> r.value in paths
    ensures |paths| == 1 ==> r == Some(paths[0])
  {
    if paths == [] then None else Some(paths[choose(|paths|)])
  }

  /** The outcome of a selection, with the number of random draws it took. */
  datatype Selected = Selected(result: Result<string, WallpaperError>, draws: nat)

  /** `select_wallpaper`. */
  function SelectWallpaper(listing: DirListing, choose: Chooser): (s: Selected)
    requires ValidChooser(choose)
    ensures listing.Err? ==> s == Selected(Err(DirectoryNotFound), 0)
    ensures listing.Ok? && Candidates(listing.value) == [] ==> s == Selected(Err(ImageNotFound), 0)
    ensures listing.Ok? && Candidates(listing.value) != [] ==> s.draws == 1
    ensures s.result.Err? ==> !s.result.error.CommandError?
    ensures s.result.Ok? ==> listing.Ok? && FromStr(s.result.value) in Candidates(listing.value)
    ensures s.result == Err(InvalidPath) ==>
      listing.Ok? && exists p :: p in Candidates(listing.value) && ToStr(p).None?
  {
    match listing
    case Err(_) => Selected(Err(DirectoryNotFound), 0)
    case Ok(entries) =>
      var paths := Candidates(entries);
      match Choose(paths, choose)
      case None => Selected(Err(ImageNotFound), 0)
      case Some(p) =>
        match ToStr(p)
        case None => Selected(Err(InvalidPath), 1)
        case Some(fileName) =>
          FromStrToStr(p);
          Selected(Ok(fileName), 1)
  }

  /** The selection is decided by the draw alone: it is the candidate at the
      index the generator yields for the number of candidates. */
  lemma SelectionFollowsDraw(entries: seq<Result<DirEntry, IoError>>, choose: Chooser)
    requires ValidChooser(choose)
    ensures var paths := Candidates(entries);
      paths != [] ==>
        var picked := paths[choose(|paths|)];
        SelectWallpaper(Ok(entries), choose).result ==
          (if ToStr(picked).Some? then Ok(ToStr(picked).value) else Err(InvalidPath))
  {
  }

  /** With one candidate the choice is forced, whatever the generator does. */
  lemma SingleCandidateForced(entries: seq<Result<DirEntry, IoError>>, choose: Chooser)
    requires ValidChooser(choose)
    ensures |Candidates(entries)| == 1 ==>
      var p := Candidates(entries)[0];
      SelectWallpaper(Ok(entries), choose).result ==
        (if ToStr(p).Some? then Ok(ToStr(p).value) else Err(InvalidPath))
  {
  }

  /** A generator that, asked for an index below `n`, answers `i`. */
  function DrawAt(n: nat, i: nat): Chooser {
    k => if k == n then i else 0
  }

  /** No candidate is out of reach: for each one some draw selects it. */
  lemma EveryCandidateReachable(entries: seq<Result<DirEntry, IoError>>, i: nat)
    requires i < |Candidates(entries)|
    requires ToStr(Candidates(entries)[i]).Some?
    ensures ValidChooser(DrawAt(|Candidates(entries)|, i))
    ensures SelectWallpaper(Ok(entries), DrawAt(|Candidates(entries)|, i)).result
         == Ok(ToStr(Candidates(entries)[i]).value)
  {
    var paths := Candidates(entries);
    var choose := DrawAt(|paths|, i);
    assert ValidChooser(choose);
    assert Choose(paths, choose) == Some(paths[i]);
    SelectionFollowsDraw(entries, choose);
  }

  /** A listing in which no entry is a readable image yields `ImageNotFound`
      without drawing. */
  lemma {:induction false} NoImageNoCandidate(entries: seq<Result<DirEntry, IoError>>)
    requires forall i :: 0 <= i < |entries| ==> entries[i].Err? || MatchesImagePath(entries[i].value).None?
    ensures Candidates(entries) == []
    ensures forall choose: Chooser :: ValidChooser(choose) ==>
      SelectWallpaper(Ok(entries), choose) == Selected(Err(ImageNotFound), 0)
    decreases |entries|
  {
    if entries != [] {
      NoImageNoCandidate(entries[1..]);
    }
  }

  /** The entry `stem.ext` of directory `dir`. */
  function EntryAt(dir: OsStr, stem: string, ext: string): Result<DirEntry, IoError> {
    Ok(DirEntry(dir + [Separator] + (FromStr(stem) + [Dot] + FromStr(ext))))
  }

  /** An entry `stem.ext` is kept, as its own path, exactly when `ext` is
      accepted. */
  lemma EntryAtFiltered(dir: OsStr, stem: string, ext: string)
    requires stem != "" && '.' !in ext && '/' !in stem && '/' !in ext
    requires stem != "." || ext != ""
    ensures Kept(EntryAt(dir, stem, ext)) ==
      if IsImageExt(FromStr(ext)) then [EntryAt(dir, stem, ext).value.path] else []
  {
    assert Dot !in FromStr(ext);
    assert Separator !in FromStr(stem) && Separator !in FromStr(ext);
    assert FromStr(stem) != [] && (FromStr(stem) != [Dot] || FromStr(ext) != []);
    JoinedEntryFiltered(dir, FromStr(stem), FromStr(ext));
  }

  /** Three entries of which the middle one is dropped. */
  lemma DropMiddle(a: Result<DirEntry, IoError>, b: Result<DirEntry, IoError>, c: Result<DirEntry, IoError>,
                   pa: OsStr, pc: OsStr)
    requires Kept(a) == [pa] && Kept(b) == [] && Kept(c) == [pc]
    ensures Candidates([a, b, c]) == [pa, pc]
  {
    var bc, abc := [b, c], [a, b, c];
    assert abc[0] == a && abc[1..] == bc;
    assert bc[0] == b && bc[1..] == [c];
    CandidatesSingleton(c);
    assert Candidates(bc) == [pc];
    assert Candidates(abc) == [pa] + [pc];
  }

  /** `a.png` is kept as its own path. */
  lemma SampleKeptLower(dir: OsStr)
    ensures Kept(EntryAt(dir, "a", "png")) == [EntryAt(dir, "a", "png").value.path]
  {
    EntryAtFiltered(dir, "a", "png");
    MixedCaseAccepted();
  }

  /** `c.JPG` is kept as its own path: case does not matter. */
  lemma SampleKeptUpper(dir: OsStr)
    ensures Kept(EntryAt(dir, "c", "JPG")) == [EntryAt(dir, "c", "JPG").value.path]
  {
    MixedCaseAccepted();
    EntryAtFiltered(dir, "c", "JPG");
  }

  /** `b.txt` is dropped. */
  lemma SampleDropped(dir: OsStr)
    ensures Kept(EntryAt(dir, "b", "txt")) == []
  {
    EntryAtFiltered(dir, "b", "txt");
    UnlistedRejected();
  }

  /** In any directory, entries `a.png`, `b.txt` and `c.JPG` offer the first
      and the last, in that order; `b.txt` is left out. */
  lemma SampleDirectory(dir: OsStr)
    ensures Candidates([EntryAt(dir, "a", "png"), EntryAt(dir, "b", "txt"), EntryAt(dir, "c", "JPG")])
         == [EntryAt(dir, "a", "png").value.path, EntryAt(dir, "c", "JPG").value.path]
  {
    SampleKeptLower(dir);
    SampleDropped(dir);
    SampleKeptUpper(dir);
    DropMiddle(EntryAt(dir, "a", "png"), EntryAt(dir, "b", "txt"), EntryAt(dir, "c", "JPG"),
               EntryAt(dir, "a", "png").value.path, EntryAt(dir, "c", "JPG").value.path);
  }
}
