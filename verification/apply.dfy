/** `gsettings_set` and `change_wallpaper`: write the selected file into each
    desktop setting in turn, stopping at the first command whose output
    cannot be collected. */
module Apply {
  import opened Types
  import opened OsText
  import opened ImageFilter
  import opened WallpaperErrors
  import opened Selection

  /** A process invocation: program name and arguments. */
  datatype Command = Command(program: string, args: seq<string>)

  /** What `Command::output` reports: the process ran to completion (with
      some exit status), or an I/O error, which covers both a process that
      could not be started and one whose pipes or exit could not be read. */
  datatype OutputResult = Completed(exitStatus: int) | OutputFailed(cause: IoError)

  /** The operating system's answer to each command it is asked to run. The
      program issues each distinct command at most once, so an answer per
      command is as general as an answer per call. */
  type Spawner = Command -> OutputResult

  /** A desktop setting: schema and key. */
  datatype Target = Target(schema: string, key: string)

  /** The settings written, in the order they are written. */
  const Targets: seq<Target> := [
    Target("org.gnome.desktop.background", "picture-uri"),
    Target("org.gnome.desktop.background", "picture-uri-dark"),
    Target("org.gnome.desktop.screensaver", "picture-uri")
  ]

  const UriScheme := "file://"

  /** `gsettings set <schema> <key> file://<file name>`. */
  function SetCommand(t: Target, fileName: string): (c: Command)
    ensures c.program == "gsettings" && |c.args| == 4 && c.args[0] == "set"
    ensures c.args[1] == t.schema && c.args[2] == t.key
    ensures UriScheme <= c.args[3] && c.args[3][|UriScheme|..] == fileName
  {
    Command("gsettings", ["set", t.schema, t.key, UriScheme + fileName])
  }

  /** Commands that were issued, and how the sequence of them ended. */
  datatype Applied = Applied(result: Result<(), WallpaperError>, issued: seq<Command>)

  /** `gsettings_set`: one command; only an error from `output()` is an error,
      whatever status the process exits with. */
  function GsettingsSet(t: Target, fileName: string, spawn: Spawner): (a: Applied)
    ensures a.issued == [SetCommand(t, fileName)]
    ensures a.result.Ok? <==> spawn(SetCommand(t, fileName)).Completed?
    ensures a.result.Err? ==> a.result.error == CommandError(spawn(SetCommand(t, fileName)).cause)
  {
    var c := SetCommand(t, fileName);
    match spawn(c)
    case Completed(_) => Applied(Ok(()), [c])
    case OutputFailed(e) => Applied(Err(CommandError(e)), [c])
  }

  /** The commands for a run of targets, in order. */
  function SetCommands(targets: seq<Target>, fileName: string): (cs: seq<Command>)
    ensures |cs| == |targets|
    ensures forall i :: 0 <= i < |targets| ==> cs[i] == SetCommand(targets[i], fileName)
  {
    seq(|targets|, i requires 0 <= i < |targets| => SetCommand(targets[i], fileName))
  }

  /** `a` is what running `cs` in order and stopping at the first command
      whose `output()` fails leaves behind: the commands issued are a prefix
      of `cs`, every one but the last completed, success means all of `cs`
      was issued and completed, and failure means `output()` failed for the
      last one issued and its cause is reported. */
  ghost predicate StopsAtFirstFailure(cs: seq<Command>, spawn: Spawner, a: Applied) {
    && |a.issued| <= |cs|
    && a.issued == cs[..|a.issued|]
    && (forall i :: 0 <= i < |a.issued| - 1 ==> spawn(cs[i]).Completed?)
    && (a.result.Ok? ==> a.issued == cs && forall i :: 0 <= i < |cs| ==> spawn(cs[i]).Completed?)
    && (a.result.Err? ==>
          && a.issued != []
          && spawn(cs[|a.issued| - 1]).OutputFailed?
          && a.result.error == CommandError(spawn(cs[|a.issued| - 1]).cause))
  }

  /** A completed first command followed by a run that stops at its first
      failure is itself such a run. */
  lemma StopsAtFirstFailureCons(cs: seq<Command>, spawn: Spawner, rest: Applied)
    requires cs != [] && spawn(cs[0]).Completed?
    requires StopsAtFirstFailure(cs[1..], spawn, rest)
    ensures StopsAtFirstFailure(cs, spawn, Applied(rest.result, [cs[0]] + rest.issued))
  {
    var a := Applied(rest.result, [cs[0]] + rest.issued);
    assert a.issued == cs[..|a.issued|] by {
      assert cs == [cs[0]] + cs[1..];
    }
    forall i | 0 <= i < |a.issued| - 1
      ensures spawn(cs[i]).Completed?
    {
      if i > 0 {
        assert cs[i] == cs[1..][i - 1];
      }
    }
    if a.result.Ok? {
      forall i | 0 <= i < |cs|
        ensures spawn(cs[i]).Completed?
      {
        if i > 0 {
          assert cs[i] == cs[1..][i - 1];
        }
      }
    }
    if a.result.Err? {
      assert cs[|a.issued| - 1] == cs[1..][|rest.issued| - 1];
    }
  }

  /** The `for` loop with `?`: each target in turn, stopping at the first
      error. */
  function SetAll(targets: seq<Target>, fileName: string, spawn: Spawner): (a: Applied)
    ensures StopsAtFirstFailure(SetCommands(targets, fileName), spawn, a)
    decreases |targets|
  {
    if targets == [] then Applied(Ok(()), [])
    else
      var first := GsettingsSet(targets[0], fileName, spawn);
      if first.result.Err? then first
      else
        var rest := SetAll(targets[1..], fileName, spawn);
        var cs := SetCommands(targets, fileName);
        assert cs[1..] == SetCommands(targets[1..], fileName);
        StopsAtFirstFailureCons(cs, spawn, rest);
        Applied(rest.result, first.issued + rest.issued)
  }

  /** The three commands `change_wallpaper` issues for a file, in order. */
  lemma TargetCommands(fileName: string)
    ensures SetCommands(Targets, fileName) == [
      Command("gsettings", ["set", "org.gnome.desktop.background", "picture-uri", "file://" + fileName]),
      Command("gsettings", ["set", "org.gnome.desktop.background", "picture-uri-dark", "file://" + fileName]),
      Command("gsettings", ["set", "org.gnome.desktop.screensaver", "picture-uri", "file://" + fileName])
    ]
  {
  }

  /** Everything a wallpaper change does that can be observed: its result,
      the commands it issued, and how many random draws it took. */
  datatype Run = Run(result: Result<string, WallpaperError>, issued: seq<Command>, draws: nat)

  /** A result with its success value dropped. */
  function Erase<T>(r: Result<T, WallpaperError>): Result<(), WallpaperError> {
    match r
    case Ok(_) => Ok(())
    case Err(e) => Err(e)
  }

  /** `change_wallpaper`: select a file, then write it into every target. */
  function ChangeWallpaper(listing: DirListing, choose: Chooser, spawn: Spawner): (run: Run)
    requires ValidChooser(choose)
    ensures var sel := SelectWallpaper(listing, choose);
      && run.draws == sel.draws
      && (sel.result.Err? ==> run.result == sel.result && run.issued == [])
      && (sel.result.Ok? ==>
            && StopsAtFirstFailure(SetCommands(Targets, sel.result.value), spawn, Applied(Erase(run.result), run.issued))
            && (run.result.Ok? ==> run.result.value == sel.result.value))
    ensures run.result.Ok? ==> listing.Ok? && FromStr(run.result.value) in Candidates(listing.value)
  {
    var sel := SelectWallpaper(listing, choose);
    match sel.result
    case Err(e) => Run(Err(e), [], sel.draws)
    case Ok(fileName) =>
      var applied := SetAll(Targets, fileName, spawn);
      match applied.result
      case Ok(_) => Run(Ok(fileName), applied.issued, sel.draws)
      case Err(e) => Run(Err(e), applied.issued, sel.draws)
  }

  /** If the k-th setting command is the first whose `output()` fails, the
      commands up to and including it were issued, none after it, and its
      cause is reported; the settings already written stay written. */
  lemma FirstOutputFailureStops(listing: DirListing, choose: Chooser, spawn: Spawner, k: nat)
    requires ValidChooser(choose)
    requires SelectWallpaper(listing, choose).result.Ok?
    requires var cs := SetCommands(Targets, SelectWallpaper(listing, choose).result.value);
      && k < |cs|
      && (forall i :: 0 <= i < k ==> spawn(cs[i]).Completed?)
      && spawn(cs[k]).OutputFailed?
    ensures var cs := SetCommands(Targets, SelectWallpaper(listing, choose).result.value);
      ChangeWallpaper(listing, choose, spawn) == Run(Err(CommandError(spawn(cs[k]).cause)), cs[..k + 1], 1)
  {
    var fileName := SelectWallpaper(listing, choose).result.value;
    var cs := SetCommands(Targets, fileName);
    var applied := SetAll(Targets, fileName, spawn);
    assert applied.result.Err?;
    var n := |applied.issued|;
    assert n - 1 == k;
  }

  /** A process that completes counts as success whatever it exits with: with
      every command completed (here, all exiting with status 1) the change
      succeeds and reports the selected file. */
  lemma ExitStatusIgnored(listing: DirListing, choose: Chooser)
    requires ValidChooser(choose)
    requires SelectWallpaper(listing, choose).result.Ok?
    ensures var fileName := SelectWallpaper(listing, choose).result.value;
      ChangeWallpaper(listing, choose, c => Completed(1)) == Run(Ok(fileName), SetCommands(Targets, fileName), 1)
  {
  }

  /** An unreadable directory ends the change before any draw or command. */
  lemma UnreadableDirectoryRun(cause: IoError, choose: Chooser, spawn: Spawner)
    requires ValidChooser(choose)
    ensures ChangeWallpaper(Err(cause), choose, spawn) == Run(Err(DirectoryNotFound), [], 0)
  {
  }
}
