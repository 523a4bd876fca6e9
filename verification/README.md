# wallpaper-randomizer, modelled in Dafny

The library behind the `wallpaper-randomizer` command picks a random JPEG or
PNG file from a directory. It then sets that file as the GNOME desktop
background (light and dark variants) and as the screensaver picture, by
running `gsettings set` once per setting.

This project models that pipeline with the operating system taken out:

- the directory listing (`read_dir`) is an input value,
- the random generator (`thread_rng().choose`) is an injected chooser,
- running a process (`Command::output`) is an oracle.

Every step is a pure function over immutable datatypes.

| file | module | models |
|---|---|---|
| `types.dfy` | `Types` | `Option`, `Result`, an opaque `std::io::Error` |
| `os_text.dfy` | `OsText` | platform strings: `to_ascii_lowercase`, `to_str` |
| `paths.dfy` | `Paths` | `Path::file_name` and `Path::extension` |
| `wallpaper_error.dfy` | `WallpaperErrors` | `WallpaperError` and its `Display` |
| `image_filter.dfy` | `ImageFilter` | `IMAGE_EXTENSIONS`, `is_image_ext`, `matches_image_path` |
| `selection.dfy` | `Selection` | `select_wallpaper`: filtering, random choice, text form |
| `apply.dfy` | `Apply` | `gsettings_set`, `change_wallpaper` |

Modelling choices:

- A platform string is a sequence of units. Each unit is a character or a
  stray byte (0x80 to 0xFF) left over after the valid UTF-8 has been read
  as characters. It has a text form exactly when it holds no stray byte.
- The listing is `Err(io error)` when the directory cannot be opened.
  Otherwise it is a sequence of entries, each `Ok(entry)` or `Err(io error)`.
- The generator is a function from a length `n` to an index below `n`
  (`ValidChooser`). A selection also reports how many random draws it took:
  0 or 1.
- The process oracle maps each command to `Completed(exit status)` or
  `OutputFailed(io error)`. `OutputFailed` is any error from `output()`:
  the process could not be started, or its pipes or exit could not be read.
  The code treats both alike, and so does the model. Each wallpaper change issues three distinct
  commands, so an answer per command is as general as an answer per call.
  A run records the commands it issued, in order.
- The code does not check an entry's file type. So a sub-directory named
  like an image (`holiday.png/`) is a candidate, and the model follows the
  code here.
- A process that completes but exits with a non-zero status counts as
  success, because the code only checks whether `output()` returned an
  error. The model follows the code here too.

## Model

| member | source | states |
|---|---|---|
| `OsText.ToStr` | src/lib.rs:72-73 | a path has a text form exactly when every unit is a character, and that text spells the path unit by unit |
| `OsText.ToAsciiLowercase` | src/lib.rs:33 | `to_ascii_lowercase`: same length, unit by unit; each 'A'..'Z' becomes the letter 32 code points later ('a'..'z'), and every other character and every stray byte is kept in place; no upper-case ASCII letter remains |
| `OsText.ToStrFromStr` | src/lib.rs:72-75 | the text form of a string seen as a path is that string (round trip) |
| `OsText.FromStrToStr` | src/lib.rs:72-75 | a path with a text form is rebuilt from it (other round trip) |
| `OsText.LowercaseKeepsText` | src/lib.rs:33 | ASCII lowercasing neither adds nor removes non-text data |
| `Paths.FileName` | src/lib.rs:41-42 | the file name is the longest separator-free suffix of the path |
| `Paths.NameExtension` | src/lib.rs:42 | the extension of a file name: none when the name has no dot; otherwise, when present, it is what follows the last dot, with something before that dot and the name not `..` (both directions in `Paths.ExtensionSpec`) |
| `Paths.Extension` | src/lib.rs:42 | `Path::extension`: when present, a dot-free suffix of the path shorter than the path (exact characterisation in `Paths.ExtensionSpec`) |
| `Paths.ExtensionSpec` | src/lib.rs:42 | `extension()` is `x` exactly when the file name ends in a dot and then `x`, with no dot in `x`, something before the dot, and the name is not `..` |
| `Paths.JoinedExtension` | src/lib.rs:41-42 | the path of an entry `stem.x` in any directory has extension `x` |
| `Paths.NoDotNoExtension` | src/lib.rs:42-44 | a file name without a dot has no extension |
| `ImageFilter.IsImageExt` | src/lib.rs:32-38 | `is_image_ext`: an accepted extension has a text form and three or four units; the exact accepted set is in `ImageFilter.IsImageExtSpec` |
| `ImageFilter.IsImageExtSpec` | src/lib.rs:30-38 | `is_image_ext` holds exactly when the extension spells `jpg`, `jpeg` or `png` with each letter in either ASCII case |
| `ImageFilter.LowerMatchesName` | src/lib.rs:33-34 | lowering an extension gives an all-lower-case name exactly when the extension spells that name in mixed case |
| `ImageFilter.NonTextRejected` | src/lib.rs:33-37 | an extension without a text form is rejected, not an error |
| `ImageFilter.TextExtension` | src/lib.rs:32-34 | a text extension is accepted exactly when its lowered form is on the allow-list |
| `ImageFilter.MixedCaseAccepted` | src/lib.rs:30-34 | `png`, `JPG`, `Png` and `jpeg` are accepted |
| `ImageFilter.UnlistedRejected` | src/lib.rs:30-34 | `gif`, `jpe` and `txt` are rejected |
| `ImageFilter.MatchesImagePath` | src/lib.rs:40-46 | the entry's path comes back unchanged or not at all: not at all when there is no extension, and otherwise exactly when the extension is accepted |
| `ImageFilter.MatchesImagePathSpec` | src/lib.rs:40-46 | an entry is kept exactly when its file name ends in `.` plus a listed extension in any case, with a non-empty stem |
| `ImageFilter.JoinedEntryFiltered` | src/lib.rs:40-46 | entry `stem.x` is kept, as its own path, exactly when `x` is accepted |
| `Selection.Kept` | src/lib.rs:65-66 | what one entry contributes: at most one path, nothing for a failed read, and only the entry's own path |
| `Selection.Candidates` | src/lib.rs:64-67 | the filter chain; its own contract says only that there are no more candidates than entries, and its content is stated by `Selection.CandidatesAppend` and `Selection.CandidatesMembership` |
| `Selection.CandidatesAppend` | src/lib.rs:64-67 | filtering works entry by entry, so the candidates of a concatenated listing are the two candidate lists concatenated (order kept) |
| `Selection.CandidatesMembership` | src/lib.rs:64-67 | a path is a candidate exactly when some entry read successfully and `matches_image_path` returned that path for it |
| `Selection.YieldedIsCandidate` | src/lib.rs:64-67 | every successfully read entry that passes the filter contributes its path |
| `Selection.CandidateWasYielded` | src/lib.rs:64-67 | every candidate comes from a successfully read entry that passes the filter; failed reads are dropped |
| `Selection.Choose` | src/lib.rs:69-71 | the choice is empty exactly when there are no candidates; otherwise it is a candidate, and with one candidate it is that one |
| `Selection.SelectWallpaper` | src/lib.rs:59-76 | unreadable directory gives `DirectoryNotFound` with no draw; no candidate gives `ImageNotFound` with no draw; otherwise one draw; success is the text of a candidate; `InvalidPath` only when some candidate has no text form; never `CommandError` |
| `Selection.SelectionFollowsDraw` | src/lib.rs:69-75 | the outcome is the candidate at the drawn index, as text, or `InvalidPath` if it has none |
| `Selection.SingleCandidateForced` | src/lib.rs:69-75 | with exactly one candidate the outcome is the same for every generator |
| `Selection.EveryCandidateReachable` | src/lib.rs:69-75 | every candidate with a text form is selected by some valid draw |
| `Selection.NoImageNoCandidate` | src/lib.rs:64-71 | a listing with no readable image entry has no candidate and gives `ImageNotFound` without a draw, for every generator |
| `Selection.EntryAtFiltered` | src/lib.rs:64-67 | entry `stem.ext` contributes its own path when `ext` is accepted and nothing otherwise |
| `Selection.DropMiddle` | src/lib.rs:64-67 | a dropped entry between two kept ones leaves those two in order |
| `Selection.SampleDirectory` | src/lib.rs:64-67 | in any directory, `a.png`, `b.txt`, `c.JPG` give the candidates `a.png`, `c.JPG` in that order |
| `WallpaperErrors.Message` | src/lib.rs:18-28 | a message starts with the command-error prefix exactly for `CommandError`, and then carries the cause's text |
| `WallpaperErrors.ParseMessage` | src/lib.rs:18-28 | any message it recognises is the message of the error it returns |
| `WallpaperErrors.MessageRoundTrip` | src/lib.rs:18-28 | the kind and the cause's text are recovered from the message |
| `WallpaperErrors.MessageInjective` | src/lib.rs:18-28 | equal messages mean the same kind and the same cause text |
| `Apply.SetCommand` | src/lib.rs:48-53 | the command is `gsettings set <schema> <key> <value>`, and the value is `file://` followed by the file name |
| `Apply.GsettingsSet` | src/lib.rs:48-57 | one command is issued; the call succeeds exactly when `output()` returns a completed process, whatever its exit status; otherwise the I/O error is wrapped in `CommandError` |
| `Apply.SetAll` | src/lib.rs:81-87 | the commands issued are a prefix of the per-target commands. Every issued command but the last completed. Success means all were issued and completed. Failure means `output()` failed for the last one issued, and its cause is returned |
| `Apply.StopsAtFirstFailureCons` | src/lib.rs:85-87 | a completed command followed by a short-circuiting run is a short-circuiting run |
| `Apply.TargetCommands` | src/lib.rs:81-86 | the three commands set background `picture-uri`, background `picture-uri-dark` and screensaver `picture-uri`, in that order, each to `file://` plus the file name |
| `Apply.ChangeWallpaper` | src/lib.rs:78-89 | a selection error passes through unchanged with no command issued. Otherwise the targets are applied with short-circuit. Success returns the selected file name, which is the text of a candidate |
| `Apply.FirstOutputFailureStops` | src/lib.rs:81-87 | if command k is the first whose `output()` fails, exactly commands 1..k were issued and `CommandError` with its cause is returned |
| `Apply.ExitStatusIgnored` | src/lib.rs:54-56 | processes that all exit with status 1 still give success, with all three commands issued |
| `Apply.UnreadableDirectoryRun` | src/lib.rs:59-62 | an unreadable directory gives `DirectoryNotFound` with no draw and no command |

## Left out

- `src/main.rs`: command-line parsing and printing the outcome. It is
  interface glue around `change_wallpaper`.
- Real filesystem access. The listing is an input value. `DirEntry` is
  reduced to its path, because the code uses nothing else of it.
- Path component parsing beyond the final component. `Paths.FileName` takes
  what follows the last `/`. The directory part may hold `.` components
  (`./pics`), but in a path built by joining a directory and an entry name
  the final component is always the entry name, never `.`, `..` or empty.
- How a platform string is split into units. The model assumes the standard
  split: every valid UTF-8 sequence is one `Char`, and only left-over bytes
  are `Raw`. Nothing enforces this, so a value such as `[Raw(0xC3), Raw(0xA9)]`
  (which spells `é`) counts as non-text in the model.
- Platform encodings. A non-text path is modelled by stray non-UTF-8 bytes,
  Unix-style. Windows wide-string paths are not modelled.
- Randomness. The chooser may return any valid index, so uniformity is not
  stated.
- Running processes. The `gsettings` program itself and what it does with
  the setting are not modelled.
- The formatting of `std::io::Error`. An `output()` error is reduced to its display
  text, so the message lemmas recover the cause's text, not the full error.
