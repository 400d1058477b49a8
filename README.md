# maestro-test-action installers, modelled in Dafny

This project models the decision logic of the GitHub Action that installs the
`maestro` CLI and `idb_companion` and then runs `maestro test`. It covers:

- the version-token handling, with a backtracking matcher for the
  JavaScript regular expression `/[0-9]+\.[0-9]+.[0-9]+/g` (over Unicode
  scalar values, not UTF-16 code units; see "Left out");
- the download URLs;
- the installed-version extraction;
- both installation searches;
- the reuse-or-refetch decision;
- the clean-slate refetch that both installers share;
- the argument list of `maestro test`.

What the installers observe is an `Env` value:

- which files exist;
- what a subprocess exits with and prints;
- which release archives can be downloaded and what they hold;
- where home and the unpack directory are. Both are absolute, and home does
  not lie inside the unpack directory. The unpack directory may lie inside
  home, as `/home/runner/work/_temp` does on hosted runners.

Where the code as written
fails (see "Findings"), the model follows the evident intent and also states
the code as written beside it.

What they do is a log of `Action`s kept by the `Host` class. The file system
and the PATH additions are the replay of that log. Every state-changing method
(`FindMaestroInstallation`, `Install`, `FindIdbInstallation`, ...) is proved
equal to a function of the world (`FindSpec`, `InstallSpec`, `CleanSlateSpec`).
The properties of the source are then proved as lemmas about those functions.

Modules:

| file | module | contents |
|---|---|---|
| wrappers.dfy | `Wrappers` | `Option`, `Result` |
| paths.dfy | `Paths` | `path.join` and `path.parse(..).dir` on normal paths; directory trees as path sets, with removal and move |
| regex.dfy | `Regex` | patterns of `atom` / `atom+` items; their meaning as a language (`Denotes`); a greedy backtracking matcher (`MatchAt`); the global search `s.match(re)` (`Scan`, `MatchAll`) |
| jstext.dfy | `JsText` | `String.prototype.trim` |
| host.dfy | `Host` | the world (`Env`), the action log, `Replay`, `AddedDirs`, and the `Host` class with one method per library call |
| fetch.dfy | `Fetch` | the clean-slate refetch of src/maestro.ts:88-99 and src/idb.ts:54-64 |
| maestro.dfy | `Maestro` | src/maestro.ts |
| idb.dfy | `Idb` | src/idb.ts |

## Model

| member | source | states |
|---|---|---|
| Regex.Scan | src/maestro.ts:17 | the global search: the engine is tried at each position from the start, and after a match the search resumes at its end; what it reports is stated by `ScanSpans`, `ScanLeftmost` and `ScanFindsIff` |
| Regex.ScanSpans | src/maestro.ts:9 | every span a global search reports is a match of the engine starting at or after the search start; the spans are in order and do not overlap (each starts at or after the previous resume point) |
| Regex.MatchAll | src/maestro.ts:17 | `s.match(re)` has exactly one string per span of the global search |
| Regex.MatchAllEntry | src/maestro.ts:36-39 | entry `k` of `s.match(re)` is the text of the `k`-th span, which the engine matched at its start |
| Regex.MatchAt | src/maestro.ts:9 | a match found at `i` ends within the string, at or after `i`; which match it is, is stated by `MatchAtSound`, `MatchAtComplete` and `MatchAtGreedy` |
| Regex.Backtrack | src/maestro.ts:9 | the end it reports lies after the first repetition and within the string; how many repetitions it keeps is stated by `BacktrackGreedy` |
| Regex.BacktrackGreedy | src/maestro.ts:9 | backtracking over a `+` item keeps the largest number of repetitions, at most the greedy run, after which the rest of the pattern matches; with every larger number the rest has no match |
| Regex.MatchAtGreedy | src/maestro.ts:9 | a match led by `cls+` continues after the longest run of `cls` within the maximal run after which the rest of the pattern matches; every longer run leaves the rest without a match |
| Regex.RunLengthExact | src/maestro.ts:9 | a run of exactly `n` characters of a class, ended by the end of the string or another character, is what the greedy `+` first takes |
| Regex.PlusStep | src/maestro.ts:9 | when the rest of the pattern matches after the whole run, a greedy `+` keeps the whole run and does not backtrack |
| Regex.ScanLeftmost | src/maestro.ts:36 | the search is leftmost: no match starts between the search start and the first span, nor between the resume point after a span and the next span |
| Regex.MatchAtSound | src/maestro.ts:9 | every match the backtracking engine reports is a word of the pattern |
| Regex.MatchAtComplete | src/maestro.ts:9 | whenever a word of the pattern starts at `i`, the engine finds a match at `i` |
| Regex.BacktrackSound | src/maestro.ts:9 | the backtracking step over a `+` item reports only words of the pattern |
| Regex.BacktrackComplete | src/maestro.ts:9 | backtracking over a `+` item misses no shorter run that lets the rest match |
| Regex.RunLengthMaximal | src/maestro.ts:9 | the greedy run of a character class cannot be extended |
| Regex.MatchAtAdvances | src/maestro.ts:9 | a match of a non-empty pattern ends after its start, so the search never reports an empty match |
| Regex.ScanEmptyMeansNoMatch | src/maestro.ts:9 | a search that reports nothing passed over no position where a match starts |
| Regex.ScanEndsAfterLast | src/maestro.ts:9 | a search resumed after the last reported span reports nothing more |
| Regex.ScanLastIsLast | src/maestro.ts:9 | no match starts after the resume point of the last reported match |
| Regex.ScanFindsIff | src/maestro.ts:9 | a search reports something exactly when a word of the pattern occurs from its start on |
| Regex.NothingAfterLastMatch | src/maestro.ts:9 | no word of the pattern starts at or after the resume point of the last match |
| Regex.LastMatchIsLast | src/maestro.ts:36-39 | for a pattern that cannot match the empty string, the last entry of `match` is the text of the last span of the leftmost search: a non-empty word of the pattern after whose end no word starts |
| Regex.LastEntryMeaning | src/maestro.ts:36-39 | for such a pattern, `match` is non-null exactly when a word occurs, and its last entry is then the text of the last span of the search, a word after whose end no word starts |
| Regex.MatchAllNonEmptyIff | src/maestro.ts:18 | `match` is non-null (non-empty) exactly when a word of the pattern occurs in the string |
| JsText.Trim | src/maestro.ts:17 | `trim` yields a substring of the input; everything cut off is whitespace or a line terminator, and the result neither starts nor ends with either |
| JsText.TrimKeeps | src/maestro.ts:17 | a string without whitespace at either end is its own trim |
| JsText.TrimIdempotent | src/maestro.ts:17 | trimming twice is trimming once |
| Paths.Join | src/maestro.ts:12-13 | `path.join` of a normal directory and a plain name; `ParseDirOfJoin` and `JoinApart` state what it keeps |
| Paths.ParseDir | src/maestro.ts:63 | `path.parse(p).dir` is a prefix of `p` |
| Paths.ParseDirOfJoin | src/maestro.ts:21-23 | `path.parse(path.join(d, name)).dir` is `d` for a normal directory `d` and a plain name |
| Paths.JoinUnder | src/maestro.ts:12 | a name joined to `a`, where `a` is not inside `b`, lies inside `b` only by being `b`, and `b` lies inside it only if `b` lies inside `a` |
| Paths.JoinApart | src/maestro.ts:12 | joining a name to a directory apart from another keeps it apart |
| Maestro.VersionPattern | src/maestro.ts:9 | `MAESTRO_VERSION_REGEX`: digits, an escaped `.`, digits, any character but a line terminator, digits |
| Maestro.MaestroHome | src/maestro.ts:12 | `MAESTRO_HOME`, `path.join(HOME, '.maestro')` |
| Maestro.MaestroBin | src/maestro.ts:13 | `MAESTRO_BIN`, `path.join(MAESTRO_HOME, 'bin')` |
| Maestro.IsValidVersion | src/maestro.ts:15-19 | `validateMaestroVersion`; its meaning is stated by `IsValidVersionIff` |
| Maestro.IsValidVersionIff | src/maestro.ts:15-19 | a token is valid exactly when it is "latest" or its trimmed form contains a word of `[0-9]+\.[0-9]+.[0-9]+` |
| Maestro.ValidByMatchAt | src/maestro.ts:15-19 | a token with a regex match in its trimmed form is valid |
| Maestro.VersionWordStartsWithDigit | src/maestro.ts:9 | every word of the version pattern starts with a digit |
| Maestro.OccurrenceHasDigit | src/maestro.ts:9 | wherever the version pattern occurs, there is a digit |
| Maestro.NoDigitIsInvalid | src/maestro.ts:15-19 | only "latest" is valid without a digit |
| Maestro.DashSeparatorMatches | src/maestro.ts:9 | the unescaped `.` accepts `-` as the second separator: "1.2-3" matches whole |
| Maestro.LetterSeparatorMatches | src/maestro.ts:9 | the unescaped `.` accepts a letter: "1.2x3" matches whole |
| Maestro.PrefixedVersionMatches | src/maestro.ts:9 | in "v1.2.3" the match runs from the first digit to the end |
| Maestro.ValidVersionExamples | src/maestro.ts:15-19 | "1.2-3", "1.2x3", "v1.2.3" and "latest" are valid |
| Maestro.InvalidVersionExamples | src/maestro.ts:15-19 | "abc", "" and "v." are invalid |
| Maestro.WholeMatchExample | src/maestro.ts:9 | greedy matching with backtracking takes "1.2345" as one match |
| Maestro.RequestedVersion | src/maestro.ts:71-74 | an empty input stands for "latest"; `EmptyTokenIsLatest` states what install then does |
| Maestro.DownloadUrl | src/maestro.ts:25-31 | `maestroDownloadUrl`; `DownloadUrlRoundTrip` and `DownloadUrlInjective` state that the version can be read back |
| Maestro.DownloadUrlRoundTrip | src/maestro.ts:25-31 | the version can be read back from its download URL, for "latest" and for every tag |
| Maestro.DownloadUrlInjective | src/maestro.ts:25-31 | no two versions share a download URL |
| Maestro.MaestroExec | src/maestro.ts:21-23 | `maestroExec`; `MaestroExecDir` states that its directory is the bin directory |
| Maestro.MaestroExecDir | src/maestro.ts:21-23 | the directory of `maestroExec(bin)` is `bin` |
| Maestro.InstalledVersion | src/maestro.ts:35-42 | the version part of `resolveMaestroVersion`; its meaning is stated by `InstalledVersionMeaning` |
| Maestro.InstalledVersionMeaning | src/maestro.ts:35-42 | the version is non-empty exactly when the exit code is 0 and stdout contains a version; it is then the text of the last span of the leftmost global search, a version after whose end no version starts |
| Maestro.NoDigitNoMatch | src/maestro.ts:9 | no match starts where there is no digit |
| Maestro.ShortVersionAt | src/maestro.ts:9 | a single-digit version "d.dxd" not followed by a digit is matched whole |
| Maestro.DottedAt | src/maestro.ts:9 | digits, a dot, digits, a dot and digits, not followed by a digit, are matched whole, whatever the length of each run |
| Maestro.VersionTextAt | src/maestro.ts:9 | a version written out as three runs of digits separated by dots, such as "1.39.13", and not followed by a digit, is matched whole |
| Maestro.VersionLinesMatches | src/maestro.ts:36 | in two lines that are each such a version, the engine finds a match at the start of each line and nowhere else it looks |
| Maestro.TwoLineScan | src/maestro.ts:36 | with those matches, `match` returns the two lines, in order |
| Maestro.VersionLines | src/maestro.ts:36-39 | for an output of two lines that are each such a version, `match` returns both lines and the installed version is the second |
| Maestro.UpdateNoticeExample | src/maestro.ts:36-39 | when maestro prints an available version and, on the next line, the installed one, each three runs of digits separated by dots, the installed one is reported |
| Maestro.UpdateNoticeInstance | src/maestro.ts:36-39 | for the output "1.40.0\n1.39.13" the installed version is "1.39.13" |
| Maestro.LeftmostExample | src/maestro.ts:36-39 | for the output "1.2.3.4" the installed version is "1.2.3", although "2.3.4" is a version too |
| Maestro.ResolveMaestroVersion | src/maestro.ts:33-43 | runs `<execPath> --version` once and returns the installed version of its output |
| Maestro.FindSpec | src/maestro.ts:45-68 | the search as a function of the world; `FindMaestroInstallation` is proved equal to it, and `FindOnlyProbes`, `LocalInstallShadowsWhich` and `NotFoundIff` state its properties |
| Maestro.FindMaestroInstallation | src/maestro.ts:45-68 | updates the result record step by step; the result and the actions taken are those of the search function (local home first, then `which maestro`) |
| Maestro.FindOnlyProbes | src/maestro.ts:50-67 | the search changes no file, and adds `~/.maestro/bin` to PATH exactly when the local executable exists |
| Maestro.LocalInstallShadowsWhich | src/maestro.ts:51-57 | the local executable exists exactly when the result is the local bin directory and `which` was not run |
| Maestro.NotFoundIff | src/maestro.ts:50-67 | nothing is found exactly when the local executable is missing and `which` fails; the result is then `{found: false, path: '', version: ''}` |
| Maestro.FindAsWritten | src/maestro.ts:33-68 | the search as the code is written, where a failing command rejects; `FindAsWrittenRejects` states when |
| Maestro.FindAsWrittenRejects | src/maestro.ts:33-68 | as written, the search rejects exactly when a command it runs exits non-zero, and otherwise agrees with the intended search; on a runner without maestro it rejects where the intended search reports nothing found |
| Maestro.Reuses | src/maestro.ts:82-85 | the condition under which install keeps an existing installation |
| Maestro.KeepOrRefetchSpec | src/maestro.ts:81-103 | the part of install after the search as a function of the world; `KeepOrRefetchActs` and `ReuseIff` state its properties |
| Maestro.InstallSpec | src/maestro.ts:70-104 | install as a function of the world; `EmptyTokenIsLatest`, `InvalidTokenActsNot`, `ReuseIff` and `RefetchPathAdditions` state its properties |
| Maestro.EmptyTokenIsLatest | src/maestro.ts:71-74 | an empty input installs exactly as "latest" does: same result, same actions |
| Maestro.InvalidTokenActsNot | src/maestro.ts:75-77 | install fails as invalid exactly when the defaulted token is invalid, and it then has done nothing at all |
| Maestro.KeepOrRefetchActs | src/maestro.ts:82-101 | after the search, install only probes exactly when it reuses; it downloads exactly when it does not; reusing returns `maestroExec(existing.path)` |
| Maestro.ReuseIff | src/maestro.ts:80-103 | for a valid token, install changes no file and downloads nothing exactly when `found && (version == "latest" or the installed version == version)`; it then returns the found executable |
| Maestro.KeepOrRefetch | src/maestro.ts:81-103 | the part of install after the search equals the keep-or-refetch function in result and actions |
| Maestro.Install | src/maestro.ts:70-104 | install, step by step, equals the install function of the world in result and actions |
| Maestro.RefetchPathAdditions | src/maestro.ts:88-103 | a successful refetch returns `~/.maestro/bin/maestro` and adds `~/.maestro/bin` to PATH (twice when a local installation of another version was found first) |
| Maestro.MaestroHomeApart | src/maestro.ts:11-13 | `~/.maestro` is absolute; it lies inside the unpack directory only by being it; the unpack directory lies inside it only if it lies inside home; so the two are apart whenever the unpack directory is not inside `~/.maestro` |
| Maestro.HostedRunnerLayout | src/maestro.ts:11-13 | a hosted runner's home `/home/runner` with its unpack directory `/home/runner/work/_temp` inside it meets what the refetch lemmas require |
| Maestro.RefetchInstallsExecutable | src/maestro.ts:88-97 | when the unpack directory is not inside `~/.maestro`, refetching an archive holding `maestro/bin/maestro` leaves the executable at `~/.maestro/bin/maestro` |
| Maestro.RefetchIsFoundNextTime | src/maestro.ts:51-57 | after such a refetch, the next search finds the local installation in `~/.maestro/bin` |
| Maestro.TestArguments | src/maestro.ts:112-119 | the arguments are `test`, a `-e` pair per environment variable in order, `--format=junit`, `--output=<report>` and the flow, `4 + 2n` in all |
| Fetch.ResetHomeSpec | src/maestro.ts:88-89 | the probe, the removal when the home directory exists, and its creation; `ResetHomeEmpties` states the result |
| Fetch.UnpackAndMoveSpec | src/maestro.ts:93-99 | unpacking, the move, the removal and the PATH addition; `UnpackAndMoveInstalls` and `UnpackAndMoveAddsBin` state the result |
| Fetch.CleanSlateSpec | src/maestro.ts:88-99 | the refetch as a function of the world; `CleanSlateResult`, `CleanSlateInstalls` and `CleanSlateAddsBin` state its properties |
| Fetch.ResetHomeEmpties | src/maestro.ts:88-89 | after the reset the home directory exists; if it existed, nothing remains inside it; nothing outside it changed |
| Fetch.CleanSlateResult | src/maestro.ts:91-96 | the refetch fails at the download exactly when nothing is published at the URL, and otherwise succeeds exactly when the archive holds the expected top directory |
| Fetch.UnpackMoveKeeps | src/maestro.ts:93-97 | unpacking an archive holding `dir/rel`, moving `dir` to the home directory and removing what is left of it leaves the file at `home/rel` |
| Fetch.UnpackAndMoveInstalls | src/maestro.ts:93-99 | after the download, the unpack-and-move steps succeed and leave every file `dir/rel` of the archive at `home/rel` |
| Fetch.CleanSlateInstalls | src/maestro.ts:93-97 | a successful refetch leaves every file `dir/rel` of the archive at `home/rel` |
| Fetch.CleanSlateInstallsExec | src/maestro.ts:93-99 | a successful refetch of an archive holding `dir/bin/exe` leaves the executable at `home/bin/exe` |
| Fetch.UnpackAndMoveAddsBin | src/maestro.ts:93-99 | the unpack-and-move steps add the bin directory to PATH once, exactly when the top directory was there to move |
| Fetch.CleanSlateAddsBin | src/maestro.ts:88-99 | the download comes right after the reset; the bin directory is added to PATH once, exactly when the refetch succeeds |
| Fetch.CleanSlateDownloads | src/idb.ts:54-57 | the refetch begins with the reset of the home directory and always downloads, so it never only probes |
| Fetch.MoveAsCalled | src/maestro.ts:96 | `fse.moveSync` without `{overwrite: true}`: refuses a missing source, then an existing destination |
| Fetch.CleanSlateAsWritten | src/maestro.ts:88-97 | the error of the refetch as the code is written, with that move |
| Fetch.CleanSlateAsWrittenFails | src/maestro.ts:89-96 | as written, every refetch fails: the move is refused because the reset has just created the home directory, even when the archive holds the expected directory and the intended refetch succeeds |
| Fetch.ResetHome | src/maestro.ts:88-89 | removes the home directory if it exists, then creates it |
| Fetch.UnpackAndMove | src/maestro.ts:93-99 | unpacks, moves the top directory to the home directory, removes it and adds the bin directory to PATH, or fails when the directory is missing |
| Fetch.CleanSlate | src/maestro.ts:88-99 | the refetch, step by step, equals the refetch function in result and actions |
| Host.Host.ExistsSync | src/maestro.ts:51 | reports whether the path exists now, and logs the probe |
| Host.Host.GetExecOutput | src/maestro.ts:34 | reports the exit code and output the world gives the command, and logs the run |
| Host.Host.DownloadTool | src/maestro.ts:91 | succeeds exactly when something is published at the URL |
| Host.Host.ExtractArchive | src/maestro.ts:93 | unpacks into the unpack directory and returns it |
| Host.Host.RemoveSync | src/maestro.ts:88 | logs the removal of the tree at the path |
| Host.Host.MkdirSync | src/maestro.ts:89 | logs the creation of the directory |
| Host.Host.MoveSync | src/maestro.ts:96 | succeeds exactly when the source exists; the tree at the source then replaces the destination (the intended move; see "Findings") |
| Host.Host.AddPath | src/maestro.ts:99 | logs the PATH addition |
| Host.Host.Effect | src/maestro.ts:88-99 | after appending actions, the file system is their replay on the old one and PATH gains their additions in order |
| Idb.IdbHome | src/idb.ts:11 | `IDB_HOME`, `path.join(HOME, '.idb')` |
| Idb.IdbBin | src/idb.ts:12 | `IDB_BIN`, `path.join(IDB_HOME, 'bin')` |
| Idb.DownloadUrl | src/idb.ts:14-15 | `idbDownloadUrl`, the latest universal release of idb_companion |
| Idb.IdbExec | src/idb.ts:17-19 | `idbExec`; `IdbExecDir` states that its directory is the bin directory |
| Idb.IdbExecDir | src/idb.ts:17-19 | the directory of `idbExec(bin)` is `bin` |
| Idb.FindSpec | src/idb.ts:21-45 | the search as a function of the world; `FindIdbInstallation` is proved equal to it, and `WhichWins`, `LocalFoundIff` and `FindPathAdditions` state its properties |
| Idb.FindIdbInstallation | src/idb.ts:21-45 | updates the result record step by step; the result and the actions taken are those of the search function (`which idb_companion` first, then the local home) |
| Idb.FindOnlyProbes | src/idb.ts:21-45 | the search changes no file |
| Idb.WhichWins | src/idb.ts:30-34 | the local executable is checked exactly when `which` fails; a successful `which` gives the directory it printed |
| Idb.LocalFoundIff | src/idb.ts:34-44 | when `which` fails, the local copy is found exactly when it exists and `--version` exits 0, and the path is then `~/.idb/bin`; otherwise the result is `{found: false, path: ''}` |
| Idb.FindAsWritten | src/idb.ts:21-45 | the search as the code is written, where a failing `--version` of the local copy rejects |
| Idb.FindAsWrittenRejects | src/idb.ts:34-36 | as written, the search rejects exactly when `which` fails, the local copy exists and its `--version` exits non-zero; otherwise it agrees with the intended search, which reports nothing found where the code rejects |
| Idb.FindPathAdditions | src/idb.ts:30-42 | the search adds `~/.idb/bin` to PATH once when it adopts the local copy, and nothing otherwise (in particular not after `which` succeeds) |
| Idb.KeepOrRefetchSpec | src/idb.ts:50-66 | the part of install after the search as a function of the world; `FoundIff` and `RefetchResult` state its properties |
| Idb.InstallSpec | src/idb.ts:47-69 | install as a function of the world |
| Idb.KeepOrRefetch | src/idb.ts:50-68 | the part of install after the search equals the keep-or-refetch function in result and actions |
| Idb.Install | src/idb.ts:47-69 | install, step by step, equals the install function of the world in result and actions |
| Idb.FoundIff | src/idb.ts:49-68 | install changes no file and downloads nothing exactly when the search found an installation, and then returns `idbExec(installation.path)` |
| Idb.RefetchResult | src/idb.ts:53-68 | when nothing was found and the refetch succeeds, install returns `~/.idb/bin/idb_companion` and adds `~/.idb/bin` to PATH once |
| Idb.IdbHomeApart | src/idb.ts:11-12 | `~/.idb` is absolute; it lies inside the unpack directory only by being it; the unpack directory lies inside it only if it lies inside home; so the two are apart whenever the unpack directory is not inside `~/.idb` |
| Idb.HostedRunnerLayout | src/idb.ts:11-12 | a hosted runner's home `/home/runner` with its unpack directory `/home/runner/work/_temp` inside it meets what the refetch lemmas require |
| Idb.RefetchInstallsExecutable | src/idb.ts:54-61 | when the unpack directory is not inside `~/.idb`, refetching an archive holding `idb-companion.universal/bin/idb_companion` leaves the executable at `~/.idb/bin/idb_companion` |
| Idb.RefetchIsFoundNextTime | src/idb.ts:34-41 | after such a refetch, the next search adopts `~/.idb/bin` when `which` still fails and the executable runs |

## Left out

- Subprocesses, downloads and archive extraction are foreign calls. Their outcomes come from the `Env` value: `run` gives a command's exit code and output, and `releases` gives the archives and their contents. Logging and output grouping (`core.info`, `core.startGroup`, `core.endGroup`) are not modelled.
- Maestro.FindMaestroInstallation, Maestro.ResolveMaestroVersion: `exec.getExecOutput` without `ignoreReturnCode` rejects on a non-zero exit code, so as written the exit-code tests at src/maestro.ts:35 and :60 never see one. The model follows those tests as the code evidently intends: a failing `which maestro` reads as "not found", and a failing `--version` reads as version "". The code as written is `Maestro.FindAsWritten`; see "Findings".
- Idb.FindIdbInstallation: the same holds for `exec.exec(idbExec(IDB_BIN), ['--version'])` at src/idb.ts:35. The model reads a non-zero exit as "not found". The code as written is `Idb.FindAsWritten`; see "Findings".
- Host.Host.MoveSync: fs-extra's `moveSync` without `{overwrite: true}` refuses an existing destination. Both installers create the home directory and then move onto it (src/maestro.ts:89 and :96, src/idb.ts:55 and :61), so as written every refetch fails at the move. The model's move replaces the tree at the destination, as the code evidently intends. The code as written is `Fetch.MoveAsCalled`; see "Findings".
- Regex.MatchAt, Maestro.IsValidVersion, Maestro.InstalledVersion: a Dafny string is a sequence of Unicode scalar values, while JavaScript (without the `u` flag) matches UTF-16 code units. The two differ only on characters outside the Basic Multilingual Plane. For example, "1.2\u{1F600}3" matches in the model, because the unescaped `.` takes the whole character. In JavaScript the `.` takes only the high surrogate, the low surrogate is not a digit, and `match` returns null.
- Host.Host.AddPath: `core.addPath` puts the directory in front of PATH. The model records additions in the order they are made (`AddedDirs`) and does not model lookup precedence.
- Host.Host.DownloadTool: a download fails only because nothing is published at the URL. Network errors and HTTP status codes are not modelled.
- Host.Host.ExtractArchive: every archive is unpacked into one fixed directory of the `Env`, not a fresh temporary directory. Whatever that directory held before is replaced.
- Host.Host.MkdirSync: `{recursive: true}` also creates missing parents. The model adds only the directory itself.
- Host.Host.GetExecOutput: what a command prints and exits with (`Env.run`) depends on the command and its arguments only, not on the file system. A refetch that replaces `~/.maestro/bin/maestro` does not change what its `--version` prints, and a removed executable still runs. This is why `Maestro.RefetchIsFoundNextTime` promises the found flag and the path, not the version.
- Host.Host.ExtractArchive, Host.Host.RemoveSync, Host.Host.MkdirSync: these never fail in the model. An unreadable archive or a permission error is not a `FetchError`. In the source such a failure rejects `install` after the old home directory has already been removed (src/maestro.ts:88-93, src/idb.ts:54-59).
- Maestro.RefetchInstallsExecutable, Maestro.RefetchIsFoundNextTime, Idb.RefetchInstallsExecutable, Idb.RefetchIsFoundNextTime: these require that the unpack directory does not lie inside the tool's own home (`~/.maestro` or `~/.idb`). The Fetch lemmas state the same requirement for their `toolHome`. Otherwise the unpacked directory would be moved onto a directory that contains it (src/maestro.ts:96, src/idb.ts:61), and the model promises nothing about that layout. A hosted runner's layout meets the requirement (`HostedRunnerLayout`).
- Paths.ParseDir and Paths.Join follow `path.parse` and `path.join` only for normal paths (no `.` or `..` segments, no doubled or trailing separators). `path.join`'s normalisation of other inputs is not modelled.
- The `version` input is taken as the string `core.getInput` returns. The trimming that `getInput` does itself is not modelled.
- `run` (src/maestro.ts:106-121) is modelled up to its argument list (`TestArguments`). The `exec.exec` call and its exit code are not modelled.
- A thrown exception is modelled as a `Failure` result, and a rejected download or move as a `FetchError`. "Invalid version requested" is `InvalidVersion`.
- src/main.ts, src/api.ts, src/fsutils.ts and src/constants.ts are not part of this model. They hold orchestration over CI inputs, an unused REST client, thin path wrappers and string enums.

## Findings

| source | as written | input that shows it | evidently intended | confidence | as-written member | corrected member |
|---|---|---|---|---|---|---|
| src/maestro.ts:89-96 | `fs.mkdirSync(MAESTRO_HOME)` and then `fse.moveSync(maestroDir, MAESTRO_HOME)` without `{overwrite: true}`; fs-extra refuses to move onto an existing destination (the same at src/idb.ts:55-61) | any refetch, for example a first install on a runner without `~/.maestro`, of an archive that holds `maestro/`: the move throws "dest already exists." | the unpacked directory takes the place of the empty home directory and the refetch succeeds | not executed | Fetch.CleanSlateAsWrittenFails | Fetch.CleanSlateResult |
| src/maestro.ts:59 | `exec.getExecOutput('which', ['maestro'])` without `ignoreReturnCode`, followed by a test of its exit code | a runner with no maestro at all: `which maestro` exits 1, the promise rejects and install throws instead of downloading maestro | a failing `which` means "not found" and install downloads maestro | not executed | Maestro.FindAsWrittenRejects | Maestro.NotFoundIff |
| src/maestro.ts:34 | `exec.getExecOutput(execPath, ['--version'])` without `ignoreReturnCode`, followed by a test of its exit code | a `~/.maestro/bin/maestro` whose `--version` exits 1: the search rejects and install throws | the version reads as "" and install refetches unless "latest" was requested | not executed | Maestro.FindAsWrittenRejects | Maestro.InstalledVersionMeaning |
| src/idb.ts:35 | `exec.exec(idbExec(IDB_BIN), ['--version'])` without `ignoreReturnCode`, followed by a test of its exit code | `which idb_companion` exits 1 and `~/.idb/bin/idb_companion` exists but exits 1 for `--version`: the search rejects and install throws | the local copy counts as not found and install refetches | not executed | Idb.FindAsWrittenRejects | Idb.LocalFoundIff |
