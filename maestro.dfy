/**
 * The maestro installer: validating the requested version, finding an
 * existing installation (first `~/.maestro/bin/maestro`, then `which
 * maestro`), deciding between reusing it and a clean-slate refetch, and
 * assembling the arguments of `maestro test`.
 */
module Maestro {
  import opened Wrappers
  import opened Paths
  import opened Regex
  import opened JsText
  import opened Host
  import opened Fetch

  /** `/[0-9]+\.[0-9]+.[0-9]+/g`: the second separator is an unescaped `.`, so any character but a line terminator. */
  const VersionPattern: Pattern :=
    [OneOrMore(Digit), Once(Exactly('.')), OneOrMore(Digit), Once(AnyButLineTerminator), OneOrMore(Digit)]

  function MaestroHome(home: Path): Path { Join(home, ".maestro") }

  function MaestroBin(home: Path): Path { Join(MaestroHome(home), "bin") }

  // ---------------------------------------------------------------------
  // Version tokens

  /** `validateMaestroVersion`: "latest", or a trimmed token with a match of the version pattern somewhere in it. */
  function IsValidVersion(version: string): bool {
    version == "latest" || MatchAll(VersionPattern, Trim(version)) != []
  }

  /** A token is valid exactly when it is "latest" or its trimmed form contains a word of the version pattern. */
  lemma IsValidVersionIff(version: string)
    ensures IsValidVersion(version) <==> version == "latest" || Occurs(VersionPattern, Trim(version))
  {
    MatchAllNonEmptyIff(VersionPattern, Trim(version));
  }

  /** A token whose trimmed form has a match of the version pattern at `i` is valid. */
  lemma ValidByMatchAt(version: string, i: nat, j: nat)
    requires i <= |Trim(version)| && MatchAt(VersionPattern, Trim(version), i) == Some(j)
    ensures IsValidVersion(version)
  {
    MatchAtSound(VersionPattern, Trim(version), i);
    IsValidVersionIff(version);
  }

  /** Every word of the version pattern starts with a digit. */
  lemma VersionWordStartsWithDigit(w: string)
    requires Denotes(VersionPattern, w)
    ensures |w| > 0 && '0' <= w[0] <= '9'
  {
    assert VersionPattern[0] == OneOrMore(Digit);
    var k :| 1 <= k <= |w| && AllIn(Digit, w[..k]) && Denotes(VersionPattern[1..], w[k..]);
    assert w[..k][0] == w[0];
  }

  /** Wherever the version pattern occurs, there is a digit. */
  lemma OccurrenceHasDigit(s: string)
    ensures Occurs(VersionPattern, s) ==> exists i :: 0 <= i < |s| && '0' <= s[i] <= '9'
  {
    if Occurs(VersionPattern, s) {
      var i, j :| 0 <= i <= j <= |s| && Denotes(VersionPattern, s[i..j]);
      VersionWordStartsWithDigit(s[i..j]);
      assert s[i..j][0] == s[i];
    }
  }

  /** Only "latest" is valid without a digit. */
  lemma NoDigitIsInvalid(version: string)
    requires version != "latest"
    requires forall i :: 0 <= i < |version| ==> !('0' <= version[i] <= '9')
    ensures !IsValidVersion(version)
  {
    IsValidVersionIff(version);
    var t := Trim(version);
    OccurrenceHasDigit(t);
    var a, b :| 0 <= a <= b <= |version| && t == version[a..b];
    assert forall i :: 0 <= i < |t| ==> t[i] == version[a + i];
  }

  /** The separator between the second and third numbers may be any character. */
  lemma DashSeparatorMatches()
    ensures MatchAt(VersionPattern, "1.2-3", 0) == Some(5)
  {
  }

  lemma LetterSeparatorMatches()
    ensures MatchAt(VersionPattern, "1.2x3", 0) == Some(5)
  {
  }

  /** A leading `v` is skipped over: the match starts at the first digit. */
  lemma PrefixedVersionMatches()
    ensures MatchAt(VersionPattern, "v1.2.3", 1) == Some(6)
  {
  }

  lemma ValidVersionExamples(version: string)
    requires version == "1.2-3" || version == "1.2x3" || version == "v1.2.3" || version == "latest"
    ensures IsValidVersion(version)
  {
    TrimKeeps(version);
    if version == "1.2-3" {
      DashSeparatorMatches();
      ValidByMatchAt(version, 0, 5);
    } else if version == "1.2x3" {
      LetterSeparatorMatches();
      ValidByMatchAt(version, 0, 5);
    } else if version == "v1.2.3" {
      PrefixedVersionMatches();
      ValidByMatchAt(version, 1, 6);
    }
  }

  lemma InvalidVersionExamples(version: string)
    requires version == "abc" || version == "" || version == "v."
    ensures !IsValidVersion(version)
  {
    NoDigitIsInvalid(version);
  }

  /** Greedy matching with backtracking takes "1.2345" as one match: "1", ".", "23", "4", "5". */
  lemma WholeMatchExample(s: string)
    requires s == "1.2345"
    ensures MatchAll(VersionPattern, s) == [s]
  {
    assert MatchAt(VersionPattern, "1.2345", 0) == Some(6);
    assert MatchAt(VersionPattern, "1.2345", 6) == None;
    assert Scan(VersionPattern, s, 6) == [];
    assert Scan(VersionPattern, s, 0) == [(0, 6)];
    var ms := MatchAll(VersionPattern, s);
    assert ms[0] == s[0..6] == s;
  }

  /** An empty `version` input stands for "latest". */
  function RequestedVersion(input: string): string {
    if input == [] then "latest" else input
  }

  // ---------------------------------------------------------------------
  // Download URL

  const LatestUrl: Url := "https://github.com/mobile-dev-inc/maestro/releases/latest/download/maestro.zip"
  const TagUrlPrefix: Url := "https://github.com/mobile-dev-inc/maestro/releases/download/cli-"
  const TagUrlSuffix: Url := "/maestro.zip"

  /** `maestroDownloadUrl`: the latest channel, or the release tagged `cli-<version>`. */
  function DownloadUrl(version: string): Url {
    if version == "latest" then LatestUrl else TagUrlPrefix + version + TagUrlSuffix
  }

  /** The version a download URL was built from, if it is one. */
  function VersionOfUrl(url: Url): Option<string> {
    if url == LatestUrl then Some("latest")
    else if |TagUrlPrefix| + |TagUrlSuffix| <= |url| && url[..|TagUrlPrefix|] == TagUrlPrefix
            && url[|url| - |TagUrlSuffix|..] == TagUrlSuffix
    then Some(url[|TagUrlPrefix|..|url| - |TagUrlSuffix|])
    else None
  }

  /** The version can be read back from its download URL, so no two versions share one. */
  lemma DownloadUrlRoundTrip(version: string)
    ensures VersionOfUrl(DownloadUrl(version)) == Some(version)
  {
    if version != "latest" {
      var url := DownloadUrl(version);
      assert url[|TagUrlPrefix|..|url| - |TagUrlSuffix|] == version;
      assert url[..|TagUrlPrefix|] == TagUrlPrefix;
      assert url[|url| - |TagUrlSuffix|..] == TagUrlSuffix;
      assert url[51] == TagUrlPrefix[51] != LatestUrl[51];
    }
  }

  lemma DownloadUrlInjective(v: string, w: string)
    requires DownloadUrl(v) == DownloadUrl(w)
    ensures v == w
  {
    DownloadUrlRoundTrip(v);
    DownloadUrlRoundTrip(w);
  }

  // ---------------------------------------------------------------------
  // Executable and installed version

  const ExecName: Path := "maestro"

  /** The directory the release archive wraps its contents in. */
  const ArchiveDir: Path := "maestro"

  /** `maestroExec`: the executable inside a bin directory. */
  function MaestroExec(bin: Path): Path { Join(bin, ExecName) }

  /** The executable's directory is the bin directory it was built from. */
  lemma MaestroExecDir(bin: Path)
    requires IsNormalDir(bin)
    ensures ParseDir(MaestroExec(bin)) == bin
  {
    ParseDirOfJoin(bin, ExecName);
  }

  /**
   * The version part of `resolveMaestroVersion`: the last match in the output
   * of `--version` (maestro prints an available update before the installed
   * version), or "" when the command failed or printed no version.
   */
  function InstalledVersion(out: ExecOutput): string {
    if out.exitCode != 0 then ""
    else
      var ms := MatchAll(VersionPattern, out.stdout);
      if ms == [] then "" else ms[|ms| - 1]
  }

  /**
   * The installed version is non-empty exactly when `--version` succeeded and
   * printed a version; it is then the text of the last span of the leftmost
   * global search (see `ScanSpans`, `ScanLeftmost`, `MatchAtGreedy`), a
   * version after which no other version starts.
   */
  lemma InstalledVersionMeaning(out: ExecOutput)
    ensures var v := InstalledVersion(out);
            v != "" <==> out.exitCode == 0 && Occurs(VersionPattern, out.stdout)
    ensures var v := InstalledVersion(out);
            var spans := Scan(VersionPattern, out.stdout, 0);
            v != "" ==>
              && spans != []
              && var last := spans[|spans| - 1];
                 && 0 <= last.0 < last.1 <= |out.stdout| && v == out.stdout[last.0..last.1]
                 && Denotes(VersionPattern, v) && !OccursFrom(VersionPattern, out.stdout, last.1)
  {
    LastEntryMeaning(VersionPattern, out.stdout);
  }

  /** No match starts at a position that does not hold a digit. */
  lemma NoDigitNoMatch(s: string, i: nat)
    requires i <= |s| && (i == |s| || !InClass(Digit, s[i]))
    ensures MatchAt(VersionPattern, s, i) == None
  {
    assert RunLength(Digit, s, i) == 0;
  }

  /** A version written with single digits, "d.dxd" and not followed by a digit, is matched whole. */
  lemma ShortVersionAt(s: string, i: nat)
    requires i + 5 <= |s| && InClass(Digit, s[i]) && s[i + 1] == '.' && InClass(Digit, s[i + 2])
    requires !InClass(Digit, s[i + 3]) && !IsLineTerminator(s[i + 3]) && InClass(Digit, s[i + 4])
    requires i + 5 == |s| || !InClass(Digit, s[i + 5])
    ensures MatchAt(VersionPattern, s, i) == Some(i + 5)
  {
    var p := VersionPattern;
    assert RunLength(Digit, s, i + 4) == 1;
    assert MatchAt(p[4..], s, i + 4) == Backtrack(p[5..], s, i + 4, 1) == Some(i + 5);
    assert MatchAt(p[3..], s, i + 3) == Some(i + 5);
    assert RunLength(Digit, s, i + 2) == 1;
    assert MatchAt(p[2..], s, i + 2) == Backtrack(p[3..], s, i + 2, 1) == Some(i + 5);
    assert MatchAt(p[1..], s, i + 1) == Some(i + 5);
    assert RunLength(Digit, s, i) == 1;
    assert MatchAt(p, s, i) == Backtrack(p[1..], s, i, 1);
  }

  /** A version as maestro prints it: three runs of digits separated by dots, such as "1.39.13". */
  ghost predicate IsVersionText(v: string) {
    exists i, j :: 0 < i && i + 1 < j && j + 1 < |v| && v[i] == '.' && v[j] == '.'
                   && forall k :: 0 <= k < |v| && k != i && k != j ==> InClass(Digit, v[k])
  }

  /**
   * Digits from `at`, a dot at `d1`, digits, a dot at `d2` and digits up to
   * `e`, not followed by a digit: the engine matches all of it, each `+`
   * keeping its whole run.
   */
  lemma DottedAt(p: Pattern, s: string, at: nat, d1: nat, d2: nat, e: nat)
    requires |p| == 5 && p[0] == OneOrMore(Digit) && p[1] == Once(Exactly('.')) && p[2] == OneOrMore(Digit)
    requires p[3] == Once(AnyButLineTerminator) && p[4] == OneOrMore(Digit)
    requires at < d1 && d1 + 1 < d2 && d2 + 1 < e <= |s| && s[d1] == '.' && s[d2] == '.'
    requires forall k :: at <= k < e && k != d1 && k != d2 ==> InClass(Digit, s[k])
    requires e == |s| || !InClass(Digit, s[e])
    ensures MatchAt(p, s, at) == Some(e)
  {
    assert p[4..][1..] == [] && p[3..][1..] == p[4..] && p[2..][1..] == p[3..] && p[1..][1..] == p[2..];
    PlusStep(p[4..], Digit, s, d2 + 1, e - d2 - 1);
    OnceStep(p[3..], AnyButLineTerminator, s, d2);
    PlusStep(p[2..], Digit, s, d1 + 1, d2 - d1 - 1);
    OnceStep(p[1..], Exactly('.'), s, d1);
    PlusStep(p, Digit, s, at, d1 - at);
  }

  /** A version written out in `s[at..e]` and not followed by a digit is matched whole. */
  lemma VersionTextAt(s: string, at: nat, e: nat)
    requires at <= e <= |s| && IsVersionText(s[at..e])
    requires e == |s| || !InClass(Digit, s[e])
    ensures MatchAt(VersionPattern, s, at) == Some(e)
  {
    var v := s[at..e];
    var i, j :| 0 < i && i + 1 < j && j + 1 < |v| && v[i] == '.' && v[j] == '.'
                && forall k :: 0 <= k < |v| && k != i && k != j ==> InClass(Digit, v[k]);
    forall k | at <= k < e
      ensures s[k] == v[k - at]
    {
    }
    DottedAt(VersionPattern, s, at, at + i, at + j, e);
  }

  /** Where the engine finds a match in two lines that are each a version: at the start of each. */
  lemma VersionLinesMatches(s: string, n: nat)
    requires n < |s| && s[n] == '\n' && IsVersionText(s[..n]) && IsVersionText(s[n + 1..])
    ensures MatchAt(VersionPattern, s, 0) == Some(n) && MatchAt(VersionPattern, s, n) == None
    ensures MatchAt(VersionPattern, s, n + 1) == Some(|s|) && MatchAt(VersionPattern, s, |s|) == None
  {
    assert s[0..n] == s[..n] && s[n + 1..|s|] == s[n + 1..];
    VersionTextAt(s, 0, n);
    NoDigitNoMatch(s, n);
    VersionTextAt(s, n + 1, |s|);
    NoDigitNoMatch(s, |s|);
  }

  /** Two lines, each matched whole: the search reports both, in order. */
  lemma TwoLineScan(s: string, n: nat)
    requires n < |s|
    requires MatchAt(VersionPattern, s, 0) == Some(n) && MatchAt(VersionPattern, s, n) == None
    requires MatchAt(VersionPattern, s, n + 1) == Some(|s|) && MatchAt(VersionPattern, s, |s|) == None
    ensures MatchAll(VersionPattern, s) == [s[..n], s[n + 1..]]
  {
    var p := VersionPattern;
    ScanStep(p, s, |s|);
    ScanStep(p, s, n + 1);
    ScanStep(p, s, n);
    ScanStep(p, s, 0);
    assert Scan(p, s, 0) == [(0, n), (n + 1, |s|)];
    MatchAllEntry(p, s, 0);
    MatchAllEntry(p, s, 1);
    assert s[0..n] == s[..n] && s[n + 1..|s|] == s[n + 1..];
  }

  /**
   * An output of two lines, each a version: the search reports both, and
   * the installed version is the second.
   */
  lemma VersionLines(s: string, n: nat)
    requires n < |s| && s[n] == '\n' && IsVersionText(s[..n]) && IsVersionText(s[n + 1..])
    ensures MatchAll(VersionPattern, s) == [s[..n], s[n + 1..]]
    ensures InstalledVersion(ExecOutput(0, s)) == s[n + 1..]
  {
    VersionLinesMatches(s, n);
    TwoLineScan(s, n);
  }

  /**
   * When maestro announces an update, it prints the available version on one
   * line and the installed one on the next; the installed one is reported.
   */
  lemma UpdateNoticeExample(available: string, installed: string)
    requires IsVersionText(available) && IsVersionText(installed)
    ensures InstalledVersion(ExecOutput(0, available + "\n" + installed)) == installed
  {
    var s := available + "\n" + installed;
    var n := |available|;
    assert s[..n] == available && s[n] == '\n' && s[n + 1..] == installed;
    VersionLines(s, n);
  }

  /** Three runs of digits around the dots at `i` and `j` make a version. */
  lemma VersionTextOf(v: string, i: nat, j: nat)
    requires 0 < i && i + 1 < j && j + 1 < |v| && v[i] == '.' && v[j] == '.'
    requires forall k :: 0 <= k < |v| && k != i && k != j ==> InClass(Digit, v[k])
    ensures IsVersionText(v)
  {
  }

  /** "1.40.0" and "1.39.13" are such versions. */
  lemma UpdateNoticeInstance(out: ExecOutput)
    requires out == ExecOutput(0, "1.40.0\n1.39.13")
    ensures InstalledVersion(out) == "1.39.13"
  {
    var s := out.stdout;
    assert s[6] == '\n';
    assert IsVersionText(s[..6]) by {
      VersionTextOf(s[..6], 1, 4);
    }
    assert IsVersionText(s[7..]) by {
      VersionTextOf(s[7..], 1, 4);
    }
    VersionLines(s, 6);
  }

  /** Where the engine finds a match in "1.2.3.4", and that "2.3.4" is a version too. */
  lemma LeftmostMatches(s: string)
    requires s == "1.2.3.4"
    ensures |s| == 7
    ensures MatchAt(VersionPattern, s, 0) == Some(5)
    ensures MatchAt(VersionPattern, s, 5) == None && MatchAt(VersionPattern, s, 6) == None
    ensures MatchAt(VersionPattern, s, 7) == None
    ensures Denotes(VersionPattern, s[2..7])
  {
    var p := VersionPattern;
    ShortVersionAt(s, 0);
    NoDigitNoMatch(s, 5);
    assert RunLength(Digit, s, 6) == 1;
    assert MatchAt(p, s, 6) == Backtrack(p[1..], s, 6, 1) == None;
    NoDigitNoMatch(s, 7);
    ShortVersionAt(s, 2);
    MatchAtSound(p, s, 2);
  }

  /** A seven-character output whose only match is found at the start. */
  lemma FirstOfSevenScan(s: string)
    requires |s| == 7 && MatchAt(VersionPattern, s, 0) == Some(5)
    requires MatchAt(VersionPattern, s, 5) == None && MatchAt(VersionPattern, s, 6) == None
    requires MatchAt(VersionPattern, s, 7) == None
    ensures MatchAll(VersionPattern, s) == [s[0..5]]
  {
    ScanStep(VersionPattern, s, 7);
    ScanStep(VersionPattern, s, 6);
    ScanStep(VersionPattern, s, 5);
    ScanStep(VersionPattern, s, 0);
    assert Scan(VersionPattern, s, 0) == [(0, 5)];
  }

  /**
   * The search is leftmost: in "1.2.3.4" it takes "1.2.3" and finds nothing
   * after it, although "2.3.4" is also a version in the output.
   */
  lemma LeftmostExample(out: ExecOutput)
    requires out == ExecOutput(0, "1.2.3.4")
    ensures InstalledVersion(out) == "1.2.3"
  {
    var s := out.stdout;
    LeftmostMatches(s);
    FirstOfSevenScan(s);
  }

  // ---------------------------------------------------------------------
  // Finding an installation

  /** The record `findMaestroInstallation` fills in. */
  datatype Installation = Installation(found: bool, path: Path, version: string)

  const NotFound := Installation(false, "", "")

  const WhichArgs: seq<string> := ["maestro"]
  const VersionFlag: seq<string> := ["--version"]

  /** The search as a function of the world: local home first, then `which`. */
  function FindSpec(env: Env, entries: set<Path>): Outcome<Installation> {
    var bin := MaestroBin(env.home);
    var exe := MaestroExec(bin);
    if exe in entries then
      Outcome(Installation(true, bin, InstalledVersion(env.run(exe, VersionFlag))),
              [CheckExists(exe), Exec(exe, VersionFlag), AddPath(bin)])
    else
      var which := env.run("which", WhichArgs);
      if which.exitCode == 0 then
        Outcome(Installation(true, ParseDir(which.stdout), InstalledVersion(env.run(which.stdout, VersionFlag))),
                [CheckExists(exe), Exec("which", WhichArgs), Exec(which.stdout, VersionFlag)])
      else Outcome(NotFound, [CheckExists(exe), Exec("which", WhichArgs)])
  }

  /** `resolveMaestroVersion`: runs the executable with `--version`. */
  method ResolveMaestroVersion(host: Host, execPath: Path) returns (version: string)
    modifies host
    ensures host.log == old(host.log) + [Exec(execPath, VersionFlag)]
    ensures version == InstalledVersion(host.env.run(execPath, VersionFlag))
  {
    var output := host.GetExecOutput(execPath, VersionFlag);
    version := InstalledVersion(output);
  }

  /** `findMaestroInstallation`, filling in the result record step by step. */
  method FindMaestroInstallation(host: Host) returns (result: Installation)
    modifies host
    ensures var o := FindSpec(host.env, old(host.Entries()));
            result == o.value && host.log == old(host.log) + o.actions
  {
    result := NotFound;
    var bin := MaestroBin(host.env.home);
    var exe := MaestroExec(bin);
    var local := host.ExistsSync(exe);
    if local {
      result := result.(found := true);
      result := result.(path := bin);
      var version := ResolveMaestroVersion(host, exe);
      result := result.(version := version);
      host.AddPath(bin);
    } else {
      var which := host.GetExecOutput("which", WhichArgs);
      if which.exitCode == 0 {
        result := result.(found := true);
        result := result.(path := ParseDir(which.stdout));
        var version := ResolveMaestroVersion(host, which.stdout);
        result := result.(version := version);
      }
    }
  }

  /**
   * The search only probes: it changes no file, and it adds the local bin
   * directory to PATH exactly when it finds the local installation.
   */
  lemma FindOnlyProbes(env: Env, entries: set<Path>)
    ensures var o := FindSpec(env, entries);
            OnlyProbes(o.actions) && Replay(env, entries, o.actions) == entries
            && AddedDirs(o.actions) == (if MaestroExec(MaestroBin(env.home)) in entries then [MaestroBin(env.home)] else [])
  {
    var o := FindSpec(env, entries);
    var bin := MaestroBin(env.home);
    var exe := MaestroExec(bin);
    ProbesKeepEntries(env, entries, o.actions);
    if exe in entries {
      var probes := [CheckExists(exe), Exec(exe, VersionFlag)];
      assert o.actions == probes + [AddPath(bin)];
      NoAddPathNoDirs(probes);
      AddedDirsAppend(probes, [AddPath(bin)]);
    } else {
      NoAddPathNoDirs(o.actions);
    }
  }

  /**
   * The local installation shadows any other: when it exists, `which` is not
   * consulted and the result is the local bin directory.
   */
  lemma LocalInstallShadowsWhich(env: Env, entries: set<Path>)
    ensures var o := FindSpec(env, entries);
            MaestroExec(MaestroBin(env.home)) in entries <==>
              (o.value.found && o.value.path == MaestroBin(env.home) && Exec("which", WhichArgs) !in o.actions)
  {
    var o := FindSpec(env, entries);
    if MaestroExec(MaestroBin(env.home)) !in entries {
      assert o.actions[1] == Exec("which", WhichArgs);
    }
  }

  /** Nothing is found exactly when neither the local executable exists nor `which` succeeds. */
  lemma NotFoundIff(env: Env, entries: set<Path>)
    ensures var o := FindSpec(env, entries);
            !o.value.found <==> MaestroExec(MaestroBin(env.home)) !in entries && env.run("which", WhichArgs).exitCode != 0
    ensures var o := FindSpec(env, entries);
            !o.value.found ==> o.value == NotFound
  {
  }

  // ---------------------------------------------------------------------
  // The search as the code is written

  /**
   * The search as the code is written: `exec.getExecOutput` without
   * `ignoreReturnCode` rejects when the command exits non-zero, so a failing
   * `--version` or `which maestro` rejects the search, and `install` with it,
   * before the exit-code tests that follow the calls. `None` is the rejection.
   */
  function FindAsWritten(env: Env, entries: set<Path>): Option<Installation> {
    var bin := MaestroBin(env.home);
    var exe := MaestroExec(bin);
    if exe in entries then
      var out := env.run(exe, VersionFlag);
      if out.exitCode != 0 then None else Some(Installation(true, bin, InstalledVersion(out)))
    else
      var which := env.run("which", WhichArgs);
      if which.exitCode != 0 then None
      else
        var out := env.run(which.stdout, VersionFlag);
        if out.exitCode != 0 then None else Some(Installation(true, ParseDir(which.stdout), InstalledVersion(out)))
  }

  /**
   * As written, the search rejects exactly when a command it runs exits
   * non-zero, and otherwise finds what the intended search (`FindSpec`)
   * finds. So on a runner without maestro, where the intended search reports
   * nothing found and install goes on to the refetch, it rejects.
   */
  lemma FindAsWrittenRejects(env: Env, entries: set<Path>)
    ensures var o := FindSpec(env, entries);
            && (FindAsWritten(env, entries) == None <==> SomeRunFails(env, o.actions))
            && (FindAsWritten(env, entries) != None ==> FindAsWritten(env, entries) == Some(o.value))
    ensures MaestroExec(MaestroBin(env.home)) !in entries && env.run("which", WhichArgs).exitCode != 0 ==>
              FindAsWritten(env, entries) == None && FindSpec(env, entries).value == NotFound
  {
    var o := FindSpec(env, entries);
    var bin := MaestroBin(env.home);
    var exe := MaestroExec(bin);
    var which := env.run("which", WhichArgs);
    if exe in entries {
      assert o.actions[1] == Exec(exe, VersionFlag);
      assert forall k :: 0 <= k < |o.actions| && k != 1 ==> !o.actions[k].Exec?;
    } else if which.exitCode != 0 {
      assert o.actions[1] == Exec("which", WhichArgs);
    } else {
      assert o.actions[2] == Exec(which.stdout, VersionFlag);
      assert o.actions[1] == Exec("which", WhichArgs);
      assert forall k :: 0 <= k < |o.actions| && k != 1 && k != 2 ==> !o.actions[k].Exec?;
    }
  }

  // ---------------------------------------------------------------------
  // Installing

  datatype InstallError =
    | InvalidVersion               // 'Invalid version requested'
    | FetchFailed(cause: FetchError)

  /** Whether `install` keeps an existing installation for the requested version. */
  predicate Reuses(existing: Installation, version: string) {
    existing.found && (version == "latest" || existing.version == version)
  }

  /**
   * What `install` does once the search has reported `existing`: keep it, or
   * refetch the requested version into `~/.maestro`.
   */
  function KeepOrRefetchSpec(env: Env, entries: set<Path>, version: string, existing: Installation)
    : Outcome<Result<Path, InstallError>>
  {
    if Reuses(existing, version) then Outcome(Success(MaestroExec(existing.path)), [])
    else
      var fetch := CleanSlateSpec(env, entries, MaestroHome(env.home), DownloadUrl(version), ArchiveDir, MaestroBin(env.home));
      match fetch.value
      case Some(e) => Outcome(Failure(FetchFailed(e)), fetch.actions)
      case None => Outcome(Success(MaestroExec(MaestroBin(env.home))), fetch.actions)
  }

  /** `install` as a function of the world and the `version` input: the executable path or the error, and the actions. */
  function InstallSpec(env: Env, entries: set<Path>, input: string): Outcome<Result<Path, InstallError>> {
    var version := RequestedVersion(input);
    if !IsValidVersion(version) then Outcome(Failure(InvalidVersion), [])
    else
      var find := FindSpec(env, entries);
      var rest := KeepOrRefetchSpec(env, entries, version, find.value);
      Outcome(rest.value, find.actions + rest.actions)
  }

  /** The part of `install` after the search: keep the installation or refetch. */
  method KeepOrRefetch(host: Host, version: string, existing: Installation) returns (r: Result<Path, InstallError>)
    modifies host
    ensures var o := KeepOrRefetchSpec(host.env, old(host.Entries()), version, existing);
            r == o.value && host.log == old(host.log) + o.actions
  {
    var maestroPath := MaestroBin(host.env.home);
    if existing.found && (version == "latest" || existing.version == version) {
      maestroPath := existing.path;
    } else {
      var err := CleanSlate(host, MaestroHome(host.env.home), DownloadUrl(version), ArchiveDir, maestroPath);
      if err.Some? {
        return Failure(FetchFailed(err.value));
      }
    }
    r := Success(MaestroExec(maestroPath));
  }

  /** `install`, step by step. */
  method Install(host: Host, input: string) returns (r: Result<Path, InstallError>)
    modifies host
    ensures var o := InstallSpec(host.env, old(host.Entries()), input);
            r == o.value && host.log == old(host.log) + o.actions
  {
    var version := input;
    if |version| == 0 {
      version := "latest";
    }
    if !IsValidVersion(version) {
      return Failure(InvalidVersion);
    }
    ghost var entries0 := host.Entries();
    var existing := FindMaestroInstallation(host);
    ghost var find := FindSpec(host.env, entries0);
    FindOnlyProbes(host.env, entries0);
    host.Effect(find.actions);
    r := KeepOrRefetch(host, version, existing);
    ghost var rest := KeepOrRefetchSpec(host.env, entries0, version, find.value);
    AppendTwice(old(host.log), find.actions, rest.actions);
  }

  // ---------------------------------------------------------------------
  // Properties of install

  /** An empty `version` input behaves exactly like "latest". */
  lemma EmptyTokenIsLatest(env: Env, entries: set<Path>)
    ensures InstallSpec(env, entries, "") == InstallSpec(env, entries, "latest")
  {
  }

  /** An invalid token fails before anything is probed or changed; a valid one never fails as invalid. */
  lemma InvalidTokenActsNot(env: Env, entries: set<Path>, input: string)
    ensures var o := InstallSpec(env, entries, input);
            o.value == Failure(InvalidVersion) <==> !IsValidVersion(RequestedVersion(input))
    ensures var o := InstallSpec(env, entries, input);
            o.value == Failure(InvalidVersion) ==> o.actions == []
  {
  }

  /**
   * After the search, install probes only, downloads nothing and returns the
   * found executable exactly when it reuses the installation; otherwise it
   * downloads.
   */
  lemma KeepOrRefetchActs(env: Env, entries: set<Path>, version: string, existing: Installation)
    ensures var rest := KeepOrRefetchSpec(env, entries, version, existing);
            && (OnlyProbes(rest.actions) <==> Reuses(existing, version))
            && (Downloads(rest.actions) <==> !Reuses(existing, version))
            && (Reuses(existing, version) ==> rest == Outcome(Success(MaestroExec(existing.path)), []))
  {
    if !Reuses(existing, version) {
      CleanSlateDownloads(env, entries, MaestroHome(env.home), DownloadUrl(version), ArchiveDir, MaestroBin(env.home));
    }
  }

  /**
   * For a valid token, install changes no file and downloads nothing exactly
   * when it reuses the installation it found, and then it returns that
   * installation's executable.
   */
  lemma ReuseIff(env: Env, entries: set<Path>, input: string)
    requires IsValidVersion(RequestedVersion(input))
    ensures var o := InstallSpec(env, entries, input);
            var find := FindSpec(env, entries);
            && (OnlyProbes(o.actions) <==> Reuses(find.value, RequestedVersion(input)))
            && (Downloads(o.actions) <==> !Reuses(find.value, RequestedVersion(input)))
            && (Reuses(find.value, RequestedVersion(input)) ==> o.value == Success(MaestroExec(find.value.path)))
  {
    var find := FindSpec(env, entries);
    var rest := KeepOrRefetchSpec(env, entries, RequestedVersion(input), find.value);
    FindOnlyProbes(env, entries);
    KeepOrRefetchActs(env, entries, RequestedVersion(input), find.value);
    ProbesAppend(find.actions, rest.actions);
    assert !Downloads(find.actions);
  }

  /**
   * A refetch that succeeds returns the executable in `~/.maestro/bin` and
   * leaves that directory on PATH; after a local installation of another
   * version was found, it is added to PATH a second time.
   */
  lemma RefetchPathAdditions(env: Env, entries: set<Path>, input: string)
    requires IsValidVersion(RequestedVersion(input))
    requires !Reuses(FindSpec(env, entries).value, RequestedVersion(input))
    requires InstallSpec(env, entries, input).value.Success?
    ensures var bin := MaestroBin(env.home);
            var o := InstallSpec(env, entries, input);
            o.value == Success(MaestroExec(bin))
            && AddedDirs(o.actions) == (if MaestroExec(bin) in entries then [bin, bin] else [bin])
  {
    var bin := MaestroBin(env.home);
    var version := RequestedVersion(input);
    var find := FindSpec(env, entries);
    var fetch := CleanSlateSpec(env, entries, MaestroHome(env.home), DownloadUrl(version), ArchiveDir, bin);
    var o := InstallSpec(env, entries, input);
    assert fetch.value == None && o.value == Success(MaestroExec(bin)) && o.actions == find.actions + fetch.actions by {
      assert KeepOrRefetchSpec(env, entries, version, find.value).actions == fetch.actions;
    }
    assert AddedDirs(find.actions) == (if MaestroExec(bin) in entries then [bin] else []) by {
      FindOnlyProbes(env, entries);
    }
    assert AddedDirs(fetch.actions) == [bin] by {
      CleanSlateAddsBin(env, entries, MaestroHome(env.home), DownloadUrl(version), ArchiveDir, bin);
    }
    AddedDirsAppend(find.actions, fetch.actions);
  }

  /**
   * `~/.maestro` is an absolute directory. It lies inside the unpack directory
   * only by being that directory, and the unpack directory lies inside it
   * only if it lies inside home; so when the unpack directory is not inside
   * `~/.maestro` (hosted runners unpack into `~/work/_temp`), the two are apart.
   */
  lemma MaestroHomeApart(env: Env)
    requires env.Valid()
    ensures IsAbsoluteDir(MaestroHome(env.home))
    ensures Under(MaestroHome(env.home), env.tempDir) ==> env.tempDir == MaestroHome(env.home)
    ensures !Under(env.tempDir, env.home) ==> !Under(env.tempDir, MaestroHome(env.home))
    ensures !Under(env.tempDir, MaestroHome(env.home)) ==> !Under(MaestroHome(env.home), env.tempDir)
  {
    JoinUnder(env.home, ".maestro", env.tempDir);
  }

  /**
   * The layout of a hosted runner, where the unpack directory lies inside
   * home, meets what the refetch lemmas below require.
   */
  lemma HostedRunnerLayout(env: Env)
    requires env.home == "/home/runner" && env.tempDir == "/home/runner/work/_temp"
    ensures env.Valid() && Under(env.tempDir, env.home)
    ensures !Under(env.tempDir, MaestroHome(env.home))
  {
    assert env.tempDir[..|env.home|] == env.home;
    assert env.tempDir[|MaestroHome(env.home)| - 1] != MaestroHome(env.home)[|MaestroHome(env.home)| - 1];
  }

  /** A refetch of an archive holding `maestro/bin/maestro` leaves the executable in `~/.maestro/bin`. */
  lemma RefetchInstallsExecutable(env: Env, entries: set<Path>, version: string)
    requires env.Valid() && !Under(env.tempDir, MaestroHome(env.home))
    requires var url := DownloadUrl(version);
             url in env.releases && ArchiveDir in env.releases[url] && ArchiveDir + "/bin/" + ExecName in env.releases[url]
    ensures var fetch := CleanSlateSpec(env, entries, MaestroHome(env.home), DownloadUrl(version), ArchiveDir, MaestroBin(env.home));
            fetch.value == None && MaestroExec(MaestroBin(env.home)) in Replay(env, entries, fetch.actions)
  {
    MaestroHomeApart(env);
    CleanSlateInstallsExec(env, entries, MaestroHome(env.home), DownloadUrl(version), ArchiveDir, ExecName);
  }

  /**
   * After a successful refetch of an archive holding `maestro/bin/maestro`,
   * the next search finds the local installation.
   */
  lemma RefetchIsFoundNextTime(env: Env, entries: set<Path>, input: string)
    requires env.Valid() && !Under(env.tempDir, MaestroHome(env.home)) && IsValidVersion(RequestedVersion(input))
    requires !Reuses(FindSpec(env, entries).value, RequestedVersion(input))
    requires var url := DownloadUrl(RequestedVersion(input));
             url in env.releases && ArchiveDir in env.releases[url] && ArchiveDir + "/bin/" + ExecName in env.releases[url]
    ensures var o := InstallSpec(env, entries, input);
            var after := Replay(env, entries, o.actions);
            o.value.Success? && FindSpec(env, after).value.found && FindSpec(env, after).value.path == MaestroBin(env.home)
  {
    var version := RequestedVersion(input);
    var find := FindSpec(env, entries);
    var fetch := CleanSlateSpec(env, entries, MaestroHome(env.home), DownloadUrl(version), ArchiveDir, MaestroBin(env.home));
    RefetchInstallsExecutable(env, entries, version);
    assert KeepOrRefetchSpec(env, entries, version, find.value).actions == fetch.actions;
    FindOnlyProbes(env, entries);
    ReplayAppend(env, entries, find.actions, fetch.actions);
  }

  // ---------------------------------------------------------------------
  // Running the tests

  /**
   * The argument list `run` hands to maestro: `test`, a `-e` pair per
   * environment variable in order, the JUnit format, the report path and
   * the flow.
   */
  method TestArguments(envVariables: seq<string>, flow: string, report: string) returns (params: seq<string>)
    ensures |params| == 4 + 2 * |envVariables|
    ensures params[0] == "test"
    ensures forall k :: 0 <= k < |envVariables| ==> params[1 + 2 * k] == "-e" && params[2 + 2 * k] == envVariables[k]
    ensures params[|params| - 3] == "--format=junit"
    ensures params[|params| - 2] == "--output=" + report
    ensures params[|params| - 1] == flow
  {
    params := [];
    params := params + ["test"];
    for i := 0 to |envVariables|
      invariant |params| == 1 + 2 * i
      invariant params[0] == "test"
      invariant forall k :: 0 <= k < i ==> params[1 + 2 * k] == "-e" && params[2 + 2 * k] == envVariables[k]
    {
      params := params + ["-e", envVariables[i]];
    }
    params := params + ["--format=junit"];
    params := params + ["--output=" + report];
    params := params + [flow];
  }
}
