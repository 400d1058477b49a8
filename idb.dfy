/**
 * The idb_companion installer: finding an existing installation (first
 * `which idb_companion`, then `~/.idb/bin/idb_companion`, which counts only
 * if it runs), and otherwise a clean-slate refetch of the latest release.
 */
module Idb {
  import opened Wrappers
  import opened Paths
  import opened Host
  import opened Fetch

  const DownloadUrl: Url := "https://github.com/facebook/idb/releases/latest/download/idb-companion.universal.tar.gz"

  /** The directory the release archive wraps its contents in. */
  const ArchiveDir: Path := "idb-companion.universal"

  function IdbHome(home: Path): Path { Join(home, ".idb") }

  function IdbBin(home: Path): Path { Join(IdbHome(home), "bin") }

  const ExecName: Path := "idb_companion"

  /** `idbExec`: the executable inside a bin directory. */
  function IdbExec(bin: Path): Path { Join(bin, ExecName) }

  /** The executable's directory is the bin directory it was built from. */
  lemma IdbExecDir(bin: Path)
    requires IsNormalDir(bin)
    ensures ParseDir(IdbExec(bin)) == bin
  {
    ParseDirOfJoin(bin, ExecName);
  }

  // ---------------------------------------------------------------------
  // Finding an installation

  /** The record `findIdbInstallation` fills in. */
  datatype Installation = Installation(found: bool, path: Path)

  const NotFound := Installation(false, "")

  const WhichArgs: seq<string> := ["idb_companion"]
  const VersionFlag: seq<string> := ["--version"]

  /** The search as a function of the world: `which` first, then the local home, which must run. */
  function FindSpec(env: Env, entries: set<Path>): Outcome<Installation> {
    var which := env.run("which", WhichArgs);
    if which.exitCode == 0 then
      Outcome(Installation(true, ParseDir(which.stdout)), [Exec("which", WhichArgs)])
    else
      var bin := IdbBin(env.home);
      var exe := IdbExec(bin);
      if exe !in entries then Outcome(NotFound, [Exec("which", WhichArgs), CheckExists(exe)])
      else if env.run(exe, VersionFlag).exitCode == 0 then
        Outcome(Installation(true, bin), [Exec("which", WhichArgs), CheckExists(exe), Exec(exe, VersionFlag), AddPath(bin)])
      else Outcome(NotFound, [Exec("which", WhichArgs), CheckExists(exe), Exec(exe, VersionFlag)])
  }

  /** `findIdbInstallation`, filling in the result record step by step. */
  method FindIdbInstallation(host: Host) returns (result: Installation)
    modifies host
    ensures var o := FindSpec(host.env, old(host.Entries()));
            result == o.value && host.log == old(host.log) + o.actions
  {
    result := NotFound;
    var whichResult := host.GetExecOutput("which", WhichArgs);
    if whichResult.exitCode == 0 {
      result := result.(found := true);
      result := result.(path := ParseDir(whichResult.stdout));
    } else {
      var bin := IdbBin(host.env.home);
      var local := host.ExistsSync(IdbExec(bin));
      if local {
        var idbCode := host.GetExecOutput(IdbExec(bin), VersionFlag);
        if idbCode.exitCode == 0 {
          result := result.(found := true);
          result := result.(path := bin);
          host.AddPath(bin);
        }
      }
    }
  }

  /** The search only probes: it changes no file. */
  lemma FindOnlyProbes(env: Env, entries: set<Path>)
    ensures var o := FindSpec(env, entries);
            OnlyProbes(o.actions) && Replay(env, entries, o.actions) == entries
  {
    ProbesKeepEntries(env, entries, FindSpec(env, entries).actions);
  }

  /**
   * A successful `which` wins: the local home is then not looked at, and the
   * result is the directory `which` printed.
   */
  lemma WhichWins(env: Env, entries: set<Path>)
    ensures var o := FindSpec(env, entries);
            var which := env.run("which", WhichArgs);
            (which.exitCode == 0 <==> CheckExists(IdbExec(IdbBin(env.home))) !in o.actions)
            && (which.exitCode == 0 ==> o.value == Installation(true, ParseDir(which.stdout)))
  {
    var o := FindSpec(env, entries);
    if env.run("which", WhichArgs).exitCode != 0 {
      assert o.actions[1] == CheckExists(IdbExec(IdbBin(env.home)));
    }
  }

  /**
   * When `which` fails, the local executable counts as found exactly when it
   * exists and `--version` exits with 0, and it is then `~/.idb/bin`.
   */
  lemma LocalFoundIff(env: Env, entries: set<Path>)
    requires env.run("which", WhichArgs).exitCode != 0
    ensures var o := FindSpec(env, entries);
            var exe := IdbExec(IdbBin(env.home));
            (o.value.found <==> exe in entries && env.run(exe, VersionFlag).exitCode == 0)
            && (o.value.found ==> o.value.path == IdbBin(env.home))
            && (!o.value.found ==> o.value == NotFound)
  {
  }

  /**
   * The search as the code is written: `exec.exec` without
   * `ignoreReturnCode` rejects when `idb_companion --version` exits non-zero,
   * so a local copy that does not run rejects the search, and `install` with
   * it, before the exit-code test that follows the call. `None` is the
   * rejection.
   */
  function FindAsWritten(env: Env, entries: set<Path>): Option<Installation> {
    var which := env.run("which", WhichArgs);
    if which.exitCode == 0 then Some(Installation(true, ParseDir(which.stdout)))
    else
      var bin := IdbBin(env.home);
      var exe := IdbExec(bin);
      if exe !in entries then Some(NotFound)
      else if env.run(exe, VersionFlag).exitCode != 0 then None
      else Some(Installation(true, bin))
  }

  /**
   * As written, the search rejects exactly when the local copy exists, `which`
   * fails and the copy's `--version` exits non-zero; otherwise it finds what
   * the intended search (`FindSpec`) finds. Where it rejects, the intended
   * search reports nothing found and install goes on to the refetch.
   */
  lemma FindAsWrittenRejects(env: Env, entries: set<Path>)
    ensures var exe := IdbExec(IdbBin(env.home));
            FindAsWritten(env, entries) == None <==>
              env.run("which", WhichArgs).exitCode != 0 && exe in entries && env.run(exe, VersionFlag).exitCode != 0
    ensures FindAsWritten(env, entries) != None ==> FindAsWritten(env, entries) == Some(FindSpec(env, entries).value)
    ensures FindAsWritten(env, entries) == None ==> FindSpec(env, entries).value == NotFound
  {
  }

  /**
   * The search adds `~/.idb/bin` to PATH once, exactly when it adopts the
   * local installation, and nothing when `which` found one.
   */
  lemma FindPathAdditions(env: Env, entries: set<Path>)
    ensures var o := FindSpec(env, entries);
            var localAdopted := env.run("which", WhichArgs).exitCode != 0 && o.value.found;
            AddedDirs(o.actions) == (if localAdopted then [IdbBin(env.home)] else [])
  {
    var o := FindSpec(env, entries);
    var bin := IdbBin(env.home);
    var exe := IdbExec(bin);
    if env.run("which", WhichArgs).exitCode != 0 && o.value.found {
      var probes := [Exec("which", WhichArgs), CheckExists(exe), Exec(exe, VersionFlag)];
      assert o.actions == probes + [AddPath(bin)];
      NoAddPathNoDirs(probes);
      AddedDirsAppend(probes, [AddPath(bin)]);
    } else {
      NoAddPathNoDirs(o.actions);
    }
  }

  // ---------------------------------------------------------------------
  // Installing

  /** What `install` does once the search has reported `installation`: keep it, or refetch. */
  function KeepOrRefetchSpec(env: Env, entries: set<Path>, installation: Installation): Outcome<Result<Path, FetchError>> {
    if installation.found then Outcome(Success(IdbExec(installation.path)), [])
    else
      var fetch := CleanSlateSpec(env, entries, IdbHome(env.home), DownloadUrl, ArchiveDir, IdbBin(env.home));
      match fetch.value
      case Some(e) => Outcome(Failure(e), fetch.actions)
      case None => Outcome(Success(IdbExec(IdbBin(env.home))), fetch.actions)
  }

  /** `install` as a function of the world: the executable path or the error, and the actions. */
  function InstallSpec(env: Env, entries: set<Path>): Outcome<Result<Path, FetchError>> {
    var find := FindSpec(env, entries);
    var rest := KeepOrRefetchSpec(env, entries, find.value);
    Outcome(rest.value, find.actions + rest.actions)
  }

  /** The part of `install` after the search. */
  method KeepOrRefetch(host: Host, installation: Installation) returns (r: Result<Path, FetchError>)
    modifies host
    ensures var o := KeepOrRefetchSpec(host.env, old(host.Entries()), installation);
            r == o.value && host.log == old(host.log) + o.actions
  {
    var idbPath := IdbBin(host.env.home);
    if installation.found {
      idbPath := installation.path;
    } else {
      var err := CleanSlate(host, IdbHome(host.env.home), DownloadUrl, ArchiveDir, idbPath);
      if err.Some? {
        return Failure(err.value);
      }
    }
    r := Success(IdbExec(idbPath));
  }

  /** `install`, step by step. */
  method Install(host: Host) returns (r: Result<Path, FetchError>)
    modifies host
    ensures var o := InstallSpec(host.env, old(host.Entries()));
            r == o.value && host.log == old(host.log) + o.actions
  {
    ghost var entries0 := host.Entries();
    var installation := FindIdbInstallation(host);
    ghost var find := FindSpec(host.env, entries0);
    FindOnlyProbes(host.env, entries0);
    host.Effect(find.actions);
    r := KeepOrRefetch(host, installation);
    ghost var rest := KeepOrRefetchSpec(host.env, entries0, find.value);
    AppendTwice(old(host.log), find.actions, rest.actions);
  }

  // ---------------------------------------------------------------------
  // Properties of install

  /**
   * Install changes no file and downloads nothing exactly when the search
   * found an installation, and then it returns that installation's executable.
   */
  lemma FoundIff(env: Env, entries: set<Path>)
    ensures var o := InstallSpec(env, entries);
            var find := FindSpec(env, entries);
            && (OnlyProbes(o.actions) <==> find.value.found)
            && (Downloads(o.actions) <==> !find.value.found)
            && (find.value.found ==> o.value == Success(IdbExec(find.value.path)))
  {
    var find := FindSpec(env, entries);
    var rest := KeepOrRefetchSpec(env, entries, find.value);
    FindOnlyProbes(env, entries);
    if !find.value.found {
      CleanSlateDownloads(env, entries, IdbHome(env.home), DownloadUrl, ArchiveDir, IdbBin(env.home));
    }
    ProbesAppend(find.actions, rest.actions);
    assert !Downloads(find.actions);
  }

  /**
   * When nothing was found and the refetch succeeds, install returns the
   * executable in `~/.idb/bin` and adds that directory to PATH once.
   */
  lemma RefetchResult(env: Env, entries: set<Path>)
    requires !FindSpec(env, entries).value.found
    requires InstallSpec(env, entries).value.Success?
    ensures var o := InstallSpec(env, entries);
            o.value == Success(IdbExec(IdbBin(env.home))) && AddedDirs(o.actions) == [IdbBin(env.home)]
  {
    var bin := IdbBin(env.home);
    var find := FindSpec(env, entries);
    var fetch := CleanSlateSpec(env, entries, IdbHome(env.home), DownloadUrl, ArchiveDir, bin);
    assert KeepOrRefetchSpec(env, entries, find.value).actions == fetch.actions;
    FindPathAdditions(env, entries);
    AddedDirsAppend(find.actions, fetch.actions);
    CleanSlateAddsBin(env, entries, IdbHome(env.home), DownloadUrl, ArchiveDir, bin);
  }

  /**
   * `~/.idb` is an absolute directory. It lies inside the unpack directory
   * only by being that directory, and the unpack directory lies inside it
   * only if it lies inside home; so when the unpack directory is not inside
   * `~/.idb` (hosted runners unpack into `~/work/_temp`), the two are apart.
   */
  lemma IdbHomeApart(env: Env)
    requires env.Valid()
    ensures IsAbsoluteDir(IdbHome(env.home))
    ensures Under(IdbHome(env.home), env.tempDir) ==> env.tempDir == IdbHome(env.home)
    ensures !Under(env.tempDir, env.home) ==> !Under(env.tempDir, IdbHome(env.home))
    ensures !Under(env.tempDir, IdbHome(env.home)) ==> !Under(IdbHome(env.home), env.tempDir)
  {
    JoinUnder(env.home, ".idb", env.tempDir);
  }

  /**
   * The layout of a hosted runner, where the unpack directory lies inside
   * home, meets what the refetch lemmas below require.
   */
  lemma HostedRunnerLayout(env: Env)
    requires env.home == "/home/runner" && env.tempDir == "/home/runner/work/_temp"
    ensures env.Valid() && Under(env.tempDir, env.home)
    ensures !Under(env.tempDir, IdbHome(env.home))
  {
    assert env.tempDir[..|env.home|] == env.home;
    assert env.tempDir[|IdbHome(env.home)| - 1] != IdbHome(env.home)[|IdbHome(env.home)| - 1];
  }

  /** A refetch of an archive holding `idb-companion.universal/bin/idb_companion` leaves the executable in `~/.idb/bin`. */
  lemma RefetchInstallsExecutable(env: Env, entries: set<Path>)
    requires env.Valid() && !Under(env.tempDir, IdbHome(env.home))
    requires DownloadUrl in env.releases && ArchiveDir in env.releases[DownloadUrl]
    requires ArchiveDir + "/bin/" + ExecName in env.releases[DownloadUrl]
    ensures var fetch := CleanSlateSpec(env, entries, IdbHome(env.home), DownloadUrl, ArchiveDir, IdbBin(env.home));
            fetch.value == None && IdbExec(IdbBin(env.home)) in Replay(env, entries, fetch.actions)
  {
    IdbHomeApart(env);
    CleanSlateInstallsExec(env, entries, IdbHome(env.home), DownloadUrl, ArchiveDir, ExecName);
  }

  /**
   * After a refetch of an archive holding the executable, the next search
   * adopts `~/.idb/bin` when `which` still fails and the executable runs.
   */
  lemma RefetchIsFoundNextTime(env: Env, entries: set<Path>)
    requires env.Valid() && !Under(env.tempDir, IdbHome(env.home)) && !FindSpec(env, entries).value.found
    requires DownloadUrl in env.releases && ArchiveDir in env.releases[DownloadUrl]
    requires ArchiveDir + "/bin/" + ExecName in env.releases[DownloadUrl]
    requires env.run(IdbExec(IdbBin(env.home)), VersionFlag).exitCode == 0
    ensures var o := InstallSpec(env, entries);
            var after := Replay(env, entries, o.actions);
            o.value.Success? && FindSpec(env, after).value == Installation(true, IdbBin(env.home))
  {
    var find := FindSpec(env, entries);
    var fetch := CleanSlateSpec(env, entries, IdbHome(env.home), DownloadUrl, ArchiveDir, IdbBin(env.home));
    RefetchInstallsExecutable(env, entries);
    assert KeepOrRefetchSpec(env, entries, find.value).actions == fetch.actions;
    FindOnlyProbes(env, entries);
    ReplayAppend(env, entries, find.actions, fetch.actions);
  }
}
