/**
 * The machine the installers run on. What they observe (which files exist,
 * what a subprocess exits with and prints, which archives can be downloaded
 * and what they hold) is given by an `Env`; what they do is recorded, in
 * order, as a log of `Action`s. The file system and the process's PATH
 * additions are always the replay of that log.
 */
module Host {
  import opened Wrappers
  import opened Paths

  type Url = string

  /** What `exec.getExecOutput` reports: the exit code and the standard output. */
  datatype ExecOutput = ExecOutput(exitCode: int, stdout: string)

  datatype Env = Env(
    home: Path,                              // os.homedir()
    tempDir: Path,                           // where an archive is unpacked
    run: (Path, seq<string>) -> ExecOutput,  // what running a command with arguments yields
    releases: map<Url, set<Path>>            // the archives that can be downloaded, as their relative entries
  )
  {
    /**
     * Home and the unpack directory are absolute, and home does not lie
     * inside the unpack directory. The unpack directory may lie inside home,
     * as it does on hosted runners (`/home/runner/work/_temp`).
     */
    predicate Valid() {
      IsAbsoluteDir(home) && IsAbsoluteDir(tempDir) && !Under(home, tempDir)
    }
  }

  datatype Action =
    | CheckExists(path: Path)             // fs.existsSync
    | Exec(cmd: Path, args: seq<string>)  // a subprocess, run for its exit code and output
    | Remove(path: Path)                  // fse.removeSync
    | Mkdir(path: Path)                   // fs.mkdirSync with {recursive: true}
    | Download(url: Url)                  // tc.downloadTool
    | Extract(url: Url, dest: Path)       // tc.extractZip / tc.extractTar of the downloaded archive
    | Move(src: Path, dst: Path)          // fse.moveSync
    | AddPath(dir: Path)                  // core.addPath

  /** A value together with the actions taken to compute it. */
  datatype Outcome<T> = Outcome(value: T, actions: seq<Action>)

  /** The entries of a fresh directory `dest` into which an archive has been unpacked. */
  function Unpacked(entries: set<Path>, dest: Path, archive: set<Path>): set<Path> {
    RemoveTree(entries, dest) + {dest} + (set a | a in archive :: Join(dest, a))
  }

  /** The file system after one action; probes and PATH changes leave it as it was. */
  function Apply(env: Env, entries: set<Path>, a: Action): set<Path> {
    match a
    case Remove(p) => RemoveTree(entries, p)
    case Mkdir(p) => entries + {p}
    case Extract(url, dest) =>
      if url in env.releases then Unpacked(entries, dest, env.releases[url]) else entries
    case Move(src, dst) => if src in entries then MoveTree(entries, src, dst) else entries
    case _ => entries
  }

  /** The file system after a sequence of actions. */
  function Replay(env: Env, entries: set<Path>, acts: seq<Action>): set<Path>
    decreases |acts|
  {
    if acts == [] then entries
    else Apply(env, Replay(env, entries, acts[..|acts| - 1]), acts[|acts| - 1])
  }

  /** The directories a sequence of actions appends to PATH, in order. */
  function AddedDirs(acts: seq<Action>): seq<Path>
    decreases |acts|
  {
    if acts == [] then []
    else
      var last := acts[|acts| - 1];
      AddedDirs(acts[..|acts| - 1]) + (if last.AddPath? then [last.dir] else [])
  }

  lemma ReplaySnoc(env: Env, entries: set<Path>, acts: seq<Action>, a: Action)
    ensures Replay(env, entries, acts + [a]) == Apply(env, Replay(env, entries, acts), a)
  {
    assert (acts + [a])[..|acts|] == acts;
  }

  /**
   * Appending to a log in two steps appends the concatenation. Stated apart
   * so that a method's proof uses this one fact rather than proving it in
   * the method's whole context.
   */
  lemma AppendTwice(log: seq<Action>, a: seq<Action>, b: seq<Action>)
    ensures (log + a) + b == log + (a + b)
  {
  }

  /** Replaying two logs one after the other is replaying their concatenation. */
  lemma {:induction false} ReplayAppend(env: Env, entries: set<Path>, a: seq<Action>, b: seq<Action>)
    ensures Replay(env, entries, a + b) == Replay(env, Replay(env, entries, a), b)
    decreases |b|
  {
    if b == [] {
      assert a + b == a;
    } else {
      var b' := b[..|b| - 1];
      var x := b[|b| - 1];
      assert a + b == (a + b') + [x];
      assert b == b' + [x];
      ReplaySnoc(env, entries, a + b', x);
      ReplayAppend(env, entries, a, b');
      ReplaySnoc(env, Replay(env, entries, a), b', x);
    }
  }

  /** PATH additions of two logs are those of the first followed by those of the second. */
  lemma {:induction false} AddedDirsAppend(a: seq<Action>, b: seq<Action>)
    ensures AddedDirs(a + b) == AddedDirs(a) + AddedDirs(b)
    decreases |b|
  {
    if b == [] {
      assert a + b == a;
    } else {
      var b' := b[..|b| - 1];
      assert (a + b)[..|a + b| - 1] == a + b';
      assert (a + b)[|a + b| - 1] == b[|b| - 1];
      AddedDirsAppend(a, b');
    }
  }

  /** A log without an AddPath action adds nothing to PATH. */
  lemma {:induction false} NoAddPathNoDirs(acts: seq<Action>)
    requires forall k :: 0 <= k < |acts| ==> !acts[k].AddPath?
    ensures AddedDirs(acts) == []
    decreases |acts|
  {
    if acts != [] {
      NoAddPathNoDirs(acts[..|acts| - 1]);
    }
  }

  /** Every action only probes the world or adds to PATH. */
  predicate OnlyProbes(acts: seq<Action>) {
    forall k :: 0 <= k < |acts| ==> acts[k].CheckExists? || acts[k].Exec? || acts[k].AddPath?
  }

  /** Some action downloads. */
  predicate Downloads(acts: seq<Action>) {
    exists k :: 0 <= k < |acts| && acts[k].Download?
  }

  /** Some command the log runs exits non-zero. */
  predicate SomeRunFails(env: Env, acts: seq<Action>) {
    exists k :: 0 <= k < |acts| && acts[k].Exec? && env.run(acts[k].cmd, acts[k].args).exitCode != 0
  }

  /** Both predicates over a log split over its two parts. */
  lemma ProbesAppend(a: seq<Action>, b: seq<Action>)
    ensures OnlyProbes(a + b) <==> OnlyProbes(a) && OnlyProbes(b)
    ensures Downloads(a + b) <==> Downloads(a) || Downloads(b)
  {
    var ab := a + b;
    assert forall k :: 0 <= k < |a| ==> ab[k] == a[k];
    assert forall k :: 0 <= k < |b| ==> ab[|a| + k] == b[k];
    if Downloads(ab) {
      var k :| 0 <= k < |ab| && ab[k].Download?;
      if k >= |a| {
        assert b[k - |a|] == ab[k];
      }
    }
    if OnlyProbes(a) && OnlyProbes(b) {
      forall k | 0 <= k < |ab|
        ensures ab[k].CheckExists? || ab[k].Exec? || ab[k].AddPath?
      {
        if k >= |a| {
          assert ab[k] == b[k - |a|];
        }
      }
    }
  }

  /** Probes and PATH changes leave the file system as it was. */
  lemma {:induction false} ProbesKeepEntries(env: Env, entries: set<Path>, acts: seq<Action>)
    requires OnlyProbes(acts)
    ensures Replay(env, entries, acts) == entries
    decreases |acts|
  {
    if acts != [] {
      ProbesKeepEntries(env, entries, acts[..|acts| - 1]);
    }
  }

  /**
   * Unpacking into a fresh `dest` makes `Join(dest, name)` exist exactly when
   * the archive holds `name`, whatever was there before.
   */
  lemma UnpackedHas(entries: set<Path>, dest: Path, archive: set<Path>, name: Path)
    requires IsAbsoluteDir(dest)
    ensures Join(dest, name) in Unpacked(entries, dest, archive) <==> name in archive
  {
    var p := Join(dest, name);
    assert p == dest + "/" + name;
    assert p[..|dest|] == dest;
    assert Under(p, dest);
    if p in Unpacked(entries, dest, archive) {
      var a :| a in archive && Join(dest, a) == p;
      assert Join(dest, a) == dest + "/" + a;
      assert a == p[|dest| + 1..] == name;
    }
  }

  /**
   * The host as the installers see it. Every primitive appends its action to
   * `log`; the file system and PATH are, by definition, what that log made of
   * the initial ones, so a primitive's effect on them is `Apply` of its action
   * (see `Effect`).
   */
  class Host {
    const env: Env
    const initialEntries: set<Path>
    const initialSearchPath: seq<Path>
    var log: seq<Action>  // everything done so far, in order

    /** The files and directories that exist now. */
    function Entries(): set<Path>
      reads this
    {
      Replay(env, initialEntries, log)
    }

    /** PATH now: the initial one followed by the directories added to it, in order. */
    function SearchPath(): seq<Path>
      reads this
    {
      initialSearchPath + AddedDirs(log)
    }

    constructor (env: Env, entries: set<Path>, searchPath: seq<Path>)
      ensures this.env == env && log == []
      ensures Entries() == entries && SearchPath() == searchPath
    {
      this.env := env;
      initialEntries := entries;
      initialSearchPath := searchPath;
      log := [];
    }

    /** After a method that appended `acts` to the log, the state is the replay of `acts` on the old state. */
    twostate lemma Effect(acts: seq<Action>)
      requires log == old(log) + acts
      ensures Entries() == Replay(env, old(Entries()), acts)
      ensures SearchPath() == old(SearchPath()) + AddedDirs(acts)
    {
      ReplayAppend(env, initialEntries, old(log), acts);
      AddedDirsAppend(old(log), acts);
    }

    /** fs.existsSync */
    method ExistsSync(p: Path) returns (b: bool)
      modifies this
      ensures log == old(log) + [CheckExists(p)]
      ensures b == (p in old(Entries()))
    {
      b := p in Entries();
      log := log + [CheckExists(p)];
    }

    /** exec.getExecOutput / exec.exec: runs a command and reports its exit code and output. */
    method GetExecOutput(cmd: Path, args: seq<string>) returns (out: ExecOutput)
      modifies this
      ensures log == old(log) + [Exec(cmd, args)]
      ensures out == env.run(cmd, args)
    {
      out := env.run(cmd, args);
      log := log + [Exec(cmd, args)];
    }

    /** fse.removeSync: removes `p` and everything inside it. */
    method RemoveSync(p: Path)
      modifies this
      ensures log == old(log) + [Remove(p)]
    {
      log := log + [Remove(p)];
    }

    /** fs.mkdirSync with {recursive: true} */
    method MkdirSync(p: Path)
      modifies this
      ensures log == old(log) + [Mkdir(p)]
    {
      log := log + [Mkdir(p)];
    }

    /** tc.downloadTool: fails when nothing is published at `url`. */
    method DownloadTool(url: Url) returns (ok: bool)
      modifies this
      ensures log == old(log) + [Download(url)]
      ensures ok == (url in env.releases)
    {
      ok := url in env.releases;
      log := log + [Download(url)];
    }

    /** tc.extractZip / tc.extractTar of the archive downloaded from `url`: returns the directory it was unpacked into. */
    method ExtractArchive(url: Url) returns (dest: Path)
      requires url in env.releases
      modifies this
      ensures log == old(log) + [Extract(url, env.tempDir)]
      ensures dest == env.tempDir
    {
      dest := env.tempDir;
      log := log + [Extract(url, dest)];
    }

    /** fse.moveSync: fails when `src` does not exist; otherwise the tree at `src` takes the place of `dst`. */
    method MoveSync(src: Path, dst: Path) returns (ok: bool)
      modifies this
      ensures log == old(log) + [Move(src, dst)]
      ensures ok == (src in old(Entries()))
    {
      ok := src in Entries();
      log := log + [Move(src, dst)];
    }

    /** core.addPath: appends `dir` to PATH. */
    method AddPath(dir: Path)
      modifies this
      ensures log == old(log) + [Action.AddPath(dir)]
    {
      log := log + [Action.AddPath(dir)];
    }
  }
}
