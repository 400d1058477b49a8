/**
 * The clean-slate refetch that both installers perform when no usable
 * installation was found (src/maestro.ts:88-99 and src/idb.ts:54-64 are the
 * same sequence with different names): remove the tool's home directory if it
 * exists, recreate it, download the release archive, unpack it, move the
 * archive's top directory into the home directory and add the tool's `bin`
 * directory to PATH.
 */
module Fetch {
  import opened Wrappers
  import opened Paths
  import opened Host

  datatype FetchError =
    | DownloadFailed(url: Url)        // tc.downloadTool threw: nothing published at `url`
    | MissingArchiveDir(dir: Path)    // fse.moveSync threw: the archive had no such directory
    | DestinationExists(dir: Path)    // fse.moveSync threw 'dest already exists.' (only as the code is written)

  /** The actions that give the tool a fresh, empty home directory. */
  function ResetHomeSpec(entries: set<Path>, toolHome: Path): seq<Action> {
    [CheckExists(toolHome)]
    + (if toolHome in entries then [Remove(toolHome)] else [])
    + [Mkdir(toolHome)]
  }

  /**
   * After the reset the home directory exists and, if it existed before,
   * holds nothing; everything outside it is as it was.
   */
  lemma ResetHomeEmpties(env: Env, entries: set<Path>, toolHome: Path)
    ensures var after := Replay(env, entries, ResetHomeSpec(entries, toolHome));
            && toolHome in after
            && (toolHome in entries ==> forall p :: p in after && Under(p, toolHome) ==> p == toolHome)
            && (forall p :: p in entries && !Under(p, toolHome) ==> p in after)
            && (forall p :: p in after && !Under(p, toolHome) ==> p in entries)
  {
    var acts := ResetHomeSpec(entries, toolHome);
    var probe := [CheckExists(toolHome)];
    assert Replay(env, entries, probe) == entries by {
      assert probe[..0] == [];
    }
    if toolHome in entries {
      assert acts == (probe + [Remove(toolHome)]) + [Mkdir(toolHome)];
      ReplaySnoc(env, entries, probe, Remove(toolHome));
      ReplaySnoc(env, entries, probe + [Remove(toolHome)], Mkdir(toolHome));
      assert Replay(env, entries, acts) == RemoveTree(entries, toolHome) + {toolHome};
    } else {
      assert acts == probe + [Mkdir(toolHome)];
      ReplaySnoc(env, entries, probe, Mkdir(toolHome));
    }
  }

  /**
   * Unpacking the downloaded archive into the unpack directory, moving its
   * directory `src` into the tool's home and adding `bin` to PATH; `entries`
   * is the file system after the download.
   */
  function UnpackAndMoveSpec(env: Env, entries: set<Path>, url: Url, src: Path, toolHome: Path, bin: Path)
    : Outcome<Option<FetchError>>
  {
    var moved := [Extract(url, env.tempDir), Move(src, toolHome)];
    if src !in Apply(env, entries, Extract(url, env.tempDir)) then Outcome(Some(MissingArchiveDir(src)), moved)
    else Outcome(None, moved + [Remove(src), AddPath(bin)])
  }

  /** The refetch as a function of the world: its error, if any, and its actions in order. */
  function CleanSlateSpec(env: Env, entries: set<Path>, toolHome: Path, url: Url, archiveDir: Path, bin: Path)
    : Outcome<Option<FetchError>>
  {
    var reset := ResetHomeSpec(entries, toolHome) + [Download(url)];
    if url !in env.releases then Outcome(Some(DownloadFailed(url)), reset)
    else
      var rest := UnpackAndMoveSpec(env, Replay(env, entries, reset), url, Join(env.tempDir, archiveDir), toolHome, bin);
      Outcome(rest.value, reset + rest.actions)
  }

  /**
   * The refetch fails at the download exactly when nothing is published at
   * `url`, and otherwise succeeds exactly when the archive holds `archiveDir`.
   */
  lemma CleanSlateResult(env: Env, entries: set<Path>, toolHome: Path, url: Url, archiveDir: Path, bin: Path)
    requires env.Valid()
    ensures var o := CleanSlateSpec(env, entries, toolHome, url, archiveDir, bin);
            (o.value == Some(DownloadFailed(url)) <==> url !in env.releases)
            && (url in env.releases ==> (o.value == None <==> archiveDir in env.releases[url]))
  {
    if url in env.releases {
      var e1 := Replay(env, entries, ResetHomeSpec(entries, toolHome) + [Download(url)]);
      UnpackedHas(e1, env.tempDir, env.releases[url], archiveDir);
    }
  }

  /**
   * Unpacking an archive that holds `archiveDir/rel`, moving `archiveDir` into
   * the tool's home and removing what is left of it leaves the file at
   * `toolHome/rel`.
   */
  lemma UnpackMoveKeeps(env: Env, entries: set<Path>, url: Url, archiveDir: Path, toolHome: Path, rel: Path)
    requires env.Valid() && IsAbsoluteDir(toolHome)
    requires !Under(toolHome, env.tempDir) && !Under(env.tempDir, toolHome)
    requires IsName(archiveDir) && url in env.releases && archiveDir in env.releases[url]
    requires |rel| > 0 && archiveDir + "/" + rel in env.releases[url]
    ensures var src := Join(env.tempDir, archiveDir);
            var e2 := Apply(env, entries, Extract(url, env.tempDir));
            Join(toolHome, rel) in Apply(env, Apply(env, e2, Move(src, toolHome)), Remove(src))
  {
    var archive := env.releases[url];
    var src := Join(env.tempDir, archiveDir);
    var e2 := Apply(env, entries, Extract(url, env.tempDir));
    UnpackedHas(entries, env.tempDir, archive, archiveDir);
    var p := Join(env.tempDir, archiveDir + "/" + rel);
    UnpackedHas(entries, env.tempDir, archive, archiveDir + "/" + rel);
    assert p == src + "/" + rel;
    assert p[..|src|] == src;
    var target := Join(toolHome, rel);
    assert target == Rebase(p, src, toolHome);
    var e3 := Apply(env, e2, Move(src, toolHome));
    assert e3 == MoveTree(e2, src, toolHome);
    assert target in e3;
    if Under(target, src) {
      JoinedUnderJoined(env.tempDir, archiveDir, toolHome, rel);
      assert false;
    }
    assert target in RemoveTree(e3, src);
  }

  /**
   * Unpacking an archive that holds `archiveDir/rel` and moving `archiveDir`
   * into the tool's home leaves that file at `toolHome/rel`.
   */
  lemma UnpackAndMoveInstalls(env: Env, entries: set<Path>, url: Url, archiveDir: Path, toolHome: Path, bin: Path, rel: Path)
    requires env.Valid() && IsAbsoluteDir(toolHome)
    requires !Under(toolHome, env.tempDir) && !Under(env.tempDir, toolHome)
    requires IsName(archiveDir) && url in env.releases && archiveDir in env.releases[url]
    requires |rel| > 0 && archiveDir + "/" + rel in env.releases[url]
    ensures var rest := UnpackAndMoveSpec(env, entries, url, Join(env.tempDir, archiveDir), toolHome, bin);
            rest.value == None && Join(toolHome, rel) in Replay(env, entries, rest.actions)
  {
    var src := Join(env.tempDir, archiveDir);
    var extract := Extract(url, env.tempDir);
    UnpackedHas(entries, env.tempDir, env.releases[url], archiveDir);
    UnpackMoveKeeps(env, entries, url, archiveDir, toolHome, rel);
    var a1 := [extract];
    var a2 := a1 + [Move(src, toolHome)];
    var a3 := a2 + [Remove(src)];
    assert Replay(env, entries, a1) == Apply(env, entries, extract) by {
      ReplaySnoc(env, entries, [], extract);
      assert [] + [extract] == a1;
    }
    ReplaySnoc(env, entries, a1, Move(src, toolHome));
    ReplaySnoc(env, entries, a2, Remove(src));
    ReplaySnoc(env, entries, a3, AddPath(bin));
    assert a3 + [AddPath(bin)] == UnpackAndMoveSpec(env, entries, url, src, toolHome, bin).actions;
  }

  /**
   * A successful refetch leaves the archive's `archiveDir/rel` at `toolHome/rel`,
   * provided the tool's home and the unpack directory are apart.
   */
  lemma CleanSlateInstalls(env: Env, entries: set<Path>, toolHome: Path, url: Url, archiveDir: Path, bin: Path, rel: Path)
    requires env.Valid() && IsAbsoluteDir(toolHome)
    requires !Under(toolHome, env.tempDir) && !Under(env.tempDir, toolHome)
    requires IsName(archiveDir) && url in env.releases && archiveDir in env.releases[url]
    requires |rel| > 0 && archiveDir + "/" + rel in env.releases[url]
    ensures var o := CleanSlateSpec(env, entries, toolHome, url, archiveDir, bin);
            o.value == None && Join(toolHome, rel) in Replay(env, entries, o.actions)
  {
    var reset := ResetHomeSpec(entries, toolHome) + [Download(url)];
    var e1 := Replay(env, entries, reset);
    var rest := UnpackAndMoveSpec(env, e1, url, Join(env.tempDir, archiveDir), toolHome, bin);
    UnpackAndMoveInstalls(env, e1, url, archiveDir, toolHome, bin, rel);
    ReplayAppend(env, entries, reset, rest.actions);
  }

  /**
   * A successful refetch of an archive holding `archiveDir/bin/exe` leaves the
   * executable at `toolHome/bin/exe`.
   */
  lemma CleanSlateInstallsExec(env: Env, entries: set<Path>, toolHome: Path, url: Url, archiveDir: Path, exe: Path)
    requires env.Valid() && IsAbsoluteDir(toolHome)
    requires !Under(toolHome, env.tempDir) && !Under(env.tempDir, toolHome)
    requires IsName(archiveDir) && url in env.releases && archiveDir in env.releases[url]
    requires IsName(exe) && archiveDir + "/bin/" + exe in env.releases[url]
    ensures var bin := Join(toolHome, "bin");
            var o := CleanSlateSpec(env, entries, toolHome, url, archiveDir, bin);
            o.value == None && Join(bin, exe) in Replay(env, entries, o.actions)
  {
    var rel := "bin/" + exe;
    assert archiveDir + "/" + rel == archiveDir + "/bin/" + exe;
    CleanSlateInstalls(env, entries, toolHome, url, archiveDir, Join(toolHome, "bin"), rel);
    assert Join(toolHome, rel) == Join(Join(toolHome, "bin"), exe);
  }

  /** Unpacking and moving adds `bin` to PATH once, exactly when the move succeeds. */
  lemma UnpackAndMoveAddsBin(env: Env, entries: set<Path>, url: Url, src: Path, toolHome: Path, bin: Path)
    ensures var rest := UnpackAndMoveSpec(env, entries, url, src, toolHome, bin);
            AddedDirs(rest.actions) == (if rest.value == None then [bin] else [])
  {
    var moved := [Extract(url, env.tempDir), Move(src, toolHome)];
    var removed := moved + [Remove(src)];
    NoAddPathNoDirs(moved);
    NoAddPathNoDirs(removed);
    AddedDirsAppend(removed, [AddPath(bin)]);
    assert removed + [AddPath(bin)] == moved + [Remove(src), AddPath(bin)];
  }

  /**
   * The refetch always downloads, right after resetting the home directory,
   * and adds `bin` to PATH once, only when it succeeds.
   */
  lemma CleanSlateAddsBin(env: Env, entries: set<Path>, toolHome: Path, url: Url, archiveDir: Path, bin: Path)
    ensures var o := CleanSlateSpec(env, entries, toolHome, url, archiveDir, bin);
            o.actions[|ResetHomeSpec(entries, toolHome)|] == Download(url)
            && AddedDirs(o.actions) == (if o.value == None then [bin] else [])
  {
    var reset := ResetHomeSpec(entries, toolHome) + [Download(url)];
    assert reset[|ResetHomeSpec(entries, toolHome)|] == Download(url);
    NoAddPathNoDirs(reset);
    if url in env.releases {
      var rest := UnpackAndMoveSpec(env, Replay(env, entries, reset), url, Join(env.tempDir, archiveDir), toolHome, bin);
      UnpackAndMoveAddsBin(env, Replay(env, entries, reset), url, Join(env.tempDir, archiveDir), toolHome, bin);
      AddedDirsAppend(reset, rest.actions);
    }
  }

  /** The refetch begins with the reset and always downloads, so it never only probes. */
  lemma CleanSlateDownloads(env: Env, entries: set<Path>, toolHome: Path, url: Url, archiveDir: Path, bin: Path)
    ensures var o := CleanSlateSpec(env, entries, toolHome, url, archiveDir, bin);
            var k := |ResetHomeSpec(entries, toolHome)|;
            k < |o.actions| && o.actions[..k] == ResetHomeSpec(entries, toolHome)
            && Downloads(o.actions) && !OnlyProbes(o.actions)
  {
    var o := CleanSlateSpec(env, entries, toolHome, url, archiveDir, bin);
    var k := |ResetHomeSpec(entries, toolHome)|;
    assert o.actions[k] == Download(url);
  }

  // ---------------------------------------------------------------------
  // The move as the code is written

  /**
   * `fse.moveSync(src, dst)` as the installers call it, without
   * `{overwrite: true}`: fs-extra refuses a missing source, and then an
   * existing destination.
   */
  function MoveAsCalled(entries: set<Path>, src: Path, dst: Path): Option<FetchError> {
    if src !in entries then Some(MissingArchiveDir(src))
    else if dst in entries then Some(DestinationExists(dst))
    else None
  }

  /**
   * The error of the refetch as the code is written: the steps of
   * `CleanSlateSpec`, with the move refusing an existing home directory.
   */
  function CleanSlateAsWritten(env: Env, entries: set<Path>, toolHome: Path, url: Url, archiveDir: Path)
    : Option<FetchError>
  {
    var reset := ResetHomeSpec(entries, toolHome) + [Download(url)];
    if url !in env.releases then Some(DownloadFailed(url))
    else
      var unpacked := Apply(env, Replay(env, entries, reset), Extract(url, env.tempDir));
      MoveAsCalled(unpacked, Join(env.tempDir, archiveDir), toolHome)
  }

  /**
   * As written, no refetch succeeds: the reset has just created the home
   * directory, so the move onto it is refused even when the archive holds
   * the expected directory, where the intended refetch (`CleanSlateSpec`, whose
   * move replaces the empty home directory) succeeds.
   */
  lemma CleanSlateAsWrittenFails(env: Env, entries: set<Path>, toolHome: Path, url: Url, archiveDir: Path, bin: Path)
    requires env.Valid() && !Under(toolHome, env.tempDir)
    ensures CleanSlateAsWritten(env, entries, toolHome, url, archiveDir) != None
    ensures url in env.releases && archiveDir in env.releases[url] ==>
              && CleanSlateAsWritten(env, entries, toolHome, url, archiveDir) == Some(DestinationExists(toolHome))
              && CleanSlateSpec(env, entries, toolHome, url, archiveDir, bin).value == None
  {
    if url in env.releases {
      var reset := ResetHomeSpec(entries, toolHome) + [Download(url)];
      ResetHomeEmpties(env, entries, toolHome);
      ReplaySnoc(env, entries, ResetHomeSpec(entries, toolHome), Download(url));
      var e1 := Replay(env, entries, reset);
      assert toolHome in e1;
      var unpacked := Apply(env, e1, Extract(url, env.tempDir));
      assert toolHome in RemoveTree(e1, env.tempDir);
      assert toolHome in unpacked;
      if archiveDir in env.releases[url] {
        UnpackedHas(e1, env.tempDir, env.releases[url], archiveDir);
        CleanSlateResult(env, entries, toolHome, url, archiveDir, bin);
      }
    }
  }

  method ResetHome(host: Host, toolHome: Path)
    modifies host
    ensures host.log == old(host.log) + ResetHomeSpec(old(host.Entries()), toolHome)
  {
    var homeExists := host.ExistsSync(toolHome);
    if homeExists {
      host.RemoveSync(toolHome);
    }
    host.MkdirSync(toolHome);
  }

  method UnpackAndMove(host: Host, url: Url, archiveDir: Path, toolHome: Path, bin: Path)
    returns (err: Option<FetchError>)
    requires url in host.env.releases
    modifies host
    ensures var o := UnpackAndMoveSpec(host.env, old(host.Entries()), url, Join(host.env.tempDir, archiveDir), toolHome, bin);
            err == o.value && host.log == old(host.log) + o.actions
  {
    var extracted := host.ExtractArchive(url);
    var src := Join(extracted, archiveDir);
    host.Effect([Extract(url, extracted)]);
    var moved := host.MoveSync(src, toolHome);
    if !moved {
      return Some(MissingArchiveDir(src));
    }
    host.RemoveSync(src);
    host.AddPath(bin);
    err := None;
  }

  /** The refetch step by step, as the installers write it. */
  method CleanSlate(host: Host, toolHome: Path, url: Url, archiveDir: Path, bin: Path)
    returns (err: Option<FetchError>)
    modifies host
    ensures var o := CleanSlateSpec(host.env, old(host.Entries()), toolHome, url, archiveDir, bin);
            err == o.value && host.log == old(host.log) + o.actions
  {
    ResetHome(host, toolHome);
    var downloaded := host.DownloadTool(url);
    ghost var reset := ResetHomeSpec(old(host.Entries()), toolHome) + [Download(url)];
    assert host.log == old(host.log) + reset;
    if !downloaded {
      return Some(DownloadFailed(url));
    }
    host.Effect(reset);
    err := UnpackAndMove(host, url, archiveDir, toolHome, bin);
  }
}
