/**
 * The Node launcher's version resolution (`node-launcher/src/main.rs`):
 * discovering the wanted range by walking up from the working directory, and
 * choosing the newest installed version that the range admits.
 */
module NodeLauncher {
  import opened Wrappers
  import opened SemVer
  import opened Paths
  import opened Manifest

  datatype LauncherError = NoLocalVersionsFound | NoMatchingVersion

  /** The decoders the launcher calls: JSON decoding of a manifest, and range parsing. */
  datatype Parsers = Parsers(manifest: string -> Option<PackageJson>, range: string -> Option<Range>)

  // ---------------------------------------------------------------------------
  // Best-match selection
  // ---------------------------------------------------------------------------

  /** Whether `want` admits `v`; without a range every version is admitted. */
  predicate Admits(want: Option<Range>, v: Version)
  {
    match want
    case None => true
    case Some(range) => range.test(v)
  }

  /** `v` is installed, admitted, and no admitted installed version is newer. */
  predicate IsBestMatch(want: Option<Range>, available: seq<Version>, v: Version)
  {
    && v in available
    && Admits(want, v)
    && forall w :: w in available && Admits(want, w) ==> !Less(v, w)
  }

  /**
   * `select`: the newer of `version` and the best so far. Only a strictly
   * newer version replaces the best so far; on a tie the earlier one stays.
   */
  function Select(version: Version, currentBest: Option<Version>): (r: Option<Version>)
    ensures r.Some?
    ensures r.value == version || r == currentBest
    ensures !Less(r.value, version)
    ensures currentBest.Some? ==> !Less(r.value, currentBest.value)
    ensures currentBest.Some? && r != currentBest ==> Less(currentBest.value, version)
  {
    match currentBest
    case Some(bestYet) =>
      LessIrreflexive(version);
      LessIrreflexive(bestYet);
      if Less(bestYet, version) then
        LessAsymmetric(bestYet, version);
        Some(version)
      else
        Some(bestYet)
    case None =>
      LessIrreflexive(version);
      Some(version)
  }

  /** One step of the fold: folding in an admitted version keeps the best match of the prefix. */
  lemma SelectExtendsBestMatch(want: Option<Range>, seen: seq<Version>, version: Version, currentBest: Option<Version>)
    requires currentBest.None? ==> forall w :: w in seen ==> !Admits(want, w)
    requires currentBest.Some? ==> IsBestMatch(want, seen, currentBest.value)
    requires Admits(want, version)
    ensures IsBestMatch(want, seen + [version], Select(version, currentBest).value)
  {
    var best := Select(version, currentBest).value;
    forall w | w in seen + [version] && Admits(want, w)
      ensures !Less(best, w)
    {
      if w != version {
        NotLessTransitive(best, currentBest.value, w);
      }
    }
  }

  /**
   * `find_best_match`: an empty inventory is reported first, whatever the
   * range; otherwise the newest admitted version, or `NoMatchingVersion`
   * when no installed version is admitted.
   */
  method FindBestMatch(want: Option<Range>, available: seq<Version>) returns (r: Result<Version, LauncherError>)
    ensures r == Err(NoLocalVersionsFound) <==> available == []
    ensures r == Err(NoMatchingVersion) <==> available != [] && forall v :: v in available ==> !Admits(want, v)
    ensures r.Ok? ==> IsBestMatch(want, available, r.value)
  {
    if available == [] {
      return Err(NoLocalVersionsFound);
    }

    var currentBest: Option<Version> := None;
    for i := 0 to |available|
      invariant currentBest.None? <==> forall w :: w in available[..i] ==> !Admits(want, w)
      invariant currentBest.Some? ==> IsBestMatch(want, available[..i], currentBest.value)
    {
      var version := available[i];
      assert available[..i + 1] == available[..i] + [version];
      match want {
        case None =>
          SelectExtendsBestMatch(want, available[..i], version, currentBest);
          currentBest := Select(version, currentBest);
        case Some(range) =>
          if range.test(version) {
            SelectExtendsBestMatch(want, available[..i], version, currentBest);
            currentBest := Select(version, currentBest);
          }
      }
    }

    assert available[..|available|] == available;
    match currentBest
    case Some(version) => r := Ok(version);
    case None => r := Err(NoMatchingVersion);
  }

  /** The best match is unique: two versions that both qualify are equal. */
  lemma BestMatchIsUnique(want: Option<Range>, available: seq<Version>, v: Version, w: Version)
    requires IsBestMatch(want, available, v) && IsBestMatch(want, available, w)
    ensures v == w
  {
    if v != w {
      LessConnected(v, w);
    }
  }

  function V(major: nat, minor: nat, patch: nat): (v: Version)
    ensures v.pre == []
  {
    Version(major, minor, patch, [])
  }

  /** The range `18.x`: any version whose major number is 18. */
  const Major18 := Range((x: Version) => x.major == 18)

  /** Installed 16.20.0, 18.16.0, 18.17.1 and 20.5.0 with the range `18.x`: 18.17.1 is chosen. */
  lemma ScenarioMajorRange()
    ensures var available := [V(16, 20, 0), V(18, 16, 0), V(18, 17, 1), V(20, 5, 0)];
      forall v :: IsBestMatch(Some(Major18), available, v) <==> v == V(18, 17, 1)
  {
    var available := [V(16, 20, 0), V(18, 16, 0), V(18, 17, 1), V(20, 5, 0)];
    var want := Some(Major18);
    assert IsBestMatch(want, available, V(18, 17, 1));
    forall v | IsBestMatch(want, available, v)
      ensures v == V(18, 17, 1)
    {
      BestMatchIsUnique(want, available, v, V(18, 17, 1));
    }
  }

  /** The same inventory without any pin: the newest, 20.5.0, is chosen. */
  lemma ScenarioNoPin()
    ensures var available := [V(16, 20, 0), V(18, 16, 0), V(18, 17, 1), V(20, 5, 0)];
      forall v :: IsBestMatch(None, available, v) <==> v == V(20, 5, 0)
  {
    var available := [V(16, 20, 0), V(18, 16, 0), V(18, 17, 1), V(20, 5, 0)];
    assert IsBestMatch(None, available, V(20, 5, 0));
    forall v | IsBestMatch(None, available, v)
      ensures v == V(20, 5, 0)
    {
      BestMatchIsUnique(None, available, v, V(20, 5, 0));
    }
  }

  // ---------------------------------------------------------------------------
  // Configuration discovery
  // ---------------------------------------------------------------------------

  const PackageJsonFile := "package.json"
  const NodeVersionFile := ".node-version"
  const NvmrcFile := ".nvmrc"

  /** `read_version_file`: the contents of `dir/name` when it can be read as text. */
  function ReadVersionFile(fs: FileSystem, dir: Path, name: string): (r: Option<string>)
    ensures r.Some? <==> Join(dir, name) in fs
    ensures r.Some? ==> r.value == fs[Join(dir, name)]
  {
    var file := Join(dir, name);
    if file in fs then Some(fs[file]) else None
  }

  /**
   * `read_package_json`: the `engines.node` string of `dir/package.json`.
   * An unreadable file, malformed JSON, a manifest without `engines` and
   * `engines` without `node` all give `None`.
   */
  function ReadPackageJson(fs: FileSystem, parsers: Parsers, dir: Path): (r: Option<string>)
    ensures r.None? <==>
      || Join(dir, PackageJsonFile) !in fs
      || parsers.manifest(fs[Join(dir, PackageJsonFile)]).None?
      || parsers.manifest(fs[Join(dir, PackageJsonFile)]).value.engines.None?
      || parsers.manifest(fs[Join(dir, PackageJsonFile)]).value.engines.value.node.None?
    ensures r.Some? ==> parsers.manifest(fs[Join(dir, PackageJsonFile)]).value.engines.value.node == r
  {
    match ReadVersionFile(fs, dir, PackageJsonFile)
    case None => None
    case Some(content) =>
      match parsers.manifest(content)
      case None => None
      case Some(packageJson) =>
        match packageJson.engines
        case None => None
        case Some(engines) => engines.node
  }

  /**
   * `read_node_version`: the range of the first pin present in `dir`, in the
   * order `package.json` `engines.node`, `.node-version`, `.nvmrc`. The first
   * pin present is final: when it does not parse, the result is `None`.
   */
  function ReadNodeVersion(fs: FileSystem, parsers: Parsers, dir: Path): (r: Option<Range>)
    ensures r == match FirstPresent(Pins(fs, parsers, dir))
                 case None => None
                 case Some(pin) => parsers.range(pin)
  {
    var pins := Pins(fs, parsers, dir);
    assert pins[1..] == [pins[1], pins[2]] && pins[1..][1..] == [pins[2]] && pins[1..][1..][1..] == [];
    var manifestPin := ReadPackageJson(fs, parsers, dir);
    if manifestPin.Some? then parsers.range(manifestPin.value)
    else
      var nodeVersionPin := ReadVersionFile(fs, dir, NodeVersionFile);
      if nodeVersionPin.Some? then parsers.range(nodeVersionPin.value)
      else
        var nvmrcPin := ReadVersionFile(fs, dir, NvmrcFile);
        if nvmrcPin.Some? then parsers.range(nvmrcPin.value) else None
  }

  /** The pin sources of a directory, in priority order. */
  function Pins(fs: FileSystem, parsers: Parsers, dir: Path): (pins: seq<Option<string>>)
    ensures |pins| == 3
  {
    [ReadPackageJson(fs, parsers, dir), ReadVersionFile(fs, dir, NodeVersionFile), ReadVersionFile(fs, dir, NvmrcFile)]
  }

  /** The first present entry: it is preceded only by absent ones. */
  function FirstPresent(pins: seq<Option<string>>): (r: Option<string>)
    ensures r.None? <==> forall i :: 0 <= i < |pins| ==> pins[i].None?
    ensures r.Some? ==> exists i :: 0 <= i < |pins| && pins[i] == r && forall j :: 0 <= j < i ==> pins[j].None?
  {
    if pins == [] then None
    else if pins[0].Some? then pins[0]
    else
      var r := FirstPresent(pins[1..]);
      assert r.Some? ==> exists i :: 0 <= i < |pins| && pins[i] == r && forall j :: 0 <= j < i ==> pins[j].None? by {
        if r.Some? {
          var i :| 0 <= i < |pins[1..]| && pins[1..][i] == r && forall j :: 0 <= j < i ==> pins[1..][j].None?;
          assert pins[i + 1] == r && forall j :: 0 <= j < i + 1 ==> pins[j].None?;
        }
      }
      r
  }

  /**
   * A present pin that does not parse ends the search in its directory: the
   * later sources are not consulted, even when one of them holds a pin that
   * would parse.
   */
  lemma UnparsablePinIsFinal(fs: FileSystem, parsers: Parsers, dir: Path, k: nat)
    requires k < 3
    requires Pins(fs, parsers, dir)[k].Some? && parsers.range(Pins(fs, parsers, dir)[k].value).None?
    requires forall j :: 0 <= j < k ==> Pins(fs, parsers, dir)[j].None?
    ensures ReadNodeVersion(fs, parsers, dir).None?
  {
    var pins := Pins(fs, parsers, dir);
    var first := FirstPresent(pins);
    var i :| 0 <= i < |pins| && pins[i] == first && forall j :: 0 <= j < i ==> pins[j].None?;
    assert i == k;
  }

  /**
   * A manifest that yields no `engines.node` pin (for instance one that only
   * pins `npm`) is treated exactly as if there were no manifest.
   */
  lemma ManifestWithoutNodePinIsTransparent(fs: FileSystem, parsers: Parsers, dir: Path)
    requires ReadPackageJson(fs, parsers, dir).None?
    ensures ReadNodeVersion(fs, parsers, dir) == ReadNodeVersion(fs - {Join(dir, PackageJsonFile)}, parsers, dir)
  {
    var rest := fs - {Join(dir, PackageJsonFile)};
    assert NodeVersionFile[0] != PackageJsonFile[0] && NvmrcFile[0] != PackageJsonFile[0];
    assert Join(dir, NodeVersionFile)[|dir|] != Join(dir, PackageJsonFile)[|dir|];
    assert Join(dir, NvmrcFile)[|dir|] != Join(dir, PackageJsonFile)[|dir|];
    assert ReadVersionFile(rest, dir, NodeVersionFile) == ReadVersionFile(fs, dir, NodeVersionFile);
    assert ReadVersionFile(rest, dir, NvmrcFile) == ReadVersionFile(fs, dir, NvmrcFile);
  }

  /** `dir[..k]` is one of the directories the walk from `dir` visits. */
  predicate OnWalk(dir: Path, k: int)
  {
    0 <= k <= |dir| && forall j :: k <= j < |dir| ==> dir[j] != RootDir
  }

  /**
   * The upward walk from `dir` with a per-directory `probe`: the probe's
   * result for `dir` when it has one, else the walk from the parent, and
   * `None` once there is no parent.
   */
  function Walk(probe: Path -> Option<Range>, dir: Path): (r: Option<Range>)
    ensures r.Some? ==> exists k :: OnWalk(dir, k) && probe(dir[..k]) == r
    decreases |dir|
  {
    assert dir[..|dir|] == dir && OnWalk(dir, |dir|);
    if probe(dir).Some? then probe(dir)
    else
      match Parent(dir)
      case None => None
      case Some(up) =>
        var r := Walk(probe, up);
        assert r.Some? ==> exists k :: OnWalk(dir, k) && probe(dir[..k]) == r by {
          if r.Some? {
            var k :| OnWalk(up, k) && probe(up[..k]) == r;
            assert up[..k] == dir[..k];
            assert OnWalk(dir, k);
          }
        }
        r
  }

  /** The walk yields `None` exactly when the probe yields `None` for every directory on it. */
  lemma {:induction false} WalkNoneIffSilent(probe: Path -> Option<Range>, dir: Path)
    ensures Walk(probe, dir).None? <==> forall k :: OnWalk(dir, k) ==> probe(dir[..k]).None?
    decreases |dir|
  {
    var n := |dir|;
    assert dir[..n] == dir && OnWalk(dir, n);
    if probe(dir).None? {
      match Parent(dir)
      case None =>
        forall k | OnWalk(dir, k)
          ensures probe(dir[..k]).None?
        {
          assert k == n;
        }
      case Some(up) =>
        WalkNoneIffSilent(probe, up);
        if Walk(probe, up).None? {
          forall k | OnWalk(dir, k)
            ensures probe(dir[..k]).None?
          {
            if k < n {
              assert up[..k] == dir[..k];
              assert OnWalk(up, k);
            }
          }
        }
    }
  }

  /** A result of the walk comes from the nearest directory on it whose probe yields one. */
  lemma {:induction false} WalkIsNearest(probe: Path -> Option<Range>, dir: Path)
    requires Walk(probe, dir).Some?
    ensures exists k :: && OnWalk(dir, k)
                        && probe(dir[..k]) == Walk(probe, dir)
                        && forall j :: k < j <= |dir| ==> probe(dir[..j]).None?
    decreases |dir|
  {
    var n := |dir|;
    assert dir[..n] == dir && OnWalk(dir, n);
    if probe(dir).None? {
      var up := Parent(dir).value;
      WalkIsNearest(probe, up);
      var k :| && OnWalk(up, k)
               && probe(up[..k]) == Walk(probe, up)
               && forall j :: k < j <= |up| ==> probe(up[..j]).None?;
      assert up[..k] == dir[..k];
      assert OnWalk(dir, k);
      forall j | k < j <= n
        ensures probe(dir[..j]).None?
      {
        if j < n {
          assert up[..j] == dir[..j];
        }
      }
    }
  }

  /**
   * The range `get_wanted_version` settles on: the walk from `dir` that
   * probes each directory with `read_node_version`.
   */
  function WantedVersion(fs: FileSystem, parsers: Parsers, dir: Path): (r: Option<Range>)
    ensures r.Some? ==> exists k :: OnWalk(dir, k) && ReadNodeVersion(fs, parsers, dir[..k]) == r
  {
    Walk((d: Path) => ReadNodeVersion(fs, parsers, d), dir)
  }

  /**
   * The walk from `dir` settles on `None` exactly when no directory on it,
   * up to the root, yields a range.
   */
  lemma WantedVersionNoneIffNoPin(fs: FileSystem, parsers: Parsers, dir: Path)
    ensures WantedVersion(fs, parsers, dir).None? <==>
      forall k :: OnWalk(dir, k) ==> ReadNodeVersion(fs, parsers, dir[..k]).None?
  {
    WalkNoneIffSilent((d: Path) => ReadNodeVersion(fs, parsers, d), dir);
  }

  /**
   * A range found by the walk from `dir` is that of the nearest directory on
   * it (the starting directory first) that yields one: every directory
   * below it yields `None`.
   */
  lemma WantedVersionIsNearestPin(fs: FileSystem, parsers: Parsers, dir: Path)
    requires WantedVersion(fs, parsers, dir).Some?
    ensures exists k :: && OnWalk(dir, k)
                        && ReadNodeVersion(fs, parsers, dir[..k]) == WantedVersion(fs, parsers, dir)
                        && forall j :: k < j <= |dir| ==> ReadNodeVersion(fs, parsers, dir[..j]).None?
  {
    WalkIsNearest((d: Path) => ReadNodeVersion(fs, parsers, d), dir);
  }

  /** `get_wanted_version`: walks up from `workDir` until a directory yields a range or the root is passed. */
  method GetWantedVersion(fs: FileSystem, parsers: Parsers, workDir: Path) returns (r: Option<Range>)
    ensures r == WantedVersion(fs, parsers, workDir)
  {
    var path := workDir;

    while true
      invariant WantedVersion(fs, parsers, path) == WantedVersion(fs, parsers, workDir)
      decreases |path|
    {
      var version := ReadNodeVersion(fs, parsers, path);
      if version.Some? {
        return version;
      }

      match Parent(path)
      case None =>
        break;
      case Some(parentPath) =>
        path := parentPath;
    }

    return None;
  }
}
