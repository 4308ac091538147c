/**
 * The local version store (`shared/src/local.rs`): where the store is, where
 * an installed executable lives, and which versions are installed. Reading
 * the environment, canonicalizing a path and listing a directory are the
 * operating system's business; they reach the model as parameters.
 */
module Local {
  import opened Wrappers
  import opened Paths
  import opened SemVer

  datatype LocalError = UnableToResolve(path: Path) | UnableToReadDir(path: Path)

  /**
   * One item of a `read_dir` listing: an entry that could not be read, or an
   * entry whose name is `None` when it is not valid Unicode.
   */
  datatype DirEntry = Unreadable | Entry(name: Option<string>)

  const NvmDirVariable := "NVM_DIR"
  const DefaultNvmDir := "~/.nvm"

  /**
   * The store root as configured, before canonicalization: the value of
   * `NVM_DIR`, or else the literal `~/.nvm`, which is a relative path whose
   * first component is `~` (no home-directory expansion takes place).
   */
  function RawNvmDir(env: map<string, string>): (p: Path)
    ensures NvmDirVariable in env ==> p == PathFrom(env[NvmDirVariable])
    ensures NvmDirVariable !in env ==> p == [Normal("~"), Normal(".nvm")]
  {
    DefaultNvmDirIsRelative();
    PathFrom(if NvmDirVariable in env then env[NvmDirVariable] else DefaultNvmDir)
  }

  /** The default store root is read as the two relative components `~` and `.nvm`. */
  lemma DefaultNvmDirIsRelative()
    ensures PathFrom(DefaultNvmDir) == [Normal("~"), Normal(".nvm")]
  {
    var p := [Normal("~"), Normal(".nvm")];
    assert WellFormedPath(p);
    assert p[1..] == [Normal(".nvm")];
    assert PathText(p) == "~" + "/" + ".nvm" == DefaultNvmDir;
    PathFromPathText(p);
  }

  /** `get_nvm_dir`: the canonical store root, or the configured path that failed to resolve. */
  function GetNvmDir(env: map<string, string>, canonicalize: Path -> Option<Path>): (r: Result<Path, LocalError>)
    ensures r.Ok? <==> canonicalize(RawNvmDir(env)).Some?
    ensures r.Ok? ==> canonicalize(RawNvmDir(env)) == Some(r.value)
    ensures r.Err? ==> r.error == UnableToResolve(RawNvmDir(env))
  {
    var raw := RawNvmDir(env);
    match canonicalize(raw)
    case Some(p) => Ok(p)
    case None => Err(UnableToResolve(raw))
  }

  /** The directory holding one subdirectory per installed Node version. */
  function VersionsDir(root: Path): (r: Path)
    ensures |r| == |root| + 2 && r[..|root|] == root
    ensures r[|root|..] == [Normal("versions"), Normal("node")]
  {
    Join(Join(root, "versions"), "node")
  }

  /**
   * Where the executable `name` of `version` lives under the store `root`:
   * in the `bin` directory of the subdirectory `v<version>` of the directory
   * the inventory lists. A plain file name adds exactly five components.
   */
  function ExecutableLocation(root: Path, version: Version, name: string): (p: Path)
    ensures name != [] && name[0] == '/' ==> p == PathFrom(name)
    ensures !(name != [] && name[0] == '/') ==>
              && |p| >= |root| + 4
              && p[..|root| + 4] == VersionsDir(root) + [Normal("v" + VersionText(version)), Normal("bin")]
              && p[|root| + 4..] == PathFrom(name)
    ensures ValidName(name) ==>
              p[|root|..] == [Normal("versions"), Normal("node"), Normal("v" + VersionText(version)),
                              Normal("bin"), Normal(name)]
  {
    Pushed(Join(Join(VersionsDir(root), "v" + VersionText(version)), "bin"), name)
  }

  /** The fixed directory names of the store are single components. */
  lemma StoreNamesAreValid()
    ensures ValidName("versions") && ValidName("node") && ValidName("bin")
  {
    assert forall i :: 0 <= i < |"versions"| ==> "versions"[i] != '/';
    assert forall i :: 0 <= i < |"node"| ==> "node"[i] != '/';
    assert forall i :: 0 <= i < |"bin"| ==> "bin"[i] != '/';
  }

  /**
   * For a well-formed version the directory name `v<version>` is one path
   * component even when parsed as a path, so appending it as a single
   * component is what pushing the string does.
   */
  lemma VersionDirNameIsOneComponent(version: Version)
    requires WellFormed(version)
    ensures ValidName("v" + VersionText(version))
    ensures PathFrom("v" + VersionText(version)) == [Normal("v" + VersionText(version))]
  {
    var name := "v" + VersionText(version);
    VersionTextIsOneComponent(version);
    assert name[0] == 'v' && name[1..] == VersionText(version);
    assert '/' !in name;
    assert Segments(name) == [name];
    assert name != "" && name != ".";
    assert NormalComponents([name]) == [Normal(name)];
  }

  /**
   * `get_executable_path`: the canonical path of the executable
   * `executableName` of `version`, a version the grammar can produce.
   */
  method GetExecutablePath(version: Version, executableName: string,
                           env: map<string, string>, canonicalize: Path -> Option<Path>)
    returns (r: Result<Path, LocalError>)
    requires WellFormed(version)
    ensures GetNvmDir(env, canonicalize).Err? ==> r == Err(GetNvmDir(env, canonicalize).error)
    ensures GetNvmDir(env, canonicalize).Ok? ==>
      var location := ExecutableLocation(GetNvmDir(env, canonicalize).value, version, executableName);
      r == if canonicalize(location).Some? then Ok(canonicalize(location).value)
           else Err(UnableToResolve(location))
  {
    var root := GetNvmDir(env, canonicalize);
    if root.Err? {
      return Err(root.error);
    }
    StoreNamesAreValid();
    var pathBuf := new PathBuf(root.value);
    pathBuf.Push("versions");
    pathBuf.Push("node");
    VersionDirNameIsOneComponent(version);
    pathBuf.Push("v" + VersionText(version));
    pathBuf.Push("bin");
    pathBuf.Push(executableName);
    match canonicalize(pathBuf.components)
    case Some(p) => r := Ok(p);
    case None => r := Err(UnableToResolve(pathBuf.components));
  }

  /** The version an entry names: only readable entries whose Unicode name parses. */
  function EntryVersion(entry: DirEntry, parse: string -> Option<Version>): (v: Option<Version>)
    ensures v.Some? <==> entry.Entry? && entry.name.Some? && parse(entry.name.value).Some?
    ensures v.Some? ==> v == parse(entry.name.value)
  {
    match entry
    case Entry(Some(name)) => parse(name)
    case _ => None
  }

  /**
   * The versions named by a listing, in listing order; entries that cannot be
   * read, are not Unicode or do not parse are dropped without error.
   */
  function VersionsOf(entries: seq<DirEntry>, parse: string -> Option<Version>): (r: seq<Version>)
    ensures |r| <= |entries|
    ensures forall v :: v in r ==> exists i :: 0 <= i < |entries| && EntryVersion(entries[i], parse) == Some(v)
  {
    if entries == [] then []
    else
      var rest := VersionsOf(entries[1..], parse);
      assert forall v :: v in rest ==> exists i :: 0 <= i < |entries| && EntryVersion(entries[i], parse) == Some(v) by {
        forall v | v in rest
          ensures exists i :: 0 <= i < |entries| && EntryVersion(entries[i], parse) == Some(v)
        {
          var i :| 0 <= i < |entries[1..]| && EntryVersion(entries[1..][i], parse) == Some(v);
          assert EntryVersion(entries[i + 1], parse) == Some(v);
        }
      }
      match EntryVersion(entries[0], parse)
      case Some(v) => [v] + rest
      case None => rest
  }

  /** Listing order is kept: the versions of a concatenation are the concatenation of the versions. */
  lemma {:induction false} VersionsOfAppend(a: seq<DirEntry>, b: seq<DirEntry>, parse: string -> Option<Version>)
    ensures VersionsOf(a + b, parse) == VersionsOf(a, parse) + VersionsOf(b, parse)
  {
    if a == [] {
      assert a + b == b;
    } else {
      assert (a + b)[0] == a[0] && (a + b)[1..] == a[1..] + b;
      VersionsOfAppend(a[1..], b, parse);
    }
  }

  /** Every entry whose name parses contributes its version. */
  lemma {:induction false} VersionsOfComplete(entries: seq<DirEntry>, parse: string -> Option<Version>, i: nat)
    requires i < |entries| && EntryVersion(entries[i], parse).Some?
    ensures EntryVersion(entries[i], parse).value in VersionsOf(entries, parse)
  {
    if i > 0 {
      VersionsOfComplete(entries[1..], parse, i - 1);
    }
  }

  /**
   * `list_local_versions`: the versions installed under `<root>/versions/node`,
   * or the error that stopped the listing.
   */
  method ListLocalVersions(env: map<string, string>, canonicalize: Path -> Option<Path>,
                           readDir: Path -> Option<seq<DirEntry>>, parse: string -> Option<Version>)
    returns (r: Result<seq<Version>, LocalError>)
    ensures GetNvmDir(env, canonicalize).Err? ==> r == Err(GetNvmDir(env, canonicalize).error)
    ensures GetNvmDir(env, canonicalize).Ok? ==>
      var dir := VersionsDir(GetNvmDir(env, canonicalize).value);
      r == if readDir(dir).Some? then Ok(VersionsOf(readDir(dir).value, parse))
           else Err(UnableToReadDir(dir))
  {
    var root := GetNvmDir(env, canonicalize);
    if root.Err? {
      return Err(root.error);
    }
    StoreNamesAreValid();
    var versionsDir := new PathBuf(root.value);
    versionsDir.Push("versions");
    versionsDir.Push("node");
    match readDir(versionsDir.components)
    case Some(entries) => r := Ok(VersionsOf(entries, parse));
    case None => r := Err(UnableToReadDir(versionsDir.components));
  }
}
