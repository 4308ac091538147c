# Node launcher version resolution, modelled in Dafny

This project models the version-resolution core of the `nvm-rs` Node launcher. Given a working
directory, the launcher walks up the directory tree for a version pin. A pin is the `engines.node`
field of `package.json`, the contents of `.node-version`, or the contents of `.nvmrc`. The pin is
parsed into an npm-style range. The launcher then lists the versions installed in the local store
and picks the newest installed version that the range admits (the newest overall when no pin is
found). It also models the store helpers: locating the store root from `NVM_DIR`, building an
executable's path, and listing the installed versions.

Modules, one per concern:

- `Wrappers` (`wrappers.dfy`): `Option` and `Result`.
- `SemVer` (`semver.dfy`): `Version`, precedence as in section 11 of Semantic Versioning 2.0.0
  (proved a strict total order), the textual form `major.minor.patch[-pre]`, and `Range`, which is
  known only through its `test` predicate.
- `Paths` (`paths.dfy`): paths as sequences of components, `Path::parent`, `Path::join`,
  `PathBuf::from` with the text of a path as its inverse, and a `PathBuf` class whose `Push`
  extends it in place.
- `Manifest` (`manifest.dfy`): the `PackageJson` and `Engines` records.
- `Local` (`local.dfy`, for `shared/src/local.rs`): `get_nvm_dir`, `get_executable_path`, `list_local_versions`.
- `NodeLauncher` (`launcher.dfy`, for `node-launcher/src/main.rs`): `select`, `find_best_match`, `read_package_json`,
  `read_version_file`, `read_node_version` and `get_wanted_version`.

Several operations belong to the operating system or to foreign crates. These are parameters of
the model:

- the file system is a map from file path to readable text;
- the environment is a map from variable name to value;
- `canonicalize` and `read_dir` are partial functions;
- JSON decoding and range parsing are bundled as `Parsers`;
- version parsing is a partial function.

The model follows the code in these details, which a reader might expect to be otherwise:

- Version-file contents are handed to the range parser verbatim. The launcher does not trim them.
- Directory names are handed to the version parser verbatim. The launcher does not strip a leading
  `v` itself.
- The default store root `~/.nvm` is used without home-directory expansion. It is the relative path
  with components `~` and `.nvm` (`Local.DefaultNvmDirIsRelative`).
- Within one directory, the first pin present is final. If it does not parse, that directory yields
  nothing and the walk continues with the parent. The later files of that directory are not read.

## Model

| member | source | states |
|---|---|---|
| `SemVer.Less` | node-launcher/src/main.rs:72 | a lower major version always has lower precedence and a higher one never does; with equal numbers, a pre-release precedes the release and a release precedes nothing |
| `SemVer.LessIrreflexive` | node-launcher/src/main.rs:72 | no version is newer than itself |
| `SemVer.LessTransitive` | node-launcher/src/main.rs:72 | precedence is transitive |
| `SemVer.LessConnected` | node-launcher/src/main.rs:72 | any two distinct versions are ordered one way or the other |
| `SemVer.LessAsymmetric` | node-launcher/src/main.rs:72 | if `a < b` then not `b < a` |
| `SemVer.NotLessTransitive` | node-launcher/src/main.rs:72 | "not newer" is transitive, which is what the running maximum relies on |
| `SemVer.NatText` | shared/src/local.rs:34 | the numeral is a non-empty string of digits without a leading zero, `0` for zero |
| `SemVer.NatTextRoundTrip` | shared/src/local.rs:34 | reading back the decimal numeral used in `to_string` gives the number |
| `SemVer.VersionText` | shared/src/local.rs:34 | `to_string` starts with the major numeral and a dot, and contains a `-` exactly when there is a pre-release |
| `SemVer.VersionTextIsOneComponent` | shared/src/local.rs:34 | the text of a well-formed version is non-empty and contains no path separator |
| `Paths.Parent` | node-launcher/src/main.rs:90-99 | the parent drops exactly the last component; there is none for the empty path or the root |
| `Paths.Join` | node-launcher/src/main.rs:145 | joining a file name appends it as the last component, so the directory is the parent of the result |
| `Paths.PathFrom` | shared/src/local.rs:22 | a leading separator gives the root component; every other component is a non-empty name without separators |
| `Paths.PathFromPathText` | shared/src/local.rs:22 | `PathBuf::from` reads the text of any well-formed path back as that path |
| `Paths.Pushed` | shared/src/local.rs:32-36 | pushing an absolute string replaces the path by it; a relative one appends its components; a plain name appends exactly that one component |
| `Paths.PathBuf.Push` | shared/src/local.rs:32-36 | the buffer is updated in place to the pushed path |
| `Local.RawNvmDir` | shared/src/local.rs:17-22 | the configured root is `NVM_DIR` when set, else the unexpanded relative path `~`/`.nvm` |
| `Local.DefaultNvmDirIsRelative` | shared/src/local.rs:19-22 | the default `~/.nvm` reads as the relative components `~` and `.nvm` |
| `Local.GetNvmDir` | shared/src/local.rs:16-25 | succeeds exactly when canonicalization does; a failure carries the uncanonicalized path in `UnableToResolve` |
| `Local.VersionsDir` | shared/src/local.rs:42-44 | the listed directory is the root followed by exactly `versions` and `node` |
| `Local.ExecutableLocation` | shared/src/local.rs:31-36 | below the listed directory come `v<version>` and `bin`, then the pushed executable name; a plain name gives exactly five appended components, an absolute one replaces the path |
| `Local.VersionDirNameIsOneComponent` | shared/src/local.rs:34 | for a well-formed version, `v<version>` parsed as a path is that one component |
| `Local.GetExecutablePath` | shared/src/local.rs:27-39 | a root failure is passed through; otherwise the canonical executable path, or `UnableToResolve` with the uncanonicalized path |
| `Local.EntryVersion` | shared/src/local.rs:49-51 | an entry names a version exactly when it is readable, its name is Unicode and the name parses, and then it names that parse |
| `Local.VersionsOf` | shared/src/local.rs:46-52 | the listing yields no more versions than entries, and each is the parse of a readable Unicode entry name |
| `Local.VersionsOfAppend` | shared/src/local.rs:47-52 | listing order is kept: the versions of a concatenation are the concatenation of the versions |
| `Local.VersionsOfComplete` | shared/src/local.rs:49-51 | every readable Unicode entry name that parses contributes its version |
| `Local.ListLocalVersions` | shared/src/local.rs:41-59 | lists `<root>/versions/node`; a root failure is passed through; a listing failure is `UnableToReadDir` of that directory; otherwise the versions of the listing |
| `NodeLauncher.Select` | node-launcher/src/main.rs:70-80 | always `Some`; the result is one of the two inputs and not older than either; it replaces the best so far only with a strictly newer version |
| `NodeLauncher.SelectExtendsBestMatch` | node-launcher/src/main.rs:51-62 | folding an admitted version into the best match of a prefix gives the best match of the longer prefix |
| `NodeLauncher.FindBestMatch` | node-launcher/src/main.rs:45-68 | `NoLocalVersionsFound` exactly for an empty inventory; `NoMatchingVersion` exactly when the inventory is non-empty and nothing is admitted; otherwise an installed, admitted version that no admitted installed version is newer than |
| `NodeLauncher.BestMatchIsUnique` | node-launcher/src/main.rs:64-67 | at most one version qualifies as the best match |
| `NodeLauncher.ScenarioMajorRange` | node-launcher/src/main.rs:45-68 | with 16.20.0, 18.16.0, 18.17.1 and 20.5.0 installed and the range `18.x`, the best match is 18.17.1 |
| `NodeLauncher.ScenarioNoPin` | node-launcher/src/main.rs:50-53 | with the same inventory and no range, the best match is 20.5.0 |
| `NodeLauncher.ReadVersionFile` | node-launcher/src/main.rs:144-148 | the contents of `dir/name` exactly when that file can be read |
| `NodeLauncher.ReadPackageJson` | node-launcher/src/main.rs:122-134 | `None` exactly when the manifest is unreadable, is not valid JSON, lacks `engines`, or lacks `engines.node`; otherwise the `engines.node` string |
| `NodeLauncher.FirstPresent` | node-launcher/src/main.rs:106-119 | the first present pin is preceded only by absent ones; `None` exactly when all are absent |
| `NodeLauncher.Pins` | node-launcher/src/main.rs:106-117 | a directory has exactly three candidate pins |
| `NodeLauncher.ReadNodeVersion` | node-launcher/src/main.rs:106-120 | a directory's range is the parse of its first present pin, in the order `package.json`, `.node-version`, `.nvmrc`, and `None` when none is present |
| `NodeLauncher.UnparsablePinIsFinal` | node-launcher/src/main.rs:107-117 | a present pin that fails to parse makes the directory yield `None`, whatever the later files hold |
| `NodeLauncher.ManifestWithoutNodePinIsTransparent` | node-launcher/src/main.rs:107-113 | a manifest without an `engines.node` pin acts as if there were no manifest |
| `NodeLauncher.Walk` | node-launcher/src/main.rs:82-104 | a result of the upward walk is what the probe gives for one of the directories on the walk |
| `NodeLauncher.WalkNoneIffSilent` | node-launcher/src/main.rs:82-104 | the walk yields `None` exactly when the probe yields `None` for every directory from the start up to the root |
| `NodeLauncher.WalkIsNearest` | node-launcher/src/main.rs:82-104 | a result of the walk is the probe of the nearest directory that has one: every directory below it yields `None` |
| `NodeLauncher.WantedVersion` | node-launcher/src/main.rs:82-104 | a wanted range is the range `read_node_version` gives for one of the directories from the working directory up to the root |
| `NodeLauncher.WantedVersionNoneIffNoPin` | node-launcher/src/main.rs:82-104 | no range is wanted exactly when no directory from the working directory up to the root yields one |
| `NodeLauncher.WantedVersionIsNearestPin` | node-launcher/src/main.rs:82-104 | a wanted range is that of the nearest directory yielding one, the working directory first; all directories below it yield `None` |
| `NodeLauncher.GetWantedVersion` | node-launcher/src/main.rs:82-104 | the loop that walks up through the parents returns the range the upward walk settles on |

## Left out

- `main` and `run_executable` (node-launcher/src/main.rs:24-43) are not modelled: spawning the process, collecting and forwarding `env::args`, `current_dir` and waiting on the child are process I/O.
- The grammars of versions and ranges belong to the `semver_rs` crate. Version parsing and range parsing are parameters, and range membership is the uninterpreted `Range.test`.
- JSON decoding by `serde_json` is a parameter from text to an optional `PackageJson`.
- Build metadata is not part of `Version`. Precedence is therefore a strict total order in which equal precedence means equal versions.
- The file system, `canonicalize`, `read_dir` and the environment are snapshots given as parameters. Concurrent changes to the store between listing and launch are not modelled.
- `env::var` failing because the value is not Unicode is folded into "not set". The source treats both failures alike.
- `Local.GetExecutablePath` requires a version the grammar of Semantic Versioning 2.0.0 can produce (`SemVer.WellFormed`), so that `v<version>` is pushed as one component. The source's versions come from the `semver_rs` parser, which produces only such versions.
- `Paths.PathFrom` drops every `.` piece, keeps `..` as a named component and has no notion of a Windows prefix. The source keeps a leading `.` as a current-directory component and marks `..` as a parent-directory component; neither is normalized away in either case.
- The copy of the parent into a fresh `PathBuf` (node-launcher/src/main.rs:95-98) is an assignment of the parent path.
- The `node-version-clerk` command-line tool is not modelled: it only dispatches subcommands and prints the result of `list_local_versions`.
