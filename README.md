# cyclecloud-guac packaging script, modelled in Dafny

`package.py` builds the release tarball of the CycleCloud Guacamole
integration. The script:

1. Builds the project's own source distribution and moves it into `libs/`.
2. Obtains the two pinned dependencies, scalelib and cyclecloud_api. Each one is
   copied from a command-line override or downloaded with curl.
3. Opens `dist/cyclecloud-guac-pkg-<VERSION>.tar.gz`.
4. Adds the libraries below `cyclecloud-guac/packages/`.
5. Lets `pip download` resolve their dependencies into a scratch directory.
6. Groups the scratch files by inferred package name and aborts when a
   package has two files.
7. Adds the scratch files, except the legacy `certifi-20*` releases.
8. Adds the four installer files, each with its own permission bits.

The model keeps that decision layer and replaces the surroundings with inputs.

- **Outcomes** (`outcomes.dfy`): how a run ends. This is either `Pass` or
  `Fail` with a reason: a failed tool, the wrong number of sdists, a missing
  override, a failed download, a missing file, the `IndexError` of a file
  named `cyclecloud`, or a duplicate package. It also defines the process exit
  status: 0 for a pass and 1 for any failure.
- **Paths** (`paths.dfy`): the parts of `posixpath` the script uses. These
  are `join`, `basename`, and `abspath` built from `normpath` on an absolute
  path. The working-directory resolver is a parameter `abspath` everywhere;
  `Paths.Resolver(cwd)` gives the posixpath one.
- **PackageNames** (`package_names.dfy`):
  - `split("-", 1)`;
  - the package-name rule with its `cyclecloud` namespace case;
  - reference definitions of the grouping: the files of a name and the key
    order;
  - the grouping loop over `by_package` as a method on a dictionary value (key
    order plus map);
  - the duplicate check, and the lemmas that connect them.
- **Tarball** (`tarball.dfy`): an `_add` call as a request (name, path,
  mode). The entry it writes is the planned entry of that request. The open
  archive is a class whose `Add` appends that entry, or fails with the missing
  source.
- **CycleLibs** (`cycle_libs.dfy`): `build_sdist` and `get_cycle_libs`. The
  file-system changes they make come back as a list of actions.
- **Packaging** (`packaging.dfy`): the version, the archive path, the `_add`
  requests the script makes, and the planned archive built from them (`Plan`).
  Each phase method, up to `execute`, appends its part of the plan up to the
  first request whose source file is missing (`Tarball.FirstMissing`).

## Model

| member | source | states |
|---|---|---|
| Paths.PathJoin | package.py:139 | joining onto an absolute directory (the scratch directory here, the working directory inside `abspath` at lines 60-61), or joining an absolute name, gives an absolute path |
| Paths.BasenameIsLastComponent | package.py:27 | the basename is the longest suffix without '/': it is a suffix, has no '/', and is the whole path or follows a '/' |
| Paths.BasenameOfJoin | package.py:27-28 | the basename of `d/f` is `f` for any name `f` without '/' |
| Paths.SplitAtSep | package.py:61-62 | splitting at a separator splits the two sides apart, as `normpath` relies on |
| Paths.ResolveConcat | package.py:61-62 | normalizing two runs of components is normalizing the first, then the second from there |
| Paths.AbsPathDotPrefix | package.py:61-62 | under every working directory, `abspath("./" + p)` equals `abspath(p)` for a relative `p` |
| PackageNames.FindSpec | package.py:122 | the first-occurrence search returns -1 exactly when the separator is absent, and otherwise an index holding it with none before it |
| PackageNames.SplitOnceSpec | package.py:122 | `split("-", 1)` gives one token equal to the name exactly when there is no '-', and otherwise the '-'-free text before the first '-' and the rest, which rejoin to the name |
| PackageNames.PackageName | package.py:122-125 | the name lookup fails (the `toks[1]` IndexError) exactly for a file named `cyclecloud` |
| PackageNames.PackageNameShape | package.py:122-125 | a file starting with `cyclecloud-` is named by its whole file name; any other file (except `cyclecloud`) is named by the '-'-free prefix that ends at its first '-' or at its end |
| PackageNames.NamespaceSplit | package.py:122-124 | the first token is `cyclecloud` with a second token after it exactly when the file name starts with `cyclecloud-` |
| PackageNames.NamespaceNamesAreDistinct | package.py:124-125 | two `cyclecloud-` files share a package name exactly when they are the same file name |
| PackageNames.LegacyCertifiName | package.py:136 | every `certifi-20*` file is grouped under the package `certifi` |
| PackageNames.FilesNamedMembers | package.py:120-128 | a file is in the group of `k` exactly when it is listed and its package name is `k` |
| PackageNames.NameOrderMembers | package.py:126-127 | a name is a dictionary key exactly when its group holds a file |
| PackageNames.NameOrderNoDuplicates | package.py:126-127 | each key is inserted once |
| PackageNames.FilesNamedPrefix | package.py:128 | groups keep listing order: the group built from a prefix of the listing is a prefix of the final group |
| PackageNames.GroupsPartitionListing | package.py:120-128 | when every file has a name, the group sizes over all keys add up to the number of listed files |
| PackageNames.GroupingOfMatches | package.py:120-128 | the dictionary the loop body builds has the names as keys, in order of first appearance, and each group is exactly the files of its name in listing order |
| PackageNames.GroupByPackage | package.py:120-128 | the grouping loop fails exactly when a file is named `cyclecloud`, with that IndexError; otherwise it returns the key order and the groups of the reference definitions |
| PackageNames.FirstDuplicateOfListing | package.py:126-133 | the key the check reports is the first name, in order of first appearance, whose files number more than one; every earlier name has at most one file |
| PackageNames.CheckDuplicates | package.py:130-133 | the check passes exactly when every group has at most one file; otherwise it reports the first key, in insertion order, with more than one file, together with that key's files |
| PackageNames.SmallGroups | package.py:130-133 | a dictionary that passes the check leaves no package name of the listing with two files |
| PackageNames.DuplicateIffSharedName | package.py:130-131 | a name has more than one file exactly when two listed files share it |
| PackageNames.TwoLegacyCertifisAreDuplicates | package.py:130-138 | two `certifi-20*` files in the scratch directory always fail the duplicate check, before the certifi filter runs |
| PackageNames.DistinctPackages | package.py:130-133 | after a passed check, no two listed files share a package name |
| Tarball.Truncate | package.py:104 | `int()` of the modification time truncates toward zero |
| Tarball.PlannedMetadata | package.py:100-106 | the entry of a request whose source (`path or name`) is on disk is named `cyclecloud-guac/` + name, is read from that source, has its size and its mtime truncated toward zero, and has mode 0o644 unless a nonzero mode is given, which then replaces it |
| Tarball.TarArchive.constructor | package.py:94-96 | a new archive at the given path with no entries |
| Tarball.TarArchive.Add | package.py:100-109 | `_add` passes exactly when the source is on disk and then appends exactly the planned entry; otherwise it fails with the source missing and leaves the archive unchanged |
| CycleLibs.SdistMatches | package.py:24 | the glob returns exactly the listed names that match `cyclecloud-guac-*.tar.gz`, each as many times as it is listed and no other name |
| CycleLibs.OneSdist | package.py:24-25 | the glob returns exactly one name exactly when exactly one entry of the listing matches |
| CycleLibs.MoveSdist | package.py:26-31 | the match is moved from `dist/<f>` to `libs/<f>` for a '/'-free name `f`, preceded by a removal of the destination exactly when it exists |
| CycleLibs.BuildSdist | package.py:21-32 | the build succeeds exactly when setup.py succeeds and the glob matches once, with the two failures told apart. On success the match is moved from dist/ to libs/, and a file already there is removed first exactly when one exists |
| CycleLibs.RerunSeesPreviousArchive | package.py:24-25 | a previous run's `cyclecloud-guac-pkg-<v>.tar.gz` left in dist/ makes the glob see two sdists, and build_sdist stops |
| CycleLibs.FirstUnavailable | package.py:53-69 | the index of the first dependency whose override is missing or whose URL cannot be fetched; every earlier one is available |
| CycleLibs.ObtainDependency | package.py:54-69 | one dependency is obtained exactly when its override exists or its URL is fetchable. It contributes the override's basename or the canonical name, copies only when the resolved source and destination differ, and otherwise fails with no action |
| CycleLibs.ObtainAll | package.py:53-69 | the loop yields the chosen names and actions of the dependencies before the first unavailable one, and passes exactly when there is none, failing with that dependency's reason otherwise |
| CycleLibs.GetCycleLibs | package.py:35-71 | the library list is the sdist name, then one name per pinned dependency in declaration order; the run stops at the first failure and does nothing after it |
| CycleLibs.NoSelfCopy | package.py:59-63 | no copy action has equal source and destination |
| CycleLibs.OverrideInLibsIsNotCopied | package.py:59-64 | an override `libs/<f>` contributes `f` and is used in place without a copy |
| CycleLibs.OverrideSpellingsNotCopied | package.py:59-64 | under posixpath's abspath, an override spelled `./libs/<f>`, or `<cwd>/libs/<f>` for a working directory without a trailing '/', contributes `f` and is not copied |
| CycleLibs.DefaultLibs | package.py:38-68 | without overrides the names are the canonical scalelib and cyclecloud_api files, and both URLs are downloaded into libs/ under them |
| Packaging.ArchiveLocation | package.py:94-96 | for a version without '/', the archive is `dist` joined with `cyclecloud-guac-pkg-<v>.tar.gz`, and that is its basename |
| Packaging.ArchiveMatchesSdistGlob | package.py:94-96 | every release archive name matches the sdist glob of build_sdist |
| Packaging.UnofficialArchive | package.py:15-18 | without VERSION the archive path is `dist/cyclecloud-guac-pkg-unofficial.tar.gz` |
| Packaging.ScratchKeptMembers | package.py:135-138 | a scratch file is added exactly when it is listed and does not start with `certifi-20` |
| Packaging.ScratchKeptAll | package.py:135-140 | a listing without `certifi-20*` files is added whole, in order |
| Packaging.ScratchKeptPrefix | package.py:135-140 | what is added for a prefix of the listing precedes what is added for the whole listing |
| Packaging.PlanNames | package.py:111-145 | the planned archive's member names are exactly the planned names below `cyclecloud-guac/`: the library names, then the kept scratch names, then the installer names |
| Packaging.PlanSources | package.py:112-145 | each planned library is read from its resolved path below libs/, each kept scratch file from the scratch directory, each installer file from its own name |
| Packaging.PlanModes | package.py:111-145 | every member below `packages/` keeps the default mode 0o644; each installer file on disk carries its own st_mode, or 0o644 when that st_mode is 0 |
| Packaging.PlanStats | package.py:103-104 | every planned member whose source is on disk has that file's size and its mtime truncated toward zero |
| Packaging.AddWithOwnMode | package.py:142 | an installer file that exists goes in as the planned entry with its own st_mode; a missing one fails (os.stat raises) and leaves the archive unchanged |
| Packaging.AddLib | package.py:112-115 | a library goes in as the planned entry `packages/<lib>` read from its resolved path below libs/, and that path is the one handed to pip; a missing one leaves the archive unchanged |
| Tarball.FirstMissing | package.py:103-108 | the index of the first request whose source is missing (the `getsize` that raises): every earlier source is on disk and, when below the count, the source at that index is not |
| Tarball.FirstMissingAt | package.py:103-108 | an index with every earlier source on disk and its own source missing (or the end) is the first missing index |
| Tarball.FirstMissingConcat | package.py:111-145 | the first missing request of two runs in sequence is the first missing of the first run, or, when that run is complete, its length plus the first missing of the second |
| Packaging.RequestsFirstMissing | package.py:111-145 | the whole run stops in the library phase when a library is missing, and otherwise at the library count plus the first missing scratch or installer request |
| Packaging.KeptOnDisk | package.py:135-140 | every kept scratch file is on disk exactly when the first missing scratch request is past the last one |
| Packaging.AddLibs | package.py:111-115 | the archive grows by exactly the library entries before the first library whose resolved path is missing, every earlier one being on disk; a failure names that path. The run passes exactly when every library is on disk, and then every entry is in and pip gets every resolved path in order |
| Packaging.AddScratchFile | package.py:139-140 | a scratch file goes in as the planned entry `packages/<fil>` read from the scratch directory, or fails when it is missing and leaves the archive unchanged |
| Packaging.AddScratch | package.py:135-140 | the archive grows by exactly the entries of the non-certifi scratch files, in listing order, that come before the first kept file missing from the scratch directory; a failure names that file's path. All are added exactly when all are on disk |
| Packaging.AddAuxFiles | package.py:142-145 | the archive grows by exactly the installer entries, in their fixed order, before the first installer file that is missing, every earlier one being on disk; a failure names that file. All four are added exactly when all exist |
| Packaging.BundleScratch | package.py:117-140 | nothing is added when pip fails, a file is named `cyclecloud` or a package has two files; otherwise exactly the scratch entries before the first missing kept file, whose path the failure names, and all of them exactly when the kept files exist. A run fails with a duplicate exactly when pip succeeds, no file is named `cyclecloud` and a package has two files; it then reports the first name in key order with more than one file, and its files. On success no two scratch files share a package |
| Packaging.AddScratchAndAux | package.py:117-145 | nothing is added when pip, a file name or the duplicate check fails; otherwise the archive grows by exactly the scratch entries followed by the installer entries that come before the first missing source, and by all of them exactly under the conditions of both phases. It fails with a duplicate exactly when pip succeeds, no file is named `cyclecloud` and a package has two files |
| Packaging.BuildArchive | package.py:91-145 | the new archive at `dist/cyclecloud-guac-pkg-<v>.tar.gz` holds exactly the planned entries (name, source, size, mtime, mode) before the first request whose source is missing. When pip, a file name or the duplicate check fails it holds the library entries before the first missing library, which is all of them when every library exists. It holds the whole plan when libraries, pip, the duplicate check, scratch files and installer files all succeed. The run fails with a duplicate exactly when every library exists, pip succeeds, no file is named `cyclecloud` and a package has two files |
| Packaging.Execute | package.py:74-145 | the whole run: the library list and actions of get_cycle_libs, and no archive exactly when they fail. A missing override ends the run with exit status 1 before the archive exists. Otherwise the archive holds exactly the planned entries before the first missing source, only the library part of that when pip, a file name or the duplicate check fails, and the whole plan when every stage succeeds. On success the scratch packages are distinct. The run fails with a duplicate exactly when the libraries are obtained and on disk, pip succeeds, no file is named `cyclecloud` and a package has two files, and it then reports the first duplicated name |

## Left out

- Subprocesses (`setup.py sdist`, curl, `pip download`) are inputs. Whether they succeed, the listing of `dist/` after the build, the URLs curl can fetch and the scratch listing after pip are given, not computed.
- The file system is a snapshot. Existing paths are a set of absolute paths and the files read while the archive is written are a map to size, mtime and mode. These do not follow from the copies, moves and downloads that get_cycle_libs returns as actions.
- Both `os.listdir(build_dir)` calls see the same listing, in the given order; Python leaves that order arbitrary.
- `os.chdir`, `os.makedirs("libs")`, `os.makedirs("dist")` and `tempfile.mkdtemp` have no model. The working directory is the resolver parameter and the scratch directory is a given absolute path.
- Argument parsing and the `VERSION` environment variable are inputs: `Args` holds the two override options and `Option<string>` the variable.
- The bytes of the files and the tar and gzip encoding are not modelled. An entry holds its name, source path, size, truncated mtime and mode.
- `os.path.abspath` is `posixpath.join` onto the working directory followed by `normpath` of the absolute result. As in Python, symbolic links and `~` are not resolved.
- The printed messages (stderr diagnostics, "Downloaded", "Using build dir", the warnings) are not modelled.
- Why a tool failed is only a tag. Every failure ends the run with exit status 1, which is what CPython does for `sys.exit(1)` and for an uncaught exception.
- Outcomes.ExitStatus: under `python -O` the asserts at lines 25 and 133 are stripped. The run then goes on with the first of several sdists, or with a duplicated package. The model always treats both as failures with status 1.
- Packaging.BuildArchive: `gzopen` fails with FileNotFoundError when VERSION contains '/', because the directory `dist/cyclecloud-guac-pkg-<everything before the last '/'>` is not created. The model opens the archive at that path regardless; `Packaging.ArchiveLocation` needs a version without '/'.
- CycleLibs.ObtainDependency: whether an override exists is looked up by its normalized absolute path (`CycleLibs.Available`), while `os.path.exists` at line 56 lets the kernel walk the path as written, one component at a time. The two differ for a `..` after a directory that does not exist or after a symbolic link: with working directory `/w`, `/w/libs/f` present and `/w/n` absent, `--scalelib n/../libs/f` ends the script with status 1, but the model finds the override and uses it in place.
- CycleLibs.ObtainDependency: copies, moves and removals cannot fail in the model. `shutil.copyfile` raises for an override that is a directory, and raises SameFileError when two different spellings name one file (a symbolic link, or `//libs/<f>` under the working directory `/`).
- The installer file `./conf/logging.conf` goes in as `cyclecloud-guac/./conf/logging.conf`, taken verbatim, since `TarInfo` keeps the name as given.
- The warning at line 137 calls a `certifi-20*` file a duplicate. But the duplicate check at lines 130-133 runs first, over the whole scratch listing. Two such files therefore abort the run instead of being skipped (`PackageNames.TwoLegacyCertifisAreDuplicates`).
- The archive file that stays behind on disk after a failure is not modelled; only the members written before the failure are.
