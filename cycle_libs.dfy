/** Building the project's own source distribution and obtaining the two
    pinned dependencies (package.py, lines 12-13 and 21-71). Subprocesses
    and the filesystem are inputs: whether `setup.py sdist` succeeds, the
    listing of dist/ afterwards, the absolute paths that exist, and the URLs
    curl can fetch. Paths are resolved by `abspath`, the process's
    os.path.abspath (Paths.Resolver gives the posixpath one). The copies,
    moves and downloads the script performs are returned as a list of
    actions. */
module CycleLibs {
  import opened Outcomes
  import opened Paths

  const ScalelibVersion: string := "0.2.7"
  const CyclecloudApiVersion: string := "8.1.0"

  const ScalelibFile: string := "cyclecloud-scalelib-" + ScalelibVersion + ".tar.gz"
  const CyclecloudApiFile: string := "cyclecloud_api-" + CyclecloudApiVersion + "-py2.py3-none-any.whl"

  const ScalelibUrl: string := "https://github.com/Azure/cyclecloud-scalelib/archive/" + ScalelibVersion + ".tar.gz"
  /** Fixed, independent of CyclecloudApiVersion. */
  const CyclecloudApiUrl: string := "https://github.com/Azure/cyclecloud-gridengine/releases/download/2.0.0/cyclecloud_api-8.0.1-py2.py3-none-any.whl"

  /** The glob `dist/cyclecloud-guac-*.tar.gz`, as a prefix and a suffix. */
  const SdistPrefix: string := "cyclecloud-guac-"
  const SdistSuffix: string := ".tar.gz"

  /** The two command-line options, `--scalelib` and `--cyclecloud-api`. */
  datatype Args = Args(scalelib: Option<string>, cyclecloudApi: Option<string>)

  /** One entry of `to_download`: canonical file name, override, URL. */
  datatype Dependency = Dependency(file: string, override: Option<string>, url: string)

  /** A change the script makes to the filesystem, with absolute paths. */
  datatype FsAction =
    | Remove(path: string)
    | Move(src: string, dst: string)
    | Copy(src: string, dst: string)
    | Download(url: string, dst: string)

  /** `to_download`, in declaration order: scalelib, then cyclecloud_api. */
  function PinnedDependencies(args: Args): seq<Dependency> {
    [ Dependency(ScalelibFile, args.scalelib, ScalelibUrl),
      Dependency(CyclecloudApiFile, args.cyclecloudApi, CyclecloudApiUrl) ]
  }

  // ---------------------------------------------------------------------
  // build_sdist
  // ---------------------------------------------------------------------

  /** fnmatch of `cyclecloud-guac-*.tar.gz`: the '*' may match any text. */
  predicate MatchesSdistGlob(name: string) {
    && |name| >= |SdistPrefix| + |SdistSuffix|
    && SdistPrefix <= name
    && name[|name| - |SdistSuffix|..] == SdistSuffix
  }

  /** The names in dist/ that the glob returns, in listing order. */
  function SdistMatches(listing: seq<string>): (r: seq<string>)
    ensures forall n :: n in r <==> n in listing && MatchesSdistGlob(n)
    ensures forall n :: multiset(r)[n] == if MatchesSdistGlob(n) then multiset(listing)[n] else 0
    decreases |listing|
  {
    if listing == [] then []
    else
      var init := listing[..|listing| - 1];
      var last := listing[|listing| - 1];
      assert listing == init + [last];
      SdistMatches(init) + (if MatchesSdistGlob(last) then [last] else [])
  }

  /** Entry `i` is the only entry of the listing that matches the glob. */
  predicate OnlyMatchAt(listing: seq<string>, i: int) {
    && 0 <= i < |listing|
    && MatchesSdistGlob(listing[i])
    && forall j :: 0 <= j < |listing| && MatchesSdistGlob(listing[j]) ==> j == i
  }

  /** The glob returns nothing exactly when no entry matches. */
  lemma NoSdist(listing: seq<string>)
    ensures SdistMatches(listing) == [] <==> forall j :: 0 <= j < |listing| ==> !MatchesSdistGlob(listing[j])
  {
    if SdistMatches(listing) != [] {
      assert SdistMatches(listing)[0] in SdistMatches(listing);
    }
  }

  /** The glob returns exactly one name (the assert at line 25 holds)
      exactly when one entry of the listing matches. */
  lemma {:induction false} OneSdist(listing: seq<string>)
    ensures |SdistMatches(listing)| == 1 <==> exists i :: OnlyMatchAt(listing, i)
    decreases |listing|
  {
    if listing != [] {
      var init, last := listing[..|listing| - 1], listing[|listing| - 1];
      assert listing == init + [last];
      if MatchesSdistGlob(last) {
        OneSdistMatchingLast(init, last);
      } else {
        OneSdist(init);
        OneSdistOtherLast(init, last);
      }
    }
  }

  lemma OneSdistMatchingLast(init: seq<string>, last: string)
    requires MatchesSdistGlob(last)
    ensures |SdistMatches(init + [last])| == 1 <==> exists i :: OnlyMatchAt(init + [last], i)
  {
    var listing := init + [last];
    assert listing[..|listing| - 1] == init;
    NoSdist(init);
    if |SdistMatches(listing)| == 1 {
      assert OnlyMatchAt(listing, |init|);
    }
    if i :| OnlyMatchAt(listing, i) {
      assert i == |init|;
      forall j | 0 <= j < |init| ensures !MatchesSdistGlob(init[j]) {
        assert listing[j] == init[j];
      }
    }
  }

  lemma OneSdistOtherLast(init: seq<string>, last: string)
    requires !MatchesSdistGlob(last)
    ensures SdistMatches(init + [last]) == SdistMatches(init)
    ensures forall i :: OnlyMatchAt(init + [last], i) <==> OnlyMatchAt(init, i)
  {
    var listing := init + [last];
    assert listing[..|listing| - 1] == init;
    assert forall j :: 0 <= j < |init| ==> listing[j] == init[j];
  }

  datatype SdistBuild = SdistBuild(fname: string, actions: seq<FsAction>)

  /** Lines 26-31: the match `dist/<sdist>` is moved to libs/<its basename>,
      after removing a file already there. */
  function MoveSdist(abspath: string -> AbsolutePath, sdist: string, present: set<string>): (b: SdistBuild)
    ensures var dest := abspath(PathJoin("libs", b.fname));
            && 1 <= |b.actions| <= 2
            && b.actions[|b.actions| - 1].Move?
            && b.actions[|b.actions| - 1].dst == dest
            && (|b.actions| == 2 <==> dest in present)
            && (|b.actions| == 2 ==> b.actions[0] == Remove(dest))
    ensures '/' !in sdist ==> b.fname == sdist && b.actions[|b.actions| - 1].src == abspath(PathJoin("dist", sdist))
  {
    var path := PathJoin("dist", sdist);
    var fname := Basename(path);
    assert '/' !in sdist ==> path == "dist" + "/" + sdist && fname == sdist by {
      if '/' !in sdist {
        assert !IsAbsolute(sdist);
        BasenameOfJoin("dist", sdist);
      }
    }
    var dest := abspath(PathJoin("libs", fname));
    var removal := if dest in present then [Remove(dest)] else [];
    SdistBuild(fname, removal + [Move(abspath(path), dest)])
  }

  /** build_sdist: run `setup.py sdist`, require exactly one match of the
      glob, and move it into libs/, removing a file already there. */
  function BuildSdist(abspath: string -> AbsolutePath, setupOk: bool, distListing: seq<string>, present: set<string>): (r: Result<SdistBuild>)
    ensures r.Ok? <==> setupOk && |SdistMatches(distListing)| == 1
    ensures !setupOk ==> r == Err(ToolFailed("setup.py sdist"))
    ensures setupOk && |SdistMatches(distListing)| != 1 ==> r == Err(SdistCount(|SdistMatches(distListing)|))
    ensures r.Ok? ==>
              var dest := abspath(PathJoin("libs", r.value.fname));
              && 1 <= |r.value.actions| <= 2
              && r.value.actions[|r.value.actions| - 1].Move?
              && r.value.actions[|r.value.actions| - 1].dst == dest
              && (|r.value.actions| == 2 <==> dest in present)
              && (|r.value.actions| == 2 ==> r.value.actions[0] == Remove(dest))
    ensures r.Ok? && (forall i :: 0 <= i < |distListing| ==> '/' !in distListing[i]) ==>
              && r.value.fname in distListing && MatchesSdistGlob(r.value.fname)
              && r.value.actions[|r.value.actions| - 1].src == abspath(PathJoin("dist", r.value.fname))
  {
    if !setupOk then Err(ToolFailed("setup.py sdist"))
    else
      var sdists := SdistMatches(distListing);
      if |sdists| != 1 then Err(SdistCount(|sdists|))
      else
        assert sdists[0] in sdists;
        Ok(MoveSdist(abspath, sdists[0], present))
  }

  /** A second run that finds the previous run's archive
      dist/cyclecloud-guac-pkg-<v>.tar.gz still in dist/ sees two matches of
      the sdist glob, and build_sdist's assertion stops it. */
  lemma RerunSeesPreviousArchive(abspath: string -> AbsolutePath, present: set<string>, sdist: string, version: string)
    requires MatchesSdistGlob(sdist)
    ensures BuildSdist(abspath, true, [sdist, "cyclecloud-guac-pkg-" + version + ".tar.gz"], present) == Err(SdistCount(2))
  {
    var archive := "cyclecloud-guac-pkg-" + version + ".tar.gz";
    assert archive == SdistPrefix + ("pkg-" + version) + SdistSuffix;
    assert archive[..|SdistPrefix|] == SdistPrefix;
    assert archive[|archive| - |SdistSuffix|..] == SdistSuffix;
    assert MatchesSdistGlob(archive);
    var l := [sdist, archive];
    assert l[..1] == [sdist];
    assert [sdist][..0] == [];
    assert SdistMatches([sdist]) == [sdist];
    assert SdistMatches(l) == [sdist, archive];
  }

  // ---------------------------------------------------------------------
  // get_cycle_libs
  // ---------------------------------------------------------------------

  /** `if arg_override:` - an override is used when it is given and not empty. */
  predicate Overridden(d: Dependency) {
    d.override.Some? && d.override.value != ""
  }

  /** The file name a dependency contributes to the lib list: the override's
      basename, or the canonical name of the downloaded file. */
  function ChosenFile(d: Dependency): string {
    if Overridden(d) then Basename(d.override.value) else d.file
  }

  /** Whether the step for `d` goes through: its override exists (looked up
      by its normalized absolute path), or curl fetches its URL. */
  predicate Available(abspath: string -> AbsolutePath, present: set<string>, fetchable: set<string>, d: Dependency)
  {
    if Overridden(d) then abspath(d.override.value) in present else d.url in fetchable
  }

  /** How the step for an unavailable dependency stops the run. */
  function Unavailable(d: Dependency): Failure {
    if Overridden(d) then OverrideMissing(d.override.value) else DownloadFailed(d.url)
  }

  /** What the step for `d` does to the filesystem when it goes through: the
      override is copied into libs/ unless it already is that file, otherwise
      the URL is downloaded to libs/<canonical name>. */
  function StepActions(abspath: string -> AbsolutePath, d: Dependency): seq<FsAction>
  {
    if Overridden(d) then
      var orig := abspath(d.override.value);
      var dest := abspath(PathJoin("libs", Basename(d.override.value)));
      if orig != dest then [Copy(orig, dest)] else []
    else [Download(d.url, abspath(PathJoin("libs", d.file)))]
  }

  function ChosenFiles(deps: seq<Dependency>): (r: seq<string>)
    ensures |r| == |deps|
    ensures forall i :: 0 <= i < |deps| ==> r[i] == ChosenFile(deps[i])
    decreases |deps|
  {
    if deps == [] then [] else ChosenFiles(deps[..|deps| - 1]) + [ChosenFile(deps[|deps| - 1])]
  }

  function AllActions(abspath: string -> AbsolutePath, deps: seq<Dependency>): seq<FsAction>
    decreases |deps|
  {
    if deps == [] then [] else AllActions(abspath, deps[..|deps| - 1]) + StepActions(abspath, deps[|deps| - 1])
  }

  /** The index of the first dependency whose step fails, or |deps|. */
  function FirstUnavailable(abspath: string -> AbsolutePath, present: set<string>, fetchable: set<string>, deps: seq<Dependency>): (n: nat)
    ensures n <= |deps|
    ensures forall i :: 0 <= i < n ==> Available(abspath, present, fetchable, deps[i])
    ensures n < |deps| ==> !Available(abspath, present, fetchable, deps[n])
    decreases |deps|
  {
    if deps == [] then 0
    else if !Available(abspath, present, fetchable, deps[0]) then 0
    else 1 + FirstUnavailable(abspath, present, fetchable, deps[1..])
  }

  /** One iteration of the loop over `to_download` (lines 54-69). */
  method ObtainDependency(abspath: string -> AbsolutePath, present: set<string>, fetchable: set<string>, d: Dependency)
    returns (fname: string, acts: seq<FsAction>, o: Outcome)
    ensures o.Pass? <==> Available(abspath, present, fetchable, d)
    ensures o.Pass? ==> fname == ChosenFile(d) && acts == StepActions(abspath, d)
    ensures o.Fail? ==> o.failure == Unavailable(d) && acts == []
  {
    if Overridden(d) {
      var ov := d.override.value;
      if abspath(ov) !in present {
        return "", [], Fail(OverrideMissing(ov));
      }
      fname := Basename(ov);
      var orig := abspath(ov);
      var dest := abspath(PathJoin("libs", fname));
      acts := if orig != dest then [Copy(orig, dest)] else [];
      return fname, acts, Pass;
    } else {
      if d.url !in fetchable {
        return "", [], Fail(DownloadFailed(d.url));
      }
      var dest := PathJoin("libs", d.file);
      return d.file, [Download(d.url, abspath(dest))], Pass;
    }
  }

  /** The loop over `to_download` (lines 53-69): one file name per
      dependency, in order; the first dependency that cannot be obtained
      stops the run before anything after it happens. */
  method ObtainAll(abspath: string -> AbsolutePath, present: set<string>, fetchable: set<string>, deps: seq<Dependency>)
    returns (files: seq<string>, actions: seq<FsAction>, o: Outcome)
    ensures var n := FirstUnavailable(abspath, present, fetchable, deps);
            && files == ChosenFiles(deps[..n])
            && actions == AllActions(abspath, deps[..n])
            && (o.Pass? <==> n == |deps|)
            && (n < |deps| ==> o == Fail(Unavailable(deps[n])))
  {
    files, actions := [], [];
    var i := 0;
    while i < |deps|
      invariant 0 <= i <= |deps|
      invariant forall j :: 0 <= j < i ==> Available(abspath, present, fetchable, deps[j])
      invariant files == ChosenFiles(deps[..i])
      invariant actions == AllActions(abspath, deps[..i])
    {
      assert deps[..i + 1][..i] == deps[..i];
      assert deps[..i + 1][i] == deps[i];
      var fname, acts, step := ObtainDependency(abspath, present, fetchable, deps[i]);
      if step.Fail? {
        assert FirstUnavailable(abspath, present, fetchable, deps) == i;
        return files, actions, step;
      }
      assert ChosenFiles(deps[..i + 1]) == ChosenFiles(deps[..i]) + [ChosenFile(deps[i])];
      assert AllActions(abspath, deps[..i + 1]) == AllActions(abspath, deps[..i]) + StepActions(abspath, deps[i]);
      actions := actions + acts;
      files := files + [fname];
      i := i + 1;
    }
    assert deps[..i] == deps;
    return files, actions, Pass;
  }

  /** get_cycle_libs: the sdist's file name, then one file name per pinned
      dependency in declaration order. */
  method GetCycleLibs(abspath: string -> AbsolutePath, args: Args, setupOk: bool, distListing: seq<string>,
                      present: set<string>, fetchable: set<string>)
    returns (libs: seq<string>, actions: seq<FsAction>, o: Outcome)
    ensures var b := BuildSdist(abspath, setupOk, distListing, present);
            b.Err? ==> o == Fail(b.failure) && libs == [] && actions == []
    ensures var b := BuildSdist(abspath, setupOk, distListing, present);
            var deps := PinnedDependencies(args);
            var n := FirstUnavailable(abspath, present, fetchable, deps);
            b.Ok? ==>
              && libs == [b.value.fname] + ChosenFiles(deps[..n])
              && actions == b.value.actions + AllActions(abspath, deps[..n])
              && (o.Pass? <==> n == |deps|)
              && (n < |deps| ==> o == Fail(Unavailable(deps[n])))
  {
    var b := BuildSdist(abspath, setupOk, distListing, present);
    if b.Err? {
      return [], [], Fail(b.failure);
    }
    var files, acts;
    files, acts, o := ObtainAll(abspath, present, fetchable, PinnedDependencies(args));
    libs := [b.value.fname] + files;
    actions := b.value.actions + acts;
  }

  /** The script never copies a file onto itself. */
  lemma {:induction false} NoSelfCopy(abspath: string -> AbsolutePath, deps: seq<Dependency>, k: nat)
    requires k < |AllActions(abspath, deps)| && AllActions(abspath, deps)[k].Copy?
    ensures AllActions(abspath, deps)[k].src != AllActions(abspath, deps)[k].dst
    decreases |deps|
  {
    var init := deps[..|deps| - 1];
    if k < |AllActions(abspath, init)| {
      NoSelfCopy(abspath, init, k);
    }
  }

  /** An override that already names libs/<f> is used in place, not copied,
      whatever the working directory. */
  lemma OverrideInLibsIsNotCopied(abspath: string -> AbsolutePath, d: Dependency, f: string)
    requires '/' !in f && f != ""
    requires d.override == Some("libs/" + f)
    ensures ChosenFile(d) == f
    ensures StepActions(abspath, d) == []
  {
    BasenameOfJoin("libs", f);
    assert "libs/" + f == "libs" + "/" + f;
  }

  /** Line 62 skips the copy for an override that already names the file in
      "libs", whether written "./libs/<f>" or "<cwd>/libs/<f>" under a
      working directory `cwd` that os.getcwd could return. */
  lemma OverrideSpellingsNotCopied(cwd: AbsolutePath, d: Dependency, f: string)
    requires '/' !in f
    requires d.override == Some("./libs/" + f) || (d.override == Some(cwd + "/libs/" + f) && cwd[|cwd| - 1] != '/')
    ensures Overridden(d) && ChosenFile(d) == f
    ensures StepActions(Resolver(cwd), d) == []
  {
    var ov := d.override.value;
    var rel := "libs/" + f;
    if ov == "./libs/" + f {
      assert ov == "./libs" + "/" + f;
      BasenameOfJoin("./libs", f);
      assert ov == "./" + rel;
      AbsPathDotPrefix(cwd, rel);
    } else {
      assert ov == cwd + "/libs" + "/" + f;
      BasenameOfJoin(cwd + "/libs", f);
      assert PathJoin(cwd, rel) == ov;
    }
    SameFileNotCopied(cwd, d, f);
  }

  /** An override whose absolute path is that of libs/<its basename> is not copied. */
  lemma SameFileNotCopied(cwd: AbsolutePath, d: Dependency, f: string)
    requires Overridden(d) && Basename(d.override.value) == f && '/' !in f
    requires AbsPath(cwd, d.override.value) == AbsPath(cwd, "libs/" + f)
    ensures StepActions(Resolver(cwd), d) == []
  {
    assert PathJoin("libs", f) == "libs/" + f;
  }

  /** Without overrides the two canonical file names follow the sdist, and
      both URLs are downloaded into libs/ under those names. */
  lemma DefaultLibs(abspath: string -> AbsolutePath)
    ensures var deps := PinnedDependencies(Args(None, None));
            && ChosenFiles(deps) == [ScalelibFile, CyclecloudApiFile]
            && AllActions(abspath, deps) == [
                 Download(ScalelibUrl, abspath(PathJoin("libs", ScalelibFile))),
                 Download(CyclecloudApiUrl, abspath(PathJoin("libs", CyclecloudApiFile)))]
  {
    var deps := PinnedDependencies(Args(None, None));
    assert deps[..|deps| - 1] == [deps[0]];
    assert [deps[0]][..0] == [];
  }
}
