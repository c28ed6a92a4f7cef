/** The script's entry point, `execute` in package.py (lines 74-145): obtain
    the wheel-house libraries, open the release archive, add the libraries,
    let pip download their dependencies into a scratch directory, refuse a
    scratch directory with two files of one package, add the scratch files
    and finally the four installer files. */
module Packaging {
  import opened Outcomes
  import opened Paths
  import opened PackageNames
  import opened Tarball
  import opened CycleLibs

  /** The version used when the VERSION environment variable is not set. */
  const UnofficialVersion: string := "unofficial"

  /** The installer files added last, each with its own permission bits. */
  const AuxFiles: seq<string> := ["install.sh", "generate_autoscale_json.sh", "requirements.txt", "./conf/logging.conf"]

  /** CYCLECLOUD_GUAC: the VERSION environment variable when it is set, even
      to the empty string, and "unofficial" otherwise. */
  function OutputVersion(versionEnv: Option<string>): string {
    if versionEnv.Some? then versionEnv.value else UnofficialVersion
  }

  /** The release archive's file name inside "dist". */
  function ArchiveFile(version: string): string {
    "cyclecloud-guac-pkg-" + version + ".tar.gz"
  }

  /** The path the release archive is opened at, relative to the script's directory. */
  function ArchivePath(version: string): string {
    "dist" + "/" + ArchiveFile(version)
  }

  /** The archive lies in "dist" under the file name ArchiveFile. */
  lemma ArchiveLocation(version: string)
    requires '/' !in version
    ensures Basename(ArchivePath(version)) == ArchiveFile(version)
    ensures ArchivePath(version) == PathJoin("dist", ArchiveFile(version))
  {
    assert '/' !in ArchiveFile(version) by {
      assert ArchiveFile(version) == "cyclecloud-guac-pkg-" + version + ".tar.gz";
    }
    BasenameOfJoin("dist", ArchiveFile(version));
  }

  /** A release archive left in "dist" matches the sdist glob of the next
      run, which then finds two candidate sdists and stops. */
  lemma ArchiveMatchesSdistGlob(version: string)
    ensures MatchesSdistGlob(ArchiveFile(version))
  {
    var f := ArchiveFile(version);
    assert f == SdistPrefix + ("pkg-" + version) + SdistSuffix;
    assert f[|f| - |SdistSuffix|..] == SdistSuffix;
  }

  /** Without VERSION the archive is dist/cyclecloud-guac-pkg-unofficial.tar.gz. */
  lemma UnofficialArchive()
    ensures ArchivePath(OutputVersion(None)) == "dist/cyclecloud-guac-pkg-unofficial.tar.gz"
  {
  }

  /** The names given to `_add` for files that go below "packages/". */
  function PackageEntries(files: seq<string>): (r: seq<string>)
    ensures |r| == |files|
    ensures forall i :: 0 <= i < |files| ==> r[i] == "packages/" + files[i]
  {
    seq(|files|, i requires 0 <= i < |files| => "packages/" + files[i])
  }

  /** The paths handed to pip: each library resolved below "libs". */
  function LibPaths(abspath: string -> AbsolutePath, libs: seq<string>): (r: seq<string>)
    ensures |r| == |libs|
    ensures forall i :: 0 <= i < |libs| ==> r[i] == abspath(PathJoin("libs", libs[i]))
  {
    seq(|libs|, i requires 0 <= i < |libs| => abspath(PathJoin("libs", libs[i])))
  }

  /** The scratch files the second pass adds: all but the legacy certifi
      releases, in listing order. */
  function ScratchKept(listing: seq<string>): seq<string>
    decreases |listing|
  {
    if listing == [] then []
    else
      var last := listing[|listing| - 1];
      ScratchKept(listing[..|listing| - 1]) + (if IsLegacyCertifi(last) then [] else [last])
  }

  /** A file is added exactly when it is listed and is not a legacy certifi release. */
  lemma {:induction false} ScratchKeptMembers(listing: seq<string>, f: string)
    ensures f in ScratchKept(listing) <==> f in listing && !IsLegacyCertifi(f)
    decreases |listing|
  {
    if listing != [] {
      var init := listing[..|listing| - 1];
      ScratchKeptMembers(init, f);
      assert listing == init + [listing[|listing| - 1]];
    }
  }

  /** A listing without legacy certifi releases is added whole, in order. */
  lemma {:induction false} ScratchKeptAll(listing: seq<string>)
    requires forall i :: 0 <= i < |listing| ==> !IsLegacyCertifi(listing[i])
    ensures ScratchKept(listing) == listing
    decreases |listing|
  {
    if listing != [] {
      var init := listing[..|listing| - 1];
      ScratchKeptAll(init);
      assert listing == init + [listing[|listing| - 1]];
    }
  }

  /** What the second pass adds for a prefix of the listing precedes what it
      adds for the whole listing. */
  lemma {:induction false} ScratchKeptPrefix(listing: seq<string>, n: nat)
    requires n <= |listing|
    ensures ScratchKept(listing[..n]) <= ScratchKept(listing)
    decreases |listing|
  {
    if n < |listing| {
      var init := listing[..|listing| - 1];
      assert init[..n] == listing[..n];
      ScratchKeptPrefix(init, n);
    } else {
      assert listing[..n] == listing;
    }
  }

  /** The archive the script plans, below the top-level directory: the
      libraries, the kept scratch files, the installer files. */
  function Manifest(libs: seq<string>, scratch: seq<string>): seq<string> {
    PackageEntries(libs) + PackageEntries(ScratchKept(scratch)) + AuxFiles
  }

  // ---------------------------------------------------------------------
  // The `_add` calls the script makes, and the members they write
  // ---------------------------------------------------------------------

  /** Lines 113-114: each library from its resolved path below "libs". */
  function LibRequests(abspath: string -> AbsolutePath, libs: seq<string>): (r: seq<Request>)
    ensures |r| == |libs|
    ensures forall i :: 0 <= i < |libs| ==> r[i] == Request("packages/" + libs[i], Some(LibPaths(abspath, libs)[i]), None)
  {
    seq(|libs|, i requires 0 <= i < |libs| => Request("packages/" + libs[i], Some(abspath(PathJoin("libs", libs[i]))), None))
  }

  /** Lines 139-140: each kept scratch file from the scratch directory. */
  function ScratchRequests(buildDir: AbsolutePath, kept: seq<string>): (r: seq<Request>)
    ensures |r| == |kept|
    ensures forall i :: 0 <= i < |kept| ==> r[i] == Request("packages/" + kept[i], Some(PathJoin(buildDir, kept[i])), None)
  {
    seq(|kept|, i requires 0 <= i < |kept| => Request("packages/" + kept[i], Some(PathJoin(buildDir, kept[i])), None))
  }

  /** `os.stat(f)[0]`, the st_mode of `f`, when `f` exists. */
  function OwnMode(abspath: string -> AbsolutePath, disk: Disk, f: string): Option<int> {
    if abspath(f) in disk then Some(disk[abspath(f)].mode) else None
  }

  /** Lines 142-145: each installer file by its own name, with its st_mode. */
  function AuxRequests(abspath: string -> AbsolutePath, disk: Disk): (r: seq<Request>)
    ensures |r| == |AuxFiles|
    ensures forall i :: 0 <= i < |AuxFiles| ==> r[i] == Request(AuxFiles[i], None, OwnMode(abspath, disk, AuxFiles[i]))
  {
    seq(|AuxFiles|, i requires 0 <= i < |AuxFiles| => Request(AuxFiles[i], None, OwnMode(abspath, disk, AuxFiles[i])))
  }

  /** Every `_add` call of a run in which every stage succeeds, in order. */
  function Requests(abspath: string -> AbsolutePath, disk: Disk, buildDir: AbsolutePath, libs: seq<string>, scratch: seq<string>): seq<Request> {
    LibRequests(abspath, libs) + ScratchRequests(buildDir, ScratchKept(scratch)) + AuxRequests(abspath, disk)
  }

  /** The archive the script writes when every stage succeeds, member by member. */
  function Plan(abspath: string -> AbsolutePath, disk: Disk, buildDir: AbsolutePath, libs: seq<string>, scratch: seq<string>): seq<Entry> {
    Entries(abspath, disk, Requests(abspath, disk, buildDir, libs, scratch))
  }

  /** The calls of a whole run stop at the first missing library, or else
      at the first missing scratch or installer file. */
  lemma RequestsFirstMissing(abspath: string -> AbsolutePath, disk: Disk, buildDir: AbsolutePath, libs: seq<string>, scratch: seq<string>)
    ensures var libReqs := LibRequests(abspath, libs);
      var m := FirstMissing(abspath, disk, libReqs);
      FirstMissing(abspath, disk, Requests(abspath, disk, buildDir, libs, scratch)) ==
        if m < |libs| then m
        else |libs| + FirstMissing(abspath, disk, ScratchRequests(buildDir, ScratchKept(scratch)) + AuxRequests(abspath, disk))
  {
    var a, b, c := LibRequests(abspath, libs), ScratchRequests(buildDir, ScratchKept(scratch)), AuxRequests(abspath, disk);
    assert a + b + c == a + (b + c);
    FirstMissingConcat(abspath, disk, a, b + c);
  }

  /** The planned members, in three parts. */
  lemma PlanParts(abspath: string -> AbsolutePath, disk: Disk, buildDir: AbsolutePath, libs: seq<string>, scratch: seq<string>)
    ensures Plan(abspath, disk, buildDir, libs, scratch) ==
      Entries(abspath, disk, LibRequests(abspath, libs))
      + (Entries(abspath, disk, ScratchRequests(buildDir, ScratchKept(scratch))) + Entries(abspath, disk, AuxRequests(abspath, disk)))
  {
    var a, b, c := LibRequests(abspath, libs), ScratchRequests(buildDir, ScratchKept(scratch)), AuxRequests(abspath, disk);
    EntriesConcat(abspath, disk, a + b, c);
    EntriesConcat(abspath, disk, a, b);
  }

  /** The planned members carry the planned names: the libraries, the kept
      scratch files and the installer files below `cyclecloud-guac/`. */
  lemma PlanNames(abspath: string -> AbsolutePath, disk: Disk, buildDir: AbsolutePath, libs: seq<string>, scratch: seq<string>)
    ensures EntryNames(Plan(abspath, disk, buildDir, libs, scratch)) == InTopDir(Manifest(libs, scratch))
    ensures EntryNames(Plan(abspath, disk, buildDir, libs, scratch)) ==
      InTopDir(PackageEntries(libs)) + InTopDir(PackageEntries(ScratchKept(scratch))) + InTopDir(AuxFiles)
  {
    InTopDirConcat(PackageEntries(libs) + PackageEntries(ScratchKept(scratch)), AuxFiles);
    InTopDirConcat(PackageEntries(libs), PackageEntries(ScratchKept(scratch)));
    var reqs := LibRequests(abspath, libs) + ScratchRequests(buildDir, ScratchKept(scratch)) + AuxRequests(abspath, disk);
    var m := Manifest(libs, scratch);
    assert |reqs| == |m|;
    forall i | 0 <= i < |reqs|
      ensures reqs[i].name == m[i]
    {
      var l, k := |libs|, |ScratchKept(scratch)|;
      if i < l {
      } else if i < l + k {
        assert reqs[i] == ScratchRequests(buildDir, ScratchKept(scratch))[i - l];
      } else {
        assert reqs[i] == AuxRequests(abspath, disk)[i - l - k];
      }
    }
  }

  /** Where each planned member is read from: a library from its resolved
      path below "libs", a scratch file from the scratch directory, an
      installer file from its own name. */
  lemma PlanSources(abspath: string -> AbsolutePath, disk: Disk, buildDir: AbsolutePath, libs: seq<string>, scratch: seq<string>, i: nat)
    ensures |Plan(abspath, disk, buildDir, libs, scratch)| == |libs| + |ScratchKept(scratch)| + |AuxFiles|
    ensures i < |libs| ==>
              Plan(abspath, disk, buildDir, libs, scratch)[i].source == LibPaths(abspath, libs)[i]
    ensures |libs| <= i < |libs| + |ScratchKept(scratch)| ==>
              Plan(abspath, disk, buildDir, libs, scratch)[i].source == PathJoin(buildDir, ScratchKept(scratch)[i - |libs|])
    ensures |libs| + |ScratchKept(scratch)| <= i < |libs| + |ScratchKept(scratch)| + |AuxFiles| ==>
              Plan(abspath, disk, buildDir, libs, scratch)[i].source == AuxFiles[i - |libs| - |ScratchKept(scratch)|]
  {
    var kept := ScratchKept(scratch);
    var ra, rb, rc := LibRequests(abspath, libs), ScratchRequests(buildDir, kept), AuxRequests(abspath, disk);
    var reqs := ra + rb + rc;
    if i < |reqs| {
      var p := Plan(abspath, disk, buildDir, libs, scratch);
      assert p[i] == Planned(abspath, disk, reqs[i]);
      if i < |libs| {
        assert reqs[i] == ra[i];
      } else if i < |libs| + |kept| {
        assert reqs[i] == rb[i - |libs|];
      } else {
        assert reqs[i] == rc[i - |libs| - |kept|];
      }
    }
  }

  /** The permission bits of the planned members: every member below
      "packages/" keeps tarfile's default 0o644, and each installer file
      carries its own st_mode (the default again only for an st_mode of 0,
      which `if mode:` treats as absent). */
  lemma PlanModes(abspath: string -> AbsolutePath, disk: Disk, buildDir: AbsolutePath, libs: seq<string>, scratch: seq<string>)
    ensures var p := Plan(abspath, disk, buildDir, libs, scratch); var n := |libs| + |ScratchKept(scratch)|;
      && (forall i :: 0 <= i < n ==> p[i].mode == DefaultMode)
      && (forall i :: 0 <= i < |AuxFiles| && abspath(AuxFiles[i]) in disk ==>
            p[n + i].mode == (if disk[abspath(AuxFiles[i])].mode != 0 then disk[abspath(AuxFiles[i])].mode else DefaultMode))
  {
    PlanParts(abspath, disk, buildDir, libs, scratch);
  }

  /** Every planned member whose source is on disk has that file's size and
      truncated mtime. */
  lemma PlanStats(abspath: string -> AbsolutePath, disk: Disk, buildDir: AbsolutePath, libs: seq<string>, scratch: seq<string>, i: nat)
    requires i < |Plan(abspath, disk, buildDir, libs, scratch)|
    requires abspath(Plan(abspath, disk, buildDir, libs, scratch)[i].source) in disk
    ensures var e := Plan(abspath, disk, buildDir, libs, scratch)[i]; var st := disk[abspath(e.source)];
      && e.size == st.size
      && (0.0 <= st.mtime ==> e.mtime as real <= st.mtime < e.mtime as real + 1.0)
      && (st.mtime < 0.0 ==> e.mtime as real - 1.0 < st.mtime <= e.mtime as real)
  {
    var reqs := LibRequests(abspath, libs) + ScratchRequests(buildDir, ScratchKept(scratch)) + AuxRequests(abspath, disk);
    PlannedMetadata(abspath, disk, reqs[i]);
  }

  /** What the script's surroundings hold or do, as seen from execute:
      whether `setup.py sdist` succeeds and the listing of "dist" after it,
      the paths that exist and the URLs that can be fetched when the
      libraries are gathered, whether `pip download` succeeds and the
      listing of the scratch directory after it, and the files on disk
      while the archive is written. */
  datatype Host = Host(setupOk: bool, distListing: seq<string>, present: set<string>,
                       fetchable: set<string>, pipOk: bool, scratch: seq<string>, disk: Disk)

  /** get_cycle_libs returns, which is what lets execute open the archive. */
  predicate LibsObtained(abspath: string -> AbsolutePath, args: Args, h: Host) {
    && BuildSdist(abspath, h.setupOk, h.distListing, h.present).Ok?
    && FirstUnavailable(abspath, h.present, h.fetchable, PinnedDependencies(args)) == |PinnedDependencies(args)|
  }

  /** The libraries are on disk at the paths resolved below "libs". */
  predicate LibsOnDisk(abspath: string -> AbsolutePath, disk: Disk, libs: seq<string>) {
    forall i :: 0 <= i < |libs| ==> abspath(LibPaths(abspath, libs)[i]) in disk
  }

  /** The scratch files the second pass adds are on disk. */
  predicate ScratchOnDisk(abspath: string -> AbsolutePath, disk: Disk, buildDir: AbsolutePath, scratch: seq<string>) {
    forall i :: 0 <= i < |scratch| && !IsLegacyCertifi(scratch[i]) ==> abspath(PathJoin(buildDir, scratch[i])) in disk
  }

  /** The four installer files are on disk. */
  predicate AuxOnDisk(abspath: string -> AbsolutePath, disk: Disk) {
    forall i :: 0 <= i < |AuxFiles| ==> abspath(AuxFiles[i]) in disk
  }

  /** The scratch directory passes the duplicate check: no file is named
      plainly "cyclecloud" and no package has two files. */
  ghost predicate ScratchAccepted(scratch: seq<string>) {
    Namespace !in scratch && forall k :: |FilesNamed(scratch, k)| <= 1
  }

  // ---------------------------------------------------------------------
  // Filling the archive
  // ---------------------------------------------------------------------

  /** `_add("install.sh", mode=os.stat("install.sh")[0])`: stat raises on a
      missing file, otherwise the file goes in with its own st_mode. */
  method AddWithOwnMode(tf: TarArchive, abspath: string -> AbsolutePath, disk: Disk, name: string) returns (o: Outcome)
    requires tf.Valid()
    modifies tf
    ensures tf.Valid()
    ensures o.Pass? <==> abspath(name) in disk
    ensures o.Fail? ==> o.failure == MissingFile(name) && tf.entries == old(tf.entries)
    ensures o.Pass? ==> tf.entries == old(tf.entries) + [Planned(abspath, disk, Request(name, None, OwnMode(abspath, disk, name)))]
  {
    if abspath(name) !in disk {
      return Fail(MissingFile(name));
    }
    o := tf.Add(abspath, disk, Request(name, None, Some(disk[abspath(name)].mode)));
  }

  /** One turn of lines 112-115: the library goes in below "packages/" from
      its resolved path in "libs", and that path is the one pip is given. */
  method AddLib(tf: TarArchive, abspath: string -> AbsolutePath, disk: Disk, lib: string)
    returns (depPath: string, o: Outcome)
    requires tf.Valid()
    modifies tf
    ensures tf.Valid()
    ensures depPath == abspath(PathJoin("libs", lib))
    ensures o.Pass? <==> abspath(depPath) in disk
    ensures o.Fail? ==> o.failure == MissingFile(depPath) && tf.entries == old(tf.entries)
    ensures o.Pass? ==> tf.entries == old(tf.entries) + [Planned(abspath, disk, Request("packages/" + lib, Some(depPath), None))]
  {
    depPath := abspath(PathJoin("libs", lib));
    o := tf.Add(abspath, disk, Request("packages/" + lib, Some(depPath), None));
  }

  /** Lines 111-115: every library below "packages/", from its path in
      "libs"; the resolved paths are what pip is given. The first missing
      library stops the run after the libraries before it. */
  method AddLibs(tf: TarArchive, abspath: string -> AbsolutePath, disk: Disk, libs: seq<string>)
    returns (pipTargets: seq<string>, o: Outcome, ghost done: nat)
    requires tf.Valid()
    modifies tf
    ensures tf.Valid()
    ensures done <= |libs| && tf.entries == old(tf.entries) + Entries(abspath, disk, LibRequests(abspath, libs))[..done]
    ensures o.Pass? <==> LibsOnDisk(abspath, disk, libs)
    ensures o.Pass? ==> tf.entries == old(tf.entries) + Entries(abspath, disk, LibRequests(abspath, libs))
    ensures done == FirstMissing(abspath, disk, LibRequests(abspath, libs))
    ensures o.Pass? ==> pipTargets == LibPaths(abspath, libs)
    ensures o.Fail? ==> o.failure == MissingFile(LibPaths(abspath, libs)[done])
    ensures o.Fail? ==> done < |libs| && abspath(LibPaths(abspath, libs)[done]) !in disk
    ensures forall j :: 0 <= j < done ==> abspath(LibPaths(abspath, libs)[j]) in disk
  {
    ghost var before := tf.entries;
    ghost var reqs := LibRequests(abspath, libs);
    ghost var plan := Entries(abspath, disk, reqs);
    ghost var paths := LibPaths(abspath, libs);
    pipTargets := [];
    o := Pass;
    done := 0;
    var i := 0;
    while i < |libs|
      invariant 0 <= i <= |libs|
      invariant tf.Valid()
      invariant tf.entries == before + plan[..i]
      invariant pipTargets == paths[..i] && o == Pass && done == i
      invariant forall j :: 0 <= j < i ==> abspath(paths[j]) in disk
      invariant forall j :: 0 <= j < i ==> SourceOnDisk(abspath, disk, reqs[j])
    {
      var depPath;
      depPath, o := AddLib(tf, abspath, disk, libs[i]);
      assert depPath == paths[i] && Source(reqs[i]) == depPath;
      if o.Fail? {
        FirstMissingAt(abspath, disk, reqs, i);
        return;
      }
      assert plan[i] == Planned(abspath, disk, reqs[i]);
      assert plan[..i + 1] == plan[..i] + [plan[i]];
      pipTargets := pipTargets + [depPath];
      i := i + 1;
      done := i;
    }
    assert plan[..i] == plan;
    assert paths[..i] == paths;
    FirstMissingAt(abspath, disk, reqs, i);
  }

  /** One turn of lines 139-140: a scratch file goes in below "packages/"
      from its path in the scratch directory. */
  method AddScratchFile(tf: TarArchive, abspath: string -> AbsolutePath, disk: Disk, buildDir: AbsolutePath, fil: string)
    returns (o: Outcome)
    requires tf.Valid()
    modifies tf
    ensures tf.Valid()
    ensures o.Pass? <==> abspath(PathJoin(buildDir, fil)) in disk
    ensures o.Fail? ==> o.failure == MissingFile(PathJoin(buildDir, fil)) && tf.entries == old(tf.entries)
    ensures o.Pass? ==> tf.entries == old(tf.entries) + [Planned(abspath, disk, Request("packages/" + fil, Some(PathJoin(buildDir, fil)), None))]
  {
    var path := PathJoin(buildDir, fil);
    o := tf.Add(abspath, disk, Request("packages/" + fil, Some(path), None));
  }

  /** Lines 135-140: the scratch files in listing order, skipping the legacy
      certifi releases. */
  method AddScratch(tf: TarArchive, abspath: string -> AbsolutePath, disk: Disk, buildDir: AbsolutePath, scratch: seq<string>)
    returns (o: Outcome, ghost done: nat)
    requires tf.Valid()
    modifies tf
    ensures tf.Valid()
    ensures done <= |ScratchKept(scratch)|
    ensures tf.entries == old(tf.entries) + Entries(abspath, disk, ScratchRequests(buildDir, ScratchKept(scratch)))[..done]
    ensures o.Pass? <==> ScratchOnDisk(abspath, disk, buildDir, scratch)
    ensures o.Pass? ==> tf.entries == old(tf.entries) + Entries(abspath, disk, ScratchRequests(buildDir, ScratchKept(scratch)))
    ensures done == FirstMissing(abspath, disk, ScratchRequests(buildDir, ScratchKept(scratch)))
    ensures o.Fail? ==> done < |ScratchKept(scratch)| && o.failure == MissingFile(PathJoin(buildDir, ScratchKept(scratch)[done]))
    ensures o.Fail? ==> abspath(PathJoin(buildDir, ScratchKept(scratch)[done])) !in disk
    ensures forall i :: 0 <= i < done ==> abspath(PathJoin(buildDir, ScratchKept(scratch)[i])) in disk
  {
    ghost var before := tf.entries;
    ghost var full := ScratchKept(scratch);
    ghost var reqs := ScratchRequests(buildDir, full);
    ghost var plan := Entries(abspath, disk, reqs);
    o := Pass;
    done := 0;
    var j := 0;
    while j < |scratch|
      invariant 0 <= j <= |scratch| && o == Pass
      invariant tf.Valid()
      invariant ScratchKept(scratch[..j]) <= full
      invariant done == |ScratchKept(scratch[..j])|
      invariant tf.entries == before + plan[..done]
      invariant forall i :: 0 <= i < done ==> SourceOnDisk(abspath, disk, reqs[i])
    {
      ghost var kept := ScratchKept(scratch[..j]);
      ScratchKeptStep(scratch, j);
      var fil := scratch[j];
      if !IsLegacyCertifi(fil) {
        assert full[|kept|] == (kept + [fil])[|kept|];
        o := AddKeptFile(tf, abspath, disk, buildDir, full, done, fil, before);
        if o.Fail? {
          KeptOnDisk(abspath, disk, buildDir, scratch);
          ScratchMissingFacts(abspath, disk, buildDir, full);
          return;
        }
      }
      j := j + 1;
      done := |ScratchKept(scratch[..j])|;
    }
    assert scratch[..j] == scratch;
    assert plan[..done] == plan;
    FirstMissingAt(abspath, disk, reqs, done);
    KeptOnDisk(abspath, disk, buildDir, scratch);
    ScratchMissingFacts(abspath, disk, buildDir, full);
  }

  /** One turn of lines 139-140 for the `k`-th kept scratch file `fil`,
      after the ones before it. */
  method AddKeptFile(tf: TarArchive, abspath: string -> AbsolutePath, disk: Disk, buildDir: AbsolutePath,
                     ghost full: seq<string>, ghost k: nat, fil: string, ghost before: seq<Entry>) returns (o: Outcome)
    requires k < |full| && full[k] == fil && tf.Valid()
    requires tf.entries == before + Entries(abspath, disk, ScratchRequests(buildDir, full))[..k]
    requires forall i :: 0 <= i < k ==> SourceOnDisk(abspath, disk, ScratchRequests(buildDir, full)[i])
    modifies tf
    ensures tf.Valid()
    ensures o.Pass? ==> tf.entries == before + Entries(abspath, disk, ScratchRequests(buildDir, full))[..k + 1]
    ensures o.Pass? ==> SourceOnDisk(abspath, disk, ScratchRequests(buildDir, full)[k])
    ensures o.Fail? ==> tf.entries == old(tf.entries) && o.failure == MissingFile(PathJoin(buildDir, fil))
    ensures o.Fail? ==> FirstMissing(abspath, disk, ScratchRequests(buildDir, full)) == k
  {
    ghost var reqs := ScratchRequests(buildDir, full);
    assert Source(reqs[k]) == PathJoin(buildDir, fil);
    o := AddScratchFile(tf, abspath, disk, buildDir, fil);
    if o.Fail? {
      FirstMissingAt(abspath, disk, reqs, k);
      return;
    }
    TakeNext(Entries(abspath, disk, reqs), k, Planned(abspath, disk, reqs[k]));
  }

  /** What FirstMissing says about the kept scratch files. */
  lemma ScratchMissingFacts(abspath: string -> AbsolutePath, disk: Disk, buildDir: AbsolutePath, kept: seq<string>)
    ensures var n := FirstMissing(abspath, disk, ScratchRequests(buildDir, kept));
      && (forall i :: 0 <= i < n ==> abspath(PathJoin(buildDir, kept[i])) in disk)
      && (n < |kept| ==> abspath(PathJoin(buildDir, kept[n])) !in disk)
  {
    var reqs := ScratchRequests(buildDir, kept);
    var n := FirstMissing(abspath, disk, reqs);
    forall i | 0 <= i < n
      ensures abspath(PathJoin(buildDir, kept[i])) in disk
    {
      assert SourceOnDisk(abspath, disk, reqs[i]);
    }
  }

  /** The scratch files are all on disk exactly when the second pass finds
      the source of every member it adds. */
  lemma KeptOnDisk(abspath: string -> AbsolutePath, disk: Disk, buildDir: AbsolutePath, scratch: seq<string>)
    ensures var kept := ScratchKept(scratch);
      ScratchOnDisk(abspath, disk, buildDir, scratch) <==> FirstMissing(abspath, disk, ScratchRequests(buildDir, kept)) == |kept|
  {
    var kept := ScratchKept(scratch);
    var reqs := ScratchRequests(buildDir, kept);
    var n := FirstMissing(abspath, disk, reqs);
    if n == |kept| {
      forall i | 0 <= i < |scratch| && !IsLegacyCertifi(scratch[i])
        ensures abspath(PathJoin(buildDir, scratch[i])) in disk
      {
        ScratchKeptMembers(scratch, scratch[i]);
        var k :| 0 <= k < |kept| && kept[k] == scratch[i];
        assert SourceOnDisk(abspath, disk, reqs[k]);
      }
    } else {
      ScratchKeptMembers(scratch, kept[n]);
      var i :| 0 <= i < |scratch| && scratch[i] == kept[n];
      assert !SourceOnDisk(abspath, disk, reqs[n]);
    }
  }

  /** One more listed file: the second pass adds it unless it is a legacy
      certifi release, and what it has added still precedes the whole. */
  lemma {:induction false} ScratchKeptStep(listing: seq<string>, j: nat)
    requires j < |listing|
    ensures ScratchKept(listing[..j + 1]) ==
      ScratchKept(listing[..j]) + (if IsLegacyCertifi(listing[j]) then [] else [listing[j]])
    ensures ScratchKept(listing[..j + 1]) <= ScratchKept(listing)
  {
    ScratchKeptPrefix(listing, j + 1);
    var p := listing[..j + 1];
    assert p[..|p| - 1] == listing[..j];
    assert p[|p| - 1] == listing[j];
  }

  /** Lines 142-145: the four installer files, each with the st_mode that
      os.stat reports for it; the first missing one stops the run. */
  method AddAuxFiles(tf: TarArchive, abspath: string -> AbsolutePath, disk: Disk) returns (o: Outcome, ghost done: nat)
    requires tf.Valid()
    modifies tf
    ensures tf.Valid()
    ensures done <= |AuxFiles| && tf.entries == old(tf.entries) + Entries(abspath, disk, AuxRequests(abspath, disk))[..done]
    ensures o.Pass? <==> AuxOnDisk(abspath, disk)
    ensures o.Pass? ==> tf.entries == old(tf.entries) + Entries(abspath, disk, AuxRequests(abspath, disk))
    ensures done == FirstMissing(abspath, disk, AuxRequests(abspath, disk))
    ensures o.Fail? ==> done < |AuxFiles| && o.failure == MissingFile(AuxFiles[done]) && abspath(AuxFiles[done]) !in disk
    ensures forall j :: 0 <= j < done ==> abspath(AuxFiles[j]) in disk
  {
    ghost var before := tf.entries;
    ghost var plan := Entries(abspath, disk, AuxRequests(abspath, disk));
    AuxOnDiskEach(abspath, disk);
    done := 0;
    o := AddAuxFile(tf, abspath, disk, 0, before);
    if o.Fail? {
      return;
    }
    done := 1;
    o := AddAuxFile(tf, abspath, disk, 1, before);
    if o.Fail? {
      return;
    }
    done := 2;
    o := AddAuxFile(tf, abspath, disk, 2, before);
    if o.Fail? {
      return;
    }
    done := 3;
    o := AddAuxFile(tf, abspath, disk, 3, before);
    if o.Fail? {
      return;
    }
    done := 4;
    assert plan[..4] == plan;
    AuxStopsAt(abspath, disk, 4);
  }

  /** One of lines 142-145: the `k`-th installer file, after the ones before it. */
  method AddAuxFile(tf: TarArchive, abspath: string -> AbsolutePath, disk: Disk, k: nat, ghost before: seq<Entry>)
    returns (o: Outcome)
    requires k < |AuxFiles| && tf.Valid()
    requires tf.entries == before + Entries(abspath, disk, AuxRequests(abspath, disk))[..k]
    requires forall j :: 0 <= j < k ==> abspath(AuxFiles[j]) in disk
    modifies tf
    ensures tf.Valid()
    ensures o.Pass? <==> abspath(AuxFiles[k]) in disk
    ensures o.Pass? ==> tf.entries == before + Entries(abspath, disk, AuxRequests(abspath, disk))[..k + 1]
    ensures o.Fail? ==> o.failure == MissingFile(AuxFiles[k]) && tf.entries == old(tf.entries)
    ensures o.Fail? ==> FirstMissing(abspath, disk, AuxRequests(abspath, disk)) == k
  {
    ghost var reqs := AuxRequests(abspath, disk);
    o := AddWithOwnMode(tf, abspath, disk, AuxFiles[k]);
    if o.Fail? {
      AuxStopsAt(abspath, disk, k);
      return;
    }
    TakeNext(Entries(abspath, disk, reqs), k, Planned(abspath, disk, reqs[k]));
  }

  /** The installer files found up to `k`, and missing at `k`, stop the
      installer calls at `k`. */
  lemma AuxStopsAt(abspath: string -> AbsolutePath, disk: Disk, k: nat)
    requires k <= |AuxFiles|
    requires forall j :: 0 <= j < k ==> abspath(AuxFiles[j]) in disk
    requires k < |AuxFiles| ==> abspath(AuxFiles[k]) !in disk
    ensures FirstMissing(abspath, disk, AuxRequests(abspath, disk)) == k
  {
    var reqs := AuxRequests(abspath, disk);
    forall j | 0 <= j < |AuxFiles|
      ensures Source(reqs[j]) == AuxFiles[j]
    {
    }
    FirstMissingAt(abspath, disk, reqs, k);
  }

  /** The four installer files are on disk when each of them is. */
  lemma AuxOnDiskEach(abspath: string -> AbsolutePath, disk: Disk)
    ensures AuxOnDisk(abspath, disk) <==>
      abspath(AuxFiles[0]) in disk && abspath(AuxFiles[1]) in disk && abspath(AuxFiles[2]) in disk && abspath(AuxFiles[3]) in disk
  {
  }

  /** The first `k + 1` members are the first `k` and the next one. */
  lemma TakeNext<T>(p: seq<T>, k: nat, x: T)
    requires k < |p| && p[k] == x
    ensures p[..k + 1] == p[..k] + [x]
  {
  }

  /** Lines 117-140: pip fills the scratch directory, the directory is
      grouped by package and refused when a package has two files, and the
      files are added except the legacy certifi releases. Nothing is added
      unless pip succeeds and the check passes. */
  method BundleScratch(tf: TarArchive, abspath: string -> AbsolutePath, disk: Disk, buildDir: AbsolutePath,
                       pipOk: bool, scratch: seq<string>) returns (o: Outcome, ghost done: nat)
    requires tf.Valid()
    modifies tf
    ensures tf.Valid()
    ensures done <= |ScratchKept(scratch)|
    ensures tf.entries == old(tf.entries) + Entries(abspath, disk, ScratchRequests(buildDir, ScratchKept(scratch)))[..done]
    ensures !(pipOk && ScratchAccepted(scratch)) ==> done == 0
    ensures pipOk && ScratchAccepted(scratch) ==> done == FirstMissing(abspath, disk, ScratchRequests(buildDir, ScratchKept(scratch)))
    ensures o.Fail? && pipOk && ScratchAccepted(scratch) ==>
              done < |ScratchKept(scratch)| && o.failure == MissingFile(PathJoin(buildDir, ScratchKept(scratch)[done]))
    ensures o.Pass? <==> pipOk && ScratchAccepted(scratch) && ScratchOnDisk(abspath, disk, buildDir, scratch)
    ensures o.Pass? ==> done == |ScratchKept(scratch)|
    ensures o.Pass? ==> forall i, j :: 0 <= i < j < |scratch| ==> PackageName(scratch[i]) != PackageName(scratch[j])
    ensures !pipOk ==> o == Fail(ToolFailed("pip download"))
    ensures pipOk && Namespace in scratch ==> o.Fail? && o.failure.NameIndexError?
    ensures o.Fail? && o.failure.DuplicatePackage? <==> pipOk && Namespace !in scratch && !ScratchAccepted(scratch)
    ensures o.Fail? && o.failure.DuplicatePackage? ==>
              FirstDuplicateName(scratch, o.failure.name) && o.failure.files == FilesNamed(scratch, o.failure.name)
  {
    done := 0;
    if !pipOk {
      return Fail(ToolFailed("pip download")), 0;
    }
    var grouped := GroupByPackage(scratch);
    if grouped.Err? {
      return Fail(grouped.failure), 0;
    }
    o := CheckDuplicates(grouped.value);
    if o.Fail? {
      ghost var g := grouped.value;
      ghost var j: nat :| FirstDuplicateAt(g, j) && o.failure == DuplicatePackage(g.order[j], g.groups[g.order[j]]);
      FirstDuplicateOfListing(g, scratch, j);
      NameOrderMembers(scratch, g.order[j]);
      return;
    }
    SmallGroups(grouped.value, scratch);
    DistinctPackages(scratch);
    o, done := AddScratch(tf, abspath, disk, buildDir, scratch);
    if o.Pass? {
      assert tf.entries == old(tf.entries) + Entries(abspath, disk, ScratchRequests(buildDir, ScratchKept(scratch)));
    }
  }

  /** Lines 117-145: the scratch files, then the installer files. */
  method AddScratchAndAux(tf: TarArchive, abspath: string -> AbsolutePath, disk: Disk, buildDir: AbsolutePath,
                          pipOk: bool, scratch: seq<string>) returns (o: Outcome, ghost done: nat)
    requires tf.Valid()
    modifies tf
    ensures tf.Valid()
    ensures var plan := Entries(abspath, disk, ScratchRequests(buildDir, ScratchKept(scratch))) + Entries(abspath, disk, AuxRequests(abspath, disk));
      done <= |plan| && tf.entries == old(tf.entries) + plan[..done]
    ensures o.Pass? <==>
      && pipOk
      && ScratchAccepted(scratch)
      && ScratchOnDisk(abspath, disk, buildDir, scratch)
      && AuxOnDisk(abspath, disk)
    ensures o.Pass? ==> done == |ScratchKept(scratch)| + |AuxFiles|
    ensures done == if pipOk && ScratchAccepted(scratch)
                    then FirstMissing(abspath, disk, ScratchRequests(buildDir, ScratchKept(scratch)) + AuxRequests(abspath, disk))
                    else 0
    ensures o.Pass? ==> forall i, j :: 0 <= i < j < |scratch| ==> PackageName(scratch[i]) != PackageName(scratch[j])
    ensures o.Fail? && o.failure.DuplicatePackage? <==> pipOk && Namespace !in scratch && !ScratchAccepted(scratch)
    ensures o.Fail? && o.failure.DuplicatePackage? ==>
              FirstDuplicateName(scratch, o.failure.name) && o.failure.files == FilesNamed(scratch, o.failure.name)
  {
    ghost var scratchPart := Entries(abspath, disk, ScratchRequests(buildDir, ScratchKept(scratch)));
    ghost var auxPart := Entries(abspath, disk, AuxRequests(abspath, disk));
    ghost var before := tf.entries;
    FirstMissingConcat(abspath, disk, ScratchRequests(buildDir, ScratchKept(scratch)), AuxRequests(abspath, disk));
    o, done := BundleScratch(tf, abspath, disk, buildDir, pipOk, scratch);
    if o.Fail? {
      TakeFront(scratchPart, auxPart, done);
      return;
    }
    assert scratchPart[..done] == scratchPart;
    ghost var mid := tf.entries;
    assert mid == before + scratchPart;
    ghost var auxDone;
    o, auxDone := AddAuxFiles(tf, abspath, disk);
    StageAfter(before, scratchPart, auxPart, auxDone);
    done := |scratchPart| + auxDone;
  }

  /** Lines 91-145, once get_cycle_libs has returned `libs`: the archive is
      opened at dist/cyclecloud-guac-pkg-<version>.tar.gz and filled with the
      libraries, the scratch files and the installer files, in that order.
      A failing stage leaves the members written so far, which precede the
      planned archive. */
  method BuildArchive(abspath: string -> AbsolutePath, libs: seq<string>, versionEnv: Option<string>,
                      buildDir: AbsolutePath, h: Host)
    returns (o: Outcome, pipTargets: seq<string>, tf: TarArchive)
    ensures fresh(tf) && tf.Valid() && tf.path == ArchivePath(OutputVersion(versionEnv))
    ensures tf.entries <= Plan(abspath, h.disk, buildDir, libs, h.scratch)
    ensures o.Pass? <==>
      && LibsOnDisk(abspath, h.disk, libs)
      && h.pipOk
      && ScratchAccepted(h.scratch)
      && ScratchOnDisk(abspath, h.disk, buildDir, h.scratch)
      && AuxOnDisk(abspath, h.disk)
    ensures o.Pass? ==> tf.entries == Plan(abspath, h.disk, buildDir, libs, h.scratch)
    ensures h.pipOk && ScratchAccepted(h.scratch) ==>
              tf.entries == Plan(abspath, h.disk, buildDir, libs, h.scratch)[..FirstMissing(abspath, h.disk, Requests(abspath, h.disk, buildDir, libs, h.scratch))]
    ensures !(h.pipOk && ScratchAccepted(h.scratch)) ==>
              tf.entries == Entries(abspath, h.disk, LibRequests(abspath, libs))[..FirstMissing(abspath, h.disk, LibRequests(abspath, libs))]
    ensures LibsOnDisk(abspath, h.disk, libs) && !(h.pipOk && ScratchAccepted(h.scratch)) ==>
              tf.entries == Entries(abspath, h.disk, LibRequests(abspath, libs))
    ensures o.Pass? ==> pipTargets == LibPaths(abspath, libs)
    ensures o.Pass? ==> forall i, j :: 0 <= i < j < |h.scratch| ==> PackageName(h.scratch[i]) != PackageName(h.scratch[j])
    ensures o.Fail? && o.failure.DuplicatePackage? <==>
              LibsOnDisk(abspath, h.disk, libs) && h.pipOk && Namespace !in h.scratch && !ScratchAccepted(h.scratch)
    ensures o.Fail? && o.failure.DuplicatePackage? ==>
              FirstDuplicateName(h.scratch, o.failure.name) && o.failure.files == FilesNamed(h.scratch, o.failure.name)
  {
    tf := new TarArchive(ArchivePath(OutputVersion(versionEnv)));
    PlanParts(abspath, h.disk, buildDir, libs, h.scratch);
    ghost var libPart := Entries(abspath, h.disk, LibRequests(abspath, libs));
    ghost var rest := Entries(abspath, h.disk, ScratchRequests(buildDir, ScratchKept(h.scratch))) + Entries(abspath, h.disk, AuxRequests(abspath, h.disk));
    ghost var plan := Plan(abspath, h.disk, buildDir, libs, h.scratch);
    assert plan == libPart + rest;
    RequestsFirstMissing(abspath, h.disk, buildDir, libs, h.scratch);
    ghost var done;
    pipTargets, o, done := AddLibs(tf, abspath, h.disk, libs);
    assert tf.entries == libPart[..done];
    if o.Fail? {
      TakeFront(libPart, rest, done);
      PrefixOfTake(plan, done);
      assert tf.entries == plan[..done];
      return;
    }
    assert libPart[..done] == libPart;
    assert done == |libs|;
    o, done := AddScratchAndAux(tf, abspath, h.disk, buildDir, h.pipOk, h.scratch);
    TakeBack(libPart, rest, done);
    PrefixOfTake(plan, |libPart| + done);
    assert tf.entries == plan[..|libPart| + done];
  }

  lemma PrefixOfTake<T>(p: seq<T>, k: nat)
    requires k <= |p|
    ensures p[..k] <= p
  {
  }

  /** What `before + p` grows into by the first `k` members of `q`. */
  lemma StageAfter<T>(before: seq<T>, p: seq<T>, q: seq<T>, k: nat)
    requires k <= |q|
    ensures before + p + q[..k] == before + (p + q)[..|p| + k]
  {
    TakeBack(p, q, k);
  }

  /** The first `k` members of `p + q` when `p` has at least `k`. */
  lemma TakeFront<T>(p: seq<T>, q: seq<T>, k: nat)
    requires k <= |p|
    ensures (p + q)[..k] == p[..k]
  {
  }

  /** The first `|p| + k` members of `p + q` when `q` has at least `k`. */
  lemma TakeBack<T>(p: seq<T>, q: seq<T>, k: nat)
    requires k <= |q|
    ensures (p + q)[..|p| + k] == p + q[..k]
  {
  }

  /** `execute()` run in the script's directory, whose os.path.abspath is
      `abspath` (Paths.Resolver gives posixpath's), with the command line
      `args`, the VERSION variable `versionEnv`, the scratch directory
      `buildDir` that mkdtemp creates, and the surroundings `h`. It returns
      how the run ends, the library file names, the file-system changes of
      get_cycle_libs, the paths given to pip and the archive (null when the
      run ends before the archive is opened). */
  method Execute(abspath: string -> AbsolutePath, args: Args, versionEnv: Option<string>, buildDir: AbsolutePath, h: Host)
    returns (o: Outcome, libs: seq<string>, actions: seq<FsAction>, pipTargets: seq<string>, tf: TarArchive?)
    ensures var b := BuildSdist(abspath, h.setupOk, h.distListing, h.present);
            var deps := PinnedDependencies(args);
            var n := FirstUnavailable(abspath, h.present, h.fetchable, deps);
            && (b.Err? ==> o == Fail(b.failure) && libs == [] && actions == [])
            && (b.Ok? ==> libs == [b.value.fname] + ChosenFiles(deps[..n]) && actions == b.value.actions + AllActions(abspath, deps[..n]))
            && (b.Ok? && n < |deps| ==> o == Fail(Unavailable(deps[n])))
            && (b.Ok? && n < |deps| && Overridden(deps[n]) ==> ExitStatus(o) == 1 && tf == null)
    ensures tf == null <==> !LibsObtained(abspath, args, h)
    ensures tf == null ==> o.Fail?
    ensures tf != null ==> fresh(tf) && tf.Valid() && tf.path == ArchivePath(OutputVersion(versionEnv))
    ensures tf != null ==> tf.entries <= Plan(abspath, h.disk, buildDir, libs, h.scratch)
    ensures o.Pass? <==>
      && LibsObtained(abspath, args, h)
      && LibsOnDisk(abspath, h.disk, libs)
      && h.pipOk
      && ScratchAccepted(h.scratch)
      && ScratchOnDisk(abspath, h.disk, buildDir, h.scratch)
      && AuxOnDisk(abspath, h.disk)
    ensures o.Pass? ==> tf != null && tf.entries == Plan(abspath, h.disk, buildDir, libs, h.scratch)
    ensures tf != null && h.pipOk && ScratchAccepted(h.scratch) ==>
              tf.entries == Plan(abspath, h.disk, buildDir, libs, h.scratch)[..FirstMissing(abspath, h.disk, Requests(abspath, h.disk, buildDir, libs, h.scratch))]
    ensures tf != null && !(h.pipOk && ScratchAccepted(h.scratch)) ==>
              tf.entries == Entries(abspath, h.disk, LibRequests(abspath, libs))[..FirstMissing(abspath, h.disk, LibRequests(abspath, libs))]
    ensures tf != null && LibsOnDisk(abspath, h.disk, libs) && !(h.pipOk && ScratchAccepted(h.scratch)) ==>
              tf.entries == Entries(abspath, h.disk, LibRequests(abspath, libs))
    ensures o.Pass? ==> pipTargets == LibPaths(abspath, libs)
    ensures o.Pass? ==> forall i, j :: 0 <= i < j < |h.scratch| ==> PackageName(h.scratch[i]) != PackageName(h.scratch[j])
    ensures o.Fail? && o.failure.DuplicatePackage? <==>
              && LibsObtained(abspath, args, h)
              && LibsOnDisk(abspath, h.disk, libs)
              && h.pipOk
              && Namespace !in h.scratch
              && !ScratchAccepted(h.scratch)
    ensures o.Fail? && o.failure.DuplicatePackage? ==>
              FirstDuplicateName(h.scratch, o.failure.name) && o.failure.files == FilesNamed(h.scratch, o.failure.name)
  {
    libs, actions, o := GetCycleLibs(abspath, args, h.setupOk, h.distListing, h.present, h.fetchable);
    if o.Fail? {
      pipTargets, tf := [], null;
      return;
    }
    ghost var deps := PinnedDependencies(args);
    assert deps[..|deps|] == deps;
    o, pipTargets, tf := BuildArchive(abspath, libs, versionEnv, buildDir, h);
  }
}
