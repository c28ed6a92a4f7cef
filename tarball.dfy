/** The release archive as the script builds it: an ordered list of tar
    entries, each made by the `_add` helper of package.py (lines 100-109).
    Only the metadata the helper sets is modelled; the bytes and the
    gzip/tar encoding are not. */
module Tarball {
  import opened Outcomes
  import opened Paths

  /** Every entry name starts with this top-level directory. */
  const TopDir: string := "cyclecloud-guac/"

  /** tarfile.TarInfo's default permission mode, 0o644. */
  const DefaultMode: int := 420

  /** What os.stat reports of a file: size, modification time, st_mode. */
  datatype Stat = Stat(size: nat, mtime: real, mode: int)

  /** The files on disk when the archive is written, by absolute path. */
  type Disk = map<string, Stat>

  /** One archive member: its name, the file whose bytes it holds, and the
      TarInfo fields the helper sets. */
  datatype Entry = Entry(name: string, source: string, size: nat, mtime: int, mode: int)

  /** Python's `int(x)` on a float: truncation toward zero. */
  function Truncate(x: real): (r: int)
    ensures 0.0 <= x ==> r as real <= x < r as real + 1.0
    ensures x < 0.0 ==> r as real - 1.0 < x <= r as real
  {
    if x >= 0.0 then x.Floor else -((-x).Floor)
  }

  predicate InBundle(name: string) {
    TopDir <= name
  }

  /** The name an archive member has below the top-level directory. */
  function BundleRelative(name: string): string
    requires InBundle(name)
  {
    name[|TopDir|..]
  }

  /** `path or name`: an absent or empty path means the name itself. */
  function SourcePath(name: string, path: Option<string>): string {
    if path.Some? && path.value != "" then path.value else name
  }

  /** `if mode: tarinfo.mode = mode`: only a truthy mode (present and not 0)
      replaces the default. */
  function ModeOf(mode: Option<int>): int {
    if mode.Some? && mode.value != 0 then mode.value else DefaultMode
  }

  /** The arguments of one `_add(name, path, mode)` call. */
  datatype Request = Request(name: string, path: Option<string>, mode: Option<int>)

  /** The file `_add` reads for `r`: `path or name`. */
  function Source(r: Request): string {
    SourcePath(r.name, r.path)
  }

  /** getsize, getmtime and open find the source of `r`. */
  predicate SourceOnDisk(abspath: string -> AbsolutePath, disk: Disk, r: Request) {
    abspath(Source(r)) in disk
  }

  /** The member `_add` writes for `r` once its source is found: the name
      below the top-level directory, size and truncated mtime of the source
      file, and the mode ModeOf picks. (For a missing source `_add` raises
      before any member exists, and the zero Stat below is never written.) */
  function Planned(abspath: string -> AbsolutePath, disk: Disk, r: Request): Entry {
    var key := abspath(Source(r));
    var st := if key in disk then disk[key] else Stat(0, 0.0, 0);
    Entry(TopDir + r.name, Source(r), st.size, Truncate(st.mtime), ModeOf(r.mode))
  }

  /** `_add(name, path, mode)`: getsize raises on a missing source file. */
  function MakeEntry(abspath: string -> AbsolutePath, disk: Disk, r: Request): Result<Entry> {
    if SourceOnDisk(abspath, disk, r) then Ok(Planned(abspath, disk, r)) else Err(MissingFile(Source(r)))
  }

  /** The members written for the calls `reqs`, when every source is found. */
  function Entries(abspath: string -> AbsolutePath, disk: Disk, reqs: seq<Request>): (es: seq<Entry>)
    ensures |es| == |reqs|
    ensures forall i :: 0 <= i < |reqs| ==> es[i] == Planned(abspath, disk, reqs[i])
  {
    seq(|reqs|, i requires 0 <= i < |reqs| => Planned(abspath, disk, reqs[i]))
  }

  lemma EntriesConcat(abspath: string -> AbsolutePath, disk: Disk, a: seq<Request>, b: seq<Request>)
    ensures Entries(abspath, disk, a + b) == Entries(abspath, disk, a) + Entries(abspath, disk, b)
  {
  }

  /** How many of the calls `reqs`, made in order, write their member before
      one raises: the index of the first request whose source is missing,
      or |reqs| when every source is there. */
  function FirstMissing(abspath: string -> AbsolutePath, disk: Disk, reqs: seq<Request>): (n: nat)
    ensures n <= |reqs|
    ensures forall i :: 0 <= i < n ==> SourceOnDisk(abspath, disk, reqs[i])
    ensures n < |reqs| ==> !SourceOnDisk(abspath, disk, reqs[n])
    decreases |reqs|
  {
    if reqs == [] then 0
    else if !SourceOnDisk(abspath, disk, reqs[0]) then 0
    else 1 + FirstMissing(abspath, disk, reqs[1..])
  }

  /** An index before which every source is there, and at which one is
      missing (or the end), is the first missing one. */
  lemma FirstMissingAt(abspath: string -> AbsolutePath, disk: Disk, reqs: seq<Request>, k: nat)
    requires k <= |reqs|
    requires forall i :: 0 <= i < k ==> SourceOnDisk(abspath, disk, reqs[i])
    requires k < |reqs| ==> !SourceOnDisk(abspath, disk, reqs[k])
    ensures FirstMissing(abspath, disk, reqs) == k
  {
  }

  /** Calls made in two runs stop in the first run when one of its sources
      is missing, and otherwise after the whole first run and the calls of
      the second that go through. */
  lemma FirstMissingConcat(abspath: string -> AbsolutePath, disk: Disk, a: seq<Request>, b: seq<Request>)
    ensures FirstMissing(abspath, disk, a + b) ==
      var m := FirstMissing(abspath, disk, a);
      if m < |a| then m else |a| + FirstMissing(abspath, disk, b)
  {
    var m := FirstMissing(abspath, disk, a);
    var k := if m < |a| then m else |a| + FirstMissing(abspath, disk, b);
    forall i | 0 <= i < k
      ensures SourceOnDisk(abspath, disk, (a + b)[i])
    {
      if i >= |a| {
        assert (a + b)[i] == b[i - |a|];
      }
    }
    if k < |a + b| {
      if m < |a| {
        assert (a + b)[k] == a[k];
      } else {
        assert (a + b)[k] == b[k - |a|];
      }
    }
    FirstMissingAt(abspath, disk, a + b, k);
  }

  /** A member's metadata is its source file's: size and mtime truncated
      toward zero as os.path.getsize and int(os.path.getmtime) give them, and
      the default mode 0o644 unless a nonzero mode is passed. */
  lemma PlannedMetadata(abspath: string -> AbsolutePath, disk: Disk, r: Request)
    requires SourceOnDisk(abspath, disk, r)
    ensures var e := Planned(abspath, disk, r); var st := disk[abspath(Source(r))];
            && InBundle(e.name) && BundleRelative(e.name) == r.name
            && e.source == Source(r) && e.size == st.size
            && (0.0 <= st.mtime ==> e.mtime as real <= st.mtime < e.mtime as real + 1.0)
            && (st.mtime < 0.0 ==> e.mtime as real - 1.0 < st.mtime <= e.mtime as real)
            && (r.mode.None? || r.mode == Some(0) ==> e.mode == DefaultMode)
            && (r.mode.Some? && r.mode.value != 0 ==> e.mode == r.mode.value)
  {
  }

  /** The names of archive members, in archive order. */
  function EntryNames(es: seq<Entry>): (names: seq<string>)
    ensures |names| == |es|
    ensures forall i :: 0 <= i < |es| ==> names[i] == es[i].name
  {
    seq(|es|, i requires 0 <= i < |es| => es[i].name)
  }

  /** The member names for the given names below the top-level directory. */
  function InTopDir(names: seq<string>): (r: seq<string>)
    ensures |r| == |names|
    ensures forall i :: 0 <= i < |names| ==> r[i] == TopDir + names[i]
  {
    seq(|names|, i requires 0 <= i < |names| => TopDir + names[i])
  }

  lemma InTopDirConcat(a: seq<string>, b: seq<string>)
    ensures InTopDir(a + b) == InTopDir(a) + InTopDir(b)
  {
  }

  /** The gzip-compressed tar file `tf` that the script opens and appends to. */
  class TarArchive {
    const path: string
    var entries: seq<Entry>

    /** No member lies outside the top-level directory. */
    ghost predicate Valid()
      reads this
    {
      forall i :: 0 <= i < |entries| ==> InBundle(entries[i].name)
    }

    constructor (path: string)
      ensures this.path == path && entries == [] && Valid()
    {
      this.path := path;
      entries := [];
    }

    /** `_add(name, path, mode)`: append the member MakeEntry describes, or
        stop with the FileNotFoundError of a missing source file. */
    method Add(abspath: string -> AbsolutePath, disk: Disk, r: Request) returns (o: Outcome)
      requires Valid()
      modifies this
      ensures Valid()
      ensures o.Pass? <==> SourceOnDisk(abspath, disk, r)
      ensures o.Fail? ==> o.failure == MissingFile(Source(r)) && entries == old(entries)
      ensures o.Pass? ==> entries == old(entries) + [Planned(abspath, disk, r)]
    {
      var e := MakeEntry(abspath, disk, r);
      if e.Err? {
        return Fail(e.failure);
      }
      entries := entries + [e.value];
      return Pass;
    }
  }
}
