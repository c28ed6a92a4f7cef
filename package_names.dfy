/** Package-name inference over the scratch directory that `pip download`
    fills, the grouping of its files by inferred name, and the check that no
    name has two files (package.py, lines 120-133), plus the certifi filter
    applied when the files are added to the archive (lines 135-138). */
module PackageNames {
  import opened Outcomes

  /** The namespace whose packages are named by the whole file name. */
  const Namespace: string := "cyclecloud"

  /** Files skipped when the scratch directory is bundled. */
  const LegacyCertifiPrefix: string := "certifi-20"

  /** Python's `s.find(c)`: the first index of `c` in `s`, or -1. */
  function Find(s: string, c: char): int
    decreases |s|
  {
    if s == [] then -1
    else if s[0] == c then 0
    else
      var r := Find(s[1..], c);
      if r < 0 then -1 else r + 1
  }

  /** Find returns -1 exactly when `c` does not occur, and otherwise an
      occurrence with none before it. */
  lemma {:induction false} FindSpec(s: string, c: char)
    ensures -1 <= Find(s, c) < |s|
    ensures Find(s, c) == -1 <==> c !in s
    ensures Find(s, c) >= 0 ==> s[Find(s, c)] == c && c !in s[..Find(s, c)]
    decreases |s|
  {
    if s != [] && s[0] != c {
      FindSpec(s[1..], c);
      var r := Find(s[1..], c);
      assert s == [s[0]] + s[1..];
      assert r >= 0 ==> s[..r + 1] == [s[0]] + s[1..][..r];
    }
  }

  /** Python's `s.split(sep, 1)`: the text before the first `sep` and the
      text after it, or `[s]` when `sep` does not occur. */
  function SplitOnce(s: string, sep: char): seq<string> {
    FindSpec(s, sep);
    var i := Find(s, sep);
    if i < 0 then [s] else [s[..i], s[i + 1..]]
  }

  /** One token, the whole text, when the separator does not occur; two
      tokens around its first occurrence otherwise. */
  lemma SplitOnceSpec(s: string, sep: char)
    ensures var toks := SplitOnce(s, sep);
            && 1 <= |toks| <= 2
            && (|toks| == 1 <==> sep !in s)
            && (|toks| == 1 ==> toks[0] == s)
            && (|toks| == 2 ==> sep !in toks[0] && s == toks[0] + [sep] + toks[1])
  {
    FindSpec(s, sep);
    var i := Find(s, sep);
    if i >= 0 {
      assert s == s[..i] + [sep] + s[i + 1..];
    }
  }

  /** The package a scratch file belongs to: the text before its first '-',
      except that for the "cyclecloud" namespace the text after the '-' is
      put back. `None` stands for the IndexError raised on `toks[1]` when a
      file is named exactly "cyclecloud". */
  function PackageName(fil: string): (r: Option<string>)
    ensures r.None? <==> fil == Namespace
  {
    SplitOnceSpec(fil, '-');
    var toks := SplitOnce(fil, '-');
    if toks[0] == Namespace then
      if |toks| < 2 then None
      else
        assert fil == Namespace + "-" + toks[1];
        Some(toks[0] + "-" + toks[1])
    else
      HeadOutsideNamespace(fil);
      Some(toks[0])
  }

  /** The package name is the whole file name in the "cyclecloud" namespace,
      and otherwise the file name up to its first '-'. */
  lemma PackageNameShape(fil: string)
    ensures Namespace + "-" <= fil ==> PackageName(fil) == Some(fil)
    ensures fil != Namespace && !(Namespace + "-" <= fil) ==>
              var r := PackageName(fil).value;
              r <= fil && '-' !in r && (r == fil || fil[|r|] == '-')
  {
    SplitOnceSpec(fil, '-');
    var toks := SplitOnce(fil, '-');
    if toks[0] == Namespace {
      if |toks| == 2 {
        assert fil == Namespace + "-" + toks[1];
      }
      NamespaceSplit(fil);
    } else {
      HeadOutsideNamespace(fil);
    }
  }

  /** When the first token is not the namespace, the file is not in the
      namespace and the token is the file name up to its first '-'. */
  lemma HeadOutsideNamespace(fil: string)
    requires |SplitOnce(fil, '-')| > 0 && SplitOnce(fil, '-')[0] != Namespace
    ensures fil != Namespace && !(Namespace + "-" <= fil)
    ensures var head := SplitOnce(fil, '-')[0];
            head <= fil && '-' !in head && (head == fil || fil[|head|] == '-')
  {
    SplitOnceSpec(fil, '-');
    var toks := SplitOnce(fil, '-');
    NamespaceSplit(fil);
    assert '-' !in Namespace;
    if |toks| == 2 {
      assert fil == toks[0] + ("-" + toks[1]);
    }
  }

  /** Find returns the index of an occurrence with none before it. */
  lemma FindAt(s: string, c: char, i: nat)
    requires i < |s| && s[i] == c && c !in s[..i]
    ensures Find(s, c) == i
  {
    FindSpec(s, c);
    assert s[i] in s;
  }

  /** The first token is the namespace, with a second token after it, exactly
      when the file name starts with "cyclecloud-". */
  lemma NamespaceSplit(fil: string)
    ensures var toks := SplitOnce(fil, '-');
            (|toks| == 2 && toks[0] == Namespace) <==> Namespace + "-" <= fil
  {
    SplitOnceSpec(fil, '-');
    var toks := SplitOnce(fil, '-');
    var p := Namespace + "-";
    if p <= fil {
      assert fil[..10] == Namespace;
      assert '-' !in Namespace;
      FindAt(fil, '-', 10);
    }
    if toks[0] == Namespace && |toks| == 2 {
      assert fil == Namespace + "-" + toks[1];
    }
  }

  /** The filter applied to the scratch directory when it is archived. */
  predicate IsLegacyCertifi(fil: string) {
    LegacyCertifiPrefix <= fil
  }

  /** Every legacy certifi file belongs to the package "certifi". */
  lemma LegacyCertifiName(fil: string)
    requires IsLegacyCertifi(fil)
    ensures PackageName(fil) == Some("certifi")
  {
    var toks := SplitOnce(fil, '-');
    assert fil[7] == '-' && '-' !in fil[..7];
    FindAt(fil, '-', 7);
    assert toks[0] == fil[..7] == "certifi";
  }

  /** Two files in the "cyclecloud" namespace never share a package name
      unless they are the same file name. */
  lemma NamespaceNamesAreDistinct(a: string, b: string)
    requires Namespace + "-" <= a && Namespace + "-" <= b
    ensures PackageName(a) == PackageName(b) <==> a == b
  {
    PackageNameShape(a);
    PackageNameShape(b);
  }

  // ---------------------------------------------------------------------
  // Reference definitions of the grouping, written over listing prefixes
  // ---------------------------------------------------------------------

  /** The files of `files` whose package name is `k`, in listing order. */
  function FilesNamed(files: seq<string>, k: string): seq<string>
    decreases |files|
  {
    if files == [] then []
    else
      var last := files[|files| - 1];
      FilesNamed(files[..|files| - 1], k) + (if PackageName(last) == Some(k) then [last] else [])
  }

  /** The package names of `files`, each once, in order of first appearance:
      the key order of the dictionary the grouping loop builds. */
  function NameOrder(files: seq<string>): seq<string>
    decreases |files|
  {
    if files == [] then []
    else
      var keys := NameOrder(files[..|files| - 1]);
      match PackageName(files[|files| - 1])
      case None => keys
      case Some(k) => if k in keys then keys else keys + [k]
  }

  predicate NoDuplicates(s: seq<string>) {
    forall i, j :: 0 <= i < j < |s| ==> s[i] != s[j]
  }

  /** Sum of the group sizes over the names `keys`. */
  function GroupSizes(files: seq<string>, keys: seq<string>): nat
    decreases |keys|
  {
    if keys == [] then 0 else |FilesNamed(files, keys[0])| + GroupSizes(files, keys[1..])
  }

  lemma PrefixOfSnoc(files: seq<string>)
    requires files != []
    ensures files[..|files| - 1] + [files[|files| - 1]] == files
  {
  }

  /** A file lands in the group of `k` exactly when it is listed and its
      package name is `k`. */
  lemma {:induction false} FilesNamedMembers(files: seq<string>, k: string, f: string)
    ensures f in FilesNamed(files, k) <==> f in files && PackageName(f) == Some(k)
    decreases |files|
  {
    if files != [] {
      var init := files[..|files| - 1];
      FilesNamedMembers(init, k, f);
      PrefixOfSnoc(files);
      assert f in files <==> f in init || f == files[|files| - 1];
    }
  }

  /** A name not in the key order has an empty group; one in it has a file. */
  lemma {:induction false} NameOrderMembers(files: seq<string>, k: string)
    ensures k in NameOrder(files) <==> FilesNamed(files, k) != []
    decreases |files|
  {
    if files != [] {
      NameOrderMembers(files[..|files| - 1], k);
    }
  }

  /** Each name appears once in the key order. */
  lemma {:induction false} NameOrderNoDuplicates(files: seq<string>)
    ensures NoDuplicates(NameOrder(files))
    decreases |files|
  {
    if files != [] {
      NameOrderNoDuplicates(files[..|files| - 1]);
    }
  }

  /** Grouping keeps listing order: the group of a listing prefix is a
      prefix of the group of the whole listing. */
  lemma {:induction false} FilesNamedPrefix(files: seq<string>, n: nat, k: string)
    requires n <= |files|
    ensures FilesNamed(files[..n], k) <= FilesNamed(files, k)
    decreases |files|
  {
    if n < |files| {
      var init := files[..|files| - 1];
      assert files[..n] == init[..n];
      FilesNamedPrefix(init, n, k);
    } else {
      assert files[..n] == files;
    }
  }

  /** Adding one file to the listing adds one to the size sum exactly when
      its package name is among `keys`. */
  lemma {:induction false} GroupSizesSnoc(files: seq<string>, f: string, k: string, keys: seq<string>)
    requires PackageName(f) == Some(k)
    requires NoDuplicates(keys)
    ensures GroupSizes(files + [f], keys) == GroupSizes(files, keys) + (if k in keys then 1 else 0)
    decreases |keys|
  {
    if keys != [] {
      assert (files + [f])[..|files|] == files;
      assert NoDuplicates(keys[1..]) by {
        forall i, j | 0 <= i < j < |keys[1..]| ensures keys[1..][i] != keys[1..][j] {
          assert keys[1..][i] == keys[i + 1] && keys[1..][j] == keys[j + 1];
        }
      }
      GroupSizesSnoc(files, f, k, keys[1..]);
      assert k in keys <==> k == keys[0] || k in keys[1..];
      assert k == keys[0] ==> k !in keys[1..];
    }
  }

  /** The size sum over `keys + [k]` adds the group of `k`. */
  lemma {:induction false} GroupSizesAppend(files: seq<string>, keys: seq<string>, k: string)
    ensures GroupSizes(files, keys + [k]) == GroupSizes(files, keys) + |FilesNamed(files, k)|
    decreases |keys|
  {
    if keys == [] {
      assert [k][1..] == [];
    } else {
      assert (keys + [k])[0] == keys[0];
      assert (keys + [k])[1..] == keys[1..] + [k];
      GroupSizesAppend(files, keys[1..], k);
    }
  }

  /** Grouping is a partition: when every file has a package name, the
      group sizes add up to the number of listed files. */
  lemma {:induction false} GroupsPartitionListing(files: seq<string>)
    requires Namespace !in files
    ensures GroupSizes(files, NameOrder(files)) == |files|
    decreases |files|
  {
    if files != [] {
      var init := files[..|files| - 1];
      var f := files[|files| - 1];
      PrefixOfSnoc(files);
      assert Namespace !in init;
      GroupsPartitionListing(init);
      var k := PackageName(f).value;
      var keys := NameOrder(init);
      NameOrderNoDuplicates(init);
      GroupSizesSnoc(init, f, k, keys);
      if k !in keys {
        GroupSizesAppend(files, keys, k);
        NameOrderMembers(init, k);
        assert FilesNamed(files, k) == [f];
      }
    }
  }

  /** Two listed files of one package put two files in its group. */
  lemma SharedNameIsDuplicate(files: seq<string>, k: string, i: nat, j: nat)
    requires i < j < |files|
    requires PackageName(files[i]) == Some(k) && PackageName(files[j]) == Some(k)
    ensures |FilesNamed(files, k)| > 1
  {
    var pre := files[..j];
    assert pre[i] == files[i];
    FilesNamedMembers(pre, k, files[i]);
    assert files[..j + 1][..j] == pre;
    assert FilesNamed(files[..j + 1], k) == FilesNamed(pre, k) + [files[j]];
    FilesNamedPrefix(files, j + 1, k);
  }

  /** A nonempty group names a listed file of that package. */
  lemma {:induction false} NamedFile(files: seq<string>, k: string) returns (i: nat)
    requires FilesNamed(files, k) != []
    ensures i < |files| && PackageName(files[i]) == Some(k)
    decreases |files|
  {
    var init := files[..|files| - 1];
    if PackageName(files[|files| - 1]) == Some(k) {
      i := |files| - 1;
    } else {
      i := NamedFile(init, k);
      assert files[i] == init[i];
    }
  }

  /** A group with two files comes from two listed files of that package. */
  lemma {:induction false} DuplicateHasSharedName(files: seq<string>, k: string) returns (i: nat, j: nat)
    requires |FilesNamed(files, k)| > 1
    ensures i < j < |files| && PackageName(files[i]) == Some(k) && PackageName(files[j]) == Some(k)
    decreases |files|
  {
    var init := files[..|files| - 1];
    if |FilesNamed(init, k)| > 1 {
      i, j := DuplicateHasSharedName(init, k);
      assert files[i] == init[i] && files[j] == init[j];
    } else {
      i := NamedFile(init, k);
      assert files[i] == init[i];
      j := |files| - 1;
    }
  }

  /** A name has more than one file exactly when two listed files share it. */
  lemma DuplicateIffSharedName(files: seq<string>, k: string)
    ensures |FilesNamed(files, k)| > 1 <==>
      exists i, j :: 0 <= i < j < |files| && PackageName(files[i]) == Some(k) && PackageName(files[j]) == Some(k)
  {
    if |FilesNamed(files, k)| > 1 {
      var i, j := DuplicateHasSharedName(files, k);
    }
    if exists i, j :: 0 <= i < j < |files| && PackageName(files[i]) == Some(k) && PackageName(files[j]) == Some(k) {
      var i, j :| 0 <= i < j < |files| && PackageName(files[i]) == Some(k) && PackageName(files[j]) == Some(k);
      SharedNameIsDuplicate(files, k, i, j);
    }
  }

  /** Two legacy certifi files in the listing always make the duplicate check
      fail: the check runs over the whole listing, before the certifi filter. */
  lemma TwoLegacyCertifisAreDuplicates(files: seq<string>, i: nat, j: nat)
    requires i < j < |files|
    requires IsLegacyCertifi(files[i]) && IsLegacyCertifi(files[j])
    ensures |FilesNamed(files, "certifi")| > 1
  {
    LegacyCertifiName(files[i]);
    LegacyCertifiName(files[j]);
    DuplicateIffSharedName(files, "certifi");
  }

  /** When no package has two files, no two files of the listing belong to
      the same package. */
  lemma DistinctPackages(files: seq<string>)
    requires Namespace !in files
    requires forall k :: |FilesNamed(files, k)| <= 1
    ensures forall i, j :: 0 <= i < j < |files| ==> PackageName(files[i]) != PackageName(files[j])
  {
    forall i, j | 0 <= i < j < |files|
      ensures PackageName(files[i]) != PackageName(files[j])
    {
      assert files[i] in files;
      if PackageName(files[i]) == PackageName(files[j]) {
        DuplicateIffSharedName(files, PackageName(files[i]).value);
        assert false;
      }
    }
  }

  // ---------------------------------------------------------------------
  // The grouping loop and the duplicate check
  // ---------------------------------------------------------------------

  /** The `by_package` dictionary: its keys in insertion order (the order in
      which `items()` visits them) and the files recorded under each key. */
  datatype Grouping = Grouping(order: seq<string>, groups: map<string, seq<string>>)

  ghost predicate KeysInOrder(g: Grouping) {
    forall k :: k in g.groups <==> k in g.order
  }

  /** The loop body of lines 126-128 for a file `fil` of package `package`:
      a new key starts an empty group, then the file joins its group. */
  function AddToGroup(g: Grouping, package: string, fil: string): Grouping {
    var g1 := if package in g.groups then g else Grouping(g.order + [package], g.groups[package := []]);
    Grouping(g1.order, g1.groups[package := g1.groups[package] + [fil]])
  }

  /** The dictionary the loop has built after the files `files`. */
  function GroupingOf(files: seq<string>): Grouping
    decreases |files|
  {
    if files == [] then Grouping([], map[])
    else
      var g := GroupingOf(files[..|files| - 1]);
      var last := files[|files| - 1];
      match PackageName(last)
      case None => g
      case Some(k) => AddToGroup(g, k, last)
  }

  /** One more file of a known package extends the dictionary by AddToGroup. */
  lemma GroupingOfSnoc(listing: seq<string>, i: nat)
    requires i < |listing| && PackageName(listing[i]).Some?
    ensures GroupingOf(listing[..i + 1]) == AddToGroup(GroupingOf(listing[..i]), PackageName(listing[i]).value, listing[i])
  {
    assert listing[..i + 1][..i] == listing[..i];
  }

  /** The dictionary agrees with the reference definitions: its keys are the
      names in order of first appearance and each group holds exactly the
      files of its name, in listing order. */
  lemma {:induction false} GroupingOfMatches(files: seq<string>)
    ensures GroupingOf(files).order == NameOrder(files)
    ensures KeysInOrder(GroupingOf(files))
    ensures forall k :: k in GroupingOf(files).groups ==> GroupingOf(files).groups[k] == FilesNamed(files, k)
    decreases |files|
  {
    if files != [] {
      var init := files[..|files| - 1];
      var last := files[|files| - 1];
      GroupingOfMatches(init);
      var g := GroupingOf(init);
      if PackageName(last).Some? {
        var k0 := PackageName(last).value;
        if k0 !in g.groups {
          NameOrderMembers(init, k0);
        }
        var g2 := GroupingOf(files);
        assert g2 == AddToGroup(g, k0, last);
        forall k | k in g2.groups
          ensures g2.groups[k] == FilesNamed(files, k)
        {
          if k != k0 {
            assert g2.groups[k] == g.groups[k];
          }
        }
      }
    }
  }

  /** Groups the scratch listing by package name, as the loop at lines
      120-128 does; a file named "cyclecloud" stops it with an IndexError. */
  method GroupByPackage(listing: seq<string>) returns (r: Result<Grouping>)
    ensures r.Ok? <==> Namespace !in listing
    ensures r.Err? ==> r.failure == NameIndexError(Namespace)
    ensures r.Ok? ==> r.value.order == NameOrder(listing) && KeysInOrder(r.value)
    ensures r.Ok? ==> forall k :: k in r.value.groups ==> r.value.groups[k] == FilesNamed(listing, k)
  {
    var order: seq<string> := [];
    var groups: map<string, seq<string>> := map[];
    var i := 0;
    while i < |listing|
      invariant 0 <= i <= |listing|
      invariant forall j :: 0 <= j < i ==> listing[j] != Namespace
      invariant Grouping(order, groups) == GroupingOf(listing[..i])
    {
      var fil := listing[i];
      var name := PackageName(fil);
      if name.None? {
        assert listing[i] in listing;
        return Err(NameIndexError(fil));
      }
      var package := name.value;
      ghost var before := Grouping(order, groups);
      GroupingOfSnoc(listing, i);
      if package !in groups {
        groups := groups[package := []];
        order := order + [package];
      }
      groups := groups[package := groups[package] + [fil]];
      assert Grouping(order, groups) == AddToGroup(before, package, fil);
      i := i + 1;
    }
    assert listing[..i] == listing;
    GroupingOfMatches(listing);
    return Ok(Grouping(order, groups));
  }

  /** The key at `j` is the first, in insertion order, with more than one file. */
  ghost predicate FirstDuplicateAt(g: Grouping, j: nat) {
    && j < |g.order|
    && (forall j' :: 0 <= j' <= j ==> g.order[j'] in g.groups)
    && |g.groups[g.order[j]]| > 1
    && forall j' :: 0 <= j' < j ==> |g.groups[g.order[j']]| <= 1
  }

  /** The loop at lines 130-133: the first package with more than one file
      stops the run. */
  method CheckDuplicates(g: Grouping) returns (o: Outcome)
    requires KeysInOrder(g)
    ensures o.Pass? <==> forall k :: k in g.groups ==> |g.groups[k]| <= 1
    ensures o.Fail? ==> exists j: nat :: FirstDuplicateAt(g, j) &&
                          o.failure == DuplicatePackage(g.order[j], g.groups[g.order[j]])
  {
    var j := 0;
    while j < |g.order|
      invariant 0 <= j <= |g.order|
      invariant forall j' :: 0 <= j' < j ==> |g.groups[g.order[j']]| <= 1
    {
      var package := g.order[j];
      var fils := g.groups[package];
      if |fils| > 1 {
        assert FirstDuplicateAt(g, j);
        return Fail(DuplicatePackage(package, fils));
      }
      j := j + 1;
    }
    forall k | k in g.groups ensures |g.groups[k]| <= 1 {
      var j' :| 0 <= j' < |g.order| && g.order[j'] == k;
    }
    return Pass;
  }

  /** A grouping whose recorded groups all have at most one file leaves no
      package of the listing with two files. */
  lemma {:induction false} SmallGroups(g: Grouping, listing: seq<string>)
    requires g.order == NameOrder(listing) && KeysInOrder(g)
    requires forall k :: k in g.groups ==> g.groups[k] == FilesNamed(listing, k)
    requires forall k :: k in g.groups ==> |g.groups[k]| <= 1
    ensures forall k :: |FilesNamed(listing, k)| <= 1
  {
    forall k
      ensures |FilesNamed(listing, k)| <= 1
    {
      NameOrderMembers(listing, k);
    }
  }

  /** `k` is the first name, in order of first appearance in the listing,
      with more than one file: the package the duplicate check reports. */
  ghost predicate FirstDuplicateName(files: seq<string>, k: string) {
    exists j :: 0 <= j < |NameOrder(files)| && NameOrder(files)[j] == k
      && |FilesNamed(files, k)| > 1
      && forall j' :: 0 <= j' < j ==> |FilesNamed(files, NameOrder(files)[j'])| <= 1
  }

  /** The key the check reports for the grouping of a listing is the
      listing's first duplicated name, with all its files. */
  lemma FirstDuplicateOfListing(g: Grouping, listing: seq<string>, j: nat)
    requires g.order == NameOrder(listing) && KeysInOrder(g)
    requires forall k :: k in g.groups ==> g.groups[k] == FilesNamed(listing, k)
    requires FirstDuplicateAt(g, j)
    ensures FirstDuplicateName(listing, g.order[j])
    ensures g.groups[g.order[j]] == FilesNamed(listing, g.order[j])
  {
    forall j' | 0 <= j' < j
      ensures |FilesNamed(listing, NameOrder(listing)[j'])| <= 1
    {
      assert g.order[j'] in g.groups;
    }
  }
}
