/** The parts of Python's `posixpath` the script relies on: split, join,
    basename and the absolute-path case of abspath/normpath. Paths are plain
    strings; the filesystem itself is not consulted. */
module Paths {

  /** Python's `s.split(sep)`: the pieces of `s` between occurrences of `sep`. */
  function Split(s: string, sep: char): (parts: seq<string>)
    ensures |parts| >= 1
    decreases |s|
  {
    if s == [] then [[]]
    else
      var rest := Split(s[1..], sep);
      if s[0] == sep then [[]] + rest
      else [[s[0]] + rest[0]] + rest[1..]
  }

  /** Python's `sep.join(parts)`. */
  function Join(parts: seq<string>, sep: char): string
    decreases |parts|
  {
    if parts == [] then []
    else if |parts| == 1 then parts[0]
    else parts[0] + [sep] + Join(parts[1..], sep)
  }

  predicate IsAbsolute(p: string) {
    |p| > 0 && p[0] == '/'
  }

  type AbsolutePath = p: string | IsAbsolute(p) witness "/"

  /** A component that survives normalization: not empty, not "." and not "..". */
  predicate Plain(comp: string) {
    comp != "" && comp != "." && comp != ".."
  }

  /** One step of normpath on an absolute path: empty and "." components are
      dropped, ".." drops the last kept component (at the root there is none). */
  function Step(kept: seq<string>, comp: string): seq<string>
  {
    if comp == "" || comp == "." then kept
    else if comp == ".." then (if kept == [] then [] else kept[..|kept| - 1])
    else kept + [comp]
  }

  /** The components kept after processing `comps`, left to right, from `kept`. */
  function Resolve(kept: seq<string>, comps: seq<string>): (r: seq<string>)
    ensures (forall i :: 0 <= i < |kept| ==> Plain(kept[i])) ==> forall i :: 0 <= i < |r| ==> Plain(r[i])
    decreases |comps|
  {
    if comps == [] then kept else Resolve(Step(kept, comps[0]), comps[1..])
  }

  /** posixpath.normpath of an absolute path. POSIX lets exactly two leading
      slashes mean something else, so normpath keeps those two. */
  function Normpath(p: AbsolutePath): AbsolutePath
  {
    Lead(p) + Join(Resolve([], Split(p, '/')), '/')
  }

  /** The leading slashes normpath keeps. */
  function Lead(p: string): string {
    if |p| >= 2 && p[1] == '/' && (|p| == 2 || p[2] != '/') then "//" else "/"
  }

  /** posixpath.join(a, b): an absolute `b` replaces `a`, otherwise a single
      '/' is put between them unless `a` is empty or already ends with one. */
  function PathJoin(a: string, b: string): (r: string)
    ensures IsAbsolute(a) || IsAbsolute(b) ==> IsAbsolute(r)
  {
    if IsAbsolute(b) then b
    else if a == [] || a[|a| - 1] == '/' then a + b
    else a + "/" + b
  }

  /** posixpath.abspath with the working directory `cwd`. */
  function AbsPath(cwd: AbsolutePath, p: string): AbsolutePath
  {
    Normpath(if IsAbsolute(p) then p else PathJoin(cwd, p))
  }

  /** posixpath.basename: the text after the last '/'. */
  function Basename(p: string): string
    decreases |p|
  {
    if p == [] || p[|p| - 1] == '/' then []
    else Basename(p[..|p| - 1]) + [p[|p| - 1]]
  }

  /** The basename is the longest suffix without '/'. */
  lemma {:induction false} BasenameIsLastComponent(p: string)
    ensures var r := Basename(p);
            && '/' !in r
            && |r| <= |p| && p[|p| - |r|..] == r
            && (|r| == |p| || p[|p| - |r| - 1] == '/')
    decreases |p|
  {
    if p != [] && p[|p| - 1] != '/' {
      var init := p[..|p| - 1];
      BasenameIsLastComponent(init);
      var r := Basename(init);
      assert p[|p| - |r| - 1..] == init[|init| - |r|..] + [p[|p| - 1]];
      if |r| < |init| {
        assert p[|p| - |r| - 2] == init[|init| - |r| - 1];
      }
    }
  }

  /** The basename of `d + "/" + f`, for a name `f` without '/', is `f`. */
  lemma {:induction false} BasenameOfJoin(d: string, f: string)
    requires '/' !in f
    ensures Basename(d + "/" + f) == f
    decreases |f|
  {
    var p := d + "/" + f;
    if f != [] {
      var f' := f[..|f| - 1];
      assert p[..|p| - 1] == d + "/" + f';
      BasenameOfJoin(d, f');
      assert f == f' + [f[|f| - 1]];
    }
  }

  /** Splitting at an occurrence of the separator splits the two sides apart. */
  lemma {:induction false} SplitAtSep(x: string, sep: char, y: string)
    ensures Split(x + [sep] + y, sep) == Split(x, sep) + Split(y, sep)
    decreases |x|
  {
    var s := x + [sep] + y;
    if x == [] {
      assert s == [sep] + y && s[1..] == y;
    } else {
      assert s[0] == x[0] && s[1..] == x[1..] + [sep] + y;
      SplitAtSep(x[1..], sep, y);
    }
  }

  /** Normalizing `a + b` is normalizing `a`, then `b` from there. */
  lemma {:induction false} ResolveConcat(kept: seq<string>, a: seq<string>, b: seq<string>)
    ensures Resolve(kept, a + b) == Resolve(Resolve(kept, a), b)
    decreases |a|
  {
    if a != [] {
      assert (a + b)[0] == a[0] && (a + b)[1..] == a[1..] + b;
      ResolveConcat(Step(kept, a[0]), a[1..], b);
    } else {
      assert a + b == b;
    }
  }

  /** A leading "./" does not change where a relative path resolves to. */
  lemma AbsPathDotPrefix(cwd: AbsolutePath, p: string)
    requires !IsAbsolute(p)
    ensures AbsPath(cwd, "./" + p) == AbsPath(cwd, p)
  {
    var c := if cwd[|cwd| - 1] == '/' then cwd[..|cwd| - 1] else cwd;
    assert c + "/" == cwd || c == cwd;
    var s1, s2 := PathJoin(cwd, "./" + p), PathJoin(cwd, p);
    assert s1 == c + ['/'] + ("." + ['/'] + p);
    assert s2 == c + ['/'] + p;
    DotComponent(c, p);
    DotLead(c, p);
  }

  /** Normalization drops a "." component. */
  lemma DotComponent(c: string, p: string)
    ensures Resolve([], Split(c + ['/'] + ("." + ['/'] + p), '/')) == Resolve([], Split(c + ['/'] + p, '/'))
  {
    SplitAtSep(c, '/', "." + ['/'] + p);
    SplitAtSep(".", '/', p);
    SplitAtSep(c, '/', p);
    SplitDot();
    assert Split(c + ['/'] + ("." + ['/'] + p), '/') == Split(c, '/') + (["."] + Split(p, '/'));
    var k := Resolve([], Split(c, '/'));
    ResolveConcat([], Split(c, '/'), ["."] + Split(p, '/'));
    ResolveConcat(k, ["."], Split(p, '/'));
    ResolveConcat([], Split(c, '/'), Split(p, '/'));
    assert Resolve(k, ["."]) == k;
  }

  /** "." is a single component. */
  lemma SplitDot()
    ensures Split(".", '/') == ["."]
  {
    var d: string := ".";
    assert d[0] == '.' && d[1..] == [];
    var rest := Split(d[1..], '/');
    assert rest == [[]];
    assert Split(d, '/') == [[d[0]] + rest[0]] + rest[1..];
    assert [d[0]] + rest[0] == d && rest[1..] == [];
  }

  /** Inserting "./" after the working directory keeps normpath's leading slashes. */
  lemma DotLead(c: string, p: string)
    requires !IsAbsolute(p)
    ensures Lead(c + ['/'] + ("." + ['/'] + p)) == Lead(c + ['/'] + p)
  {
    var s1, s2 := c + ['/'] + ("." + ['/'] + p), c + ['/'] + p;
    assert s1[..|c| + 1] == s2[..|c| + 1];
    if |c| == 0 {
      assert s1[1] == '.';
      assert |s2| == 1 || s2[1] != '/';
    } else if |c| == 1 {
      assert s1[2] == '.';
      assert |s2| == 2 || s2[2] != '/';
    } else {
      assert s1[1] == s2[1] && s1[2] == s2[2];
    }
  }

  /** os.path.abspath of a process whose working directory is `cwd`. */
  function Resolver(cwd: AbsolutePath): string -> AbsolutePath {
    p => AbsPath(cwd, p)
  }
}
