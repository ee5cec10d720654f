/**
 * POSIX path handling as the scripts use it: `pathlib.PurePosixPath` parsing,
 * `os.path.commonpath`, `os.path.relpath`, `os.path.join`, `os.path.split`,
 * `os.path.basename` and `os.path.splitext`.
 */
module Paths {
  import opened Wrappers
  import opened Text

  /** A path component as the parsers keep it: non-empty, not ".", no separator. */
  predicate CleanComponent(c: string) {
    c != [] && c != "." && '/' !in c
  }

  predicate Clean(cs: seq<string>) {
    forall k :: 0 <= k < |cs| ==> CleanComponent(cs[k])
  }

  /** Drops the empty and "." pieces of a split path. */
  function DropEmpty(parts: seq<string>): (r: seq<string>)
    requires forall k :: 0 <= k < |parts| ==> '/' !in parts[k]
    ensures Clean(r)
    ensures Clean(parts) ==> r == parts
  {
    if parts == [] then []
    else if parts[0] == [] || parts[0] == "." then DropEmpty(parts[1..])
    else [parts[0]] + DropEmpty(parts[1..])
  }

  /** The components both `PurePosixPath` and `commonpath` keep (".." stays a component). */
  function Components(p: string): (cs: seq<string>)
    ensures Clean(cs)
  {
    DropEmpty(Split(p, '/'))
  }

  /** The root `PurePosixPath` gives a path: exactly two leading slashes are kept as "//". */
  function PureRoot(p: string): string {
    if |p| >= 2 && p[0] == '/' && p[1] == '/' && (|p| == 2 || p[2] != '/') then "//"
    else if |p| >= 1 && p[0] == '/' then "/"
    else ""
  }

  predicate IsAbs(p: string) {
    |p| > 0 && p[0] == '/'
  }

  /** The text `commonpath` builds from a list of components. */
  function Render(abs: bool, cs: seq<string>): string {
    (if abs then "/" else "") + Join(cs, '/')
  }

  /** A path written the way `commonpath` writes it back. */
  predicate Normal(p: string) {
    p == Render(IsAbs(p), Components(p))
  }

  /** The longest common prefix of two sequences. */
  function CommonPrefix<T(==)>(a: seq<T>, b: seq<T>): (r: seq<T>)
    ensures r <= a && r <= b
    ensures |r| == |a| || |r| == |b| || a[|r|] != b[|r|]
  {
    if a == [] || b == [] || a[0] != b[0] then []
    else [a[0]] + CommonPrefix(a[1..], b[1..])
  }

  /** `os.path.commonpath([p, q])`; `None` where it raises (absolute mixed with relative). */
  function CommonPath(p: string, q: string): Option<string>
  {
    if IsAbs(p) != IsAbs(q) then None
    else Some(Render(IsAbs(p), CommonPrefix(Components(p), Components(q))))
  }

  lemma DropEmptyLeading(x: seq<string>)
    requires forall k :: 0 <= k < |x| ==> '/' !in x[k]
    ensures DropEmpty([""] + x) == DropEmpty(x)
  {
    assert ([""] + x)[1..] == x;
  }

  /** Parsing a rendered path gives its components back. */
  lemma ComponentsOfRender(abs: bool, cs: seq<string>)
    requires Clean(cs)
    ensures Components(Render(abs, cs)) == cs
    ensures IsAbs(Render(abs, cs)) == abs
  {
    var j := Join(cs, '/');
    if cs == [] {
      assert Split(j, '/') == [""];
    } else {
      SplitJoin(cs, '/');
      JoinNonEmpty(cs);
    }
    if abs {
      SplitAfter([], '/', j);
      assert Render(abs, cs) == [] + ['/'] + j;
      DropEmptyLeading(Split(j, '/'));
    } else {
      assert Render(abs, cs) == j;
    }
  }

  /** The join of clean components begins and ends with a character of a component. */
  lemma {:induction false} JoinNonEmpty(cs: seq<string>)
    requires Clean(cs) && cs != []
    ensures Join(cs, '/') != []
    ensures Join(cs, '/')[0] == cs[0][0]
    ensures Join(cs, '/')[|Join(cs, '/')| - 1] == cs[|cs| - 1][|cs[|cs| - 1]| - 1]
    decreases |cs|
  {
    assert CleanComponent(cs[0]);
    if |cs| > 1 {
      var tail := Join(cs[1..], '/');
      JoinNonEmpty(cs[1..]);
      assert cs[1..][|cs| - 2] == cs[|cs| - 1];
      JoinCons(cs[0], '/', tail);
      assert Join(cs, '/') == cs[0] + ['/'] + tail;
    }
  }

  lemma JoinCons<T>(a: seq<T>, sep: T, b: seq<T>)
    requires a != [] && b != []
    ensures (a + [sep] + b)[0] == a[0]
    ensures (a + [sep] + b)[|a + [sep] + b| - 1] == b[|b| - 1]
  {
  }

  /** Joining one more component at the end. */
  lemma {:induction false} JoinSnoc(cs: seq<string>, c: string, sep: char)
    requires cs != []
    ensures Join(cs + [c], sep) == Join(cs, sep) + [sep] + c
    decreases |cs|
  {
    if |cs| > 1 {
      JoinSnoc(cs[1..], c, sep);
      assert (cs + [c])[1..] == cs[1..] + [c];
    }
  }

  /**
   * For a path in the form `commonpath` writes, `commonpath([p, q]) == q` holds exactly
   * when both are absolute or both relative and q's components begin p's.
   */
  lemma CommonPathIsBase(p: string, q: string)
    requires Normal(q)
    ensures CommonPath(p, q) == Some(q) <==> IsAbs(p) == IsAbs(q) && Components(q) <= Components(p)
  {
    var cp, cq := Components(p), Components(q);
    if IsAbs(p) == IsAbs(q) {
      var l := CommonPrefix(cp, cq);
      assert Clean(l) by {
        forall k | 0 <= k < |l| ensures CleanComponent(l[k]) { assert l[k] == cp[k]; }
      }
      if CommonPath(p, q) == Some(q) {
        ComponentsOfRender(IsAbs(p), l);
        assert l == cq;
      }
      if cq <= cp {
        assert l == cq;
      }
    }
  }

  /** `os.path.relpath(path, start)` for two paths of the same kind with no ".." component. */
  function RelPath(path: string, start: string): string
  {
    var sl, pl := Components(start), Components(path);
    var i := |CommonPrefix(sl, pl)|;
    var rel := seq(|sl| - i, _ => "..") + pl[i..];
    if rel == [] then "." else Join(rel, '/')
  }

  /** Index of the last `c` in `s` (`str.rfind`), or -1. */
  function LastIndexOf(s: string, c: char): (i: int)
    ensures -1 <= i < |s|
    ensures i >= 0 ==> s[i] == c
    ensures forall j :: i < j < |s| ==> s[j] != c
  {
    if s == [] then -1
    else if s[|s| - 1] == c then |s| - 1
    else LastIndexOf(s[..|s| - 1], c)
  }

  /** `os.path.split(p)`: the head (trailing slashes removed unless it is all slashes) and the tail. */
  function PathSplit(p: string): (string, string)
  {
    var i := LastIndexOf(p, '/') + 1;
    var head, tail := p[..i], p[i..];
    var trimmed := TrimEnd(head, IsSlash);
    if trimmed != [] then (trimmed, tail) else (head, tail)
  }

  /** The last `c` of `a + [c] + b` is the one after `a` when `b` holds none. */
  lemma {:induction false} LastIndexBefore(a: string, c: char, b: string)
    requires c !in b
    ensures LastIndexOf(a + [c] + b, c) == |a|
    decreases |b|
  {
    var j := a + [c] + b;
    if b != [] {
      assert j[|j| - 1] == b[|b| - 1];
      assert j[..|j| - 1] == a + [c] + b[..|b| - 1];
      LastIndexBefore(a, c, b[..|b| - 1]);
    }
  }

  /** `rstrip("/")` removes exactly one final slash after text not ending in a slash. */
  lemma TrimOneSlash(x: string)
    requires x != [] && x[|x| - 1] != '/'
    ensures TrimEnd(x + ['/'], IsSlash) == x
  {
    var h := x + ['/'];
    var t := TrimEnd(h, IsSlash);
    assert h[|x| - 1] == x[|x| - 1];
    assert h[|h| - 1] == '/';
    assert |t| == |x|;
  }

  /** A path with a slash-free last part after one slash splits at that slash. */
  lemma PathSplitAt(x: string, y: string)
    requires x != [] && x[|x| - 1] != '/' && '/' !in y
    ensures PathSplit(x + ['/'] + y) == (x, y)
  {
    var j := x + ['/'] + y;
    LastIndexBefore(x, '/', y);
    assert j[..|x| + 1] == x + ['/'];
    assert j[|x| + 1..] == y;
    TrimOneSlash(x);
  }

  /** A slash-free path is all tail. */
  lemma PathSplitNoSlash(y: string)
    requires '/' !in y
    ensures PathSplit(y) == ([], y)
  {
    assert LastIndexOf(y, '/') == -1;
    assert y[..0] == [] && y[0..] == y;
  }

  /** The head of a joined list of clean components is the join of all but the last. */
  lemma PathSplitOfJoin(cs: seq<string>)
    requires Clean(cs) && cs != []
    ensures PathSplit(Join(cs, '/')) == (Join(cs[..|cs| - 1], '/'), cs[|cs| - 1])
  {
    if |cs| == 1 {
      var last := cs[0];
      assert CleanComponent(last);
      assert Join(cs, '/') == last;
      PathSplitNoSlash(last);
    } else {
      PathSplitOfLongJoin(cs);
    }
  }

  lemma PathSplitOfLongJoin(cs: seq<string>)
    requires Clean(cs) && |cs| > 1
    ensures PathSplit(Join(cs, '/')) == (Join(cs[..|cs| - 1], '/'), cs[|cs| - 1])
  {
    var init, last := cs[..|cs| - 1], cs[|cs| - 1];
    JoinOfInit(cs);
    InitJoinEndsClean(cs);
    PathSplitAt(Join(init, '/'), last);
  }

  lemma JoinOfInit(cs: seq<string>)
    requires |cs| > 1
    ensures Join(cs, '/') == Join(cs[..|cs| - 1], '/') + ['/'] + cs[|cs| - 1]
  {
    assert cs == cs[..|cs| - 1] + [cs[|cs| - 1]];
    JoinSnoc(cs[..|cs| - 1], cs[|cs| - 1], '/');
  }

  lemma InitJoinEndsClean(cs: seq<string>)
    requires Clean(cs) && |cs| > 1
    ensures var j := Join(cs[..|cs| - 1], '/'); j != [] && j[|j| - 1] != '/'
    ensures '/' !in cs[|cs| - 1]
  {
    var init := cs[..|cs| - 1];
    assert CleanComponent(cs[|cs| - 1]);
    assert CleanComponent(cs[|cs| - 2]);
    assert Clean(init);
    JoinNonEmpty(init);
  }

  /** `os.path.basename(p)`. */
  function Basename(p: string): (r: string)
    ensures '/' !in r
    ensures |r| <= |p| && r == p[|p| - |r|..]
  {
    p[LastIndexOf(p, '/') + 1..]
  }

  /** `os.path.splitext(p)`: the extension starts at the last dot of the last component, unless that component is all dots before it. */
  function SplitExt(p: string): (r: (string, string))
    ensures r.0 + r.1 == p
    ensures r.1 == [] || (r.1[0] == '.' && '/' !in r.1)
  {
    var s := LastIndexOf(p, '/');
    var d := LastIndexOf(p, '.');
    if d > s && exists k :: s + 1 <= k < d && p[k] != '.' then
      assert p[..d] + p[d..] == p;
      (p[..d], p[d..])
    else (p, "")
  }

  /** `os.path.join(a, b)`: an absolute `b` replaces `a`; otherwise one slash between them. */
  function PathJoin(a: string, b: string): string
  {
    if |b| > 0 && b[0] == '/' then b
    else if a == [] || a[|a| - 1] == '/' then a + b
    else a + "/" + b
  }

  /** A relative second part never discards the first. */
  lemma PathJoinKeepsBase(a: string, b: string)
    requires b == [] || b[0] != '/'
    ensures a <= PathJoin(a, b)
    ensures PathJoin(a, b) == a + b || PathJoin(a, b) == a + "/" + b
  {
  }
}
