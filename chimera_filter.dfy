/**
 * The path filters of the Chimera-dump translator: the component-wise subpath test,
 * user extraction from `/store/user/<name>/`, the "more specific include overrides
 * exclude" table and the include/exclude decision for a directory.
 */
module ChimeraFilter {
  import opened Wrappers
  import opened Text
  import opened Paths

  // ---------------------------------------------------------------------------
  // is_subpath_of
  // ---------------------------------------------------------------------------

  /**
   * `PurePath(child).relative_to(parent)` succeeds: same root and the parent's
   * components begin the child's.
   */
  predicate IsSubpathOf(child: string, parent: string) {
    PureRoot(child) == PureRoot(parent) && Components(parent) <= Components(child)
  }

  /** Joining two non-empty lists of parts puts one separator between their joins. */
  lemma {:induction false} JoinAppend(a: seq<string>, b: seq<string>, sep: char)
    requires a != [] && b != []
    ensures Join(a + b, sep) == Join(a, sep) + [sep] + Join(b, sep)
    decreases |a|
  {
    if |a| > 1 {
      JoinAppend(a[1..], b, sep);
      assert (a + b)[1..] == a[1..] + b;
    } else {
      assert (a + b)[1..] == b;
    }
  }

  /** Splitting after a separator-free first part. */
  lemma SplitCons(p0: string, t: string)
    requires '/' !in p0
    ensures Split(p0 + "/" + t, '/') == [p0] + Split(t, '/')
  {
    SplitAfter(p0, '/', t);
  }

  lemma JoinConsThen(p0: string, tail: seq<string>, t: string)
    requires tail != []
    ensures Join([p0] + tail, '/') + "/" + t == p0 + "/" + (Join(tail, '/') + "/" + t)
  {
    assert ([p0] + tail)[1..] == tail;
  }

  /** Splitting a join followed by a separator gives the parts back, then the rest's split. */
  lemma {:induction false} SplitJoinThen(parts: seq<string>, t: string)
    requires parts != [] && forall k :: 0 <= k < |parts| ==> '/' !in parts[k]
    ensures Split(Join(parts, '/') + "/" + t, '/') == parts + Split(t, '/')
    decreases |parts|
  {
    if |parts| == 1 {
      assert Join(parts, '/') == parts[0];
      SplitCons(parts[0], t);
    } else {
      var p0, tail := parts[0], parts[1..];
      assert parts == [p0] + tail;
      SplitJoinThen(tail, t);
      SplitJoinThenStep(p0, tail, t);
    }
  }

  lemma SplitJoinThenStep(p0: string, tail: seq<string>, t: string)
    requires '/' !in p0 && tail != []
    requires Split(Join(tail, '/') + "/" + t, '/') == tail + Split(t, '/')
    ensures Split(Join([p0] + tail, '/') + "/" + t, '/') == [p0] + tail + Split(t, '/')
  {
    JoinConsThen(p0, tail, t);
    SplitCons(p0, Join(tail, '/') + "/" + t);
  }

  /** Clean components survive `DropEmpty` in front of anything. */
  lemma {:induction false} DropEmptyClean(cs: seq<string>, x: seq<string>)
    requires Clean(cs)
    requires forall k :: 0 <= k < |x| ==> '/' !in x[k]
    ensures DropEmpty(cs + x) == cs + DropEmpty(x)
    decreases |cs|
  {
    if cs != [] {
      assert (cs + x)[0] == cs[0];
      assert (cs + x)[1..] == cs[1..] + x;
      assert CleanComponent(cs[0]);
      DropEmptyClean(cs[1..], x);
      assert cs == [cs[0]] + cs[1..];
    } else {
      assert cs + x == x;
    }
  }

  /** A normal path with components starts with a character that is not a slash after its root. */
  lemma NormalStart(p: string)
    requires Normal(p) && Components(p) != []
    ensures IsAbs(p) ==> |p| >= 2 && p[1] != '/' && PureRoot(p) == "/"
    ensures !IsAbs(p) ==> |p| >= 1 && p[0] != '/' && PureRoot(p) == ""
  {
    JoinNonEmpty(Components(p));
  }

  /**
   * For paths in normal form, the component-wise test is the textual prefix test with a
   * slash boundary: a child is below its parent exactly when it equals the parent or
   * begins with the parent followed by "/".
   */
  lemma SubpathIsTextPrefix(child: string, parent: string)
    requires Normal(child) && Normal(parent) && Components(parent) != []
    ensures IsSubpathOf(child, parent) <==> child == parent || parent + "/" <= child
  {
    if IsSubpathOf(child, parent) {
      SubpathGivesTextPrefix(child, parent);
    }
    if parent + "/" <= child {
      TextPrefixIsSubpath(child, parent);
    }
  }

  /** Rendering two non-empty runs of components puts one slash between them. */
  lemma RenderAppend(abs: bool, a: seq<string>, b: seq<string>)
    requires a != [] && b != []
    ensures Render(abs, a + b) == Render(abs, a) + "/" + Join(b, '/')
  {
    JoinAppend(a, b, '/');
  }

  /** Two normal paths with components have the same root exactly when both or neither are absolute. */
  lemma SameRootSameKind(p: string, q: string)
    requires Normal(p) && Components(p) != []
    requires Normal(q) && Components(q) != []
    requires PureRoot(p) == PureRoot(q)
    ensures IsAbs(p) == IsAbs(q)
  {
    NormalStart(p);
    NormalStart(q);
  }

  lemma SubpathGivesTextPrefix(child: string, parent: string)
    requires Normal(child) && Normal(parent) && Components(parent) != []
    requires IsSubpathOf(child, parent)
    ensures child == parent || parent + "/" <= child
  {
    var pc, cc := Components(parent), Components(child);
    SameRootSameKind(child, parent);
    var abs := IsAbs(parent);
    var rest := cc[|pc|..];
    assert cc == pc + rest;
    if rest != [] {
      calc {
        child;
        Render(abs, pc + rest);
        { RenderAppend(abs, pc, rest); }
        Render(abs, pc) + "/" + Join(rest, '/');
        parent + "/" + Join(rest, '/');
      }
    } else {
      assert cc == pc;
    }
  }

  /** A leading slash adds no component. */
  lemma ComponentsAfterRoot(x: string)
    ensures Components("/" + x) == Components(x)
  {
    SplitCons("", x);
    assert "" + "/" + x == "/" + x;
    DropEmptyLeading(Split(x, '/'));
  }

  /** The components of a join of clean components followed by a slash and more text. */
  lemma ComponentsOfJoinThen(cs: seq<string>, t: string)
    requires Clean(cs) && cs != []
    ensures Components(Join(cs, '/') + "/" + t) == cs + Components(t)
  {
    SplitJoinThen(cs, t);
    DropEmptyClean(cs, Split(t, '/'));
  }

  lemma ComponentsOfRenderThen(abs: bool, cs: seq<string>, t: string)
    requires Clean(cs) && cs != []
    ensures Components(Render(abs, cs) + "/" + t) == cs + Components(t)
  {
    var j := Join(cs, '/');
    var u := j + "/" + t;
    if abs {
      calc {
        Components(Render(abs, cs) + "/" + t);
        { assert Render(abs, cs) + "/" + t == "/" + u; }
        Components("/" + u);
        { ComponentsAfterRoot(u); }
        Components(u);
        { ComponentsOfJoinThen(cs, t); }
        cs + Components(t);
      }
    } else {
      calc {
        Components(Render(abs, cs) + "/" + t);
        { assert Render(abs, cs) + "/" + t == u; }
        Components(u);
        { ComponentsOfJoinThen(cs, t); }
        cs + Components(t);
      }
    }
  }

  /** Continuing a normal path after a slash appends the continuation's components. */
  lemma ComponentsAfter(parent: string, t: string)
    requires Normal(parent) && Components(parent) != []
    ensures Components(parent + "/" + t) == Components(parent) + Components(t)
  {
    ComponentsOfRenderThen(IsAbs(parent), Components(parent), t);
  }

  /** A continuation of a normal path after a slash has the same root. */
  lemma RootAfter(parent: string, t: string)
    requires Normal(parent) && Components(parent) != []
    ensures PureRoot(parent + "/" + t) == PureRoot(parent)
  {
    NormalStart(parent);
    var c := parent + "/" + t;
    assert c[0] == parent[0];
    if IsAbs(parent) {
      assert c[1] == parent[1];
    }
  }

  /** A path that continues a normal parent after a slash is below it. */
  lemma TextPrefixIsSubpath(child: string, parent: string)
    requires Normal(parent) && Components(parent) != []
    requires parent + "/" <= child
    ensures IsSubpathOf(child, parent)
  {
    var t := child[|parent| + 1..];
    assert child == parent + "/" + t;
    ComponentsAfter(parent, t);
    RootAfter(parent, t);
  }

  /** `/a/b` is in normal form. */
  lemma NormalAB()
    ensures Normal("/a/b") && Components("/a/b") == ["a", "b"]
  {
    var cs := ["a", "b"];
    assert Join(cs, '/') == "a/b" by {
      assert cs[1..] == ["b"];
    }
    assert Render(true, cs) == "/a/b";
    ComponentsOfRender(true, cs);
  }

  /** `/a/bc` splits into `a` and `bc`. */
  lemma ComponentsABC()
    ensures Components("/a/bc") == ["a", "bc"]
  {
    var cs := ["a", "bc"];
    assert Join(cs, '/') == "a/bc" by {
      assert cs[1..] == ["bc"];
    }
    assert Render(true, cs) == "/a/bc";
    ComponentsOfRender(true, cs);
  }

  /** `/a/bc` is not below `/a/b`, although `/a/b` is a string prefix of it. */
  lemma SubpathIsComponentWise()
    ensures !IsSubpathOf("/a/bc", "/a/b")
  {
    NormalAB();
    ComponentsABC();
    assert ["a", "b"][1] != ["a", "bc"][1];
  }

  /** Every path is below itself. */
  lemma SubpathReflexive(p: string)
    ensures IsSubpathOf(p, p)
  {
  }

  // ---------------------------------------------------------------------------
  // extract_user with the default pattern /store/user/([^/]+)/
  // ---------------------------------------------------------------------------

  const UserMarker: string := "/store/user/"
  const DefaultUser: string := "CMS"

  /** The name the pattern captures when its literal part starts at `i`. */
  function NameAt(s: string, i: nat): string
    requires i + |UserMarker| <= |s|
  {
    var rest := s[i + |UserMarker|..];
    rest[..IndexOf(rest, '/')]
  }

  /** The pattern matches at `i`: the marker, then one or more non-slash characters, then a slash. */
  predicate MatchAt(s: string, i: nat) {
    && OccursAt(s, UserMarker, i)
    && var rest := s[i + |UserMarker|..];
       0 < IndexOf(rest, '/') < |rest|
  }

  /** `re.search`: the leftmost index at or after `from` where the pattern matches. */
  function SearchFrom(s: string, from: nat): (r: Option<nat>)
    requires from <= |s|
    ensures r.Some? ==> from <= r.value <= |s| && MatchAt(s, r.value)
    ensures r.Some? ==> forall j :: from <= j < r.value ==> !MatchAt(s, j)
    ensures r.None? ==> forall j :: from <= j <= |s| ==> !MatchAt(s, j)
    decreases |s| - from
  {
    if MatchAt(s, from) then Some(from)
    else if from == |s| then None
    else SearchFrom(s, from + 1)
  }

  /** The user of a path, `defaultUser` when no user directory is found or it is `rucio`. */
  function ExtractUser(path: string, defaultUser: string): (user: string)
    ensures user == defaultUser || (user != [] && '/' !in user && Lower(user) != "rucio")
  {
    match SearchFrom(path, 0)
    case None => defaultUser
    case Some(i) =>
      var name := NameAt(path, i);
      if Lower(name) == "rucio" then defaultUser else name
  }

  /**
   * The user is the default when the pattern matches nowhere; otherwise it is the name
   * captured at the leftmost match, unless that name is `rucio` in any case.
   */
  lemma ExtractUserLeftmost(path: string, defaultUser: string)
    ensures (forall i :: 0 <= i <= |path| ==> !MatchAt(path, i)) ==> ExtractUser(path, defaultUser) == defaultUser
    ensures forall i :: 0 <= i <= |path| && MatchAt(path, i) && (forall j :: 0 <= j < i ==> !MatchAt(path, j)) ==>
      ExtractUser(path, defaultUser) == if Lower(NameAt(path, i)) == "rucio" then defaultUser else NameAt(path, i)
  {
    match SearchFrom(path, 0)
    case None =>
    case Some(k) =>
      forall i | 0 <= i <= |path| && MatchAt(path, i) && (forall j :: 0 <= j < i ==> !MatchAt(path, j))
        ensures i == k
      {
      }
  }

  /** With a default user free of slashes, the user column never holds a slash. */
  lemma UserHasNoSlash(path: string, defaultUser: string)
    requires '/' !in defaultUser
    ensures '/' !in ExtractUser(path, defaultUser)
  {
  }

  /** A path starting with a user directory yields that user, or the default for `rucio`. */
  lemma ExtractUserLeading(name: string, rest: string, defaultUser: string)
    requires name != [] && '/' !in name
    ensures ExtractUser(UserMarker + name + "/" + rest, defaultUser)
            == if Lower(name) == "rucio" then defaultUser else name
  {
    var s := UserMarker + name + "/" + rest;
    var after := name + "/" + rest;
    assert s[..|UserMarker|] == UserMarker;
    assert s[|UserMarker|..] == after;
    assert after == name + ['/'] + rest;
    IndexOfAfter(name, '/', rest);
    assert after[..|name|] == name;
    assert MatchAt(s, 0);
    assert SearchFrom(s, 0) == Some(0);
    assert NameAt(s, 0) == name;
  }

  /** A path without the user marker gets the default user. */
  lemma ExtractUserNoMarker(path: string, defaultUser: string)
    requires !Contains(path, UserMarker)
    ensures ExtractUser(path, defaultUser) == defaultUser
  {
    ContainsIff(path, UserMarker);
  }

  /** The central `rucio` area is attributed to the default user, whatever its case. */
  lemma RucioIsDefault(rest: string, defaultUser: string)
    ensures ExtractUser(UserMarker + "Rucio/" + rest, defaultUser) == defaultUser
  {
    assert UserMarker + "Rucio/" + rest == UserMarker + "Rucio" + "/" + rest;
    assert Lower("Rucio") == "rucio";
    ExtractUserLeading("Rucio", rest, defaultUser);
  }

  // ---------------------------------------------------------------------------
  // compute_include_overrides
  // ---------------------------------------------------------------------------

  /** An include overrides an exclude when it is a different path below it. */
  predicate Overrides(inc: string, exc: string) {
    inc != exc && IsSubpathOf(inc, exc)
  }

  /** The includes overriding `exc`, in their original order. */
  function OverridingIncludes(includes: seq<string>, exc: string): (r: seq<string>)
    ensures forall x :: x in r <==> x in includes && Overrides(x, exc)
  {
    if includes == [] then []
    else
      var init, last := includes[..|includes| - 1], includes[|includes| - 1];
      var rest := OverridingIncludes(init, exc);
      assert includes == init + [last];
      if Overrides(last, exc) then rest + [last] else rest
  }

  /** Each overriding include is kept as often as it is listed; every other path is dropped. */
  lemma {:induction false} OverridingCount(includes: seq<string>, exc: string, x: string)
    ensures multiset(OverridingIncludes(includes, exc))[x] == if Overrides(x, exc) then multiset(includes)[x] else 0
    decreases |includes|
  {
    if includes != [] {
      var init, last := includes[..|includes| - 1], includes[|includes| - 1];
      OverridingCount(init, exc, x);
      assert includes == init + [last];
      assert multiset(includes) == multiset(init) + multiset{last};
    }
  }

  /** Filtering a concatenation filters each part: the order of the includes is kept. */
  lemma {:induction false} OverridingAppend(a: seq<string>, b: seq<string>, exc: string)
    ensures OverridingIncludes(a + b, exc) == OverridingIncludes(a, exc) + OverridingIncludes(b, exc)
    decreases |b|
  {
    if b == [] {
      assert a + b == a;
    } else {
      var b' := b[..|b| - 1];
      assert (a + b)[..|a + b| - 1] == a + b';
      OverridingAppend(a, b', exc);
    }
  }

  /** The table from each exclude path to the includes that override it. */
  function ComputeIncludeOverrides(includes: seq<string>, excludes: seq<string>): (m: map<string, seq<string>>)
    ensures m.Keys == set e | e in excludes
    ensures forall e :: e in m ==> m[e] == OverridingIncludes(includes, e)
  {
    map e | e in excludes :: OverridingIncludes(includes, e)
  }

  /** Every overriding include in the table is one of the includes. */
  lemma OverridesDrawnFromIncludes(includes: seq<string>, excludes: seq<string>, e: string, inc: string)
    requires e in ComputeIncludeOverrides(includes, excludes)
    requires inc in ComputeIncludeOverrides(includes, excludes)[e]
    ensures inc in includes && inc != e && IsSubpathOf(inc, e)
  {
  }

  // ---------------------------------------------------------------------------
  // should_process_path
  // ---------------------------------------------------------------------------

  /** `[p for p in ps if p in path]`. */
  function MatchingPaths(path: string, ps: seq<string>): (r: seq<string>)
    ensures forall x :: x in r <==> x in ps && Contains(path, x)
    ensures |r| <= |ps|
  {
    if ps == [] then []
    else
      var rest := MatchingPaths(path, ps[..|ps| - 1]);
      var last := ps[|ps| - 1];
      assert ps == ps[..|ps| - 1] + [last];
      if Contains(path, last) then rest + [last] else rest
  }

  /** `include_overrides.get(exc, [])`. */
  function Lookup(overrides: map<string, seq<string>>, exc: string): seq<string> {
    if exc in overrides then overrides[exc] else []
  }

  /** `any(inc in path for inc in ps)`. */
  predicate AnyIn(path: string, ps: seq<string>) {
    exists p :: p in ps && Contains(path, p)
  }

  /** The scan over the matching excludes that stops at the first one an include saves. */
  function SavedByInclude(path: string, matching: seq<string>, overrides: map<string, seq<string>>): (saved: bool)
    ensures saved <==> exists e :: e in matching && AnyIn(path, Lookup(overrides, e))
  {
    if matching == [] then false
    else if AnyIn(path, Lookup(overrides, matching[0])) then true
    else
      assert forall e :: e in matching ==> e == matching[0] || e in matching[1..];
      SavedByInclude(path, matching[1..], overrides)
  }

  /**
   * Whether the files of directory `path` are translated. An exclude found in the path
   * rejects it unless some exclude found in it has an overriding include that is also in
   * the path; a non-empty include list further demands that one include is in the path.
   */
  function ShouldProcessPath(path: string, includes: seq<string>, excludes: seq<string>,
                             overrides: map<string, seq<string>>): bool
  {
    var matchingIncludes := if includes != [] then MatchingPaths(path, includes) else [];
    var matchingExcludes := if excludes != [] then MatchingPaths(path, excludes) else [];
    if matchingExcludes != [] && !SavedByInclude(path, matchingExcludes, overrides) then
      false
    else if includes != [] && matchingIncludes == [] then false
    else true
  }

  /**
   * The decision stated without the scans: no exclude is in the path, or some exclude in
   * the path has an overriding include that is in the path too; and, when includes are
   * given, one of them is in the path.
   */
  lemma ShouldProcessIff(path: string, includes: seq<string>, excludes: seq<string>,
                         overrides: map<string, seq<string>>)
    ensures ShouldProcessPath(path, includes, excludes, overrides) <==>
      && (!AnyIn(path, excludes) || exists e :: e in excludes && Contains(path, e) && AnyIn(path, Lookup(overrides, e)))
      && (includes == [] || AnyIn(path, includes))
  {
    var matchingIncludes := if includes != [] then MatchingPaths(path, includes) else [];
    var matchingExcludes := if excludes != [] then MatchingPaths(path, excludes) else [];
    if matchingExcludes != [] {
      assert matchingExcludes[0] in excludes;
    }
    assert forall e :: e in excludes && Contains(path, e) ==> e in matchingExcludes;
    if includes != [] && matchingIncludes != [] {
      assert matchingIncludes[0] in includes;
    }
  }

  /** Without any include or exclude every directory is translated. */
  lemma NoFiltersAcceptAll(path: string, overrides: map<string, seq<string>>)
    ensures ShouldProcessPath(path, [], [], overrides)
  {
    ShouldProcessIff(path, [], [], overrides);
  }

  /** Without a matching exclude, a non-empty include list accepts exactly the paths holding an include. */
  lemma IncludesDecide(path: string, includes: seq<string>, excludes: seq<string>, overrides: map<string, seq<string>>)
    requires includes != [] && !AnyIn(path, excludes)
    ensures ShouldProcessPath(path, includes, excludes, overrides) <==> AnyIn(path, includes)
  {
    ShouldProcessIff(path, includes, excludes, overrides);
  }

  /** A path with a matching exclude that no overriding include saves is rejected. */
  lemma UnsavedExcludeRejects(path: string, includes: seq<string>, excludes: seq<string>, overrides: map<string, seq<string>>)
    requires AnyIn(path, excludes)
    requires forall e :: e in excludes && Contains(path, e) ==> !AnyIn(path, Lookup(overrides, e))
    ensures !ShouldProcessPath(path, includes, excludes, overrides)
  {
    ShouldProcessIff(path, includes, excludes, overrides);
  }

  /**
   * With the computed override table, a path saved by an overriding include is accepted:
   * the saving include is one of the includes, so the include test passes as well.
   */
  lemma SavedIsAccepted(path: string, includes: seq<string>, excludes: seq<string>, e: string)
    requires e in excludes && Contains(path, e)
    requires AnyIn(path, OverridingIncludes(includes, e))
    ensures ShouldProcessPath(path, includes, excludes, ComputeIncludeOverrides(includes, excludes))
  {
    var overrides := ComputeIncludeOverrides(includes, excludes);
    assert Lookup(overrides, e) == OverridingIncludes(includes, e);
    var inc :| inc in OverridingIncludes(includes, e) && Contains(path, inc);
    assert inc in includes;
    ShouldProcessIff(path, includes, excludes, overrides);
  }

  /** "Exclude A except B": with B below A, a path under B is kept and the rest of A is not. */
  lemma ExcludeExceptInclude(path: string, a: string, b: string)
    requires Overrides(b, a)
    requires Contains(path, a)
    ensures ShouldProcessPath(path, [b], [a], ComputeIncludeOverrides([b], [a])) <==> Contains(path, b)
  {
    var overrides := ComputeIncludeOverrides([b], [a]);
    assert OverridingIncludes([b], a) == [b] by {
      assert [b][..0] == [];
    }
    assert Lookup(overrides, a) == [b];
    assert AnyIn(path, [a]) by { assert a in [a]; }
    ShouldProcessIff(path, [b], [a], overrides);
    if Contains(path, b) {
      assert AnyIn(path, [b]) by { assert b in [b]; }
      assert a in [a] && Contains(path, a) && AnyIn(path, Lookup(overrides, a));
    } else {
      assert !AnyIn(path, [b]);
    }
  }
}
