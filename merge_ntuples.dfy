/**
 * `merge_crown_ntuples_and_friends.py`: the files of a list are classified as CROWN
 * ntuples or friend trees by their place under two directories, grouped by job and file
 * type, checked for equal event counts across the file types, and merged job by job.
 *
 * The number of entries of a file's tree (read with uproot) is the parameter `entries`.
 */
module MergeNtuples {
  import opened Wrappers
  import opened Text
  import opened Paths
  import opened Dicts

  /** The directories and the friend types that are merged; the script fixes them at its top. */
  datatype Layout = Layout(ntuplesDir: string, friendsDir: string, allowedFriends: seq<string>)

  const MainDirectory: string := "input_files/CROWN/ntuples/11_07_24_alleras_allch/"

  const ScriptLayout: Layout := Layout(
    PathJoin(MainDirectory, "CROWNRun"),
    PathJoin(MainDirectory, "CROWNFriends"),
    ["crosssection",
     "jetfakes_wpVSjet_Loose_30_08_24_LoosevsJetsvsL",
     "jetfakes_wpVSjet_Loose_11_10_24_LoosevsJetsvsL_measure_njetclosure",
     "jetfakes_wpVSjet_Loose_11_10_24_LoosevsJetsvsL_measure_metclosure",
     "met_unc_22_10_24",
     "pt_1_unc_22_10_24",
     "nn_friends_18_07_24_LoosevsJL"])

  /** Both directories of the script sit side by side below the main directory. */
  lemma ScriptDirectories()
    ensures ScriptLayout.ntuplesDir == MainDirectory + "CROWNRun"
    ensures ScriptLayout.friendsDir == MainDirectory + "CROWNFriends"
  {
  }

  // ---------------------------------------------------------------------------
  // is_subpath

  /** `is_subpath(path, base)`: `commonpath([path, base]) == base`, false where `commonpath` raises. */
  predicate IsSubpath(path: string, base: string) {
    CommonPath(path, base) == Some(base)
  }

  /**
   * Only a base written the way `commonpath` writes paths can contain anything: a base with a
   * trailing slash, a doubled slash or a "." component never does, not even itself.
   */
  lemma IsSubpathNeedsNormalBase(path: string, base: string)
    requires IsSubpath(path, base)
    ensures Normal(base)
  {
    var l := CommonPrefix(Components(path), Components(base));
    assert Clean(l) by {
      forall k | 0 <= k < |l| ensures CleanComponent(l[k]) { assert l[k] == Components(path)[k]; }
    }
    ComponentsOfRender(IsAbs(path), l);
  }

  /**
   * `is_subpath` holds exactly when the base is in normal form, both paths are of the same
   * kind (mixing absolute and relative makes `commonpath` raise) and the base's components
   * begin the path's.
   */
  lemma IsSubpathIff(path: string, base: string)
    ensures IsSubpath(path, base) <==>
      Normal(base) && IsAbs(path) == IsAbs(base) && Components(base) <= Components(path)
  {
    if IsSubpath(path, base) {
      IsSubpathNeedsNormalBase(path, base);
    }
    if Normal(base) {
      CommonPathIsBase(path, base);
    }
  }

  /** A normal path lies below itself; `"a/"` does not. */
  lemma IsSubpathReflexive(p: string)
    ensures IsSubpath(p, p) <==> Normal(p)
  {
    IsSubpathIff(p, p);
  }

  // ---------------------------------------------------------------------------
  // get_files

  /**
   * `l.strip().split()[0]`: the leading run of non-white-space characters of the stripped
   * line; `None` where the line is blank and `[0]` raises `IndexError`.
   */
  function FirstWord(l: string): Option<string> {
    var t := Strip(l);
    if t == [] then None else Some(t[..WordLength(t)])
  }

  /**
   * The leading run is the first element of `split()`, and it is a word followed by white
   * space or by the end of the stripped line.
   */
  lemma FirstWordSpec(l: string)
    ensures FirstWord(l).None? <==> Fields(Strip(l)) == []
    ensures FirstWord(l).Some? ==> var t, w := Strip(l), FirstWord(l).value;
      w == Fields(t)[0] && Word(w) && w <= t && (|w| == |t| || IsSpace(t[|w|]))
  {
    var t := Strip(l);
    if t != [] {
      assert !IsSpace(t[0]);
      StrippedFields(t);
    }
  }

  lemma StrippedFields(t: string)
    requires t != [] && !IsSpace(t[0])
    ensures Fields(t) != [] && Fields(t)[0] == t[..WordLength(t)]
  {
    assert TrimStart(t, IsSpace) == t;
  }

  /** Index of the first blank line, or `|lines|`. */
  function FirstBlank(lines: seq<string>): (b: nat)
    ensures b <= |lines|
    ensures forall i :: 0 <= i < b ==> FirstWord(lines[i]).Some?
    ensures b < |lines| ==> FirstWord(lines[b]).None?
  {
    FirstRejected(lines, l => FirstWord(l).Some?)
  }

  /** Index of the first element `ok` rejects, or `|xs|`. */
  function FirstRejected<X>(xs: seq<X>, ok: X -> bool): (b: nat)
    ensures b <= |xs|
    ensures forall i :: 0 <= i < b ==> ok(xs[i])
    ensures b < |xs| ==> !ok(xs[b])
  {
    if xs == [] || !ok(xs[0]) then 0
    else
      var rest := xs[1..];
      var b := FirstRejected(rest, ok);
      assert forall i :: 1 <= i < b + 1 ==> xs[i] == rest[i - 1];
      assert b < |rest| ==> xs[b + 1] == rest[b];
      b + 1
  }

  /**
   * `[l.strip().split()[0] for l in lines]`: one name per line, the line's first word.
   * `Err(i)` names the first blank line `i`, where the comprehension raises.
   */
  function GetFiles(lines: seq<string>): (r: Result<seq<string>, nat>)
    ensures r.Ok? <==> forall i :: 0 <= i < |lines| ==> FirstWord(lines[i]).Some?
    ensures r.Ok? ==> |r.value| == |lines| && forall i :: 0 <= i < |lines| ==> Some(r.value[i]) == FirstWord(lines[i])
    ensures r.Err? ==>
      r.error < |lines| && FirstWord(lines[r.error]).None? && forall i :: 0 <= i < r.error ==> FirstWord(lines[i]).Some?
  {
    var b := FirstBlank(lines);
    if b < |lines| then Err(b)
    else Ok(seq(|lines|, i requires 0 <= i < |lines| && FirstWord(lines[i]).Some? => FirstWord(lines[i]).value))
  }

  // ---------------------------------------------------------------------------
  // determine_job_from_file

  /** `(job, filetype, path)` as `determine_job_from_file` returns it. */
  datatype Classified = Classified(job: string, filetype: string, path: string)

  /** `s.split("/", 1)` unpacked into two names; `None` where the unpacking raises `ValueError`. */
  function SplitOnce(s: string): (r: Option<(string, string)>)
    ensures r.Some? <==> '/' in s
    ensures r.Some? ==> s == r.value.0 + "/" + r.value.1 && '/' !in r.value.0
  {
    var i := IndexOf(s, '/');
    if i == |s| then None
    else
      assert s == s[..i] + "/" + s[i + 1..];
      Some((s[..i], s[i + 1..]))
  }

  /**
   * `determine_job_from_file(f)`: below the ntuples directory the job is the directory of
   * the file; below the friends directory the first directory is the friend type and the
   * rest the job, and `Err(f)` stands for the `ValueError` of a friend file without both;
   * anything else is `UNKNOWN`.
   */
  function DetermineJob(layout: Layout, f: string): (r: Result<Classified, string>)
    ensures r.Ok? ==> r.value.path == f
    ensures r.Err? ==> r.error == f && !IsSubpath(f, layout.ntuplesDir) && IsSubpath(f, layout.friendsDir)
    ensures IsSubpath(f, layout.ntuplesDir) ==> r.Ok? && r.value.filetype == "ntuples"
    ensures !IsSubpath(f, layout.ntuplesDir) && !IsSubpath(f, layout.friendsDir) ==>
      r == Ok(Classified("UNKNOWN", "UNKNOWN", f))
  {
    if IsSubpath(f, layout.ntuplesDir) then
      Ok(Classified(PathSplit(RelPath(f, layout.ntuplesDir)).0, "ntuples", f))
    else if IsSubpath(f, layout.friendsDir) then
      match SplitOnce(PathSplit(RelPath(f, layout.friendsDir)).0)
      case None => Err(f)
      case Some(parts) => Ok(Classified(parts.1, parts.0, f))
    else Ok(Classified("UNKNOWN", "UNKNOWN", f))
  }

  /** The components of `f` below `base`. */
  function Below(f: string, base: string): seq<string> {
    var cf, cb := Components(f), Components(base);
    if |cb| <= |cf| then cf[|cb|..] else []
  }

  /** The directory part of a path given by its components ("" for a bare file name). */
  function DirOf(rel: seq<string>): string {
    if |rel| <= 1 then "" else Join(rel[..|rel| - 1], '/')
  }

  lemma BelowClean(f: string, base: string)
    ensures Clean(Below(f, base))
  {
    var cf, cb := Components(f), Components(base);
    var rel := Below(f, base);
    if |cb| <= |cf| {
      forall k | 0 <= k < |rel| ensures CleanComponent(rel[k]) { assert rel[k] == cf[|cb| + k]; }
    }
  }

  /** `os.path.relpath(f, base)` for a file below `base`: its components there, or ".". */
  lemma RelPathBelow(f: string, base: string)
    requires Components(base) <= Components(f)
    ensures RelPath(f, base) == if Below(f, base) == [] then "." else Join(Below(f, base), '/')
  {
    var sl, pl := Components(base), Components(f);
    CommonPrefixOfPrefix(sl, pl);
    var dots: seq<string> := seq(|sl| - |CommonPrefix(sl, pl)|, _ => "..");
    assert dots == [];
    assert dots + pl[|CommonPrefix(sl, pl)|..] == Below(f, base);
  }

  /** `os.path.split(os.path.relpath(f, base))[0]` for a file below `base`. */
  lemma RelDirectory(f: string, base: string)
    requires IsSubpath(f, base)
    ensures PathSplit(RelPath(f, base)).0 == DirOf(Below(f, base))
  {
    IsSubpathIff(f, base);
    RelPathBelow(f, base);
    BelowClean(f, base);
    var rel := Below(f, base);
    if rel == [] {
      PathSplitNoSlash(".");
    } else {
      PathSplitOfJoin(rel);
    }
  }

  lemma {:induction false} CommonPrefixOfPrefix(a: seq<string>, b: seq<string>)
    requires a <= b
    ensures CommonPrefix(a, b) == a
    decreases |a|
  {
    if a != [] {
      CommonPrefixOfPrefix(a[1..], b[1..]);
    }
  }

  /** A file below the ntuples directory belongs to the job named by its directory there. */
  lemma NtupleJob(layout: Layout, f: string)
    requires IsSubpath(f, layout.ntuplesDir)
    ensures DetermineJob(layout, f) == Ok(Classified(DirOf(Below(f, layout.ntuplesDir)), "ntuples", f))
  {
    RelDirectory(f, layout.ntuplesDir);
  }

  /** Splitting a join of clean components at its first slash. */
  lemma SplitOnceOfJoin(xs: seq<string>)
    requires Clean(xs)
    ensures |xs| >= 2 ==> SplitOnce(Join(xs, '/')) == Some((xs[0], Join(xs[1..], '/')))
    ensures |xs| < 2 ==> SplitOnce(Join(xs, '/')) == None
  {
    if |xs| >= 2 {
      assert CleanComponent(xs[0]);
      IndexOfAfter(xs[0], '/', Join(xs[1..], '/'));
      var s := Join(xs, '/');
      assert s[..|xs[0]|] == xs[0];
      assert s[|xs[0]| + 1..] == Join(xs[1..], '/');
    } else if |xs| == 1 {
      assert CleanComponent(xs[0]);
    } else {
      assert Join(xs, '/') == [];
    }
  }

  /**
   * A friend file needs at least a friend directory, a job directory and the file name
   * below the friends directory; then the friend type is the first of them and the job
   * the directories between it and the file.
   */
  lemma FriendJob(layout: Layout, f: string)
    requires !IsSubpath(f, layout.ntuplesDir) && IsSubpath(f, layout.friendsDir)
    ensures var rel := Below(f, layout.friendsDir);
      && (DetermineJob(layout, f).Ok? <==> |rel| >= 3)
      && (|rel| >= 3 ==>
            DetermineJob(layout, f) == Ok(Classified(Join(rel[1..|rel| - 1], '/'), rel[0], f)))
  {
    var rel := Below(f, layout.friendsDir);
    RelDirectory(f, layout.friendsDir);
    BelowClean(f, layout.friendsDir);
    SplitOnceOfDir(rel);
  }

  /** The directory of at least three clean components splits into its first one and the rest. */
  lemma SplitOnceOfDir(rel: seq<string>)
    requires Clean(rel)
    ensures SplitOnce(DirOf(rel)).Some? <==> |rel| >= 3
    ensures |rel| >= 3 ==> SplitOnce(DirOf(rel)) == Some((rel[0], Join(rel[1..|rel| - 1], '/')))
  {
    if |rel| >= 2 {
      var dir := rel[..|rel| - 1];
      assert Clean(dir);
      SplitOnceOfJoin(dir);
      assert dir[1..] == rel[1..|rel| - 1];
    } else {
      assert DirOf(rel) == Join([], '/');
      SplitOnceOfJoin([]);
    }
  }

  // ---------------------------------------------------------------------------
  // Grouping by job and file type

  /** `merge_jobs_dict`: job -> file type -> files. */
  type Grouping = Dict<Dict<seq<string>>>

  /** `filetype == "ntuples" or filetype in allowed_friends`. */
  predicate Merged(layout: Layout, filetype: string) {
    filetype == "ntuples" || filetype in layout.allowedFriends
  }

  /** One pass of the grouping loop for the classified file `c`. */
  function AddFile(layout: Layout, g: Grouping, c: Classified): Grouping {
    var g1 := if c.job in g.entries then g else Store(g, c.job, Dict([], map[]));
    if Merged(layout, c.filetype) then
      var types := g1.entries[c.job];
      var types1 := if c.filetype in types.entries then types else Store(types, c.filetype, []);
      Store(g1, c.job, Store(types1, c.filetype, types1.entries[c.filetype] + [c.path]))
    else g1
  }

  /** The classification of every file of the list, or the first error `classify` gives. */
  function ClassifyAll(classify: string -> Result<Classified, string>, files: seq<string>)
    : (r: Result<seq<Classified>, string>)
    ensures r.Ok? ==> |r.value| == |files|
  {
    if files == [] then Ok([])
    else match ClassifyAll(classify, files[..|files| - 1])
      case Err(e) => Err(e)
      case Ok(cs) =>
        match classify(files[|files| - 1])
        case Err(e) => Err(e)
        case Ok(c) => Ok(cs + [c])
  }

  /**
   * `ClassifyAll` fails exactly with the error of the first file `classify` fails on, and
   * otherwise holds each file's classification.
   */
  lemma {:induction false} ClassifyAllSpec(classify: string -> Result<Classified, string>, files: seq<string>)
    ensures var r := ClassifyAll(classify, files);
      && (r.Ok? <==> forall i :: 0 <= i < |files| ==> classify(files[i]).Ok?)
      && (r.Ok? ==> forall i :: 0 <= i < |files| ==> classify(files[i]) == Ok(r.value[i]))
      && (r.Err? ==> exists i :: 0 <= i < |files| && classify(files[i]) == Err(r.error)
                                && forall j :: 0 <= j < i ==> classify(files[j]).Ok?)
    decreases |files|
  {
    if files != [] {
      var n := |files| - 1;
      ClassifyAllSpec(classify, files[..n]);
      assert forall i :: 0 <= i < n ==> files[..n][i] == files[i];
    }
  }

  /** Once a prefix of the list fails, the whole list fails the same way. */
  lemma {:induction false} ClassifyPrefixErr(classify: string -> Result<Classified, string>, files: seq<string>, i: nat)
    requires i <= |files| && ClassifyAll(classify, files[..i]).Err?
    ensures ClassifyAll(classify, files) == ClassifyAll(classify, files[..i])
    decreases |files| - i
  {
    if i < |files| {
      assert files[..i + 1][..i] == files[..i];
      ClassifyPrefixErr(classify, files, i + 1);
    } else {
      assert files[..i] == files;
    }
  }

  /** The grouping loop run over classified files. */
  function GroupAll(layout: Layout, cs: seq<Classified>): Grouping {
    if cs == [] then Dict([], map[]) else AddFile(layout, GroupAll(layout, cs[..|cs| - 1]), cs[|cs| - 1])
  }

  function Classifier(layout: Layout): string -> Result<Classified, string> {
    f => DetermineJob(layout, f)
  }

  /** The grouping loop over the file list; the first `ValueError` of the classification ends it. */
  function Group(layout: Layout, files: seq<string>): Result<Grouping, string> {
    match ClassifyAll(Classifier(layout), files)
    case Err(e) => Err(e)
    case Ok(cs) => Ok(GroupAll(layout, cs))
  }

  /**
   * The grouping loop of the main block: every file is classified, its job gets an entry,
   * and the file is appended under its type when that type is merged.
   */
  method GroupFiles(layout: Layout, files: seq<string>) returns (r: Result<Grouping, string>)
    ensures r == Group(layout, files)
  {
    var jobs: Grouping := Dict([], map[]);
    ghost var cs: seq<Classified> := [];
    for i := 0 to |files|
      invariant ClassifyAll(Classifier(layout), files[..i]) == Ok(cs) && jobs == GroupAll(layout, cs)
    {
      var c: Classified;
      match DetermineJob(layout, files[i]) {
        case Err(e) =>
          GroupFilesFails(layout, files, i, cs, e);
          return Err(e);
        case Ok(x) =>
          c := x;
      }
      GroupFilesStep(layout, files, i, cs, c);
      cs := cs + [c];
      jobs := AddToGroup(layout, jobs, c);
    }
    assert files[..|files|] == files;
    return Ok(jobs);
  }

  lemma GroupFilesStep(layout: Layout, files: seq<string>, i: nat, cs: seq<Classified>, c: Classified)
    requires i < |files| && ClassifyAll(Classifier(layout), files[..i]) == Ok(cs)
    requires DetermineJob(layout, files[i]) == Ok(c)
    ensures ClassifyAll(Classifier(layout), files[..i + 1]) == Ok(cs + [c])
    ensures GroupAll(layout, cs + [c]) == AddFile(layout, GroupAll(layout, cs), c)
  {
    ClassifyNext(Classifier(layout), files, i);
    assert (cs + [c])[..|cs|] == cs;
  }

  lemma GroupFilesFails(layout: Layout, files: seq<string>, i: nat, cs: seq<Classified>, e: string)
    requires i < |files| && ClassifyAll(Classifier(layout), files[..i]) == Ok(cs)
    requires DetermineJob(layout, files[i]) == Err(e)
    ensures Group(layout, files) == Err(e)
  {
    var classify := Classifier(layout);
    assert classify(files[i]) == Err(e);
    ClassifyNext(classify, files, i);
    ClassifyPrefixErr(classify, files, i + 1);
  }

  /** Classifying one more file of the list. */
  lemma ClassifyNext(classify: string -> Result<Classified, string>, files: seq<string>, i: nat)
    requires i < |files|
    ensures ClassifyAll(classify, files[..i + 1]) ==
      match ClassifyAll(classify, files[..i])
      case Err(e) => Err(e)
      case Ok(cs) => (match classify(files[i]) case Err(e) => Err(e) case Ok(c) => Ok(cs + [c]))
  {
    assert files[..i + 1][..i] == files[..i];
  }

  /** The body of the grouping loop, after the classification. */
  method AddToGroup(layout: Layout, g: Grouping, c: Classified) returns (jobs: Grouping)
    ensures jobs == AddFile(layout, g, c)
  {
    jobs := g;
    if c.job !in jobs.entries {
      jobs := Store(jobs, c.job, Dict([], map[]));
    }
    if c.filetype == "ntuples" || c.filetype in layout.allowedFriends {
      var types := jobs.entries[c.job];
      if c.filetype !in types.entries {
        types := Store(types, c.filetype, []);
      }
      jobs := Store(jobs, c.job, Store(types, c.filetype, types.entries[c.filetype] + [c.path]));
    }
  }

  function JobsOf(cs: seq<Classified>): seq<string> {
    seq(|cs|, i requires 0 <= i < |cs| => cs[i].job)
  }

  /** The merged file types of the files of job `job`, in list order, repeats included. */
  function TypesOf(layout: Layout, cs: seq<Classified>, job: string): seq<string> {
    if cs == [] then []
    else
      var c := cs[|cs| - 1];
      TypesOf(layout, cs[..|cs| - 1], job) + (if c.job == job && Merged(layout, c.filetype) then [c.filetype] else [])
  }

  /** The files of job `job` with merged type `ft`, in list order. */
  function FilesOf(layout: Layout, cs: seq<Classified>, job: string, ft: string): seq<string> {
    if cs == [] then []
    else
      var c := cs[|cs| - 1];
      FilesOf(layout, cs[..|cs| - 1], job, ft)
        + (if c.job == job && c.filetype == ft && Merged(layout, ft) then [c.path] else [])
  }

  /** The file types recorded for a job, in insertion order (none for a missing job). */
  function TypesFor(g: Grouping, job: string): seq<string> {
    if job in g.entries then g.entries[job].keys else []
  }

  /** The files recorded for a job and type (none where either is missing). */
  function FilesFor(g: Grouping, job: string, ft: string): seq<string> {
    if job in g.entries && ft in g.entries[job].entries then g.entries[job].entries[ft] else []
  }

  /**
   * `g` groups the classified files `cs`: its jobs are the distinct jobs of `cs` in order
   * of first appearance, each job's types the distinct merged types of its files, and each
   * type's list the files of that job and type in list order.
   */
  ghost predicate Grouped(layout: Layout, g: Grouping, cs: seq<Classified>) {
    && g.Valid()
    && g.keys == Distinct(JobsOf(cs))
    && (forall job :: job in g.entries ==> g.entries[job].Valid())
    && (forall job :: TypesFor(g, job) == Distinct(TypesOf(layout, cs, job)))
    && (forall job, ft :: FilesFor(g, job, ft) == FilesOf(layout, cs, job, ft))
  }

  /** The entry of a job, empty where the job has none yet. */
  function TypesAt(g: Grouping, job: string): Dict<seq<string>> {
    if job in g.entries then g.entries[job] else Dict([], map[])
  }

  /** The entry one pass of the grouping loop leaves for the job of `c`. */
  function NewTypes(layout: Layout, g: Grouping, c: Classified): Dict<seq<string>> {
    var types := TypesAt(g, c.job);
    if Merged(layout, c.filetype) then Store(types, c.filetype, FilesFor(g, c.job, c.filetype) + [c.path])
    else types
  }

  /** What one pass of the grouping loop does: only the entry of the file's job changes. */
  lemma AddFileShape(layout: Layout, g: Grouping, c: Classified)
    requires g.Valid()
    ensures var g' := AddFile(layout, g, c);
      && g'.Valid()
      && g'.keys == (if c.job in g.keys then g.keys else g.keys + [c.job])
      && g'.entries == g.entries[c.job := NewTypes(layout, g, c)]
  {
    var types := TypesAt(g, c.job);
    var g1 := if c.job in g.entries then g else Store(g, c.job, Dict([], map[]));
    assert g1.entries[c.job] == types;
    assert g1.entries == g.entries[c.job := types];
    if Merged(layout, c.filetype) {
      var stored := NewTypes(layout, g, c);
      if c.filetype !in types.entries {
        var once := Store(types, c.filetype, []);
        assert once.entries[c.filetype] + [c.path] == [c.path];
        assert once.entries[c.filetype := [c.path]] == types.entries[c.filetype := [c.path]];
        assert Store(once, c.filetype, [c.path]) == stored;
      } else {
        assert Store(types, c.filetype, types.entries[c.filetype] + [c.path]) == stored;
      }
      assert g1.entries[c.job := stored] == g.entries[c.job := stored];
    }
  }

  lemma AddFileStep(layout: Layout, g: Grouping, cs: seq<Classified>, c: Classified)
    requires Grouped(layout, g, cs)
    ensures Grouped(layout, AddFile(layout, g, c), cs + [c])
  {
    AddFileShape(layout, g, c);
    GroupedStep(layout, g, AddFile(layout, g, c), cs, c);
  }

  lemma GroupedStep(layout: Layout, g: Grouping, g': Grouping, cs: seq<Classified>, c: Classified)
    requires Grouped(layout, g, cs)
    requires g'.Valid() && g'.keys == (if c.job in g.keys then g.keys else g.keys + [c.job])
    requires g'.entries == g.entries[c.job := NewTypes(layout, g, c)]
    ensures Grouped(layout, g', cs + [c])
  {
    StepJobs(g, cs, c);
    StepTypes(layout, g, g', cs, c);
    StepFiles(layout, g, g', cs, c);
  }

  lemma StepTypes(layout: Layout, g: Grouping, g': Grouping, cs: seq<Classified>, c: Classified)
    requires Grouped(layout, g, cs)
    requires g'.entries == g.entries[c.job := NewTypes(layout, g, c)]
    ensures forall job :: job in g'.entries ==> g'.entries[job].Valid()
    ensures forall job :: TypesFor(g', job) == Distinct(TypesOf(layout, cs + [c], job))
  {
    var types := TypesAt(g, c.job);
    assert types.Valid() && types.keys == Distinct(TypesOf(layout, cs, c.job));
    NewTypesKeys(layout, g, c);
    SameJobTypes(layout, cs, c);
    forall job | job in g'.entries ensures g'.entries[job].Valid() {
      if job != c.job {
        assert g'.entries[job] == g.entries[job];
      }
    }
    forall job ensures TypesFor(g', job) == Distinct(TypesOf(layout, cs + [c], job)) {
      if job != c.job {
        StepOtherJob(layout, cs, c, job);
        OtherJobUnchanged(g, g', c, NewTypes(layout, g, c), job, "");
      }
    }
  }

  lemma StepFiles(layout: Layout, g: Grouping, g': Grouping, cs: seq<Classified>, c: Classified)
    requires forall job, ft :: FilesFor(g, job, ft) == FilesOf(layout, cs, job, ft)
    requires g'.entries == g.entries[c.job := NewTypes(layout, g, c)]
    ensures forall job, ft :: FilesFor(g', job, ft) == FilesOf(layout, cs + [c], job, ft)
  {
    forall job, ft ensures FilesFor(g', job, ft) == FilesOf(layout, cs + [c], job, ft) {
      if job != c.job {
        StepOtherJob(layout, cs, c, job);
        OtherJobUnchanged(g, g', c, NewTypes(layout, g, c), job, ft);
      } else {
        SameJobFiles(layout, cs, c, ft);
        NewTypesFiles(layout, g, c, ft);
      }
      assert FilesFor(g, job, ft) == FilesOf(layout, cs, job, ft);
    }
  }

  lemma OtherJobUnchanged(g: Grouping, g': Grouping, c: Classified, nt: Dict<seq<string>>, job: string, ft: string)
    requires g'.entries == g.entries[c.job := nt] && job != c.job
    ensures TypesFor(g', job) == TypesFor(g, job)
    ensures FilesFor(g', job, ft) == FilesFor(g, job, ft)
  {
  }

  lemma NewTypesKeys(layout: Layout, g: Grouping, c: Classified)
    requires TypesAt(g, c.job).Valid()
    ensures var types, nt := TypesAt(g, c.job), NewTypes(layout, g, c);
      && nt.Valid()
      && nt.keys == if !Merged(layout, c.filetype) then types.keys
                    else if c.filetype in types.keys then types.keys
                    else types.keys + [c.filetype]
  {
  }

  lemma NewTypesFiles(layout: Layout, g: Grouping, c: Classified, ft: string)
    ensures var nt := NewTypes(layout, g, c);
      (if ft in nt.entries then nt.entries[ft] else []) ==
        FilesFor(g, c.job, ft) + if ft == c.filetype && Merged(layout, ft) then [c.path] else []
  {
  }

  lemma StepJobs(g: Grouping, cs: seq<Classified>, c: Classified)
    requires g.Valid() && g.keys == Distinct(JobsOf(cs))
    ensures Distinct(JobsOf(cs + [c])) == if c.job in g.keys then g.keys else g.keys + [c.job]
  {
    var cs' := cs + [c];
    assert cs'[..|cs|] == cs;
    assert JobsOf(cs') == JobsOf(cs) + [c.job];
    assert JobsOf(cs')[..|cs|] == JobsOf(cs);
  }

  lemma StepOtherJob(layout: Layout, cs: seq<Classified>, c: Classified, job: string)
    requires job != c.job
    ensures TypesOf(layout, cs + [c], job) == TypesOf(layout, cs, job)
    ensures forall ft :: FilesOf(layout, cs + [c], job, ft) == FilesOf(layout, cs, job, ft)
  {
    assert (cs + [c])[..|cs|] == cs;
  }

  lemma SameJobTypes(layout: Layout, cs: seq<Classified>, c: Classified)
    ensures var keys := Distinct(TypesOf(layout, cs, c.job));
      Distinct(TypesOf(layout, cs + [c], c.job)) ==
        if !Merged(layout, c.filetype) then keys
        else if c.filetype in keys then keys
        else keys + [c.filetype]
  {
    var ts := TypesOf(layout, cs, c.job);
    assert (cs + [c])[..|cs|] == cs;
    DistinctSpec(ts);
    if Merged(layout, c.filetype) {
      assert TypesOf(layout, cs + [c], c.job) == ts + [c.filetype];
      assert (ts + [c.filetype])[..|ts|] == ts;
      assert Distinct(ts + [c.filetype]) ==
        if c.filetype in Distinct(ts) then Distinct(ts) else Distinct(ts) + [c.filetype];
    } else {
      assert TypesOf(layout, cs + [c], c.job) == ts;
    }
  }

  lemma SameJobFiles(layout: Layout, cs: seq<Classified>, c: Classified, ft: string)
    ensures FilesOf(layout, cs + [c], c.job, ft) ==
      FilesOf(layout, cs, c.job, ft) + if ft == c.filetype && Merged(layout, ft) then [c.path] else []
  {
    assert (cs + [c])[..|cs|] == cs;
  }

  /**
   * Grouping classified files: every job gets a key even when none of its types is merged,
   * and a file is kept exactly when its type is `ntuples` or an allowed friend, in list order.
   */
  lemma {:induction false} GroupAllSpec(layout: Layout, cs: seq<Classified>)
    ensures Grouped(layout, GroupAll(layout, cs), cs)
    decreases |cs|
  {
    if cs == [] {
      assert Grouped(layout, Dict([], map[]), cs);
    } else {
      var n := |cs| - 1;
      GroupAllSpec(layout, cs[..n]);
      AddFileStep(layout, GroupAll(layout, cs[..n]), cs[..n], cs[n]);
      assert cs[..n] + [cs[n]] == cs;
    }
  }

  /**
   * The grouping loop either stops with the first friend file it cannot classify, or
   * groups the classification of the whole list as `Grouped` describes.
   */
  lemma GroupSpec(layout: Layout, files: seq<string>)
    ensures var r := Group(layout, files);
      && (r.Ok? <==> forall i :: 0 <= i < |files| ==> DetermineJob(layout, files[i]).Ok?)
      && (r.Ok? ==> exists cs ::
            && |cs| == |files|
            && (forall i :: 0 <= i < |files| ==> DetermineJob(layout, files[i]) == Ok(cs[i]))
            && Grouped(layout, r.value, cs))
      && (r.Err? ==> exists i :: 0 <= i < |files| && DetermineJob(layout, files[i]) == Err(r.error)
                                && forall j :: 0 <= j < i ==> DetermineJob(layout, files[j]).Ok?)
  {
    var classify := Classifier(layout);
    ClassifyAllSpec(classify, files);
    var r := ClassifyAll(classify, files);
    if r.Ok? {
      GroupAllSpec(layout, r.value);
    }
  }

  // ---------------------------------------------------------------------------
  // check_event_consistency_across_filetypes

  /** `consistency_dict`: file key -> file type -> number of entries. */
  type Counts = map<string, map<string, nat>>

  /** `consistency_dict.setdefault(k, {})[ft] = v`. */
  function Put(acc: Counts, k: string, ft: string, v: nat): Counts {
    var inner := if k in acc then acc[k] else map[];
    acc[k := inner[ft := v]]
  }

  /** The inner loop: every file of type `ft` records its number of entries under its key. */
  function RecordFiles(acc: Counts, ft: string, files: seq<string>, key: string -> string, entries: string -> nat): Counts
    decreases |files|
  {
    if files == [] then acc
    else
      RecordFiles(Put(acc, key(files[0]), ft, entries(files[0])), ft, files[1..], key, entries)
  }

  /** The outer loop, over the file types of the job from position `i` on. */
  function RecordTypes(acc: Counts, jobDict: Dict<seq<string>>, i: nat, key: string -> string, entries: string -> nat): Counts
    requires i <= |jobDict.keys|
    requires forall t :: t in jobDict.keys ==> t in jobDict.entries
    decreases |jobDict.keys| - i
  {
    if i == |jobDict.keys| then acc
    else
      var ft := jobDict.keys[i];
      RecordTypes(RecordFiles(acc, ft, jobDict.entries[ft], key, entries), jobDict, i + 1, key, entries)
  }

  /** The second loop's test: every key recorded exactly one distinct number of entries. */
  predicate AllAgree(counts: Counts) {
    forall k :: k in counts ==> |counts[k].Values| == 1
  }

  /**
   * `check_event_consistency_across_filetypes(job_dict)`, with the files keyed by `key`:
   * the script keys by the file name itself (`key` the identity), which the model below
   * shows to be always true; the corrected check keys by the base name.
   */
  method CheckEventConsistency(jobDict: Dict<seq<string>>, key: string -> string, entries: string -> nat)
    returns (ok: bool)
    requires jobDict.Valid()
    ensures ok == AllAgree(RecordTypes(map[], jobDict, 0, key, entries))
  {
    var counts: Counts := map[];
    for i := 0 to |jobDict.keys|
      invariant RecordTypes(map[], jobDict, 0, key, entries) == RecordTypes(counts, jobDict, i, key, entries)
    {
      var ft := jobDict.keys[i];
      var files := jobDict.entries[ft];
      for j := 0 to |files|
        invariant RecordTypes(map[], jobDict, 0, key, entries)
               == RecordTypes(RecordFiles(counts, ft, files[j..], key, entries), jobDict, i + 1, key, entries)
      {
        var k := key(files[j]);
        var inner := if k in counts then counts[k] else map[];
        counts := counts[k := inner[ft := entries(files[j])]];
        assert files[j..][1..] == files[j + 1..];
      }
    }
    var todo := counts.Keys;
    while todo != {}
      invariant todo <= counts.Keys
      invariant forall k :: k in counts && k !in todo ==> |counts[k].Values| == 1
      decreases |todo|
    {
      var k :| k in todo;
      if |counts[k].Values| != 1 {
        return false;
      }
      todo := todo - {k};
    }
    return true;
  }

  /** The last of `files` whose key is `k`: the one whose count survives in `consistency_dict`. */
  function LastWith(files: seq<string>, key: string -> string, k: string): (r: Option<string>)
    ensures r.Some? ==> r.value in files && key(r.value) == k
    ensures r.None? <==> forall i :: 0 <= i < |files| ==> key(files[i]) != k
    decreases |files|
  {
    if files == [] then None
    else
      var rest := LastWith(files[1..], key, k);
      if rest.Some? then rest
      else if key(files[0]) == k then Some(files[0])
      else None
  }

  function Get(counts: Counts, k: string, ft: string): Option<nat> {
    if k in counts && ft in counts[k] then Some(counts[k][ft]) else None
  }

  /** The number of entries of the last of `files` with key `k`. */
  function LastCount(files: seq<string>, key: string -> string, entries: string -> nat, k: string): Option<nat> {
    match LastWith(files, key, k)
    case Some(f) => Some(entries(f))
    case None => None
  }

  /** The count of the last file of type `ft` with key `k`, if `ft` is among the types from position `i`. */
  function Recorded(jobDict: Dict<seq<string>>, i: nat, key: string -> string, entries: string -> nat, k: string, ft: string)
    : Option<nat>
    requires i <= |jobDict.keys|
  {
    if ft in jobDict.entries && ft in jobDict.keys[i..] then LastCount(jobDict.entries[ft], key, entries, k) else None
  }

  /** One update of `consistency_dict[k][ft]` changes only that cell. */
  lemma GetPut(acc: Counts, k0: string, ft: string, v: nat, k: string, t: string)
    ensures Get(Put(acc, k0, ft, v), k, t) == if k == k0 && t == ft then Some(v) else Get(acc, k, t)
  {
  }

  /** An update leaves no inner map empty. */
  lemma PutNonEmpty(acc: Counts, k0: string, ft: string, v: nat)
    requires forall k :: k in acc ==> acc[k] != map[]
    ensures forall k :: k in Put(acc, k0, ft, v) ==> Put(acc, k0, ft, v)[k] != map[]
  {
    assert ft in Put(acc, k0, ft, v)[k0];
  }

  /** The inner loop records, for type `ft`, the count of the last file with each key. */
  lemma {:induction false} RecordFilesAt(acc: Counts, ft: string, files: seq<string>, key: string -> string,
                                         entries: string -> nat, k: string, t: string)
    ensures Get(RecordFiles(acc, ft, files, key, entries), k, t) ==
      if t == ft && LastCount(files, key, entries, k).Some? then LastCount(files, key, entries, k) else Get(acc, k, t)
    decreases |files|
  {
    if files != [] {
      var k0 := key(files[0]);
      var acc' := Put(acc, k0, ft, entries(files[0]));
      var rest := files[1..];
      GetPut(acc, k0, ft, entries(files[0]), k, t);
      RecordFilesAt(acc', ft, rest, key, entries, k, t);
      assert LastWith(files, key, k) ==
        if LastWith(rest, key, k).Some? then LastWith(rest, key, k)
        else if key(files[0]) == k then Some(files[0]) else None;
    }
  }

  lemma {:induction false} RecordFilesNonEmpty(acc: Counts, ft: string, files: seq<string>, key: string -> string,
                                               entries: string -> nat)
    requires forall k :: k in acc ==> acc[k] != map[]
    ensures forall k :: k in RecordFiles(acc, ft, files, key, entries) ==> RecordFiles(acc, ft, files, key, entries)[k] != map[]
    decreases |files|
  {
    if files != [] {
      PutNonEmpty(acc, key(files[0]), ft, entries(files[0]));
      RecordFilesNonEmpty(Put(acc, key(files[0]), ft, entries(files[0])), ft, files[1..], key, entries);
    }
  }

  /** Moving the outer loop one type on. */
  lemma RecordedStep(jobDict: Dict<seq<string>>, i: nat, key: string -> string, entries: string -> nat, k: string, t: string)
    requires i < |jobDict.keys|
    requires forall t :: t in jobDict.keys ==> t in jobDict.entries
    ensures var ft := jobDict.keys[i];
      Recorded(jobDict, i, key, entries, k, t) ==
        if t == ft then LastCount(jobDict.entries[ft], key, entries, k) else Recorded(jobDict, i + 1, key, entries, k, t)
    ensures var ft := jobDict.keys[i];
      t == ft && Recorded(jobDict, i + 1, key, entries, k, t).Some? ==>
        Recorded(jobDict, i + 1, key, entries, k, t) == LastCount(jobDict.entries[ft], key, entries, k)
  {
    assert jobDict.keys[i..] == [jobDict.keys[i]] + jobDict.keys[i + 1..];
  }

  /** The outer loop from position `i`: each type from there records its last files' counts. */
  lemma {:induction false} RecordTypesAt(acc: Counts, jobDict: Dict<seq<string>>, i: nat, key: string -> string,
                                         entries: string -> nat, k: string, t: string)
    requires i <= |jobDict.keys|
    requires forall t :: t in jobDict.keys ==> t in jobDict.entries
    ensures Get(RecordTypes(acc, jobDict, i, key, entries), k, t) ==
      if Recorded(jobDict, i, key, entries, k, t).Some? then Recorded(jobDict, i, key, entries, k, t) else Get(acc, k, t)
    decreases |jobDict.keys| - i
  {
    if i < |jobDict.keys| {
      var ft := jobDict.keys[i];
      var acc' := RecordFiles(acc, ft, jobDict.entries[ft], key, entries);
      RecordFilesAt(acc, ft, jobDict.entries[ft], key, entries, k, t);
      RecordTypesAt(acc', jobDict, i + 1, key, entries, k, t);
      RecordedStep(jobDict, i, key, entries, k, t);
    } else {
      assert jobDict.keys[i..] == [];
    }
  }

  lemma {:induction false} RecordTypesNonEmpty(acc: Counts, jobDict: Dict<seq<string>>, i: nat, key: string -> string,
                                               entries: string -> nat)
    requires i <= |jobDict.keys|
    requires forall t :: t in jobDict.keys ==> t in jobDict.entries
    requires forall k :: k in acc ==> acc[k] != map[]
    ensures forall k :: k in RecordTypes(acc, jobDict, i, key, entries) ==> RecordTypes(acc, jobDict, i, key, entries)[k] != map[]
    decreases |jobDict.keys| - i
  {
    if i < |jobDict.keys| {
      var ft := jobDict.keys[i];
      RecordFilesNonEmpty(acc, ft, jobDict.entries[ft], key, entries);
      RecordTypesNonEmpty(RecordFiles(acc, ft, jobDict.entries[ft], key, entries), jobDict, i + 1, key, entries);
    }
  }

  /** A non-empty dictionary holds exactly one distinct value iff all its values are equal. */
  lemma SingleValue(m: map<string, nat>)
    requires m != map[]
    ensures |m.Values| == 1 <==> forall a, b :: a in m && b in m ==> m[a] == m[b]
  {
    var a0 :| a0 in m;
    if forall a, b :: a in m && b in m ==> m[a] == m[b] {
      assert m.Values == {m[a0]};
    } else {
      var a, b :| a in m && b in m && m[a] != m[b];
      var rest := m.Values - {m[a]};
      assert m[b] in rest;
      assert m.Values * {m[a]} == {m[a]};
      assert |rest| == |m.Values| - 1;
    }
  }

  /** The keys of a job's dictionary all have files, as grouping guarantees. */
  ghost predicate HasFiles(jobDict: Dict<seq<string>>) {
    forall t :: t in jobDict.keys ==> t in jobDict.entries
  }

  /** Any two file types that recorded a count under the same key recorded the same count. */
  ghost predicate Agree(jobDict: Dict<seq<string>>, key: string -> string, entries: string -> nat) {
    forall k, t1, t2 ::
      Recorded(jobDict, 0, key, entries, k, t1).Some? && Recorded(jobDict, 0, key, entries, k, t2).Some? ==>
      Recorded(jobDict, 0, key, entries, k, t1) == Recorded(jobDict, 0, key, entries, k, t2)
  }

  /**
   * The check passes exactly when, for every key, the last files with that key in any two
   * file types of the job have the same number of entries.
   */
  lemma ConsistencyIff(jobDict: Dict<seq<string>>, key: string -> string, entries: string -> nat)
    requires HasFiles(jobDict)
    ensures AllAgree(RecordTypes(map[], jobDict, 0, key, entries)) <==> Agree(jobDict, key, entries)
  {
    var r := RecordTypes(map[], jobDict, 0, key, entries);
    RecordTypesNonEmpty(map[], jobDict, 0, key, entries);
    forall k, t ensures Get(r, k, t) == Recorded(jobDict, 0, key, entries, k, t) {
      RecordTypesAt(map[], jobDict, 0, key, entries, k, t);
    }
    if AllAgree(r) {
      forall k, t1, t2 | Recorded(jobDict, 0, key, entries, k, t1).Some? && Recorded(jobDict, 0, key, entries, k, t2).Some?
        ensures Recorded(jobDict, 0, key, entries, k, t1) == Recorded(jobDict, 0, key, entries, k, t2)
      {
        assert Get(r, k, t1).Some? && Get(r, k, t2).Some?;
        SingleValue(r[k]);
      }
    }
    if Agree(jobDict, key, entries) {
      forall k | k in r ensures |r[k].Values| == 1 {
        forall a, b | a in r[k] && b in r[k] ensures r[k][a] == r[k][b] {
          assert Get(r, k, a) == Some(r[k][a]) && Get(r, k, b) == Some(r[k][b]);
        }
        SingleValue(r[k]);
      }
    }
  }

  /** The script keys `consistency_dict` by the file name itself. */
  function FileName(f: string): string {
    f
  }

  /**
   * As written, every key is one file, whose count is recorded for its own file type only:
   * the check cannot fail, whatever the files hold.
   */
  lemma AsWrittenAlwaysPasses(jobDict: Dict<seq<string>>, entries: string -> nat)
    requires HasFiles(jobDict)
    ensures AllAgree(RecordTypes(map[], jobDict, 0, FileName, entries))
  {
    forall k, t | Recorded(jobDict, 0, FileName, entries, k, t).Some?
      ensures Recorded(jobDict, 0, FileName, entries, k, t) == Some(entries(k))
    {
      var f := LastWith(jobDict.entries[t], FileName, k).value;
      assert FileName(f) == k;
    }
    ConsistencyIff(jobDict, FileName, entries);
  }

  /** The check's verdict when files are matched across file types by `key`. */
  ghost predicate ConsistentBy(jobDict: Dict<seq<string>>, key: string -> string, entries: string -> nat)
    requires HasFiles(jobDict)
  {
    AllAgree(RecordTypes(map[], jobDict, 0, key, entries))
  }

  /** The corrected check: files are matched across file types by their base name. */
  ghost predicate Consistent(jobDict: Dict<seq<string>>, entries: string -> nat)
    requires HasFiles(jobDict)
  {
    ConsistentBy(jobDict, Basename, entries)
  }

  /** Two file types whose files of the same base name differ in entries fail the corrected check. */
  lemma MismatchDetected(jobDict: Dict<seq<string>>, entries: string -> nat, t1: string, t2: string, f1: string, f2: string)
    requires HasFiles(jobDict)
    requires t1 in jobDict.keys && t2 in jobDict.keys
    requires LastWith(jobDict.entries[t1], Basename, Basename(f1)) == Some(f1)
    requires LastWith(jobDict.entries[t2], Basename, Basename(f1)) == Some(f2)
    requires entries(f1) != entries(f2)
    ensures !Consistent(jobDict, entries)
  {
    ConsistencyIff(jobDict, Basename, entries);
    assert jobDict.keys[0..] == jobDict.keys;
    assert Recorded(jobDict, 0, Basename, entries, Basename(f1), t1) == Some(entries(f1));
    assert Recorded(jobDict, 0, Basename, entries, Basename(f1), t2) == Some(entries(f2));
  }

  /** Files of the same base name with the same number of entries pass the corrected check. */
  lemma AgreeingFilesPass(jobDict: Dict<seq<string>>, entries: string -> nat)
    requires HasFiles(jobDict)
    requires forall t1, t2, f1, f2 ::
      (t1 in jobDict.entries && t2 in jobDict.entries && f1 in jobDict.entries[t1] && f2 in jobDict.entries[t2] &&
       Basename(f1) == Basename(f2)) ==> entries(f1) == entries(f2)
    ensures Consistent(jobDict, entries)
  {
    forall k, t1, t2 |
      Recorded(jobDict, 0, Basename, entries, k, t1).Some? && Recorded(jobDict, 0, Basename, entries, k, t2).Some?
      ensures Recorded(jobDict, 0, Basename, entries, k, t1) == Recorded(jobDict, 0, Basename, entries, k, t2)
    {
      var f1 := LastWith(jobDict.entries[t1], Basename, k).value;
      var f2 := LastWith(jobDict.entries[t2], Basename, k).value;
      assert Basename(f1) == k == Basename(f2);
    }
    ConsistencyIff(jobDict, Basename, entries);
  }

  /**
   * A job with one ntuple file and one friend file of the same name whose numbers of entries
   * differ: the check as written passes it, the corrected check rejects it.
   */
  lemma AsWrittenMissesMismatch(ntuple: string, friend: string, entries: string -> nat)
    requires Basename(ntuple) == Basename(friend) && entries(ntuple) != entries(friend)
    ensures var jobDict := Dict(["ntuples", "crosssection"], map["ntuples" := [ntuple], "crosssection" := [friend]]);
      && HasFiles(jobDict)
      && AllAgree(RecordTypes(map[], jobDict, 0, FileName, entries))
      && !Consistent(jobDict, entries)
  {
    var jobDict := Dict(["ntuples", "crosssection"], map["ntuples" := [ntuple], "crosssection" := [friend]]);
    AsWrittenAlwaysPasses(jobDict, entries);
    assert LastWith([friend], Basename, Basename(ntuple)) == Some(friend);
    MismatchDetected(jobDict, entries, "ntuples", "crosssection", ntuple, friend);
  }

  // ---------------------------------------------------------------------------
  // merge_ntuples and the final loop of the script

  /** `job.replace("/", "_") + "_merged.root"`. */
  function MergedFileName(job: string): string {
    Replace(job, "/", "_") + "_merged.root"
  }

  /**
   * The output is written to the working directory: its name has no slash, keeps the job
   * name's length, and ends with `_merged.root`.
   */
  lemma MergedFileNameShape(job: string)
    ensures var name := MergedFileName(job);
      && '/' !in name
      && |name| == |job| + |"_merged.root"|
      && name[|job|..] == "_merged.root"
      && forall i :: 0 <= i < |job| ==> name[i] == if job[i] == '/' then '_' else job[i]
  {
    ReplaceChar(job, '/', '_');
    ReplaceCharRemoves(job, '/', '_');
  }

  /** Job directories that differ only in a slash against an underscore share an output file. */
  lemma MergedFileNamesCollide(a: string, b: string)
    ensures MergedFileName(a + "/" + b) == MergedFileName(a + "_" + b)
  {
    var x, y := a + "/" + b, a + "_" + b;
    ReplaceChar(x, '/', '_');
    ReplaceChar(y, '/', '_');
    assert Replace(x, "/", "_") == Replace(y, "/", "_");
  }

  /**
   * What `merge_ntuples` writes: the file types side by side in the order of the job's
   * dictionary, each the rows of its files one after the other.
   */
  datatype Output = Output(fileName: string, columns: seq<(string, seq<string>)>)

  /** Why the final loop stopped before the last job. */
  datatype Stop =
    | AllMerged
    | Inconsistent(job: string)    // `exit(1)` after the failed check
    | NothingToMerge(job: string)  // `pd.concat` of no frames raises `ValueError`

  /** `merge_ntuples(job, job_dict)`: `None` when the job has no file type to concatenate. */
  function MergeJob(job: string, jobDict: Dict<seq<string>>): (r: Option<Output>)
    requires HasFiles(jobDict)
    ensures r.None? <==> jobDict.keys == []
    ensures r.Some? ==> r.value.fileName == MergedFileName(job) && |r.value.columns| == |jobDict.keys|
    ensures r.Some? ==> forall i :: 0 <= i < |jobDict.keys| ==>
      r.value.columns[i] == (jobDict.keys[i], jobDict.entries[jobDict.keys[i]])
  {
    if jobDict.keys == [] then None
    else Some(Output(MergedFileName(job),
                     seq(|jobDict.keys|, i requires 0 <= i < |jobDict.keys| => (jobDict.keys[i], jobDict.entries[jobDict.keys[i]]))))
  }

  /** The job dictionaries of a grouping are well formed. */
  ghost predicate JobsValid(g: Grouping) {
    && g.Valid()
    && forall j :: j in g.entries ==> g.entries[j].Valid()
  }

  /**
   * The jobs before the stop were all consistent under `key` and merged, in dictionary
   * order; the stop names the job that failed the check or had nothing to merge.
   */
  ghost predicate MergedInOrder(g: Grouping, key: string -> string, entries: string -> nat, outputs: seq<Output>, stop: Stop)
    requires JobsValid(g)
  {
    && |outputs| <= |g.keys|
    && (forall i :: 0 <= i < |outputs| ==>
          var job := g.keys[i];
          ConsistentBy(g.entries[job], key, entries) && MergeJob(job, g.entries[job]) == Some(outputs[i]))
    && (stop.AllMerged? <==> |outputs| == |g.keys|)
    && (stop.Inconsistent? ==>
          stop.job == g.keys[|outputs|] && !ConsistentBy(g.entries[stop.job], key, entries))
    && (stop.NothingToMerge? ==>
          stop.job == g.keys[|outputs|] && ConsistentBy(g.entries[stop.job], key, entries) && g.entries[stop.job].keys == [])
  }

  /**
   * The loop `for job, job_dict in merge_jobs_dict.items()`, with the check matching files by
   * `key`: the jobs are merged in order until one fails the check or has nothing to merge.
   * The script passes `FileName`; the corrected check passes `Basename`.
   */
  method MergeJobs(g: Grouping, key: string -> string, entries: string -> nat) returns (outputs: seq<Output>, stop: Stop)
    requires JobsValid(g)
    ensures MergedInOrder(g, key, entries, outputs, stop)
  {
    outputs := [];
    for i := 0 to |g.keys|
      invariant |outputs| == i
      invariant forall n :: 0 <= n < i ==>
        var job := g.keys[n];
        ConsistentBy(g.entries[job], key, entries) && MergeJob(job, g.entries[job]) == Some(outputs[n])
    {
      var job := g.keys[i];
      var jobDict := g.entries[job];
      var ok := CheckEventConsistency(jobDict, key, entries);
      if !ok {
        return outputs, Inconsistent(job);
      }
      var merged := MergeJob(job, jobDict);
      if merged.None? {
        return outputs, NothingToMerge(job);
      }
      outputs := outputs + [merged.value];
    }
    stop := AllMerged;
  }

  /** How a run of the script ends. */
  datatype Run =
    | BlankLine(line: nat)        // `IndexError` in `get_files`
    | Unsplittable(file: string)  // `ValueError` in `determine_job_from_file`
    | Finished(jobs: Grouping, outputs: seq<Output>, stop: Stop)

  /**
   * The main block: the file list read from `lines`, grouped by job, and the jobs merged
   * with the check matching files by `key`; `entries` gives the number of entries of each
   * file's tree.
   */
  method MergeMain(layout: Layout, lines: seq<string>, key: string -> string, entries: string -> nat) returns (run: Run)
    ensures run.BlankLine? <==> GetFiles(lines).Err?
    ensures run.BlankLine? ==> run.line == GetFiles(lines).error
    ensures run.Unsplittable? <==> GetFiles(lines).Ok? && Group(layout, GetFiles(lines).value).Err?
    ensures run.Unsplittable? ==> run.file == Group(layout, GetFiles(lines).value).error
    ensures run.Finished? ==>
      && GetFiles(lines).Ok? && Group(layout, GetFiles(lines).value) == Ok(run.jobs)
      && JobsValid(run.jobs) && MergedInOrder(run.jobs, key, entries, run.outputs, run.stop)
  {
    var files := GetFiles(lines);
    if files.Err? {
      return BlankLine(files.error);
    }
    var grouped := GroupFiles(layout, files.value);
    if grouped.Err? {
      return Unsplittable(grouped.error);
    }
    GroupSpec(layout, files.value);
    var outputs, stop := MergeJobs(grouped.value, key, entries);
    run := Finished(grouped.value, outputs, stop);
  }

  /**
   * The script as written: with the check keyed by the file name, no job ever stops the run
   * with `exit(1)`. Every job is merged, up to the first one with nothing to merge.
   */
  lemma AsWrittenMergesAll(g: Grouping, entries: string -> nat, outputs: seq<Output>, stop: Stop)
    requires JobsValid(g) && MergedInOrder(g, FileName, entries, outputs, stop)
    ensures !stop.Inconsistent?
    ensures stop.AllMerged? || (stop.NothingToMerge? && g.entries[stop.job].keys == [])
  {
    if stop.Inconsistent? {
      var jobDict := g.entries[stop.job];
      assert HasFiles(jobDict);
      AsWrittenAlwaysPasses(jobDict, entries);
    }
  }
}
