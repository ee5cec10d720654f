/**
 * The Chimera-dump translator: a dump is a run of text lines in which a line starting
 * with `/pnfs` names the current directory and the lines below it describe its files
 * (`name pnfsid checksum size timestamp ...`). Every file line of an accepted directory
 * whose checksum field is an 8-character adler32 becomes one CSV row
 * `lfnpath;pnfsid;checksum;size;timestamp;...;user`.
 */
module ChimeraTranslate {
  import opened Wrappers
  import opened Text
  import opened Paths
  import opened ChimeraFilter

  const Header: string := "lfnpath;pnfsid;checksum;size;timestamp;uri;user\n"
  const DirMarker: string := "/pnfs"

  /** The command-line settings the translation depends on. */
  datatype Config = Config(
    prefixToRemove: string,
    includes: seq<string>,
    excludes: seq<string>,
    defaultUser: string,
    addHeader: bool)

  /** What the translator does with one input line. */
  datatype LineVerdict =
    | Blank
    | Marker(dir: string)
    | NoDirectory
    | SkipInclude
    | SkipExclude
    | Malformed
    | BadChecksum
    | Row(text: string)

  /**
   * The prefix removal: a leading prefix is cut off once; a prefix found elsewhere is
   * removed everywhere it occurs; an empty prefix removes nothing.
   */
  function RemovePrefix(path: string, prefix: string): (r: string)
    ensures prefix == [] ==> r == path
    ensures prefix != [] && prefix <= path ==> prefix + r == path
    ensures prefix != [] && !Contains(path, prefix) ==> r == path
  {
    if prefix != [] && prefix <= path then path[|prefix|..]
    else if prefix != [] then
      ReplaceAbsentIfMissing(path, prefix);
      Replace(path, prefix, "")
    else path
  }

  lemma ReplaceAbsentIfMissing(path: string, prefix: string)
    requires prefix != []
    ensures !Contains(path, prefix) ==> Replace(path, prefix, "") == path
  {
    if !Contains(path, prefix) {
      ReplaceAbsent(path, prefix, "");
    }
  }

  /** The CSV row of a file line with fields `info` in directory `dir`. */
  function EntryRow(cfg: Config, dir: string, info: seq<string>): string
  {
    var full := RemovePrefix(PathJoin(dir, Join(info, ';')), cfg.prefixToRemove);
    full + ";" + ExtractUser(full, cfg.defaultUser) + "\n"
  }

  /** The verdict on one raw line, given the current directory. */
  function Classify(cfg: Config, dir: Option<string>, raw: string): LineVerdict
  {
    var line := Strip(raw);
    if line == [] then Blank
    else if DirMarker <= line then Marker(line)
    else if dir.None? then NoDirectory
    else ClassifyFileLine(cfg, dir.value, line)
  }

  /** The verdict on a stripped file line under directory `dir`: the directory filter first. */
  function ClassifyFileLine(cfg: Config, dir: string, line: string): (v: LineVerdict)
    ensures v.SkipInclude? || v.SkipExclude? || v.Malformed? || v.BadChecksum? || v.Row?
  {
    if !ShouldProcessPath(dir, cfg.includes, cfg.excludes, ComputeIncludeOverrides(cfg.includes, cfg.excludes)) then
      if cfg.includes != [] && !AnyIn(dir, cfg.includes) then SkipInclude
      else SkipExclude
    else ClassifyEntry(cfg, dir, line)
  }

  /** The verdict on a file line of an accepted directory: the field checks. */
  function ClassifyEntry(cfg: Config, dir: string, line: string): (v: LineVerdict)
    ensures v.Malformed? || v.BadChecksum? || v.Row?
  {
    var info := Fields(line);
    if |info| < 5 then Malformed
    else if |info[2]| != 8 then BadChecksum
    else Row(EntryRow(cfg, dir, info))
  }

  /**
   * A row is produced exactly for a non-blank, non-marker line under a known, accepted
   * directory that has at least five fields of which the third has 8 characters. A
   * rejected directory counts as an include skip exactly when includes are given and none
   * is in it; otherwise some exclude is in it and no overriding include of a matching
   * exclude is.
   */
  lemma ClassifyMeaning(cfg: Config, dir: Option<string>, raw: string)
    ensures var v := Classify(cfg, dir, raw);
      && (v.Row? <==>
        var line := Strip(raw);
        && line != [] && !(DirMarker <= line) && dir.Some?
        && ShouldProcessPath(dir.value, cfg.includes, cfg.excludes, ComputeIncludeOverrides(cfg.includes, cfg.excludes))
        && |Fields(line)| >= 5 && |Fields(line)[2]| == 8)
      && (v.Row? ==> v.text == EntryRow(cfg, dir.value, Fields(Strip(raw))))
      && (v.Marker? <==> DirMarker <= Strip(raw))
      && (v.Marker? ==> v.dir == Strip(raw))
      && (v.SkipInclude? ==> dir.Some? && cfg.includes != [] && !AnyIn(dir.value, cfg.includes))
      && (v.SkipExclude? ==>
        && dir.Some? && AnyIn(dir.value, cfg.excludes)
        && forall e :: e in cfg.excludes && Contains(dir.value, e) ==> !AnyIn(dir.value, OverridingIncludes(cfg.includes, e)))
  {
    ClassifyRow(cfg, dir, raw);
    ClassifyMarker(cfg, dir, raw);
    ClassifySkips(cfg, dir, raw);
  }

  lemma ClassifyRow(cfg: Config, dir: Option<string>, raw: string)
    ensures var v := Classify(cfg, dir, raw);
      && (v.Row? <==>
        var line := Strip(raw);
        && line != [] && !(DirMarker <= line) && dir.Some?
        && ShouldProcessPath(dir.value, cfg.includes, cfg.excludes, ComputeIncludeOverrides(cfg.includes, cfg.excludes))
        && |Fields(line)| >= 5 && |Fields(line)[2]| == 8)
      && (v.Row? ==> v.text == EntryRow(cfg, dir.value, Fields(Strip(raw))))
  {
  }

  lemma ClassifySkips(cfg: Config, dir: Option<string>, raw: string)
    ensures var v := Classify(cfg, dir, raw);
      && (v.SkipInclude? ==> dir.Some? && cfg.includes != [] && !AnyIn(dir.value, cfg.includes))
      && (v.SkipExclude? ==>
        && dir.Some? && AnyIn(dir.value, cfg.excludes)
        && forall e :: e in cfg.excludes && Contains(dir.value, e) ==> !AnyIn(dir.value, OverridingIncludes(cfg.includes, e)))
  {
    var line := Strip(raw);
    if line != [] && !(DirMarker <= line) && dir.Some? {
      RejectedDirectory(cfg, dir.value, line);
    }
  }

  lemma RejectedDirectory(cfg: Config, dir: string, line: string)
    ensures var v := ClassifyFileLine(cfg, dir, line);
      && (v.SkipInclude? ==> cfg.includes != [] && !AnyIn(dir, cfg.includes))
      && (v.SkipExclude? ==>
        && AnyIn(dir, cfg.excludes)
        && forall e :: e in cfg.excludes && Contains(dir, e) ==> !AnyIn(dir, OverridingIncludes(cfg.includes, e)))
  {
    var overrides := ComputeIncludeOverrides(cfg.includes, cfg.excludes);
    ShouldProcessIff(dir, cfg.includes, cfg.excludes, overrides);
    if ClassifyFileLine(cfg, dir, line).SkipExclude? {
      forall e | e in cfg.excludes && Contains(dir, e) ensures !AnyIn(dir, OverridingIncludes(cfg.includes, e)) {
        assert Lookup(overrides, e) == OverridingIncludes(cfg.includes, e);
      }
    }
  }

  /**
   * Without a prefix to remove, a file line's row is the directory, a slash and the
   * `;`-joined fields, then `;` and the user; when neither the directory nor the fields nor
   * the user hold a `;`, splitting the row (without its newline) at `;` gives back the path
   * of the first field, the other fields and the user.
   */
  lemma EntryRowFields(cfg: Config, dir: string, info: seq<string>)
    requires cfg.prefixToRemove == []
    requires |info| >= 1 && info[0] != [] && info[0][0] != '/'
    requires dir != [] && dir[|dir| - 1] != '/'
    requires ';' !in dir && forall k :: 0 <= k < |info| ==> ';' !in info[k]
    ensures var full := dir + "/" + Join(info, ';');
      var user := ExtractUser(full, cfg.defaultUser);
      var row := EntryRow(cfg, dir, info);
      && row == full + ";" + user + "\n"
      && (';' !in user ==> Split(row[..|row| - 1], ';') == [dir + "/" + info[0]] + info[1..] + [user])
  {
    var joined := Join(info, ';');
    JoinedFieldsStart(info);
    var full := dir + "/" + joined;
    assert PathJoin(dir, joined) == full;
    var user := ExtractUser(full, cfg.defaultUser);
    var row := EntryRow(cfg, dir, info);
    assert row == full + ";" + user + "\n";
    if ';' !in user {
      var parts := [dir + "/" + info[0]] + info[1..];
      JoinFirstPath(dir, info);
      assert row[..|row| - 1] == Join(parts, ';') + ";" + user;
      SplitRow(parts, user);
    }
  }

  lemma JoinedFieldsStart(info: seq<string>)
    requires |info| >= 1 && info[0] != []
    ensures Join(info, ';') != [] && Join(info, ';')[0] == info[0][0]
  {
    if |info| > 1 {
      assert Join(info, ';') == info[0] + [';'] + Join(info[1..], ';');
    }
  }

  lemma JoinFirstPath(dir: string, info: seq<string>)
    requires |info| >= 1
    ensures Join([dir + "/" + info[0]] + info[1..], ';') == dir + "/" + Join(info, ';')
  {
    JoinPrefixFirst(dir + "/", info);
  }

  /** Prepending text to the first part prepends it to the join. */
  lemma JoinPrefixFirst(a: string, info: seq<string>)
    requires |info| >= 1
    ensures Join([a + info[0]] + info[1..], ';') == a + Join(info, ';')
  {
    var parts := [a + info[0]] + info[1..];
    assert |parts| == |info| && parts[0] == a + info[0];
    if |info| > 1 {
      assert parts[1..] == info[1..];
      var rest := Join(info[1..], ';');
      assert Join(parts, ';') == (a + info[0]) + [';'] + rest;
      assert Join(info, ';') == info[0] + [';'] + rest;
      ConcatAssoc(a, info[0], [';'], rest);
    }
  }

  lemma ConcatAssoc<T>(a: seq<T>, b: seq<T>, c: seq<T>, d: seq<T>)
    ensures (a + b) + c + d == a + (b + c + d)
  {
  }

  lemma SplitRow(parts: seq<string>, user: string)
    requires parts != [] && forall k :: 0 <= k < |parts| ==> ';' !in parts[k]
    requires ';' !in user
    ensures Split(Join(parts, ';') + ";" + user, ';') == parts + [user]
  {
    JoinSnoc(parts, user, ';');
    SplitJoin(parts + [user], ';');
  }

  /** The translator's state: current directory, the six counters and the text written so far. */
  datatype Tally = Tally(
    dir: Option<string>,
    processed: nat,
    written: nat,
    skippedInclude: nat,
    skippedExclude: nat,
    skippedChecksum: nat,
    skippedOther: nat,
    out: seq<string>)

  /** The state before any line: the header written if asked for, all counters zero. */
  function Start(cfg: Config): Tally {
    Tally(None, 0, 0, 0, 0, 0, 0, if cfg.addHeader then [Header] else [])
  }

  /** One line's effect on the state. */
  function Step(cfg: Config, t: Tally, raw: string): Tally {
    Apply(t, Classify(cfg, t.dir, raw))
  }

  /** The state after a line with verdict `v`: one more line processed, one counter moved. */
  function Apply(t: Tally, v: LineVerdict): Tally {
    var t' := t.(processed := t.processed + 1);
    match v
    case Blank => t'.(skippedOther := t.skippedOther + 1)
    case Marker(d) => t'.(dir := Some(d), skippedOther := t.skippedOther + 1)
    case NoDirectory => t'.(skippedOther := t.skippedOther + 1)
    case SkipInclude => t'.(skippedInclude := t.skippedInclude + 1)
    case SkipExclude => t'.(skippedExclude := t.skippedExclude + 1)
    case Malformed => t'.(skippedOther := t.skippedOther + 1)
    case BadChecksum => t'.(skippedChecksum := t.skippedChecksum + 1)
    case Row(text) => t'.(written := t.written + 1, out := t.out + [text])
  }

  /** A line is a directory marker exactly when its stripped text starts with `/pnfs`. */
  lemma ClassifyMarker(cfg: Config, dir: Option<string>, raw: string)
    ensures Classify(cfg, dir, raw).Marker? <==> DirMarker <= Strip(raw)
    ensures Classify(cfg, dir, raw).Marker? ==> Classify(cfg, dir, raw).dir == Strip(raw)
    ensures !(DirMarker <= Strip(raw)) && dir.None? ==>
      Classify(cfg, dir, raw) == Blank || Classify(cfg, dir, raw) == NoDirectory
  {
    var line := Strip(raw);
    if line == [] {
      assert !(DirMarker <= line);
    } else if !(DirMarker <= line) && dir.Some? {
      var v := ClassifyFileLine(cfg, dir.value, line);
      assert Classify(cfg, dir, raw) == v && !v.Marker?;
    }
  }

  /** A verdict moves exactly one counter, writes at most one text and changes the directory only on a marker. */
  lemma ApplyCounts(t: Tally, v: LineVerdict)
    ensures var t' := Apply(t, v);
      && t'.processed == t.processed + 1
      && t'.written + t'.skippedInclude + t'.skippedExclude + t'.skippedChecksum + t'.skippedOther
         == t.written + t.skippedInclude + t.skippedExclude + t.skippedChecksum + t.skippedOther + 1
      && t.written <= t'.written
      && |t'.out| - |t.out| == t'.written - t.written
      && t'.out[..|t.out|] == t.out
      && t'.dir == (if v.Marker? then Some(v.dir) else t.dir)
      && (v == Blank || v == NoDirectory ==> t'.written == t.written && t'.skippedOther == t.skippedOther + 1)
  {
  }

  /** One line is counted once, writes at most one text, and moves the directory only on a marker. */
  lemma StepCounts(cfg: Config, t: Tally, raw: string)
    ensures var t' := Step(cfg, t, raw);
      && t'.processed == t.processed + 1
      && t'.written + t'.skippedInclude + t'.skippedExclude + t'.skippedChecksum + t'.skippedOther
         == t.written + t.skippedInclude + t.skippedExclude + t.skippedChecksum + t.skippedOther + 1
      && t.written <= t'.written
      && |t'.out| - |t.out| == t'.written - t.written
      && t'.out[..|t.out|] == t.out
      && t'.dir == (if DirMarker <= Strip(raw) then Some(Strip(raw)) else t.dir)
      && (!(DirMarker <= Strip(raw)) && t.dir.None? ==> t'.written == t.written && t'.skippedOther == t.skippedOther + 1)
  {
    ClassifyMarker(cfg, t.dir, raw);
    ApplyCounts(t, Classify(cfg, t.dir, raw));
  }

  /** The state after translating `lines` in order. */
  function TranslateLines(cfg: Config, lines: seq<string>): Tally
  {
    if lines == [] then Start(cfg)
    else Step(cfg, TranslateLines(cfg, lines[..|lines| - 1]), lines[|lines| - 1])
  }

  lemma TranslateSnoc(cfg: Config, lines: seq<string>, raw: string)
    ensures TranslateLines(cfg, lines + [raw]) == Step(cfg, TranslateLines(cfg, lines), raw)
  {
    assert (lines + [raw])[..|lines|] == lines;
  }

  /** Translating one more line of the current file is one more step. */
  lemma TranslateNext(cfg: Config, before: seq<string>, f: seq<string>, j: nat)
    requires j < |f|
    ensures TranslateLines(cfg, before + f[..j + 1]) == Step(cfg, TranslateLines(cfg, before + f[..j]), f[j])
  {
    assert before + f[..j + 1] == (before + f[..j]) + [f[j]];
    TranslateSnoc(cfg, before + f[..j], f[j]);
  }

  /** The lines of all input files, one file after the other. */
  function Concat(files: seq<seq<string>>): (lines: seq<string>)
    ensures |files| == 1 ==> lines == files[0]
  {
    if files == [] then []
    else Concat(files[..|files| - 1]) + files[|files| - 1]
  }

  /**
   * The decisions of the line loop of `process_chimera_dump`, in its order: blank line,
   * directory marker, no directory yet, rejected directory (include or exclude), then the
   * field checks of a file line.
   */
  method ClassifyLine(cfg: Config, overrides: map<string, seq<string>>, dir: Option<string>, raw: string)
    returns (v: LineVerdict)
    requires overrides == ComputeIncludeOverrides(cfg.includes, cfg.excludes)
    ensures v == Classify(cfg, dir, raw)
  {
    var line := Strip(raw);
    if line == [] {
      return Blank;
    }
    if DirMarker <= line {
      return Marker(line);
    }
    if dir.None? {
      return NoDirectory;
    }
    if !ShouldProcessPath(dir.value, cfg.includes, cfg.excludes, overrides) {
      if cfg.includes != [] && !AnyIn(dir.value, cfg.includes) {
        return SkipInclude;
      }
      return SkipExclude;
    }
    v := ClassifyFileEntry(cfg, dir.value, line);
  }

  /** The field checks of a file line in an accepted directory, and the row it becomes. */
  method ClassifyFileEntry(cfg: Config, dir: string, line: string) returns (v: LineVerdict)
    ensures v == ClassifyEntry(cfg, dir, line)
  {
    var info := Fields(line);
    if |info| < 5 {
      return Malformed;
    }
    if |info[2]| != 8 {
      return BadChecksum;
    }
    var fullPath := PathJoin(dir, Join(info, ';'));
    fullPath := RemovePrefix(fullPath, cfg.prefixToRemove);
    var user := ExtractUser(fullPath, cfg.defaultUser);
    assert fullPath + ";" + user + "\n" == EntryRow(cfg, dir, info);
    v := Row(fullPath + ";" + user + "\n");
  }

  /**
   * `process_chimera_dump`: writes the header if asked for, then reads the files' lines in
   * order, keeping the current directory across file boundaries; the result holds the
   * counters and the text written.
   */
  method ProcessChimeraDump(files: seq<seq<string>>, cfg: Config) returns (t: Tally)
    ensures t == TranslateLines(cfg, Concat(files))
  {
    t := Tally(None, 0, 0, 0, 0, 0, 0, []);
    if cfg.addHeader {
      t := t.(out := t.out + [Header]);
    }
    var overrides := ComputeIncludeOverrides(cfg.includes, cfg.excludes);
    for i := 0 to |files|
      invariant t == TranslateLines(cfg, Concat(files[..i]))
    {
      var f := files[i];
      ghost var before := Concat(files[..i]);
      assert files[..i + 1][..i] == files[..i];
      assert Concat(files[..i + 1]) == before + f;
      assert before + f[..0] == before;
      for j := 0 to |f|
        invariant t == TranslateLines(cfg, before + f[..j])
      {
        TranslateNext(cfg, before, f, j);
        var v := ClassifyLine(cfg, overrides, t.dir, f[j]);
        t := Apply(t, v);
      }
      assert f[..|f|] == f;
    }
    assert files[..|files|] == files;
  }

  // ---------------------------------------------------------------------------
  // Properties of the translation
  // ---------------------------------------------------------------------------

  /**
   * Every processed line is counted exactly once: as written or under one of the four
   * skip counters; so no more rows are written than lines processed.
   */
  lemma {:induction false} CountersPartition(cfg: Config, lines: seq<string>)
    ensures var t := TranslateLines(cfg, lines);
      && t.processed == |lines|
      && t.processed == t.written + t.skippedInclude + t.skippedExclude + t.skippedChecksum + t.skippedOther
      && t.written <= t.processed
  {
    if lines != [] {
      var init := lines[..|lines| - 1];
      CountersPartition(cfg, init);
      StepCounts(cfg, TranslateLines(cfg, init), lines[|lines| - 1]);
    }
  }

  /** The header is written once, first, exactly when asked for; then one text per written row. */
  lemma {:induction false} OutputShape(cfg: Config, lines: seq<string>)
    ensures var t := TranslateLines(cfg, lines);
      && |t.out| == t.written + (if cfg.addHeader then 1 else 0)
      && (cfg.addHeader ==> t.out[0] == Header)
  {
    if lines != [] {
      var init := lines[..|lines| - 1];
      OutputShape(cfg, init);
      StepCounts(cfg, TranslateLines(cfg, init), lines[|lines| - 1]);
    }
  }

  /** The directory in force is the last marker line seen, if any. */
  function LastMarker(lines: seq<string>): (d: Option<string>)
    ensures d.Some? ==> DirMarker <= d.value
  {
    if lines == [] then None
    else if DirMarker <= Strip(lines[|lines| - 1]) then Some(Strip(lines[|lines| - 1]))
    else LastMarker(lines[..|lines| - 1])
  }

  lemma {:induction false} DirectoryIsLastMarker(cfg: Config, lines: seq<string>)
    ensures TranslateLines(cfg, lines).dir == LastMarker(lines)
  {
    if lines != [] {
      var init := lines[..|lines| - 1];
      DirectoryIsLastMarker(cfg, init);
      StepCounts(cfg, TranslateLines(cfg, init), lines[|lines| - 1]);
    }
  }

  /** Lines before the first directory marker are never written: they all count as "other". */
  lemma {:induction false} NoMarkerNoRows(cfg: Config, lines: seq<string>)
    requires forall k :: 0 <= k < |lines| ==> !(DirMarker <= Strip(lines[k]))
    ensures var t := TranslateLines(cfg, lines);
      t.dir.None? && t.written == 0 && t.skippedOther == |lines| && t.out == Start(cfg).out
  {
    if lines != [] {
      var init := lines[..|lines| - 1];
      NoMarkerNoRows(cfg, init);
      StepCounts(cfg, TranslateLines(cfg, init), lines[|lines| - 1]);
    }
  }

  /** Splitting the input into files does not change the result: the directory carries over. */
  lemma FileBoundariesIrrelevant(cfg: Config, a: seq<string>, b: seq<string>)
    ensures TranslateLines(cfg, Concat([a, b])) == TranslateLines(cfg, a + b)
  {
    assert [a, b][..1] == [a];
  }
}
