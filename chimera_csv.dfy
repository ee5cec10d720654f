/**
 * `dCMS_usage_scripts/analyze_chimera_csv.py`: three reports over the CSV files the
 * translator writes (`lfnpath;pnfsid;checksum;size;timestamp;uri;user`): the space used by
 * the paths that match a pattern, the space used per user, and the list of paths.
 *
 * `pd.read_csv(..., chunksize=...)` is modelled by what it yields: a missing file, a file
 * pandas fails on after yielding some chunks, or a sequence of chunks, each a sequence of
 * rows already reduced to the columns a report selects, as text (`dtype=str`,
 * `na_filter=False`).
 */
module ChimeraCsv {
  import opened Wrappers
  import opened Text
  import opened Paths
  import opened Dicts

  /**
   * What reading a CSV path yields. The chunks are read lazily, so a read error can come
   * after `before`, the chunks already yielded (none when the file cannot be parsed at all).
   */
  datatype Csv<R> = Missing | Unreadable(before: seq<seq<R>>) | Chunks(chunks: seq<seq<R>>)

  /** Why a report fails: `FileNotFoundError`, a pandas read error, or a size `int()` rejects. */
  datatype Failure = FileNotFound | ReadFailed | BadSize(chunk: nat)

  /** The rows of all chunks, in file order. */
  function Flatten<R>(chunks: seq<seq<R>>): seq<R> {
    if chunks == [] then [] else Flatten(chunks[..|chunks| - 1]) + chunks[|chunks| - 1]
  }

  lemma FlattenSnoc<R>(chunks: seq<seq<R>>, i: nat)
    requires i < |chunks|
    ensures Flatten(chunks[..i + 1]) == Flatten(chunks[..i]) + chunks[i]
  {
    assert chunks[..i + 1][..i] == chunks[..i];
  }

  /** How the file is cut into chunks does not change its rows. */
  lemma {:induction false} FlattenAppend<R>(a: seq<seq<R>>, b: seq<seq<R>>)
    ensures Flatten(a + b) == Flatten(a) + Flatten(b)
    decreases |b|
  {
    if b != [] {
      var b' := b[..|b| - 1];
      assert (a + b)[..|a + b| - 1] == a + b';
      assert (a + b)[|a + b| - 1] == b[|b| - 1];
      FlattenAppend(a, b');
      assert Flatten(b) == Flatten(b') + b[|b| - 1];
    } else {
      assert a + b == a;
    }
  }

  function Sum(xs: seq<int>): int {
    if xs == [] then 0 else Sum(xs[..|xs| - 1]) + xs[|xs| - 1]
  }

  lemma {:induction false} SumAppend(a: seq<int>, b: seq<int>)
    ensures Sum(a + b) == Sum(a) + Sum(b)
    decreases |b|
  {
    if b != [] {
      var b' := b[..|b| - 1];
      assert (a + b)[..|a + b| - 1] == a + b';
      assert (a + b)[|a + b| - 1] == b[|b| - 1];
      SumAppend(a, b');
      assert Sum(b) == Sum(b') + b[|b| - 1];
    } else {
      assert a + b == a;
    }
  }

  // ---------------------------------------------------------------------------
  // process_csv_space_usage

  /** A row reduced to its path and size columns. */
  datatype SizedPath = SizedPath(path: string, size: string)

  /** What one row adds: its size, when the stripped path contains the pattern and `int()` accepts the stripped size. */
  function Counted(row: SizedPath, pattern: string): Option<int> {
    if Contains(Strip(row.path), pattern) then ParseInt(Strip(row.size)) else None
  }

  function Counter(pattern: string): SizedPath -> Option<int> {
    row => Counted(row, pattern)
  }

  /** The values `f` yields over `rows`, in row order, skipping `None`. */
  function Collect<R, T>(rows: seq<R>, f: R -> Option<T>): seq<T> {
    if rows == [] then []
    else
      var c := f(rows[|rows| - 1]);
      Collect(rows[..|rows| - 1], f) + (if c.Some? then [c.value] else [])
  }

  /** The sizes the loop adds, in row order. */
  function CountedSizes(rows: seq<SizedPath>, pattern: string): seq<int> {
    Collect(rows, Counter(pattern))
  }

  /** One more row of the current chunk: the counters the loop keeps move as `Collect` does. */
  lemma CollectStep<R>(before: seq<R>, chunk: seq<R>, j: nat, f: R -> Option<int>, count: nat, total: int)
    requires j < |chunk|
    requires count == |Collect(before + chunk[..j], f)| && total == Sum(Collect(before + chunk[..j], f))
    ensures var v := f(chunk[j]);
      && (if v.Some? then count + 1 else count) == |Collect(before + chunk[..j + 1], f)|
      && (if v.Some? then total + v.value else total) == Sum(Collect(before + chunk[..j + 1], f))
  {
    var rows := before + chunk[..j + 1];
    assert rows[..|rows| - 1] == before + chunk[..j];
    var v := f(chunk[j]);
    if v.Some? {
      SumAppend(Collect(before + chunk[..j], f), [v.value]);
    } else {
      assert Collect(rows, f) == Collect(before + chunk[..j], f);
    }
  }

  /**
   * The loop over the chunks of `process_csv_space_usage` (non-regex matching): `count` is the
   * number of rows it adds and `total` their sum.
   */
  method SpaceUsage(chunks: seq<seq<SizedPath>>, pattern: string) returns (count: nat, total: int)
    ensures count == |CountedSizes(Flatten(chunks), pattern)|
    ensures total == Sum(CountedSizes(Flatten(chunks), pattern))
  {
    count, total := 0, 0;
    for i := 0 to |chunks|
      invariant count == |CountedSizes(Flatten(chunks[..i]), pattern)|
      invariant total == Sum(CountedSizes(Flatten(chunks[..i]), pattern))
    {
      FlattenSnoc(chunks, i);
      count, total := CountChunk(Flatten(chunks[..i]), chunks[i], pattern, count, total);
    }
    assert chunks[..|chunks|] == chunks;
  }

  /** The inner loop over the rows of one chunk, after the rows `before` of the earlier chunks. */
  method CountChunk(ghost before: seq<SizedPath>, chunk: seq<SizedPath>, pattern: string, count: nat, total: int)
    returns (count': nat, total': int)
    requires count == |CountedSizes(before, pattern)| && total == Sum(CountedSizes(before, pattern))
    ensures count' == |CountedSizes(before + chunk, pattern)| && total' == Sum(CountedSizes(before + chunk, pattern))
  {
    ghost var f := Counter(pattern);
    count', total' := count, total;
    assert before + chunk[..0] == before;
    for j := 0 to |chunk|
      invariant count' == |Collect(before + chunk[..j], f)|
      invariant total' == Sum(Collect(before + chunk[..j], f))
    {
      var v := Counted(chunk[j], pattern);
      assert v == f(chunk[j]);
      CollectStep(before, chunk, j, f, count', total');
      if v.Some? {
        total' := total' + v.value;
        count' := count' + 1;
      }
    }
    assert chunk[..|chunk|] == chunk;
  }

  /** `idx` lists, in increasing order, exactly the rows for which `f` yields a value, and `out` those values. */
  ghost predicate Picks<R, T>(rows: seq<R>, f: R -> Option<T>, idx: seq<nat>, out: seq<T>) {
    && |idx| == |out|
    && (forall k :: 0 <= k < |idx| ==> idx[k] < |rows| && f(rows[idx[k]]) == Some(out[k]))
    && (forall k, l :: 0 <= k < l < |idx| ==> idx[k] < idx[l])
    && (forall i :: 0 <= i < |rows| && f(rows[i]).Some? ==> i in idx)
  }

  /** `Collect` keeps the value of every row that has one, in row order, and nothing else. */
  lemma {:induction false} CollectPicks<R, T>(rows: seq<R>, f: R -> Option<T>)
    ensures exists idx :: Picks(rows, f, idx, Collect(rows, f))
    decreases |rows|
  {
    if rows == [] {
      assert Picks(rows, f, [], Collect(rows, f));
    } else {
      var n := |rows| - 1;
      CollectPicks(rows[..n], f);
      var idx :| Picks(rows[..n], f, idx, Collect(rows[..n], f));
      var idx' := PicksSnoc(rows, f, idx);
    }
  }

  /** Extending the rows by one extends the picks by that row, if `f` yields a value for it. */
  lemma PicksSnoc<R, T>(rows: seq<R>, f: R -> Option<T>, idx: seq<nat>) returns (idx': seq<nat>)
    requires rows != []
    requires Picks(rows[..|rows| - 1], f, idx, Collect(rows[..|rows| - 1], f))
    ensures Picks(rows, f, idx', Collect(rows, f))
  {
    var n := |rows| - 1;
    var front := rows[..n];
    var out := Collect(front, f);
    var c := f(rows[n]);
    if c.Some? {
      idx' := idx + [n];
      PicksSome(rows, f, idx, out, c.value);
    } else {
      idx' := idx;
      PicksNone(rows, f, idx, out);
    }
  }

  lemma PicksSome<R, T>(rows: seq<R>, f: R -> Option<T>, idx: seq<nat>, out: seq<T>, v: T)
    requires rows != [] && f(rows[|rows| - 1]) == Some(v)
    requires Picks(rows[..|rows| - 1], f, idx, out)
    ensures Picks(rows, f, idx + [|rows| - 1], out + [v])
  {
    var n := |rows| - 1;
    var idx' := idx + [n];
    forall k | 0 <= k < |idx'| ensures idx'[k] < |rows| && f(rows[idx'[k]]) == Some((out + [v])[k]) {
      if k < |idx| {
        assert rows[..n][idx[k]] == rows[idx[k]];
      }
    }
    forall i | 0 <= i < |rows| && f(rows[i]).Some? ensures i in idx' {
      if i < n {
        assert rows[..n][i] == rows[i];
        assert i in idx;
      } else {
        assert idx'[|idx|] == i;
      }
    }
  }

  lemma PicksNone<R, T>(rows: seq<R>, f: R -> Option<T>, idx: seq<nat>, out: seq<T>)
    requires rows != [] && f(rows[|rows| - 1]).None?
    requires Picks(rows[..|rows| - 1], f, idx, out)
    ensures Picks(rows, f, idx, out)
  {
    var n := |rows| - 1;
    forall k | 0 <= k < |idx| ensures idx[k] < |rows| && f(rows[idx[k]]) == Some(out[k]) {
      assert rows[..n][idx[k]] == rows[idx[k]];
    }
    forall i | 0 <= i < |rows| && f(rows[i]).Some? ensures i in idx {
      assert i != n;
      assert rows[..n][i] == rows[i];
    }
  }

  lemma {:induction false} CollectAppend<R, T>(a: seq<R>, b: seq<R>, f: R -> Option<T>)
    ensures Collect(a + b, f) == Collect(a, f) + Collect(b, f)
    decreases |b|
  {
    if b == [] {
      assert a + b == a;
    } else {
      var b' := b[..|b| - 1];
      assert (a + b)[..|a + b| - 1] == a + b';
      assert (a + b)[|a + b| - 1] == b[|b| - 1];
      CollectAppend(a, b', f);
    }
  }

  /** The picked rows are exactly those with a value. */
  lemma PicksExactly<R, T>(rows: seq<R>, f: R -> Option<T>, idx: seq<nat>, out: seq<T>)
    requires Picks(rows, f, idx, out)
    ensures forall i :: i in idx <==> 0 <= i < |rows| && f(rows[i]).Some?
  {
    forall i | i in idx ensures 0 <= i < |rows| && f(rows[i]).Some? {
      var k :| 0 <= k < |idx| && idx[k] == i;
    }
  }

  /**
   * `count` is the number of rows whose stripped path contains the pattern and whose stripped
   * size `int()` accepts, and `total` the sum of those sizes.
   */
  lemma SpaceUsageCounts(rows: seq<SizedPath>, pattern: string)
    ensures exists idx ::
      && Picks(rows, Counter(pattern), idx, CountedSizes(rows, pattern))
      && (forall i :: i in idx <==> 0 <= i < |rows| && Contains(Strip(rows[i].path), pattern) && ParseInt(Strip(rows[i].size)).Some?)
  {
    var f := Counter(pattern);
    CollectPicks(rows, f);
    var idx :| Picks(rows, f, idx, CountedSizes(rows, pattern));
    PicksExactly(rows, f, idx, CountedSizes(rows, pattern));
    forall i | 0 <= i < |rows|
      ensures f(rows[i]).Some? <==> Contains(Strip(rows[i].path), pattern) && ParseInt(Strip(rows[i].size)).Some?
    {
      assert f(rows[i]) == Counted(rows[i], pattern);
    }
  }

  /** A row whose size `int()` rejects, or whose path does not match, changes neither `count` nor `total`. */
  lemma SkippedRowIgnored(before: seq<SizedPath>, row: SizedPath, after: seq<SizedPath>, pattern: string)
    requires !Contains(Strip(row.path), pattern) || ParseInt(Strip(row.size)).None?
    ensures CountedSizes(before + [row] + after, pattern) == CountedSizes(before + after, pattern)
  {
    CollectSkips(before, row, after, Counter(pattern));
  }

  lemma CollectSkips<R, T>(before: seq<R>, row: R, after: seq<R>, f: R -> Option<T>)
    requires f(row).None?
    ensures Collect(before + [row] + after, f) == Collect(before + after, f)
  {
    CollectAppend(before + [row], after, f);
    CollectAppend(before, [row], f);
    CollectAppend(before, after, f);
    assert Collect([row], f) == Collect([], f) == [];
  }

  /** Rows that each have a value give all of them, in order. */
  lemma {:induction false} CollectAll<R, T>(rows: seq<R>, f: R -> Option<T>, values: seq<T>)
    requires |rows| == |values|
    requires forall i :: 0 <= i < |rows| ==> f(rows[i]) == Some(values[i])
    ensures Collect(rows, f) == values
    decreases |rows|
  {
    if rows != [] {
      var n := |rows| - 1;
      assert forall i :: 0 <= i < n ==> rows[..n][i] == rows[i];
      CollectAll(rows[..n], f, values[..n]);
      assert values == values[..n] + [values[n]];
    }
  }

  /**
   * Rows that all match and whose sizes are written in decimal are all counted, with their
   * sizes, whatever the white space around the columns.
   */
  lemma DecimalSizesCounted(rows: seq<SizedPath>, sizes: seq<nat>, pattern: string)
    requires |rows| == |sizes|
    requires forall i :: 0 <= i < |rows| ==> Contains(Strip(rows[i].path), pattern) && Strip(rows[i].size) == NatToString(sizes[i])
    ensures CountedSizes(rows, pattern) == sizes
  {
    var f := Counter(pattern);
    forall i | 0 <= i < |rows| ensures f(rows[i]) == Some(sizes[i] as int) {
      ParseDecimal(sizes[i]);
      assert f(rows[i]) == Counted(rows[i], pattern);
    }
    CollectAll(rows, f, seq(|sizes|, i requires 0 <= i < |sizes| => sizes[i] as int));
    assert seq(|sizes|, i requires 0 <= i < |sizes| => sizes[i] as int) == sizes;
  }

  /** `process_csv_space_usage`: the file must exist and be readable. */
  method ProcessSpaceUsage(csv: Csv<SizedPath>, pattern: string) returns (r: Result<(nat, int), Failure>)
    ensures csv.Missing? ==> r == Err(FileNotFound)
    ensures csv.Unreadable? ==> r == Err(ReadFailed)
    ensures csv.Chunks? ==> r.Ok? && r.value.0 == |CountedSizes(Flatten(csv.chunks), pattern)|
                                  && r.value.1 == Sum(CountedSizes(Flatten(csv.chunks), pattern))
  {
    match csv
    case Missing => r := Err(FileNotFound);
    case Unreadable(_) => r := Err(ReadFailed);
    case Chunks(chunks) =>
      var count, total := SpaceUsage(chunks, pattern);
      r := Ok((count, total));
  }

  /** `cmd_space_usage`: 2 for a missing file, 3 when processing raises, 0 with the counters otherwise. */
  method SpaceUsageCommand(csv: Csv<SizedPath>, pattern: string) returns (code: nat, count: nat, total: int)
    ensures code == 2 <==> csv.Missing?
    ensures code == 3 <==> csv.Unreadable?
    ensures code == 0 <==> csv.Chunks?
    ensures code == 0 ==>
      count == |CountedSizes(Flatten(csv.chunks), pattern)| && total == Sum(CountedSizes(Flatten(csv.chunks), pattern))
  {
    count, total := 0, 0;
    if csv.Missing? {
      return 2, count, total;
    }
    var r := ProcessSpaceUsage(csv, pattern);
    if r.Err? {
      return 3, count, total;
    }
    code, count, total := 0, r.value.0, r.value.1;
  }

  // ---------------------------------------------------------------------------
  // process_csv_user_summary

  /** A row reduced to its user and size columns. */
  datatype UserRow = UserRow(user: string, size: string)

  const UInt64Bound: nat := 0x1_0000_0000_0000_0000

  /** With a header the size column is read as `np.uint64`: the value of the text, when it fits. */
  function ReadUInt64(s: string): (r: Option<int>)
    ensures r.Some? ==> 0 <= r.value < UInt64Bound
  {
    match ParseInt(s)
    case Some(v) => if 0 <= v < UInt64Bound then Some(v) else None
    case None => None
  }

  /** The value of a size cell: `np.uint64` with a header, `int()` of the text without one. */
  function SizeValue(header: bool, size: string): Option<int> {
    if header then ReadUInt64(size) else ParseInt(size)
  }

  /** The size of a row of `user`; other users' rows yield nothing. */
  function SizeOf(header: bool, user: string): UserRow -> Option<int> {
    (row: UserRow) => if row.user == user then SizeValue(header, row.size) else None
  }

  /** `f` yields a value for every row. */
  predicate AllSome<R>(rows: seq<R>, f: R -> Option<int>) {
    forall i :: 0 <= i < |rows| ==> f(rows[i]).Some?
  }

  function Reader(header: bool): UserRow -> Option<int> {
    (row: UserRow) => SizeValue(header, row.size)
  }

  /** Every size of the chunk has a value; otherwise reading or summing it raises. */
  predicate ChunkOk(rows: seq<UserRow>, header: bool) {
    AllSome(rows, Reader(header))
  }

  /** The sum of the sizes of `user`'s rows. */
  function UserBytes(rows: seq<UserRow>, header: bool, user: string): int {
    Sum(Collect(rows, SizeOf(header, user)))
  }

  /**
   * `groupby("user")["size"].sum()` for one user of a chunk: with a header the column is
   * `np.uint64`, whose sum wraps at 2^64.
   */
  function ChunkTotal(rows: seq<UserRow>, header: bool, user: string): int {
    if header then UserBytes(rows, header, user) % UInt64Bound else UserBytes(rows, header, user)
  }

  function UsersOf(rows: seq<UserRow>): seq<string> {
    seq(|rows|, i requires 0 <= i < |rows| => rows[i].user)
  }

  /** The groups of a chunk: its users, each once, in sorted order (`groupby` sorts its keys). */
  function Users(rows: seq<UserRow>): seq<string> {
    SortUsers(Distinct(UsersOf(rows)))
  }

  /** Insert `x` before the first user it sorts before or equal to. */
  function InsertUser(x: string, sorted: seq<string>): seq<string> {
    if sorted == [] then [x]
    else if StrLe(x, sorted[0]) then [x] + sorted
    else [sorted[0]] + InsertUser(x, sorted[1..])
  }

  function SortUsers(users: seq<string>): seq<string> {
    if users == [] then []
    else InsertUser(users[|users| - 1], SortUsers(users[..|users| - 1]))
  }

  predicate Ascending(users: seq<string>) {
    forall i, j :: 0 <= i < j < |users| ==> StrLe(users[i], users[j])
  }

  predicate NoRepeats(users: seq<string>) {
    forall i, j :: 0 <= i < j < |users| ==> users[i] != users[j]
  }

  lemma {:induction false} InsertUserCount(x: string, sorted: seq<string>)
    ensures multiset(InsertUser(x, sorted)) == multiset(sorted) + multiset{x}
    decreases |sorted|
  {
    if sorted != [] && !StrLe(x, sorted[0]) {
      InsertUserCount(x, sorted[1..]);
      assert sorted == [sorted[0]] + sorted[1..];
    }
  }

  /** Every user of `InsertUser(x, sorted)` is `x` or one of `sorted[1..]`, or the first. */
  lemma InsertUserFrom(x: string, sorted: seq<string>, k: nat)
    requires sorted != [] && !StrLe(x, sorted[0])
    requires k < |InsertUser(x, sorted[1..])|
    ensures var r := InsertUser(x, sorted[1..]);
      r[k] == x || exists m :: 1 <= m < |sorted| && sorted[m] == r[k]
  {
    var rest := sorted[1..];
    var r := InsertUser(x, rest);
    InsertUserCount(x, rest);
    assert r[k] in multiset(r);
    if r[k] != x {
      assert r[k] in multiset(rest);
      var m :| 0 <= m < |rest| && rest[m] == r[k];
      assert sorted[m + 1] == r[k];
    }
  }

  lemma {:induction false} InsertUserSpec(x: string, sorted: seq<string>)
    requires Ascending(sorted)
    ensures Ascending(InsertUser(x, sorted))
    ensures multiset(InsertUser(x, sorted)) == multiset(sorted) + multiset{x}
    ensures NoRepeats(sorted) && x !in sorted ==> NoRepeats(InsertUser(x, sorted))
    decreases |sorted|
  {
    InsertUserCount(x, sorted);
    if sorted == [] {
    } else if StrLe(x, sorted[0]) {
      forall k | 0 <= k < |sorted| ensures StrLe(x, sorted[k]) {
        if k > 0 {
          StrLeTrans(x, sorted[0], sorted[k]);
        }
      }
      ConsAscending(x, sorted);
      ConsNoRepeats(x, sorted);
    } else {
      var rest := sorted[1..];
      assert Ascending(rest);
      InsertUserSpec(x, rest);
      var r := InsertUser(x, rest);
      StrLeTotal(x, sorted[0]);
      forall k | 0 <= k < |r| ensures StrLe(sorted[0], r[k]) && (NoRepeats(sorted) && x !in sorted ==> sorted[0] != r[k]) {
        InsertUserFrom(x, sorted, k);
      }
      ConsAscending(sorted[0], r);
      if NoRepeats(sorted) && x !in sorted {
        assert NoRepeats(rest) && x !in rest;
        ConsNoRepeats(sorted[0], r);
      }
    }
  }

  lemma ConsAscending(h: string, r: seq<string>)
    requires Ascending(r) && forall k :: 0 <= k < |r| ==> StrLe(h, r[k])
    ensures Ascending([h] + r)
  {
    var s := [h] + r;
    forall i, j | 0 <= i < j < |s| ensures StrLe(s[i], s[j]) {
      assert s[j] == r[j - 1];
      if i > 0 {
        assert s[i] == r[i - 1];
      }
    }
  }

  lemma ConsNoRepeats(h: string, r: seq<string>)
    ensures NoRepeats(r) && (forall k :: 0 <= k < |r| ==> h != r[k]) ==> NoRepeats([h] + r)
  {
    var s := [h] + r;
    if NoRepeats(r) && (forall k :: 0 <= k < |r| ==> h != r[k]) {
      forall i, j | 0 <= i < j < |s| ensures s[i] != s[j] {
        assert s[j] == r[j - 1];
        if i > 0 {
          assert s[i] == r[i - 1];
        }
      }
    }
  }

  /** The users come out in ascending order, each of the users that went in, once. */
  lemma {:induction false} SortUsersSpec(users: seq<string>)
    ensures Ascending(SortUsers(users))
    ensures multiset(SortUsers(users)) == multiset(users)
    ensures NoRepeats(users) ==> NoRepeats(SortUsers(users))
    decreases |users|
  {
    if users != [] {
      var n := |users| - 1;
      assert users == users[..n] + [users[n]];
      SortUsersSpec(users[..n]);
      InsertUserSpec(users[n], SortUsers(users[..n]));
      if NoRepeats(users) {
        assert users[n] !in users[..n];
        assert users[n] !in multiset(SortUsers(users[..n]));
      }
    }
  }

  /** A chunk's groups are its users, each once, in ascending order. */
  lemma UsersSpec(rows: seq<UserRow>)
    ensures forall u :: u in Users(rows) <==> u in UsersOf(rows)
    ensures NoRepeats(Users(rows)) && Ascending(Users(rows))
  {
    DistinctSpec(UsersOf(rows));
    SortUsersSpec(Distinct(UsersOf(rows)));
    forall u ensures u in Users(rows) <==> u in Distinct(UsersOf(rows)) {
      assert u in Users(rows) <==> u in multiset(Users(rows));
    }
  }

  function GetOr0(d: Dict<int>, k: string): int {
    if k in d.entries then d.entries[k] else 0
  }

  /** Each key of `keys` with its value under `value`, in the order of `keys`. */
  function Tabulate(keys: seq<string>, value: string -> int): (items: seq<(string, int)>)
    ensures |items| == |keys|
    ensures forall i :: 0 <= i < |keys| ==> items[i] == (keys[i], value(keys[i]))
  {
    seq(|keys|, i requires 0 <= i < |keys| => (keys[i], value(keys[i])))
  }

  function Totaller(rows: seq<UserRow>, header: bool): string -> int {
    user => ChunkTotal(rows, header, user)
  }

  /** `grouped.items()`: each user of the chunk once, with the chunk's total for that user. */
  function Groups(rows: seq<UserRow>, header: bool): seq<(string, int)> {
    Tabulate(Users(rows), Totaller(rows, header))
  }

  /** `for user, size in grouped.items(): user_sizes[user] = user_sizes.get(user, 0) + int(size)`. */
  function AddGroups(d: Dict<int>, groups: seq<(string, int)>): Dict<int> {
    if groups == [] then d
    else
      var g := groups[|groups| - 1];
      var d' := AddGroups(d, groups[..|groups| - 1]);
      Store(d', g.0, GetOr0(d', g.0) + g.1)
  }

  /** The index of the first element that `ok` rejects, if any. */
  function FirstFailing<X>(xs: seq<X>, ok: X -> bool): Option<nat> {
    if xs == [] then None
    else
      var before := FirstFailing(xs[..|xs| - 1], ok);
      if before.Some? then before
      else if ok(xs[|xs| - 1]) then None
      else Some(|xs| - 1)
  }

  function ChunkChecker(header: bool): seq<UserRow> -> bool {
    rows => ChunkOk(rows, header)
  }

  /** `user_sizes` after adding the groups of every chunk. */
  function Totals(chunks: seq<seq<UserRow>>, header: bool): Dict<int> {
    if chunks == [] then Dict([], map[])
    else AddGroups(Totals(chunks[..|chunks| - 1], header), Groups(chunks[|chunks| - 1], header))
  }

  /** `process_csv_user_summary`'s result: the first chunk that cannot be read or summed fails it. */
  function Summary(chunks: seq<seq<UserRow>>, header: bool): Result<Dict<int>, Failure> {
    var bad := FirstFailing(chunks, ChunkChecker(header));
    if bad.Some? then Err(BadSize(bad.value)) else Ok(Totals(chunks, header))
  }

  /** The loop of `process_csv_user_summary` over the chunks, with the sizes summed as integers. */
  method UserSummary(chunks: seq<seq<UserRow>>, header: bool) returns (r: Result<Dict<int>, Failure>)
    ensures r == Summary(chunks, header)
  {
    var sizes: Dict<int> := Dict([], map[]);
    for i := 0 to |chunks|
      invariant FirstFailing(chunks[..i], ChunkChecker(header)) == None
      invariant sizes == Totals(chunks[..i], header)
    {
      var chunk := chunks[i];
      SummaryStep(chunks, i, header);
      if !ChunkOk(chunk, header) {
        FirstFailingStays(chunks, i + 1, ChunkChecker(header));
        return Err(BadSize(i));
      }
      var grouped := Groups(chunk, header);
      sizes := AddChunk(sizes, grouped);
    }
    assert chunks[..|chunks|] == chunks;
    r := Ok(sizes);
  }

  lemma SummaryStep(chunks: seq<seq<UserRow>>, i: nat, header: bool)
    requires i < |chunks|
    ensures FirstFailing(chunks[..i], ChunkChecker(header)) == None ==>
      FirstFailing(chunks[..i + 1], ChunkChecker(header)) == if ChunkOk(chunks[i], header) then None else Some(i)
    ensures Totals(chunks[..i + 1], header) == AddGroups(Totals(chunks[..i], header), Groups(chunks[i], header))
  {
    assert chunks[..i + 1][..i] == chunks[..i];
  }

  /** The inner loop over the groups of one chunk. */
  method AddChunk(sizes: Dict<int>, grouped: seq<(string, int)>) returns (sizes': Dict<int>)
    ensures sizes' == AddGroups(sizes, grouped)
  {
    sizes' := sizes;
    for j := 0 to |grouped|
      invariant sizes' == AddGroups(sizes, grouped[..j])
    {
      var (user, size) := grouped[j];
      var previous := if user in sizes'.entries then sizes'.entries[user] else 0;
      assert grouped[..j + 1][..j] == grouped[..j];
      sizes' := Store(sizes', user, previous + size);
    }
    assert grouped[..|grouped|] == grouped;
  }

  /** Once an element fails, the first failure stays where it is, whatever follows. */
  lemma {:induction false} FirstFailingStays<X>(xs: seq<X>, i: nat, ok: X -> bool)
    requires i <= |xs|
    requires FirstFailing(xs[..i], ok).Some?
    ensures FirstFailing(xs, ok) == FirstFailing(xs[..i], ok)
    decreases |xs| - i
  {
    if i < |xs| {
      assert xs[..i + 1][..i] == xs[..i];
      FirstFailingStays(xs, i + 1, ok);
    } else {
      assert xs[..i] == xs;
    }
  }

  /** No element fails iff `ok` accepts all; otherwise the first failure is rejected and all before it accepted. */
  lemma {:induction false} FirstFailingSpec<X>(xs: seq<X>, ok: X -> bool)
    ensures FirstFailing(xs, ok).None? <==> forall i :: 0 <= i < |xs| ==> ok(xs[i])
    ensures FirstFailing(xs, ok).Some? ==>
      var k := FirstFailing(xs, ok).value;
      k < |xs| && !ok(xs[k]) && forall i :: 0 <= i < k ==> ok(xs[i])
    decreases |xs|
  {
    if xs != [] {
      var n := |xs| - 1;
      FirstFailingSpec(xs[..n], ok);
      assert forall i :: 0 <= i < n ==> xs[..n][i] == xs[i];
    }
  }

  /** What `groups` lists for `user`, summed. */
  function GroupSum(groups: seq<(string, int)>, user: string): int {
    if groups == [] then 0
    else
      var g := groups[|groups| - 1];
      GroupSum(groups[..|groups| - 1], user) + (if g.0 == user then g.1 else 0)
  }

  /** Adding groups keeps the dictionary well formed, and its earlier keys in place. */
  lemma {:induction false} AddGroupsValid(d: Dict<int>, groups: seq<(string, int)>)
    requires d.Valid()
    ensures AddGroups(d, groups).Valid()
    ensures d.keys <= AddGroups(d, groups).keys
    decreases |groups|
  {
    if groups != [] {
      AddGroupsValid(d, groups[..|groups| - 1]);
    }
  }

  /**
   * After adding groups, a user is in the dictionary iff it was before or some group names
   * it, and its total has grown by what the groups list for it.
   */
  lemma {:induction false} AddGroupsSpec(d: Dict<int>, groups: seq<(string, int)>, user: string)
    ensures user in AddGroups(d, groups).entries <==>
      user in d.entries || exists i :: 0 <= i < |groups| && groups[i].0 == user
    ensures GetOr0(AddGroups(d, groups), user) == GetOr0(d, user) + GroupSum(groups, user)
    decreases |groups|
  {
    if groups != [] {
      var n := |groups| - 1;
      var init := groups[..n];
      var g := groups[n];
      AddGroupsSpec(d, init, user);
      var d' := AddGroups(d, init);
      assert AddGroups(d, groups) == Store(d', g.0, GetOr0(d', g.0) + g.1);
      assert GroupSum(groups, user) == GroupSum(init, user) + (if g.0 == user then g.1 else 0);
      if exists i :: 0 <= i < |init| && init[i].0 == user {
        var i :| 0 <= i < |init| && init[i].0 == user;
        assert groups[i].0 == user;
      }
      if exists i :: 0 <= i < |groups| && groups[i].0 == user {
        var i :| 0 <= i < |groups| && groups[i].0 == user;
        if i < n {
          assert init[i].0 == user;
        }
      }
    }
  }

  /** A table over distinct keys lists each key's value once, and nothing for other keys. */
  lemma TabulateSum(keys: seq<string>, value: string -> int, user: string)
    requires forall i, j :: 0 <= i < j < |keys| ==> keys[i] != keys[j]
    ensures GroupSum(Tabulate(keys, value), user) == if user in keys then value(user) else 0
    ensures (exists i :: 0 <= i < |keys| && Tabulate(keys, value)[i].0 == user) <==> user in keys
  {
    var items := Tabulate(keys, value);
    if i :| 0 <= i < |keys| && keys[i] == user {
      GroupSumOnce(items, user, i);
    } else {
      GroupSumNone(items, user);
    }
  }

  lemma {:induction false} GroupSumOnce(groups: seq<(string, int)>, user: string, i: nat)
    requires i < |groups| && groups[i].0 == user
    requires forall j :: 0 <= j < |groups| && j != i ==> groups[j].0 != user
    ensures GroupSum(groups, user) == groups[i].1
    decreases |groups|
  {
    var n := |groups| - 1;
    if i < n {
      GroupSumOnce(groups[..n], user, i);
    } else {
      GroupSumNone(groups[..n], user);
    }
  }

  lemma {:induction false} GroupSumNone(groups: seq<(string, int)>, user: string)
    requires forall j :: 0 <= j < |groups| ==> groups[j].0 != user
    ensures GroupSum(groups, user) == 0
    decreases |groups|
  {
    if groups != [] {
      GroupSumNone(groups[..|groups| - 1], user);
    }
  }

  lemma {:induction false} CollectNone<R, T>(rows: seq<R>, f: R -> Option<T>)
    requires forall i :: 0 <= i < |rows| ==> f(rows[i]).None?
    ensures Collect(rows, f) == []
    decreases |rows|
  {
    if rows != [] {
      CollectNone(rows[..|rows| - 1], f);
    }
  }

  /** A user without rows in the chunk has total 0 there. */
  lemma NoRowsNoTotal(rows: seq<UserRow>, header: bool, user: string)
    requires user !in UsersOf(rows)
    ensures ChunkTotal(rows, header, user) == 0
  {
    forall k | 0 <= k < |rows| ensures SizeOf(header, user)(rows[k]).None? {
      assert UsersOf(rows)[k] == rows[k].user;
    }
    CollectNone(rows, SizeOf(header, user));
  }

  /** The groups of a chunk list each user of the chunk once, with its chunk total. */
  lemma GroupsOfChunk(rows: seq<UserRow>, header: bool, user: string)
    ensures GroupSum(Groups(rows, header), user) == ChunkTotal(rows, header, user)
    ensures (exists i :: 0 <= i < |Groups(rows, header)| && Groups(rows, header)[i].0 == user) <==> user in UsersOf(rows)
  {
    UsersSpec(rows);
    TabulateSum(Users(rows), Totaller(rows, header), user);
    if user !in UsersOf(rows) {
      NoRowsNoTotal(rows, header, user);
    }
  }

  lemma UsersOfAppend(a: seq<UserRow>, b: seq<UserRow>)
    ensures UsersOf(a + b) == UsersOf(a) + UsersOf(b)
  {
    assert forall i :: 0 <= i < |a + b| ==> UsersOf(a + b)[i] == (UsersOf(a) + UsersOf(b))[i];
  }

  /** A user's chunk totals, summed over the chunks as the loop adds them. */
  function ChunkTotals(chunks: seq<seq<UserRow>>, header: bool, user: string): int {
    if chunks == [] then 0
    else ChunkTotals(chunks[..|chunks| - 1], header, user) + ChunkTotal(chunks[|chunks| - 1], header, user)
  }

  /**
   * The totals form a well-formed dictionary whose users are exactly the users of the rows,
   * each mapped to the sum of its chunk totals.
   */
  lemma {:induction false} TotalsSpec(chunks: seq<seq<UserRow>>, header: bool, user: string)
    ensures Totals(chunks, header).Valid()
    ensures user in Totals(chunks, header).entries <==> user in UsersOf(Flatten(chunks))
    ensures GetOr0(Totals(chunks, header), user) == ChunkTotals(chunks, header, user)
    decreases |chunks|
  {
    if chunks != [] {
      var n := |chunks| - 1;
      TotalsSpec(chunks[..n], header, user);
      var before := Totals(chunks[..n], header);
      AddGroupsValid(before, Groups(chunks[n], header));
      AddGroupsSpec(before, Groups(chunks[n], header), user);
      GroupsOfChunk(chunks[n], header, user);
      UsersOfAppend(Flatten(chunks[..n]), chunks[n]);
    }
  }

  /** The summary succeeds iff every chunk can be summed, and otherwise fails at the first that cannot. */
  lemma SummaryOkIff(chunks: seq<seq<UserRow>>, header: bool)
    ensures Summary(chunks, header).Ok? <==> forall i :: 0 <= i < |chunks| ==> ChunkOk(chunks[i], header)
    ensures Summary(chunks, header).Err? ==>
      && Summary(chunks, header).error.BadSize?
      && var n := Summary(chunks, header).error.chunk;
      && n < |chunks| && !ChunkOk(chunks[n], header)
      && forall i :: 0 <= i < n ==> ChunkOk(chunks[i], header)
  {
    FirstFailingSpec(chunks, ChunkChecker(header));
  }

  /** The chunks can all be summed iff every size of the file has a value: cutting does not matter. */
  lemma ChunksOkIff(chunks: seq<seq<UserRow>>, header: bool)
    ensures (forall i :: 0 <= i < |chunks| ==> ChunkOk(chunks[i], header)) <==>
      forall r :: r in Flatten(chunks) ==> SizeValue(header, r.size).Some?
  {
    AllSomeFlatten(chunks, Reader(header));
  }

  lemma {:induction false} AllSomeFlatten<R>(chunks: seq<seq<R>>, f: R -> Option<int>)
    ensures (forall i :: 0 <= i < |chunks| ==> AllSome(chunks[i], f)) <==> forall r :: r in Flatten(chunks) ==> f(r).Some?
    decreases |chunks|
  {
    if chunks != [] {
      var n := |chunks| - 1;
      AllSomeFlatten(chunks[..n], f);
      var c := chunks[n];
      assert Flatten(chunks) == Flatten(chunks[..n]) + c;
      assert forall i :: 0 <= i < n ==> chunks[..n][i] == chunks[i];
      assert AllSome(c, f) <==> forall r :: r in c ==> f(r).Some?;
    }
  }

  lemma {:induction false} UserBytesNonNegative(rows: seq<UserRow>, user: string)
    ensures UserBytes(rows, true, user) >= 0
    decreases |rows|
  {
    if rows != [] {
      var n := |rows| - 1;
      var f := SizeOf(true, user);
      UserBytesNonNegative(rows[..n], user);
      var c := f(rows[n]);
      if c.Some? {
        SumAppend(Collect(rows[..n], f), [c.value]);
      } else {
        assert Collect(rows, f) == Collect(rows[..n], f);
      }
    }
  }

  lemma UserBytesAppend(a: seq<UserRow>, b: seq<UserRow>, header: bool, user: string)
    ensures UserBytes(a + b, header, user) == UserBytes(a, header, user) + UserBytes(b, header, user)
  {
    CollectAppend(a, b, SizeOf(header, user));
    SumAppend(Collect(a, SizeOf(header, user)), Collect(b, SizeOf(header, user)));
  }

  /**
   * Where no chunk's total wraps (always, without a header), a user's chunk totals add up to
   * the sum of all the user's sizes, however the file is cut into chunks.
   */
  lemma {:induction false} ChunkingIrrelevant(chunks: seq<seq<UserRow>>, header: bool, user: string)
    requires header ==> forall i :: 0 <= i < |chunks| ==> UserBytes(chunks[i], header, user) < UInt64Bound
    ensures ChunkTotals(chunks, header, user) == UserBytes(Flatten(chunks), header, user)
    decreases |chunks|
  {
    if chunks != [] {
      var n := |chunks| - 1;
      var c := chunks[n];
      assert forall i :: 0 <= i < n ==> chunks[..n][i] == chunks[i];
      ChunkingIrrelevant(chunks[..n], header, user);
      assert Flatten(chunks) == Flatten(chunks[..n]) + c;
      UserBytesAppend(Flatten(chunks[..n]), c, header, user);
      ChunkTotalNoWrap(c, header, user);
    }
  }

  lemma ChunkTotalNoWrap(rows: seq<UserRow>, header: bool, user: string)
    requires header ==> UserBytes(rows, header, user) < UInt64Bound
    ensures ChunkTotal(rows, header, user) == UserBytes(rows, header, user)
  {
    if header {
      UserBytesNonNegative(rows, user);
    }
  }

  /** The report's totals: each user of the file with the sum of all its sizes. */
  lemma UserTotals(chunks: seq<seq<UserRow>>, header: bool, user: string)
    requires Summary(chunks, header).Ok?
    requires header ==> forall i :: 0 <= i < |chunks| ==> UserBytes(chunks[i], header, user) < UInt64Bound
    ensures user in Summary(chunks, header).value.entries <==> user in UsersOf(Flatten(chunks))
    ensures GetOr0(Summary(chunks, header).value, user) == UserBytes(Flatten(chunks), header, user)
  {
    TotalsSpec(chunks, header, user);
    ChunkingIrrelevant(chunks, header, user);
  }

  // ---------------------------------------------------------------------------
  // cmd_user_summary

  function Getter(d: Dict<int>): string -> int {
    user => GetOr0(d, user)
  }

  /** `user_sizes.items()`, without the floating-point terabyte column. */
  function Items(d: Dict<int>): seq<(string, int)> {
    Tabulate(d.keys, Getter(d))
  }

  /** Insert `x` after every item at least as large, so that equal sizes keep their order. */
  function InsertBySize(x: (string, int), sorted: seq<(string, int)>): seq<(string, int)> {
    if sorted == [] then [x]
    else if sorted[0].1 >= x.1 then [sorted[0]] + InsertBySize(x, sorted[1..])
    else [x] + sorted
  }

  /** `results.sort(key=lambda x: x[1], reverse=True)`: a stable sort, largest size first. */
  function SortBySize(items: seq<(string, int)>): seq<(string, int)> {
    if items == [] then []
    else InsertBySize(items[|items| - 1], SortBySize(items[..|items| - 1]))
  }

  predicate NonIncreasing(items: seq<(string, int)>) {
    forall i, j :: 0 <= i < j < |items| ==> items[i].1 >= items[j].1
  }

  lemma {:induction false} InsertBySizeCount(x: (string, int), sorted: seq<(string, int)>)
    ensures multiset(InsertBySize(x, sorted)) == multiset(sorted) + multiset{x}
    ensures |InsertBySize(x, sorted)| == |sorted| + 1
    decreases |sorted|
  {
    if sorted != [] && sorted[0].1 >= x.1 {
      InsertBySizeCount(x, sorted[1..]);
      assert sorted == [sorted[0]] + sorted[1..];
    }
  }

  /** An item of `InsertBySize(x, sorted[1..])` is `x` or an item of `sorted` after the first. */
  lemma InsertBySizeFrom(x: (string, int), sorted: seq<(string, int)>, k: nat)
    requires sorted != [] && k < |InsertBySize(x, sorted[1..])|
    ensures var r := InsertBySize(x, sorted[1..]);
      r[k] == x || exists m :: 1 <= m < |sorted| && sorted[m] == r[k]
  {
    var rest := sorted[1..];
    var r := InsertBySize(x, rest);
    InsertBySizeCount(x, rest);
    assert r[k] in multiset(r);
    if r[k] != x {
      assert r[k] in multiset(rest);
      var m :| 0 <= m < |rest| && rest[m] == r[k];
      assert sorted[m + 1] == r[k];
    }
  }

  lemma {:induction false} InsertBySizeSpec(x: (string, int), sorted: seq<(string, int)>)
    requires NonIncreasing(sorted)
    ensures NonIncreasing(InsertBySize(x, sorted))
    ensures multiset(InsertBySize(x, sorted)) == multiset(sorted) + multiset{x}
    ensures |InsertBySize(x, sorted)| == |sorted| + 1
    decreases |sorted|
  {
    InsertBySizeCount(x, sorted);
    if sorted != [] && sorted[0].1 >= x.1 {
      var rest := sorted[1..];
      assert NonIncreasing(rest);
      InsertBySizeSpec(x, rest);
      var r := InsertBySize(x, rest);
      forall k | 0 <= k < |r| ensures sorted[0].1 >= r[k].1 {
        InsertBySizeFrom(x, sorted, k);
      }
    }
  }

  /** The rows of size `v`, in their order. */
  function WithSize(items: seq<(string, int)>, v: int): seq<(string, int)> {
    if items == [] then []
    else (if items[0].1 == v then [items[0]] else []) + WithSize(items[1..], v)
  }

  lemma {:induction false} WithSizeAppend(a: seq<(string, int)>, b: seq<(string, int)>, v: int)
    ensures WithSize(a + b, v) == WithSize(a, v) + WithSize(b, v)
    decreases |a|
  {
    if a == [] {
      assert a + b == b;
    } else {
      var head := if a[0].1 == v then [a[0]] else [];
      assert (a + b)[0] == a[0] && (a + b)[1..] == a[1..] + b;
      assert WithSize(a + b, v) == head + WithSize(a[1..] + b, v);
      assert WithSize(a, v) == head + WithSize(a[1..], v);
      WithSizeAppend(a[1..], b, v);
    }
  }

  /** Inserting `x` puts it after every row of its size already there. */
  lemma {:induction false} InsertBySizeStable(x: (string, int), sorted: seq<(string, int)>, v: int)
    requires NonIncreasing(sorted)
    ensures WithSize(InsertBySize(x, sorted), v) == WithSize(sorted, v) + (if x.1 == v then [x] else [])
    decreases |sorted|
  {
    if sorted == [] {
    } else if sorted[0].1 >= x.1 {
      var rest := sorted[1..];
      assert NonIncreasing(rest);
      InsertBySizeStable(x, rest, v);
      WithSizeAppend([sorted[0]], InsertBySize(x, rest), v);
    } else {
      WithSizeAppend([x], sorted, v);
      if x.1 == v {
        SmallerHaveNoSize(sorted, v);
      }
    }
  }

  /** A non-increasing list that starts below `v` has no row of size `v`. */
  lemma {:induction false} SmallerHaveNoSize(sorted: seq<(string, int)>, v: int)
    requires NonIncreasing(sorted) && sorted != [] && sorted[0].1 < v
    ensures WithSize(sorted, v) == []
    decreases |sorted|
  {
    if |sorted| > 1 {
      assert NonIncreasing(sorted[1..]);
      SmallerHaveNoSize(sorted[1..], v);
    }
  }

  /** The rows come out largest first, they are the rows that went in, and rows of equal size keep their order. */
  lemma {:induction false} SortBySizeSpec(items: seq<(string, int)>)
    ensures NonIncreasing(SortBySize(items))
    ensures multiset(SortBySize(items)) == multiset(items)
    ensures |SortBySize(items)| == |items|
    ensures forall v :: WithSize(SortBySize(items), v) == WithSize(items, v)
    decreases |items|
  {
    if items != [] {
      var n := |items| - 1;
      assert items == items[..n] + [items[n]];
      assert multiset(items) == multiset(items[..n]) + multiset{items[n]};
      SortBySizeSpec(items[..n]);
      InsertBySizeSpec(items[n], SortBySize(items[..n]));
      forall v ensures WithSize(SortBySize(items), v) == WithSize(items, v) {
        InsertBySizeStable(items[n], SortBySize(items[..n]), v);
        WithSizeAppend(items[..n], [items[n]], v);
      }
    }
  }

  /** `max(max((len(user) for user, ...), default=4), len("User"))`. */
  function UserColumnWidth(results: seq<(string, int)>): nat {
    if results == [] then 4
    else
      var w := UserColumnWidth(results[..|results| - 1]);
      var u := results[|results| - 1].0;
      if |u| > w then |u| else w
  }

  /** The user column is at least as wide as the heading and every user, and no wider than needed. */
  lemma {:induction false} UserColumnWidthSpec(results: seq<(string, int)>)
    ensures UserColumnWidth(results) >= 4
    ensures forall i :: 0 <= i < |results| ==> |results[i].0| <= UserColumnWidth(results)
    ensures UserColumnWidth(results) == 4 || exists i :: 0 <= i < |results| && |results[i].0| == UserColumnWidth(results)
    decreases |results|
  {
    if results != [] {
      var n := |results| - 1;
      UserColumnWidthSpec(results[..n]);
      assert forall i :: 0 <= i < n ==> results[..n][i] == results[i];
    }
  }

  function Spaces(n: nat): (r: string)
    ensures |r| == n && forall i :: 0 <= i < n ==> r[i] == ' '
  {
    if n == 0 then [] else Spaces(n - 1) + [' ']
  }

  /** `s.ljust(w)`: padded with spaces on the right to width `w`. */
  function LJust(s: string, w: nat): (r: string)
    ensures |r| == if |s| < w then w else |s|
    ensures r[..|s|] == s
  {
    if |s| < w then s + Spaces(w - |s|) else s
  }

  /**
   * The report: the heading line, then one line per result with the user padded to the
   * column width, a tab, and the size cell. The size cell (the terabytes, right-aligned in 18
   * characters) is a parameter, its floating-point formatting being outside the model.
   */
  function ReportLines(results: seq<(string, int)>, sizeCell: int -> string): (lines: seq<string>) {
    var w := UserColumnWidth(results);
    [LJust("User", w) + "\t" + "Occupied Size [TB]"]
      + seq(|results|, i requires 0 <= i < |results| => LJust(results[i].0, w) + "\t" + sizeCell(results[i].1))
  }

  /** Every line holds its user in the first column, and the tab after it sits at the same place. */
  lemma ReportColumns(results: seq<(string, int)>, sizeCell: int -> string)
    ensures var lines := ReportLines(results, sizeCell);
      var w := UserColumnWidth(results);
      && |lines| == |results| + 1
      && (forall i :: 0 <= i < |lines| ==> |lines[i]| > w && lines[i][w] == '\t')
      && lines[0][..4] == "User"
      && (forall i :: 0 <= i < |results| ==> lines[i + 1][..|results[i].0|] == results[i].0)
  {
    var lines := ReportLines(results, sizeCell);
    var w := UserColumnWidth(results);
    UserColumnWidthSpec(results);
    forall i | 0 <= i < |results| ensures |lines[i + 1]| > w && lines[i + 1][w] == '\t' && lines[i + 1][..|results[i].0|] == results[i].0 {
      ReportLineAt(results, sizeCell, i);
    }
    assert lines[0] == LJust("User", w) + "\t" + "Occupied Size [TB]";
    ReportLine("User", w, "Occupied Size [TB]");
  }

  lemma ReportLineAt(results: seq<(string, int)>, sizeCell: int -> string, i: nat)
    requires i < |results|
    ensures var line := ReportLines(results, sizeCell)[i + 1];
      var w := UserColumnWidth(results);
      |line| > w && line[w] == '\t' && line[..|results[i].0|] == results[i].0
  {
    var w := UserColumnWidth(results);
    UserColumnWidthSpec(results);
    assert ReportLines(results, sizeCell)[i + 1] == LJust(results[i].0, w) + "\t" + sizeCell(results[i].1);
    ReportLine(results[i].0, w, sizeCell(results[i].1));
  }

  lemma ReportLine(user: string, w: nat, cell: string)
    requires |user| <= w
    ensures var line := LJust(user, w) + "\t" + cell;
      |line| > w && line[w] == '\t' && line[..|user|] == user
  {
    var padded := LJust(user, w);
    assert (padded + "\t" + cell)[..|user|] == padded[..|user|];
  }

  /**
   * `cmd_user_summary` up to the output: 2 for a missing file, 3 when the report fails, and
   * otherwise 0 with the report lines of the results, largest first.
   */
  method UserSummaryCommand(csv: Csv<UserRow>, header: bool, sizeCell: int -> string)
    returns (code: nat, results: seq<(string, int)>, lines: seq<string>)
    ensures code == 2 <==> csv.Missing?
    ensures code == 3 <==> csv.Unreadable? || (csv.Chunks? && Summary(csv.chunks, header).Err?)
    ensures code == 0 ==>
      && csv.Chunks? && Summary(csv.chunks, header).Ok?
      && results == SortBySize(Items(Summary(csv.chunks, header).value))
      && lines == ReportLines(results, sizeCell)
    ensures code != 0 ==> results == [] && lines == []
  {
    match csv {
      case Missing => return 2, [], [];
      case Unreadable(_) => return 3, [], [];
      case Chunks(chunks) =>
        var r := UserSummary(chunks, header);
        if r.Err? {
          return 3, [], [];
        }
        results := SortBySize(Items(r.value));
        lines := ReportLines(results, sizeCell);
        code := 0;
    }
  }

  /**
   * A successful report lists every user of the file once, with its total, largest first;
   * users with equal totals stay in the order they were first seen.
   */
  lemma SummaryResults(chunks: seq<seq<UserRow>>, header: bool, user: string)
    requires Summary(chunks, header).Ok?
    ensures var d := Summary(chunks, header).value;
      var results := SortBySize(Items(d));
      && NonIncreasing(results)
      && multiset(results) == multiset(Items(d))
      && ((user, GetOr0(d, user)) in results <==> user in UsersOf(Flatten(chunks)))
      && (forall i :: 0 <= i < |results| ==> results[i].1 == GetOr0(d, results[i].0) && results[i].0 in d.entries)
      && forall v :: WithSize(results, v) == WithSize(Items(d), v)
  {
    var d := Summary(chunks, header).value;
    var items := Items(d);
    var results := SortBySize(items);
    TotalsSpec(chunks, header, user);
    SortBySizeSpec(items);
    forall i | 0 <= i < |results| ensures results[i].1 == GetOr0(d, results[i].0) && results[i].0 in d.entries {
      assert results[i] in multiset(items);
      var k :| 0 <= k < |items| && items[k] == results[i];
    }
    if user in d.entries {
      var k :| 0 <= k < |d.keys| && d.keys[k] == user;
      assert items[k] == (user, GetOr0(d, user));
      assert items[k] in multiset(results);
    }
    if (user, GetOr0(d, user)) in results {
      assert (user, GetOr0(d, user)) in multiset(items);
    }
  }

  // ---------------------------------------------------------------------------
  // extract_paths_from_csv

  /** What one cell writes: its stripped value, unless that is empty or, with a pattern, lacks the pattern. */
  function Extracted(cell: string, pattern: string): Option<string> {
    var v := Strip(cell);
    if v == [] then None
    else if pattern != [] && !Contains(v, pattern) then None
    else Some(v)
  }

  function Extractor(pattern: string): string -> Option<string> {
    cell => Extracted(cell, pattern)
  }

  /** The values written for `cells`, in order. */
  function ExtractedPaths(cells: seq<string>, pattern: string): seq<string> {
    Collect(cells, Extractor(pattern))
  }

  /** The text `out_f.write(v + "\n")` produces for `values`. */
  function Lines(values: seq<string>): string {
    if values == [] then [] else values[0] + "\n" + Lines(values[1..])
  }

  lemma {:induction false} LinesAppend(a: seq<string>, b: seq<string>)
    ensures Lines(a + b) == Lines(a) + Lines(b)
    decreases |a|
  {
    if a == [] {
      assert a + b == b;
    } else {
      assert (a + b)[1..] == a[1..] + b;
      LinesAppend(a[1..], b);
    }
  }

  /** The inner loop of `extract_paths_from_csv`: one line per value, written after `text`. */
  method WriteLines(text: string, values: seq<string>) returns (text': string)
    ensures text' == text + Lines(values)
  {
    text' := text;
    for j := 0 to |values|
      invariant text' == text + Lines(values[..j])
    {
      assert values[..j + 1] == values[..j] + [values[j]];
      LinesAppend(values[..j], [values[j]]);
      text' := text' + values[j] + "\n";
    }
    assert values[..|values|] == values;
  }

  /**
   * The loop of `extract_paths_from_csv` over the chunks: the text written and the count
   * returned.
   */
  method ExtractPaths(chunks: seq<seq<string>>, pattern: string) returns (text: string, written: nat)
    ensures text == Lines(ExtractedPaths(Flatten(chunks), pattern))
    ensures written == |ExtractedPaths(Flatten(chunks), pattern)|
  {
    var f := Extractor(pattern);
    text, written := [], 0;
    for i := 0 to |chunks|
      invariant text == Lines(Collect(Flatten(chunks[..i]), f))
      invariant written == |Collect(Flatten(chunks[..i]), f)|
    {
      var before := Collect(Flatten(chunks[..i]), f);
      var values := ExtractedPaths(chunks[i], pattern);
      LinesAppend(before, values);
      text := WriteLines(text, values);
      written := written + |values|;
      FlattenSnoc(chunks, i);
      CollectAppend(Flatten(chunks[..i]), chunks[i], f);
    }
    assert chunks[..|chunks|] == chunks;
  }

  /**
   * The values written are stripped cells that are not empty and, with a pattern, contain it;
   * and every such cell is written.
   */
  lemma ExtractedSpec(cells: seq<string>, pattern: string)
    ensures var out := ExtractedPaths(cells, pattern);
      && (forall k :: 0 <= k < |out| ==>
            && out[k] != []
            && (pattern != [] ==> Contains(out[k], pattern))
            && exists i :: 0 <= i < |cells| && Strip(cells[i]) == out[k])
      && (forall i :: 0 <= i < |cells| && Strip(cells[i]) != [] && (pattern == [] || Contains(Strip(cells[i]), pattern))
            ==> Strip(cells[i]) in out)
  {
    var f := Extractor(pattern);
    var out := ExtractedPaths(cells, pattern);
    CollectPicks(cells, f);
    var idx :| Picks(cells, f, idx, out);
    forall k | 0 <= k < |out|
      ensures out[k] != [] && (pattern != [] ==> Contains(out[k], pattern))
      ensures exists i :: 0 <= i < |cells| && Strip(cells[i]) == out[k]
    {
      assert f(cells[idx[k]]) == Some(out[k]);
    }
    forall i | 0 <= i < |cells| && Strip(cells[i]) != [] && (pattern == [] || Contains(Strip(cells[i]), pattern))
      ensures Strip(cells[i]) in out
    {
      assert f(cells[i]) == Some(Strip(cells[i]));
      assert i in idx;
      var k :| 0 <= k < |idx| && idx[k] == i;
      assert out[k] == Strip(cells[i]);
    }
  }

  /** With an empty pattern every cell whose stripped value is not empty is written, in order. */
  lemma EmptyPatternKeepsAll(cells: seq<string>)
    requires forall i :: 0 <= i < |cells| ==> Strip(cells[i]) != []
    ensures ExtractedPaths(cells, "") == seq(|cells|, i requires 0 <= i < |cells| => Strip(cells[i]))
  {
    var values := seq(|cells|, i requires 0 <= i < |cells| => Strip(cells[i]));
    forall i | 0 <= i < |cells| ensures Extractor("")(cells[i]) == Some(values[i]) {
      assert Extractor("")(cells[i]) == Extracted(cells[i], "");
    }
    CollectAll(cells, Extractor(""), values);
  }

  /** The text is one line per value: splitting it at newlines gives the values and a final empty part. */
  lemma {:induction false} LinesSplit(values: seq<string>)
    requires forall k :: 0 <= k < |values| ==> '\n' !in values[k]
    ensures Split(Lines(values), '\n') == values + [""]
  {
    LinesJoin(values);
    SplitJoin(values + [""], '\n');
  }

  lemma {:induction false} LinesJoin(values: seq<string>)
    ensures Lines(values) == Join(values + [""], '\n')
    decreases |values|
  {
    if values != [] {
      LinesJoin(values[1..]);
      assert (values + [""])[1..] == values[1..] + [""];
    }
  }

  /** The files on disk, by path. */
  type Files = map<string, string>

  /** The output file after `open(output_path, "a" if append else "w")`. */
  function Opened(files: Files, path: string, append: bool): string {
    if append && path in files then files[path] else ""
  }

  /** The chunks the extraction gets to write: all of them, or those read before the error. */
  function ReadChunks<R>(csv: Csv<R>): seq<seq<R>> {
    match csv
    case Missing => []
    case Unreadable(before) => before
    case Chunks(chunks) => chunks
  }

  /**
   * `extract_paths_from_csv`: a missing CSV raises before the output is opened; otherwise the
   * output is opened (emptied unless appending) before the CSV is read, and the paths of
   * every chunk read are written, also those read before a read error.
   */
  function ExtractFileSpec(files: Files, csv: Csv<string>, outputPath: string, pattern: string, append: bool)
    : (Files, Result<nat, Failure>)
  {
    if csv.Missing? then (files, Err(FileNotFound))
    else
      var values := ExtractedPaths(Flatten(ReadChunks(csv)), pattern);
      (files[outputPath := Opened(files, outputPath, append) + Lines(values)],
       if csv.Chunks? then Ok(|values|) else Err(ReadFailed))
  }

  method ExtractFile(files: Files, csv: Csv<string>, outputPath: string, pattern: string, append: bool)
    returns (files': Files, r: Result<nat, Failure>)
    ensures (files', r) == ExtractFileSpec(files, csv, outputPath, pattern, append)
  {
    if csv.Missing? {
      return files, Err(FileNotFound);
    }
    var start := if append && outputPath in files then files[outputPath] else "";
    var chunks := if csv.Chunks? then csv.chunks else csv.before;
    var text, written := ExtractPaths(chunks, pattern);
    files' := files[outputPath := start + text];
    r := if csv.Unreadable? then Err(ReadFailed) else Ok(written);
  }

  // ---------------------------------------------------------------------------
  // cmd_extract_paths

  /** An input file: its name and what reading it yields. */
  datatype Input = Input(name: string, csv: Csv<string>)

  /**
   * `output_path, append` for the `i`-th input: the `-o` file, appended to after the first
   * input; without `-o`, the CSV's name with its extension replaced by `.txt`.
   */
  function OutputPlan(output: Option<string>, i: nat, csvfile: string): (string, bool) {
    if output.Some? && output.value != [] then (output.value, i > 0)
    else (TextName(csvfile), false)
  }

  /** `os.path.splitext(csvfile)[0] + ".txt"`. */
  function TextName(csvfile: string): string {
    SplitExt(csvfile).0 + ".txt"
  }

  /** The files, the paths written so far, and whether a failure ended the command. */
  datatype Extraction = Extraction(files: Files, total: nat, stopped: bool)

  /** The loop of `cmd_extract_paths` over the inputs, in the order given. */
  function ExtractAll(inputs: seq<Input>, output: Option<string>, pattern: string, continueOnError: bool, files: Files)
    : Extraction
  {
    if inputs == [] then Extraction(files, 0, false)
    else
      var n := |inputs| - 1;
      var st := ExtractAll(inputs[..n], output, pattern, continueOnError, files);
      if st.stopped then st
      else
        var plan := OutputPlan(output, n, inputs[n].name);
        var step := ExtractFileSpec(st.files, inputs[n].csv, plan.0, pattern, plan.1);
        if step.1.Ok? then Extraction(step.0, st.total + step.1.value, false)
        else Extraction(step.0, st.total, !continueOnError)
  }

  /** One more input, after inputs that did not stop the loop. */
  lemma ExtractAllNext(inputs: seq<Input>, i: nat, output: Option<string>, pattern: string,
                       continueOnError: bool, files: Files)
    requires i < |inputs|
    requires !ExtractAll(inputs[..i], output, pattern, continueOnError, files).stopped
    ensures var st := ExtractAll(inputs[..i], output, pattern, continueOnError, files);
      var plan := OutputPlan(output, i, inputs[i].name);
      var step := ExtractFileSpec(st.files, inputs[i].csv, plan.0, pattern, plan.1);
      ExtractAll(inputs[..i + 1], output, pattern, continueOnError, files)
        == if step.1.Ok? then Extraction(step.0, st.total + step.1.value, false)
           else Extraction(step.0, st.total, !continueOnError)
  {
    assert inputs[..i + 1][..i] == inputs[..i];
  }

  lemma {:induction false} ExtractAllStopped(inputs: seq<Input>, i: nat, output: Option<string>, pattern: string,
                                             continueOnError: bool, files: Files)
    requires i <= |inputs|
    requires ExtractAll(inputs[..i], output, pattern, continueOnError, files).stopped
    ensures ExtractAll(inputs, output, pattern, continueOnError, files) == ExtractAll(inputs[..i], output, pattern, continueOnError, files)
    decreases |inputs| - i
  {
    if i < |inputs| {
      assert inputs[..i + 1][..i] == inputs[..i];
      ExtractAllStopped(inputs, i + 1, output, pattern, continueOnError, files);
    } else {
      assert inputs[..i] == inputs;
    }
  }

  /**
   * `cmd_extract_paths`: 2 when no file matches, 3 when a file fails without
   * `--continue-on-error`, and otherwise 0 with the total of paths written.
   */
  method ExtractCommand(inputs: seq<Input>, output: Option<string>, pattern: string, continueOnError: bool, files: Files)
    returns (code: nat, files': Files, total: nat)
    ensures code == 2 <==> inputs == []
    ensures inputs == [] ==> files' == files && total == 0
    ensures inputs != [] ==>
      var st := ExtractAll(inputs, output, pattern, continueOnError, files);
      && files' == st.files && total == st.total
      && (code == 3 <==> st.stopped) && (code == 0 <==> !st.stopped)
  {
    if inputs == [] {
      return 2, files, 0;
    }
    files', total := files, 0;
    for i := 0 to |inputs|
      invariant ExtractAll(inputs[..i], output, pattern, continueOnError, files) == Extraction(files', total, false)
    {
      ExtractAllNext(inputs, i, output, pattern, continueOnError, files);
      var plan := OutputPlan(output, i, inputs[i].name);
      var written;
      files', written := ExtractFile(files', inputs[i].csv, plan.0, pattern, plan.1);
      if written.Ok? {
        total := total + written.value;
      } else if !continueOnError {
        ExtractAllStopped(inputs, i + 1, output, pattern, continueOnError, files);
        return 3, files', total;
      }
    }
    assert inputs[..|inputs|] == inputs;
    code := 0;
  }

  /** The paths of every input, one after the other, as far as each could be read. */
  function AllLines(inputs: seq<Input>, pattern: string): string {
    if inputs == [] then []
    else
      var n := |inputs| - 1;
      AllLines(inputs[..n], pattern) + Lines(ExtractedPaths(Flatten(ReadChunks(inputs[n].csv)), pattern))
  }

  /**
   * With one `-o` file, the first input replaces whatever the file held and the others
   * append: when every input exists and none stops the loop (each is readable, or
   * `--continue-on-error` is given), the file ends up with the paths of all inputs, in
   * order, including those read from a file before its read error.
   */
  lemma {:induction false} SingleOutputCollects(inputs: seq<Input>, o: string, pattern: string, continueOnError: bool, files: Files)
    requires o != []
    requires forall k :: 0 <= k < |inputs| ==> !inputs[k].csv.Missing?
    requires continueOnError || forall k :: 0 <= k < |inputs| ==> inputs[k].csv.Chunks?
    ensures var st := ExtractAll(inputs, Some(o), pattern, continueOnError, files);
      && !st.stopped
      && (inputs != [] ==> o in st.files && st.files[o] == AllLines(inputs, pattern))
      && (forall p :: p != o ==> (p in st.files <==> p in files) && (p in files ==> st.files[p] == files[p]))
    decreases |inputs|
  {
    if inputs != [] {
      var n := |inputs| - 1;
      assert forall k :: 0 <= k < n ==> inputs[..n][k] == inputs[k];
      SingleOutputCollects(inputs[..n], o, pattern, continueOnError, files);
      ExtractAllNext(inputs, n, Some(o), pattern, continueOnError, files);
      assert inputs[..n + 1] == inputs;
    }
  }

  /**
   * Without `--continue-on-error`, a read error stops the command, but only after the paths
   * of the chunks read before it have been written to the input's output file.
   */
  lemma ReadErrorKeepsPartialLines(inputs: seq<Input>, i: nat, output: Option<string>, pattern: string, files: Files)
    requires i < |inputs| && inputs[i].csv.Unreadable?
    requires !ExtractAll(inputs[..i], output, pattern, false, files).stopped
    ensures var st := ExtractAll(inputs[..i], output, pattern, false, files);
      var plan := OutputPlan(output, i, inputs[i].name);
      var partial := Lines(ExtractedPaths(Flatten(inputs[i].csv.before), pattern));
      ExtractAll(inputs, output, pattern, false, files)
        == Extraction(st.files[plan.0 := Opened(st.files, plan.0, plan.1) + partial], st.total, true)
  {
    ExtractAllNext(inputs, i, output, pattern, false, files);
    ExtractAllStopped(inputs, i + 1, output, pattern, false, files);
  }

  /**
   * Without `-o`, each readable input writes its own `.txt` file next to it; when those names
   * differ, each holds exactly the paths of its input.
   */
  lemma {:induction false} SeparateOutputs(inputs: seq<Input>, pattern: string, continueOnError: bool, files: Files, k: nat)
    requires forall i :: 0 <= i < |inputs| ==> inputs[i].csv.Chunks?
    requires forall i, j :: 0 <= i < j < |inputs| ==> SplitExt(inputs[i].name).0 != SplitExt(inputs[j].name).0
    requires k < |inputs|
    ensures var st := ExtractAll(inputs, None, pattern, continueOnError, files);
      var target := TextName(inputs[k].name);
      target in st.files && st.files[target] == Lines(ExtractedPaths(Flatten(inputs[k].csv.chunks), pattern))
  {
    forall i, j | 0 <= i < j < |inputs| ensures TextName(inputs[i].name) != TextName(inputs[j].name) {
      StemsDiffer(inputs[i].name, inputs[j].name);
    }
    SeparatePrefix(inputs, pattern, continueOnError, files, |inputs|, k);
    assert inputs[..|inputs|] == inputs;
  }

  lemma {:induction false} SeparatePrefix(inputs: seq<Input>, pattern: string, continueOnError: bool, files: Files,
                                          m: nat, k: nat)
    requires forall i :: 0 <= i < |inputs| ==> inputs[i].csv.Chunks?
    requires forall i, j :: 0 <= i < j < |inputs| ==> TextName(inputs[i].name) != TextName(inputs[j].name)
    requires k < m <= |inputs|
    ensures var st := ExtractAll(inputs[..m], None, pattern, continueOnError, files);
      var target := TextName(inputs[k].name);
      target in st.files && st.files[target] == Lines(ExtractedPaths(Flatten(inputs[k].csv.chunks), pattern))
    decreases m
  {
    var n := m - 1;
    var prev := ExtractAll(inputs[..n], None, pattern, continueOnError, files).files;
    var lastText := Lines(ExtractedPaths(Flatten(inputs[n].csv.chunks), pattern));
    SeparateLast(inputs, pattern, continueOnError, files, m);
    if k < n {
      SeparatePrefix(inputs, pattern, continueOnError, files, n, k);
    }
    KeptOrWritten(prev, TextName(inputs[n].name), lastText, TextName(inputs[k].name),
                  Lines(ExtractedPaths(Flatten(inputs[k].csv.chunks), pattern)));
  }

  /** Without `-o`, the `m`-th readable input writes its own lines to its `.txt` file. */
  lemma SeparateLast(inputs: seq<Input>, pattern: string, continueOnError: bool, files: Files, m: nat)
    requires forall i :: 0 <= i < |inputs| ==> inputs[i].csv.Chunks?
    requires 0 < m <= |inputs|
    ensures ExtractAll(inputs[..m], None, pattern, continueOnError, files).files
         == ExtractAll(inputs[..m - 1], None, pattern, continueOnError, files).files[
              TextName(inputs[m - 1].name) := Lines(ExtractedPaths(Flatten(inputs[m - 1].csv.chunks), pattern))]
  {
    var n := m - 1;
    AllReadable(inputs[..n], None, pattern, continueOnError, files);
    ExtractAllStep(inputs, None, pattern, continueOnError, files, m);
    var lastText := Lines(ExtractedPaths(Flatten(inputs[n].csv.chunks), pattern));
    assert "" + lastText == lastText;
  }

  lemma KeptOrWritten(prev: Files, last: string, lastText: string, target: string, mine: string)
    requires target == last ==> lastText == mine
    requires target != last ==> target in prev && prev[target] == mine
    ensures target in prev[last := lastText] && prev[last := lastText][target] == mine
  {
  }

  lemma ExtractAllStep(inputs: seq<Input>, output: Option<string>, pattern: string, continueOnError: bool, files: Files,
                       m: nat)
    requires 0 < m <= |inputs| && inputs[m - 1].csv.Chunks?
    requires !ExtractAll(inputs[..m - 1], output, pattern, continueOnError, files).stopped
    ensures var st := ExtractAll(inputs[..m - 1], output, pattern, continueOnError, files);
      var plan := OutputPlan(output, m - 1, inputs[m - 1].name);
      var values := ExtractedPaths(Flatten(inputs[m - 1].csv.chunks), pattern);
      ExtractAll(inputs[..m], output, pattern, continueOnError, files)
        == Extraction(st.files[plan.0 := Opened(st.files, plan.0, plan.1) + Lines(values)], st.total + |values|, false)
  {
    var n := m - 1;
    ExtractAllNext(inputs, n, output, pattern, continueOnError, files);
    var st := ExtractAll(inputs[..n], output, pattern, continueOnError, files);
    var plan := OutputPlan(output, n, inputs[n].name);
    ExtractChunks(st.files, inputs[n].csv, plan.0, pattern, plan.1);
  }

  lemma ExtractChunks(files: Files, csv: Csv<string>, outputPath: string, pattern: string, append: bool)
    requires csv.Chunks?
    ensures var values := ExtractedPaths(Flatten(csv.chunks), pattern);
      var step := ExtractFileSpec(files, csv, outputPath, pattern, append);
      step.0 == files[outputPath := Opened(files, outputPath, append) + Lines(values)] && step.1 == Ok(|values|)
  {
  }

  lemma StemsDiffer(a: string, b: string)
    requires SplitExt(a).0 != SplitExt(b).0
    ensures TextName(a) != TextName(b)
  {
    var x, y := SplitExt(a).0, SplitExt(b).0;
    if |x| == |y| {
      assert TextName(a)[..|x|] == x && TextName(b)[..|y|] == y;
    }
  }

  /** Readable inputs never stop the command. */
  lemma AllReadable(inputs: seq<Input>, output: Option<string>, pattern: string, continueOnError: bool, files: Files)
    requires forall i :: 0 <= i < |inputs| ==> inputs[i].csv.Chunks?
    ensures !ExtractAll(inputs, output, pattern, continueOnError, files).stopped
  {
    ReadablePrefix(inputs, |inputs|, output, pattern, continueOnError, files);
    assert inputs[..|inputs|] == inputs;
  }

  lemma {:induction false} ReadablePrefix(inputs: seq<Input>, n: nat, output: Option<string>, pattern: string,
                                          continueOnError: bool, files: Files)
    requires n <= |inputs|
    requires forall i :: 0 <= i < |inputs| ==> inputs[i].csv.Chunks?
    ensures !ExtractAll(inputs[..n], output, pattern, continueOnError, files).stopped
    decreases n
  {
    if n > 0 {
      ReadablePrefix(inputs, n - 1, output, pattern, continueOnError, files);
      ExtractAllNext(inputs, n - 1, output, pattern, continueOnError, files);
      var st := ExtractAll(inputs[..n - 1], output, pattern, continueOnError, files);
      var plan := OutputPlan(output, n - 1, inputs[n - 1].name);
      ReadableExtracts(st.files, inputs[n - 1].csv, plan.0, pattern, plan.1);
    }
  }

  /** A CSV read to its end extracts without failure. */
  lemma ReadableExtracts(files: Files, csv: Csv<string>, outputPath: string, pattern: string, append: bool)
    requires csv.Chunks?
    ensures ExtractFileSpec(files, csv, outputPath, pattern, append).1.Ok?
  {
  }

  // Without a header the size column is read as text (`dtype=str`), so `groupby(...).sum()`
  // joins the texts of a user's rows before `int()` reads the result. The model above sums
  // the values instead; the functions below keep the behaviour as written.

  /** The sizes of `user`'s rows run together in row order: `sum()` over a text column. */
  function JoinedSizes(rows: seq<UserRow>, user: string): string {
    if rows == [] then []
    else
      var row := rows[|rows| - 1];
      JoinedSizes(rows[..|rows| - 1], user) + (if row.user == user then row.size else [])
  }

  /** A header-less chunk's total for `user` as written: `int()` of the joined texts. */
  function TextChunkTotal(rows: seq<UserRow>, user: string): Option<int> {
    ParseInt(JoinedSizes(rows, user))
  }

  /**
   * Two sizes of one user in one chunk: as written, their digits run together into one
   * number; summed, they add up. The two differ whenever the first size is not 0.
   */
  lemma JoinedSizesMisread(user: string, x: string, y: string)
    requires x != [] && forall i :: 0 <= i < |x| ==> IsDigit(x[i])
    requires y != [] && forall i :: 0 <= i < |y| ==> IsDigit(y[i])
    ensures var rows := [UserRow(user, x), UserRow(user, y)];
      && TextChunkTotal(rows, user) == Some(DigitsValue(x) * Pow10(|y|) + DigitsValue(y))
      && ChunkTotal(rows, false, user) == DigitsValue(x) + DigitsValue(y)
      && (DigitsValue(x) > 0 ==> TextChunkTotal(rows, user) != Some(ChunkTotal(rows, false, user)))
  {
    JoinedTwo(user, x, y);
    ParseDigitsAppend(x, y);
    SummedTwo(user, x, y);
    if DigitsValue(x) > 0 {
      ShiftGrows(DigitsValue(x), |y|);
    }
  }

  lemma JoinedTwo(user: string, x: string, y: string)
    ensures JoinedSizes([UserRow(user, x), UserRow(user, y)], user) == x + y
  {
    var rows := [UserRow(user, x), UserRow(user, y)];
    assert rows[..1] == [UserRow(user, x)] && rows[..1][..0] == [];
    assert JoinedSizes(rows[..1], user) == JoinedSizes([], user) + x;
    assert JoinedSizes(rows, user) == JoinedSizes(rows[..1], user) + y;
  }

  lemma SummedTwo(user: string, x: string, y: string)
    requires x != [] && forall i :: 0 <= i < |x| ==> IsDigit(x[i])
    requires y != [] && forall i :: 0 <= i < |y| ==> IsDigit(y[i])
    ensures ChunkTotal([UserRow(user, x), UserRow(user, y)], false, user) == DigitsValue(x) + DigitsValue(y)
  {
    var f := SizeOf(false, user);
    ParseDigits(x);
    ParseDigits(y);
    assert f(UserRow(user, x)) == Some(DigitsValue(x) as int);
    assert f(UserRow(user, y)) == Some(DigitsValue(y) as int);
    CollectPair(UserRow(user, x), UserRow(user, y), f, DigitsValue(x), DigitsValue(y));
  }

  lemma CollectPair<R>(a: R, b: R, f: R -> Option<int>, p: int, q: int)
    requires f(a) == Some(p) && f(b) == Some(q)
    ensures Sum(Collect([a, b], f)) == p + q
  {
    var rows, out := [a, b], [p, q];
    assert forall i :: 0 <= i < |rows| ==> f(rows[i]) == Some(out[i]);
    CollectAll(rows, f, out);
    assert [p] + [q] == out;
    SumAppend([p], [q]);
    assert [p][..0] == [] && [q][..0] == [];
  }

  lemma ShiftGrows(v: nat, k: nat)
    requires v > 0 && k > 0
    ensures v * Pow10(k) > v
  {
    var p := Pow10(k - 1);
    assert Pow10(k) == 10 * p;
    assert v * (10 * p) == 10 * (v * p);
    assert v * p >= v;
  }
}
