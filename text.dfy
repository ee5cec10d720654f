/**
 * The parts of Python's `str` that the scripts rely on: whitespace stripping,
 * `split()`, `split(sep)`, `join`, `in` (substring), `replace`, `lower()` and `int()`.
 */
module Text {
  import opened Wrappers

  /** `str.isspace()` for one character (the Unicode white-space set Python uses). */
  predicate IsSpace(c: char) {
    var n := c as int;
    (9 <= n <= 13) || (28 <= n <= 32) || n == 0x85 || n == 0xA0 || n == 0x1680
    || (0x2000 <= n <= 0x200A) || n == 0x2028 || n == 0x2029 || n == 0x202F
    || n == 0x205F || n == 0x3000
  }

  predicate IsSlash(c: char) { c == '/' }

  /** `s.lstrip(chars)`: drop the leading characters that `drop` accepts. */
  function TrimStart(s: string, drop: char -> bool): (r: string)
    ensures |r| <= |s| && r == s[|s| - |r|..]
    ensures forall i :: 0 <= i < |s| - |r| ==> drop(s[i])
    ensures r == [] || !drop(r[0])
  {
    if s != [] && drop(s[0]) then TrimStart(s[1..], drop) else s
  }

  /** `s.rstrip(chars)`: drop the trailing characters that `drop` accepts. */
  function TrimEnd(s: string, drop: char -> bool): (r: string)
    ensures |r| <= |s| && r == s[..|r|]
    ensures forall i :: |r| <= i < |s| ==> drop(s[i])
    ensures r == [] || !drop(r[|r| - 1])
  {
    if s != [] && drop(s[|s| - 1]) then TrimEnd(s[..|s| - 1], drop) else s
  }

  /** `s.strip()` with no argument. */
  function Strip(s: string): (r: string)
    ensures r == [] || (!IsSpace(r[0]) && !IsSpace(r[|r| - 1]))
    ensures r == [] <==> forall i :: 0 <= i < |s| ==> IsSpace(s[i])
  {
    TrimEnd(TrimStart(s, IsSpace), IsSpace)
  }

  /** Length of the leading run of non-white-space characters. */
  function WordLength(s: string): (i: nat)
    ensures i <= |s|
    ensures forall j :: 0 <= j < i ==> !IsSpace(s[j])
    ensures i < |s| ==> IsSpace(s[i])
  {
    if s == [] || IsSpace(s[0]) then 0 else 1 + WordLength(s[1..])
  }

  /** Index of the first `c` in `s` (`str.find`), or `|s|` when `c` does not occur. */
  function IndexOf(s: string, c: char): (i: nat)
    ensures i <= |s|
    ensures forall j :: 0 <= j < i ==> s[j] != c
    ensures i < |s| ==> s[i] == c
    ensures i == |s| <==> c !in s
  {
    if s == [] || s[0] == c then 0 else 1 + IndexOf(s[1..], c)
  }

  /** A non-empty run of characters none of which is white space. */
  predicate Word(w: string) {
    w != [] && forall i :: 0 <= i < |w| ==> !IsSpace(w[i])
  }

  /** `str.split()` with no argument: the maximal runs of non-white-space characters. */
  function Fields(s: string): (r: seq<string>)
    ensures forall k :: 0 <= k < |r| ==> Word(r[k])
    decreases |s|
  {
    var t := TrimStart(s, IsSpace);
    if t == [] then []
    else
      var n := WordLength(t);
      var w := t[..n];
      assert Word(w);
      var rest := Fields(t[n..]);
      ConsWords(w, rest);
      [w] + rest
  }

  lemma ConsWords(w: string, rest: seq<string>)
    requires Word(w) && forall k :: 0 <= k < |rest| ==> Word(rest[k])
    ensures forall k :: 0 <= k < |[w] + rest| ==> Word(([w] + rest)[k])
  {
    forall k | 0 <= k < |[w] + rest| ensures Word(([w] + rest)[k]) {
      if k > 0 {
        assert ([w] + rest)[k] == rest[k - 1];
      }
    }
  }

  /** `sep.join(parts)` for a one-character separator. */
  function Join(parts: seq<string>, sep: char): string
  {
    if |parts| == 0 then []
    else if |parts| == 1 then parts[0]
    else parts[0] + [sep] + Join(parts[1..], sep)
  }

  /** `s.split(sep)` for a one-character separator. */
  function Split(s: string, sep: char): (r: seq<string>)
    ensures |r| >= 1
    ensures forall k :: 0 <= k < |r| ==> sep !in r[k]
    ensures Join(r, sep) == s
    decreases |s|
  {
    var i := IndexOf(s, sep);
    if i == |s| then [s]
    else
      var rest := Split(s[i + 1..], sep);
      assert ([s[..i]] + rest)[1..] == rest;
      assert s == s[..i] + [sep] + s[i + 1..];
      [s[..i]] + rest
  }

  /** `s.split(sep)[0]`: everything before the first `sep`. */
  function FirstField(s: string, sep: char): (r: string)
    ensures r <= s && sep !in r
    ensures sep !in s ==> r == s
  {
    Split(s, sep)[0]
  }

  /** The first separator of `a + [sep] + b` is the one after `a`. */
  lemma IndexOfAfter(a: string, sep: char, b: string)
    requires sep !in a
    ensures IndexOf(a + [sep] + b, sep) == |a|
  {
    var j := a + [sep] + b;
    assert j[|a|] == sep;
  }

  /** Split of `a + [sep] + b` when `a` holds no separator. */
  lemma SplitAfter(a: string, sep: char, b: string)
    requires sep !in a
    ensures Split(a + [sep] + b, sep) == [a] + Split(b, sep)
  {
    var j := a + [sep] + b;
    IndexOfAfter(a, sep, b);
    assert j[..|a|] == a;
    assert j[|a| + 1..] == b;
  }

  /** Splitting a join gives the parts back (none of them holds the separator). */
  lemma {:induction false} SplitJoin(parts: seq<string>, sep: char)
    requires |parts| >= 1
    requires forall k :: 0 <= k < |parts| ==> sep !in parts[k]
    ensures Split(Join(parts, sep), sep) == parts
    decreases |parts|
  {
    if |parts| == 1 {
      assert IndexOf(parts[0], sep) == |parts[0]|;
    } else {
      SplitAfter(parts[0], sep, Join(parts[1..], sep));
      SplitJoin(parts[1..], sep);
      assert parts == [parts[0]] + parts[1..];
    }
  }

  /** `sub` occurs in `s` starting at index `i`. */
  predicate OccursAt(s: string, sub: string, i: nat) {
    i + |sub| <= |s| && s[i..i + |sub|] == sub
  }

  /** Python's `sub in s`. */
  predicate Contains(s: string, sub: string)
    decreases |s|
  {
    sub <= s || (s != [] && Contains(s[1..], sub))
  }

  /** `sub in s` holds exactly when `sub` occurs at some index of `s`. */
  lemma {:induction false} ContainsIff(s: string, sub: string)
    ensures Contains(s, sub) <==> exists i :: 0 <= i <= |s| && OccursAt(s, sub, i)
    decreases |s|
  {
    if sub <= s {
      assert OccursAt(s, sub, 0);
    } else if s == [] {
    } else {
      ContainsIff(s[1..], sub);
      if Contains(s[1..], sub) {
        var i :| 0 <= i <= |s[1..]| && OccursAt(s[1..], sub, i);
        OccursShift(s, sub, i + 1);
      }
      if i :| 0 <= i <= |s| && OccursAt(s, sub, i) {
        assert i != 0;
        OccursShift(s, sub, i);
      }
    }
  }

  /** An occurrence at `i > 0` in `s` is one at `i - 1` in `s[1..]`, and conversely. */
  lemma OccursShift(s: string, sub: string, i: nat)
    requires 0 < i <= |s|
    ensures OccursAt(s, sub, i) <==> OccursAt(s[1..], sub, i - 1)
  {
    if i + |sub| <= |s| {
      assert s[1..][i - 1..i - 1 + |sub|] == s[i..i + |sub|];
    }
  }

  /** The empty string is in every string, and every string is in itself. */
  lemma ContainsTrivial(s: string)
    ensures Contains(s, [])
    ensures Contains(s, s)
  {
  }

  /** `new` put before every character and at the end (Python's `s.replace("", new)`). */
  function Interleave(s: string, rep: string): string
  {
    if s == [] then rep else rep + [s[0]] + Interleave(s[1..], rep)
  }

  /** `s.replace(pat, rep)`: every non-overlapping occurrence, scanned left to right. */
  function Replace(s: string, pat: string, rep: string): string
    decreases |s|
  {
    if pat == [] then Interleave(s, rep)
    else if pat <= s then rep + Replace(s[|pat|..], pat, rep)
    else if s == [] then []
    else [s[0]] + Replace(s[1..], pat, rep)
  }

  /** Replacing a pattern that does not occur leaves the string unchanged. */
  lemma {:induction false} ReplaceAbsent(s: string, pat: string, rep: string)
    requires pat != [] && !Contains(s, pat)
    ensures Replace(s, pat, rep) == s
    decreases |s|
  {
    if s != [] {
      ReplaceAbsent(s[1..], pat, rep);
    }
  }

  /** An occurrence at the front is replaced, and the scan resumes after it. */
  lemma ReplaceHead(pat: string, rest: string, rep: string)
    requires pat != []
    ensures Replace(pat + rest, pat, rep) == rep + Replace(rest, pat, rep)
  {
    assert (pat + rest)[|pat|..] == rest;
  }

  /** Characters before the first occurrence are copied unchanged. */
  lemma {:induction false} ReplaceKeeps(x: string, rest: string, pat: string, rep: string)
    requires pat != []
    requires forall i :: 0 <= i < |x| ==> !OccursAt(x + rest, pat, i)
    ensures Replace(x + rest, pat, rep) == x + Replace(rest, pat, rep)
    decreases |x|
  {
    if x != [] {
      NoOccurrenceAfterFirst(x, rest, pat);
      ReplaceKeeps(x[1..], rest, pat, rep);
      ReplaceCopiesFirst(x, rest, pat, rep);
      ConsAppend(x, Replace(rest, pat, rep));
    } else {
      assert x + rest == rest;
    }
  }

  lemma ConsAppend<T>(x: seq<T>, r: seq<T>)
    requires x != []
    ensures [x[0]] + (x[1..] + r) == x + r
  {
    assert [x[0]] + x[1..] == x;
  }

  /** Without an occurrence at the front, the first character is copied. */
  lemma ReplaceCopiesFirst(x: string, rest: string, pat: string, rep: string)
    requires pat != [] && x != [] && !OccursAt(x + rest, pat, 0)
    ensures Replace(x + rest, pat, rep) == [x[0]] + Replace(x[1..] + rest, pat, rep)
  {
    var s := x + rest;
    assert !(pat <= s);
    assert s[1..] == x[1..] + rest;
  }

  lemma NoOccurrenceAfterFirst(x: string, rest: string, pat: string)
    requires x != []
    requires forall i :: 0 <= i < |x| ==> !OccursAt(x + rest, pat, i)
    ensures forall i :: 0 <= i < |x| - 1 ==> !OccursAt(x[1..] + rest, pat, i)
  {
    var s := x + rest;
    assert s[1..] == x[1..] + rest;
    forall i | 0 <= i < |x| - 1 ensures !OccursAt(x[1..] + rest, pat, i) {
      assert !OccursAt(s, pat, i + 1);
      if i + |pat| <= |s[1..]| {
        assert s[1..][i..i + |pat|] == s[i + 1..i + 1 + |pat|];
      }
    }
  }

  /** Replacing a pattern by itself leaves the string unchanged. */
  lemma {:induction false} ReplaceSelf(s: string, pat: string)
    ensures Replace(s, pat, pat) == s
    decreases |s|
  {
    if pat == [] {
      InterleaveEmpty(s);
    } else if pat <= s {
      ReplaceSelf(s[|pat|..], pat);
      assert s == pat + s[|pat|..];
    } else if s != [] {
      ReplaceSelf(s[1..], pat);
    }
  }

  lemma {:induction false} InterleaveEmpty(s: string)
    ensures Interleave(s, []) == s
    decreases |s|
  {
    if s != [] {
      InterleaveEmpty(s[1..]);
    }
  }

  /** Replacing one character by another works position by position. */
  lemma {:induction false} ReplaceChar(s: string, a: char, b: char)
    ensures |Replace(s, [a], [b])| == |s|
    ensures forall i :: 0 <= i < |s| ==> Replace(s, [a], [b])[i] == if s[i] == a then b else s[i]
    decreases |s|
  {
    if s != [] {
      ReplaceChar(s[1..], a, b);
    }
  }

  /** After replacing `a` by a different character, no `a` is left. */
  lemma ReplaceCharRemoves(s: string, a: char, b: char)
    requires a != b
    ensures a !in Replace(s, [a], [b])
  {
    ReplaceChar(s, a, b);
  }

  /** ASCII part of `str.lower()`. */
  function LowerChar(c: char): char {
    if 'A' <= c <= 'Z' then (c as int + 32) as char else c
  }

  function Lower(s: string): (r: string)
    ensures |r| == |s|
    ensures forall i :: 0 <= i < |s| ==> r[i] == LowerChar(s[i])
  {
    seq(|s|, i requires 0 <= i < |s| => LowerChar(s[i]))
  }

  predicate IsDigit(c: char) { '0' <= c <= '9' }

  /** The digit part `int()` accepts: digits, with single underscores between digits. */
  predicate WellFormedDigits(d: string) {
    && |d| > 0 && IsDigit(d[0]) && IsDigit(d[|d| - 1])
    && (forall i :: 0 <= i < |d| ==> IsDigit(d[i]) || d[i] == '_')
    && (forall i :: 0 <= i < |d| - 1 ==> !(d[i] == '_' && d[i + 1] == '_'))
  }

  /** The number the digits of `d` spell, underscores ignored. */
  function DigitsValue(d: string): nat
  {
    if d == [] then 0
    else
      var c := d[|d| - 1];
      if IsDigit(c) then DigitsValue(d[..|d| - 1]) * 10 + (c as int - '0' as int)
      else DigitsValue(d[..|d| - 1])
  }

  /** Python's `int(s)` for base-10 text; `None` where Python raises `ValueError`. */
  function ParseInt(s: string): Option<int>
  {
    var t := Strip(s);
    if |t| > 0 && (t[0] == '+' || t[0] == '-') then
      if WellFormedDigits(t[1..]) then
        var v: int := DigitsValue(t[1..]);
        Some(if t[0] == '-' then -v else v)
      else None
    else if WellFormedDigits(t) then Some(DigitsValue(t))
    else None
  }

  function DigitChar(d: nat): char
    requires d < 10
  {
    ('0' as int + d) as char
  }

  /** `str(n)` for a natural number. */
  function NatToString(n: nat): (r: string)
    ensures |r| >= 1
    ensures forall i :: 0 <= i < |r| ==> IsDigit(r[i])
  {
    if n < 10 then [DigitChar(n)] else NatToString(n / 10) + [DigitChar(n % 10)]
  }

  lemma {:induction false} DigitsValueOfDecimal(n: nat)
    ensures DigitsValue(NatToString(n)) == n
    decreases n
  {
    var r := NatToString(n);
    if n >= 10 {
      DigitsValueOfDecimal(n / 10);
      assert r[..|r| - 1] == NatToString(n / 10);
    } else {
      assert r[..|r| - 1] == [];
    }
  }

  /** Stripping text that neither starts nor ends with white space changes nothing. */
  lemma StripUnchanged(s: string)
    requires s != [] && !IsSpace(s[0]) && !IsSpace(s[|s| - 1])
    ensures Strip(s) == s
  {
    assert TrimStart(s, IsSpace) == s;
    assert TrimEnd(s, IsSpace) == s;
  }

  /** `int(str(n)) == n`. */
  lemma ParseDecimal(n: nat)
    ensures ParseInt(NatToString(n)) == Some(n)
  {
    var r := NatToString(n);
    assert IsDigit(r[0]) && IsDigit(r[|r| - 1]);
    StripUnchanged(r);
    assert r[0] != '+' && r[0] != '-';
    assert WellFormedDigits(r);
    DigitsValueOfDecimal(n);
  }

  function Pow10(k: nat): (r: nat)
    ensures r >= 1
  {
    if k == 0 then 1 else 10 * Pow10(k - 1)
  }

  /** Reading digits after other digits shifts the first ones up by the count of the second. */
  lemma {:induction false} DigitsValueAppend(x: string, y: string)
    requires forall i :: 0 <= i < |y| ==> IsDigit(y[i])
    ensures DigitsValue(x + y) == DigitsValue(x) * Pow10(|y|) + DigitsValue(y)
    decreases |y|
  {
    if y == [] {
      assert x + y == x;
    } else {
      var n := |y| - 1;
      var xy := x + y;
      assert xy[..|xy| - 1] == x + y[..n];
      assert xy[|xy| - 1] == y[n];
      DigitsValueAppend(x, y[..n]);
      var d := y[n] as int - '0' as int;
      assert DigitsValue(xy) == DigitsValue(x + y[..n]) * 10 + d;
      assert DigitsValue(y) == DigitsValue(y[..n]) * 10 + d;
      ShiftDigit(DigitsValue(x), Pow10(n), DigitsValue(y[..n]), d);
    }
  }

  lemma ShiftDigit(x: int, p: int, y: int, d: int)
    ensures (x * p + y) * 10 + d == x * (10 * p) + (y * 10 + d)
  {
  }

  /** `int(x + y)` for digit strings: the digits of `y` written after those of `x`. */
  lemma ParseDigitsAppend(x: string, y: string)
    requires x != [] && forall i :: 0 <= i < |x| ==> IsDigit(x[i])
    requires forall i :: 0 <= i < |y| ==> IsDigit(y[i])
    ensures ParseInt(x + y) == Some(DigitsValue(x) * Pow10(|y|) + DigitsValue(y))
  {
    var xy := x + y;
    AllDigitsAppend(x, y);
    ParseDigits(xy);
    assert ParseInt(xy) == Some(DigitsValue(xy));
    DigitsValueAppend(x, y);
    assert DigitsValue(xy) == DigitsValue(x) * Pow10(|y|) + DigitsValue(y);
  }

  lemma AllDigitsAppend(x: string, y: string)
    requires forall i :: 0 <= i < |x| ==> IsDigit(x[i])
    requires forall i :: 0 <= i < |y| ==> IsDigit(y[i])
    ensures forall i :: 0 <= i < |x + y| ==> IsDigit((x + y)[i])
  {
  }

  /** `int()` of plain digits is the number they spell. */
  lemma ParseDigits(t: string)
    requires t != [] && forall i :: 0 <= i < |t| ==> IsDigit(t[i])
    ensures ParseInt(t) == Some(DigitsValue(t))
  {
    assert IsDigit(t[0]) && IsDigit(t[|t| - 1]);
    StripUnchanged(t);
    assert t[0] != '+' && t[0] != '-';
    assert WellFormedDigits(t);
  }

  /** Python's `a <= b` on `str`: lexicographic by code point, a prefix before its extensions. */
  predicate StrLe(a: string, b: string)
    decreases |a|
  {
    if a == [] then true
    else if b == [] then false
    else if a[0] != b[0] then a[0] < b[0]
    else StrLe(a[1..], b[1..])
  }

  lemma {:induction false} StrLeTotal(a: string, b: string)
    ensures StrLe(a, b) || StrLe(b, a)
    decreases |a|
  {
    if a != [] && b != [] && a[0] == b[0] {
      StrLeTotal(a[1..], b[1..]);
    }
  }

  lemma {:induction false} StrLeTrans(a: string, b: string, c: string)
    requires StrLe(a, b) && StrLe(b, c)
    ensures StrLe(a, c)
    decreases |a|
  {
    if a != [] && b != [] && c != [] && a[0] == b[0] && b[0] == c[0] {
      StrLeTrans(a[1..], b[1..], c[1..]);
    }
  }
}
