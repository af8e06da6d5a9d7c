/** Snapshot files: the preparation script names its two outputs after the
    run date; the dashboard lists the enriched snapshots newest first,
    derives the matching watch-list file name by string replacement, and
    rescales a percent-valued ratio column when it loads a snapshot. */
module Snapshots {
  import opened Numeric
  import opened Calendar
  import opened Strings

  const EnrichedPrefix: string := "meta_analysis_final_enriched_"
  const BerlindaPrefix: string := "berlinda_prepared_"
  const CsvSuffix: string := ".csv"

  // ---------------------------------------------------------------------
  // Run-date file names

  function DigitChar(k: int): (c: char)
    requires 0 <= k < 10
    ensures '0' <= c <= '9'
  {
    ['0', '1', '2', '3', '4', '5', '6', '7', '8', '9'][k]
  }

  function Pow10(w: nat): (p: nat)
    ensures p >= 1
  {
    if w == 0 then 1 else 10 * Pow10(w - 1)
  }

  /** `n` in exactly `w` decimal digits, zero-padded, as `%Y`, `%m` and
      `%d` print them. */
  function Digits(n: nat, w: nat): (s: string)
    requires n < Pow10(w)
    ensures |s| == w
    ensures forall i :: 0 <= i < |s| ==> '0' <= s[i] <= '9'
  {
    if w == 0 then ""
    else Digits(n / 10, w - 1) + [DigitChar(n % 10)]
  }

  /** Dates whose `%Y-%m-%d` text is the fixed-width ten-character form. */
  predicate Printable(d: Date)
  {
    ValidDate(d) && d.year < 10000
  }

  /** `strftime('%Y-%m-%d')`. */
  function DateText(d: Date): (s: string)
    requires Printable(d)
    ensures |s| == 10 && s[4] == '-' && s[7] == '-'
  {
    Digits(d.year, 4) + "-" + Digits(d.month, 2) + "-" + Digits(d.day, 2)
  }

  /** The enriched snapshot's file name: the dashboard's snapshot filter
      accepts it, and the run date's text sits right after the prefix. */
  function EnrichedName(d: Date): (name: string)
    requires Printable(d)
    ensures IsSnapshotName(name)
    ensures |name| == |EnrichedPrefix| + 10 + |CsvSuffix|
    ensures name[|EnrichedPrefix|..|EnrichedPrefix| + 10] == DateText(d)
  {
    EnrichedPrefix + DateText(d) + CsvSuffix
  }

  /** The watch-list file's name: it carries its own prefix and the run
      date's text, and the snapshot filter never lists it. */
  function BerlindaName(d: Date): (name: string)
    requires Printable(d)
    ensures StartsWith(name, BerlindaPrefix) && EndsWith(name, CsvSuffix) && !IsSnapshotName(name)
    ensures |name| == |BerlindaPrefix| + 10 + |CsvSuffix|
    ensures name[|BerlindaPrefix|..|BerlindaPrefix| + 10] == DateText(d)
  {
    var name := BerlindaPrefix + DateText(d) + CsvSuffix;
    assert name[0] == 'b' != EnrichedPrefix[0];
    name
  }

  datatype NameError = DateNotATime

  datatype Result<T> = Success(value: T) | Failure(error: NameError)

  /** The run date behind the file names: the first row's execution date,
      or today's date (a parameter) when the table is empty. A missing
      first date cannot be formatted and stops the run. */
  function RunDate(dates: seq<Option<Date>>, today: Date): (r: Result<Date>)
    ensures |dates| == 0 ==> r == Success(today)
    ensures |dates| > 0 ==> (r.Success? <==> dates[0].Some?)
    ensures |dates| > 0 && r.Success? ==> r.value == dates[0].value
  {
    if |dates| == 0 then Success(today)
    else match dates[0]
      case Some(d) => Success(d)
      case None => Failure(DateNotATime)
  }

  /** The two output names of one run: the enriched table always, the
      watch-list table only when it has rows. */
  function OutputNames(run: Date, watchRows: nat): (names: (string, Option<string>))
    requires Printable(run)
    ensures names.0 == EnrichedName(run)
    ensures names.1.Some? <==> watchRows > 0
    ensures names.1.Some? ==> names.1.value == BerlindaName(run)
  {
    (EnrichedName(run), if watchRows > 0 then Some(BerlindaName(run)) else None)
  }

  // ---------------------------------------------------------------------
  // Prefix replacement, `str.replace`

  /** Python's `str.replace(pattern, replacement)`: every non-overlapping occurrence,
      scanning left to right. */
  function ReplaceAll(s: string, pattern: string, replacement: string): (r: string)
    requires |pattern| > 0
    ensures !Contains(s, pattern) ==> r == s
    ensures StartsWith(s, pattern) ==> StartsWith(r, replacement)
    ensures |pattern| == |replacement| ==> |r| == |s|
    decreases |s|
  {
    if |s| == 0 then ""
    else if StartsWith(s, pattern) then replacement + ReplaceAll(s[|pattern|..], pattern, replacement)
    else [s[0]] + ReplaceAll(s[1..], pattern, replacement)
  }

  /** A text that never contains the first character of `pattern` is left
      unchanged. */
  lemma {:induction false} ReplaceAllUntouched(s: string, pattern: string, replacement: string)
    requires |pattern| > 0
    requires forall i :: 0 <= i < |s| ==> s[i] != pattern[0]
    ensures ReplaceAll(s, pattern, replacement) == s
  {
    if |s| > 0 {
      assert !StartsWith(s, pattern) by {
        if |pattern| <= |s| {
          assert s[..|pattern|][0] == s[0] != pattern[0];
        }
      }
      ReplaceAllUntouched(s[1..], pattern, replacement);
    }
  }

  /** Replacing the enriched prefix in a snapshot name for date `d` gives
      exactly the watch-list name the preparation script wrote for `d`. */
  lemma BerlindaNameFromEnriched(d: Date)
    requires Printable(d)
    ensures ReplaceAll(EnrichedName(d), EnrichedPrefix, BerlindaPrefix) == BerlindaName(d)
  {
    var rest := DateText(d) + CsvSuffix;
    assert EnrichedName(d) == EnrichedPrefix + rest;
    assert StartsWith(EnrichedName(d), EnrichedPrefix);
    assert EnrichedName(d)[|EnrichedPrefix|..] == rest;
    assert forall i :: 0 <= i < |rest| ==> rest[i] != 'm' by {
      var t := DateText(d);
      forall i | 0 <= i < |rest|
        ensures rest[i] != 'm'
      {
        if i < |t| {
          assert t == Digits(d.year, 4) + "-" + Digits(d.month, 2) + "-" + Digits(d.day, 2);
        }
      }
    }
    ReplaceAllUntouched(rest, EnrichedPrefix, BerlindaPrefix);
  }

  // ---------------------------------------------------------------------
  // Ordering, Python string comparison

  /** Lexicographic order on code points: Python's `<=` on `str`. */
  predicate LexLe(a: string, b: string)
    decreases |a|
  {
    |a| == 0 || (|b| > 0 && (a[0] < b[0] || (a[0] == b[0] && LexLe(a[1..], b[1..]))))
  }

  lemma {:induction false} LexLeTotal(a: string, b: string)
    ensures LexLe(a, b) || LexLe(b, a)
    decreases |a|
  {
    if |a| > 0 && |b| > 0 && a[0] == b[0] {
      LexLeTotal(a[1..], b[1..]);
    }
  }

  lemma {:induction false} LexLeTransitive(a: string, b: string, c: string)
    requires LexLe(a, b) && LexLe(b, c)
    ensures LexLe(a, c)
    decreases |a|
  {
    if |a| > 0 && a[0] == b[0] && b[0] == c[0] {
      LexLeTransitive(a[1..], b[1..], c[1..]);
    }
  }

  lemma {:induction false} LexLeAntisymmetric(a: string, b: string)
    requires LexLe(a, b) && LexLe(b, a)
    ensures a == b
    decreases |a|
  {
    if |a| > 0 {
      LexLeAntisymmetric(a[1..], b[1..]);
      assert a == [a[0]] + a[1..] && b == [b[0]] + b[1..];
    }
  }

  predicate SortedDescending(s: seq<string>)
  {
    forall i, j :: 0 <= i < j < |s| ==> LexLe(s[j], s[i])
  }

  /** A name that is at least every element may go in front. */
  lemma ConsSorted(h: string, t: seq<string>)
    requires SortedDescending(t)
    requires forall j :: 0 <= j < |t| ==> LexLe(t[j], h)
    ensures SortedDescending([h] + t)
  {
  }

  lemma HeadBoundsAll(s: seq<string>, x: string)
    requires SortedDescending(s) && |s| > 0 && LexLe(s[0], x)
    ensures forall j :: 0 <= j < |s| ==> LexLe(s[j], x)
  {
    forall j | 0 < j < |s| ensures LexLe(s[j], x) {
      LexLeTransitive(s[j], s[0], x);
    }
  }

  lemma BoundedByHead(t: seq<string>, rest: seq<string>, x: string, h: string)
    requires multiset(t) == multiset(rest) + multiset{x}
    requires forall j :: 0 <= j < |rest| ==> LexLe(rest[j], h)
    requires LexLe(x, h)
    ensures forall j :: 0 <= j < |t| ==> LexLe(t[j], h)
  {
    forall j | 0 <= j < |t| ensures LexLe(t[j], h) {
      assert t[j] in multiset(t);
      if t[j] != x {
        assert t[j] in rest;
      }
    }
  }

  function Insert(x: string, s: seq<string>): (r: seq<string>)
    requires SortedDescending(s)
    ensures SortedDescending(r)
    ensures multiset(r) == multiset(s) + multiset{x}
  {
    if |s| == 0 then [x]
    else if LexLe(s[0], x) then
      HeadBoundsAll(s, x);
      ConsSorted(x, s);
      [x] + s
    else
      var t := Insert(x, s[1..]);
      LexLeTotal(s[0], x);
      BoundedByHead(t, s[1..], x, s[0]);
      ConsSorted(s[0], t);
      assert s == [s[0]] + s[1..];
      [s[0]] + t
  }

  /** `sorted(..., reverse=True)` on file names. */
  function SortDescending(s: seq<string>): (r: seq<string>)
    ensures SortedDescending(r)
    ensures multiset(r) == multiset(s)
  {
    if |s| == 0 then []
    else
      assert s == [s[0]] + s[1..];
      Insert(s[0], SortDescending(s[1..]))
  }

  predicate IsSnapshotName(f: string)
  {
    StartsWith(f, EnrichedPrefix) && EndsWith(f, CsvSuffix)
  }

  function KeepSnapshots(names: seq<string>): (r: seq<string>)
    ensures forall f :: f in r <==> f in names && IsSnapshotName(f)
    ensures forall f :: f in r ==> multiset(r)[f] == multiset(names)[f]
  {
    if |names| == 0 then []
    else
      assert names == [names[0]] + names[1..];
      if IsSnapshotName(names[0]) then [names[0]] + KeepSnapshots(names[1..])
      else KeepSnapshots(names[1..])
  }

  /** The snapshot selector's options: exactly the enriched snapshot
      names, each as often as listed, newest (greatest) first. */
  function SnapshotFiles(names: seq<string>): (r: seq<string>)
    ensures SortedDescending(r)
    ensures forall f :: f in r <==> f in names && IsSnapshotName(f)
    ensures forall f :: IsSnapshotName(f) ==> multiset(r)[f] == multiset(names)[f]
  {
    var kept := KeepSnapshots(names);
    var r := SortDescending(kept);
    assert forall f :: f in r <==> f in kept by {
      forall f ensures f in r <==> f in kept {
        assert f in r <==> f in multiset(r);
        assert f in kept <==> f in multiset(kept);
      }
    }
    r
  }

  /** The default choice, index 0, is not older than any other option. */
  lemma DefaultIsNewest(names: seq<string>, f: string)
    requires f in SnapshotFiles(names)
    ensures LexLe(f, SnapshotFiles(names)[0])
  {
    var r := SnapshotFiles(names);
    var j :| 0 <= j < |r| && r[j] == f;
    if j == 0 {
      LexLeRefl(f);
    }
  }

  lemma {:induction false} LexLeRefl(a: string)
    ensures LexLe(a, a)
    decreases |a|
  {
    if |a| > 0 {
      LexLeRefl(a[1..]);
    }
  }

  // ---------------------------------------------------------------------
  // Name order is date order

  predicate DateLe(d1: Date, d2: Date)
  {
    d1.year < d2.year
    || (d1.year == d2.year && (d1.month < d2.month || (d1.month == d2.month && d1.day <= d2.day)))
  }

  /** Comparing two equal-length heads followed by tails. */
  lemma {:induction false} LexLeConcat(a: string, x: string, b: string, y: string)
    requires |a| == |b|
    ensures LexLe(a + x, b + y) <==> (a != b && LexLe(a, b)) || (a == b && LexLe(x, y))
    decreases |a|
  {
    if |a| > 0 {
      assert (a + x)[0] == a[0] && (b + y)[0] == b[0];
      assert (a + x)[1..] == a[1..] + x && (b + y)[1..] == b[1..] + y;
      LexLeConcat(a[1..], x, b[1..], y);
      assert a == [a[0]] + a[1..] && b == [b[0]] + b[1..];
      if a[0] == b[0] && a[1..] != b[1..] {
        assert a != b;
      }
    } else {
      assert a + x == x && b + y == y;
    }
  }

  lemma {:induction false} DigitsOrder(m: nat, n: nat, w: nat)
    requires m < Pow10(w) && n < Pow10(w)
    ensures LexLe(Digits(m, w), Digits(n, w)) <==> m <= n
    ensures Digits(m, w) == Digits(n, w) <==> m == n
  {
    if w == 0 {
      assert m == 0 && n == 0;
    } else {
      var hm, hn := Digits(m / 10, w - 1), Digits(n / 10, w - 1);
      DigitsOrder(m / 10, n / 10, w - 1);
      var cm, cn := DigitChar(m % 10), DigitChar(n % 10);
      LexLeConcat(hm, [cm], hn, [cn]);
      DigitCharOrder(m % 10, n % 10);
      if hm == hn && cm == cn {
        assert m == 10 * (m / 10) + m % 10;
        assert n == 10 * (n / 10) + n % 10;
      }
      if Digits(m, w) == Digits(n, w) {
        assert Digits(m, w)[..w - 1] == hm && Digits(n, w)[..w - 1] == hn;
        assert Digits(m, w)[w - 1] == cm && Digits(n, w)[w - 1] == cn;
      }
    }
  }

  lemma DigitCharOrder(i: int, j: int)
    requires 0 <= i < 10 && 0 <= j < 10
    ensures LexLe([DigitChar(i)], [DigitChar(j)]) <==> i <= j
    ensures DigitChar(i) == DigitChar(j) <==> i == j
  {
    var c, d := DigitChar(i), DigitChar(j);
    assert [c][1..] == [] && [d][1..] == [];
  }

  /** Comparing two `head + sep + tail` texts field by field. */
  lemma FieldThenRest(h1: string, h2: string, sep: string, t1: string, t2: string)
    requires |h1| == |h2|
    ensures LexLe(h1 + (sep + t1), h2 + (sep + t2)) <==>
              (h1 != h2 && LexLe(h1, h2)) || (h1 == h2 && LexLe(t1, t2))
  {
    LexLeConcat(h1, sep + t1, h2, sep + t2);
    LexLeConcat(sep, t1, sep, t2);
  }

  lemma ThreeFields(y1: string, m1: string, a1: string, y2: string, m2: string, a2: string,
                    sep: string, tail: string)
    requires |y1| == |y2| && |m1| == |m2| && |a1| == |a2|
    ensures LexLe(y1 + (sep + (m1 + (sep + (a1 + tail)))), y2 + (sep + (m2 + (sep + (a2 + tail))))) <==>
              (y1 != y2 && LexLe(y1, y2))
              || (y1 == y2 && ((m1 != m2 && LexLe(m1, m2)) || (m1 == m2 && LexLe(a1, a2))))
  {
    var t1, t2 := a1 + tail, a2 + tail;
    var r1, r2 := m1 + (sep + t1), m2 + (sep + t2);
    FieldThenRest(y1, y2, sep, r1, r2);
    FieldThenRest(m1, m2, sep, t1, t2);
    LexLeConcat(a1, tail, a2, tail);
    LexLeRefl(tail);
    LexLeRefl(a1);
    var dayLe := LexLe(t1, t2);
    assert dayLe <==> LexLe(a1, a2);
    var restLe := LexLe(r1, r2);
    assert restLe <==> (m1 != m2 && LexLe(m1, m2)) || (m1 == m2 && dayLe);
  }

  lemma DateTextShape(d: Date)
    requires Printable(d)
    ensures DateText(d) + CsvSuffix ==
              Digits(d.year, 4) + ("-" + (Digits(d.month, 2) + ("-" + (Digits(d.day, 2) + CsvSuffix))))
  {
  }

  lemma DateTextOrder(d1: Date, d2: Date)
    requires Printable(d1) && Printable(d2)
    ensures LexLe(DateText(d1) + CsvSuffix, DateText(d2) + CsvSuffix) <==> DateLe(d1, d2)
  {
    assert Pow10(4) == 10000 && Pow10(2) == 100;
    DigitsOrder(d1.year, d2.year, 4);
    DigitsOrder(d1.month, d2.month, 2);
    DigitsOrder(d1.day, d2.day, 2);
    DateTextShape(d1);
    DateTextShape(d2);
    ThreeFields(Digits(d1.year, 4), Digits(d1.month, 2), Digits(d1.day, 2),
                Digits(d2.year, 4), Digits(d2.month, 2), Digits(d2.day, 2), "-", CsvSuffix);
  }

  /** The run-date file names sort exactly as their dates do, so the
      descending listing puts the latest run first. */
  lemma EnrichedNamesFollowDates(d1: Date, d2: Date)
    requires Printable(d1) && Printable(d2)
    ensures LexLe(EnrichedName(d1), EnrichedName(d2)) <==> DateLe(d1, d2)
  {
    var p := EnrichedPrefix;
    var t1, t2 := DateText(d1) + CsvSuffix, DateText(d2) + CsvSuffix;
    assert EnrichedName(d1) == p + t1;
    assert EnrichedName(d2) == p + t2;
    LexLeConcat(p, t1, p, t2);
    DateTextOrder(d1, d2);
  }

  // ---------------------------------------------------------------------
  // Percent fix-up on load

  /** `Series.max()`: the largest non-null value, NaN when there is none. */
  function MaxOf(col: seq<Option<real>>): (m: Option<real>)
    ensures m.None? <==> forall i :: 0 <= i < |col| ==> col[i].None?
    ensures m.Some? ==> (exists i :: 0 <= i < |col| && col[i] == m)
    ensures m.Some? ==> forall i :: 0 <= i < |col| && col[i].Some? ==> col[i].value <= m.value
  {
    if |col| == 0 then None
    else
      var rest := MaxOf(col[1..]);
      var m :=
        match col[0]
        case None => rest
        case Some(x) => if rest.Some? && rest.value > x then rest else Some(x);
      assert forall i :: 1 <= i < |col| ==> col[i] == col[1..][i - 1];
      m
  }

  function DivideBy100(col: seq<Option<real>>): (r: seq<Option<real>>)
    ensures |r| == |col|
    ensures forall i :: 0 <= i < |col| ==> (r[i].Some? <==> col[i].Some?)
    ensures forall i :: 0 <= i < |col| && col[i].Some? ==> r[i].value * 100.0 == col[i].value
  {
    seq(|col|, i requires 0 <= i < |col| =>
      match col[i]
      case Some(x) => Some(x / 100.0)
      case None => None)
  }

  predicate LooksLikePercent(col: seq<Option<real>>)
  {
    var m := MaxOf(col);
    m.Some? && m.value > 5.0
  }

  /** The guarded fix-up: a present ratio column whose largest value
      exceeds 5 is divided by 100; anything else is left as it is. */
  function FixUpRatios(col: Option<seq<Option<real>>>): (r: Option<seq<Option<real>>>)
    ensures r.Some? <==> col.Some?
    ensures col.Some? && LooksLikePercent(col.value) ==> r.value == DivideBy100(col.value)
    ensures col.Some? && !LooksLikePercent(col.value) ==> r == col
    ensures col.None? ==> r == col
  {
    match col
    case Some(c) => if LooksLikePercent(c) then Some(DivideBy100(c)) else col
    case None => col
  }

  /** After a fix-up no value exceeds 5 unless the column already held a
      value above 500. */
  lemma FixUpBringsBelowFive(col: seq<Option<real>>)
    requires LooksLikePercent(col)
    requires forall i :: 0 <= i < |col| && col[i].Some? ==> col[i].value <= 500.0
    ensures forall i :: 0 <= i < |col| && DivideBy100(col)[i].Some? ==> DivideBy100(col)[i].value <= 5.0
  {
    var r := DivideBy100(col);
    forall i | 0 <= i < |col| && r[i].Some?
      ensures r[i].value <= 5.0
    {
      assert r[i].value * 100.0 == col[i].value;
    }
  }

  datatype LoadError = MissingColumn

  datatype Loaded = Loaded(col: seq<Option<real>>) | LoadFailed(error: LoadError)

  /** The older dashboard's fix-up, with no check that the column exists:
      a missing column is a lookup error instead of a pass-through. */
  function FixUpRatiosUnguarded(col: Option<seq<Option<real>>>): (r: Loaded)
    ensures r.LoadFailed? <==> col.None?
    ensures col.Some? ==> FixUpRatios(col) == Some(r.col)
  {
    match col
    case Some(c) => Loaded(FixUpRatios(col).value)
    case None => LoadFailed(MissingColumn)
  }
}
