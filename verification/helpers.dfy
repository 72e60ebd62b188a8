/** The shared helpers of both dashboards: the observation table with its two
    views (all rows, and the rows with a positive log-income), the per-year,
    per-race slices the dashboards read, and the ordinal labels of percentiles. */
module Helpers {
  import Decimal
  import Stats

  datatype Option<T> = None | Some(value: T)

  /** One row of the sample: survey year, race code (1 White, 2 Black), real
      income and its log, `lrinc = ln(rinc + 1)`, computed once when loading.
      The dashboards compute only with `lrinc`; `rinc` is carried as data. */
  datatype Observation = Observation(year: int, race: int, rinc: real, lrinc: real)

  const White: int := 1
  const Black: int := 2

  // ---------------------------------------------------------- boolean masks

  /** `df[mask]`: the rows for which `p` holds, in their original order. */
  function Filter<T>(s: seq<T>, p: T -> bool): (r: seq<T>)
    ensures |r| <= |s|
  {
    if s == [] then [] else (if p(s[0]) then [s[0]] else []) + Filter(s[1..], p)
  }

  /** `a` is `b` with some elements left out, the rest kept in order. */
  predicate IsSubsequence<T(==)>(a: seq<T>, b: seq<T>)
    decreases |b|
  {
    a == [] || (b != [] && ((a[0] == b[0] && IsSubsequence(a[1..], b[1..])) || IsSubsequence(a, b[1..])))
  }

  /** A row is kept exactly when it is in the table and passes the mask. */
  lemma {:induction false} FilterMembers<T>(s: seq<T>, p: T -> bool, x: T)
    ensures x in Filter(s, p) <==> x in s && p(x)
  {
    if s != [] {
      FilterMembers(s[1..], p, x);
      assert s == [s[0]] + s[1..];
    }
  }

  /** Every row a mask keeps is a row of the table that passes it. */
  lemma FilterKeeps<T>(s: seq<T>, p: T -> bool)
    ensures forall x :: x in Filter(s, p) ==> x in s && p(x)
  {
    forall x | x in Filter(s, p)
      ensures x in s && p(x)
    {
      FilterMembers(s, p, x);
    }
  }

  /** A mask keeps every copy of a passing row and no copy of any other: each
      row occurs in the result as often as in the table, or not at all. */
  lemma {:induction false} FilterCounts<T>(s: seq<T>, p: T -> bool, x: T)
    ensures multiset(Filter(s, p))[x] == if p(x) then multiset(s)[x] else 0
  {
    if s != [] {
      FilterCounts(s[1..], p, x);
      var head := if p(s[0]) then [s[0]] else [];
      assert s == [s[0]] + s[1..];
      assert multiset(s) == multiset{s[0]} + multiset(s[1..]);
      assert Filter(s, p) == head + Filter(s[1..], p);
      assert multiset(Filter(s, p)) == multiset(head) + multiset(Filter(s[1..], p));
    }
  }

  /** Masking keeps the original order: the result is a subsequence. */
  lemma {:induction false} FilterSubsequence<T>(s: seq<T>, p: T -> bool)
    ensures IsSubsequence(Filter(s, p), s)
  {
    if s != [] {
      FilterSubsequence(s[1..], p);
      var rest := Filter(s[1..], p);
      if p(s[0]) {
        var r := [s[0]] + rest;
        assert Filter(s, p) == r;
        assert r[0] == s[0] && r[1..] == rest;
      } else {
        assert Filter(s, p) == rest;
      }
    }
  }

  /** Masking works row by row: masking a concatenation is concatenating the
      masked parts (with `Filter([x], p)` being `[x]` or `[]`, this fixes the
      result completely). */
  lemma {:induction false} FilterAppend<T>(a: seq<T>, b: seq<T>, p: T -> bool)
    ensures Filter(a + b, p) == Filter(a, p) + Filter(b, p)
  {
    if a == [] {
      assert a + b == b;
    } else {
      var x, rest := a[0], a[1..];
      var head := if p(x) then [x] else [];
      assert a == [x] + rest;
      assert a + b == [x] + (rest + b);
      FilterAppend(rest, b, p);
      FilterCons(x, rest + b, p);
      FilterCons(x, rest, p);
      assert head + (Filter(rest, p) + Filter(b, p)) == (head + Filter(rest, p)) + Filter(b, p);
    }
  }

  lemma FilterCons<T>(x: T, t: seq<T>, p: T -> bool)
    ensures Filter([x] + t, p) == (if p(x) then [x] else []) + Filter(t, p)
  {
    assert ([x] + t)[0] == x && ([x] + t)[1..] == t;
  }

  /** Two masks applied one after the other keep the rows passing both. */
  lemma {:induction false} FilterFilter<T>(s: seq<T>, p: T -> bool, q: T -> bool, both: T -> bool)
    requires forall x :: both(x) == (p(x) && q(x))
    ensures Filter(Filter(s, p), q) == Filter(s, both)
  {
    if s != [] {
      FilterFilter(s[1..], p, q, both);
      var head := if p(s[0]) then [s[0]] else [];
      assert Filter(s, p) == head + Filter(s[1..], p);
      FilterAppend(head, Filter(s[1..], p), q);
    }
  }

  // ------------------------------------------------------------------- views

  /** `dfAll[dfAll['lrinc'] > 0]`: the "workers" view. */
  function NonZero(all: seq<Observation>): (view: seq<Observation>)
    ensures |view| <= |all|
    ensures forall o :: o in view ==> o in all && o.lrinc > 0.0
  {
    FilterKeeps(all, (o: Observation) => o.lrinc > 0.0);
    Filter(all, (o: Observation) => o.lrinc > 0.0)
  }

  /** The NonZero view holds exactly the rows of the table with a positive
      log-income, each as often as in the table, in their original order. */
  lemma NonZeroRows(all: seq<Observation>)
    ensures forall o :: o in NonZero(all) <==> o in all && o.lrinc > 0.0
    ensures forall o :: multiset(NonZero(all))[o] == if o.lrinc > 0.0 then multiset(all)[o] else 0
    ensures IsSubsequence(NonZero(all), all)
  {
    forall o
      ensures o in NonZero(all) <==> o in all && o.lrinc > 0.0
      ensures multiset(NonZero(all))[o] == if o.lrinc > 0.0 then multiset(all)[o] else 0
    {
      FilterMembers(all, (o: Observation) => o.lrinc > 0.0, o);
      FilterCounts(all, (o: Observation) => o.lrinc > 0.0, o);
    }
    FilterSubsequence(all, (o: Observation) => o.lrinc > 0.0);
  }

  /** The radio button: "all" selects the whole table, anything else the
      workers view. */
  function SelectView(selectedDf: string, all: seq<Observation>): (view: seq<Observation>)
    ensures selectedDf == "all" ==> view == all
    ensures selectedDf != "all" ==> view == NonZero(all)
    ensures selectedDf != "all" ==> forall o :: o in view <==> o in all && o.lrinc > 0.0
  {
    NonZeroRows(all);
    if selectedDf == "all" then all else NonZero(all)
  }

  /** `dfYear = df[df['year'] == y]` followed by `dfYear[dfYear['race'] == race]`. */
  function GroupRows(view: seq<Observation>, year: int, race: int): (rows: seq<Observation>)
    ensures forall o :: o in rows ==> o in view && o.year == year && o.race == race
  {
    var p := (o: Observation) => o.year == year;
    var q := (o: Observation) => o.race == race;
    FilterKeeps(view, p);
    FilterKeeps(Filter(view, p), q);
    Filter(Filter(view, p), q)
  }

  /** A group slice holds exactly the view's rows of the chosen year and race,
      in their original order. */
  lemma GroupRowsExact(view: seq<Observation>, year: int, race: int)
    ensures GroupRows(view, year, race) == Filter(view, (o: Observation) => o.year == year && o.race == race)
    ensures forall o :: o in GroupRows(view, year, race) <==> o in view && o.year == year && o.race == race
    ensures IsSubsequence(GroupRows(view, year, race), view)
  {
    var p := (o: Observation) => o.year == year;
    var q := (o: Observation) => o.race == race;
    var both := (o: Observation) => o.year == year && o.race == race;
    FilterFilter(view, p, q, both);
    forall o
      ensures o in GroupRows(view, year, race) <==> o in view && o.year == year && o.race == race
    {
      FilterMembers(view, both, o);
    }
    FilterSubsequence(view, both);
  }

  /** The `lrinc` column of some rows. */
  function LogIncomes(rows: seq<Observation>): (col: seq<real>)
    ensures |col| == |rows|
    ensures forall i :: 0 <= i < |rows| ==> col[i] == rows[i].lrinc
  {
    seq(|rows|, i requires 0 <= i < |rows| => rows[i].lrinc)
  }

  /** `dfYear[dfYear['race'] == race]['lrinc']`. */
  function GroupSlice(view: seq<Observation>, year: int, race: int): (s: seq<real>)
    ensures var rows := GroupRows(view, year, race);
      |s| == |rows| && forall i :: 0 <= i < |rows| ==> s[i] == rows[i].lrinc
  {
    LogIncomes(GroupRows(view, year, race))
  }

  /** Both race groups of the year have at least one row in the view. The
      dashboards' quantiles and ranks of an empty group are not modelled. */
  predicate HasBothGroups(view: seq<Observation>, year: int) {
    |GroupSlice(view, year, White)| > 0 && |GroupSlice(view, year, Black)| > 0
  }

  // ----------------------------------------------------------------- ordinal

  /** The English ordinal suffix of `n`. */
  function OrdinalSuffix(n: int): (suffix: string)
    ensures |suffix| == 2
    ensures suffix in {"st", "nd", "rd", "th"}
  {
    if 10 <= n % 100 <= 20 then "th"
    else if n % 10 == 1 then "st"
    else if n % 10 == 2 then "nd"
    else if n % 10 == 3 then "rd"
    else "th"
  }

  /** `ordinal(n)`: `str(n)` followed by its two-letter suffix. */
  function Ordinal(n: int): (r: string)
    ensures |r| == |Decimal.IntString(n)| + 2
    ensures r[..|r| - 2] == Decimal.IntString(n)
    ensures r[|r| - 2..] == OrdinalSuffix(n)
    ensures r[|r| - 2..] in {"st", "nd", "rd", "th"}
  {
    var r := Decimal.IntString(n) + OrdinalSuffix(n);
    assert r[..|r| - 2] == Decimal.IntString(n);
    assert r[|r| - 2..] == OrdinalSuffix(n);
    r
  }

  /** `ordinal(int(round(p)))`, the way both dashboards quote a percentile. A
      percentage rounds to a whole number from 0 to 100. */
  function PercentileLabel(p: real): (text: string)
    requires 0.0 <= p <= 100.0
    ensures var n := Stats.RoundHalfEven(p); 0 <= n <= 100 && text == Ordinal(n)
  {
    Stats.RoundHalfEvenPercent(p);
    Ordinal(Stats.RoundHalfEven(p))
  }

  /** Dropping the suffix gives back the number. */
  lemma OrdinalRoundTrip(n: int)
    ensures var r := Ordinal(n); Decimal.ParseInt(r[..|r| - 2]) == n
  {
    Decimal.IntStringRoundTrip(n);
  }

  /** Last two digits 10 to 20 (11th, 12th, 13th, 111th, ...) take "th". */
  lemma OrdinalTeens(n: int)
    requires 10 <= n % 100 <= 20
    ensures Ordinal(n)[|Ordinal(n)| - 2..] == "th"
  {
    var r := Ordinal(n);
    assert r == Decimal.IntString(n) + OrdinalSuffix(n);
    assert r[|r| - 2..] == OrdinalSuffix(n);
  }

  /** Outside the teens the last digit decides: 1 "st", 2 "nd", 3 "rd", else "th". */
  lemma OrdinalLastDigit(n: int)
    requires !(10 <= n % 100 <= 20)
    ensures var suffix := Ordinal(n)[|Ordinal(n)| - 2..];
      && (n % 10 == 1 ==> suffix == "st")
      && (n % 10 == 2 ==> suffix == "nd")
      && (n % 10 == 3 ==> suffix == "rd")
      && (n % 10 !in {1, 2, 3} ==> suffix == "th")
  {
    var r := Ordinal(n);
    assert r == Decimal.IntString(n) + OrdinalSuffix(n);
    assert r[|r| - 2..] == OrdinalSuffix(n);
  }

  lemma LastDigitOfLastTwo(n: int)
    ensures (n % 100) % 10 == n % 10
  {
    var a, b := n / 100, n % 100;
    assert n == 100 * a + b;
    assert n == 10 * (10 * a) + b;
  }

  /** The suffix depends only on the last two digits. */
  lemma OrdinalSuffixLastTwoDigits(m: int, n: int)
    requires m % 100 == n % 100
    ensures OrdinalSuffix(m) == OrdinalSuffix(n)
  {
    LastDigitOfLastTwo(m);
    LastDigitOfLastTwo(n);
  }

  /** 0th, 1st, 2nd, 3rd. */
  lemma OrdinalSmallExamples()
    ensures Ordinal(0) == "0th" && Ordinal(1) == "1st" && Ordinal(2) == "2nd" && Ordinal(3) == "3rd"
  {
  }

  /** 11th, 12th, 13th. */
  lemma OrdinalTeenExamples()
    ensures Ordinal(11) == "11th" && Ordinal(12) == "12th" && Ordinal(13) == "13th"
  {
  }

  /** 21st, 100th, 102nd. */
  lemma OrdinalLargeExamples()
    ensures Ordinal(21) == "21st" && Ordinal(100) == "100th" && Ordinal(102) == "102nd"
  {
  }
}
