/**
  * Per-year article counts (`groupBy("year").count().orderBy("year")`) and
  * the latest-year KPI derived from them.
  */
module YearStats {
  import opened Wrappers
  import opened Records
  import Seqs

  /** One row of the per-year table; `year` null collects the rows without a year. */
  datatype YearCount = YearCount(year: Option<int>, count: nat)

  /** Ascending order on a nullable year, nulls first. */
  predicate YearBefore(a: Option<int>, b: Option<int>)
  {
    || (a.None? && b.Some?)
    || (a.Some? && b.Some? && a.value < b.value)
  }

  /** Strictly ascending years: sorted, and no year appears twice. */
  predicate Ascending(g: seq<YearCount>)
  {
    forall i, j :: 0 <= i < j < |g| ==> YearBefore(g[i].year, g[j].year)
  }

  /** Number of articles whose year is `y`. */
  function CountYear(rows: seq<Article>, y: Option<int>): nat
  {
    Seqs.Count(rows, (a: Article) => a.year == y)
  }

  /** The count a table reports for year `y`, 0 when `y` has no row. */
  function CountOf(g: seq<YearCount>, y: Option<int>): nat
  {
    if |g| == 0 then 0
    else (if g[0].year == y then g[0].count else 0) + CountOf(g[1..], y)
  }

  /** Sum of all counts of a table. */
  function Total(g: seq<YearCount>): nat
  {
    if |g| == 0 then 0 else g[0].count + Total(g[1..])
  }

  predicate PositiveCounts(g: seq<YearCount>)
  {
    forall i :: 0 <= i < |g| ==> g[i].count > 0
  }

  /** The years a table has a row for. */
  function YearsIn(g: seq<YearCount>): set<Option<int>>
  {
    set i | 0 <= i < |g| :: g[i].year
  }

  /** The distinct years of the articles, null included. */
  function YearsOf(rows: seq<Article>): set<Option<int>>
  {
    set i | 0 <= i < |rows| :: rows[i].year
  }

  /** Adds one article of year `y` to an ascending table. */
  function Bump(g: seq<YearCount>, y: Option<int>): (r: seq<YearCount>)
  {
    if |g| == 0 then [YearCount(y, 1)]
    else if g[0].year == y then [YearCount(y, g[0].count + 1)] + g[1..]
    else if YearBefore(y, g[0].year) then [YearCount(y, 1)] + g
    else [g[0]] + Bump(g[1..], y)
  }

  lemma YearsInCons(h: YearCount, t: seq<YearCount>)
    ensures YearsIn([h] + t) == {h.year} + YearsIn(t)
  {
    var r := [h] + t;
    assert r[0].year == h.year;
    forall k | k in YearsIn(r) ensures k in {h.year} + YearsIn(t) {
      var i :| 0 <= i < |r| && r[i].year == k;
      if i > 0 { assert t[i - 1].year == k; }
    }
    forall k | k in YearsIn(t) ensures k in YearsIn(r) {
      var i :| 0 <= i < |t| && t[i].year == k;
      assert r[i + 1].year == k;
    }
  }

  /** Bumping adds exactly `y` to the years of a table. */
  lemma {:induction false} BumpYears(g: seq<YearCount>, y: Option<int>)
    ensures YearsIn(Bump(g, y)) == YearsIn(g) + {y}
  {
    if |g| > 0 {
      assert g == [g[0]] + g[1..];
      YearsInCons(g[0], g[1..]);
      if g[0].year == y {
        YearsInCons(YearCount(y, g[0].count + 1), g[1..]);
      } else if YearBefore(y, g[0].year) {
        YearsInCons(YearCount(y, 1), g);
      } else {
        BumpYears(g[1..], y);
        YearsInCons(g[0], Bump(g[1..], y));
      }
    } else {
      assert Bump(g, y)[0].year == y;
    }
  }

  /** Bumping keeps a table ascending. */
  lemma {:induction false} BumpAscending(g: seq<YearCount>, y: Option<int>)
    requires Ascending(g)
    ensures Ascending(Bump(g, y))
  {
    if |g| > 0 && g[0].year != y && !YearBefore(y, g[0].year) {
      var tail := g[1..];
      BumpAscending(tail, y);
      BumpYears(tail, y);
      var r, rt := Bump(g, y), Bump(tail, y);
      forall j | 0 < j < |r| ensures YearBefore(g[0].year, r[j].year) {
        assert r[j] == rt[j - 1];
        assert r[j].year in YearsIn(rt);
        if r[j].year != y {
          var i :| 0 <= i < |tail| && tail[i].year == r[j].year;
          assert g[i + 1] == tail[i];
        }
      }
    }
  }

  /** Bumping adds one to the count of `y`, leaves every other count alone, and keeps counts positive. */
  lemma {:induction false} BumpCounts(g: seq<YearCount>, y: Option<int>)
    requires PositiveCounts(g)
    ensures PositiveCounts(Bump(g, y))
    ensures Total(Bump(g, y)) == Total(g) + 1
    ensures forall k :: CountOf(Bump(g, y), k) == CountOf(g, k) + (if k == y then 1 else 0)
  {
    if |g| > 0 {
      var r := Bump(g, y);
      if g[0].year == y {
        assert r[1..] == g[1..];
      } else if YearBefore(y, g[0].year) {
        assert r[1..] == g;
      } else {
        BumpCounts(g[1..], y);
        assert r[1..] == Bump(g[1..], y);
      }
    }
  }

  /** In an ascending table the count reported for a listed year is that row's count. */
  lemma {:induction false} CountOfRow(g: seq<YearCount>, i: nat)
    requires Ascending(g) && i < |g|
    ensures CountOf(g, g[i].year) == g[i].count
  {
    if i == 0 {
      CountOfAbsent(g[1..], g[0].year);
    } else {
      assert g[0].year != g[i].year;
      CountOfRow(g[1..], i - 1);
    }
  }

  /** An ascending table whose years all follow `y` reports 0 for `y`. */
  lemma {:induction false} CountOfAbsent(g: seq<YearCount>, y: Option<int>)
    requires forall i :: 0 <= i < |g| ==> YearBefore(y, g[i].year)
    ensures CountOf(g, y) == 0
  {
    if |g| > 0 {
      CountOfAbsent(g[1..], y);
    }
  }

  /**
    * The per-year table: one row per distinct year (null its own group),
    * ascending by year with null first, each count the number of articles
    * of that year, so the counts sum to the number of articles.
    */
  function GroupByYear(rows: seq<Article>): (g: seq<YearCount>)
    ensures Ascending(g)
    ensures PositiveCounts(g)
    ensures YearsIn(g) == YearsOf(rows)
    ensures forall y :: CountOf(g, y) == CountYear(rows, y)
    ensures Total(g) == |rows|
  {
    if |rows| == 0 then []
    else
      var init, last := rows[..|rows| - 1], rows[|rows| - 1];
      var g0 := GroupByYear(init);
      BumpYears(g0, last.year);
      BumpAscending(g0, last.year);
      BumpCounts(g0, last.year);
      assert YearsOf(rows) == YearsOf(init) + {last.year} by {
        forall y | y in YearsOf(rows) ensures y in YearsOf(init) + {last.year} {
          var i :| 0 <= i < |rows| && rows[i].year == y;
          if i < |init| { assert init[i] == rows[i]; }
        }
        forall y | y in YearsOf(init) ensures y in YearsOf(rows) {
          var i :| 0 <= i < |init| && init[i].year == y;
          assert rows[i] == init[i];
        }
      }
      Bump(g0, last.year)
  }

  /** Each row of the per-year table counts exactly the articles of its year. */
  lemma {:induction false} GroupByYearCounts(rows: seq<Article>)
    ensures var g := GroupByYear(rows);
      forall i :: 0 <= i < |g| ==> g[i].count == CountYear(rows, g[i].year) && g[i].count > 0
  {
    var g := GroupByYear(rows);
    forall i | 0 <= i < |g| ensures g[i].count == CountYear(rows, g[i].year) {
      CountOfRow(g, i);
    }
  }

  /** The largest non-null year of a table, as a null-skipping `max` computes it; null when there is none. */
  function MaxYear(g: seq<YearCount>): (r: Option<int>)
    ensures r.None? <==> forall i :: 0 <= i < |g| ==> g[i].year.None?
    ensures r.Some? ==> exists i :: 0 <= i < |g| && g[i].year == r
    ensures r.Some? ==> forall i :: 0 <= i < |g| && g[i].year.Some? ==> g[i].year.value <= r.value
  {
    if |g| == 0 then None
    else
      var m, y := MaxYear(g[..|g| - 1]), g[|g| - 1].year;
      if y.None? then m
      else if m.None? || m.value < y.value then y
      else m
  }

  /**
    * The latest-year KPI as written: 0 for an empty table, otherwise the
    * null-skipping maximum of the year column. When every year is null that
    * maximum is NaN, modelled here as `None`.
    */
  function LatestYearAsWritten(g: seq<YearCount>): (r: Option<int>)
    ensures |g| == 0 ==> r == Some(0)
    ensures |g| > 0 ==> r == MaxYear(g)
  {
    if |g| == 0 then Some(0) else MaxYear(g)
  }

  /** The latest-year KPI: the largest year present, or 0 when no year is present. */
  function LatestYear(g: seq<YearCount>): (r: int)
    ensures (forall i :: 0 <= i < |g| ==> g[i].year.None?) ==> r == 0
    ensures (exists i :: 0 <= i < |g| && g[i].year.Some?) ==>
      (exists i :: 0 <= i < |g| && g[i].year == Some(r))
      && forall i :: 0 <= i < |g| && g[i].year.Some? ==> g[i].year.value <= r
  {
    MaxYear(g).GetOr(0)
  }

  /**
    * A loaded collection in which no `rev_ts` parses has a single null-year
    * group, and the latest-year KPI as written is NaN rather than 0; the
    * corrected KPI is 0.
    */
  lemma {:induction false} LatestYearNaNWithoutYears(rows: seq<Article>)
    requires |rows| > 0
    requires forall i :: 0 <= i < |rows| ==> rows[i].year.None?
    ensures LatestYearAsWritten(GroupByYear(rows)).None?
    ensures LatestYear(GroupByYear(rows)) == 0
  {
    var g := GroupByYear(rows);
    assert rows[0].year in YearsOf(rows);
    forall i | 0 <= i < |g| ensures g[i].year.None? {
      assert g[i].year in YearsIn(g);
    }
  }

  /** The corrected latest year is the largest year of any article, or 0 when none has one. */
  lemma {:induction false} LatestYearOfArticles(rows: seq<Article>)
    ensures var r := LatestYear(GroupByYear(rows));
      && (forall i :: 0 <= i < |rows| && rows[i].year.Some? ==> rows[i].year.value <= r)
      && ((exists i :: 0 <= i < |rows| && rows[i].year.Some?) ==>
            exists i :: 0 <= i < |rows| && rows[i].year == Some(r))
      && ((forall i :: 0 <= i < |rows| ==> rows[i].year.None?) ==> r == 0)
  {
    var g := GroupByYear(rows);
    var r := LatestYear(g);
    forall i | 0 <= i < |rows| && rows[i].year.Some? ensures rows[i].year.value <= r {
      assert rows[i].year in YearsOf(rows);
      var j :| 0 <= j < |g| && g[j].year == rows[i].year;
    }
    if exists i :: 0 <= i < |rows| && rows[i].year.Some? {
      var i :| 0 <= i < |rows| && rows[i].year.Some?;
      assert rows[i].year in YearsOf(rows);
      var j :| 0 <= j < |g| && g[j].year == Some(r);
      assert g[j].year in YearsIn(g);
    } else {
      forall j | 0 <= j < |g| ensures g[j].year.None? {
        assert g[j].year in YearsIn(g);
      }
    }
  }
}
