/**
  * The chart builders, modelled as data selection: which rows each chart
  * plots, on which axes, and when there is nothing to draw (`None`).
  * Figure styling and rendering are not modelled.
  */
module Charts {
  import opened Wrappers
  import opened Records
  import opened YearStats
  import opened TopN
  import opened Aggregate
  import Seqs

  datatype Orientation = Vertical | Horizontal

  /** How the category axis is ordered: as the data comes, or by ascending bar total. */
  datatype CategoryOrder = AsGiven | TotalAscending

  /** A bar chart: one bar per data row, its category and its length, in data order. */
  datatype BarChart<C, V> = BarChart(
    categories: seq<C>,
    values: seq<V>,
    orientation: Orientation,
    order: CategoryOrder)

  /** Tick placement on the histogram's count axis. */
  datatype Ticks = AutoTicks | FixedTicks(at: seq<int>, labels: seq<string>)

  datatype Histogram = Histogram(values: seq<int>, bins: nat, logY: bool, ticks: Ticks)

  /** Word counts at or above this are outliers, hidden unless asked for. */
  const OutlierCut: int := 5000

  /** Number of histogram bins. */
  const Bins: nat := 50

  /** The fixed ticks of the logarithmic count axis. */
  const LogTicks: Ticks := FixedTicks([1, 10, 100, 1000, 10000], ["1", "10", "100", "1k", "10k"])

  /** Time trend: one vertical bar per year row, year on x and its count on y. */
  function TimeTrend(df: Option<seq<YearCount>>): (r: Option<BarChart<Option<int>, nat>>)
    ensures r.None? <==> df.None? || |df.value| == 0
    ensures r.Some? ==>
      && |r.value.categories| == |r.value.values| == |df.value|
      && (forall i :: 0 <= i < |df.value| ==>
            r.value.categories[i] == df.value[i].year && r.value.values[i] == df.value[i].count)
      && r.value.orientation == Vertical && r.value.order == AsGiven
  {
    match df
    case None => None
    case Some(g) =>
      if |g| == 0 then None
      else Some(BarChart(
        seq(|g|, i requires 0 <= i < |g| => g[i].year),
        seq(|g|, i requires 0 <= i < |g| => g[i].count),
        Vertical, AsGiven))
  }

  /**
    * Fed the per-year table of a collection, the time trend is absent only
    * for an empty collection; otherwise its years are strictly ascending,
    * cover exactly the articles' years, and each bar is that year's count.
    */
  lemma {:induction false} TimeTrendOfArticles(rows: seq<Article>)
    ensures var r := TimeTrend(Some(GroupByYear(rows)));
      && (r.None? <==> |rows| == 0)
      && (r.Some? ==>
            && (forall i, j :: 0 <= i < j < |r.value.categories| ==>
                  YearBefore(r.value.categories[i], r.value.categories[j]))
            && (forall i :: 0 <= i < |r.value.categories| ==>
                  r.value.values[i] == CountYear(rows, r.value.categories[i]) > 0)
            && (forall y :: y in r.value.categories <==> y in YearsOf(rows)))
  {
    var g := GroupByYear(rows);
    GroupByYearCounts(rows);
    if |rows| > 0 {
      assert rows[0].year in YearsOf(rows);
    }
    var r := TimeTrend(Some(g));
    if r.Some? {
      forall y ensures y in r.value.categories <==> y in YearsOf(rows) {
        if y in YearsOf(rows) {
          assert y in YearsIn(g);
          var i :| 0 <= i < |g| && g[i].year == y;
          assert r.value.categories[i] == y;
        }
        if y in r.value.categories {
          var i :| 0 <= i < |g| && r.value.categories[i] == y;
          assert g[i].year in YearsIn(g);
        }
      }
    }
  }

  /**
    * Ten longest: one horizontal bar per row, word count along x and title
    * as the category, categories ordered by ascending bar total.
    */
  function TopLongest(df: Option<seq<Entry>>): (r: Option<BarChart<Option<string>, int>>)
    ensures r.None? <==> df.None? || |df.value| == 0
    ensures r.Some? ==>
      && |r.value.categories| == |r.value.values| == |df.value|
      && (forall i :: 0 <= i < |df.value| ==>
            r.value.categories[i] == df.value[i].title && r.value.values[i] == df.value[i].wordCount)
      && r.value.orientation == Horizontal && r.value.order == TotalAscending
  {
    match df
    case None => None
    case Some(t) =>
      if |t| == 0 then None
      else Some(BarChart(
        seq(|t|, i requires 0 <= i < |t| => t[i].title),
        seq(|t|, i requires 0 <= i < |t| => t[i].wordCount),
        Horizontal, TotalAscending))
  }

  /**
    * Fed the top table of a collection, the chart is absent only for an
    * empty collection; otherwise it has at most ten bars and its first bar
    * is the longest article of the whole collection.
    */
  lemma {:induction false} TopLongestOfArticles(rows: seq<Article>)
    ensures var r := TopLongest(Some(Top10(rows)));
      && (r.None? <==> |rows| == 0)
      && (r.Some? ==>
            && 0 < |r.value.values| <= Limit
            && (forall i :: 0 <= i < |rows| ==> rows[i].wordCount <= r.value.values[0])
            && (exists i :: 0 <= i < |rows| && rows[i].wordCount == r.value.values[0]))
  {
    var t := Top10(rows);
    MaxOfTopIsGlobalMax(rows);
    if |t| > 0 {
      assert MaxWordCount(t) == t[0].wordCount by {
        var j :| 0 <= j < |t| && t[j].wordCount == MaxWordCount(t);
        assert t[0].wordCount >= t[j].wordCount;
      }
    }
  }

  predicate BelowCut(v: int)
  {
    v < OutlierCut
  }

  /**
    * Word-count histogram with 50 bins. By default only counts below 5000
    * are plotted on a linear axis; with outliers shown every count is
    * plotted on a logarithmic axis with ticks 1, 10, 100, 1k, 10k. No chart
    * when there is no input or nothing is left to plot.
    */
  function Distribution(df: Option<seq<int>>, showOutliers: bool): (r: Option<Histogram>)
    ensures df.None? ==> r.None?
    ensures df.Some? && showOutliers ==> (r.None? <==> |df.value| == 0)
    ensures df.Some? && !showOutliers ==> (r.None? <==> forall v :: v in df.value ==> v >= OutlierCut)
    ensures r.Some? ==> r.value.bins == Bins && r.value.logY == showOutliers
    ensures r.Some? ==> r.value.ticks == (if showOutliers then LogTicks else AutoTicks)
    ensures r.Some? && showOutliers ==> r.value.values == df.value
    ensures r.Some? && !showOutliers ==>
      forall v :: v in r.value.values <==> v in df.value && v < OutlierCut
  {
    if df.None? || |df.value| == 0 then None
    else
      var data := if showOutliers then df.value else Seqs.Filter(df.value, BelowCut);
      if |data| == 0 then None
      else
        assert data[0] in data;
        Some(Histogram(data, Bins, showOutliers, if showOutliers then LogTicks else AutoTicks))
  }

  /**
    * In the default mode the histogram plots exactly the counts below 5000,
    * in their original order, and as many of them as there are.
    */
  lemma {:induction false} DistributionKeepsBelowCut(df: seq<int>)
    requires exists v :: v in df && v < OutlierCut
    ensures var r := Distribution(Some(df), false);
      && r.Some?
      && Seqs.Embeds(r.value.values, df, Seqs.Positions(df, BelowCut))
      && (forall i :: 0 <= i < |df| ==> (df[i] < OutlierCut <==> i in Seqs.Positions(df, BelowCut)))
      && |r.value.values| == Seqs.Count(df, BelowCut)
  {
    Seqs.FilterPositions(df, BelowCut);
    Seqs.FilterCount(df, BelowCut);
  }

  /** Counts 10, 20, 5000, 7000: 5000 and 7000 are hidden by default and all four shown on request. */
  lemma DistributionExample()
    ensures Distribution(Some([10, 20, 5000, 7000]), false) ==
      Some(Histogram([10, 20], Bins, false, AutoTicks))
    ensures Distribution(Some([10, 20, 5000, 7000]), true) ==
      Some(Histogram([10, 20, 5000, 7000], Bins, true, LogTicks))
  {
    FilterExample();
  }

  lemma FilterExample()
    ensures Seqs.Filter([10, 20, 5000, 7000], BelowCut) == [10, 20]
  {
    Seqs.FilterSnoc([10, 20, 5000], 7000, BelowCut);
    assert [10, 20, 5000] + [7000] == [10, 20, 5000, 7000];
    assert Seqs.Filter([10, 20, 5000], BelowCut) == [10, 20] by {
      Seqs.FilterSnoc([10, 20], 5000, BelowCut);
      assert [10, 20] + [5000] == [10, 20, 5000];
      assert Seqs.Filter([10, 20], BelowCut) == [10, 20] by {
        Seqs.FilterKeepsAll([10, 20], BelowCut);
      }
    }
  }

  /** Sum of the lengths of some strings. */
  function TotalLength(parts: seq<string>): nat
  {
    if |parts| == 0 then 0 else TotalLength(parts[..|parts| - 1]) + |parts[|parts| - 1]|
  }

  /** The strings joined with a single space between neighbours (`" ".join`). */
  function JoinSpaced(parts: seq<string>): (r: string)
    ensures |parts| == 0 ==> r == ""
    ensures |parts| == 1 ==> r == parts[0]
    ensures |parts| > 0 ==> |r| == TotalLength(parts) + |parts| - 1
  {
    if |parts| == 0 then ""
    else if |parts| == 1 then parts[0]
    else
      var init := parts[..|parts| - 1];
      JoinSpaced(init) + " " + parts[|parts| - 1]
  }

  /**
    * Read from the front, a join of two or more strings is the first one,
    * a single space, and the join of the rest. With the one- and
    * zero-string cases this fixes every character of the joined text.
    */
  lemma {:induction false} JoinSpacedCons(parts: seq<string>)
    requires |parts| > 1
    ensures JoinSpaced(parts) == parts[0] + " " + JoinSpaced(parts[1..])
  {
    var init, last := parts[..|parts| - 1], parts[|parts| - 1];
    if |parts| == 2 {
      assert init == [parts[0]] && parts[1..] == [last];
    } else {
      JoinSpacedCons(init);
      assert parts[1..][..|parts| - 2] == init[1..];
      assert parts[1..][|parts| - 2] == last;
    }
  }

  /** A join is empty exactly when there is nothing to join or only one empty string. */
  lemma JoinEmptyIff(parts: seq<string>)
    ensures JoinSpaced(parts) == "" <==> |parts| == 0 || (|parts| == 1 && parts[0] == "")
  {
    if |parts| == 1 {
      assert TotalLength(parts) == |parts[0]|;
    }
  }

  /**
    * The text handed to the word-cloud generator: the non-null `text_clean`
    * values of the sample, in order, joined by single spaces. No word cloud
    * for a missing or empty sample or when that text is empty.
    */
  function WordCloudText(df: Option<TextSample>): (r: Option<string>)
    ensures df.None? || df.value.NoTextColumn? ==> r.None?
    ensures df.Some? && df.value.TextColumn? ==>
      var texts := Seqs.Somes(df.value.values);
      && (r.Some? <==> |texts| > 1 || (|texts| == 1 && texts[0] != ""))
      && (r.Some? ==> r.value == JoinSpaced(texts))
  {
    match df
    case None => None
    case Some(sample) =>
      match sample
      case NoTextColumn => None
      case TextColumn(values) =>
        if |values| == 0 then None
        else
          var text := JoinSpaced(Seqs.Somes(values));
          JoinEmptyIff(Seqs.Somes(values));
          if text == "" then None else Some(text)
  }
}
