/**
  * The aggregation bundle handed to the dashboard: per-year counts, the
  * top-ten table, the word-count column, a text sample, the headline KPIs
  * and the normalised rows for display.
  */
module Aggregate {
  import opened Wrappers
  import opened Records
  import opened Normalise
  import opened YearStats
  import opened TopN
  import opened Numeric
  import Seqs

  /** Most rows the text sample keeps after sampling. */
  const SampleCap: nat := 100

  /** The text sample: a one-column frame, or a frame with no columns when `text_clean` is absent. */
  datatype TextSample = NoTextColumn | TextColumn(values: seq<Option<string>>)

  /** The headline counters. */
  datatype Kpi = Kpi(totalDocs: nat, maxLen: int, latestYear: int)

  datatype Bundle = Bundle(
    statsYear: seq<YearCount>,
    top10: seq<Entry>,
    distribution: seq<int>,
    sampleText: TextSample,
    kpi: Kpi,
    raw: Frame)

  /** The `text_clean` column of the articles, in row order. */
  function Texts(rows: seq<Article>): (t: seq<Option<string>>)
    ensures |t| == |rows|
    ensures forall i :: 0 <= i < |rows| ==> t[i] == rows[i].textClean
  {
    seq(|rows|, i requires 0 <= i < |rows| => rows[i].textClean)
  }

  /**
    * Bernoulli sample of the `text_clean` column, then the first 100 sampled
    * rows. `keep` holds the sampler's coin flips, one per row.
    */
  function SampleText(columns: seq<string>, rows: seq<Article>, keep: seq<bool>): (r: TextSample)
    requires |keep| == |rows|
    ensures r.NoTextColumn? <==> "text_clean" !in columns
    ensures r.TextColumn? ==> |r.values| <= SampleCap
    ensures r.TextColumn? ==> forall v :: v in r.values ==>
      exists i :: 0 <= i < |rows| && keep[i] && rows[i].textClean == v
  {
    if "text_clean" !in columns then NoTextColumn
    else
      var picked := Seqs.Pick(Texts(rows), keep);
      var kept := picked[..if |picked| < SampleCap then |picked| else SampleCap];
      assert forall v :: v in kept ==> exists i :: 0 <= i < |rows| && keep[i] && rows[i].textClean == v by {
        forall v | v in kept ensures exists i :: 0 <= i < |rows| && keep[i] && rows[i].textClean == v {
          Seqs.PickFlags(Texts(rows), keep, v);
        }
      }
      TextColumn(kept)
  }

  /**
    * The sample is an order-preserving subsequence of the text column, and
    * holds every sampled row unless more than 100 were sampled.
    */
  lemma {:induction false} SampleShape(columns: seq<string>, rows: seq<Article>, keep: seq<bool>)
    requires |keep| == |rows| && "text_clean" in columns
    ensures Seqs.IsSubsequence(SampleText(columns, rows, keep).values, Texts(rows))
    ensures Seqs.Count(keep, Seqs.IsSet) <= SampleCap ==>
      SampleText(columns, rows, keep).values == Seqs.Pick(Texts(rows), keep)
    ensures Seqs.Count(keep, Seqs.IsSet) >= SampleCap ==>
      |SampleText(columns, rows, keep).values| == SampleCap
  {
    var picked := Seqs.Pick(Texts(rows), keep);
    Seqs.PickCount(Texts(rows), keep);
    Seqs.PickIsSubsequence(Texts(rows), keep);
    var idx :| Seqs.Embeds(picked, Texts(rows), idx);
    var k := if |picked| < SampleCap then |picked| else SampleCap;
    assert Seqs.Embeds(picked[..k], Texts(rows), idx[..k]);
  }

  /** `withColumn`: a new column is appended; an existing one is replaced where it stands. */
  function WithColumn(columns: seq<string>, name: string): (r: seq<string>)
    ensures name in r
    ensures forall c :: c in r <==> c in columns || c == name
    ensures |columns| <= |r| && r[..|columns|] == columns
    ensures |r| == |columns| + (if name in columns then 0 else 1)
  {
    if name in columns then columns else columns + [name]
  }

  /** The columns of the display frame: the loaded ones, then `timestamp` and `year` if new. */
  function RawColumns(columns: seq<string>): (r: seq<string>)
    ensures "timestamp" in r && "year" in r
    ensures forall c :: c in r <==> c in columns || c == "timestamp" || c == "year"
  {
    WithColumn(WithColumn(columns, "timestamp"), "year")
  }

  /**
    * One cell of the display frame. Timestamp-typed fields (`rev_ts` and the
    * derived `timestamp`) are printed as strings; other columns are read
    * from the stored fields, and a null field is a null cell.
    */
  function RawCell(a: Article, column: string): (v: Value)
    ensures column in ["rev_ts", "timestamp", "title", "text_clean"] ==> v.Null? || v.Text?
    ensures column == "title" ==> (v.Null? <==> a.title.None?) && (a.title.Some? ==> v.s == a.title.value)
    ensures column == "text_clean" ==>
      (v.Null? <==> a.textClean.None?) && (a.textClean.Some? ==> v.s == a.textClean.value)
    ensures column == "word_count" ==> v == Int(a.wordCount)
    ensures column == "text_len" ==> (v.Null? <==> a.textLen.None?) && (a.textLen.Some? ==> v == Int(a.textLen.value))
    ensures column == "year" ==> (v.Null? <==> a.year.None?) && (a.year.Some? ==> v == Int(a.year.value))
    ensures column == "rev_ts" ==> (v.Null? <==> a.revTs.None?) && (a.revTs.Some? ==> v.s == a.revTs.value.text)
    ensures column == "timestamp" ==>
      (v.Null? <==> a.revTs.None? || a.revTs.value.parsed.None?)
      && (v.Text? ==> v.s == a.revTs.value.parsed.value.printed)
    ensures column !in FieldColumns ==> v == (if column in a.extra then a.extra[column] else Null)
  {
    if column == "title" then OptText(a.title)
    else if column == "text_clean" then OptText(a.textClean)
    else if column == "word_count" then Int(a.wordCount)
    else if column == "text_len" then OptInt(a.textLen)
    else if column == "rev_ts" then
      (if a.revTs.Some? then Text(a.revTs.value.text) else Null)
    else if column == "timestamp" then
      (if a.revTs.Some? && a.revTs.value.parsed.Some? then Text(a.revTs.value.parsed.value.printed) else Null)
    else if column == "year" then OptInt(a.year)
    else if column in a.extra then a.extra[column]
    else Null
  }

  /**
    * A display cell of a loaded document, in terms of the document as
    * stored: its title, text and printed `rev_ts`; the cleaned counts; the
    * parsed year and printed timestamp; any other stored field unchanged.
    */
  lemma RawCellOfDoc(d: Doc, column: string)
    ensures var v := RawCell(NormaliseDoc(d), column);
      && (column == "title" ==> v == OptText(d.title))
      && (column == "text_clean" ==> v == OptText(d.textClean))
      && (column == "word_count" ==> v == Int(CleanInt(d.wordCount).GetOr(0)))
      && (column == "text_len" ==> v == OptInt(CleanInt(d.textLen)))
      && (column == "rev_ts" ==> v == (if d.revTs.Some? then Text(d.revTs.value.text) else Null))
      && (column == "timestamp" ==>
            v == (if d.revTs.Some? && d.revTs.value.parsed.Some?
                  then Text(d.revTs.value.parsed.value.printed) else Null))
      && (column == "year" ==>
            v == (if d.revTs.Some? && d.revTs.value.parsed.Some?
                  then Int(d.revTs.value.parsed.value.year) else Null))
      && (column !in FieldColumns ==> v == (if column in d.extra then d.extra[column] else Null))
  {
  }

  /** The headline counters: every row counted, the longest word count, the latest year. */
  function MakeKpi(rows: seq<Article>, stats: seq<YearCount>, top: seq<Entry>): (k: Kpi)
    ensures k.totalDocs == |rows|
    ensures forall i :: 0 <= i < |top| ==> top[i].wordCount <= k.maxLen
    ensures |top| == 0 ==> k.maxLen == 0
    ensures |top| > 0 ==> exists i :: 0 <= i < |top| && top[i].wordCount == k.maxLen
    ensures forall i :: 0 <= i < |stats| && stats[i].year.Some? ==> stats[i].year.value <= k.latestYear
    ensures (exists i :: 0 <= i < |stats| && stats[i].year.Some?) ==>
      exists i :: 0 <= i < |stats| && stats[i].year == Some(k.latestYear)
    ensures (forall i :: 0 <= i < |stats| ==> stats[i].year.None?) ==> k.latestYear == 0
  {
    Kpi(|rows|, MaxWordCount(top), LatestYear(stats))
  }

  /** The `word_count` column, one value per article (the distribution frame). */
  function WordCounts(rows: seq<Article>): (w: seq<int>)
    ensures |w| == |rows|
    ensures forall i :: 0 <= i < |rows| ==> w[i] == rows[i].wordCount
  {
    seq(|rows|, i requires 0 <= i < |rows| => rows[i].wordCount)
  }

  /** The bundle computed from a loaded collection. */
  function Assemble(c: Collection, keep: seq<bool>): (b: Bundle)
    requires WellFormed(c) && |keep| == |c.docs|
    ensures b.kpi.totalDocs == |c.docs|
    ensures |b.raw.rows| == |c.docs| && |b.distribution| == |c.docs|
    ensures forall i :: 0 <= i < |c.docs| ==> b.raw.rows[i] == NormaliseDoc(c.docs[i])
    ensures forall i :: 0 <= i < |c.docs| ==> b.distribution[i] == b.raw.rows[i].wordCount
    ensures b.statsYear == GroupByYear(b.raw.rows)
    ensures b.top10 == Top10(b.raw.rows)
    ensures b.kpi.maxLen == MaxWordCount(b.top10) && b.kpi.latestYear == LatestYear(b.statsYear)
    ensures b.sampleText == SampleText(c.columns, b.raw.rows, keep)
    ensures forall col :: col in b.raw.columns <==> col in c.columns || col == "timestamp" || col == "year"
  {
    var rows := NormaliseAll(c.docs);
    var stats := GroupByYear(rows);
    var top := Top10(rows);
    Bundle(
      stats,
      top,
      WordCounts(rows),
      SampleText(c.columns, rows, keep),
      MakeKpi(rows, stats, top),
      Frame(RawColumns(c.columns), rows))
  }

  /**
    * The aggregation entry point. `source` is the loaded collection, or
    * `None` when the compute session or the connection secret is
    * unavailable, in which case there is no bundle; `keep` holds the text
    * sampler's coin flips.
    */
  function LoadAndProcess(source: Option<Collection>, keep: seq<bool>): (r: Option<Bundle>)
    requires source.Some? ==> WellFormed(source.value) && |keep| == |source.value.docs|
    ensures r.Some? <==> source.Some?
    ensures r.Some? ==> r.value == Assemble(source.value, keep)
  {
    match source
    case None => None
    case Some(c) => Some(Assemble(c, keep))
  }

  /**
    * Every loaded row is counted once: the row count, the word-count column
    * and the display rows all have one entry per document, and the per-year
    * table is ascending with counts summing to the row count.
    */
  lemma {:induction false} BundleCounts(c: Collection, keep: seq<bool>)
    requires WellFormed(c) && |keep| == |c.docs|
    ensures var b := Assemble(c, keep);
      && b.kpi.totalDocs == |c.docs| == |b.distribution| == |b.raw.rows|
      && Ascending(b.statsYear) && Total(b.statsYear) == b.kpi.totalDocs
  {
  }

  /**
    * The KPIs of a collection: the row count, the largest word count of any
    * row (0 when there are none) and the latest year of any row (0 when no
    * row has one).
    */
  lemma {:induction false} KpiOfRows(rows: seq<Article>)
    ensures var k := MakeKpi(rows, GroupByYear(rows), Top10(rows));
      && k.totalDocs == |rows|
      && (|rows| == 0 ==> k.maxLen == 0)
      && (forall i :: 0 <= i < |rows| ==> rows[i].wordCount <= k.maxLen)
      && (|rows| > 0 ==> exists i :: 0 <= i < |rows| && rows[i].wordCount == k.maxLen)
      && (forall i :: 0 <= i < |rows| && rows[i].year.Some? ==> rows[i].year.value <= k.latestYear)
      && ((exists i :: 0 <= i < |rows| && rows[i].year.Some?) ==>
            exists i :: 0 <= i < |rows| && rows[i].year == Some(k.latestYear))
      && ((forall i :: 0 <= i < |rows| ==> rows[i].year.None?) ==> k.latestYear == 0)
  {
    MaxOfTopIsGlobalMax(rows);
    LatestYearOfArticles(rows);
  }
}
