/**
  * Loading step of the aggregation: numeric normalisation of every
  * document and derivation of its `year`. Rows are never dropped.
  */
module Normalise {
  import opened Wrappers
  import opened Records
  import opened Numeric

  /** The calendar year of a stored `rev_ts`; null when absent or unparseable. */
  function YearOf(ts: Option<RevTs>): (y: Option<int>)
    ensures y.Some? <==> ts.Some? && ts.value.parsed.Some?
    ensures y.Some? ==> y.value == ts.value.parsed.value.year
  {
    match ts
    case None => None
    case Some(t) => match t.parsed
      case None => None
      case Some(instant) => Some(instant.year)
  }

  /** One document normalised: both counts cleaned, `year` derived, all else kept. */
  function NormaliseDoc(d: Doc): (a: Article)
    ensures a.title == d.title && a.textClean == d.textClean
    ensures a.revTs == d.revTs && a.extra == d.extra
    ensures a.wordCount == CleanInt(d.wordCount).GetOr(0)
    ensures a.textLen == CleanInt(d.textLen)
    ensures d.wordCount.Int? ==> a.wordCount == d.wordCount.i
    ensures d.textLen.Null? ==> a.textLen.None?
    ensures d.textLen.Int? ==> a.textLen == Some(d.textLen.i)
    ensures a.year.Some? <==> d.revTs.Some? && d.revTs.value.parsed.Some?
    ensures a.year.Some? ==> a.year.value == d.revTs.value.parsed.value.year
  {
    Article(d.title, d.textClean, NormaliseWordCount(d.wordCount),
            NormaliseTextLen(d.textLen), d.revTs, YearOf(d.revTs), d.extra)
  }

  /** The stored form of a normalised article: counts as integers, null `text_len` as null. */
  function Restore(a: Article): (d: Doc)
    ensures d.wordCount == Int(a.wordCount)
    ensures d.textLen.Null? <==> a.textLen.None?
  {
    Doc(a.title, a.textClean, Int(a.wordCount),
        OptInt(a.textLen), a.revTs, a.extra)
  }

  /** Normalising an already normalised document changes nothing. */
  lemma NormaliseIdempotent(d: Doc)
    ensures NormaliseDoc(Restore(NormaliseDoc(d))) == NormaliseDoc(d)
  {
  }

  /** The whole collection normalised row by row, in order, none dropped. */
  function NormaliseAll(docs: seq<Doc>): (rows: seq<Article>)
    ensures |rows| == |docs|
    ensures forall i :: 0 <= i < |docs| ==> rows[i] == NormaliseDoc(docs[i])
  {
    seq(|docs|, i requires 0 <= i < |docs| => NormaliseDoc(docs[i]))
  }
}
