/**
  * Article records as they are loaded from the document store and as they
  * look after the numeric fields have been normalised.
  */
module Records {
  import opened Wrappers

  /** A stored field before normalisation: null, an integer, or text. */
  datatype Value = Null | Int(i: int) | Text(s: string)

  /**
    * The outcome of parsing a stored `rev_ts` as a timestamp: its calendar
    * year and the timestamp printed back as a string. Timestamp parsing
    * itself is not modelled; each stored value carries its outcome.
    */
  datatype Instant = Instant(year: int, printed: string)

  /** A stored `rev_ts`: its printed form and the result of parsing it (null on failure). */
  datatype RevTs = RevTs(text: string, parsed: Option<Instant>)

  /** One document of the article collection, fields as stored. */
  datatype Doc = Doc(
    title: Option<string>,
    textClean: Option<string>,
    wordCount: Value,
    textLen: Value,
    revTs: Option<RevTs>,
    extra: map<string, Value>)

  /** A loaded collection: the inferred column list and the documents. */
  datatype Collection = Collection(columns: seq<string>, docs: seq<Doc>)

  /**
    * The columns that a named document field holds or that are derived
    * from one. The other stored columns are in `Doc.extra`.
    */
  const FieldColumns: set<string> :=
    {"title", "text_clean", "word_count", "text_len", "rev_ts", "timestamp", "year"}

  /**
    * What the aggregation demands of its input: the `title`, `word_count`
    * and `rev_ts` columns exist (they are selected or derived from without
    * a guard), a field whose column is absent is null in every row, and no
    * other stored field shares a name with a named or derived column.
    */
  predicate WellFormed(c: Collection)
  {
    && "title" in c.columns
    && "word_count" in c.columns
    && "rev_ts" in c.columns
    && ("text_clean" !in c.columns ==> forall d :: d in c.docs ==> d.textClean.None?)
    && ("text_len" !in c.columns ==> forall d :: d in c.docs ==> d.textLen.Null?)
    && (forall d, k :: d in c.docs && k in d.extra ==> k !in FieldColumns)
  }

  /** A nullable string as a stored field. */
  function OptText(o: Option<string>): (v: Value)
    ensures v.Null? <==> o.None?
    ensures o.Some? ==> v == Text(o.value)
  {
    if o.Some? then Text(o.value) else Null
  }

  /** A nullable integer as a stored field. */
  function OptInt(o: Option<int>): (v: Value)
    ensures v.Null? <==> o.None?
    ensures o.Some? ==> v == Int(o.value)
  {
    if o.Some? then Int(o.value) else Null
  }

  /** An article after normalisation and year derivation. */
  datatype Article = Article(
    title: Option<string>,
    textClean: Option<string>,
    wordCount: int,
    textLen: Option<int>,
    revTs: Option<RevTs>,
    year: Option<int>,
    extra: map<string, Value>)

  /** A dataframe of articles with its column list. */
  datatype Frame = Frame(columns: seq<string>, rows: seq<Article>)
}
