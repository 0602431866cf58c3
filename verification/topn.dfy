/**
  * The ten longest articles (`select("title", "word_count")
  * .orderBy(word_count desc).limit(10)`) and the longest-article KPI.
  */
module TopN {
  import opened Wrappers
  import opened Records

  /** One row of the top-ten table. */
  datatype Entry = Entry(title: Option<string>, wordCount: int)

  /** How many rows the top table keeps. */
  const Limit: nat := 10

  predicate NonIncreasing(s: seq<Entry>)
  {
    forall i, j :: 0 <= i < j < |s| ==> s[i].wordCount >= s[j].wordCount
  }

  /** The `(title, word_count)` projection of the articles, in order. */
  function Entries(rows: seq<Article>): (e: seq<Entry>)
    ensures |e| == |rows|
    ensures forall i :: 0 <= i < |rows| ==> e[i] == Entry(rows[i].title, rows[i].wordCount)
  {
    seq(|rows|, i requires 0 <= i < |rows| => Entry(rows[i].title, rows[i].wordCount))
  }

  /** Inserts `e` into a non-increasing sequence, ahead of the entries it ties with. */
  function InsertDesc(e: Entry, s: seq<Entry>): (r: seq<Entry>)
    requires NonIncreasing(s)
    ensures NonIncreasing(r)
    ensures multiset(r) == multiset(s) + multiset{e}
    ensures |r| == |s| + 1
    ensures r[0] == e || (|s| > 0 && r[0] == s[0])
  {
    if |s| == 0 then [e]
    else if e.wordCount >= s[0].wordCount then [e] + s
    else
      var r' := InsertDesc(e, s[1..]);
      assert s == [s[0]] + s[1..];
      assert s[0].wordCount >= r'[0].wordCount;
      [s[0]] + r'
  }

  /** A stable sort by descending `word_count`: a permutation of the input. */
  function SortDesc(s: seq<Entry>): (r: seq<Entry>)
    ensures NonIncreasing(r)
    ensures multiset(r) == multiset(s)
  {
    if |s| == 0 then []
    else
      assert s == [s[0]] + s[1..];
      InsertDesc(s[0], SortDesc(s[1..]))
  }

  /**
    * The top-ten table: min(10, n) entries drawn from the articles, in
    * non-increasing `word_count` order, and no article left out has a
    * larger `word_count` than the smallest one kept.
    */
  function Top10(rows: seq<Article>): (t: seq<Entry>)
    ensures |t| == if |rows| < Limit then |rows| else Limit
    ensures NonIncreasing(t)
    ensures multiset(t) <= multiset(Entries(rows))
    ensures forall e :: e in multiset(Entries(rows)) - multiset(t) ==>
      |t| > 0 && e.wordCount <= t[|t| - 1].wordCount
  {
    var sorted := SortDesc(Entries(rows));
    assert |sorted| == |rows| by {
      assert |multiset(sorted)| == |multiset(Entries(rows))|;
    }
    var k := if |rows| < Limit then |rows| else Limit;
    PrefixDominates(sorted, k);
    sorted[..k]
  }

  /** The entries a prefix of a non-increasing sequence leaves out are no larger than its last one. */
  lemma PrefixDominates(s: seq<Entry>, k: nat)
    requires NonIncreasing(s) && k <= |s|
    requires |s| > 0 ==> k > 0
    ensures multiset(s[..k]) <= multiset(s)
    ensures forall e :: e in multiset(s) - multiset(s[..k]) ==> k > 0 && e.wordCount <= s[k - 1].wordCount
  {
    assert s == s[..k] + s[k..];
    assert multiset(s) == multiset(s[..k]) + multiset(s[k..]);
    forall e | e in multiset(s) - multiset(s[..k])
      ensures k > 0 && e.wordCount <= s[k - 1].wordCount
    {
      assert e in s[k..];
      var j :| 0 <= j < |s[k..]| && s[k..][j] == e;
      assert s[k + j] == e;
    }
  }

  /** The largest `word_count` of a table, 0 for an empty one (`max()` guarded by `empty`). */
  function MaxWordCount(t: seq<Entry>): (m: int)
    ensures |t| == 0 ==> m == 0
    ensures |t| > 0 ==> (exists i :: 0 <= i < |t| && t[i].wordCount == m)
    ensures forall i :: 0 <= i < |t| ==> t[i].wordCount <= m
  {
    if |t| == 0 then 0
    else if |t| == 1 then t[0].wordCount
    else
      var m := MaxWordCount(t[1..]);
      assert forall i :: 1 <= i < |t| ==> t[i] == t[1..][i - 1];
      if t[0].wordCount >= m then t[0].wordCount else m
  }

  /** No article is longer than the longest entry of the top table. */
  lemma TopDominates(rows: seq<Article>, i: nat)
    requires i < |rows|
    ensures rows[i].wordCount <= MaxWordCount(Top10(rows))
  {
    var t, es := Top10(rows), Entries(rows);
    var e := es[i];
    assert e in multiset(es);
    if e in multiset(t) {
      assert e in t;
    } else {
      assert e in multiset(es) - multiset(t);
      assert t[|t| - 1] in t;
    }
  }

  /** The longest entry of a non-empty top table is the length of some article. */
  lemma TopWitness(rows: seq<Article>)
    requires |rows| > 0
    ensures exists i :: 0 <= i < |rows| && rows[i].wordCount == MaxWordCount(Top10(rows))
  {
    var t, es := Top10(rows), Entries(rows);
    var j :| 0 <= j < |t| && t[j].wordCount == MaxWordCount(t);
    assert t[j] in multiset(t);
    assert t[j] in multiset(es);
    assert t[j] in es;
    var i :| 0 <= i < |es| && es[i] == t[j];
    assert rows[i].wordCount == MaxWordCount(t);
  }

  /**
    * The longest-article KPI taken over the top ten is the longest
    * `word_count` of the whole collection (0 when it is empty).
    */
  lemma {:induction false} MaxOfTopIsGlobalMax(rows: seq<Article>)
    ensures var m := MaxWordCount(Top10(rows));
      && (|rows| == 0 ==> m == 0)
      && (forall i :: 0 <= i < |rows| ==> rows[i].wordCount <= m)
      && (|rows| > 0 ==> exists i :: 0 <= i < |rows| && rows[i].wordCount == m)
  {
    forall i | 0 <= i < |rows| ensures rows[i].wordCount <= MaxWordCount(Top10(rows)) {
      TopDominates(rows, i);
    }
    if |rows| > 0 {
      TopWitness(rows);
    }
  }
}
