/**
  * The raw-data table: the default column choice, the free-text search
  * over titles and texts, and the projection onto the chosen columns.
  */
module Search {
  import opened Wrappers
  import opened Records
  import opened Aggregate
  import Seqs

  /** The columns offered by default, in this order, when present. */
  const Preferred: seq<string> := ["title", "year", "word_count"]

  /** Default selection: the preferred columns that the frame has, in preferred order. */
  function DefaultColumns(all: seq<string>): (d: seq<string>)
    ensures forall c :: c in d <==> c in Preferred && c in all
    ensures |d| <= |Preferred|
  {
    Seqs.Filter(Preferred, c => c in all)
  }

  /** The default selection is an order-preserving subsequence of the preferred columns. */
  lemma DefaultColumnsOrdered(all: seq<string>)
    ensures Seqs.IsSubsequence(DefaultColumns(all), Preferred)
  {
    Seqs.FilterIsSubsequence(Preferred, c => c in all);
  }

  /** On the display frame of a well-formed collection all three preferred columns are offered. */
  lemma DefaultColumnsOfBundle(columns: seq<string>)
    requires "title" in columns && "word_count" in columns
    ensures DefaultColumns(RawColumns(columns)) == Preferred
  {
    Seqs.FilterKeepsAll(Preferred, c => c in RawColumns(columns));
  }

  /** ASCII upper case folded to lower case; every other character unchanged. */
  function Lower(c: char): (l: char)
    ensures 'A' <= c <= 'Z' ==> l as int == c as int + 32
    ensures !('A' <= c <= 'Z') ==> l == c
  {
    if 'A' <= c <= 'Z' then (c as int + 32) as char else c
  }

  function LowerString(s: string): (l: string)
    ensures |l| == |s|
    ensures forall i :: 0 <= i < |s| ==> l[i] == Lower(s[i])
  {
    seq(|s|, i requires 0 <= i < |s| => Lower(s[i]))
  }

  /** `t` occurs in `s` starting at position `i`. */
  predicate OccursAt(t: string, s: string, i: int)
  {
    0 <= i && i + |t| <= |s| && s[i..i + |t|] == t
  }

  /** Substring test, scanning `s` from the left. */
  function Occurs(t: string, s: string): (b: bool)
    ensures b <==> exists i :: OccursAt(t, s, i)
    decreases |s|
  {
    if |t| > |s| then
      assert forall i :: !OccursAt(t, s, i);
      false
    else if s[..|t|] == t then
      assert OccursAt(t, s, 0);
      true
    else
      var b := Occurs(t, s[1..]);
      assert b ==> exists i :: OccursAt(t, s, i) by {
        if b {
          var i :| OccursAt(t, s[1..], i);
          assert s[1..][i..i + |t|] == s[i + 1..i + 1 + |t|];
          assert OccursAt(t, s, i + 1);
        }
      }
      assert (exists i :: OccursAt(t, s, i)) ==> b by {
        if exists i :: OccursAt(t, s, i) {
          var i :| OccursAt(t, s, i);
          assert i != 0;
          assert s[1..][i - 1..i - 1 + |t|] == s[i..i + |t|];
          assert OccursAt(t, s[1..], i - 1);
        }
      }
      b
  }

  /** `t` occurs in `s` at position `i` when characters are compared without regard to case. */
  predicate OccursAtIgnoringCase(t: string, s: string, i: int)
  {
    0 <= i && i + |t| <= |s| && forall k :: 0 <= k < |t| ==> Lower(s[i + k]) == Lower(t[k])
  }

  /** Searching the lower-cased term in the lower-cased text is matching without regard to case. */
  lemma OccursAtLower(t: string, s: string, i: int)
    ensures OccursAt(LowerString(t), LowerString(s), i) <==> OccursAtIgnoringCase(t, s, i)
  {
    if 0 <= i && i + |t| <= |s| {
      var ls, lt := LowerString(s), LowerString(t);
      if OccursAtIgnoringCase(t, s, i) {
        assert ls[i..i + |t|] == lt by {
          forall k | 0 <= k < |t| ensures ls[i..i + |t|][k] == lt[k] {
            assert ls[i..i + |t|][k] == ls[i + k];
          }
        }
      }
      if OccursAt(lt, ls, i) {
        forall k | 0 <= k < |t| ensures Lower(s[i + k]) == Lower(t[k]) {
          assert ls[i..i + |t|][k] == ls[i + k];
        }
      }
    }
  }

  /**
    * A nullable field contains the term, ignoring case. A null field never
    * matches.
    */
  function ContainsIgnoringCase(field: Option<string>, term: string): (b: bool)
    ensures b <==> field.Some? && exists i :: OccursAtIgnoringCase(term, field.value, i)
  {
    if field.None? then false
    else
      var b := Occurs(LowerString(term), LowerString(field.value));
      assert b <==> exists i :: OccursAtIgnoringCase(term, field.value, i) by {
        forall i ensures OccursAt(LowerString(term), LowerString(field.value), i)
                         <==> OccursAtIgnoringCase(term, field.value, i) {
          OccursAtLower(term, field.value, i);
        }
      }
      b
  }

  /** The search mask: the title matches, or the text does when the frame has a text column. */
  function Matches(a: Article, term: string, hasText: bool): (b: bool)
    ensures b <==>
      || (a.title.Some? && exists i :: OccursAtIgnoringCase(term, a.title.value, i))
      || (hasText && a.textClean.Some? && exists i :: OccursAtIgnoringCase(term, a.textClean.value, i))
  {
    || ContainsIgnoringCase(a.title, term)
    || (hasText && ContainsIgnoringCase(a.textClean, term))
  }

  /** What the table shows after a search: the kept rows and, for a real search, their count. */
  datatype SearchResult = SearchResult(rows: seq<Article>, caption: Option<nat>)

  /**
    * The search: an empty term keeps every row and reports nothing;
    * otherwise exactly the matching rows are kept, in order, and their
    * number is reported. The frame itself is left as it is.
    */
  function SearchRows(raw: Frame, term: string): (r: SearchResult)
    ensures term == "" ==> r.rows == raw.rows && r.caption.None?
    ensures term != "" ==>
      forall a :: a in r.rows <==> a in raw.rows && Matches(a, term, "text_clean" in raw.columns)
    ensures term != "" ==> r.caption == Some(|r.rows|)
    ensures |r.rows| <= |raw.rows|
  {
    if term == "" then SearchResult(raw.rows, None)
    else
      var kept := Seqs.Filter(raw.rows, a => Matches(a, term, "text_clean" in raw.columns));
      SearchResult(kept, Some(|kept|))
  }

  /**
    * A search keeps exactly the rows whose mask is set, in their original
    * order, and the reported count is the number of set mask entries.
    */
  lemma SearchKeepsMaskedRows(raw: Frame, term: string)
    requires term != ""
    ensures var mask := (a: Article) => Matches(a, term, "text_clean" in raw.columns);
      var r := SearchRows(raw, term);
      && Seqs.Embeds(r.rows, raw.rows, Seqs.Positions(raw.rows, mask))
      && (forall i :: 0 <= i < |raw.rows| ==>
            (Matches(raw.rows[i], term, "text_clean" in raw.columns) <==> i in Seqs.Positions(raw.rows, mask)))
      && r.caption == Some(Seqs.Count(raw.rows, mask))
  {
    var mask := (a: Article) => Matches(a, term, "text_clean" in raw.columns);
    Seqs.FilterPositions(raw.rows, mask);
    Seqs.FilterCount(raw.rows, mask);
  }

  /** A search, with or without a term, yields an order-preserving subsequence of the rows. */
  lemma SearchIsSubsequence(raw: Frame, term: string)
    ensures Seqs.IsSubsequence(SearchRows(raw, term).rows, raw.rows)
  {
    if term == "" {
      var idx := seq(|raw.rows|, i requires 0 <= i < |raw.rows| => i);
      assert Seqs.Embeds(raw.rows, raw.rows, idx);
    } else {
      Seqs.FilterIsSubsequence(raw.rows, a => Matches(a, term, "text_clean" in raw.columns));
    }
  }

  /** Matching ignores case on both sides: "Paris" is found by "pAR". */
  lemma SearchIgnoresCaseExample(a: Article)
    requires a.title == Some("Paris")
    ensures Matches(a, "pAR", false)
  {
    assert LowerString("Paris")[..3] == "par";
    assert LowerString("pAR") == "par";
    assert OccursAt("par", LowerString("Paris"), 0);
  }

  /** The table shown: a warning when no column is chosen, else the chosen columns of the kept rows. */
  datatype Shown = NoColumnsWarning | Table(columns: seq<string>, cells: seq<seq<Value>>)

  /**
    * The table view: search, then project onto the selected columns (which
    * are always columns of the frame, as the picker offers only those).
    */
  function Display(raw: Frame, term: string, selected: seq<string>): (r: Shown)
    requires forall c :: c in selected ==> c in raw.columns
    ensures r.NoColumnsWarning? <==> |selected| == 0
    ensures r.Table? ==>
      var kept := SearchRows(raw, term).rows;
      && r.columns == selected
      && |r.cells| == |kept|
      && forall i :: 0 <= i < |kept| ==>
           |r.cells[i]| == |selected|
           && forall j :: 0 <= j < |selected| ==> r.cells[i][j] == RawCell(kept[i], selected[j])
  {
    if |selected| == 0 then NoColumnsWarning
    else
      var kept := SearchRows(raw, term).rows;
      Table(selected, seq(|kept|, i requires 0 <= i < |kept| =>
        seq(|selected|, j requires 0 <= j < |selected| => RawCell(kept[i], selected[j]))))
  }
}
