/** Sequence operations shared by the row filters of the dashboard. */
module Seqs {
  import opened Wrappers

  /** The elements of `s` that satisfy `p`, in their original order. */
  function Filter<T(!new)>(s: seq<T>, p: T -> bool): (r: seq<T>)
    ensures |r| <= |s|
    ensures forall x :: x in r <==> x in s && p(x)
  {
    if |s| == 0 then []
    else
      var init := s[..|s| - 1];
      assert s == init + [s[|s| - 1]];
      Filter(init, p) + (if p(s[|s| - 1]) then [s[|s| - 1]] else [])
  }

  /** Filtering one more element appends it when it satisfies `p`. */
  lemma FilterSnoc<T(!new)>(s: seq<T>, x: T, p: T -> bool)
    ensures Filter(s + [x], p) == Filter(s, p) + (if p(x) then [x] else [])
  {
    assert (s + [x])[..|s|] == s;
  }

  /** Filtering a sequence with one more element in front prepends it when it satisfies `p`. */
  lemma {:induction false} FilterCons<T(!new)>(x: T, s: seq<T>, p: T -> bool)
    ensures Filter([x] + s, p) == (if p(x) then [x] else []) + Filter(s, p)
  {
    var px: seq<T> := if p(x) then [x] else [];
    if |s| == 0 {
      assert [x] + s == [] + [x];
      FilterSnoc([], x, p);
    } else {
      var init, last := s[..|s| - 1], s[|s| - 1];
      var pl: seq<T> := if p(last) then [last] else [];
      assert s == init + [last];
      assert [x] + s == ([x] + init) + [last];
      calc {
        Filter([x] + s, p);
        Filter(([x] + init) + [last], p);
        { FilterSnoc([x] + init, last, p); }
        Filter([x] + init, p) + pl;
        { FilterCons(x, init, p); }
        (px + Filter(init, p)) + pl;
        px + (Filter(init, p) + pl);
        { FilterSnoc(init, last, p); }
        px + Filter(init + [last], p);
        px + Filter(s, p);
      }
    }
  }

  /** The positions of `s` whose elements satisfy `p`, ascending. */
  function Positions<T>(s: seq<T>, p: T -> bool): seq<int>
  {
    if |s| == 0 then []
    else Positions(s[..|s| - 1], p) + (if p(s[|s| - 1]) then [|s| - 1] else [])
  }

  /** How many elements of `s` satisfy `p`. */
  function Count<T>(s: seq<T>, p: T -> bool): nat
  {
    if |s| == 0 then 0
    else Count(s[..|s| - 1], p) + (if p(s[|s| - 1]) then 1 else 0)
  }

  /** `idx` lists strictly increasing positions of `s` whose elements spell `r`. */
  ghost predicate Embeds<T>(r: seq<T>, s: seq<T>, idx: seq<int>)
  {
    && |idx| == |r|
    && (forall j :: 0 <= j < |idx| ==> 0 <= idx[j] < |s| && r[j] == s[idx[j]])
    && (forall j, k :: 0 <= j < k < |idx| ==> idx[j] < idx[k])
  }

  /** `r` is obtained from `s` by deleting elements, without reordering the rest. */
  ghost predicate IsSubsequence<T>(r: seq<T>, s: seq<T>)
  {
    exists idx :: Embeds(r, s, idx)
  }

  /** An embedding survives appending an element to the source, used or not. */
  lemma EmbedsSnoc<T>(r: seq<T>, s: seq<T>, idx: seq<int>, x: T)
    requires Embeds(r, s, idx)
    ensures Embeds(r, s + [x], idx)
    ensures Embeds(r + [x], s + [x], idx + [|s|])
  {
    var s', r', idx' := s + [x], r + [x], idx + [|s|];
    forall j | 0 <= j < |idx'|
      ensures 0 <= idx'[j] < |s'| && r'[j] == s'[idx'[j]]
    {
      if j < |idx| {
        assert idx'[j] == idx[j] && r'[j] == r[j];
      }
    }
  }

  /**
    * Filtering keeps exactly the positions whose element satisfies `p`,
    * in ascending order: the result is an order-preserving subsequence
    * and nothing satisfying `p` is dropped.
    */
  lemma {:induction false} FilterPositions<T(!new)>(s: seq<T>, p: T -> bool)
    ensures Embeds(Filter(s, p), s, Positions(s, p))
    ensures forall i :: 0 <= i < |s| ==> (p(s[i]) <==> i in Positions(s, p))
  {
    if |s| > 0 {
      var init, last := s[..|s| - 1], s[|s| - 1];
      assert s == init + [last];
      FilterPositions(init, p);
      var idx0 := Positions(init, p);
      EmbedsSnoc(Filter(init, p), init, idx0, last);
    }
  }

  /** The result of a filter is an order-preserving subsequence of its input. */
  lemma FilterIsSubsequence<T(!new)>(s: seq<T>, p: T -> bool)
    ensures IsSubsequence(Filter(s, p), s)
  {
    FilterPositions(s, p);
  }

  /** The number of rows a filter keeps is the number of rows satisfying its predicate. */
  lemma {:induction false} FilterCount<T(!new)>(s: seq<T>, p: T -> bool)
    ensures |Filter(s, p)| == Count(s, p)
  {
    if |s| > 0 {
      FilterCount(s[..|s| - 1], p);
    }
  }

  /** A filter whose predicate holds of every element returns its input unchanged. */
  lemma {:induction false} FilterKeepsAll<T(!new)>(s: seq<T>, p: T -> bool)
    requires forall x :: x in s ==> p(x)
    ensures Filter(s, p) == s
  {
    if |s| > 0 {
      var init := s[..|s| - 1];
      assert s == init + [s[|s| - 1]];
      FilterKeepsAll(init, p);
    }
  }

  /**
    * The elements of `s` whose flag in `keep` is set, in order: the outcome
    * of a Bernoulli sample once its coin flips are fixed.
    */
  function Pick<T>(s: seq<T>, keep: seq<bool>): (r: seq<T>)
    requires |keep| == |s|
    ensures |r| <= |s|
    ensures forall x :: x in r ==> x in s
    ensures forall i :: 0 <= i < |s| && keep[i] ==> s[i] in r
  {
    if |s| == 0 then []
    else
      var init := s[..|s| - 1];
      assert s == init + [s[|s| - 1]];
      Pick(init, keep[..|s| - 1]) + (if keep[|s| - 1] then [s[|s| - 1]] else [])
  }

  /** Picking by coin flips yields an order-preserving subsequence. */
  lemma {:induction false} PickIsSubsequence<T>(s: seq<T>, keep: seq<bool>)
    requires |keep| == |s|
    ensures IsSubsequence(Pick(s, keep), s)
  {
    if |s| > 0 {
      var init := s[..|s| - 1];
      PickIsSubsequence(init, keep[..|s| - 1]);
      var last := s[|s| - 1];
      assert s == init + [last];
      var idx0 :| Embeds(Pick(init, keep[..|s| - 1]), init, idx0);
      EmbedsSnoc(Pick(init, keep[..|s| - 1]), init, idx0, last);
      if keep[|s| - 1] {
        assert Embeds(Pick(s, keep), s, idx0 + [|init|]);
      } else {
        assert Embeds(Pick(s, keep), s, idx0);
      }
    } else {
      assert Embeds(Pick(s, keep), s, []);
    }
  }

  /** An element `Pick` returns sits at some position whose flag is set. */
  lemma {:induction false} PickFlags<T>(s: seq<T>, keep: seq<bool>, x: T)
    requires |keep| == |s|
    requires x in Pick(s, keep)
    ensures exists i :: 0 <= i < |s| && keep[i] && s[i] == x
  {
    var init := s[..|s| - 1];
    if x in Pick(init, keep[..|s| - 1]) {
      PickFlags(init, keep[..|s| - 1], x);
      var i :| 0 <= i < |init| && keep[..|s| - 1][i] && init[i] == x;
      assert keep[i] && s[i] == x;
    } else {
      assert keep[|s| - 1] && s[|s| - 1] == x;
    }
  }

  /** `Pick` keeps exactly as many elements as there are set flags. */
  lemma {:induction false} PickCount<T>(s: seq<T>, keep: seq<bool>)
    requires |keep| == |s|
    ensures |Pick(s, keep)| == Count(keep, IsSet)
  {
    if |s| > 0 {
      PickCount(s[..|s| - 1], keep[..|s| - 1]);
    }
  }

  /** A flag that is set: the coin flip kept its row. */
  predicate IsSet(b: bool)
  {
    b
  }

  /** The non-null entries of a nullable column, in order (`dropna`). */
  function Somes<T(!new)>(s: seq<Option<T>>): (r: seq<T>)
    ensures |r| <= |s|
    ensures forall x :: x in r <==> Some(x) in s
  {
    if |s| == 0 then []
    else
      var init := s[..|s| - 1];
      assert s == init + [s[|s| - 1]];
      Somes(init) + (match s[|s| - 1] case Some(x) => [x] case None => [])
  }

  /** Dropping the nulls of one more entry appends its value when it is present. */
  lemma SomesSnoc<T(!new)>(s: seq<Option<T>>, x: Option<T>)
    ensures Somes(s + [x]) == Somes(s) + (match x case Some(v) => [v] case None => [])
  {
    assert (s + [x])[..|s|] == s;
  }

  /** An entry of a nullable sequence that is present. */
  predicate IsPresent<T>(o: Option<T>)
  {
    o.Some?
  }

  /** Every element wrapped as a present entry. */
  function Present<T>(r: seq<T>): (w: seq<Option<T>>)
    ensures |w| == |r|
    ensures forall j :: 0 <= j < |r| ==> w[j] == Some(r[j])
  {
    seq(|r|, j requires 0 <= j < |r| => Some(r[j]))
  }

  /**
    * Dropping the nulls keeps exactly the present positions, in ascending
    * order and each once: no value is reordered, duplicated or merged.
    */
  lemma {:induction false} SomesPositions<T(!new)>(s: seq<Option<T>>)
    ensures Embeds(Present(Somes(s)), s, Positions(s, IsPresent))
    ensures forall i :: 0 <= i < |s| ==> (s[i].Some? <==> i in Positions(s, IsPresent))
  {
    if |s| > 0 {
      var init, last := s[..|s| - 1], s[|s| - 1];
      assert s == init + [last];
      SomesPositions(init);
      var idx0 := Positions(init, IsPresent);
      EmbedsSnoc(Present(Somes(init)), init, idx0, last);
      SomesSnoc(init, last);
      if last.Some? {
        assert Present(Somes(s)) == Present(Somes(init)) + [last];
      } else {
        assert Present(Somes(s)) == Present(Somes(init));
      }
    }
  }
}
