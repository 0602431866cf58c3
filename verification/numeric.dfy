/**
  * The numeric-field cast used when loading articles: the stored value is
  * cast to a string, every ',' is deleted, and the rest is cast to an
  * integer (null when it is not an integer literal).
  */
module Numeric {
  import opened Wrappers
  import opened Records
  import Seqs

  predicate IsDigit(c: char)
  {
    '0' <= c <= '9'
  }

  function DigitValue(c: char): nat
    requires IsDigit(c)
  {
    (c as int) - ('0' as int)
  }

  function DigitChar(d: nat): (c: char)
    requires d < 10
    ensures IsDigit(c) && DigitValue(c) == d
  {
    ('0' as int + d) as char
  }

  predicate AllDigits(s: string)
  {
    forall i :: 0 <= i < |s| ==> IsDigit(s[i])
  }

  /** The value of a decimal digit string, most significant digit first. */
  function DigitsValue(s: string): nat
    requires AllDigits(s)
  {
    if |s| == 0 then 0 else DigitsValue(s[..|s| - 1]) * 10 + DigitValue(s[|s| - 1])
  }

  /** The decimal spelling of a natural number, without leading zeros. */
  function NatToString(n: nat): (s: string)
    ensures |s| > 0 && AllDigits(s)
    ensures DigitsValue(s) == n
    ensures s[0] != '0' || n == 0
  {
    if n < 10 then [DigitChar(n)]
    else
      var t, c := NatToString(n / 10), DigitChar(n % 10);
      assert (t + [c])[..|t|] == t;
      t + [c]
  }

  /** How an integer field prints when it is cast to a string. */
  function IntToString(i: int): (s: string)
    ensures ',' !in s
  {
    if i < 0 then "-" + NatToString(-i) else NatToString(i)
  }

  /** The strings the integer cast accepts: an optional '-' and at least one digit. */
  predicate IsIntLiteral(s: string)
  {
    || (|s| > 0 && AllDigits(s))
    || (|s| > 1 && s[0] == '-' && AllDigits(s[1..]))
  }

  /** The integer cast of a string; null for anything but an integer literal. */
  function ParseInt(s: string): (r: Option<int>)
    ensures r.Some? <==> IsIntLiteral(s)
    ensures r.Some? && s[0] != '-' ==> r.value >= 0
  {
    if |s| > 0 && AllDigits(s) then Some(DigitsValue(s))
    else if |s| > 1 && s[0] == '-' && AllDigits(s[1..]) then Some(-(DigitsValue(s[1..]) as int))
    else None
  }

  /** A leading zero does not change the value of a digit string. */
  lemma {:induction false} LeadingZeroDigits(s: string)
    requires AllDigits(s)
    ensures AllDigits("0" + s) && DigitsValue("0" + s) == DigitsValue(s)
  {
    var z := "0" + s;
    assert AllDigits(z) by {
      forall i | 0 <= i < |z| ensures IsDigit(z[i]) {
        if i > 0 {
          assert z[i] == s[i - 1];
        }
      }
    }
    if |s| == 0 {
      assert z[..0] == "";
    } else {
      var init := s[..|s| - 1];
      assert z[..|z| - 1] == "0" + init;
      LeadingZeroDigits(init);
    }
  }

  /**
    * Leading zeros are ignored by the integer cast, with or without a sign,
    * and "-0" is 0. With `ParseIntToString` this fixes the value of every
    * integer literal.
    */
  lemma ParseIntLeadingZero(s: string)
    requires |s| > 0 && AllDigits(s)
    ensures ParseInt("0" + s) == ParseInt(s)
    ensures ParseInt("-0" + s) == ParseInt("-" + s)
    ensures ParseInt("-0") == ParseInt("0") == Some(0)
  {
    LeadingZeroDigits(s);
    assert ("-0" + s)[1..] == "0" + s;
    assert ("-" + s)[1..] == s;
    assert !IsDigit(("-0" + s)[0]) && !IsDigit(("-" + s)[0]);
    assert "-0"[1..] == "0" && !IsDigit("-0"[0]);
    assert DigitsValue("0") == 0 by {
      assert "0"[..0] == "";
    }
  }

  /** Parsing the printed form of an integer gives the integer back. */
  lemma ParseIntToString(i: int)
    ensures ParseInt(IntToString(i)) == Some(i)
  {
    if i < 0 {
      var s := IntToString(i);
      assert s[1..] == NatToString(-i);
      assert !IsDigit(s[0]);
    }
  }

  /** Deletes every ',' (the thousands separator) from a string. */
  function StripCommas(s: string): (r: string)
    ensures ',' !in r
    ensures forall c :: c != ',' ==> (c in r <==> c in s)
    ensures ',' !in s ==> r == s
    ensures |r| <= |s|
  {
    if |s| == 0 then ""
    else (if s[0] == ',' then "" else [s[0]]) + StripCommas(s[1..])
  }

  predicate NotComma(c: char)
  {
    c != ','
  }

  /**
    * Deleting the separators is the order-preserving filter of the
    * characters other than ',': exactly those positions survive, in order.
    */
  lemma {:induction false} StripCommasIsFilter(s: string)
    ensures StripCommas(s) == Seqs.Filter(s, NotComma)
    ensures Seqs.Embeds(StripCommas(s), s, Seqs.Positions(s, NotComma))
    ensures forall i :: 0 <= i < |s| ==> (s[i] != ',' <==> i in Seqs.Positions(s, NotComma))
  {
    if |s| > 0 {
      assert s == [s[0]] + s[1..];
      StripCommasIsFilter(s[1..]);
      Seqs.FilterCons(s[0], s[1..], NotComma);
    }
    Seqs.FilterPositions(s, NotComma);
  }

  /** The string cast of a stored field; null stays null. */
  function CastToString(v: Value): (r: Option<string>)
    ensures r.None? <==> v.Null?
    ensures v.Text? ==> r == Some(v.s)
    ensures v.Int? ==> ',' !in r.value && ParseInt(r.value) == Some(v.i)
  {
    match v
    case Null => None
    case Int(i) =>
      ParseIntToString(i);
      Some(IntToString(i))
    case Text(s) => Some(s)
  }

  /**
    * Cast to string, delete the separators, cast to integer. An integer
    * field comes back unchanged; text comes back as the integer it spells
    * once its commas are gone, or null.
    */
  function CleanInt(v: Value): (r: Option<int>)
    ensures v.Null? ==> r.None?
    ensures v.Int? ==> r == Some(v.i)
    ensures v.Text? ==> (r.Some? <==> IsIntLiteral(StripCommas(v.s)))
    ensures v.Text? && r.Some? ==> r == ParseInt(StripCommas(v.s))
  {
    assert v.Int? ==> ParseInt(IntToString(v.i)) == Some(v.i) by {
      if v.Int? {
        ParseIntToString(v.i);
      }
    }
    match CastToString(v)
    case None => None
    case Some(s) => ParseInt(StripCommas(s))
  }

  /** `word_count` normalisation: the cleaned integer, with null replaced by 0. */
  function NormaliseWordCount(v: Value): (r: int)
    ensures v.Int? ==> r == v.i
    ensures CleanInt(v).None? ==> r == 0
    ensures CleanInt(v).Some? ==> r == CleanInt(v).value
  {
    CleanInt(v).GetOr(0)
  }

  /**
    * `text_len` normalisation: the same cleaning as `word_count`, except
    * that a null result stays null instead of becoming 0.
    */
  function NormaliseTextLen(v: Value): (r: Option<int>)
    ensures v.Null? ==> r.None?
    ensures v.Int? ==> r == Some(v.i)
    ensures v.Text? ==> (r.None? <==> !IsIntLiteral(StripCommas(v.s)))
    ensures v.Text? && r.Some? ==> r == ParseInt(StripCommas(v.s))
    ensures r.Some? ==> r.value == NormaliseWordCount(v)
    ensures r.None? ==> NormaliseWordCount(v) == 0
  {
    CleanInt(v)
  }

  /** Normalising an already normalised `word_count` changes nothing. */
  lemma WordCountIdempotent(v: Value)
    ensures NormaliseWordCount(Int(NormaliseWordCount(v))) == NormaliseWordCount(v)
  {
  }

  /** Normalising an already normalised `text_len` changes nothing, null included. */
  lemma TextLenIdempotent(v: Value)
    ensures var n := NormaliseTextLen(v);
      NormaliseTextLen(OptInt(n)) == n
  {
  }

  lemma StripExample()
    ensures StripCommas("1,234") == "1234"
  {
    assert ',' !in "234";
    assert StripCommas("234") == "234";
    assert "1,234"[1..] == ",234" && ",234"[1..] == "234";
  }

  lemma StripMalformedExample()
    ensures StripCommas("12,a") == "12a"
  {
    assert ',' !in "a";
    assert StripCommas("a") == "a";
    assert "12,a"[1..] == "2,a" && "2,a"[1..] == ",a" && ",a"[1..] == "a";
  }

  lemma DigitsExample()
    ensures ParseInt("1234") == Some(1234)
    ensures ParseInt("12a") == None
  {
    assert "1234"[..3] == "123" && "123"[..2] == "12" && "12"[..1] == "1";
    assert AllDigits("1234") && DigitsValue("1234") == 1234;
    assert !IsDigit("12a"[2]);
  }

  /** A separator-formatted count is read as the number it spells. */
  lemma ThousandsSeparatorExample()
    ensures NormaliseWordCount(Text("1,234")) == 1234
  {
    StripExample();
    DigitsExample();
  }

  /** A count that is not an integer once its commas are gone is null, then 0. */
  lemma MalformedCountExample()
    ensures NormaliseTextLen(Text("12,a")) == None
    ensures NormaliseWordCount(Text("12,a")) == 0
  {
    StripMalformedExample();
    DigitsExample();
  }
}
