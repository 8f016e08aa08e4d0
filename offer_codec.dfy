/**
 * The stored form of a candidate's offers column: `JSON.stringify` of an
 * integer list on insert, `JSON.parse` of that text when rows are listed.
 * JSON.stringify writes a list of integers without spaces, as `[1,2]`, each
 * number in shortest decimal form with a leading `-` when negative.
 */
module OfferCodec {
  import opened Wrappers

  predicate IsDigit(c: char) { '0' <= c <= '9' }

  predicate AllDigits(s: string) { forall i :: 0 <= i < |s| ==> IsDigit(s[i]) }

  function DigitChar(d: nat): (c: char)
    requires d < 10
    ensures IsDigit(c) && c as int - '0' as int == d
  {
    ('0' as int + d) as char
  }

  function DigitValue(c: char): (d: nat)
    requires IsDigit(c)
    ensures d < 10
  {
    c as int - '0' as int
  }

  /** Decimal digits of `n`, most significant first, with no leading zero. */
  function Digits(n: nat): (s: string)
    ensures |s| >= 1 && AllDigits(s)
    ensures s[0] == '0' <==> n == 0
    ensures n == 0 ==> s == "0"
    decreases n
  {
    if n < 10 then [DigitChar(n)] else Digits(n / 10) + [DigitChar(n % 10)]
  }

  /** The value of a string of decimal digits (the empty string is 0). */
  function DigitsValue(s: string): nat
    requires AllDigits(s)
    decreases |s|
  {
    if s == [] then 0 else DigitsValue(s[..|s| - 1]) * 10 + DigitValue(s[|s| - 1])
  }

  /** How JSON.stringify writes one integer. */
  function EncodeInt(n: int): (s: string)
    ensures |s| >= 1 && ',' !in s
  {
    if n < 0 then "-" + Digits(-n) else Digits(n)
  }

  /**
   * How JSON.parse reads one number, restricted to JSON's integer grammar
   * `-? (0 | [1-9][0-9]*)`. Anything else is a syntax error.
   */
  function ParseInt(s: string): Option<int>
  {
    if |s| >= 1 && s[0] == '-' then
      match ParseUnsigned(s[1..])
      case Some(n) => Some(-n)
      case None => None
    else
      ParseUnsigned(s)
  }

  function ParseUnsigned(s: string): Option<int>
  {
    if s == [] || !AllDigits(s) || (|s| > 1 && s[0] == '0') then None
    else Some(DigitsValue(s))
  }

  /** The numbers of `xs` written one after another, separated by commas. */
  function JoinInts(xs: seq<int>): string
  {
    if xs == [] then ""
    else if |xs| == 1 then EncodeInt(xs[0])
    else EncodeInt(xs[0]) + "," + JoinInts(xs[1..])
  }

  /** `JSON.stringify(offers)` for an array of integers. */
  function EncodeOffers(xs: seq<int>): (s: string)
    ensures |s| >= 2 && s[0] == '[' && s[|s| - 1] == ']'
  {
    "[" + JoinInts(xs) + "]"
  }

  /** The pieces of `s` between commas; a string without a comma is one piece. */
  function Split(s: string): (r: seq<string>)
    ensures |r| >= 1
    decreases |s|
  {
    if s == [] then [[]]
    else
      var rest := Split(s[1..]);
      if s[0] == ',' then [[]] + rest else [[s[0]] + rest[0]] + rest[1..]
  }

  function ParseAll(pieces: seq<string>): (r: Option<seq<int>>)
    ensures r.Some? ==> |r.value| == |pieces|
    decreases |pieces|
  {
    if pieces == [] then Some([])
    else
      match (ParseInt(pieces[0]), ParseAll(pieces[1..]))
      case (Some(n), Some(ns)) => Some([n] + ns)
      case _ => None
  }

  /**
   * `JSON.parse` of an offers column, for texts that denote a flat array of
   * integers written without white space; None stands for the SyntaxError it
   * throws on anything else.
   */
  function DecodeOffers(s: string): (r: Option<seq<int>>)
    ensures r.Some? ==> |s| >= 2 && s[0] == '[' && s[|s| - 1] == ']'
    ensures r == Some([]) <==> s == "[]"
  {
    if |s| < 2 || s[0] != '[' || s[|s| - 1] != ']' then None
    else
      var inner := s[1..|s| - 1];
      if inner == [] then Some([]) else ParseAll(Split(inner))
  }

  // ---------------------------------------------------------------------------
  // Round trip: JSON.parse(JSON.stringify(offers)) gives back the same list.
  // ---------------------------------------------------------------------------

  lemma {:induction false} DigitsValueOfDigits(n: nat)
    ensures DigitsValue(Digits(n)) == n
    decreases n
  {
    if n < 10 {
      assert Digits(n)[..0] == [];
    } else {
      var d := Digits(n / 10);
      DigitsValueOfDigits(n / 10);
      assert (d + [DigitChar(n % 10)])[..|d|] == d;
    }
  }

  lemma ParseEncodeInt(n: int)
    ensures ParseInt(EncodeInt(n)) == Some(n)
  {
    if n < 0 {
      DigitsValueOfDigits(-n);
      assert ("-" + Digits(-n))[1..] == Digits(-n);
    } else {
      DigitsValueOfDigits(n);
    }
  }

  /** Splitting after a comma-free prefix glues that prefix to the first piece. */
  lemma {:induction false} SplitCommaFreePrefix(a: string, t: string)
    requires ',' !in a
    ensures Split(a + t) == [a + Split(t)[0]] + Split(t)[1..]
    decreases |a|
  {
    if a == [] {
      var r := Split(t);
      assert a + t == t && a + r[0] == r[0];
      assert [r[0]] + r[1..] == r;
    } else {
      assert (a + t)[1..] == a[1..] + t;
      SplitCommaFreePrefix(a[1..], t);
      assert [a[0]] + (a[1..] + Split(t)[0]) == a + Split(t)[0];
    }
  }

  function EncodeEach(xs: seq<int>): (r: seq<string>)
    ensures |r| == |xs|
  {
    if xs == [] then [] else [EncodeInt(xs[0])] + EncodeEach(xs[1..])
  }

  lemma {:induction false} SplitJoin(xs: seq<int>)
    requires xs != []
    ensures Split(JoinInts(xs)) == EncodeEach(xs)
    decreases |xs|
  {
    var e := EncodeInt(xs[0]);
    if |xs| == 1 {
      SplitCommaFreePrefix(e, "");
      assert e + "" == e;
    } else {
      var rest := JoinInts(xs[1..]);
      SplitCommaFreePrefix(e, "," + rest);
      assert e + "," + rest == e + ("," + rest);
      assert ("," + rest)[1..] == rest;
      assert Split("," + rest) == [[]] + Split(rest);
      assert e + [] == e;
      SplitJoin(xs[1..]);
    }
  }

  lemma {:induction false} ParseAllEncodeEach(xs: seq<int>)
    ensures ParseAll(EncodeEach(xs)) == Some(xs)
    decreases |xs|
  {
    if xs != [] {
      ParseEncodeInt(xs[0]);
      ParseAllEncodeEach(xs[1..]);
      assert EncodeEach(xs)[1..] == EncodeEach(xs[1..]);
      assert [xs[0]] + xs[1..] == xs;
    }
  }

  /** The offers decoded from a stored row are the offers that were stored. */
  lemma {:induction false} DecodeEncodeOffers(xs: seq<int>)
    ensures DecodeOffers(EncodeOffers(xs)) == Some(xs)
  {
    var s := EncodeOffers(xs);
    assert s[1..|s| - 1] == JoinInts(xs);
    if xs != [] {
      assert |JoinInts(xs)| >= 1 by {
        if |xs| > 1 { assert JoinInts(xs) == EncodeInt(xs[0]) + "," + JoinInts(xs[1..]); }
      }
      SplitJoin(xs);
      ParseAllEncodeEach(xs);
    }
  }
}
