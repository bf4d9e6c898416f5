/** Reading decimal text back: a specification-only parser that inverts the
    renderer, used to state what the rendered text means. */
module Numerals {
  import opened BigNumbers
  import opened Print

  datatype Option<T> = None | Some(value: T)

  predicate AllDigitChars(t: string) {
    forall k :: 0 <= k < |t| ==> IsDigitChar(t[k])
  }

  /** The value of a decimal numeral written most significant first. */
  function DecimalValue(t: string): int {
    if |t| == 0 then 0 else 10 * DecimalValue(t[..|t| - 1]) + CharValue(t[|t| - 1])
  }

  /** The value of an optionally signed numeral. */
  function NumeralValue(s: string): int {
    if |s| > 0 && s[0] == '-' then -DecimalValue(s[1..]) else DecimalValue(s)
  }

  /** The digits a numeral's characters stand for, least significant first. */
  function DigitsOf(t: string): (ds: seq<int>)
    ensures |ds| == |t|
  {
    if |t| == 0 then [] else [CharValue(t[|t| - 1])] + DigitsOf(t[..|t| - 1])
  }

  predicate IsUnsignedNumeral(t: string) {
    t == "0" || (|t| > 0 && '1' <= t[0] <= '9' && AllDigitChars(t))
  }

  /** The text pattern -?(0|[1-9][0-9]*). */
  predicate IsNumeral(s: string) {
    if |s| > 0 && s[0] == '-' then IsUnsignedNumeral(s[1..]) else IsUnsignedNumeral(s)
  }

  /** Parses text of the pattern -?(0|[1-9][0-9]*); "0" reads as the empty digit sequence. */
  function Parse(s: string): Option<BigNumber> {
    if !IsNumeral(s) then None
    else
      var neg := |s| > 0 && s[0] == '-';
      var t := if neg then s[1..] else s;
      Some(BigNumber(neg, if t == "0" then [] else DigitsOf(t)))
  }

  /** The digit text reads back as the magnitude it was rendered from. */
  lemma {:induction false} DigitTextValue(ds: seq<int>)
    requires DigitsInRange(ds)
    ensures DecimalValue(DigitText(ds)) == Magnitude(ds)
  {
    if ds != [] {
      var t := DigitText(ds);
      assert t[..|t| - 1] == DigitText(ds[1..]);
      DigitTextValue(ds[1..]);
      MagnitudeHorner(ds);
    }
  }

  /** The rendered text denotes the number's value (a negative zero reads as 0). */
  lemma RenderValue(b: BigNumber)
    requires DigitsInRange(b.digits)
    ensures DecimalValue(MagnitudeText(b)) == Magnitude(b.digits)
    ensures NumeralValue(Render(b)) == b.Value()
  {
    var r := Render(b);
    if |b.digits| == 0 {
      assert MagnitudeText(b) == "0";
      assert DecimalValue("0") == 10 * DecimalValue("") + 0;
    } else {
      assert MagnitudeText(b) == DigitText(b.digits);
      DigitTextValue(b.digits);
    }
    if b.negative {
      assert r[1..] == MagnitudeText(b);
    } else {
      assert r == MagnitudeText(b);
    }
  }

  /** Reversing the character mapping recovers the stored digits. */
  lemma {:induction false} DigitsOfDigitText(ds: seq<int>)
    requires DigitsInRange(ds)
    ensures DigitsOf(DigitText(ds)) == ds
  {
    if ds != [] {
      var t := DigitText(ds);
      assert t[..|t| - 1] == DigitText(ds[1..]);
      DigitsOfDigitText(ds[1..]);
    }
  }

  /** Rendering the digits of a string of digit characters gives the string back. */
  lemma {:induction false} DigitTextDigitsOf(t: string)
    requires AllDigitChars(t)
    ensures DigitsInRange(DigitsOf(t))
    ensures DigitText(DigitsOf(t)) == t
  {
    if |t| > 0 {
      var init := t[..|t| - 1];
      DigitTextDigitsOf(init);
      var ds := DigitsOf(t);
      assert ds[1..] == DigitsOf(init);
      assert t == init + [t[|t| - 1]];
    }
  }

  /** The text after the sign is an unsigned numeral that reads back as the stored digits. */
  lemma MagnitudeTextParses(b: BigNumber)
    requires DigitsInRange(b.digits) && NoLeadingZero(b.digits)
    ensures IsUnsignedNumeral(MagnitudeText(b))
    ensures (if MagnitudeText(b) == "0" then [] else DigitsOf(MagnitudeText(b))) == b.digits
  {
    var ds := b.digits;
    var t := MagnitudeText(b);
    if |ds| > 0 {
      DigitTextAt(ds, 0);
      DigitsOfDigitText(ds);
    }
  }

  /** For digits in range and no most-significant zero, parsing the output gives the number back. */
  lemma ParseRender(b: BigNumber)
    requires DigitsInRange(b.digits) && NoLeadingZero(b.digits)
    ensures Parse(Render(b)) == Some(b)
  {
    var r := Render(b);
    var t := MagnitudeText(b);
    MagnitudeTextParses(b);
    if b.negative {
      assert r[0] == '-' && r[1..] == t;
    } else {
      assert r == t;
      assert t[0] != '-';
    }
    assert IsNumeral(r);
  }

  /** Every successful parse renders back to the same text, with digits in
      range and no most-significant zero. */
  lemma RenderParse(s: string)
    requires Parse(s).Some?
    ensures DigitsInRange(Parse(s).value.digits) && NoLeadingZero(Parse(s).value.digits)
    ensures Render(Parse(s).value) == s
  {
    var b := Parse(s).value;
    var t := if b.negative then s[1..] else s;
    if t != "0" {
      DigitTextDigitsOf(t);
      var ds := DigitsOf(t);
      DigitTextAt(ds, 0);
      assert DigitChar(ds[|ds| - 1]) == t[0];
    }
    if b.negative {
      assert s == "-" + t;
    }
  }

  /** Distinct numbers with digits in range and no most-significant zero render differently. */
  lemma RenderInjective(a: BigNumber, b: BigNumber)
    requires DigitsInRange(a.digits) && NoLeadingZero(a.digits)
    requires DigitsInRange(b.digits) && NoLeadingZero(b.digits)
    requires Render(a) == Render(b)
    ensures a == b
  {
    ParseRender(a);
    ParseRender(b);
  }

  /** A canonical number renders as -?(0|[1-9][0-9]*) and never as "-0". */
  lemma CanonicalShape(b: BigNumber)
    requires Canonical(b)
    ensures IsNumeral(Render(b))
    ensures Render(b) != "-0"
  {
    ParseRender(b);
  }
}
