/** The decimal renderer `operator<<(std::ostream&, big_number&)`: an optional
    minus sign, then either the single character '0' (no digits) or the digits
    from the most significant down to the least significant. */
module Print {
  import opened BigNumbers

  /** An ASCII decimal digit character. */
  predicate IsDigitChar(c: char) {
    '0' <= c <= '9'
  }

  /** The digit value a character stands for, counted from '0'. */
  function CharValue(c: char): int {
    c as int - '0' as int
  }

  /** The character `(char)('0' + d)` for a digit value in range. */
  function DigitChar(d: int): (c: char)
    requires IsDigit(d)
    ensures IsDigitChar(c)
    ensures CharValue(c) == d
  {
    ('0' as int + d) as char
  }

  /** The characters of a least-significant-first digit sequence, most significant first. */
  function DigitText(ds: seq<int>): (r: seq<char>)
    requires DigitsInRange(ds)
    ensures |r| == |ds|
    ensures forall k :: 0 <= k < |r| ==> IsDigitChar(r[k])
  {
    if ds == [] then [] else DigitText(ds[1..]) + [DigitChar(ds[0])]
  }

  /** The sign part of the output: "-" exactly when the number is negative. */
  function SignText(b: BigNumber): string {
    if b.negative then "-" else ""
  }

  /** The part of the output after the optional sign: "0" when there are no digits. */
  function MagnitudeText(b: BigNumber): string
    requires DigitsInRange(b.digits)
  {
    if |b.digits| == 0 then "0" else DigitText(b.digits)
  }

  /** What the renderer writes for `b`. */
  function Render(b: BigNumber): string
    requires DigitsInRange(b.digits)
  {
    SignText(b) + MagnitudeText(b)
  }

  /** `os << obj`: appends the rendering of `obj` to the stream contents `os`.
      The source takes a non-const reference; here the number is a value, on the
      assumption that `sign()`, `magn()` and `operator[]` only read it. */
  method Insert(os: string, obj: BigNumber) returns (out: string)
    requires DigitsInRange(obj.digits)
    ensures out == os + Render(obj)
  {
    out := os;
    if obj.negative {
      out := out + ['-'];
    }
    ghost var head := out;
    assert head == os + SignText(obj);
    var idx := obj.Magn();
    if idx == 0 {
      out := out + ['0'];
    } else {
      while idx != 0
        invariant 0 <= idx <= obj.Magn()
        invariant out == head + DigitText(obj.digits[idx..])
        decreases idx
      {
        idx := idx - 1;
        var ch := obj.At(idx);
        assert obj.digits[idx..][1..] == obj.digits[idx + 1..];
        out := out + [DigitChar(ch)];
      }
      assert obj.digits[0..] == obj.digits;
    }
    assert out == head + MagnitudeText(obj);
  }

  /** Character k of the digit text is the digit at index |ds|-1-k: the order is reversed. */
  lemma {:induction false} DigitTextAt(ds: seq<int>, k: nat)
    requires DigitsInRange(ds) && k < |ds|
    ensures DigitText(ds)[k] == DigitChar(ds[|ds| - 1 - k])
  {
    if k < |ds| - 1 {
      DigitTextAt(ds[1..], k);
    }
  }

  /** The output begins with '-' exactly when the number is negative, and otherwise with a digit;
      the sign is written whatever the magnitude. */
  lemma SignFirst(b: BigNumber)
    requires DigitsInRange(b.digits)
    ensures Render(b)[0] == '-' <==> b.negative
    ensures !b.negative ==> IsDigitChar(Render(b)[0])
  {
  }

  /** A negative number with no digits renders as "-0". */
  lemma NegativeZero()
    ensures Render(BigNumber(true, [])) == "-0"
  {
  }

  /** With no digits the part after the sign is exactly "0". */
  lemma ZeroDigits(b: BigNumber)
    requires |b.digits| == 0
    ensures MagnitudeText(b) == "0"
  {
  }

  /** With n > 0 digits, character k after the sign is the digit at index n-1-k. */
  lemma DigitsReversed(b: BigNumber, k: nat)
    requires DigitsInRange(b.digits) && k < |b.digits|
    ensures |MagnitudeText(b)| == |b.digits|
    ensures MagnitudeText(b)[k] == DigitChar(b.digits[|b.digits| - 1 - k])
  {
    DigitTextAt(b.digits, k);
  }

  /** The output length is the sign's plus max(1, n). */
  lemma RenderLength(b: BigNumber)
    requires DigitsInRange(b.digits)
    ensures |Render(b)| == (if b.negative then 1 else 0) + (if |b.digits| == 0 then 1 else |b.digits|)
  {
  }

  /** Every character after the optional sign is an ASCII decimal digit. */
  lemma DigitCharacters(b: BigNumber)
    requires DigitsInRange(b.digits)
    ensures |MagnitudeText(b)| >= 1
    ensures forall k :: 0 <= k < |MagnitudeText(b)| ==> IsDigitChar(MagnitudeText(b)[k])
  {
  }

  /** Sample renderings: digits [1, 2, 3] stored least significant first, a
      negative single digit, the empty digit sequence, and a stored single zero,
      which renders the same as the empty sequence. */
  lemma Examples()
    ensures Render(BigNumber(false, [1, 2, 3])) == "321"
    ensures Render(BigNumber(true, [7])) == "-7"
    ensures Render(BigNumber(false, [])) == "0"
    ensures Render(BigNumber(false, [0])) == "0"
  {
  }
}
