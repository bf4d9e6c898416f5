/** The part of `big_number` that the decimal renderer reads: a sign flag,
    a digit count and digits indexed least significant first. */
module BigNumbers {

  /** A big number as the renderer sees it: `negative` is `sign() < 0`,
      `digits[i]` is `operator[](i)`, and `|digits|` is `magn()`. */
  datatype BigNumber = BigNumber(negative: bool, digits: seq<int>) {

    /** The digit count, `magn()`. */
    function Magn(): nat {
      |digits|
    }

    /** Indexed digit access, `operator[](i)`; only indices below `Magn()` exist. */
    function At(i: nat): int
      requires i < Magn()
    {
      digits[i]
    }

    /** The integer the number denotes. */
    function Value(): int {
      if negative then -Magnitude(digits) else Magnitude(digits)
    }
  }

  /** A decimal digit value. */
  predicate IsDigit(d: int) {
    0 <= d <= 9
  }

  predicate DigitsInRange(ds: seq<int>) {
    forall i :: 0 <= i < |ds| ==> IsDigit(ds[i])
  }

  /** No most-significant zero digit: the empty sequence is the only encoding of zero. */
  predicate NoLeadingZero(ds: seq<int>) {
    |ds| == 0 || ds[|ds| - 1] != 0
  }

  /** The canonical form: digits in range, no most-significant zero, and zero is not negative. */
  predicate Canonical(b: BigNumber) {
    DigitsInRange(b.digits) && NoLeadingZero(b.digits) && !(b.negative && |b.digits| == 0)
  }

  function Pow10(k: nat): (r: nat)
    ensures r >= 1
  {
    if k == 0 then 1 else 10 * Pow10(k - 1)
  }

  /** The magnitude a least-significant-first digit sequence encodes: the sum of ds[i] * 10^i. */
  function Magnitude(ds: seq<int>): int {
    if |ds| == 0 then 0 else Magnitude(ds[..|ds| - 1]) + ds[|ds| - 1] * Pow10(|ds| - 1)
  }

  /** Horner's form of the same sum: peel off the least significant digit. */
  lemma {:induction false} MagnitudeHorner(ds: seq<int>)
    requires |ds| > 0
    ensures Magnitude(ds) == ds[0] + 10 * Magnitude(ds[1..])
  {
    var n := |ds|;
    if n == 1 {
      assert ds[..0] == [] && ds[1..] == [];
    } else {
      var init := ds[..n - 1];
      MagnitudeHorner(init);
      assert init[1..] == ds[1..][..n - 2];
      assert ds[1..][n - 2] == ds[n - 1];
      calc {
        Magnitude(ds);
        Magnitude(init) + ds[n - 1] * Pow10(n - 1);
        ds[0] + 10 * Magnitude(init[1..]) + ds[n - 1] * Pow10(n - 1);
        ds[0] + 10 * (Magnitude(ds[1..][..n - 2]) + ds[n - 1] * Pow10(n - 2));
        ds[0] + 10 * Magnitude(ds[1..]);
      }
    }
  }

  /** A digit sequence with no most-significant zero encodes zero only when it is empty. */
  lemma {:induction false} MagnitudeZero(ds: seq<int>)
    requires DigitsInRange(ds) && NoLeadingZero(ds)
    ensures Magnitude(ds) == 0 <==> |ds| == 0
  {
    if |ds| > 0 {
      MagnitudeNonNegative(ds[..|ds| - 1]);
      MultiplyAtLeast(ds[|ds| - 1], Pow10(|ds| - 1));
    }
  }

  lemma MultiplyAtLeast(d: int, p: nat)
    requires d >= 1
    ensures d * p >= p
  {
  }

  lemma {:induction false} MagnitudeNonNegative(ds: seq<int>)
    requires DigitsInRange(ds)
    ensures Magnitude(ds) >= 0
  {
    if |ds| > 0 {
      MagnitudeNonNegative(ds[..|ds| - 1]);
    }
  }
}
