/** Reading decimals with 64-bit integers: when it is exact, and what an overflow does. */
module Decimals {
  import opened Types
  import opened Frames

  lemma WrapIs(x: int, r: i64, k: int)
    requires r == x + k * TWO_64
    ensures r == Wrap64(x)
  {
  }

  lemma WrapExact(x: int)
    requires InI64(x)
    ensures Wrap64(x) == x
  {
    WrapIs(x, x, 0);
  }

  /** One step of the wrapping accumulation wraps the exact step. */
  lemma WrapStep(x: int, n: int)
    ensures Wrap64(Wrap64(Wrap64(x) * 10) + n) == Wrap64(x * 10 + n)
  {
    var a := Wrap64(x);
    var i :| a == x + i * TWO_64;
    var b := Wrap64(a * 10);
    var j :| b == a * 10 + j * TWO_64;
    var c := Wrap64(b + n);
    var k :| c == b + n + k * TWO_64;
    WrapIs(x * 10 + n, c, i * 10 + j + k);
  }

  function Pow10(n: nat): nat {
    if n == 0 then 1 else 10 * Pow10(n - 1)
  }

  lemma {:induction false} NaturalBound(digits: seq<byte>)
    requires AllDigits(digits)
    ensures Natural(digits) < Pow10(|digits|)
  {
    if |digits| > 0 {
      NaturalBound(digits[..|digits| - 1]);
    }
  }

  lemma {:induction false} Pow10Grows(m: nat, n: nat)
    requires m <= n
    ensures Pow10(m) <= Pow10(n)
  {
    if m < n {
      Pow10Grows(m, n - 1);
    }
  }

  lemma SafePow10()
    ensures Pow10(18) == 1_000_000_000_000_000_000
  {
    assert Pow10(6) == 1_000_000;
    assert Pow10(12) == 1_000_000_000_000;
  }

  /** Up to eighteen digits always fit. */
  lemma SafeDigitsFit(digits: seq<byte>)
    requires AllDigits(digits) && |digits| <= MAX_SAFE_DIGITS
    ensures Natural(digits) < TWO_63
  {
    NaturalBound(digits);
    Pow10Grows(|digits|, 18);
    SafePow10();
  }

  lemma DigitWrites(b: byte)
    requires IsDigit(b)
    ensures AllDigits([b]) && Natural([b]) == b - 48
  {
    assert [b][..0] == [];
    assert Natural([b][..0]) == 0;
  }

  lemma NaturalStep(b: seq<byte>, start: nat, i: nat)
    requires start <= i < |b| && AllDigits(b[start..i]) && IsDigit(b[i])
    ensures AllDigits(b[start..i + 1])
    ensures Natural(b[start..i + 1]) == Natural(b[start..i]) * 10 + (b[i] - 48)
  {
    assert b[start..i + 1][..i - start] == b[start..i];
    assert b[start..i + 1][i - start] == b[i];
  }

  lemma {:induction false} RunEndIs(b: seq<byte>, i: nat, j: nat)
    requires i <= j < |b| && (forall k :: i <= k < j ==> IsDigit(b[k])) && (j + 1 == |b| || !IsDigit(b[j]))
    ensures RunEnd(b, i) == j
    decreases j - i
  {
    if i < j {
      RunEndIs(b, i + 1, j);
    }
  }
}
