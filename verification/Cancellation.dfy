module Cancellation {
  // The check for catastrophic cancellation, over exact reals.

  /** 2 to the power e. */
  function Pow2(e: int): (r: real)
    ensures r > 0.0
    decreases if e < 0 then -e else e
  {
    if e == 0 then 1.0 else if e > 0 then 2.0 * Pow2(e - 1) else Pow2(e + 1) / 2.0
  }

  lemma Pow2Next(e: int)
    ensures Pow2(e + 1) == 2.0 * Pow2(e)
  {}

  lemma {:induction false} Pow2Monotone(a: int, b: int)
    requires a <= b
    ensures Pow2(a) <= Pow2(b)
    decreases b - a
  {
    if a < b {
      Pow2Monotone(a, b - 1);
      Pow2Next(b - 1);
    }
  }

  function Abs(x: real): real { if x < 0.0 then -x else x }

  /** mpfr_get_exp of a non-zero number. */
  ghost predicate IsExp(v: real, e: int) { Pow2(e - 1) <= Abs(v) < Pow2(e) }

  ghost predicate Exponents(exp: real -> int) { forall v :: v != 0.0 ==> IsExp(v, exp(v)) }

  /** A double; infinities are not modelled. */
  datatype Double = NaN | Fin(v: real)

  function AbsInt(n: int): nat { if n < 0 then -n else n }

  /** m_get_exact_bits: in how many leading bits the computed value c agrees with the real value r. */
  function ExactBits(exp: real -> int, prec: nat, c: real, r: real): nat {
    if c == r then prec
    else if exp(r) != exp(c) then 0
    else if prec < AbsInt(exp(r) - exp(r - c)) then prec
    else AbsInt(exp(r) - exp(r - c))
  }

  /** m_get_cancelled_bits; a zero operand or result is not regular. */
  function CancelledBits(exp: real -> int, c1: real, c2: real, res: real): nat {
    if c1 == 0.0 || c2 == 0.0 || res == 0.0 then 0
    else
      var max_exp := if exp(c1) > exp(c2) then exp(c1) else exp(c2);
      if max_exp > exp(res) then max_exp - exp(res) else 0
  }

  /** m_get_cbad. */
  function CBad(cbits: nat, ebits1: nat, ebits2: nat): nat {
    var min_ebits := if ebits1 > ebits2 then ebits2 else ebits1;
    var badness := 1 + cbits - min_ebits;
    if badness > 0 then badness else 0
  }

  /** m_check_cc: c1, c2 and res are the computed operands and result, r1 and r2 the real operands, `error`
      the result's error in bits. */
  function CheckCC(exp: real -> int, prec: nat, c1: Double, r1: real, c2: Double, r2: real, res: Double,
                   error: int): nat {
    if c1.NaN? || c2.NaN? then 0
    else if res == Fin(0.0) && error != 0 then 1
    else
      var v := if res.NaN? then 0.0 else res.v;
      CBad(CancelledBits(exp, c1.v, c2.v, v), ExactBits(exp, prec, c1.v, r1), ExactBits(exp, prec, c2.v, r2))
  }

  /** Real and computed value are on the same side of zero. */
  predicate SameSign(c: real, r: real) { (c > 0.0 && r > 0.0) || (c < 0.0 && r < 0.0) }

  /** Two numbers of the same sign and exponent e differ by less than half of 2^e: at least one bit agrees. */
  lemma DiffExp(c: real, r: real, e: int, d: int)
    requires SameSign(c, r) && c != r && IsExp(c, e) && IsExp(r, e) && IsExp(r - c, d)
    ensures d < e
  {
    Pow2Next(e - 1);
    assert Abs(r - c) < Pow2(e - 1);
    if d >= e { Pow2Monotone(e - 1, d - 1); }
  }

  /** One operand: agreeing in more bits than are cancelled keeps its error below half of 2^exp(res). */
  lemma OperandError(exp: real -> int, prec: nat, c: real, r: real, max_exp: int, exp_res: int, cbits: nat)
    requires Exponents(exp) && SameSign(c, r) && exp(c) <= max_exp && cbits >= max_exp - exp_res
    requires ExactBits(exp, prec, c, r) >= 1 + cbits
    ensures Abs(r - c) < Pow2(exp_res - 1)
  {
    if c != r {
      assert IsExp(c, exp(c)) && IsExp(r, exp(r)) && IsExp(r - c, exp(r - c));
      DiffExp(c, r, exp(c), exp(r - c));
      Pow2Monotone(exp(r - c), exp_res - 1);
    }
  }

  /** Agreement in two bits or more tells the sign. */
  lemma TwoBitsTellSign(exp: real -> int, prec: nat, c: real, r: real)
    requires Exponents(exp) && c != 0.0 && r != 0.0 && ExactBits(exp, prec, c, r) >= 2
    ensures SameSign(c, r)
  {
    if c != r && !SameSign(c, r) {
      assert IsExp(c, exp(c)) && IsExp(r, exp(r)) && IsExp(r - c, exp(r - c));
      OppositeExp(c, r, exp(c), exp(r - c));
      assert false;
    }
  }

  /** No alarm means bounded inherited error: what the operands' errors contribute to the exact sum or
      difference stays below 2^exp(res), and so below twice the computed result.  Where something was cancelled
      nothing need be known of the real operands; elsewhere they must have the signs of the computed ones. */
  lemma NoAlarmBoundsError(exp: real -> int, prec: nat, c1: real, r1: real, c2: real, r2: real, res: real, error: int)
    requires Exponents(exp) && c1 != 0.0 && c2 != 0.0 && res != 0.0 && r1 != 0.0 && r2 != 0.0
    requires CancelledBits(exp, c1, c2, res) > 0 || (SameSign(c1, r1) && SameSign(c2, r2))
    requires CheckCC(exp, prec, Fin(c1), r1, Fin(c2), r2, Fin(res), error) == 0
    ensures Bounded(exp, c1, r1, c2, r2, res) && Pow2(exp(res)) <= 2.0 * Abs(res)
    ensures Abs((r1 + r2) - (c1 + c2)) < Pow2(exp(res))
  {
    var max_exp := if exp(c1) > exp(c2) then exp(c1) else exp(c2);
    var cbits := CancelledBits(exp, c1, c2, res);
    if cbits > 0 {
      TwoBitsTellSign(exp, prec, c1, r1);
      TwoBitsTellSign(exp, prec, c2, r2);
    }
    OperandError(exp, prec, c1, r1, max_exp, exp(res), cbits);
    OperandError(exp, prec, c2, r2, max_exp, exp(res), cbits);
    Pow2Next(exp(res) - 1);
    assert IsExp(res, exp(res));
  }

  /** The exact difference and the difference of the computed operands are less than 2^exp(res) apart. */
  ghost predicate Bounded(exp: real -> int, c1: real, r1: real, c2: real, r2: real, res: real) {
    Abs((r1 - r2) - (c1 - c2)) < Pow2(exp(res))
  }

  /** Whatever the real operands may be, silence means that the error is bounded. */
  ghost predicate SilenceBounds(exp: real -> int, prec: nat, c1: real, c2: real, res: real, error: int) {
    forall r1, r2 {:trigger Bounded(exp, c1, r1, c2, r2, res)} :: r1 != 0.0 && r2 != 0.0 ==>
      CheckCC(exp, prec, Fin(c1), r1, Fin(c2), r2, Fin(res), error) == 0 ==> Bounded(exp, c1, r1, c2, r2, res)
  }

  /** Exactly when the check can be relied on, from the computed values alone: its silence bounds the error for
      all real operands if and only if bits were cancelled.  The result's exponent is at most the larger of the
      operands', as it is for every effective subtraction. */
  lemma SilenceExact(exp: real -> int, prec: nat, c1: real, c2: real, res: real, error: int)
    requires Exponents(exp) && prec >= 1 && c1 != 0.0 && c2 != 0.0 && res != 0.0
    requires exp(res) <= exp(c1) || exp(res) <= exp(c2)
    ensures SilenceBounds(exp, prec, c1, c2, res, error) <==> CancelledBits(exp, c1, c2, res) > 0
  {
    if CancelledBits(exp, c1, c2, res) > 0 {
      forall r1, r2 | r1 != 0.0 && r2 != 0.0 && CheckCC(exp, prec, Fin(c1), r1, Fin(c2), r2, Fin(res), error) == 0
        ensures Bounded(exp, c1, r1, c2, r2, res)
      {
        NoAlarmBoundsError(exp, prec, c1, r1, c2, r2, res, error);
      }
    } else {
      WrongSignUnbounded(exp, prec, c1, c2, res, error);
    }
  }

  /** If nothing was cancelled, the operand that is larger, with its sign changed, is not noticed. */
  lemma WrongSignUnbounded(exp: real -> int, prec: nat, c1: real, c2: real, res: real, error: int)
    requires Exponents(exp) && prec >= 1 && c1 != 0.0 && c2 != 0.0 && res != 0.0 && CancelledBits(exp, c1, c2, res) == 0
    requires exp(res) <= exp(c1) || exp(res) <= exp(c2)
    ensures !SilenceBounds(exp, prec, c1, c2, res, error)
  {
    OneBitAgrees(exp, prec, c1);
    OneBitAgrees(exp, prec, c2);
    if exp(c1) >= exp(c2) {
      assert !Bounded(exp, c1, -c1, c2, c2, res) && CheckCC(exp, prec, Fin(c1), -c1, Fin(c2), c2, Fin(res), error) == 0;
    } else {
      assert !Bounded(exp, c1, c1, c2, -c2, res) && CheckCC(exp, prec, Fin(c1), c1, Fin(c2), -c2, Fin(res), error) == 0;
    }
  }

  /** A number and its negative agree in one bit, and are at least 2^exp apart. */
  lemma OneBitAgrees(exp: real -> int, prec: nat, c: real)
    requires Exponents(exp) && prec >= 1 && c != 0.0
    ensures ExactBits(exp, prec, c, -c) == 1 && 2.0 * Abs(c) >= Pow2(exp(c))
  {
    assert IsExp(c, exp(c)) && IsExp(-c, exp(-c)) && IsExp(-c - c, exp(-c - c));
    ExpIs(-c, exp(-c), exp(c));
    SignDecides(c, -c, exp(c));
    Pow2Next(exp(c));
    ExpIs(-c - c, exp(-c - c), exp(c) + 1);
  }

  /** An instance: an operand computed with the wrong sign counts as agreeing in one bit, and nothing was cancelled. */
  lemma WrongSignIsMissed(exp: real -> int, prec: nat, error: int)
    requires Exponents(exp) && prec >= 1
    ensures CheckCC(exp, prec, Fin(1.75), -1.75, Fin(0.25), 0.25, Fin(1.5), error) == 0
    ensures Abs((-1.75 - 0.25) - (1.75 - 0.25)) >= Pow2(exp(1.5))
  {
    ExpIs(1.75, exp(1.75), 1);
    ExpIs(-1.75, exp(-1.75), 1);
    ExpIs(-1.75 - 1.75, exp(-1.75 - 1.75), 2);
    ExpIs(0.25, exp(0.25), -1);
    ExpIs(1.5, exp(1.5), 1);
  }

  lemma ExpIs(v: real, e: int, d: int)
    requires IsExp(v, e) && IsExp(v, d)
    ensures e == d
  {
    if e < d { Pow2Monotone(e, d - 1); }
    if d < e { Pow2Monotone(d, e - 1); }
  }

  /** For values with the same exponent, the sign decides whether the difference stays below 2^exp. */
  lemma SignDecides(c: real, r: real, e: int)
    requires c != 0.0 && r != 0.0 && IsExp(c, e) && IsExp(r, e)
    ensures Abs(r - c) < Pow2(e) <==> SameSign(c, r)
  {
    Pow2Next(e - 1);
  }

  /** Numbers of opposite sign and exponent e differ by at least 2^e and less than twice that: their difference
      has the exponent e + 1. */
  lemma OppositeExp(c: real, r: real, e: int, d: int)
    requires c != 0.0 && r != 0.0 && !SameSign(c, r) && IsExp(c, e) && IsExp(r, e) && IsExp(r - c, d)
    ensures d == e + 1
  {
    Pow2Next(e - 1);
    Pow2Next(e);
    ExpIs(r - c, d, e + 1);
  }

  // ------------------------------------------------------------------ what the check returns

  /** The computed value c is right in its k leading bits: it is the real value, or has its sign and exponent and is
      less than 2^-k times 2^exp away.  A value of the other sign with the same exponent counts as right in one bit. */
  ghost predicate RightBits(exp: real -> int, c: real, r: real, k: int) {
    || c == r
    || (exp(c) == exp(r) && (if SameSign(c, r) then Abs(r - c) < Pow2(exp(r) - k) else k <= 1))
  }

  lemma ExpBelow(v: real, d: int, e: int)
    requires IsExp(v, d)
    ensures Abs(v) < Pow2(e) <==> d <= e
  {
    if d <= e { Pow2Monotone(d, e); } else { Pow2Monotone(e, d - 1); }
  }

  /** The bits that count as exact, from the distance of the values. */
  lemma ExactBitsAre(exp: real -> int, prec: nat, c: real, r: real, k: nat)
    requires Exponents(exp) && c != 0.0 && r != 0.0 && k >= 1
    ensures ExactBits(exp, prec, c, r) >= k <==> k <= prec && RightBits(exp, c, r, k)
  {
    if c != r && exp(c) == exp(r) {
      var e, d := exp(r), exp(r - c);
      assert IsExp(c, e) && IsExp(r, e) && IsExp(r - c, d);
      if SameSign(c, r) {
        DiffExp(c, r, e, d);
        ExpBelow(r - c, d, e - k);
      } else {
        OppositeExp(c, r, e, d);
      }
    }
  }

  /** The larger operand's exponent is n above that of the result, or n is 0 and neither is above it; an irregular
      result cancels nothing. */
  ghost predicate Cancels(exp: real -> int, c1: real, c2: real, res: Double, n: nat) {
    if res.NaN? || res.v == 0.0 then n == 0
    else
      && exp(c1) <= exp(res.v) + n && exp(c2) <= exp(res.v) + n
      && (n == 0 || exp(c1) == exp(res.v) + n || exp(c2) == exp(res.v) + n)
  }

  /** The badness is the least b for which both operands are right in all but b of the bits they need: one more than
      were cancelled. */
  lemma BadnessIs(exp: real -> int, prec: nat, c1: real, r1: real, c2: real, r2: real, res: Double, error: int, n: nat,
                  b: nat)
    requires Exponents(exp) && c1 != 0.0 && r1 != 0.0 && c2 != 0.0 && r2 != 0.0 && Cancels(exp, c1, c2, res, n)
    requires res != Fin(0.0) || error == 0
    ensures CheckCC(exp, prec, Fin(c1), r1, Fin(c2), r2, res, error) <= b
      <==> b > n || (n + 1 - b <= prec && RightBits(exp, c1, r1, n + 1 - b) && RightBits(exp, c2, r2, n + 1 - b))
  {
    if b <= n {
      ExactBitsAre(exp, prec, c1, r1, n + 1 - b);
      ExactBitsAre(exp, prec, c2, r2, n + 1 - b);
    }
    assert CancelledBits(exp, c1, c2, if res.NaN? then 0.0 else res.v) == n;
  }

  /** The two cases decided before: nothing is said of a NaN operand, and a zero result with an error is badness 1. */
  lemma SpecialCases(exp: real -> int, prec: nat, c1: Double, r1: real, c2: Double, r2: real, res: Double, error: int)
    ensures c1.NaN? || c2.NaN? ==> CheckCC(exp, prec, c1, r1, c2, r2, res, error) == 0
    ensures c1.Fin? && c2.Fin? && res == Fin(0.0) && error != 0 ==>
      CheckCC(exp, prec, c1, r1, c2, r2, res, error) == 1
  {}

  /** Exact operands never alarm, unless more bits were cancelled than the numbers have. */
  lemma ExactOperands(exp: real -> int, prec: nat, c1: real, c2: real, res: Double, error: int, n: nat)
    requires Exponents(exp) && c1 != 0.0 && c2 != 0.0 && Cancels(exp, c1, c2, res, n) && (res != Fin(0.0) || error == 0)
    ensures CheckCC(exp, prec, Fin(c1), c1, Fin(c2), c2, res, error) == 0 <==> n < prec
  {
    BadnessIs(exp, prec, c1, c1, c2, c2, res, error, n, 0);
  }
}
