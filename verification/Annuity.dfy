/** The installment formula of the demo seed, over exact reals, against the month-by-month balance. */
module Annuity {
  import opened Basics

  function Pow(x: real, n: nat): real {
    if n == 0 then 1.0 else x * Pow(x, n - 1)
  }

  /** The monthly rate of a yearly percentage. */
  function MonthlyRate(ratePct: real): real { ratePct / 100.0 / 12.0 }

  /** The level payment that repays `amount` over `tenor` months; nothing where the source divides by zero. */
  function Payment(amount: real, r: real, tenor: nat): Option<real> {
    var f := Pow(1.0 + r, tenor);
    if f - 1.0 == 0.0 then None else Some(amount * r * f / (f - 1.0))
  }

  /** `Math.round`: to the nearest integer, halves upwards. */
  function Round(x: real): int { (x + 0.5).Floor }

  function MonthlyInstallment(amount: real, ratePct: real, tenor: nat): Option<int> {
    match Payment(amount, MonthlyRate(ratePct), tenor)
    case None => None
    case Some(p) => Some(Round(p))
  }

  /** What is owed after `n` months of paying `p`: interest first, then the payment. */
  function Balance(amount: real, r: real, p: real, n: nat): real {
    if n == 0 then amount else Balance(amount, r, p, n - 1) * (1.0 + r) - p
  }

  // ---- Powers -----------------------------------------------------------------------------------------------------

  lemma {:induction false} PowGrows(r: real, n: nat)
    requires r > 0.0
    ensures Pow(1.0 + r, n) >= 1.0
    ensures n > 0 ==> Pow(1.0 + r, n) > 1.0
    ensures n > 0 ==> Pow(1.0 + r, n) > Pow(1.0 + r, n - 1)
  {
    if n > 0 {
      PowGrows(r, n - 1);
      var g := Pow(1.0 + r, n - 1);
      assert Pow(1.0 + r, n) == g + r * g;
      assert r * g > 0.0;
    }
  }

  lemma {:induction false} PowOfOne(n: nat)
    ensures Pow(1.0, n) == 1.0
  {
    if n > 0 { PowOfOne(n - 1); }
  }

  lemma {:induction false} PowMonotone(r: real, k: nat, n: nat)
    requires r > 0.0 && k <= n
    ensures Pow(1.0 + r, k) <= Pow(1.0 + r, n)
    decreases n - k
  {
    if k < n {
      PowGrows(r, n);
      PowMonotone(r, k, n - 1);
    }
  }

  /** For a rate that is not negative, there is an installment exactly when the rate and the tenor are both positive. */
  lemma PaymentExistsExactly(amount: real, r: real, tenor: nat)
    requires r >= 0.0
    ensures Payment(amount, r, tenor).Some? <==> r > 0.0 && tenor > 0
  {
    if r > 0.0 && tenor > 0 {
      PowGrows(r, tenor);
    } else if r == 0.0 {
      PowOfOne(tenor);
    }
  }

  // ---- The balance ------------------------------------------------------------------------------------------------

  predicate IsLeft(left: real, f: real, p: real, amount: real, r: real) { r * left == r * amount * f - p * (f - 1.0) }

  /** The recurrence, solved: every month's balance, for any payment. */
  lemma {:induction false} BalanceSolved(amount: real, r: real, p: real, n: nat)
    ensures IsLeft(Balance(amount, r, p, n), Pow(1.0 + r, n), p, amount, r)
  {
    hide IsLeft;
    if n == 0 {
      SolvedStart(r, amount, p, Balance(amount, r, p, n), Pow(1.0 + r, n));
    } else {
      BalanceSolved(amount, r, p, n - 1);
      SolvedStep(r, Balance(amount, r, p, n - 1), amount, Pow(1.0 + r, n - 1), p, Balance(amount, r, p, n), Pow(1.0 + r, n));
    }
  }

  lemma SolvedStart(r: real, a: real, p: real, b: real, f: real)
    requires b == a && f == 1.0
    ensures IsLeft(b, f, p, a, r)
  {
  }

  lemma SolvedStep(r: real, b: real, a: real, g: real, p: real, after: real, f: real)
    requires IsLeft(b, g, p, a, r) && after == b * (1.0 + r) - p && f == (1.0 + r) * g
    ensures IsLeft(after, f, p, a, r)
  {
    var d := 1.0 + r;
    assert r * (b * d - p) == (r * b) * d - r * p;
    assert (r * a * g) * d == r * a * (d * g);
    assert (p * (g - 1.0)) * d == p * (d * g) - p * d;
  }

  lemma Cancel(r: real, x: real, y: real)
    requires r != 0.0 && r * x == r * y
    ensures x == y
  {
  }

  predicate IsLevel(p: real, f: real, amount: real, r: real) { p * (f - 1.0) == amount * r * f }

  lemma PaymentIsLevel(amount: real, r: real, tenor: nat)
    requires r > 0.0 && tenor > 0
    ensures Pow(1.0 + r, tenor) > 1.0 && Payment(amount, r, tenor).Some?
    ensures IsLevel(Payment(amount, r, tenor).value, Pow(1.0 + r, tenor), amount, r)
  {
    PowGrows(r, tenor);
  }

  /** `b` is the share of the loan the months from `g` to `f` carry. */
  predicate IsShare(b: real, g: real, f: real, amount: real) { b * (f - 1.0) == amount * (f - g) }

  /** Paying the exact level payment, the balance after `k` months is the share of the loan the last `n - k` months
      carry; it is never negative, falls every month, and is zero after the last. */
  lemma BalanceUnderExactPayment(amount: real, r: real, tenor: nat, k: nat)
    requires r > 0.0 && k <= tenor && tenor > 0 && amount >= 0.0
    ensures Payment(amount, r, tenor).Some?
    ensures var p := Payment(amount, r, tenor).value;
      && IsShare(Balance(amount, r, p, k), Pow(1.0 + r, k), Pow(1.0 + r, tenor), amount)
      && Balance(amount, r, p, k) >= 0.0
      && (k == tenor ==> Balance(amount, r, p, k) == 0.0)
      && (amount > 0.0 && k > 0 ==> Balance(amount, r, p, k) < Balance(amount, r, p, k - 1))
  {
    hide Payment, Balance, IsShare, Pow;
    ExactBalance(amount, r, tenor, k);
    PowMonotone(r, k, tenor);
    var p, f := Payment(amount, r, tenor).value, Pow(1.0 + r, tenor);
    Scaled(Balance(amount, r, p, k), Pow(1.0 + r, k), f, amount);
    if amount > 0.0 && k > 0 {
      PowGrows(r, k);
      ExactBalance(amount, r, tenor, k - 1);
      Falls(Balance(amount, r, p, k - 1), Balance(amount, r, p, k), Pow(1.0 + r, k - 1), Pow(1.0 + r, k), f, amount);
    }
  }

  lemma ExactBalance(amount: real, r: real, tenor: nat, k: nat)
    requires r > 0.0 && tenor > 0
    ensures Payment(amount, r, tenor).Some? && Pow(1.0 + r, tenor) > 1.0
    ensures IsShare(Balance(amount, r, Payment(amount, r, tenor).value, k), Pow(1.0 + r, k), Pow(1.0 + r, tenor), amount)
  {
    hide Payment, Balance, IsShare, IsLevel, IsLeft, Pow;
    PaymentIsLevel(amount, r, tenor);
    var p := Payment(amount, r, tenor).value;
    BalanceSolved(amount, r, p, k);
    LevelLeavesShare(amount, r, p, Pow(1.0 + r, tenor), Pow(1.0 + r, k), Balance(amount, r, p, k));
  }

  lemma LevelLeavesShare(a: real, r: real, p: real, f: real, g: real, b: real)
    requires r > 0.0 && IsLevel(p, f, a, r) && IsLeft(b, g, p, a, r)
    ensures IsShare(b, g, f, a)
  {
    calc {
      r * (b * (f - 1.0));
      (r * b) * (f - 1.0);
      (r * a * g - p * (g - 1.0)) * (f - 1.0);
      r * a * g * (f - 1.0) - (p * (f - 1.0)) * (g - 1.0);
      r * a * g * (f - 1.0) - (a * r * f) * (g - 1.0);
      r * (a * (f - g));
    }
    Cancel(r, b * (f - 1.0), a * (f - g));
  }

  lemma Scaled(b: real, g: real, f: real, a: real)
    requires f > 1.0 && a >= 0.0 && g <= f && IsShare(b, g, f, a)
    ensures b >= 0.0 && (g == f ==> b == 0.0)
  {
    Multiplied(a, 0.0, f - g);
    assert a * 0.0 == 0.0 && 0.0 * (f - 1.0) == 0.0;
    assert b * (f - 1.0) >= 0.0;
    Divided(f - 1.0, 0.0, b);
    if g == f { Cancel(f - 1.0, b, 0.0); }
  }

  lemma Divided(d: real, x: real, y: real)
    requires d > 0.0 && x * d <= y * d
    ensures x <= y
  {
    if y < x { StrictlyMultiplied(d, y, x); }
  }

  lemma StrictlyMultiplied(a: real, x: real, y: real)
    requires a > 0.0 && x < y
    ensures a * x < a * y
  {
  }

  lemma Falls(b: real, c: real, g: real, h: real, f: real, a: real)
    requires f > 1.0 && a > 0.0 && g < h && IsShare(b, g, f, a) && IsShare(c, h, f, a)
    ensures c < b
  {
    StrictlyMultiplied(a, f - h, f - g);
    if b <= c { Multiplied(f - 1.0, b, c); }
  }

  lemma {:induction false} GrowthBound(r: real, n: nat)
    requires r > 0.0
    ensures Pow(1.0 + r, n) - 1.0 <= n as real * (r * Pow(1.0 + r, n))
  {
    if n > 0 {
      GrowthBound(r, n - 1);
      PowGrows(r, n);
      var g, f, m := Pow(1.0 + r, n - 1), Pow(1.0 + r, n), (n - 1) as real;
      assert n as real == m + 1.0;
      OneMonthMore(r, g, f, m);
    }
  }

  lemma OneMonthMore(r: real, g: real, f: real, m: real)
    requires r > 0.0 && m >= 0.0 && f > g && f == (1.0 + r) * g && g - 1.0 <= m * (r * g)
    ensures f - 1.0 <= (m + 1.0) * (r * f)
  {
    Multiplied(r, g, f);
    Multiplied(m, r * g, r * f);
  }

  /** Over the whole tenor at least the loan itself is paid. */
  lemma PaysAtLeastTheLoan(amount: real, r: real, tenor: nat)
    requires r > 0.0 && tenor > 0 && amount >= 0.0
    ensures Payment(amount, r, tenor).Some? && tenor as real * Payment(amount, r, tenor).value >= amount
  {
    hide Payment, Pow, IsLevel;
    PaymentIsLevel(amount, r, tenor);
    GrowthBound(r, tenor);
    PaidBound(tenor as real, Payment(amount, r, tenor).value, Pow(1.0 + r, tenor), amount, r);
  }

  lemma PaidBound(n: real, p: real, f: real, a: real, r: real)
    requires f > 1.0 && a >= 0.0 && IsLevel(p, f, a, r) && f - 1.0 <= n * (r * f)
    ensures n * p >= a
  {
    Multiplied(a, f - 1.0, n * (r * f));
    Regrouped(n, p, f - 1.0, a, r, f);
    assert n * p < a ==> (n * p) * (f - 1.0) < a * (f - 1.0);
  }

  lemma Regrouped(n: real, p: real, d: real, a: real, r: real, f: real)
    requires p * d == a * r * f
    ensures (n * p) * d == a * (n * (r * f))
  {
    calc {
      (n * p) * d;
      n * (p * d);
      n * (a * r * f);
      a * (n * (r * f));
    }
  }

  lemma Multiplied(a: real, x: real, y: real)
    requires a >= 0.0 && x <= y
    ensures a * x <= a * y
  {
  }

  /** Half a pound a month, with its interest. */
  function Bound(f: real, r: real): real
    requires r > 0.0
  {
    (f - 1.0) / (2.0 * r)
  }

  lemma LeftAfterRounding(amount: real, r: real, tenor: nat)
    requires r > 0.0 && tenor > 0
    ensures Payment(amount, r, tenor).Some?
    ensures var left := Balance(amount, r, Round(Payment(amount, r, tenor).value) as real, tenor);
      -Bound(Pow(1.0 + r, tenor), r) <= left <= Bound(Pow(1.0 + r, tenor), r)
  {
    hide Pow, Balance, Payment, Round, IsLevel, IsLeft, Bound;
    PaymentIsLevel(amount, r, tenor);
    var p, f := Payment(amount, r, tenor).value, Pow(1.0 + r, tenor);
    var q := Round(p) as real;
    BalanceSolved(amount, r, q, tenor);
    RoundIsNear(p);
    LeftIsBounded(amount, r, f, p, q, Balance(amount, r, q, tenor));
  }

  lemma LeftIsBounded(amount: real, r: real, f: real, p: real, q: real, left: real)
    requires r > 0.0 && f > 1.0 && -0.5 <= p - q <= 0.5 && IsLevel(p, f, amount, r) && IsLeft(left, f, q, amount, r)
    ensures -Bound(f, r) <= left <= Bound(f, r)
  {
    Leftover(amount, r, f, p, q, left);
    Bounded(p - q, f - 1.0, r, left);
  }

  /** Rounding the installment to the pound leaves at most (f - 1) / 2r owed or overpaid after the last month. */
  lemma RoundingError(amount: real, ratePct: real, tenor: nat)
    requires ratePct > 0.0 && tenor > 0
    ensures MonthlyInstallment(amount, ratePct, tenor).Some?
    ensures var r := MonthlyRate(ratePct);
            var left := Balance(amount, r, MonthlyInstallment(amount, ratePct, tenor).value as real, tenor);
            r > 0.0 && -((Pow(1.0 + r, tenor) - 1.0) / (2.0 * r)) <= left <= (Pow(1.0 + r, tenor) - 1.0) / (2.0 * r)
    ensures MonthlyRate(ratePct) == ratePct / 1200.0
    ensures var exact, rounded := Payment(amount, ratePct / 1200.0, tenor), MonthlyInstallment(amount, ratePct, tenor).value as real;
      exact.Some? && rounded - 0.5 <= exact.value < rounded + 0.5
  {
    assert MonthlyRate(ratePct) > 0.0 && MonthlyRate(ratePct) == ratePct / 1200.0;
    RoundsHalfUp(Payment(amount, MonthlyRate(ratePct), tenor));
    hide MonthlyRate, Pow, Balance, Payment, Round;
    LeftAfterRounding(amount, MonthlyRate(ratePct), tenor);
  }

  lemma RoundsHalfUp(x: Option<real>)
    ensures x.Some? ==> Round(x.value) as real - 0.5 <= x.value < Round(x.value) as real + 0.5
  {
  }

  lemma RoundIsNear(x: real)
    ensures -0.5 <= x - Round(x) as real <= 0.5
  {
  }

  lemma Leftover(amount: real, r: real, f: real, p: real, q: real, left: real)
    requires p * (f - 1.0) == amount * r * f && r * left == r * amount * f - q * (f - 1.0)
    ensures r * left == (p - q) * (f - 1.0)
  {
    assert (p - q) * (f - 1.0) == p * (f - 1.0) - q * (f - 1.0);
    assert r * amount * f == amount * r * f;
  }

  lemma Bounded(e: real, d: real, r: real, left: real)
    requires r > 0.0 && d > 0.0 && -0.5 <= e <= 0.5 && r * left == e * d
    ensures -(d / (2.0 * r)) <= left <= d / (2.0 * r)
  {
    var bound := d / (2.0 * r);
    assert bound * (2.0 * r) == d;
    assert r * bound == 0.5 * d;
    Multiplied(d, e, 0.5);
    Multiplied(d, -0.5, e);
    assert left > bound ==> r * left > r * bound;
    assert left < -bound ==> r * left < r * -bound;
  }
}
