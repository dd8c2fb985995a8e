/** Apportioning a count over weighted buckets by rounding, with the drift repaired at the ends. */
module StatusPlans {

  datatype Status = Open | InProgress | Resolved

  datatype Mix = Mix(status: Status, weight: nat)

  const STATUS_MIX: seq<Mix> := [Mix(Open, 9), Mix(InProgress, 5), Mix(Resolved, 12)]

  function TotalWeight(mix: seq<Mix>): nat {
    if mix == [] then 0 else TotalWeight(mix[..|mix| - 1]) + mix[|mix| - 1].weight
  }

  /** `Math.round(weight / total * count)` in exact arithmetic. */
  function Share(weight: nat, total: nat, count: nat): nat
    requires total > 0
  {
    (2 * weight * count + total) / (2 * total)
  }

  function Repeat(s: Status, n: nat): (r: seq<Status>)
    ensures |r| == n && forall i :: 0 <= i < n ==> r[i] == s
  {
    seq(n, i => s)
  }

  function Expanded(mix: seq<Mix>, total: nat, count: nat): seq<Status>
    requires total > 0
  {
    if mix == [] then []
    else Expanded(mix[..|mix| - 1], total, count) + Repeat(mix[|mix| - 1].status, Share(mix[|mix| - 1].weight, total, count))
  }

  /** `lastIndexOf` */
  function LastIndexOf(plan: seq<Status>, s: Status): (r: int)
    ensures -1 <= r < |plan|
    ensures r >= 0 ==> plan[r] == s
    ensures forall i :: r < i < |plan| ==> plan[i] != s
  {
    if plan == [] then -1
    else if plan[|plan| - 1] == s then |plan| - 1
    else LastIndexOf(plan[..|plan| - 1], s)
  }

  // ---- The drift of rounding ------------------------------------------------------------------------------------------

  /** `n` is a nearest integer to the weight's share, whichever way a tie goes. */
  predicate Nearest(n: int, weight: nat, total: nat, count: nat) {
    -(total as int) <= 2 * (n * total - weight * count) <= total
  }

  lemma ShareIsNearest(weight: nat, total: nat, count: nat)
    requires total > 0
    ensures Nearest(Share(weight, total, count), weight, total, count)
  {
    var n := Share(weight, total, count);
    var d := 2 * total;
    var x := 2 * weight * count + total;
    assert x == d * (x / d) + x % d && 0 <= x % d < d;
    assert d * n == 2 * (n * total);
  }

  lemma ShareRoundsHalfUp(weight: nat, total: nat, count: nat)
    requires total > 0
    ensures -(total as int) < 2 * (Share(weight, total, count) * total - weight * count) <= total
  {
    var n := Share(weight, total, count);
    var d := 2 * total;
    var x := 2 * weight * count + total;
    assert x == d * (x / d) + x % d && 0 <= x % d < d;
    assert d * n == 2 * (n * total);
  }

  function Sum(ns: seq<int>): int { if ns == [] then 0 else Sum(ns[..|ns| - 1]) + ns[|ns| - 1] }

  lemma {:induction false} SumDrift(mix: seq<Mix>, ns: seq<int>, total: nat, count: nat)
    requires |ns| == |mix| && forall i | 0 <= i < |mix| :: Nearest(ns[i], mix[i].weight, total, count)
    ensures -(|mix| * total) <= 2 * (Sum(ns) * total - TotalWeight(mix) * count) <= |mix| * total
  {
    if mix != [] {
      var m := |mix| - 1;
      SumDrift(mix[..m], ns[..m], total, count);
      assert Nearest(ns[m], mix[m].weight, total, count);
      OneMore(m, Sum(ns[..m]), ns[m], TotalWeight(mix[..m]), mix[m].weight, total, count);
      hide Nearest;
    }
  }

  lemma OneMore(m: int, sum: int, n: int, weights: int, weight: int, total: int, count: int)
    requires -(m * total) <= 2 * (sum * total - weights * count) <= m * total
    requires -total <= 2 * (n * total - weight * count) <= total
    ensures -((m + 1) * total) <= 2 * ((sum + n) * total - (weights + weight) * count) <= (m + 1) * total
  {
    assert (sum + n) * total == sum * total + n * total;
    assert (weights + weight) * count == weights * count + weight * count;
    assert (m + 1) * total == m * total + total;
  }

  /** Rounding the shares of `m` weights misses the count by at most half of `m`, rounded down. */
  lemma DriftIsAtMostHalf(mix: seq<Mix>, ns: seq<int>, count: nat)
    requires |ns| == |mix| && TotalWeight(mix) > 0
    requires forall i | 0 <= i < |mix| :: Nearest(ns[i], mix[i].weight, TotalWeight(mix), count)
    ensures -(|mix| / 2) <= Sum(ns) - count <= |mix| / 2
  {
    SumDrift(mix, ns, TotalWeight(mix), count);
    hide Nearest;
    Divided(Sum(ns), count, |mix|, TotalWeight(mix));
  }

  lemma Divided(sum: int, count: int, m: int, total: nat)
    requires total > 0 && -(m * total) <= 2 * (sum * total - total * count) <= m * total
    ensures -m <= 2 * (sum - count) <= m
  {
    var x := 2 * (sum - count);
    assert x * total == 2 * (sum * total - total * count);
    assert (-m) * total == -(m * total);
    Cancel(x, m, total);
    Cancel(-m, x, total);
  }

  lemma Cancel(x: int, y: int, total: nat)
    requires total > 0 && x * total <= y * total
    ensures x <= y
  {
    assert (y - x) * total == y * total - x * total;
    assert y - x <= -1 ==> (y - x) * total <= -1 * total;
  }

  function Shares(mix: seq<Mix>, total: nat, count: nat): (r: seq<int>)
    requires total > 0
    ensures |r| == |mix| && forall i :: 0 <= i < |mix| ==> r[i] == Share(mix[i].weight, total, count)
  {
    seq(|mix|, i requires 0 <= i < |mix| => Share(mix[i].weight, total, count))
  }

  lemma {:induction false} ExpandedLength(mix: seq<Mix>, total: nat, count: nat)
    requires total > 0
    ensures |Expanded(mix, total, count)| == Sum(Shares(mix, total, count))
  {
    if mix != [] {
      ExpandedLength(mix[..|mix| - 1], total, count);
      assert Shares(mix, total, count)[..|mix| - 1] == Shares(mix[..|mix| - 1], total, count);
    }
  }

  // ---- The plan -------------------------------------------------------------------------------------------------------

  function Weights(): nat { TotalWeight(STATUS_MIX) }

  lemma MixWeighs26()
    ensures Weights() == 26
  {
    assert STATUS_MIX[..2] == [Mix(Open, 9), Mix(InProgress, 5)];
    assert STATUS_MIX[..2][..1] == [Mix(Open, 9)];
    assert TotalWeight([Mix(Open, 9)]) == 9;
    assert TotalWeight(STATUS_MIX[..2]) == 14;
  }

  lemma ExpandedParts(count: nat)
    ensures Weights() == 26
    ensures Expanded(STATUS_MIX, 26, count)
         == Repeat(Open, Share(9, 26, count)) + Repeat(InProgress, Share(5, 26, count)) + Repeat(Resolved, Share(12, 26, count))
  {
    MixWeighs26();
    assert STATUS_MIX[..2] == [Mix(Open, 9), Mix(InProgress, 5)];
    assert STATUS_MIX[..2][..1] == [Mix(Open, 9)];
    assert [Mix(Open, 9)][..0] == [];
    hide Share;
    var a, b, c := Repeat(Open, Share(9, 26, count)), Repeat(InProgress, Share(5, 26, count)), Repeat(Resolved, Share(12, 26, count));
    assert Expanded([Mix(Open, 9)], 26, count) == [] + a == a;
    assert Expanded(STATUS_MIX[..2], 26, count) == a + b;
    assert Expanded(STATUS_MIX, 26, count) == a + b + c;
  }

  /** The three buckets miss the count by at most one, and never overshoot without a resolved one to give back. */
  lemma DriftIsAtMostOne(count: nat)
    ensures Weights() == 26
    ensures -1 <= |Expanded(STATUS_MIX, 26, count)| - count <= 1
    ensures |Expanded(STATUS_MIX, 26, count)| > count ==> Share(12, 26, count) > 0
  {
    MixWeighs26();
    forall i | 0 <= i < |STATUS_MIX| ensures Nearest(Shares(STATUS_MIX, 26, count)[i], STATUS_MIX[i].weight, 26, count) {
      ShareIsNearest(STATUS_MIX[i].weight, 26, count);
    }
    hide Share, Nearest;
    DriftIsAtMostHalf(STATUS_MIX, Shares(STATUS_MIX, 26, count), count);
    ExpandedLength(STATUS_MIX, 26, count);
    ResolvedToSpare(count);
  }

  lemma ResolvedToSpare(count: nat)
    ensures |Expanded(STATUS_MIX, 26, count)| > count ==> Share(12, 26, count) > 0
  {
    ExpandedParts(count);
    hide Expanded;
  }

  /** Exactly `count` statuses: the expansion, one more open at the end or one resolved fewer. */
  method StatusPlan(count: nat) returns (plan: seq<Status>)
    ensures |plan| == count
    ensures var base := Expanded(STATUS_MIX, 26, count);
      plan == if |base| < count then base + [Open] else if |base| > count then base[..|base| - 1] else base
  {
    DriftIsAtMostOne(count);
    ExpandedParts(count);
    ghost var base := Expanded(STATUS_MIX, 26, count);
    var totalWeight := Weights();
    plan := [];
    hide Share;
    for k := 0 to |STATUS_MIX|
      invariant plan == Expanded(STATUS_MIX[..k], 26, count)
    {
      assert STATUS_MIX[..k + 1][..k] == STATUS_MIX[..k];
      var n := Share(STATUS_MIX[k].weight, totalWeight, count);
      ghost var before := plan;
      for i := 0 to n
        invariant plan == before + Repeat(STATUS_MIX[k].status, i)
      {
        plan := plan + [STATUS_MIX[k].status];
      }
    }
    assert STATUS_MIX[..|STATUS_MIX|] == STATUS_MIX && plan == base;
    hide Expanded;
    while |plan| < count
      invariant plan == base || (|base| == count - 1 && plan == base + [Open])
      decreases count - |plan|
    {
      plan := plan + [Open];
    }
    while |plan| > count
      invariant if |base| > count then plan == base || plan == base[..|base| - 1] else plan == (if |base| < count then base + [Open] else base)
      decreases |plan|
    {
      assert plan == base && base[|base| - 1] == Resolved;
      var idx := LastIndexOf(plan, Resolved);
      var at := if idx >= 0 then idx else |plan| - 1;
      plan := plan[..at] + plan[at + 1..];
    }
  }

  /** Of each status its rounded share, but for at most one open more or one resolved fewer. */
  lemma PlanFollowsTheMix(count: nat, plan: seq<Status>)
    requires var base := Expanded(STATUS_MIX, 26, count);
      plan == if |base| < count then base + [Open] else if |base| > count then base[..|base| - 1] else base
    ensures multiset(plan)[InProgress] == Share(5, 26, count)
    ensures Share(9, 26, count) <= multiset(plan)[Open] <= Share(9, 26, count) + 1
    ensures Share(12, 26, count) - 1 <= multiset(plan)[Resolved] <= Share(12, 26, count)
    ensures |plan| == count
  {
    var base := Expanded(STATUS_MIX, 26, count);
    DriftIsAtMostOne(count);
    ExpandedParts(count);
    var a, b, c := Share(9, 26, count), Share(5, 26, count), Share(12, 26, count);
    RepeatCounts(Open, a);
    RepeatCounts(InProgress, b);
    RepeatCounts(Resolved, c);
    assert multiset(base) == multiset(Repeat(Open, a)) + multiset(Repeat(InProgress, b)) + multiset(Repeat(Resolved, c));
    if |base| > count {
      assert base == base[..|base| - 1] + [base[|base| - 1]] && base[|base| - 1] == Resolved;
    }
  }

  /** In numbers: of every twenty-six, five in progress, nine open and twelve resolved, each rounded to the nearest, ties
      up, with one more open or one resolved fewer at most. */
  lemma PlanInNumbers(count: nat, plan: seq<Status>)
    requires var base := Expanded(STATUS_MIX, 26, count);
      plan == if |base| < count then base + [Open] else if |base| > count then base[..|base| - 1] else base
    ensures -26 < 2 * (26 * multiset(plan)[InProgress] - 5 * count) <= 26
    ensures -26 < 2 * (26 * multiset(plan)[Open] - 9 * count) <= 26 + 52
    ensures -26 - 52 < 2 * (26 * multiset(plan)[Resolved] - 12 * count) <= 26
  {
    PlanFollowsTheMix(count, plan);
    ShareRoundsHalfUp(5, 26, count);
    ShareRoundsHalfUp(9, 26, count);
    ShareRoundsHalfUp(12, 26, count);
    hide Share, Expanded;
  }

  /** The open ones come first and the resolved last, but for the one open that may close the plan. */
  lemma PlanIsGrouped(count: nat, plan: seq<Status>, i: nat, j: nat)
    requires var base := Expanded(STATUS_MIX, 26, count);
      plan == if |base| < count then base + [Open] else if |base| > count then base[..|base| - 1] else base
    requires i < j < |plan| - 1
    ensures plan[i] == Open || plan[j] == Resolved || plan[i] == plan[j]
  {
    ExpandedParts(count);
    hide Share, Expanded;
  }

  lemma {:induction false} RepeatCounts(s: Status, n: nat)
    ensures multiset(Repeat(s, n))[s] == n && forall t | t != s :: multiset(Repeat(s, n))[t] == 0
    decreases n
  {
    if n > 0 {
      RepeatCounts(s, n - 1);
      assert Repeat(s, n) == Repeat(s, n - 1) + [s];
    } else {
      assert Repeat(s, n) == [];
    }
  }
}
