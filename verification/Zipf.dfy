/** Apportioning a total over entities by Zipf weights, in exact arithmetic. */
module Zipf {

  function SumReal(s: seq<real>): real {
    if s == [] then 0.0 else SumReal(s[..|s| - 1]) + s[|s| - 1]
  }

  function Sum(s: seq<nat>): nat {
    if s == [] then 0 else Sum(s[..|s| - 1]) + s[|s| - 1]
  }

  predicate Positive(s: seq<real>) {
    forall i :: 0 <= i < |s| ==> s[i] > 0.0
  }

  function Weights(powers: seq<real>): (w: seq<real>)
    requires Positive(powers)
    ensures |w| == |powers| && Positive(w)
  {
    seq(|powers|, i requires 0 <= i < |powers| => 1.0 / powers[i])
  }

  /** The exact share of entity `i`: its weight over the sum of the weights, times the total. */
  function Quota(total: nat, powers: seq<real>, i: nat): (q: real)
    requires Positive(powers) && i < |powers|
    ensures q >= 0.0
  {
    SumPositive(Weights(powers));
    Weights(powers)[i] / SumReal(Weights(powers)) * total as real
  }

  function Quotas(total: nat, powers: seq<real>): (q: seq<real>)
    requires Positive(powers)
    ensures |q| == |powers| && forall i :: 0 <= i < |q| ==> q[i] == Quota(total, powers, i) >= 0.0
  {
    seq(|powers|, i requires 0 <= i < |powers| => Quota(total, powers, i))
  }

  function Floors(q: seq<real>): (f: seq<nat>)
    requires forall i :: 0 <= i < |q| ==> q[i] >= 0.0
    ensures |f| == |q| && forall i :: 0 <= i < |f| ==> f[i] == q[i].Floor
  {
    seq(|q|, i requires 0 <= i < |q| => q[i].Floor)
  }

  lemma {:induction false} SumPositive(s: seq<real>)
    requires Positive(s)
    ensures SumReal(s) >= 0.0 && (s != [] ==> SumReal(s) > 0.0)
  {
    if s != [] {
      SumPositive(s[..|s| - 1]);
    }
  }

  lemma {:induction false} SumScaled(s: seq<real>, t: seq<real>, c: real)
    requires |t| == |s| && forall i :: 0 <= i < |s| ==> t[i] == s[i] * c
    ensures SumReal(t) == SumReal(s) * c
  {
    if s != [] {
      SumScaled(s[..|s| - 1], t[..|t| - 1], c);
    }
  }

  /** The quotas add up to the total. */
  lemma QuotasSum(total: nat, powers: seq<real>)
    requires Positive(powers) && powers != []
    ensures SumReal(Quotas(total, powers)) == total as real
  {
    var w := Weights(powers);
    SumPositive(w);
    var c := total as real / SumReal(w);
    forall i | 0 <= i < |w| ensures Quotas(total, powers)[i] == w[i] * c {
      Rearrange(w[i], SumReal(w), total as real);
    }
    SumScaled(w, Quotas(total, powers), c);
  }

  lemma Rearrange(a: real, b: real, t: real)
    requires b > 0.0
    ensures a / b * t == a * (t / b)
  {
  }

  /** Rounding every quota down loses less than one per entity. */
  lemma {:induction false} FloorsSum(q: seq<real>)
    requires forall i :: 0 <= i < |q| ==> q[i] >= 0.0
    ensures Sum(Floors(q)) as real <= SumReal(q)
    ensures q != [] ==> SumReal(q) < (Sum(Floors(q)) + |q|) as real
  {
    if q != [] {
      var p := q[..|q| - 1];
      FloorsSum(p);
      assert Floors(q)[..|q| - 1] == Floors(p);
    }
  }

  /** `s` with its first `k` entries one larger. */
  function Bump(s: seq<nat>, k: nat): (r: seq<nat>)
    ensures |r| == |s| && forall i :: 0 <= i < |s| ==> r[i] == s[i] + if i < k then 1 else 0
  {
    seq(|s|, i requires 0 <= i < |s| => s[i] + if i < k then 1 else 0)
  }

  lemma {:induction false} BumpSum(s: seq<nat>, k: nat)
    requires k <= |s|
    ensures Sum(Bump(s, k)) == Sum(s) + k
  {
    if s != [] {
      var p := s[..|s| - 1];
      assert Bump(s, k)[..|s| - 1] == Bump(p, if k == |s| then k - 1 else k);
      BumpSum(p, if k == |s| then k - 1 else k);
    }
  }

  /** The shortfall after rounding down. */
  function Shortfall(total: nat, powers: seq<real>): int
    requires Positive(powers)
  {
    total - Sum(Floors(Quotas(total, powers)))
  }

  lemma ShortfallSmall(total: nat, powers: seq<real>)
    requires Positive(powers) && powers != []
    ensures 0 <= Shortfall(total, powers) < |powers|
  {
    QuotasSum(total, powers);
    FloorsSum(Quotas(total, powers));
  }

  /** What every entity gets. */
  function Allocation(total: nat, powers: seq<real>): (counts: seq<nat>)
    requires Positive(powers)
    ensures |counts| == if total == 0 then 0 else |powers|
  {
    if powers == [] || total == 0 then []
    else
      ShortfallSmall(total, powers);
      Bump(Floors(Quotas(total, powers)), Shortfall(total, powers))
  }

  /** `zipf_event_allocation`; `powers[i]` stands for `(i + 1)` raised to `alpha`. */
  method ZipfEventAllocation(total: nat, entityCount: nat, powers: seq<real>) returns (counts: seq<nat>)
    requires |powers| == entityCount && Positive(powers)
    ensures counts == Allocation(total, powers)
  {
    if entityCount == 0 || total == 0 {
      return [];
    }
    var weights := Weights(powers);
    SumPositive(weights);
    var totalWeight := SumReal(weights);
    var share := weights;
    for k := 0 to entityCount
      invariant |share| == entityCount
      invariant forall i :: 0 <= i < k ==> share[i] == weights[i] / totalWeight
      invariant forall i :: k <= i < entityCount ==> share[i] == weights[i]
    {
      share := share[k := share[k] / totalWeight];
    }
    counts := [];
    for k := 0 to entityCount
      invariant |counts| == k
      invariant forall i :: 0 <= i < k ==> counts[i] == Quota(total, powers, i).Floor
    {
      assert share[k] * total as real == Quota(total, powers, k);
      counts := counts + [(share[k] * total as real).Floor];
    }
    ghost var floors := Floors(Quotas(total, powers));
    assert counts == floors;
    ShortfallSmall(total, powers);
    var given := Sum(counts);
    counts := HandOutRemainder(counts, if total >= given then total - given else 0);
  }

  /** The remainder loop hands out the whole shortfall, one event each to the first entities. */
  method HandOutRemainder(floors: seq<nat>, shortfall: nat) returns (counts: seq<nat>)
    requires shortfall <= |floors|
    ensures counts == Bump(floors, shortfall)
  {
    counts := floors;
    var leftover, i := shortfall, 0;
    while leftover > 0 && i < |counts|
      invariant i + leftover == shortfall && i <= |counts|
      invariant counts == Bump(floors, i)
    {
      counts := counts[i := counts[i] + 1];
      leftover := leftover - 1;
      i := i + 1;
    }
  }

  /** The counts add up to the total, except that with no entities a positive total is dropped. */
  lemma AllocationTotal(total: nat, powers: seq<real>)
    requires Positive(powers)
    ensures Sum(Allocation(total, powers)) == total <==> powers != [] || total == 0
  {
    if powers != [] && total > 0 {
      ShortfallSmall(total, powers);
      BumpSum(Floors(Quotas(total, powers)), Shortfall(total, powers));
    }
  }

  /** `q` shares the total out in inverse proportion to the powers. */
  ghost predicate Apportions(q: seq<real>, total: nat, powers: seq<real>) {
    && |q| == |powers| && SumReal(q) == total as real
    && (forall i, j :: 0 <= i < |q| && 0 <= j < |q| ==> q[i] * powers[i] == q[j] * powers[j])
  }

  /** Exactly one list does so: the quotas. */
  lemma QuotasIff(total: nat, powers: seq<real>, q: seq<real>)
    requires Positive(powers) && powers != []
    ensures Apportions(q, total, powers) <==> q == Quotas(total, powers)
  {
    QuotasShare(total, powers);
    if Apportions(q, total, powers) {
      SharesAreQuotas(total, powers, q);
    }
  }

  lemma QuotasShare(total: nat, powers: seq<real>)
    requires Positive(powers) && powers != []
    ensures Apportions(Quotas(total, powers), total, powers)
  {
    QuotasSum(total, powers);
    var quotas := Quotas(total, powers);
    forall i, j | 0 <= i < |quotas| && 0 <= j < |quotas| ensures quotas[i] * powers[i] == quotas[j] * powers[j] {
      SameProduct(total, powers, i, j);
    }
    hide Quota;
    hide Quotas;
    hide SumReal;
    hide Weights;
  }

  lemma SameProduct(total: nat, powers: seq<real>, i: nat, j: nat)
    requires Positive(powers) && i < |powers| && j < |powers|
    ensures var quotas := Quotas(total, powers); quotas[i] * powers[i] == quotas[j] * powers[j]
  {
    var quotas := Quotas(total, powers);
    var x, y := quotas[i], quotas[j];
    assert x == Quota(total, powers, i) && y == Quota(total, powers, j);
    hide *;
    QuotaTimesPower(total, powers, i);
    QuotaTimesPower(total, powers, j);
  }

  lemma QuotaTimesPower(total: nat, powers: seq<real>, i: nat)
    requires Positive(powers) && i < |powers|
    ensures SumReal(Weights(powers)) > 0.0
    ensures Quota(total, powers, i) * powers[i] == total as real / SumReal(Weights(powers))
  {
    var w, power, t := Weights(powers)[i], powers[i], total as real;
    SumPositive(Weights(powers));
    var sum := SumReal(Weights(powers));
    assert Quota(total, powers, i) == w / sum * t && w == 1.0 / power && power > 0.0;
    hide *;
    Rearrange(w, sum, t);
    Cancel(power, t / sum);
  }

  lemma SharesAreQuotas(total: nat, powers: seq<real>, q: seq<real>)
    requires Positive(powers) && powers != [] && Apportions(q, total, powers)
    ensures q == Quotas(total, powers)
  {
    var w, c := Weights(powers), q[0] * powers[0];
    SumPositive(w);
    forall i | 0 <= i < |q| ensures q[i] == w[i] * c {
      Share(q[i], powers[i], c);
    }
    SumScaled(w, q, c);
    Factor(SumReal(w), c, total as real);
    hide SumReal;
    forall i | 0 <= i < |q| ensures q[i] == Quota(total, powers, i) {
      Rearrange(w[i], SumReal(w), total as real);
    }
  }

  lemma Factor(sum: real, c: real, total: real)
    requires sum > 0.0 && total == sum * c
    ensures c == total / sum
  {
  }

  lemma Share(q: real, power: real, c: real)
    requires power > 0.0 && q * power == c
    ensures q == 1.0 / power * c
  {
  }

  lemma Cancel(power: real, c: real)
    requires power > 0.0
    ensures 1.0 / power * c * power == c
  {
  }

  /** The first `k` entities get one more than their share rounded down, the others just that. */
  predicate RoundsUpFirst(counts: seq<nat>, q: seq<real>, k: nat) {
    |counts| == |q| && forall i :: 0 <= i < |q| ==> counts[i] == q[i].Floor + if i < k then 1 else 0
  }

  /** The allocation is the one list of counts that adds up to the total and gives each entity its
      share in inverse proportion to the powers, rounded down, with one more for the first ones. */
  lemma AllocationIff(total: nat, powers: seq<real>, q: seq<real>, counts: seq<nat>)
    requires Positive(powers) && powers != [] && total > 0 && Apportions(q, total, powers)
    ensures counts == Allocation(total, powers) <==>
      Sum(counts) == total && exists k: nat :: k <= |q| && RoundsUpFirst(counts, q, k)
  {
    QuotasIff(total, powers, q);
    var floors, shortfall := Floors(q), Shortfall(total, powers);
    ShortfallSmall(total, powers);
    AllocationTotal(total, powers);
    hide Quotas;
    hide Quota;
    hide SumReal;
    hide Apportions;
    hide Weights;
    if counts == Allocation(total, powers) {
      assert RoundsUpFirst(counts, q, shortfall);
    }
    if Sum(counts) == total && exists k: nat :: k <= |q| && RoundsUpFirst(counts, q, k) {
      var k: nat :| k <= |q| && RoundsUpFirst(counts, q, k);
      assert counts == Bump(floors, k);
      BumpSum(floors, k);
    }
  }

  /** With `alpha >= 0` the powers do not decrease, and then the counts do not increase. */
  lemma AllocationMonotone(total: nat, powers: seq<real>, i: nat, j: nat)
    requires Positive(powers) && i <= j < |Allocation(total, powers)|
    requires powers[i] <= powers[j]
    ensures Allocation(total, powers)[i] >= Allocation(total, powers)[j]
  {
    QuotaMonotone(total, powers, i, j);
  }

  lemma QuotaMonotone(total: nat, powers: seq<real>, i: nat, j: nat)
    requires Positive(powers) && i < |powers| && j < |powers| && powers[i] <= powers[j]
    ensures Quota(total, powers, i) >= Quota(total, powers, j)
  {
    var w, a, b, t := Weights(powers), powers[i], powers[j], total as real;
    SumPositive(w);
    var sum, x, y := SumReal(w), w[i], w[j];
    assert x == 1.0 / a && y == 1.0 / b && a > 0.0;
    assert Quota(total, powers, i) == x / sum * t && Quota(total, powers, j) == y / sum * t;
    hide *;
    Reciprocal(a, b);
    ShareMonotone(y, x, sum, t);
  }

  lemma ShareMonotone(a: real, b: real, sum: real, t: real)
    requires a <= b && sum > 0.0 && t >= 0.0
    ensures a / sum * t <= b / sum * t
  {
    assert a / sum <= b / sum;
    Product(a / sum, b / sum, t);
  }

  lemma Reciprocal(a: real, b: real)
    requires 0.0 < a <= b
    ensures 1.0 / a >= 1.0 / b
  {
    assert 1.0 / a - 1.0 / b == (b - a) / (a * b);
  }

  lemma Product(a: real, b: real, c: real)
    requires a <= b && 0.0 <= c
    ensures a * c <= b * c
  {
  }

  predicate WithinOne(s: seq<nat>, i: nat, j: nat)
    requires i < |s| && j < |s|
  {
    s[i] <= s[j] + 1 && s[j] <= s[i] + 1
  }

  /** With `alpha = 0` all powers are equal, and then the counts differ by at most one. */
  lemma AllocationUniform(total: nat, powers: seq<real>, i: nat, j: nat)
    requires Positive(powers) && i < |Allocation(total, powers)| && j < |Allocation(total, powers)|
    requires powers[i] == powers[j]
    ensures WithinOne(Allocation(total, powers), i, j)
  {
    QuotaMonotone(total, powers, i, j);
    QuotaMonotone(total, powers, j, i);
  }
}
