/** Sharing entities out among shards under an arbitrary hash. */
module ShardTargets {
  import opened Text
  import Zipf

  function Shards(shardCount: nat): (k: nat)
    ensures k > 0
  {
    if shardCount == 0 then 1 else shardCount
  }

  function Targets(entityCount: nat, shardCount: nat): (t: seq<nat>)
    ensures |t| == Shards(shardCount)
  {
    var k := Shards(shardCount);
    seq(k, s => entityCount / k + if s < entityCount % k then 1 else 0)
  }

  method EntityTargetsPerShard(entityCount: nat, shardCount: nat) returns (targets: seq<nat>)
    ensures targets == Targets(entityCount, shardCount)
  {
    var k := Shards(shardCount);
    targets := seq(k, _ => entityCount / k);
    for s := 0 to entityCount % k
      invariant |targets| == k
      invariant forall i :: 0 <= i < k ==> targets[i] == entityCount / k + if i < s then 1 else 0
    {
      targets := targets[s := targets[s] + 1];
    }
  }

  lemma {:induction false} FlatSum(k: nat, q: nat, r: nat, t: seq<nat>)
    requires |t| == k && forall s :: 0 <= s < k ==> t[s] == q + if s < r then 1 else 0
    ensures Zipf.Sum(t) == k * q + if k < r then k else r
  {
    if k > 0 {
      FlatSum(k - 1, q, r, t[..k - 1]);
      assert k * q == (k - 1) * q + q;
    }
  }

  /** The targets add up to the number of entities. */
  lemma TargetsTotal(entityCount: nat, shardCount: nat)
    ensures Zipf.Sum(Targets(entityCount, shardCount)) == entityCount
  {
    var k := Shards(shardCount);
    FlatSum(k, entityCount / k, entityCount % k, Targets(entityCount, shardCount));
  }

  /** No two targets differ by more than one, and the larger ones come first. */
  predicate Balanced(t: seq<nat>) {
    forall i, j :: 0 <= i <= j < |t| ==> t[j] <= t[i] <= t[j] + 1
  }

  /** The targets are the one balanced way to share the entities out among the shards. */
  lemma TargetsIff(entityCount: nat, shardCount: nat, t: seq<nat>)
    ensures t == Targets(entityCount, shardCount) <==>
      |t| == (if shardCount == 0 then 1 else shardCount) && Zipf.Sum(t) == entityCount && Balanced(t)
  {
    TargetsTotal(entityCount, shardCount);
    var k := Shards(shardCount);
    if |t| == k && Zipf.Sum(t) == entityCount && Balanced(t) {
      var q := t[k - 1];
      var r := Larger(t);
      FlatSum(k, q, r, t);
      hide Zipf.Sum;
      QuotientOf(entityCount, k, q, r);
    }
  }

  lemma Larger(t: seq<nat>) returns (r: nat)
    requires t != [] && Balanced(t)
    ensures r < |t| && forall s :: 0 <= s < |t| ==> t[s] == t[|t| - 1] + if s < r then 1 else 0
  {
    r := 0;
    while t[r] != t[|t| - 1]
      invariant r < |t| && forall s :: 0 <= s < r ==> t[s] == t[|t| - 1] + 1
      decreases |t| - r
    {
      r := r + 1;
    }
  }

  lemma QuotientOf(n: nat, k: nat, q: nat, r: nat)
    requires r < k && n == k * q + r
    ensures n / k == q && n % k == r
  {
    var a, x := n / k, n % k;
    assert n == k * a + x && x < k;
    NotMore(k, a, x, q, r);
    NotMore(k, q, r, a, x);
  }

  lemma NotMore(k: nat, a: nat, x: nat, b: nat, y: nat)
    requires x < k && y < k && k * a + x == k * b + y
    ensures a >= b
  {
    if a < b {
      assert k * b == k * a + k * (b - a);
      AtLeastOnce(k, b - a);
    }
  }

  lemma AtLeastOnce(k: nat, d: nat)
    requires d > 0
    ensures k * d >= k
  {
    assert k * d == k + k * (d - 1);
  }

  // ── Allocation ────────────────────────────────────────────────────────────

  function Candidate(i: nat): string {
    "user_" + ZeroPadded(i, 6)
  }

  lemma CandidateInjective(i: nat, j: nat)
    requires Candidate(i) == Candidate(j)
    ensures i == j
  {
    assert Candidate(i)[5..] == ZeroPadded(i, 6) && Candidate(j)[5..] == ZeroPadded(j, 6);
    ZeroPaddedInjective(i, j, 6);
  }

  /** The candidates below `n` that hash to shard `s`, in order. */
  function Hits(shardOf: string -> nat, s: nat, n: nat): seq<string> {
    if n == 0 then []
    else Hits(shardOf, s, n - 1) + if shardOf(Candidate(n - 1)) == s then [Candidate(n - 1)] else []
  }

  lemma {:induction false} HitsGrow(shardOf: string -> nat, s: nat, m: nat, n: nat)
    requires m <= n
    ensures Hits(shardOf, s, m) <= Hits(shardOf, s, n)
  {
    if m < n {
      HitsGrow(shardOf, s, m, n - 1);
    }
  }

  /** Below `horizon`, the hash hits every shard often enough for its target. */
  ghost predicate Plentiful(shardOf: string -> nat, targets: seq<nat>, horizon: nat) {
    && (forall x :: shardOf(x) < |targets|)
    && forall s :: 0 <= s < |targets| ==> |Hits(shardOf, s, horizon)| >= targets[s]
  }

  function FirstHits(shardOf: string -> nat, s: nat, n: nat, target: nat): seq<string> {
    var h := Hits(shardOf, s, n);
    if |h| < target then h else h[..target]
  }

  function Allocated(shardOf: string -> nat, targets: seq<nat>, n: nat): (r: seq<seq<string>>)
    ensures |r| == |targets|
  {
    seq(|targets|, s requires 0 <= s < |targets| => FirstHits(shardOf, s, n, targets[s]))
  }

  lemma AllocatedNext(shardOf: string -> nat, targets: seq<nat>, n: nat)
    requires forall x :: shardOf(x) < |targets|
    ensures var byShard, shard := Allocated(shardOf, targets, n), shardOf(Candidate(n));
      Allocated(shardOf, targets, n + 1) ==
        if |byShard[shard]| < targets[shard] then byShard[shard := byShard[shard] + [Candidate(n)]] else byShard
  {
    var byShard, shard := Allocated(shardOf, targets, n), shardOf(Candidate(n));
    var after := if |byShard[shard]| < targets[shard] then byShard[shard := byShard[shard] + [Candidate(n)]] else byShard;
    forall s | 0 <= s < |targets| ensures Allocated(shardOf, targets, n + 1)[s] == after[s] {
      FirstHitsNext(shardOf, s, n, targets[s]);
    }
  }

  lemma FirstHitsNext(shardOf: string -> nat, s: nat, n: nat, target: nat)
    ensures var h := FirstHits(shardOf, s, n, target);
      FirstHits(shardOf, s, n + 1, target)
      == if shardOf(Candidate(n)) == s && |h| < target then h + [Candidate(n)] else h
  {
    var h := Hits(shardOf, s, n);
    assert Hits(shardOf, s, n + 1) == h + if shardOf(Candidate(n)) == s then [Candidate(n)] else [];
  }

  lemma AllocatedFull(shardOf: string -> nat, targets: seq<nat>, n: nat, horizon: nat)
    requires n <= horizon
    requires forall s :: 0 <= s < |targets| ==> |Allocated(shardOf, targets, n)[s]| >= targets[s]
    ensures Allocated(shardOf, targets, n) == Allocated(shardOf, targets, horizon)
  {
    hide Hits;
    forall s | 0 <= s < |targets|
      ensures Allocated(shardOf, targets, n)[s] == Allocated(shardOf, targets, horizon)[s]
    {
      assert |Allocated(shardOf, targets, n)[s]| >= targets[s];
      HitsGrow(shardOf, s, n, horizon);
    }
  }

  /** Each shard gets the first candidates that hash to it, as many as its target. `horizon` only
      says that the hash lets the loop finish. */
  method AllocateEntitiesByShard(targets: seq<nat>, shardOf: string -> nat, ghost horizon: nat)
    returns (byShard: seq<seq<string>>)
    requires Plentiful(shardOf, targets, horizon)
    ensures byShard == Allocated(shardOf, targets, horizon)
    ensures forall s :: 0 <= s < |targets| ==> byShard[s] == Hits(shardOf, s, horizon)[..targets[s]]
  {
    byShard := seq(|targets|, _ => []);
    var candidateIdx := 0;
    assert byShard == Allocated(shardOf, targets, 0);
    hide *;
    assert forall x :: shardOf(x) < |targets| by {
      PlentifulFor(shardOf, targets, horizon);
    }
    while exists s :: 0 <= s < |targets| && |byShard[s]| < targets[s]
      invariant candidateIdx <= horizon && byShard == Allocated(shardOf, targets, candidateIdx)
      decreases horizon - candidateIdx
    {
      AllocatedNext(shardOf, targets, candidateIdx);
      var candidate := Candidate(candidateIdx);
      var shard := shardOf(candidate);
      if |byShard[shard]| < targets[shard] {
        byShard := byShard[shard := byShard[shard] + [candidate]];
      }
      candidateIdx := candidateIdx + 1;
    }
    AllocatedFull(shardOf, targets, candidateIdx, horizon);
    PlentifulFor(shardOf, targets, horizon);
  }

  lemma PlentifulFor(shardOf: string -> nat, targets: seq<nat>, horizon: nat)
    requires Plentiful(shardOf, targets, horizon)
    ensures forall x :: shardOf(x) < |targets|
    ensures forall s :: 0 <= s < |targets| ==>
      |Hits(shardOf, s, horizon)| >= targets[s]
      && Allocated(shardOf, targets, horizon)[s] == Hits(shardOf, s, horizon)[..targets[s]]
  {
    hide Hits;
  }

  /** All names of shard `s` hash to it, and no name comes twice. */
  predicate OwnNames(shardOf: string -> nat, s: nat, names: seq<string>) {
    && (forall i :: 0 <= i < |names| ==> shardOf(names[i]) == s)
    && (forall i, j :: 0 <= i < j < |names| ==> names[i] != names[j])
  }

  ghost predicate OwnShards(shardOf: string -> nat, byShard: seq<seq<string>>) {
    forall s :: 0 <= s < |byShard| ==> OwnNames(shardOf, s, byShard[s])
  }

  lemma {:induction false} HitsOwn(shardOf: string -> nat, s: nat, n: nat)
    ensures OwnNames(shardOf, s, Hits(shardOf, s, n))
    ensures forall x <- Hits(shardOf, s, n) :: exists i :: 0 <= i < n && x == Candidate(i)
  {
    if n > 0 {
      HitsOwn(shardOf, s, n - 1);
      var before := Hits(shardOf, s, n - 1);
      forall x <- before ensures x != Candidate(n - 1) {
        var i :| 0 <= i < n - 1 && x == Candidate(i);
        if x == Candidate(n - 1) {
          CandidateInjective(i, n - 1);
        }
      }
      forall i | 0 <= i < |before| ensures before[i] != Candidate(n - 1) {
        assert before[i] in before;
      }
    }
  }

  /** And they are all the candidates that do, in the order of their numbers. */
  lemma {:induction false} HitsAll(shardOf: string -> nat, s: nat, n: nat, i: nat) returns (place: nat)
    requires i < n && shardOf(Candidate(i)) == s
    ensures place < |Hits(shardOf, s, n)| && Hits(shardOf, s, n)[place] == Candidate(i)
    ensures forall a :: 0 <= a < place ==> exists j :: 0 <= j < i && Hits(shardOf, s, n)[a] == Candidate(j)
    ensures forall a :: place < a < |Hits(shardOf, s, n)| ==> exists j :: i < j < n && Hits(shardOf, s, n)[a] == Candidate(j)
  {
    var before := Hits(shardOf, s, n - 1);
    if i == n - 1 {
      place := |before|;
      HitsOwn(shardOf, s, n - 1);
      forall a | 0 <= a < place ensures exists j :: 0 <= j < i && before[a] == Candidate(j) {
        assert before[a] in before;
      }
    } else {
      place := HitsAll(shardOf, s, n - 1, i);
    }
  }

  lemma AllocatedOwn(shardOf: string -> nat, targets: seq<nat>, n: nat)
    ensures OwnShards(shardOf, Allocated(shardOf, targets, n))
  {
    forall s | 0 <= s < |targets| ensures OwnNames(shardOf, s, Allocated(shardOf, targets, n)[s]) {
      HitsOwn(shardOf, s, n);
    }
  }

  // ── Row groups ────────────────────────────────────────────────────────────

  function TailGroup(entityCount: nat, perGroup: nat): (tail: nat)
    ensures tail <= entityCount
  {
    var size := if perGroup == 0 then 1 else perGroup;
    if entityCount == 0 then 0
    else if entityCount % size == 0 then if perGroup < entityCount then perGroup else entityCount
    else entityCount % size
  }

  /** Cutting the entities into groups of `perGroup`, the tail is exactly the last group: it comes
      after `k` full ones. */
  lemma TailIsLastGroup(entityCount: nat, perGroup: nat) returns (k: nat)
    requires perGroup > 0
    ensures var tail := TailGroup(entityCount, perGroup);
      entityCount - tail == k * perGroup && tail <= perGroup && (tail == 0 <==> entityCount == 0)
  {
    k := entityCount / perGroup;
    assert entityCount == k * perGroup + entityCount % perGroup;
    if entityCount > 0 && entityCount % perGroup == 0 {
      assert k > 0 && (k - 1) * perGroup == entityCount - perGroup;
      k := k - 1;
    }
  }
}
