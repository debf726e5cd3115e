/** The streaming fixture generator: chunking, and when its output is in partitioner order. */
module StreamingEvents {
  import opened Text
  import SplitMix
  import Zipf

  const BASE_NS := 1_735_689_600_000_000_000
  const STEP_NS := 60_000_000_000
  const I64_MAX := 0x7FFF_FFFF_FFFF_FFFF
  const TWO_64 := 0x1_0000_0000_0000_0000
  const PAD_LIMIT := 100_000_000

  datatype Event = Event(
    entity: string, ts: int, eventType: string,
    amount: int, price: real, category: string, quantity: int, discount: real, region: string, flag: bool)

  datatype Config = Config(eventTypeCount: nat, seed: bv64, chunkSize: nat)

  /** Two's-complement wrap-around to 64 bits. */
  function AsI64(n: int): (r: int)
    ensures -I64_MAX - 1 <= r <= I64_MAX
    ensures -I64_MAX - 1 <= n <= I64_MAX ==> r == n
  {
    (n + I64_MAX + 1) % TWO_64 - I64_MAX - 1
  }

  /** Rust's `%` on signed integers: the remainder takes the sign of the dividend. */
  function Rem(a: int, b: nat): (r: int)
    requires b > 0
    ensures -(b as int) < r < b
  {
    if a >= 0 then a % b else -(-a % b)
  }

  /** The per-entity shift of the first timestamp. */
  function EntityOffset(seed: bv64, e: nat): (o: int)
    ensures -STEP_NS < o < STEP_NS
  {
    Rem(AsI64(EntityHash(seed, e) as int), STEP_NS)
  }

  /** Timestamp `i` of an entity shifted by `offset`, before any wrap-around. */
  function TsFrom(offset: int, i: nat): int {
    BASE_NS + offset + i * STEP_NS
  }

  function ExactTs(seed: bv64, e: nat, i: nat): int {
    TsFrom(EntityOffset(seed, e), i)
  }

  function EntityName(e: nat): string {
    "user_" + ZeroPadded(e, 8)
  }

  /** Event `i` of entity `e`. */
  function EventAt(cfg: Config, e: nat, i: nat): Event {
    Event(
      EntityName(e),
      AsI64(ExactTs(cfg.seed, e, i)),
      "event_" + Decimal((e + i) % TWO_64 % (if cfg.eventTypeCount == 0 then 1 else cfg.eventTypeCount)),
      Rem(AsI64(i), 5000) + 1,
      9.99 + (i % 1024) as real * 0.01,
      "cat_" + Decimal(i % 16),
      Rem(AsI64(i), 10) + 1,
      if i % 3 == 0 then 0.1 else 0.0,
      "region_" + Decimal(e % 8),
      i % 2 == 0)
  }

  function EntityEvents(cfg: Config, e: nat, count: nat): (s: seq<Event>)
    ensures |s| == count
  {
    seq(count, i requires 0 <= i < count => EventAt(cfg, e, i))
  }

  /** The whole fixture: the events of entity 0, then of entity 1, and so on. */
  function AllEvents(cfg: Config, counts: seq<nat>): (s: seq<Event>)
    ensures |s| == Zipf.Sum(counts)
  {
    if counts == [] then []
    else AllEvents(cfg, counts[..|counts| - 1]) + EntityEvents(cfg, |counts| - 1, counts[|counts| - 1])
  }

  function Flatten(chunks: seq<seq<Event>>): seq<Event> {
    if chunks == [] then [] else Flatten(chunks[..|chunks| - 1]) + chunks[|chunks| - 1]
  }

  function ChunkLimit(cfg: Config): nat {
    if cfg.chunkSize == 0 then 1 else cfg.chunkSize
  }

  /** `for_each_chunk`, recording the slice each callback gets: whatever the chunk size, the slices
      put together are the whole fixture; all are full but the last, and none is empty. */
  method ForEachChunk(cfg: Config, counts: seq<nat>) returns (calls: seq<seq<Event>>)
    ensures Flatten(calls) == AllEvents(cfg, counts)
    ensures forall k :: 0 <= k < |calls| ==> 0 < |calls[k]| <= ChunkLimit(cfg)
    ensures forall k :: 0 <= k < |calls| - 1 ==> |calls[k]| == ChunkLimit(cfg)
  {
    hide EventAt;
    calls := [];
    var buf: seq<Event> := [];
    for e := 0 to |counts|
      invariant Flatten(calls) + buf == AllEvents(cfg, counts[..e])
      invariant |buf| < ChunkLimit(cfg)
      invariant forall k :: 0 <= k < |calls| ==> |calls[k]| == ChunkLimit(cfg)
    {
      var count := counts[e];
      assert counts[..e + 1][..e] == counts[..e];
      ghost var earlier := AllEvents(cfg, counts[..e]);
      for i := 0 to count
        invariant Flatten(calls) + buf == earlier + EntityEvents(cfg, e, count)[..i]
        invariant |buf| < ChunkLimit(cfg)
        invariant forall k :: 0 <= k < |calls| ==> |calls[k]| == ChunkLimit(cfg)
      {
        ghost var before := Flatten(calls) + buf;
        buf := buf + [EventAt(cfg, e, i)];
        assert Flatten(calls) + buf == before + [EventAt(cfg, e, i)];
        if |buf| >= cfg.chunkSize {
          assert (calls + [buf])[..|calls|] == calls;
          calls, buf := calls + [buf], [];
        }
      }
      assert EntityEvents(cfg, e, count)[..count] == EntityEvents(cfg, e, count);
    }
    assert counts[..|counts|] == counts;
    if buf != [] {
      assert (calls + [buf])[..|calls|] == calls;
      calls := calls + [buf];
    }
  }

  /** The fixture does not depend on the chunk size; with `ForEachChunk`, neither does what the
      callbacks see in all. */
  lemma {:induction false} ChunkSizeIrrelevant(cfg: Config, size: nat, counts: seq<nat>)
    ensures AllEvents(cfg.(chunkSize := size), counts) == AllEvents(cfg, counts)
  {
    if counts != [] {
      var n := |counts| - 1;
      ChunkSizeIrrelevant(cfg, size, counts[..n]);
      assert EntityEvents(cfg.(chunkSize := size), n, counts[n]) == EntityEvents(cfg, n, counts[n]);
    }
  }

  function EntityHash(seed: bv64, e: nat): bv64 {
    SplitMix.SplitMix64(seed + Word(e))
  }

  /** `e as u64`. */
  function Word(e: nat): bv64 {
    (e % TWO_64) as bv64
  }

  // ── Order ─────────────────────────────────────────────────────────────────

  predicate EventLeq(a: Event, b: Event) {
    LexLess(a.entity, b.entity) || (a.entity == b.entity && a.ts <= b.ts)
  }

  predicate Sorted(s: seq<Event>) {
    forall i, j :: 0 <= i < j < |s| ==> EventLeq(s[i], s[j])
  }

  /** The exact timestamps of the entity's `count` events all fit in 64 bits. */
  predicate InRange(seed: bv64, e: nat, count: nat) {
    count == 0 || ExactTs(seed, e, count - 1) <= I64_MAX
  }

  predicate AllInRange(seed: bv64, counts: seq<nat>) {
    forall e :: 0 <= e < |counts| ==> InRange(seed, e, counts[e])
  }

  /** Entities with events have names that come in the order of their numbers. */
  predicate NamesInOrder(counts: seq<nat>) {
    forall d, e :: 0 <= d < e < |counts| && counts[d] > 0 && counts[e] > 0 ==> LexLess(EntityName(d), EntityName(e))
  }

  predicate NonIncreasing(counts: seq<nat>) {
    forall i, j :: 0 <= i <= j < |counts| ==> counts[i] >= counts[j]
  }

  /** Every event of the fixture belongs to one of its entities. */
  lemma {:induction false} EventOrigin(cfg: Config, counts: seq<nat>, k: nat) returns (e: nat, i: nat)
    requires k < |AllEvents(cfg, counts)|
    ensures e < |counts| && i < counts[e] && AllEvents(cfg, counts)[k] == EventAt(cfg, e, i)
  {
    var n := |counts| - 1;
    var earlier := AllEvents(cfg, counts[..n]);
    if k < |earlier| {
      e, i := EventOrigin(cfg, counts[..n], k);
    } else {
      e, i := n, k - |earlier|;
    }
  }

  /** And event `i` of entity `e` is found behind all events of the entities before it. */
  lemma {:induction false} EventPlace(cfg: Config, counts: seq<nat>, e: nat, i: nat)
    requires e < |counts| && i < counts[e]
    ensures Zipf.Sum(counts[..e]) + i < |AllEvents(cfg, counts)|
    ensures AllEvents(cfg, counts)[Zipf.Sum(counts[..e]) + i] == EventAt(cfg, e, i)
  {
    hide EventAt;
    var n := |counts| - 1;
    if e < n {
      assert counts[..n][..e] == counts[..e];
      EventPlace(cfg, counts[..n], e, i);
    }
  }

  /** What event `i` of entity `e` holds, wherever it stands in the fixture. */
  lemma EventFields(cfg: Config, counts: seq<nat>, e: nat, i: nat)
    requires e < |counts| && i < counts[e] && i <= I64_MAX && e + i < TWO_64
    ensures Zipf.Sum(counts[..e]) + i < |AllEvents(cfg, counts)|
    ensures Holds(AllEvents(cfg, counts)[Zipf.Sum(counts[..e]) + i], e, i, cfg.eventTypeCount)
  {
    EventPlace(cfg, counts, e, i);
    hide AllEvents;
    HoldsAt(cfg, e, i);
  }

  /** The fields of event `i` of entity `e`: its names and labels end in decimals, its amounts go
      through 1 to 5000, and so on. */
  predicate Holds(ev: Event, e: nat, i: nat, types: nat) {
    && ev.entity == "user_" + ZeroPadded(e, 8)
    && Numbered(ev.eventType, "event_", if types == 0 then 0 else (e + i) % types)
    && ev.amount == i % 5000 + 1
    && ev.price * 100.0 == (999 + i % 1024) as real
    && Numbered(ev.category, "cat_", i % 16)
    && ev.quantity == i % 10 + 1
    && ev.discount * 10.0 == (if i % 3 == 0 then 1.0 else 0.0)
    && Numbered(ev.region, "region_", e % 8)
    && (ev.flag <==> i % 2 == 0)
  }

  lemma HoldsAt(cfg: Config, e: nat, i: nat)
    requires i <= I64_MAX && e + i < TWO_64
    ensures Holds(EventAt(cfg, e, i), e, i, cfg.eventTypeCount)
  {
    var ev, types := EventAt(cfg, e, i), if cfg.eventTypeCount == 0 then 1 else cfg.eventTypeCount;
    FieldsOf(cfg, e, i, types);
    hide *;
    SmallRem(i, 5000);
    SmallRem(i, 10);
    SmallWord(e + i);
    Cents(i % 1024);
    NumberedIs("event_", (e + i) % types);
    NumberedIs("cat_", i % 16);
    NumberedIs("region_", e % 8);
    Collected(ev, e, i, cfg.eventTypeCount, types);
  }

  lemma FieldsOf(cfg: Config, e: nat, i: nat, types: nat)
    requires types == if cfg.eventTypeCount == 0 then 1 else cfg.eventTypeCount
    ensures var ev := EventAt(cfg, e, i);
      && ev.entity == "user_" + ZeroPadded(e, 8) && ev.eventType == "event_" + Decimal((e + i) % TWO_64 % types)
      && ev.category == "cat_" + Decimal(i % 16) && ev.region == "region_" + Decimal(e % 8)
      && ev.amount == Rem(AsI64(i), 5000) + 1 && ev.quantity == Rem(AsI64(i), 10) + 1 && ev.flag == (i % 2 == 0)
      && ev.price == 9.99 + (i % 1024) as real * 0.01 && ev.discount == if i % 3 == 0 then 0.1 else 0.0
  {
    hide Rem;
    hide AsI64;
    hide Decimal;
    hide ZeroPadded;
  }

  lemma SmallRem(i: nat, b: nat)
    requires i <= I64_MAX && b > 0
    ensures Rem(AsI64(i), b) == i % b
  {
  }

  lemma SmallWord(n: nat)
    requires n < TWO_64
    ensures n % TWO_64 == n
  {
  }

  lemma Cents(x: nat)
    ensures (9.99 + x as real * 0.01) * 100.0 == (999 + x) as real
  {
  }

  lemma Collected(ev: Event, e: nat, i: nat, count: nat, types: nat)
    requires types == if count == 0 then 1 else count
    requires ev.entity == "user_" + ZeroPadded(e, 8) && Numbered(ev.eventType, "event_", (e + i) % types)
    requires ev.amount == i % 5000 + 1 && ev.price * 100.0 == (999 + i % 1024) as real
    requires Numbered(ev.category, "cat_", i % 16) && ev.quantity == i % 10 + 1
    requires ev.discount == (if i % 3 == 0 then 0.1 else 0.0) && Numbered(ev.region, "region_", e % 8)
    requires ev.flag == (i % 2 == 0)
    ensures Holds(ev, e, i, count)
  {
    hide Numbered;
    hide ZeroPadded;
  }

  /** The events of an entity are a minute apart, the first less than a minute from the start of 2025:
      by its hash, read as a signed number, modulo a minute; all this while 64 bits can tell. */
  lemma EventTimes(cfg: Config, counts: seq<nat>, e: nat, i: nat)
    requires e < |counts| && i < counts[e] && InRange(cfg.seed, e, counts[e])
    ensures Zipf.Sum(counts[..e]) + i < |AllEvents(cfg, counts)|
    ensures AllEvents(cfg, counts)[Zipf.Sum(counts[..e]) + i].ts ==
      1_735_689_600_000_000_000 + Within(EntityHash(cfg.seed, e) as int) + i * 60_000_000_000
  {
    EventPlace(cfg, counts, e, i);
    var ts, offset := AllEvents(cfg, counts)[Zipf.Sum(counts[..e]) + i].ts, EntityOffset(cfg.seed, e);
    assert ts == AsI64(ExactTs(cfg.seed, e, i));
    hide AllEvents;
    OffsetOf(cfg.seed, e);
    hide EntityOffset;
    hide EntityHash;
    hide Within;
    assert i * STEP_NS <= (counts[e] - 1) * STEP_NS;
  }

  /** A 64-bit word, read as a signed number, modulo a minute, with the sign of the number. */
  function Within(hash: int): int {
    if hash < 0x8000_0000_0000_0000 then hash % 60_000_000_000
    else -((0x1_0000_0000_0000_0000 - hash) % 60_000_000_000)
  }

  lemma OffsetOf(seed: bv64, e: nat)
    ensures EntityOffset(seed, e) == Within(EntityHash(seed, e) as int)
  {
    var hash := EntityHash(seed, e) as int;
    assert EntityOffset(seed, e) == Rem(AsI64(hash), STEP_NS);
    assert 0 <= hash < TWO_64;
    hide EntityHash;
    hide EntityOffset;
    SignedIs(hash);
    hide AsI64;
  }

  lemma SignedIs(n: nat)
    requires n < TWO_64
    ensures AsI64(n) == if n < 0x8000_0000_0000_0000 then n else n - TWO_64
  {
  }

  lemma {:induction false} SortedWhenInRange(cfg: Config, counts: seq<nat>)
    requires AllInRange(cfg.seed, counts) && NamesInOrder(counts)
    ensures Sorted(AllEvents(cfg, counts))
  {
    if counts != [] {
      var n := |counts| - 1;
      var earlier, last := AllEvents(cfg, counts[..n]), EntityEvents(cfg, n, counts[n]);
      SortedWhenInRange(cfg, counts[..n]);
      hide EventAt;
      hide EventLeq;
      hide LexLess;
      forall a, b | 0 <= a < b < |last| ensures EventLeq(last[a], last[b]) {
        OrderWithin(cfg, n, a, b, counts[n]);
      }
      hide InRange;
      forall a, b | 0 <= a < |earlier| && 0 <= b < |last| ensures EventLeq(earlier[a], last[b]) {
        EarlierBefore(cfg, counts, a, b);
      }
      hide NamesInOrder;
      SortedConcat(earlier, last);
    }
  }

  lemma EarlierBefore(cfg: Config, counts: seq<nat>, a: nat, b: nat)
    requires counts != [] && NamesInOrder(counts)
    requires a < |AllEvents(cfg, counts[..|counts| - 1])| && b < counts[|counts| - 1]
    ensures EventLeq(AllEvents(cfg, counts[..|counts| - 1])[a], EventAt(cfg, |counts| - 1, b))
  {
    var n := |counts| - 1;
    var e, i := EventOrigin(cfg, counts[..n], a);
    assert LexLess(EntityName(e), EntityName(n));
    hide *;
    OrderAcross(cfg, e, i, n, b);
  }

  lemma OrderWithin(cfg: Config, e: nat, a: nat, b: nat, count: nat)
    requires a < b < count && InRange(cfg.seed, e, count)
    ensures EventLeq(EventAt(cfg, e, a), EventAt(cfg, e, b))
  {
    hide EntityOffset;
    TsMonotone(EntityOffset(cfg.seed, e), a, b, count);
  }

  /** Events of different entities are in order exactly if their names are. */
  lemma OrderAcross(cfg: Config, d: nat, i: nat, e: nat, j: nat)
    requires d < e
    ensures EventLeq(EventAt(cfg, d, i), EventAt(cfg, e, j)) <==> LexLess(EntityName(d), EntityName(e))
  {
    hide LexLess;
    if EntityName(d) == EntityName(e) {
      assert EntityName(d)[5..] == ZeroPadded(d, 8) && EntityName(e)[5..] == ZeroPadded(e, 8);
      ZeroPaddedInjective(d, e, 8);
    }
  }

  lemma SortedConcat(a: seq<Event>, b: seq<Event>)
    requires Sorted(a) && Sorted(b)
    requires forall i, j :: 0 <= i < |a| && 0 <= j < |b| ==> EventLeq(a[i], b[j])
    ensures Sorted(a + b)
  {
  }

  lemma TsMonotone(offset: int, a: nat, b: nat, count: nat)
    requires -STEP_NS < offset < STEP_NS && a < b < count && TsFrom(offset, count - 1) <= I64_MAX
    ensures AsI64(TsFrom(offset, a)) < AsI64(TsFrom(offset, b))
  {
    assert a * STEP_NS < b * STEP_NS <= (count - 1) * STEP_NS;
  }

  /** The first timestamp to leave the 64-bit range wraps below its predecessor. */
  lemma FirstOverflow(offset: int, count: nat) returns (i: nat)
    requires -STEP_NS < offset < STEP_NS && count > 0 && TsFrom(offset, count - 1) > I64_MAX
    ensures 0 < i < count && AsI64(TsFrom(offset, i)) < AsI64(TsFrom(offset, i - 1))
  {
    var start := TsFrom(offset, 0);
    i := (I64_MAX - start) / STEP_NS + 1;
    assert TsFrom(offset, i) == start + i * STEP_NS && TsFrom(offset, i - 1) == start + (i - 1) * STEP_NS;
    assert I64_MAX < TsFrom(offset, i) <= I64_MAX + STEP_NS;
    assert TsFrom(offset, count - 1) == start + (count - 1) * STEP_NS;
    assert AsI64(TsFrom(offset, i)) == TsFrom(offset, i) - TWO_64;
  }

  lemma OverflowOutOfOrder(cfg: Config, e: nat, i: nat)
    ensures i > 0 && AsI64(ExactTs(cfg.seed, e, i)) < AsI64(ExactTs(cfg.seed, e, i - 1)) ==>
      !EventLeq(EventAt(cfg, e, i - 1), EventAt(cfg, e, i))
  {
    hide EntityOffset;
    LexLessIrreflexive(EntityName(e));
  }

  lemma OverflowAt(seed: bv64, e: nat, count: nat) returns (i: nat)
    requires !InRange(seed, e, count)
    ensures 0 < i < count && AsI64(ExactTs(seed, e, i)) < AsI64(ExactTs(seed, e, i - 1))
  {
    hide EntityOffset;
    i := FirstOverflow(EntityOffset(seed, e), count);
  }

  lemma UnsortedWhenOutOfRange(cfg: Config, counts: seq<nat>, e: nat)
    requires e < |counts| && !InRange(cfg.seed, e, counts[e])
    ensures !Sorted(AllEvents(cfg, counts))
  {
    hide *;
    var i := OverflowAt(cfg.seed, e, counts[e]);
    EventPlace(cfg, counts, e, i - 1);
    EventPlace(cfg, counts, e, i);
    OverflowOutOfOrder(cfg, e, i);
    Misordered(AllEvents(cfg, counts), Zipf.Sum(counts[..e]) + i - 1, Zipf.Sum(counts[..e]) + i);
  }

  lemma Misordered(s: seq<Event>, p: nat, q: nat)
    requires p < q < |s| && !EventLeq(s[p], s[q])
    ensures !Sorted(s)
  {
  }

  lemma {:induction false} SumBefore(counts: seq<nat>, d: nat, e: nat)
    requires d < e <= |counts|
    ensures Zipf.Sum(counts[..d]) + counts[d] <= Zipf.Sum(counts[..e])
  {
    assert counts[..e][..e - 1] == counts[..e - 1];
    if d < e - 1 {
      SumBefore(counts, d, e - 1);
    }
  }

  lemma UnsortedNames(cfg: Config, counts: seq<nat>, d: nat, e: nat)
    requires d < e < |counts| && counts[d] > 0 && counts[e] > 0 && !LexLess(EntityName(d), EntityName(e))
    ensures !Sorted(AllEvents(cfg, counts))
  {
    hide *;
    OrderAcross(cfg, d, 0, e, 0);
    SumBefore(counts, d, e);
    EventPlace(cfg, counts, d, 0);
    EventPlace(cfg, counts, e, 0);
    Misordered(AllEvents(cfg, counts), Zipf.Sum(counts[..d]), Zipf.Sum(counts[..e]));
  }

  /** Exactly when a fixture comes out in (entity, timestamp) order, whatever its counts. */
  lemma SortedIff(cfg: Config, counts: seq<nat>)
    ensures Sorted(AllEvents(cfg, counts)) <==> AllInRange(cfg.seed, counts) && NamesInOrder(counts)
  {
    hide LexLess;
    hide AllEvents;
    hide Sorted;
    if !NamesInOrder(counts) {
      var d, e :| 0 <= d < e < |counts| && counts[d] > 0 && counts[e] > 0 && !LexLess(EntityName(d), EntityName(e));
      UnsortedNames(cfg, counts, d, e);
    } else if AllInRange(cfg.seed, counts) {
      SortedWhenInRange(cfg, counts);
    } else {
      var e :| 0 <= e < |counts| && !InRange(cfg.seed, e, counts[e]);
      UnsortedWhenOutOfRange(cfg, counts, e);
    }
  }

  // ── When the names are in order ───────────────────────────────────────────

  /** Names of the same number of digits are in numeric order, and so are padded ones. */
  lemma NamesOrdered(d: nat, e: nat, width: nat)
    requires d < e < Pow10(width) && width >= 8 && (width > 8 ==> d >= Pow10(width - 1))
    ensures LexLess(EntityName(d), EntityName(e))
  {
    NameDigits(d, width);
    NameDigits(e, width);
    FixedDigitsMonotone(d, e, width);
    LexLessPrefix("user_", ZeroPadded(d, 8), ZeroPadded(e, 8));
  }

  lemma NameDigits(n: nat, width: nat)
    requires n < Pow10(width) && width >= 8 && (width > 8 ==> n >= Pow10(width - 1))
    ensures ZeroPadded(n, 8) == FixedDigits(n, width)
  {
    ZeroPaddedIsFixed(n, width);
    DecimalLength(n, width);
    DecimalLength(n, width - 1);
  }

  /** With one digit more, from nines to a one and zeros, names are out of order. */
  lemma NamesBreak(k: nat)
    requires k >= 8
    ensures !LexLess(EntityName(Pow10(k) - 1), EntityName(Pow10(k)))
  {
    assert Pow10(k) == 10 * Pow10(k - 1);
    var below, above := Pow10(k) - 1, Pow10(k);
    hide *;
    NameUnpadded(below, k);
    NameUnpadded(above, k);
    NinesLead(k);
    PowerLeads(k);
    NineAfterOne("user_", Decimal(below), Decimal(above));
  }

  lemma NineAfterOne(user: string, a: string, b: string)
    requires a != [] && b != [] && a[0] == '9' && b[0] == '1'
    ensures !LexLess(user + a, user + b)
  {
    assert !LexLess(a, b);
    hide LexLess;
    LexLessPrefix(user, a, b);
  }

  /** From `k` digits on there is nothing to pad. */
  lemma NameUnpadded(n: nat, k: nat)
    requires k >= 8 && n >= Pow10(k - 1)
    ensures EntityName(n) == "user_" + Decimal(n)
  {
    DecimalLength(n, k - 1);
    hide Pow10;
    hide Decimal;
  }

  /** Between two entities with events, all have some. */
  predicate Solid(counts: seq<nat>) {
    forall d, e, f :: 0 <= d <= e <= f < |counts| && counts[d] > 0 && counts[f] > 0 ==> counts[e] > 0
  }

  /** There are events on both sides of the step from `k` to `k + 1` digits. */
  predicate DigitStep(counts: seq<nat>, k: nat) {
    Pow10(k) < |counts| && counts[Pow10(k) - 1] > 0 && counts[Pow10(k)] > 0
  }

  lemma {:induction false} PowerBelow(e: nat, k: nat) returns (width: nat)
    requires e >= Pow10(k)
    ensures width >= k && Pow10(width) <= e < Pow10(width + 1)
    decreases e - Pow10(k)
  {
    if e < Pow10(k + 1) {
      width := k;
    } else {
      width := PowerBelow(e, k + 1);
    }
  }

  lemma {:induction false} PowersGrow(j: nat, k: nat)
    requires j <= k
    ensures Pow10(j) <= Pow10(k)
  {
    if j < k {
      PowersGrow(j, k - 1);
    }
  }

  lemma SameDigits(counts: seq<nat>, d: nat, e: nat)
    requires Solid(counts) && d < e < |counts| && counts[d] > 0 && counts[e] > 0
    requires forall k :: k >= 8 ==> !DigitStep(counts, k)
    ensures LexLess(EntityName(d), EntityName(e))
  {
    if e < Pow10(8) {
      NamesOrdered(d, e, 8);
    } else {
      var width := PowerBelow(e, 8);
      if d < Pow10(width) {
        assert counts[Pow10(width) - 1] > 0 && counts[Pow10(width)] > 0;
        assert DigitStep(counts, width);
      } else {
        NamesOrdered(d, e, width + 1);
      }
    }
  }

  /** Without gaps, names are in order exactly if no step to more than eight digits is inside. */
  lemma NamesIff(counts: seq<nat>)
    requires Solid(counts)
    ensures NamesInOrder(counts) <==> forall k :: k >= 8 ==> !DigitStep(counts, k)
  {
    hide LexLess;
    if k: nat :| k >= 8 && DigitStep(counts, k) {
      NamesBreak(k);
      assert Pow10(k) - 1 < Pow10(k);
    } else {
      forall d, e | 0 <= d < e < |counts| && counts[d] > 0 && counts[e] > 0
        ensures LexLess(EntityName(d), EntityName(e))
      {
        SameDigits(counts, d, e);
      }
    }
  }

  /** If the counts never rise, that is up to 10^8 entities with events. */
  lemma FallingNamesIff(counts: seq<nat>)
    requires NonIncreasing(counts)
    ensures NamesInOrder(counts) <==> |counts| <= PAD_LIMIT || counts[PAD_LIMIT] == 0
  {
    NamesIff(counts);
    hide NamesInOrder;
    PadLimitIsPower();
    if |counts| > PAD_LIMIT && counts[PAD_LIMIT] > 0 {
      assert counts[PAD_LIMIT - 1] >= counts[PAD_LIMIT];
      assert DigitStep(counts, 8);
    } else {
      forall k | k >= 8 ensures !DigitStep(counts, k) {
        PowersGrow(8, k);
      }
    }
  }

  lemma PadLimitIsPower()
    ensures Pow10(8) == PAD_LIMIT && Pow10(7) == PAD_LIMIT / 10
  {
    assert Pow10(2) == 100;
    assert Pow10(4) == 10000;
    assert Pow10(6) == 1000000;
  }

  lemma {:induction false} PowerLeads(k: nat)
    ensures Decimal(Pow10(k))[0] == '1'
  {
    if k > 0 {
      PowerLeads(k - 1);
      assert Decimal(Pow10(k)) == Decimal(Pow10(k - 1)) + ['0'];
    }
  }

  lemma {:induction false} NinesLead(k: nat)
    requires k > 0
    ensures Decimal(Pow10(k) - 1)[0] == '9'
  {
    if k > 1 {
      NinesLead(k - 1);
      assert (Pow10(k) - 1) / 10 == Pow10(k - 1) - 1;
    } else {
      assert Pow10(1) == 10;
    }
  }

  // ── The bound that holds for every seed ───────────────────────────────────

  const MAX_EVENTS := 124_794_707

  /** The seed that gives entity `e` the largest possible offset. */
  function WorstSeed(e: nat): bv64 {
    SplitMix.UnMix(59_999_999_999) - Word(e)
  }

  lemma WorstOffset(e: nat)
    ensures EntityOffset(WorstSeed(e), e) == STEP_NS - 1
  {
    SplitMix.SplitMixBijective(59_999_999_999);
    SplitMix.MinusPlus(SplitMix.UnMix(59_999_999_999), Word(e));
    assert EntityHash(WorstSeed(e), e) as int == 59_999_999_999;
  }

  /** A fixture is in order for every seed if and only if its names are and no entity has more than
      124,794,707 events. */
  lemma SortedForEverySeed(cfg: Config, counts: seq<nat>)
    ensures (forall seed: bv64 :: Sorted(AllEvents(cfg.(seed := seed), counts))) <==>
      NamesInOrder(counts) && forall e :: 0 <= e < |counts| ==> counts[e] <= MAX_EVENTS
  {
    hide LexLess;
    hide AllEvents;
    hide Sorted;
    if e :| 0 <= e < |counts| && counts[e] > MAX_EVENTS {
      UnsortedForWorst(cfg, counts, e);
    } else {
      SortedIff(cfg, counts);
      forall seed: bv64 ensures Sorted(AllEvents(cfg.(seed := seed), counts)) <==> NamesInOrder(counts) {
        SortedIff(cfg.(seed := seed), counts);
        AllShort(seed, counts);
      }
      hide NamesInOrder;
      assert cfg.(seed := cfg.seed) == cfg;
    }
  }

  lemma AllShort(seed: bv64, counts: seq<nat>)
    requires forall e :: 0 <= e < |counts| ==> counts[e] <= MAX_EVENTS
    ensures AllInRange(seed, counts)
  {
    hide EntityOffset;
  }

  lemma UnsortedForWorst(cfg: Config, counts: seq<nat>, e: nat)
    requires e < |counts| && counts[e] > MAX_EVENTS
    ensures !Sorted(AllEvents(cfg.(seed := WorstSeed(e)), counts))
  {
    WorstOffset(e);
    hide EntityOffset;
    hide WorstSeed;
    assert !InRange(WorstSeed(e), e, counts[e]);
    hide *;
    UnsortedWhenOutOfRange(cfg.(seed := WorstSeed(e)), counts, e);
  }

  /** For the generator's own allocation with a skew that is not negative: in order for every seed if
      and only if the first entity has at most 124,794,707 events and at most 10^8 entities have any. */
  lemma AllocatedForEverySeed(cfg: Config, total: nat, powers: seq<real>)
    requires Zipf.Positive(powers) && forall i, j :: 0 <= i <= j < |powers| ==> powers[i] <= powers[j]
    ensures var counts := Zipf.Allocation(total, powers);
      (forall seed: bv64 :: Sorted(AllEvents(cfg.(seed := seed), counts))) <==>
      (counts == [] || counts[0] <= MAX_EVENTS) && (|counts| <= PAD_LIMIT || counts[PAD_LIMIT] == 0)
  {
    var counts := Zipf.Allocation(total, powers);
    forall i, j | 0 <= i <= j < |counts| ensures counts[i] >= counts[j] {
      Zipf.AllocationMonotone(total, powers, i, j);
    }
    SortedForEverySeed(cfg, counts);
    FallingNamesIff(counts);
    hide NamesInOrder;
    hide AllEvents;
    hide Sorted;
    assert forall e :: 0 <= e < |counts| ==> counts[e] <= counts[0];
  }
}
