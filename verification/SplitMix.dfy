/** The 64-bit mixing function of the streaming generator, and its inverse. */
module SplitMix {

  function AddGamma(x: bv64): bv64 {
    x + 0x9E3779B97F4A7C15
  }

  function SubGamma(x: bv64): bv64 {
    x - 0x9E3779B97F4A7C15
  }

  function Fold30(x: bv64): bv64 {
    x ^ (x >> 30)
  }

  function Unfold30(x: bv64): bv64 {
    x ^ (x >> 30) ^ (x >> 60)
  }

  function Fold27(x: bv64): bv64 {
    x ^ (x >> 27)
  }

  function Unfold27(x: bv64): bv64 {
    x ^ (x >> 27) ^ (x >> 54)
  }

  function Fold31(x: bv64): bv64 {
    x ^ (x >> 31)
  }

  function Unfold31(x: bv64): bv64 {
    x ^ (x >> 31) ^ (x >> 62)
  }

  function Mul1(x: bv64): bv64 {
    x * 0xBF58476D1CE4E5B9
  }

  /** The inverse of the first multiplier modulo 2^64. */
  function UnMul1(x: bv64): bv64 {
    x * 0x96DE1B173F119089
  }

  function Mul2(x: bv64): bv64 {
    x * 0x94D049BB133111EB
  }

  /** The inverse of the second multiplier modulo 2^64. */
  function UnMul2(x: bv64): bv64 {
    x * 0x319642B2D24D8EC3
  }

  function SplitMix64(x: bv64): bv64 {
    var a := AddGamma(x);
    var b := Mul1(Fold30(a));
    var c := Mul2(Fold27(b));
    Fold31(c)
  }

  function UnMix(y: bv64): bv64 {
    var c := Unfold31(y);
    var b := Unfold27(UnMul2(c));
    var a := Unfold30(UnMul1(b));
    SubGamma(a)
  }

  lemma UndoMul1(x: bv64)
    ensures UnMul1(Mul1(x)) == x && Mul1(UnMul1(x)) == x
  {
    assert UnMul1(x * 0xBF58476D1CE4E5B9) == x;
    assert Mul1(x * 0x96DE1B173F119089) == x;
  }

  lemma UndoMul2(x: bv64)
    ensures UnMul2(Mul2(x)) == x && Mul2(UnMul2(x)) == x
  {
    assert UnMul2(x * 0x94D049BB133111EB) == x;
    assert Mul2(x * 0x319642B2D24D8EC3) == x;
  }

  lemma UndoFold30(x: bv64)
    ensures Unfold30(Fold30(x)) == x && Fold30(Unfold30(x)) == x
  {
    assert Unfold30(x ^ (x >> 30)) == x;
    assert Fold30(x ^ (x >> 30) ^ (x >> 60)) == x;
  }

  lemma UndoFold27(x: bv64)
    ensures Unfold27(Fold27(x)) == x && Fold27(Unfold27(x)) == x
  {
    assert Unfold27(x ^ (x >> 27)) == x;
    assert Fold27(x ^ (x >> 27) ^ (x >> 54)) == x;
  }

  lemma UndoFold31(x: bv64)
    ensures Unfold31(Fold31(x)) == x && Fold31(Unfold31(x)) == x
  {
    assert Unfold31(x ^ (x >> 31)) == x;
    assert Fold31(x ^ (x >> 31) ^ (x >> 62)) == x;
  }

  lemma UndoGamma(x: bv64)
    ensures SubGamma(AddGamma(x)) == x && AddGamma(SubGamma(x)) == x
  {
    assert SubGamma(x + 0x9E3779B97F4A7C15) == x;
    assert AddGamma(x - 0x9E3779B97F4A7C15) == x;
  }

  /** `SplitMix64` is a bijection on 64-bit words: `UnMix` undoes it on both sides. */
  lemma SplitMixBijective(x: bv64)
    ensures UnMix(SplitMix64(x)) == x
    ensures SplitMix64(UnMix(x)) == x
  {
    MixThenUnMix(x);
    UnMixThenMix(x);
  }

  lemma MixThenUnMix(x: bv64)
    ensures UnMix(SplitMix64(x)) == x
  {
    var a := AddGamma(x);
    var b := Mul1(Fold30(a));
    var c := Mul2(Fold27(b));
    assert SplitMix64(x) == Fold31(c);
    assert UnMix(Fold31(c)) == SubGamma(Unfold30(UnMul1(Unfold27(UnMul2(Unfold31(Fold31(c)))))));
    hide *;
    UndoFold31(c);
    UndoMul2(Fold27(b));
    UndoFold27(b);
    UndoMul1(Fold30(a));
    UndoFold30(a);
    UndoGamma(x);
  }

  lemma UnMixThenMix(y: bv64)
    ensures SplitMix64(UnMix(y)) == y
  {
    var c := Unfold31(y);
    var b := Unfold27(UnMul2(c));
    var a := Unfold30(UnMul1(b));
    assert UnMix(y) == SubGamma(a);
    assert SplitMix64(SubGamma(a)) == Fold31(Mul2(Fold27(Mul1(Fold30(AddGamma(SubGamma(a)))))));
    hide *;
    UndoGamma(a);
    UndoFold30(UnMul1(b));
    UndoMul1(b);
    UndoFold27(UnMul2(c));
    UndoMul2(c);
    UndoFold31(y);
  }

  /** Different words, so for a fixed seed different entity indices, get different hashes. */
  lemma SplitMixInjective(a: bv64, b: bv64)
    requires SplitMix64(a) == SplitMix64(b)
    ensures a == b
  {
    hide *;
    SplitMixBijective(a);
    SplitMixBijective(b);
  }

  function MinusSeed(seed: bv64, x: bv64): bv64 {
    x - seed
  }

  lemma MinusSeedPlus(seed: bv64, i: bv64)
    ensures MinusSeed(seed, seed + i) == i
  {
  }

  lemma MinusPlus(x: bv64, y: bv64)
    ensures (x - y) + y == x
  {
  }

  /** For a fixed seed, no two entity indices get the same hash. */
  lemma SeededHashesDiffer(seed: bv64, i: bv64, j: bv64)
    requires SplitMix64(seed + i) == SplitMix64(seed + j)
    ensures i == j
  {
    hide *;
    SplitMixInjective(seed + i, seed + j);
    MinusSeedPlus(seed, i);
    MinusSeedPlus(seed, j);
  }

  /** The first two outputs of the published generator seeded with zero. */
  lemma KnownValues()
    ensures SplitMix64(0) == 0xE220A8397B1DCDAF
    ensures SplitMix64(0x9E3779B97F4A7C15) == 0x6E789E6AA1B965F4
  {
  }
}
