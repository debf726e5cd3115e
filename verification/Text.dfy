/** Strings as the programs compare and format them: code-point order and zero-padded decimals. */
module Text {

  datatype Option<+T> = None | Some(value: T)

  /** Strict lexicographic order by code point (Python's and Rust's `<` on strings). */
  predicate LexLess(a: string, b: string) {
    b != [] && (a == [] || a[0] < b[0] || (a[0] == b[0] && LexLess(a[1..], b[1..])))
  }

  predicate LexLeq(a: string, b: string) {
    a == b || LexLess(a, b)
  }

  lemma {:induction false} LexLessIrreflexive(a: string)
    ensures !LexLess(a, a)
  {
    if a != [] {
      LexLessIrreflexive(a[1..]);
    }
  }

  lemma {:induction false} LexLessTransitive(a: string, b: string, c: string)
    requires LexLess(a, b) && LexLess(b, c)
    ensures LexLess(a, c)
  {
    if a != [] && a[0] == b[0] && b[0] == c[0] {
      LexLessTransitive(a[1..], b[1..], c[1..]);
    }
  }

  lemma {:induction false} LexLessTotal(a: string, b: string)
    ensures a == b || LexLess(a, b) || LexLess(b, a)
  {
    if a != [] && b != [] && a[0] == b[0] {
      LexLessTotal(a[1..], b[1..]);
      assert a == [a[0]] + a[1..] && b == [b[0]] + b[1..];
    }
  }

  /** A shared prefix does not change the order. */
  lemma {:induction false} LexLessPrefix(p: string, a: string, b: string)
    ensures LexLess(p + a, p + b) <==> LexLess(a, b)
  {
    if p == [] {
      assert p + a == a && p + b == b;
    } else {
      assert (p + a)[1..] == p[1..] + a && (p + b)[1..] == p[1..] + b;
      LexLessPrefix(p[1..], a, b);
    }
  }

  /** The first difference between two strings of one length decides, whatever follows. */
  lemma {:induction false} LexLessExtend(a: string, b: string, x: string, y: string)
    requires |a| == |b| && LexLess(a, b)
    ensures LexLess(a + x, b + y)
  {
    if a[0] == b[0] {
      LexLessExtend(a[1..], b[1..], x, y);
    }
    assert (a + x)[1..] == a[1..] + x && (b + y)[1..] == b[1..] + y;
  }

  lemma ConcatAssoc(a: string, b: string, c: string)
    ensures a + (b + c) == a + b + c
  {
  }

  // ── Decimals ──────────────────────────────────────────────────────────────

  function DigitChar(d: nat): (c: char)
    requires d < 10
  {
    '0' + d as char
  }

  predicate IsDigit(c: char) {
    '0' <= c <= '9'
  }

  function DigitValue(c: char): (d: nat)
    requires IsDigit(c)
    ensures d < 10
  {
    c as nat - '0' as nat
  }

  /** The shortest decimal of `n`. */
  function Decimal(n: nat): (s: string)
    ensures s != [] && forall i :: 0 <= i < |s| ==> IsDigit(s[i])
  {
    if n < 10 then [DigitChar(n)] else Decimal(n / 10) + [DigitChar(n % 10)]
  }

  /** `n` characters `'0'`. */
  function Zeros(n: nat): (s: string)
    ensures |s| == n
  {
    seq(n, _ => '0')
  }

  /** The decimal of `n`, padded on the left with zeros to at least `width` characters. */
  function ZeroPadded(n: nat, width: nat): (s: string) {
    var d := Decimal(n);
    if |d| < width then Zeros(width - |d|) + d else d
  }

  /** The last `width` decimal digits of `n`. */
  function FixedDigits(n: nat, width: nat): (s: string)
    ensures |s| == width
    ensures forall i :: 0 <= i < |s| ==> IsDigit(s[i])
  {
    if width == 0 then [] else FixedDigits(n / 10, width - 1) + [DigitChar(n % 10)]
  }

  function ParseDecimal(s: string): (n: nat)
    requires forall i :: 0 <= i < |s| ==> IsDigit(s[i])
  {
    if s == [] then 0 else 10 * ParseDecimal(s[..|s| - 1]) + DigitValue(s[|s| - 1])
  }

  function Pow10(k: nat): (p: nat)
    ensures p > 0
  {
    if k == 0 then 1 else 10 * Pow10(k - 1)
  }

  lemma {:induction false} ZeroPaddedIsFixed(n: nat, width: nat)
    requires n < Pow10(width) && width > 0
    ensures ZeroPadded(n, width) == FixedDigits(n, width)
  {
    if n < 10 {
      FixedZero(width - 1);
    } else {
      assert n / 10 < Pow10(width - 1);
      assert width > 1;
      ZeroPaddedIsFixed(n / 10, width - 1);
      DecimalLength(n / 10, width - 1);
    }
  }

  lemma {:induction false} FixedZero(width: nat)
    ensures FixedDigits(0, width) == Zeros(width)
  {
    if width > 0 {
      FixedZero(width - 1);
    }
  }

  lemma {:induction false} DecimalLength(n: nat, width: nat)
    requires width > 0
    ensures |Decimal(n)| <= width <==> n < Pow10(width)
  {
    if width == 1 {
      assert Pow10(1) == 10 * Pow10(0);
    } else if n >= 10 {
      DecimalLength(n / 10, width - 1);
    } else {
      assert Pow10(width) == 100 * Pow10(width - 2);
    }
  }

  /** Below `10^width`, zero padding makes code-point order agree with numeric order. */
  lemma {:induction false} FixedDigitsMonotone(a: nat, b: nat, width: nat)
    requires a < b < Pow10(width)
    ensures LexLess(FixedDigits(a, width), FixedDigits(b, width))
  {
    var x, y := [DigitChar(a % 10)], [DigitChar(b % 10)];
    if a / 10 < b / 10 {
      FixedDigitsMonotone(a / 10, b / 10, width - 1);
      LexLessExtend(FixedDigits(a / 10, width - 1), FixedDigits(b / 10, width - 1), x, y);
    } else {
      LexLessPrefix(FixedDigits(a / 10, width - 1), x, y);
    }
  }

  lemma {:induction false} ParseFixedDigits(n: nat, width: nat)
    requires n < Pow10(width)
    ensures ParseDecimal(FixedDigits(n, width)) == n
  {
    if width > 0 {
      var s := FixedDigits(n, width);
      assert s[..|s| - 1] == FixedDigits(n / 10, width - 1);
      ParseFixedDigits(n / 10, width - 1);
    }
  }

  lemma {:induction false} FixedOfParse(s: string)
    requires forall i :: 0 <= i < |s| ==> IsDigit(s[i])
    ensures ParseDecimal(s) < Pow10(|s|) && FixedDigits(ParseDecimal(s), |s|) == s
  {
    if s != [] {
      FixedOfParse(s[..|s| - 1]);
    }
  }

  /** Different numbers have different decimals, padded or not. */
  lemma {:induction false} ZeroPaddedInjective(a: nat, b: nat, width: nat)
    requires ZeroPadded(a, width) == ZeroPadded(b, width)
    ensures a == b
  {
    ParseZeroPadded(a, width);
    ParseZeroPadded(b, width);
  }

  lemma {:induction false} ParseZeroPadded(n: nat, width: nat)
    ensures forall i :: 0 <= i < |ZeroPadded(n, width)| ==> IsDigit(ZeroPadded(n, width)[i])
    ensures ParseDecimal(ZeroPadded(n, width)) == n
  {
    ParseDecimalOf(n);
    if |Decimal(n)| < width {
      ParseLeadingZeros(width - |Decimal(n)|, Decimal(n));
    }
  }

  lemma {:induction false} ParseDecimalOf(n: nat)
    ensures ParseDecimal(Decimal(n)) == n
  {
    if n >= 10 {
      var s := Decimal(n);
      assert s[..|s| - 1] == Decimal(n / 10);
      ParseDecimalOf(n / 10);
    } else {
      assert Decimal(n)[..0] == [];
    }
  }

  /** `digits` is the decimal of `n`. */
  predicate IsDecimal(digits: string, n: nat) {
    && digits != [] && (forall c <- digits :: IsDigit(c)) && (digits[0] == '0' ==> n == 0 && |digits| == 1)
    && ParseDecimal(digits) == n
  }

  lemma {:induction false} DecimalIs(n: nat)
    ensures IsDecimal(Decimal(n), n)
  {
    ParseDecimalOf(n);
    if n >= 10 {
      DecimalIs(n / 10);
    }
  }

  /** `s` is `lead` and then the decimal of `n`. */
  predicate Numbered(s: string, lead: string, n: nat) {
    lead <= s && IsDecimal(s[|lead|..], n)
  }

  lemma NumberedIs(lead: string, n: nat)
    ensures Numbered(lead + Decimal(n), lead, n)
  {
    DecimalIs(n);
    assert (lead + Decimal(n))[|lead|..] == Decimal(n);
  }

  lemma {:induction false} ParseLeadingZeros(k: nat, s: string)
    requires forall i :: 0 <= i < |s| ==> IsDigit(s[i])
    ensures ParseDecimal(Zeros(k) + s) == ParseDecimal(s)
  {
    var t := Zeros(k) + s;
    if s != [] {
      assert t[..|t| - 1] == Zeros(k) + s[..|s| - 1];
      ParseLeadingZeros(k, s[..|s| - 1]);
    } else if k > 0 {
      assert t[..|t| - 1] == Zeros(k - 1) + s;
      ParseLeadingZeros(k - 1, s);
    }
  }

  // ── White space ───────────────────────────────────────────────────────────

  /** Unicode's `White_Space` property, which Rust's `trim` goes by. */
  predicate UnicodeSpace(c: char) {
    var n := c as int;
    9 <= n <= 13 || n == 32 || n == 0x85 || n == 0xA0 || n == 0x1680 || 0x2000 <= n <= 0x200A
    || n == 0x2028 || n == 0x2029 || n == 0x202F || n == 0x205F || n == 0x3000
  }

  predicate Blank(space: char -> bool, s: string) {
    forall c <- s :: space(c)
  }

  function Strip(space: char -> bool, s: string): string {
    if s != [] && space(s[0]) then Strip(space, s[1..])
    else if s != [] && space(s[|s| - 1]) then Strip(space, s[..|s| - 1])
    else s
  }

  lemma {:induction false} StripPadded(space: char -> bool, before: string, s: string, after: string)
    requires Blank(space, before) && Blank(space, after) && Strip(space, s) == s
    ensures Strip(space, before + s + after) == s
    decreases |before| + |after|
  {
    var padded := before + s + after;
    if before != [] {
      assert padded[0] == before[0] && padded[1..] == before[1..] + s + after;
      StripPadded(space, before[1..], s, after);
    } else if after != [] {
      StripTail(space, s, after);
      assert before + s + after == s + after;
    } else {
      assert padded == s;
    }
  }

  lemma {:induction false} StripTail(space: char -> bool, s: string, after: string)
    requires Blank(space, after) && Strip(space, s) == s
    ensures Strip(space, s + after) == s
    decreases |after|
  {
    var padded := s + after;
    if after == [] {
      assert padded == s;
    } else if s == [] {
      assert padded == after && after[1..] == s + after[1..];
      StripTail(space, s, after[1..]);
    } else {
      StrippedEnds(space, s);
      assert padded[0] == s[0] && padded[|padded| - 1] == after[|after| - 1];
      assert padded[..|padded| - 1] == s + after[..|after| - 1];
      StripTail(space, s, after[..|after| - 1]);
    }
  }

  lemma {:induction false} StripShorter(space: char -> bool, s: string)
    ensures |Strip(space, s)| <= |s|
  {
    if s != [] && space(s[0]) {
      StripShorter(space, s[1..]);
    } else if s != [] && space(s[|s| - 1]) {
      StripShorter(space, s[..|s| - 1]);
    }
  }

  lemma StrippedEnds(space: char -> bool, s: string)
    requires Strip(space, s) == s && s != []
    ensures !space(s[0]) && !space(s[|s| - 1])
  {
    StripShorter(space, s[1..]);
    StripShorter(space, s[..|s| - 1]);
  }

  /** Stripping takes white space off both ends, and nothing is left to take. */
  lemma {:induction false} Stripped(space: char -> bool, s: string) returns (before: string, after: string)
    ensures s == before + Strip(space, s) + after && Blank(space, before) && Blank(space, after)
    ensures Strip(space, Strip(space, s)) == Strip(space, s)
  {
    before, after := [], [];
    if s != [] && space(s[0]) {
      before, after := Stripped(space, s[1..]);
      before := [s[0]] + before;
      assert s == [s[0]] + s[1..];
    } else if s != [] && space(s[|s| - 1]) {
      before, after := Stripped(space, s[..|s| - 1]);
      after := after + [s[|s| - 1]];
      assert s == s[..|s| - 1] + [s[|s| - 1]];
    }
  }

  // ── Sorting by a string key ───────────────────────────────────────────────

  function InsertBy<T>(key: T -> string, x: T, s: seq<T>): (r: seq<T>)
    ensures multiset(r) == multiset(s) + multiset{x}
  {
    if s == [] || LexLeq(key(x), key(s[0])) then [x] + s
    else
      assert s == [s[0]] + s[1..];
      [s[0]] + InsertBy(key, x, s[1..])
  }

  function SortBy<T>(key: T -> string, s: seq<T>): (r: seq<T>)
    ensures multiset(r) == multiset(s) && |r| == |s|
  {
    if s == [] then []
    else
      assert s == [s[0]] + s[1..];
      InsertBy(key, s[0], SortBy(key, s[1..]))
  }

  predicate SortedBy<T>(key: T -> string, s: seq<T>) {
    forall i, j :: 0 <= i < j < |s| ==> LexLeq(key(s[i]), key(s[j]))
  }

  lemma LexLeqTransitive(a: string, b: string, c: string)
    requires LexLeq(a, b) && LexLeq(b, c)
    ensures LexLeq(a, c)
  {
    if a != b && b != c {
      LexLessTransitive(a, b, c);
    }
  }

  lemma {:induction false} InsertBySorted<T>(key: T -> string, x: T, s: seq<T>)
    requires SortedBy(key, s)
    ensures SortedBy(key, InsertBy(key, x, s))
  {
    hide LexLeq;
    if s == [] {
    } else if LexLeq(key(x), key(s[0])) {
      forall j | 0 <= j < |s| ensures LexLeq(key(x), key(s[j])) {
        if j > 0 {
          LexLeqTransitive(key(x), key(s[0]), key(s[j]));
        }
      }
    } else {
      LexLeqTotal(key(x), key(s[0]));
      InsertBySorted(key, x, s[1..]);
      var r := InsertBy(key, x, s[1..]);
      forall j | 0 <= j < |r| ensures LexLeq(key(s[0]), key(r[j])) {
        assert r[j] in multiset(r);
        assert r[j] == x || r[j] in s[1..];
      }
    }
  }

  lemma LexLeqTotal(a: string, b: string)
    ensures LexLeq(a, b) || LexLeq(b, a)
  {
    LexLessTotal(a, b);
  }

  lemma {:induction false} SortBySorted<T>(key: T -> string, s: seq<T>)
    ensures SortedBy(key, SortBy(key, s))
  {
    if s != [] {
      SortBySorted(key, s[1..]);
      InsertBySorted(key, s[0], SortBy(key, s[1..]));
    }
  }

  predicate DistinctBy<T>(key: T -> string, s: seq<T>) {
    forall i, j :: 0 <= i < j < |s| ==> key(s[i]) != key(s[j])
  }

  lemma {:induction false} DistinctCount<T>(key: T -> string, s: seq<T>, x: T)
    requires DistinctBy(key, s)
    ensures multiset(s)[x] <= 1
  {
    if s != [] {
      var n := |s| - 1;
      DistinctCount(key, s[..n], x);
      assert s == s[..n] + [s[n]];
      if s[n] == x {
        assert x !in s[..n];
      }
    }
  }

  lemma Twice<T>(r: seq<T>, i: nat, j: nat)
    requires i < j < |r| && r[i] == r[j]
    ensures multiset(r)[r[i]] >= 2
  {
    assert r == r[..j] + [r[j]] + r[j + 1..];
    assert r[i] in r[..j];
  }

  lemma DistinctPermuted<T>(key: T -> string, s: seq<T>, r: seq<T>)
    requires DistinctBy(key, s) && multiset(r) == multiset(s)
    ensures DistinctBy(key, r)
  {
    forall i, j | 0 <= i < j < |r| ensures key(r[i]) != key(r[j]) {
      assert r[i] in multiset(s) && r[j] in multiset(s);
      var a :| 0 <= a < |s| && s[a] == r[i];
      var b :| 0 <= b < |s| && s[b] == r[j];
      if a == b {
        DistinctCount(key, s, r[i]);
        Twice(r, i, j);
        assert false;
      }
    }
  }

  /** Sorting by distinct keys puts them in strict order. */
  lemma SortByStrict<T>(key: T -> string, s: seq<T>)
    requires DistinctBy(key, s)
    ensures var r := SortBy(key, s); forall i, j :: 0 <= i < j < |r| ==> LexLess(key(r[i]), key(r[j]))
    ensures DistinctBy(key, SortBy(key, s))
  {
    SortBySorted(key, s);
    DistinctPermuted(key, s, SortBy(key, s));
  }
}
