/** The command line's automatic row cap: finding a `| limit` stage in a query, and appending one. */
module LimitInjection {
  import opened Text

  predicate AsciiSpace(c: char) {
    c == ' ' || c == '\t' || c == '\n' || c as int == 12 || c == '\r'
  }

  predicate AsciiAlphanumeric(c: char) {
    IsDigit(c) || 'a' <= c <= 'z' || 'A' <= c <= 'Z'
  }

  predicate WordChar(c: char) {
    AsciiAlphanumeric(c) || c == '_'
  }

  predicate EqIgnoreCase(c: char, lower: char)
    requires 'a' <= lower <= 'z'
  {
    c == lower || c == lower - 'a' + 'A'
  }

  predicate IsLimitWord(w: string) {
    && |w| == 5 && EqIgnoreCase(w[0], 'l') && EqIgnoreCase(w[1], 'i') && EqIgnoreCase(w[2], 'm')
    && EqIgnoreCase(w[3], 'i') && EqIgnoreCase(w[4], 't')
  }

  /** The bar at `i`, white space, and the word `limit` at `j`, which ends there. */
  predicate LimitAt(q: string, i: nat, j: nat) {
    && i < j && j + 5 <= |q| && q[i] == '|'
    && (forall k :: i < k < j ==> AsciiSpace(q[k]))
    && IsLimitWord(q[j..j + 5])
    && (j + 5 < |q| ==> !WordChar(q[j + 5]))
  }

  ghost predicate HasLimit(q: string) {
    exists i: nat, j: nat :: LimitAt(q, i, j)
  }

  method HasExplicitLimit(query: string) returns (found: bool)
    ensures found <==> HasLimit(query)
  {
    hide IsLimitWord;
    hide AsciiSpace;
    var i := 0;
    while i < |query|
      invariant i <= |query|
      invariant forall k: nat, j: nat :: k < i ==> !LimitAt(query, k, j)
    {
      if query[i] == '|' {
        var j := i + 1;
        while j < |query| && AsciiSpace(query[j])
          invariant i < j <= |query|
          invariant forall k :: i < k < j ==> AsciiSpace(query[k])
        {
          j := j + 1;
        }
        if j + 5 <= |query| && IsLimitWord(query[j..j + 5]) {
          var after := j + 5;
          var isBoundary := after >= |query| || !(AsciiAlphanumeric(query[after]) || query[after] == '_');
          if isBoundary {
            assert LimitAt(query, i, j);
            return true;
          }
        }
        forall m: nat | LimitAt(query, i, m) ensures m == j {
          WordAfterSpaces(query, i, j, m);
        }
      }
      i := i + 1;
    }
    found := false;
  }

  lemma WordStarts(q: string, j: nat)
    requires j + 5 <= |q| && IsLimitWord(q[j..j + 5])
    ensures forall k :: j <= k < j + 5 ==> !AsciiSpace(q[k]) && q[k] != '|' && WordChar(q[k])
  {
    assert forall k :: j <= k < j + 5 ==> q[k] == q[j..j + 5][k - j];
  }

  lemma WordAfterSpaces(q: string, i: nat, j: nat, m: nat)
    requires i < j <= |q| && (forall k :: i < k < j ==> AsciiSpace(q[k])) && (j < |q| ==> !AsciiSpace(q[j]))
    requires LimitAt(q, i, m)
    ensures m == j
  {
    WordStarts(q, m);
    hide AsciiSpace;
    assert !AsciiSpace(q[m]);
  }

  // ── Keywords that take no pipeline ────────────────────────────────────────

  function TrimStart(s: string): string {
    if s != [] && UnicodeSpace(s[0]) then TrimStart(s[1..]) else s
  }

  function TrimEnd(s: string): (t: string)
    ensures t <= s && Blank(UnicodeSpace, s[|t|..])
    ensures t == [] || !UnicodeSpace(t[|t| - 1])
  {
    if s != [] && UnicodeSpace(s[|s| - 1]) then TrimEnd(s[..|s| - 1]) else s
  }

  /** The first word between ASCII white space, or nothing. */
  function FirstWord(s: string): string {
    if s == [] then []
    else if AsciiSpace(s[0]) then FirstWord(s[1..])
    else WordHead(s)
  }

  function WordHead(s: string): string {
    if s == [] || AsciiSpace(s[0]) then [] else [s[0]] + WordHead(s[1..])
  }

  function AsciiUpper(s: string): string {
    seq(|s|, i requires 0 <= i < |s| => if 'a' <= s[i] <= 'z' then s[i] - 'a' + 'A' else s[i])
  }

  predicate NonPipeline(query: string) {
    AsciiUpper(FirstWord(TrimStart(query))) in {"CREATE", "DROP", "ALTER", "INSERT", "DESCRIBE", "EXPLAIN"}
  }

  // ── Injection ─────────────────────────────────────────────────────────────

  const USIZE_MAX := 0xFFFF_FFFF_FFFF_FFFF

  function SaturatingIncrement(n: nat): nat
    requires n <= USIZE_MAX
  {
    if n == USIZE_MAX then USIZE_MAX else n + 1
  }

  /** The query without white space and one semicolon at its end. */
  function Base(query: string): string {
    var base := TrimEnd(query);
    if base != [] && base[|base| - 1] == ';' then TrimEnd(base[..|base| - 1]) else base
  }

  function Stage(limit: nat): string
    requires limit <= USIZE_MAX
  {
    " | limit " + Decimal(SaturatingIncrement(limit))
  }

  ghost function Injected(query: string, limit: nat): string
    requires limit <= USIZE_MAX
  {
    if HasLimit(query) || NonPipeline(query) then query else Base(query) + Stage(limit)
  }

  method MaybeInjectLimit(query: string, limit: nat) returns (r: string)
    requires limit <= USIZE_MAX
    ensures r == Injected(query, limit)
  {
    var explicit := HasExplicitLimit(query);
    if explicit || NonPipeline(query) {
      return query;
    }
    var base := TrimEnd(query);
    base := TrimEnd(if base != [] && base[|base| - 1] == ';' then base[..|base| - 1] else base);
    TrimEndTwice(query);
    return base + " | limit " + Decimal(SaturatingIncrement(limit));
  }

  lemma TrimEndTwice(s: string)
    ensures TrimEnd(TrimEnd(s)) == TrimEnd(s)
  {
  }

  /** What is cut off is white space with at most one semicolon in it, and all of it. */
  lemma BaseIsPrefix(query: string)
    ensures Base(query) <= query
    ensures var base, cut := Base(query), query[|Base(query)|..];
      && (base == [] || !UnicodeSpace(base[|base| - 1]))
      && (Blank(UnicodeSpace, cut) || exists k :: 0 <= k < |cut| && OnlySemicolon(cut, k))
      && (Blank(UnicodeSpace, cut) && base != [] ==> base[|base| - 1] != ';')
  {
    var trimmed := TrimEnd(query);
    if trimmed != [] && trimmed[|trimmed| - 1] == ';' {
      var base, cut := Base(query), query[|Base(query)|..];
      var k := |trimmed| - 1 - |base|;
      assert cut[..k] == trimmed[..|trimmed| - 1][|base|..];
      assert cut[k + 1..] == query[|trimmed|..];
      assert OnlySemicolon(cut, k);
    }
  }

  predicate OnlySemicolon(cut: string, k: nat)
    requires k < |cut|
  {
    Blank(UnicodeSpace, cut[..k]) && cut[k] == ';' && Blank(UnicodeSpace, cut[k + 1..])
  }

  lemma StageIsLimit(base: string, limit: nat)
    requires limit <= USIZE_MAX
    ensures LimitAt(base + Stage(limit), |base| + 1, |base| + 3)
  {
    var q, stage := base + Stage(limit), Stage(limit);
    assert stage[3..8] == "limit";
    assert q[|base| + 3..|base| + 8] == stage[3..8];
    assert q[|base| + 1] == stage[1] && q[|base| + 2] == stage[2] && q[|base| + 8] == stage[8];
  }

  /** Injection is idempotent, whatever the two limits. */
  lemma InjectedTwice(query: string, limit: nat, again: nat)
    requires limit <= USIZE_MAX && again <= USIZE_MAX
    ensures Injected(Injected(query, limit), again) == Injected(query, limit)
  {
    if !HasLimit(query) && !NonPipeline(query) {
      StageIsLimit(Base(query), limit);
    }
  }

  /** The query comes back as it is exactly when it has a limit stage or starts with one of the six
      keywords; otherwise the result has one. */
  lemma UnchangedIff(query: string, limit: nat)
    requires limit <= USIZE_MAX
    ensures Injected(query, limit) == query <==> HasLimit(query) || NonPipeline(query)
    ensures HasLimit(Injected(query, limit)) || NonPipeline(query)
    ensures Base(query) <= Injected(query, limit)
  {
    BaseIsPrefix(query);
    if !HasLimit(query) && !NonPipeline(query) {
      StageIsLimit(Base(query), limit);
    }
  }

  /** The injected stage is the only one the scanner sees: cutting the end off and appending the
      stage never makes a limit stage of what was there. */
  lemma OnlyInjectedStage(query: string, limit: nat, i: nat, j: nat)
    requires limit <= USIZE_MAX && !HasLimit(query) && !NonPipeline(query)
    ensures LimitAt(Injected(query, limit), i, j) <==> i == |Base(query)| + 1 && j == i + 2
  {
    var base, r := Base(query), Injected(query, limit);
    StageIsLimit(base, limit);
    BaseIsPrefix(query);
    if LimitAt(r, i, j) {
      WordStarts(r, j);
      hide IsLimitWord;
      assert r[|base|] == Stage(limit)[0] && r[|base| + 1] == Stage(limit)[1];
      if i < |base| {
        InBase(query, limit, i, j);
        assert false;
      }
      BarInStage(base, limit, i);
      assert r[i + 1] == Stage(limit)[2] && r[i + 2] == Stage(limit)[3];
    }
  }

  lemma BarInStage(base: string, limit: nat, i: nat)
    requires limit <= USIZE_MAX && |base| <= i < |base + Stage(limit)| && (base + Stage(limit))[i] == '|'
    ensures i == |base| + 1
  {
    var stage, d := Stage(limit), Decimal(SaturatingIncrement(limit));
    var k := i - |base|;
    assert forall m :: 9 <= m < |stage| ==> stage[m] == d[m - 9];
    assert stage[k] == '|';
  }

  lemma InBase(query: string, limit: nat, i: nat, j: nat)
    requires limit <= USIZE_MAX && Base(query) <= query && i < |Base(query)|
    requires LimitAt(Base(query) + Stage(limit), i, j)
    requires var cut := query[|Base(query)|..];
      Blank(UnicodeSpace, cut) || exists k :: 0 <= k < |cut| && OnlySemicolon(cut, k)
    ensures HasLimit(query)
  {
    var base := Base(query);
    var r := base + Stage(limit);
    WordStarts(r, j);
    assert r[|base|] == ' ' && r[|base| + 1] == '|';
    if j + 5 > |base| {
      assert false;
    }
    assert query[j..j + 5] == r[j..j + 5];
    assert forall k :: i <= k < j ==> query[k] == r[k];
    if j + 5 < |query| {
      if j + 5 < |base| {
        assert query[j + 5] == r[j + 5];
      } else {
        CutStart(query[|base|..]);
        assert query[j + 5] == query[|base|..][0];
      }
    }
    assert LimitAt(query, i, j);
  }

  lemma CutStart(cut: string)
    requires cut != []
    requires Blank(UnicodeSpace, cut) || exists k :: 0 <= k < |cut| && OnlySemicolon(cut, k)
    ensures !WordChar(cut[0])
  {
    if !Blank(UnicodeSpace, cut) {
      var k :| 0 <= k < |cut| && OnlySemicolon(cut, k);
      if k > 0 {
        assert cut[0] in cut[..k];
      }
    } else {
      assert cut[0] in cut;
    }
  }

  // ── What the two tests recognise, and what the result is ──────────────────

  /** `word` is the upper-case `upper`, in any mix of cases. */
  predicate IgnoreCase(word: string, upper: string)
    requires forall c <- upper :: 'A' <= c <= 'Z'
  {
    |word| == |upper|
    && forall k :: 0 <= k < |word| ==> word[k] == upper[k] || word[k] as int == upper[k] as int + 32
  }

  predicate AtWordEnd(rest: string) {
    rest == [] || rest[0] in {' ', '\t', '\n', '\r'} || rest[0] as int == 12
  }

  predicate Keyword(word: string) {
    IgnoreCase(word, "CREATE") || IgnoreCase(word, "DROP") || IgnoreCase(word, "ALTER")
    || IgnoreCase(word, "INSERT") || IgnoreCase(word, "DESCRIBE") || IgnoreCase(word, "EXPLAIN")
  }

  predicate StartsWithKeyword(query: string, lead: string, word: string, rest: string) {
    query == lead + word + rest && (forall c <- lead :: UnicodeSpace(c)) && Keyword(word) && AtWordEnd(rest)
  }

  predicate HasStage(query: string, before: string, spaces: string, word: string, rest: string) {
    && query == before + "|" + spaces + word + rest
    && (forall c <- spaces :: c in {' ', '\t', '\n', '\r'} || c as int == 12)
    && IgnoreCase(word, "LIMIT")
    && (rest != [] ==> var c := rest[0]; !('0' <= c <= '9' || 'a' <= c <= 'z' || 'A' <= c <= 'Z' || c == '_'))
  }

  /** What is cut off the end: white space with at most one semicolon, and as much of it as there is. */
  predicate CutOff(base: string, cut: string) {
    && (base == [] || !UnicodeSpace(base[|base| - 1]))
    && (Blank(UnicodeSpace, cut) || exists k :: 0 <= k < |cut| && OnlySemicolon(cut, k))
    && (Blank(UnicodeSpace, cut) && base != [] ==> base[|base| - 1] != ';')
  }

  /** `r` is the query with `cut` taken off its end and a stage for one more row in its place. */
  predicate Injects(r: string, query: string, limit: nat, base: string, cut: string, digits: string) {
    && query == base + cut && CutOff(base, cut)
    && r == base + " | limit " + digits && IsDecimal(digits, if limit == 0xFFFF_FFFF_FFFF_FFFF then limit else limit + 1)
  }

  /** The query comes back as it is exactly when it has a limit stage or starts with one of the six
      keywords; otherwise its end is cut and a stage for one more row appended. */
  lemma InjectedIff(query: string, limit: nat)
    requires limit <= USIZE_MAX
    ensures Injected(query, limit) == query <==>
      || (exists before, spaces, word, rest :: HasStage(query, before, spaces, word, rest))
      || (exists lead, word, rest :: StartsWithKeyword(query, lead, word, rest))
    ensures Injected(query, limit) != query ==>
      exists base, cut, digits :: Injects(Injected(query, limit), query, limit, base, cut, digits)
  {
    UnchangedIff(query, limit);
    if !HasLimit(query) && !NonPipeline(query) {
      InjectedForm(query, limit);
    }
    hide *;
    HasLimitIff(query);
    NonPipelineIff(query);
  }

  lemma InjectedForm(query: string, limit: nat)
    requires limit <= USIZE_MAX && !HasLimit(query) && !NonPipeline(query)
    ensures var base, n := Base(query), SaturatingIncrement(limit);
      |base| <= |query| && Injects(Injected(query, limit), query, limit, base, query[|base|..], Decimal(n))
  {
    var base, n := Base(query), SaturatingIncrement(limit);
    BaseIsPrefix(query);
    DecimalIs(n);
    assert base + (" | limit " + Decimal(n)) == base + " | limit " + Decimal(n);
    hide HasLimit;
    hide NonPipeline;
    hide Base;
    hide Decimal;
    hide IsDecimal;
  }

  /** The scanner's test is a split of the query: a bar, white space, the word, and no word character. */
  lemma HasLimitIff(query: string)
    ensures HasLimit(query) <==> exists before, spaces, word, rest :: HasStage(query, before, spaces, word, rest)
  {
    if HasLimit(query) {
      var i: nat, j: nat :| LimitAt(query, i, j);
      hide HasStage;
      StageFound(query, i, j);
      var before, spaces, word, rest := query[..i], query[i + 1..j], query[j..j + 5], query[j + 5..];
      assert HasStage(query, before, spaces, word, rest);
    }
    if exists before, spaces, word, rest :: HasStage(query, before, spaces, word, rest) {
      var before, spaces, word, rest :| HasStage(query, before, spaces, word, rest);
      StageHolds(query, before, spaces, word, rest);
    }
  }

  lemma Pieces(q: string, i: nat, j: nat, k: nat)
    requires i < j <= k <= |q|
    ensures q == q[..i] + [q[i]] + q[i + 1..j] + q[j..k] + q[k..]
  {
  }

  lemma StageFound(query: string, i: nat, j: nat)
    requires LimitAt(query, i, j)
    ensures HasStage(query, query[..i], query[i + 1..j], query[j..j + 5], query[j + 5..])
  {
    Pieces(query, i, j, j + 5);
    assert forall c <- query[i + 1..j] :: AsciiSpace(c);
    assert IgnoreCase(query[j..j + 5], "LIMIT");
    var rest := query[j + 5..];
    assert rest != [] ==> rest[0] == query[j + 5];
    hide IgnoreCase;
    hide IsLimitWord;
  }

  lemma StageHolds(query: string, before: string, spaces: string, word: string, rest: string)
    requires HasStage(query, before, spaces, word, rest)
    ensures LimitAt(query, |before|, |before| + 1 + |spaces|)
  {
    var i, j := |before|, |before| + 1 + |spaces|;
    assert query[j..j + 5] == word;
    forall k | i < k < j ensures AsciiSpace(query[k]) {
      assert query[k] == spaces[k - i - 1] && spaces[k - i - 1] in spaces;
    }
    assert IsLimitWord(word);
    assert j + 5 < |query| ==> query[j + 5] == rest[0];
  }

  /** The keyword test is a split of the query: white space, the word, and its end. */
  lemma NonPipelineIff(query: string)
    ensures NonPipeline(query) <==> exists lead, word, rest :: StartsWithKeyword(query, lead, word, rest)
  {
    var lead, trimmed := TrimmedStart(query);
    var word, rest := SplitWord(trimmed);
    UpperIff(word);
    if NonPipeline(query) {
      assert query == lead + word + rest;
      assert StartsWithKeyword(query, lead, word, rest);
    }
    if exists l, w, r :: StartsWithKeyword(query, l, w, r) {
      var l, w, r :| StartsWithKeyword(query, l, w, r);
      KeywordFound(l, w, r);
      assert query == l + w + r;
    }
  }

  lemma UpperIff(word: string)
    ensures AsciiUpper(word) in {"CREATE", "DROP", "ALTER", "INSERT", "DESCRIBE", "EXPLAIN"} <==> Keyword(word)
  {
    UpperIs(word, "CREATE");
    UpperIs(word, "DROP");
    UpperIs(word, "ALTER");
    UpperIs(word, "INSERT");
    UpperIs(word, "DESCRIBE");
    UpperIs(word, "EXPLAIN");
    hide AsciiUpper;
    hide IgnoreCase;
  }

  lemma UpperIs(word: string, upper: string)
    requires forall c <- upper :: 'A' <= c <= 'Z'
    ensures AsciiUpper(word) == upper <==> IgnoreCase(word, upper)
  {
    if AsciiUpper(word) == upper {
      forall k | 0 <= k < |word| ensures word[k] == upper[k] || word[k] as int == upper[k] as int + 32 {
        assert AsciiUpper(word)[k] == upper[k];
      }
    }
    if IgnoreCase(word, upper) {
      forall k | 0 <= k < |word| ensures AsciiUpper(word)[k] == upper[k] {
        assert upper[k] in upper;
      }
    }
  }

  lemma LettersOf(word: string, upper: string)
    requires (forall c <- upper :: 'A' <= c <= 'Z') && IgnoreCase(word, upper)
    ensures forall c <- word :: 'A' <= c <= 'Z' || 'a' <= c <= 'z'
  {
    forall k | 0 <= k < |word| ensures 'A' <= word[k] <= 'Z' || 'a' <= word[k] <= 'z' {
      assert upper[k] in upper;
    }
  }

  lemma KeywordChars(word: string)
    requires Keyword(word)
    ensures word != [] && forall c <- word :: 'A' <= c <= 'Z' || 'a' <= c <= 'z'
  {
    LettersOf(word, if IgnoreCase(word, "CREATE") then "CREATE" else if IgnoreCase(word, "DROP") then "DROP"
    else if IgnoreCase(word, "ALTER") then "ALTER" else if IgnoreCase(word, "INSERT") then "INSERT"
    else if IgnoreCase(word, "DESCRIBE") then "DESCRIBE" else "EXPLAIN");
  }

  lemma KeywordFound(lead: string, word: string, rest: string)
    requires (forall c <- lead :: UnicodeSpace(c)) && Keyword(word) && AtWordEnd(rest)
    ensures NonPipeline(lead + word + rest)
  {
    KeywordChars(word);
    UpperIff(word);
    assert forall c <- word :: !AsciiSpace(c);
    assert (word + rest)[0] == word[0] && word[0] in word;
    assert lead + word + rest == lead + (word + rest);
    hide Keyword;
    TrimmedBy(lead, word + rest);
    HeadOf(word, rest);
  }

  lemma {:induction false} TrimmedStart(s: string) returns (lead: string, trimmed: string)
    ensures trimmed == TrimStart(s) && s == lead + trimmed && (forall c <- lead :: UnicodeSpace(c))
    ensures trimmed != [] ==> !UnicodeSpace(trimmed[0])
  {
    if s != [] && UnicodeSpace(s[0]) {
      lead, trimmed := TrimmedStart(s[1..]);
      lead := [s[0]] + lead;
      assert s == [s[0]] + s[1..];
    } else {
      lead, trimmed := [], s;
    }
  }

  lemma {:induction false} TrimmedBy(lead: string, s: string)
    requires (forall c <- lead :: UnicodeSpace(c)) && s != [] && !UnicodeSpace(s[0])
    ensures TrimStart(lead + s) == s
  {
    if lead == [] {
      assert lead + s == s;
    } else {
      assert (lead + s)[1..] == lead[1..] + s;
      TrimmedBy(lead[1..], s);
    }
  }

  lemma SplitWord(s: string) returns (word: string, rest: string)
    requires s != [] ==> !UnicodeSpace(s[0])
    ensures s == word + rest && AtWordEnd(rest) && word == FirstWord(s)
  {
    rest := HeadSplit(s);
    word := WordHead(s);
  }

  lemma {:induction false} HeadSplit(s: string) returns (rest: string)
    ensures s == WordHead(s) + rest && AtWordEnd(rest)
  {
    if s == [] || AsciiSpace(s[0]) {
      rest := s;
    } else {
      rest := HeadSplit(s[1..]);
      assert s == [s[0]] + s[1..];
    }
  }

  lemma {:induction false} HeadOf(word: string, rest: string)
    requires AtWordEnd(rest) && forall c <- word :: !AsciiSpace(c)
    ensures WordHead(word + rest) == word
  {
    if word == [] {
      assert word + rest == rest;
    } else {
      assert (word + rest)[1..] == word[1..] + rest;
      HeadOf(word[1..], rest);
    }
  }
}
