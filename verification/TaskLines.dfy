/** The lines of `TASKS.md`: task headers, dependency lines, and how text is cut into lines. */
module TaskLines {
  import opened Text

  // ── Lines ─────────────────────────────────────────────────────────────────

  /** The characters that end a line for Python's `splitlines`. */
  predicate IsBreak(c: char) {
    var n := c as int;
    10 <= n <= 13 || 0x1C <= n <= 0x1E || n == 0x85 || n == 0x2028 || n == 0x2029
  }

  predicate OneLine(s: string) {
    forall c <- s :: !IsBreak(c)
  }

  function LineEnd(s: string): (i: nat)
    ensures i <= |s| && OneLine(s[..i]) && (i < |s| ==> IsBreak(s[i]))
  {
    if s == [] || IsBreak(s[0]) then 0 else 1 + LineEnd(s[1..])
  }

  function SplitLines(s: string): (lines: seq<string>)
    ensures forall l <- lines :: OneLine(l)
  {
    if s == [] then []
    else
      var i := LineEnd(s);
      if i == |s| then [s]
      else
        var next := if s[i] == '\r' && i + 1 < |s| && s[i + 1] == '\n' then i + 2 else i + 1;
        [s[..i]] + SplitLines(s[next..])
  }

  /** The lines, each ended by a line feed. */
  function Terminated(lines: seq<string>): string {
    if lines == [] then [] else lines[0] + "\n" + Terminated(lines[1..])
  }

  lemma {:induction false} LineEndAt(line: string, c: char, rest: string)
    requires OneLine(line) && IsBreak(c)
    ensures LineEnd(line + [c] + rest) == |line|
  {
    var s := line + [c] + rest;
    if line == [] {
      assert s[0] == c;
    } else {
      assert s[0] == line[0] && s[1..] == line[1..] + [c] + rest;
      LineEndAt(line[1..], c, rest);
    }
  }

  lemma {:induction false} SplitTerminated(lines: seq<string>)
    requires forall l <- lines :: OneLine(l)
    ensures SplitLines(Terminated(lines)) == lines
  {
    if lines != [] {
      var line, rest := lines[0], Terminated(lines[1..]);
      var s := line + "\n" + rest;
      LineEndAt(line, '\n', rest);
      SplitTerminated(lines[1..]);
      assert s[|line|] == '\n' && s[..|line|] == line && s[|line| + 1..] == rest;
    }
  }

  /** What ends a line: a carriage return and a line feed together, or any one of the line breaks. */
  predicate EndsLine(end: string, rest: string) {
    end == "\r\n" || (|end| == 1 && IsBreak(end[0]) && !(end[0] == '\r' && rest != [] && rest[0] == '\n'))
  }

  /** A text is cut after each line break, and not at its end. */
  lemma SplitFirst(line: string, end: string, rest: string)
    requires OneLine(line) && EndsLine(end, rest)
    ensures SplitLines(line + end + rest) == [line] + SplitLines(rest)
    ensures SplitLines(line) == if line == [] then [] else [line]
  {
    var s := line + end + rest;
    var tail := end[1..] + rest;
    assert s == line + [end[0]] + tail;
    LineEndAt(line, end[0], tail);
    WholeLine(line);
    assert line[..|line|] == line;
    AfterLine(line, end, rest);
    hide LineEnd;
    hide IsBreak;
  }

  lemma AfterLine(line: string, end: string, rest: string)
    requires EndsLine(end, rest)
    ensures var s, n := line + end + rest, |line|;
      && n < |s| && s[n] == end[0] && s[..n] == line
      && s[if s[n] == '\r' && n + 1 < |s| && s[n + 1] == '\n' then n + 2 else n + 1..] == rest
  {
    var s, n := line + end + rest, |line|;
    if end == "\r\n" {
      assert s[n + 1] == '\n' && s[n + 2..] == rest;
    } else {
      assert s[n + 1..] == rest && (n + 1 < |s| ==> s[n + 1] == rest[0]);
    }
  }

  lemma {:induction false} WholeLine(line: string)
    requires OneLine(line)
    ensures LineEnd(line) == |line|
  {
    if line != [] {
      WholeLine(line[1..]);
    }
  }

  /** What Python's `str.strip` removes. */
  predicate IsSpace(c: char) {
    UnicodeSpace(c) || 28 <= c as int <= 31
  }

  // ── Task ids ──────────────────────────────────────────────────────────────

  function IdOf(number: nat): (id: string)
    ensures |id| == 8
  {
    "TASK-" + FixedDigits(number, 3)
  }

  predicate IdAt(s: string) {
    |s| >= 8 && s[..5] == "TASK-" && IsDigit(s[5]) && IsDigit(s[6]) && IsDigit(s[7])
  }

  predicate IsId(s: string) {
    |s| == 8 && IdAt(s)
  }

  function Number3(digits: string): (n: nat)
    requires |digits| == 3 && forall i :: 0 <= i < 3 ==> IsDigit(digits[i])
    ensures n < 1000
  {
    FixedOfParse(digits);
    assert Pow10(3) == 10 * Pow10(2) && Pow10(2) == 10 * Pow10(1);
    ParseDecimal(digits)
  }

  lemma IdOfNumber(n: nat)
    requires n < 1000
    ensures IsId(IdOf(n)) && IdOf(n)[5..] == FixedDigits(n, 3) && Number3(FixedDigits(n, 3)) == n
  {
    assert Pow10(3) == 10 * Pow10(2) && Pow10(2) == 10 * Pow10(1);
    ParseFixedDigits(n, 3);
    assert IdOf(n)[..5] == "TASK-";
  }

  /** All task ids in a string, left to right (`TASK_ID_RE.findall`). */
  function FindIds(s: string): (ids: seq<string>)
    ensures forall id <- ids :: IsId(id)
  {
    if |s| < 8 then []
    else if IdAt(s) then [s[..8]] + FindIds(s[8..])
    else FindIds(s[1..])
  }

  /** Id `k` of the list stands at place `at[k]`. */
  predicate StandsAt(s: string, ids: seq<string>, at: seq<nat>, k: nat)
    requires k < |at| && k < |ids|
  {
    at[k] + 8 <= |s| && ids[k] == s[at[k]..at[k] + 8]
  }

  /** An id is found at exactly the places where one stands. */
  lemma {:induction false} FindIdsIff(s: string) returns (at: seq<nat>)
    ensures |at| == |FindIds(s)| && forall k :: 0 <= k < |at| ==> StandsAt(s, FindIds(s), at, k)
    ensures forall i, j :: 0 <= i < j < |at| ==> at[i] < at[j]
    ensures forall q :: 0 <= q <= |s| ==> (IdAt(s[q..]) <==> q in at)
  {
    if |s| < 8 {
      at := [];
    } else {
      var width, ids := if IdAt(s) then 8 else 1, FindIds(s);
      var later := FindIdsIff(s[width..]);
      var found := FindIds(s[width..]);
      assert ids == (if IdAt(s) then [s[..8]] else []) + found;
      at := AllShifted(s, ids, width, found, later);
    }
  }

  lemma AllShifted(s: string, ids: seq<string>, width: nat, found: seq<string>, later: seq<nat>) returns (at: seq<nat>)
    requires |s| >= 8 && width == (if IdAt(s) then 8 else 1) && ids == (if IdAt(s) then [s[..8]] else []) + found
    requires |later| == |found| && forall k :: 0 <= k < |later| ==> StandsAt(s[width..], found, later, k)
    requires forall i, j :: 0 <= i < j < |later| ==> later[i] < later[j]
    requires forall p :: 0 <= p <= |s[width..]| ==> (IdAt(s[width..][p..]) <==> p in later)
    ensures |at| == |ids| && forall k :: 0 <= k < |at| ==> StandsAt(s, ids, at, k)
    ensures forall i, j :: 0 <= i < j < |at| ==> at[i] < at[j]
    ensures forall q :: 0 <= q <= |s| ==> (IdAt(s[q..]) <==> q in at)
  {
    var shifted: seq<nat> := seq(|later|, k requires 0 <= k < |later| => later[k] + width);
    at := (if IdAt(s) then [0] else []) + shifted;
    hide *;
    forall k | 0 <= k < |at| ensures StandsAt(s, ids, at, k) {
      ShiftedStands(s, ids, width, found, later, shifted, at, k);
    }
    forall q | 0 <= q <= |s| ensures IdAt(s[q..]) <==> q in at {
      ShiftedPlace(s, q, width, later, shifted, at);
    }
  }

  lemma ShiftedStands(
    s: string, ids: seq<string>, width: nat, found: seq<string>, later: seq<nat>, shifted: seq<nat>, at: seq<nat>, k: nat)
    requires |s| >= 8 && width == (if IdAt(s) then 8 else 1) && ids == (if IdAt(s) then [s[..8]] else []) + found
    requires shifted == seq(|later|, k requires 0 <= k < |later| => later[k] + width)
    requires at == (if IdAt(s) then [0] else []) + shifted && k < |at| && |later| == |found|
    requires forall k :: 0 <= k < |later| ==> StandsAt(s[width..], found, later, k)
    ensures StandsAt(s, ids, at, k)
  {
    var first := if IdAt(s) then 1 else 0;
    hide IdAt;
    if k >= first {
      assert StandsAt(s[width..], found, later, k - first);
      assert s[width..][later[k - first]..later[k - first] + 8] == s[at[k]..at[k] + 8];
    }
  }

  lemma ShiftedPlace(s: string, q: nat, width: nat, later: seq<nat>, shifted: seq<nat>, at: seq<nat>)
    requires q <= |s| && |s| >= 8 && width == if IdAt(s) then 8 else 1
    requires shifted == seq(|later|, k requires 0 <= k < |later| => later[k] + width)
    requires at == (if IdAt(s) then [0] else []) + shifted
    requires forall p :: 0 <= p <= |s[width..]| ==> (IdAt(s[width..][p..]) <==> p in later)
    ensures IdAt(s[q..]) <==> q in at
  {
    if q >= width {
      assert s[width..][q - width..] == s[q..];
      hide IdAt;
      ShiftedMember(later, width, q);
      assert q in at <==> q in shifted;
    } else {
      BeforeWidth(s, q);
      hide IdAt;
      assert q !in shifted;
    }
  }

  lemma ShiftedMember(later: seq<nat>, width: nat, q: nat)
    requires q >= width
    ensures q in seq(|later|, k requires 0 <= k < |later| => later[k] + width) <==> q - width in later
  {
    var shifted := seq(|later|, k requires 0 <= k < |later| => later[k] + width);
    if q - width in later {
      var k :| 0 <= k < |later| && later[k] == q - width;
      assert shifted[k] == q;
    }
  }

  lemma IdChars(s: string)
    requires IdAt(s)
    ensures s[0] == 'T' && s[1] != 'T' && s[2] != 'T' && s[3] != 'T' && s[4] != 'T' && s[5] != 'T' && s[6] != 'T' && s[7] != 'T'
  {
    assert forall i :: 0 <= i < 5 ==> s[i] == s[..5][i];
  }

  /** No id starts inside another one. */
  lemma BeforeWidth(s: string, q: nat)
    requires |s| >= 8 && q < (if IdAt(s) then 8 else 1)
    ensures s[0..] == s && (IdAt(s[q..]) <==> q == 0 && IdAt(s))
  {
    if IdAt(s) {
      IdChars(s);
    }
    assert IdAt(s[q..]) ==> s[q..][0] == s[q..][..5][0] == 'T';
    assert s[q..][0] == s[q];
  }

  function Listed(ids: seq<string>): string {
    if ids == [] then [] else if |ids| == 1 then ids[0] else ids[0] + ", " + Listed(ids[1..])
  }

  lemma {:induction false} FindListed(ids: seq<string>)
    requires forall id <- ids :: IsId(id)
    ensures FindIds(Listed(ids)) == ids
  {
    if |ids| == 1 {
      assert IsId(ids[0]);
      assert ids[0][..8] == ids[0];
    } else if |ids| > 1 {
      FindListed(ids[1..]);
      FindNext(ids[0], Listed(ids[1..]));
    }
  }

  lemma FindNext(id: string, rest: string)
    requires IsId(id)
    ensures FindIds(id + ", " + rest) == [id] + FindIds(rest)
  {
    var s := id + ", " + rest;
    assert s[..8] == id && s[..5] == id[..5];
    assert IdAt(s);
    assert s[8..] == ", " + rest;
    SkipTwo(rest);
  }

  lemma SkipTwo(rest: string)
    ensures FindIds(", " + rest) == FindIds(rest)
  {
    var two := ", " + rest;
    assert two[1..] == " " + rest && two[1..][1..] == rest;
    if |two| >= 8 {
      assert two[..5][0] == ',' && two[1..6][0] == ' ';
      assert !IdAt(two) && FindIds(two) == FindIds(two[1..]);
      assert |two[1..]| >= 8 ==> two[1..][..5] == two[1..6];
      assert !IdAt(two[1..]);
    }
  }

  // ── Dependency lines ──────────────────────────────────────────────────────

  const DEPENDS := "**Depends on**:"

  predicate IsDepends(line: string) {
    DEPENDS <= line
  }

  function Lower(c: char): char {
    if 'A' <= c <= 'Z' then c - 'A' + 'a' else c
  }

  predicate IsNone(s: string) {
    |s| == 4 && Lower(s[0]) == 'n' && Lower(s[1]) == 'o' && Lower(s[2]) == 'n' && Lower(s[3]) == 'e'
  }

  function ParseDepends(line: string): (ids: seq<string>)
    requires IsDepends(line)
    ensures forall id <- ids :: IsId(id)
  {
    var raw := Strip(IsSpace, line[|DEPENDS|..]);
    if IsNone(raw) then [] else FindIds(raw)
  }

  lemma FindSkips(c: char, s: string)
    requires c != 'T'
    ensures FindIds([c] + s) == FindIds(s)
  {
    var t := [c] + s;
    assert t[1..] == s;
    assert |t| >= 5 ==> t[..5][0] == t[0];
  }

  lemma {:induction false} FindDrops(s: string, c: char)
    requires !IsDigit(c)
    ensures FindIds(s + [c]) == FindIds(s)
  {
    var t := s + [c];
    if |s| >= 8 {
      assert t[..5] == s[..5] && t[..8] == s[..8];
      var width := if IdAt(s) then 8 else 1;
      assert t[width..] == s[width..] + [c];
      FindDrops(s[width..], c);
    } else if |s| == 7 {
      assert t[7] == c && |t[1..]| < 8;
    }
  }

  lemma {:induction false} FindPadded(before: string, s: string, after: string)
    requires Blank(IsSpace, before) && Blank(IsSpace, after)
    ensures FindIds(before + s + after) == FindIds(s)
    decreases |before| + |after|
  {
    hide FindIds;
    if before != [] {
      assert before[0] in before;
      assert before + s + after == [before[0]] + (before[1..] + s + after);
      FindSkips(before[0], before[1..] + s + after);
      FindPadded(before[1..], s, after);
    } else if after != [] {
      var n := |after| - 1;
      assert after[n] in after;
      assert before + s + after == before + s + after[..n] + [after[n]];
      FindDrops(before + s + after[..n], after[n]);
      FindPadded(before, s, after[..n]);
    } else {
      assert before + s + after == s;
    }
  }

  /** Whatever stands on a dependency line, it names the ids found on it. */
  lemma ParseDependsIs(line: string)
    requires IsDepends(line)
    ensures "**Depends on**:" <= line
    ensures ParseDepends(line) == FindIds(line[15..])
  {
    assert |DEPENDS| == 15;
    var rest := line[15..];
    var before, after := Stripped(IsSpace, rest);
    FindPadded(before, Strip(IsSpace, rest), after);
    hide Strip;
  }

  function DependsLine(ids: seq<string>): string {
    DEPENDS + " " + if ids == [] then "none" else Listed(ids)
  }

  lemma ParseDependsLine(ids: seq<string>)
    requires forall id <- ids :: IsId(id)
    ensures IsDepends(DependsLine(ids)) && ParseDepends(DependsLine(ids)) == ids && OneLine(DependsLine(ids))
  {
    var raw := if ids == [] then "none" else Listed(ids);
    var line := DependsLine(ids);
    assert line[|DEPENDS|..] == " " + raw;
    assert OneLine(DEPENDS + " ");
    if ids == [] {
      StripNone();
    } else {
      ListedStripped(ids);
      FindListed(ids);
    }
    assert " " + raw + "" == " " + raw;
    StripPadded(IsSpace, " ", raw, "");
  }

  lemma StripNone()
    ensures Strip(IsSpace, "none") == "none"
  {
  }

  lemma {:induction false} ListedStripped(ids: seq<string>)
    requires ids != [] && forall id <- ids :: IsId(id)
    ensures var s := Listed(ids); |s| >= 8 && s[0] == 'T' && IsDigit(s[|s| - 1]) && Strip(IsSpace, s) == s && OneLine(s)
  {
    assert IsId(ids[0]);
    assert ids[0][..5][0] == 'T';
    OneLineId(ids[0]);
    if |ids| > 1 {
      ListedStripped(ids[1..]);
    }
  }

  lemma OneLineId(id: string)
    requires IsId(id)
    ensures OneLine(id)
  {
    forall i | 0 <= i < 8 ensures !IsBreak(id[i]) {
      if i < 5 {
        assert id[i] == id[..5][i];
      }
    }
  }

  // ── Headers ───────────────────────────────────────────────────────────────

  datatype Header = Header(number: nat, tags: seq<string>, title: string)

  predicate IsTag(tag: string) {
    tag != [] && ']' !in tag
  }

  function CloseBracket(s: string): (i: nat)
    ensures i <= |s| && ']' !in s[..i] && (i < |s| ==> s[i] == ']')
  {
    if s == [] || s[0] == ']' then 0 else 1 + CloseBracket(s[1..])
  }

  /** The bracketed, non-empty tags a string starts with, and the rest of it. */
  function TakeTags(s: string): (r: (seq<string>, string))
    ensures forall t <- r.0 :: IsTag(t)
  {
    if s == [] || s[0] != '[' then ([], s)
    else
      var i := CloseBracket(s[1..]);
      if i == 0 || i == |s| - 1 then ([], s)
      else
        var (tags, rest) := TakeTags(s[i + 2..]);
        ([s[1..i + 1]] + tags, rest)
  }

  /** The string starts with a tag in brackets, the second of them at `i`. */
  predicate TagEnds(s: string, i: nat) {
    1 < i < |s| && s[0] == '[' && s[i] == ']' && forall k :: 1 <= k < i ==> s[k] != ']'
  }

  predicate TagAhead(s: string) {
    exists i :: 0 <= i < |s| && TagEnds(s, i)
  }

  function Bracketed(tags: seq<string>): string {
    if tags == [] then [] else "[" + tags[0] + "]" + Bracketed(tags[1..])
  }

  lemma {:induction false} CloseBracketAt(tag: string, rest: string)
    requires ']' !in tag
    ensures CloseBracket(tag + "]" + rest) == |tag|
  {
    var s := tag + "]" + rest;
    if tag == [] {
      assert s[0] == ']';
    } else {
      assert s[0] == tag[0] && s[1..] == tag[1..] + "]" + rest;
      CloseBracketAt(tag[1..], rest);
    }
  }

  lemma {:induction false} TakeBracketed(tags: seq<string>, rest: string)
    requires (forall t <- tags :: IsTag(t)) && !TagAhead(rest)
    ensures TakeTags(Bracketed(tags) + rest) == (tags, rest)
  {
    if tags == [] {
      assert Bracketed(tags) + rest == rest;
      NoTags(rest);
    } else {
      hide TakeTags;
      var tag, tail := tags[0], Bracketed(tags[1..]) + rest;
      assert IsTag(tag);
      TakeBracketed(tags[1..], rest);
      TakeTag(tag, tail);
      assert Bracketed(tags) == "[" + tag + "]" + Bracketed(tags[1..]);
      hide *;
      ConcatAssoc("[" + tag + "]", Bracketed(tags[1..]), rest);
      assert [tag] + tags[1..] == tags;
    }
  }

  lemma {:induction false} CloseBracketIs(s: string, i: nat)
    requires i < |s| && s[i] == ']' && forall k :: 0 <= k < i ==> s[k] != ']'
    ensures CloseBracket(s) == i
  {
    if i > 0 {
      CloseBracketIs(s[1..], i - 1);
    }
  }

  lemma OneTag(s: string, i: nat)
    requires TagEnds(s, i)
    ensures TakeTags(s) == ([s[1..i]] + TakeTags(s[i + 1..]).0, TakeTags(s[i + 1..]).1)
  {
    CloseBracketIs(s[1..], i - 1);
  }

  lemma NoTags(s: string)
    requires !TagAhead(s)
    ensures TakeTags(s) == ([], s)
  {
    if s != [] && s[0] == '[' {
      var i := CloseBracket(s[1..]);
      if 0 < i < |s| - 1 {
        TagThere(s);
        assert false;
      }
    }
  }

  lemma TagThere(s: string)
    requires s != [] && s[0] == '[' && 0 < CloseBracket(s[1..]) < |s| - 1
    ensures TagAhead(s)
  {
    var i := CloseBracket(s[1..]);
    assert forall k :: 1 <= k < i + 1 ==> s[k] == s[1..][..i][k - 1];
    assert TagEnds(s, i + 1);
  }

  /** Tags are taken until there is none ahead. */
  lemma {:induction false} TakenTags(s: string)
    ensures var (tags, rest) := TakeTags(s); s == Bracketed(tags) + rest && !TagAhead(rest)
  {
    hide TakeTags;
    if TagAhead(s) {
      var i: nat :| i < |s| && TagEnds(s, i);
      OneTag(s, i);
      var tag, tail := s[1..i], s[i + 1..];
      TakenTags(tail);
      var (tags, rest) := TakeTags(tail);
      BracketedCons(tag, tags);
      assert s == "[" + tag + "]" + tail;
      hide *;
      ConcatAssoc("[" + tag + "]", Bracketed(tags), rest);
    } else {
      NoTags(s);
      assert Bracketed([]) + s == s;
    }
  }

  lemma BracketedCons(tag: string, tags: seq<string>)
    ensures Bracketed([tag] + tags) == "[" + tag + "]" + Bracketed(tags)
  {
    assert ([tag] + tags)[1..] == tags;
  }

  lemma TakeTag(tag: string, tail: string)
    requires IsTag(tag)
    ensures TakeTags("[" + tag + "]" + tail) == ([tag] + TakeTags(tail).0, TakeTags(tail).1)
  {
    TagParts(tag, tail);
    CloseBracketAt(tag, tail);
    hide CloseBracket;
  }

  lemma TagParts(tag: string, tail: string)
    ensures var s := "[" + tag + "]" + tail;
      && s[0] == '[' && |s| == |tag| + |tail| + 2 && s[1..] == tag + "]" + tail
      && s[1..|tag| + 1] == tag && s[|tag| + 2..] == tail
  {
  }

  const HASHES := "### "

  function ParseHeader(line: string): (h: Option<Header>)
    ensures h.Some? ==> h.value.number < 1000 && forall t <- h.value.tags :: IsTag(t)
  {
    if |line| < 14 || line[..4] != HASHES || !IdAt(line[4..12]) || line[12..14] != ": " then None
    else
      var (tags, rest) := TakeTags(line[14..]);
      Some(Header(Number3(line[9..12]), tags, Strip(IsSpace, rest)))
  }

  /** A header as it may be written: with any white space around the title. */
  function HeaderLine(h: Header, gap: string, trail: string): string
    requires h.number < 1000
  {
    HASHES + IdOf(h.number) + ": " + (Bracketed(h.tags) + (gap + h.title + trail))
  }

  predicate Writable(h: Header, gap: string, trail: string) {
    && h.number < 1000 && (forall t <- h.tags :: IsTag(t) && OneLine(t))
    && Strip(IsSpace, h.title) == h.title && OneLine(h.title)
    && Blank(IsSpace, gap) && OneLine(gap) && Blank(IsSpace, trail) && OneLine(trail)
    && (gap != [] || !TagAhead(h.title))
  }

  lemma ParseHeaderLine(h: Header, gap: string, trail: string)
    requires Writable(h, gap, trail)
    ensures ParseHeader(HeaderLine(h, gap, trail)) == Some(h)
  {
    var rest := gap + h.title + trail;
    NoTagInRest(gap, h.title, trail);
    TakeBracketed(h.tags, rest);
    StripPadded(IsSpace, gap, h.title, trail);
    var line, body := HeaderLine(h, gap, trail), Bracketed(h.tags) + rest;
    var id := IdOf(h.number);
    IdOfNumber(h.number);
    assert line == HASHES + id + ": " + body;
    HeaderParts(id, body);
  }

  lemma NoTagInRest(gap: string, title: string, trail: string)
    requires Blank(IsSpace, gap) && Blank(IsSpace, trail) && (gap != [] || !TagAhead(title))
    ensures !TagAhead(gap + title + trail)
  {
    var rest := gap + title + trail;
    assert gap != [] ==> rest[0] == gap[0] && gap[0] in gap;
    if gap == [] {
      assert rest == title + trail;
      TagKept(title, trail);
    }
  }

  /** White space after a string makes no tag of it. */
  lemma TagKept(title: string, trail: string)
    requires Blank(IsSpace, trail)
    ensures TagAhead(title + trail) <==> TagAhead(title)
  {
    var rest := title + trail;
    assert forall i :: |title| <= i < |rest| ==> rest[i] == trail[i - |title|] && trail[i - |title|] in trail;
    forall i: nat ensures TagEnds(rest, i) <==> TagEnds(title, i) {
      assert forall k :: 0 <= k < |title| ==> rest[k] == title[k];
    }
  }

  lemma HeaderParts(id: string, body: string)
    requires |id| == 8
    ensures var line := HASHES + id + ": " + body;
      line[..4] == HASHES && line[4..12] == id && line[9..12] == id[5..] && line[12..14] == ": " && line[14..] == body
  {
  }

  lemma {:induction false} OneLineBracketed(tags: seq<string>)
    requires forall t <- tags :: OneLine(t)
    ensures OneLine(Bracketed(tags))
  {
    if tags != [] {
      assert OneLine(tags[0]);
      OneLineBracketed(tags[1..]);
    }
  }

  lemma OneLineHeader(h: Header, gap: string, trail: string)
    requires Writable(h, gap, trail)
    ensures OneLine(HeaderLine(h, gap, trail)) && !IsDepends(HeaderLine(h, gap, trail))
  {
    OneLineBracketed(h.tags);
    assert OneLine(HASHES + IdOf(h.number) + ": ");
    assert HeaderLine(h, gap, trail)[0] == '#';
  }

  /** A line is read as a header if and only if it is a way of writing it. */
  lemma ParseHeaderIff(line: string, h: Header)
    requires OneLine(line)
    ensures ParseHeader(line) == Some(h) <==> exists gap, trail :: Writable(h, gap, trail) && line == HeaderLine(h, gap, trail)
  {
    if ParseHeader(line) == Some(h) {
      var gap, trail := Unheader(line);
    }
    forall gap, trail | Writable(h, gap, trail) && line == HeaderLine(h, gap, trail) ensures ParseHeader(line) == Some(h) {
      ParseHeaderLine(h, gap, trail);
    }
  }

  lemma Unheader(line: string) returns (gap: string, trail: string)
    requires OneLine(line) && ParseHeader(line).Some?
    ensures var h := ParseHeader(line).value; Writable(h, gap, trail) && line == HeaderLine(h, gap, trail)
  {
    hide *;
    HeaderRead(line);
    var (tags, rest) := TakeTags(line[14..]);
    TakenTags(line[14..]);
    IdRead(line);
    gap, trail := Stripped(IsSpace, rest);
    var h := Header(Number3(line[9..12]), tags, Strip(IsSpace, rest));
    BodyParts(line, tags, gap, h.title, trail);
    Reassembled(line, h, gap, trail);
  }

  lemma HeaderRead(line: string)
    requires ParseHeader(line).Some?
    ensures |line| >= 14 && line[..4] == HASHES && IdAt(line[4..12]) && line[12..14] == ": "
    ensures line[4..12][5..] == line[9..12] && forall i :: 0 <= i < 3 ==> IsDigit(line[9..12][i])
    ensures var (tags, rest) := TakeTags(line[14..]);
      ParseHeader(line) == Some(Header(Number3(line[9..12]), tags, Strip(IsSpace, rest)))
  {
    hide TakeTags;
    hide Strip;
  }

  lemma Reassembled(line: string, h: Header, gap: string, trail: string)
    requires |line| >= 14 && line[..4] == HASHES && line[12..14] == ": " && h.number < 1000 && IdOf(h.number) == line[4..12]
    requires line[14..] == Bracketed(h.tags) + (gap + h.title + trail)
    requires (forall t <- h.tags :: IsTag(t) && OneLine(t)) && Strip(IsSpace, h.title) == h.title
    requires OneLine(h.title) && OneLine(gap) && OneLine(trail) && Blank(IsSpace, gap) && Blank(IsSpace, trail)
    requires gap != [] || !TagAhead(h.title)
    ensures Writable(h, gap, trail) && line == HeaderLine(h, gap, trail)
  {
    assert line == line[..4] + line[4..12] + line[12..14] + line[14..];
    hide IdOf;
    hide Bracketed;
    hide Strip;
    hide TagAhead;
  }

  lemma IdRead(line: string)
    requires |line| >= 14 && IdAt(line[4..12])
    ensures IdOf(Number3(line[9..12])) == line[4..12]
  {
    var digits := line[9..12];
    assert line[4..12] == line[4..9] + digits && line[4..12][..5] == line[4..9];
    FixedOfParse(digits);
    hide FixedDigits;
    hide ParseDecimal;
  }

  lemma OneLineParts(a: string, b: string)
    ensures OneLine(a + b) <==> OneLine(a) && OneLine(b)
  {
    hide IsBreak;
    assert forall c <- a :: c in a + b;
    assert forall c <- b :: c in a + b;
  }

  lemma {:induction false} OneLineTags(tags: seq<string>)
    requires OneLine(Bracketed(tags))
    ensures forall t <- tags :: OneLine(t)
  {
    if tags != [] {
      var tag, more := tags[0], Bracketed(tags[1..]);
      assert Bracketed(tags) == "[" + tag + "]" + more;
      hide *;
      OneLineParts("[" + tag + "]", more);
      OneLineParts("[" + tag, "]");
      OneLineParts("[", tag);
      OneLineTags(tags[1..]);
    }
  }

  lemma BodyParts(line: string, tags: seq<string>, gap: string, title: string, trail: string)
    requires OneLine(line) && |line| >= 14 && line[14..] == Bracketed(tags) + (gap + title + trail)
    requires !TagAhead(gap + title + trail) && Blank(IsSpace, trail)
    ensures OneLine(gap) && OneLine(title) && OneLine(trail) && forall t <- tags :: OneLine(t)
    ensures gap != [] || !TagAhead(title)
  {
    TagKept(title, trail);
    assert gap == [] ==> gap + title + trail == title + trail;
    assert line == line[..14] + line[14..];
    hide *;
    OneLineParts(line[..14], line[14..]);
    OneLineParts(Bracketed(tags), gap + title + trail);
    OneLineParts(gap + title, trail);
    OneLineParts(gap, title);
    OneLineTags(tags);
  }
}
