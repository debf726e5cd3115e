/** The string chunks of the encoding benchmark: offsets into one value buffer, and a payload in
    which each compressed string is preceded by its length as a little-endian 16-bit number. */
module Framing {

  type Byte = b: int | 0 <= b < 256
  type Bytes = seq<Byte>

  const U16_MAX := 0xFFFF
  const I32_MAX := 0x7FFF_FFFF

  datatype Error =
    | MissingPrefix | ShortPayload | WrongRowCount | TooLong | WrongOffsetCount
    | OffsetPanic | InvalidUtf8 | CodecFailed

  datatype Result<+T> = Ok(value: T) | Err(error: Error)

  // ── Offsets ───────────────────────────────────────────────────────────────

  function Concat(parts: seq<Bytes>): Bytes {
    if parts == [] then [] else Concat(parts[..|parts| - 1]) + parts[|parts| - 1]
  }

  function Offsets(parts: seq<Bytes>): (r: seq<nat>)
    ensures |r| == |parts| + 1 && r[|parts|] == |Concat(parts)|
  {
    if parts == [] then [0] else Offsets(parts[..|parts| - 1]) + [|Concat(parts)|]
  }

  lemma AppendPart(parts: seq<Bytes>, p: Bytes)
    ensures Concat(parts + [p]) == Concat(parts) + p
    ensures Offsets(parts + [p]) == Offsets(parts) + [|Concat(parts) + p|]
  {
    assert (parts + [p])[..|parts|] == parts;
  }

  predicate ValidOffsets(values: Bytes, offsets: seq<int>) {
    && (forall i :: 0 <= i < |offsets| ==> 0 <= offsets[i] <= |values| && offsets[i] <= I32_MAX)
    && (forall i, j :: 0 <= i < j < |offsets| ==> offsets[i] <= offsets[j])
  }

  function Slices(values: Bytes, offsets: seq<int>): (parts: seq<Bytes>)
    requires ValidOffsets(values, offsets)
    ensures |parts| == if offsets == [] then 0 else |offsets| - 1
  {
    if |offsets| <= 1 then []
    else
      var n := |offsets| - 1;
      Slices(values, offsets[..n]) + [values[offsets[n - 1]..offsets[n]]]
  }

  lemma {:induction false} OffsetsGrow(parts: seq<Bytes>)
    ensures forall i :: 0 <= i <= |parts| ==> 0 <= Offsets(parts)[i] <= |Concat(parts)|
    ensures forall i, j :: 0 <= i < j <= |parts| ==> Offsets(parts)[i] <= Offsets(parts)[j]
  {
    if parts != [] {
      OffsetsGrow(parts[..|parts| - 1]);
    }
  }

  lemma OffsetsValid(parts: seq<Bytes>, tail: Bytes)
    requires |Concat(parts)| <= I32_MAX
    ensures ValidOffsets(Concat(parts) + tail, Offsets(parts))
  {
    OffsetsGrow(parts);
  }

  /** Whenever they fit in 32 bits, offsets and values are valid, whatever follows the values, and
      determine the strings they were built from. */
  lemma {:induction false} SlicesOfOffsets(parts: seq<Bytes>, tail: Bytes)
    requires |Concat(parts)| <= I32_MAX
    ensures ValidOffsets(Concat(parts) + tail, Offsets(parts)) && Slices(Concat(parts) + tail, Offsets(parts)) == parts
  {
    OffsetsValid(parts, tail);
    if parts != [] {
      var n := |parts|;
      var init, last := parts[..n - 1], parts[n - 1];
      var values, offsets := Concat(parts) + tail, Offsets(parts);
      assert offsets[..n] == Offsets(init);
      AppendPart(init, last);
      assert init + [last] == parts;
      hide Concat;
      hide Offsets;
      Assoc(Concat(init), last, tail);
      SlicesOfOffsets(init, last + tail);
      assert values[offsets[n - 1]..offsets[n]] == last;
    }
  }

  lemma {:induction false} SlicesLength(values: Bytes, offsets: seq<int>)
    requires ValidOffsets(values, offsets) && offsets != []
    ensures |Concat(Slices(values, offsets))| == offsets[|offsets| - 1] - offsets[0]
  {
    var n := |offsets| - 1;
    if n > 0 {
      SlicesLength(values, offsets[..n]);
      var part := values[offsets[n - 1]..offsets[n]];
      assert Slices(values, offsets) == Slices(values, offsets[..n]) + [part];
      hide Slices;
      AppendPart(Slices(values, offsets[..n]), part);
      hide Concat;
    }
  }

  lemma {:induction false} SliceAt(values: Bytes, offsets: seq<int>, k: nat)
    requires ValidOffsets(values, offsets) && k + 1 < |offsets|
    ensures Slices(values, offsets)[k] == values[offsets[k]..offsets[k + 1]]
  {
    if k + 2 < |offsets| {
      SliceAt(values, offsets[..|offsets| - 1], k);
    }
  }

  lemma {:induction false} ConcatGrows(parts: seq<Bytes>, k: nat)
    requires k <= |parts|
    ensures |Concat(parts[..k])| <= |Concat(parts)|
  {
    if k < |parts| {
      assert parts[..|parts| - 1][..k] == parts[..k];
      ConcatGrows(parts[..|parts| - 1], k);
    } else {
      assert parts[..k] == parts;
    }
  }

  /** Collects the strings of a column; an offset that does not fit in 32 bits panics. */
  method StringViewOffsetsAndBytes(strings: seq<Bytes>) returns (r: Result<(seq<nat>, Bytes)>)
    ensures r == if |Concat(strings)| <= I32_MAX then Ok((Offsets(strings), Concat(strings))) else Err(OffsetPanic)
  {
    var offsets, values: Bytes := [0], [];
    for i := 0 to |strings|
      invariant values == Concat(strings[..i]) && offsets == Offsets(strings[..i])
      invariant |values| <= I32_MAX
    {
      assert strings[..i + 1][..i] == strings[..i];
      values := values + strings[i];
      if |values| > I32_MAX {
        ConcatGrows(strings, i + 1);
        return Err(OffsetPanic);
      }
      offsets := offsets + [|values|];
    }
    assert strings[..|strings|] == strings;
    return Ok((offsets, values));
  }

  // ── Frames ────────────────────────────────────────────────────────────────

  predicate AllShort(parts: seq<Bytes>) {
    forall p <- parts :: |p| <= U16_MAX
  }

  function U16Le(low: Byte, high: Byte): nat {
    var l: int, h: int := low, high;
    l + 256 * h
  }

  /** A length as a little-endian `u16`, which drops the higher bits. */
  function Prefix(len: nat): (p: Bytes)
    ensures |p| == 2 && U16Le(p[0], p[1]) == len % 0x1_0000
  {
    var word := len % 0x1_0000;
    [word % 256, word / 256]
  }

  /** The frames of `parts`, one after the other. */
  function Framed(parts: seq<Bytes>): Bytes {
    if parts == [] then []
    else Prefix(|parts[0]|) + parts[0] + Framed(parts[1..])
  }

  lemma {:induction false} FramedAppend(parts: seq<Bytes>, p: Bytes)
    ensures Framed(parts + [p]) == Framed(parts) + (Prefix(|p|) + p)
  {
    FramedConcat(parts, [p]);
    assert [p][1..] == [] && Prefix(|p|) + p + Framed([]) == Prefix(|p|) + p;
  }

  lemma {:induction false} FramedConcat(a: seq<Bytes>, b: seq<Bytes>)
    ensures Framed(a + b) == Framed(a) + Framed(b)
  {
    if a == [] {
      assert a + b == b && Framed(a) + Framed(b) == Framed(b);
    } else {
      assert (a + b)[1..] == a[1..] + b && (a + b)[0] == a[0];
      FramedConcat(a[1..], b);
      assert Framed(a + b) == Prefix(|a[0]|) + a[0] + Framed((a + b)[1..]);
      hide *;
      Assoc(Prefix(|a[0]|) + a[0], Framed(a[1..]), Framed(b));
    }
  }

  lemma Assoc(a: Bytes, b: Bytes, c: Bytes)
    ensures a + (b + c) == (a + b) + c
  {
  }

  /** No complete frame starts here. */
  predicate Incomplete(payload: Bytes) {
    |payload| < 2 || 2 + U16Le(payload[0], payload[1]) > |payload|
  }

  lemma IncompleteAt(payload: Bytes, offset: nat)
    requires offset <= |payload|
    ensures Incomplete(payload[offset..]) <==>
      offset + 2 > |payload| || offset + 2 + U16Le(payload[offset], payload[offset + 1]) > |payload|
  {
  }

  /** The complete frames a payload starts with, and what follows the last of them. */
  function Unframed(payload: Bytes): (r: (seq<Bytes>, Bytes))
    ensures AllShort(r.0)
  {
    if Incomplete(payload) then ([], payload)
    else
      var end := 2 + U16Le(payload[0], payload[1]);
      var (parts, rest) := Unframed(payload[end..]);
      ([payload[2..end]] + parts, rest)
  }

  /** A frame is the length, low byte first, and the string. */
  lemma FrameLayout(low: Byte, high: Byte, p: Bytes, more: seq<Bytes>)
    requires |p| == low + high * 256
    ensures Framed([p] + more) == [low, high] + p + Framed(more)
  {
    PrefixRead(low, high);
    FramedCons(p, more);
  }

  /** A frame at the head of a payload is read as such. */
  lemma UnframedHead(p: Bytes, tail: Bytes)
    requires |p| <= U16_MAX
    ensures Unframed(Prefix(|p|) + p + tail) == ([p] + Unframed(tail).0, Unframed(tail).1)
  {
    var prefix, payload := Prefix(|p|), Prefix(|p|) + p + tail;
    ThreeParts(prefix, p, tail);
    assert U16Le(prefix[0], prefix[1]) == |p|;
    hide Prefix;
    hide U16Le;
    assert !Incomplete(payload);
  }

  lemma ThreeParts(a: Bytes, b: Bytes, c: Bytes)
    requires |a| == 2
    ensures (a + b + c)[0] == a[0] && (a + b + c)[1] == a[1]
    ensures (a + b + c)[2..2 + |b|] == b && (a + b + c)[2 + |b|..] == c
  {
  }

  /** Reading frames back gives the strings that were framed, and nothing else. */
  lemma {:induction false} UnframedOfFramed(parts: seq<Bytes>, rest: Bytes)
    requires AllShort(parts) && Incomplete(rest)
    ensures Unframed(Framed(parts) + rest) == (parts, rest)
  {
    if parts == [] {
      assert Framed(parts) + rest == rest;
      UnframedIncomplete(rest);
    } else {
      var p, tail := parts[0], Framed(parts[1..]) + rest;
      UnframedOfFramed(parts[1..], rest);
      UnframedHead(p, tail);
      assert Framed(parts) == Prefix(|p|) + p + Framed(parts[1..]);
      hide *;
      Assoc(Prefix(|p|) + p, Framed(parts[1..]), rest);
      assert [p] + parts[1..] == parts;
    }
  }

  lemma UnframedIncomplete(rest: Bytes)
    requires Incomplete(rest)
    ensures Unframed(rest) == ([], rest)
  {
  }

  /** Framing again what was read gives the payload back. */
  lemma {:induction false} FramedOfUnframed(payload: Bytes)
    ensures var r := Unframed(payload); payload == Framed(r.0) + r.1 && Incomplete(r.1)
  {
    if !Incomplete(payload) {
      var end := 2 + U16Le(payload[0], payload[1]);
      var (p, tail) := (payload[2..end], payload[end..]);
      FramedOfUnframed(tail);
      SplitFrame(payload);
      var (parts, rest) := Unframed(tail);
      assert Unframed(payload) == ([p] + parts, rest);
      FramedCons(p, parts);
      assert |p| == end - 2;
      hide *;
      Assoc(Prefix(|p|) + p, Framed(parts), rest);
    } else {
      UnframedIncomplete(payload);
      assert Framed([]) + payload == payload;
    }
  }

  lemma SplitFrame(payload: Bytes)
    requires !Incomplete(payload)
    ensures var end := 2 + U16Le(payload[0], payload[1]);
      payload == Prefix(end - 2) + payload[2..end] + payload[end..]
  {
    var end := 2 + U16Le(payload[0], payload[1]);
    PrefixRead(payload[0], payload[1]);
    hide Prefix;
    hide U16Le;
    assert payload == payload[..2] + payload[2..end] + payload[end..];
    assert payload[..2] == [payload[0], payload[1]];
  }

  lemma PrefixRead(lo: Byte, hi: Byte)
    ensures Prefix(U16Le(lo, hi)) == [lo, hi]
  {
    var l: int, h: int := lo, hi;
    assert (l + 256 * h) % 256 == l && (l + 256 * h) / 256 == h && l + 256 * h < 0x1_0000;
  }

  lemma FramedCons(p: Bytes, parts: seq<Bytes>)
    ensures Framed([p] + parts) == Prefix(|p|) + p + Framed(parts)
  {
    assert ([p] + parts)[1..] == parts;
  }

  /** What reading a payload as `rowCount` frames answers. */
  function Verdict(payload: Bytes, rowCount: nat): Result<(Bytes, seq<nat>)> {
    var (parts, rest) := Unframed(payload);
    if |Concat(parts)| > I32_MAX then Err(OffsetPanic)
    else if |rest| == 1 then Err(MissingPrefix)
    else if |rest| > 1 then Err(ShortPayload)
    else if |parts| != rowCount then Err(WrongRowCount)
    else Ok((Concat(parts), Offsets(parts)))
  }

  ghost predicate Acceptable(payload: Bytes, rowCount: nat, values: Bytes, offsets: seq<nat>) {
    exists parts :: FramesOf(payload, parts) && |parts| == rowCount && |values| <= I32_MAX
      && values == Concat(parts) && offsets == Offsets(parts)
  }

  /** A payload is accepted exactly when it is the concatenation of `rowCount` complete frames
      (whose offsets fit in 32 bits), and then the strings and their offsets are those of the frames. */
  lemma AcceptedIff(payload: Bytes, rowCount: nat, values: Bytes, offsets: seq<nat>)
    ensures Verdict(payload, rowCount) == Ok((values, offsets)) <==> Acceptable(payload, rowCount, values, offsets)
  {
    if Verdict(payload, rowCount) == Ok((values, offsets)) {
      VerdictOk(payload, rowCount, values, offsets);
    }
    if Acceptable(payload, rowCount, values, offsets) {
      AcceptableVerdict(payload, rowCount, values, offsets);
    }
    hide *;
  }

  lemma VerdictOk(payload: Bytes, rowCount: nat, values: Bytes, offsets: seq<nat>)
    requires Verdict(payload, rowCount) == Ok((values, offsets))
    ensures Acceptable(payload, rowCount, values, offsets)
  {
    FramedOfUnframed(payload);
    var (parts, rest) := Unframed(payload);
    hide Unframed;
    hide Framed;
    hide Concat;
    hide Offsets;
    assert rest == [] && Framed(parts) + rest == Framed(parts);
    assert FramesOf(payload, parts);
  }

  lemma AcceptableVerdict(payload: Bytes, rowCount: nat, values: Bytes, offsets: seq<nat>)
    requires Acceptable(payload, rowCount, values, offsets)
    ensures Verdict(payload, rowCount) == Ok((values, offsets))
  {
    var parts :| FramesOf(payload, parts) && |parts| == rowCount && |values| <= I32_MAX
      && values == Concat(parts) && offsets == Offsets(parts);
    hide Concat;
    hide Offsets;
    VerdictOfFramed(parts);
    hide *;
  }

  predicate FramesOf(payload: Bytes, parts: seq<Bytes>) {
    AllShort(parts) && Framed(parts) == payload
  }

  /** Once the first frames have been read, a further complete frame is the next one. */
  lemma UnframedStep(payload: Bytes, offset: nat, parts: seq<Bytes>)
    requires AllShort(parts) && offset <= |payload| && payload[..offset] == Framed(parts) && !Incomplete(payload[offset..])
    ensures var end := offset + 2 + U16Le(payload[offset], payload[offset + 1]);
      var longer := parts + [payload[offset + 2..end]];
      && end <= |payload| && AllShort(longer) && payload[..end] == Framed(longer)
      && longer <= Unframed(payload).0
  {
    hide *;
    FrameAt(payload, offset);
    var len := U16Le(payload[offset], payload[offset + 1]);
    var end := offset + 2 + len;
    var part := payload[offset + 2..end];
    FramedAppend(parts, part);
    OneMoreShort(parts, part);
    Joined(payload, offset, end);
    FramesAreRead(payload, end, parts + [part]);
  }

  lemma Joined(payload: Bytes, offset: nat, end: nat)
    requires offset <= end <= |payload|
    ensures payload[..end] == payload[..offset] + payload[offset..end]
  {
  }

  lemma OneMoreShort(parts: seq<Bytes>, part: Bytes)
    requires AllShort(parts) && |part| <= U16_MAX
    ensures AllShort(parts + [part])
  {
  }

  lemma FrameAt(payload: Bytes, offset: nat)
    requires offset <= |payload| && !Incomplete(payload[offset..])
    ensures offset + 2 <= |payload|
    ensures var len := U16Le(payload[offset], payload[offset + 1]);
      var end := offset + 2 + len;
      && len <= U16_MAX && end <= |payload| && payload[offset..end] == Prefix(len) + payload[offset + 2..end]
  {
    var tail := payload[offset..];
    SplitFrame(tail);
    var len := U16Le(payload[offset], payload[offset + 1]);
    hide *;
    assert tail[2..2 + len] == payload[offset + 2..offset + 2 + len];
    assert payload[offset..offset + 2 + len] == tail[..2 + len];
  }

  lemma FramesAreRead(payload: Bytes, end: nat, parts: seq<Bytes>)
    requires AllShort(parts) && end <= |payload| && payload[..end] == Framed(parts)
    ensures parts <= Unframed(payload).0
  {
    hide Unframed;
    hide Framed;
    var tail := payload[end..];
    FramedOfUnframed(tail);
    var (more, rest) := Unframed(tail);
    assert AllShort(parts + more);
    UnframedOfFramed(parts + more, rest);
    FramedConcat(parts, more);
    hide *;
    assert payload == payload[..end] + tail;
    Assoc(Framed(parts), Framed(more), rest);
  }

  // ── Encoding and decoding a chunk ─────────────────────────────────────────

  datatype Chunk<Table> = Chunk(symbolTable: Table, payload: Bytes, rowCount: nat, decodedBytes: nat)

  /** The compression library, and what counts as UTF-8. The last argument of `decompress` is the
      size of the buffer it may write to. */
  datatype Codec<!Table> = Codec(
    compress: (Bytes, seq<nat>) -> Result<(Table, Bytes, seq<int>)>,
    decompress: (Table, Bytes, seq<nat>, nat) -> Result<(Bytes, seq<int>)>,
    utf8: Bytes -> bool)

  /** The library's side of the contract. */
  ghost predicate WellBehaved<Table(!new)>(c: Codec<Table>) {
    && (forall v, o :: c.compress(v, o).Ok? ==> ValidOffsets(c.compress(v, o).value.1, c.compress(v, o).value.2))
    && (forall t, v, o, n :: c.decompress(t, v, o, n).Ok? ==>
      ValidOffsets(c.decompress(t, v, o, n).value.0, c.decompress(t, v, o, n).value.1))
  }

  /** Decompressing what was compressed gives the same strings. */
  ghost predicate Inverse<Table(!new)>(c: Codec<Table>) {
    && WellBehaved(c)
    && forall strings, n :: InverseAt(c, strings, n)
  }

  ghost predicate InverseAt<Table(!new)>(c: Codec<Table>, strings: seq<Bytes>, n: nat)
    requires WellBehaved(c)
  {
    var r := c.compress(Concat(strings), Offsets(strings));
    r.Ok? && n >= |Concat(strings)| ==>
      var parts := Slices(r.value.1, r.value.2);
      && |parts| == |strings| && r.value.2 != []
      && var d := c.decompress(r.value.0, Concat(parts), Offsets(parts), n);
        d.Ok? && Slices(d.value.0, d.value.1) == strings
  }

  ghost function Encoded<Table(!new)>(c: Codec<Table>, values: Bytes, offsets: seq<nat>): Result<Chunk<Table>>
    requires WellBehaved(c)
  {
    match c.compress(values, offsets)
    case Err(e) => Err(e)
    case Ok((table, compressed, ends)) =>
      if |ends| != |offsets| then Err(WrongOffsetCount)
      else if !AllShort(Slices(compressed, ends)) then Err(TooLong)
      else Ok(Chunk(table, Framed(Slices(compressed, ends)), if offsets == [] then 0 else |offsets| - 1, |values|))
  }

  lemma FrameNext(all: seq<Bytes>, i: nat)
    requires i < |all| && AllShort(all[..i]) && |all[i]| <= U16_MAX
    ensures AllShort(all[..i + 1])
    ensures Framed(all[..i + 1]) == Framed(all[..i]) + Prefix(|all[i]|) + all[i]
  {
    assert all[..i + 1] == all[..i] + [all[i]];
    FramedAppend(all[..i], all[i]);
    hide *;
    Assoc(Framed(all[..i]), Prefix(|all[i]|), all[i]);
  }

  /** The loop that frames the compressed strings. */
  method FrameStrings(compressed: Bytes, ends: seq<int>) returns (r: Result<Bytes>)
    requires ValidOffsets(compressed, ends)
    ensures var all := Slices(compressed, ends);
      r == if AllShort(all) then Ok(Framed(all)) else Err(TooLong)
  {
    ghost var all := Slices(compressed, ends);
    assert Framed([]) == [];
    hide Slices;
    hide Framed;
    hide Prefix;
    var payload: Bytes := [];
    for i := 0 to |ends| - if ends == [] then 0 else 1
      invariant AllShort(all[..i]) && payload == Framed(all[..i])
    {
      var start, end := ends[i], ends[i + 1];
      var len := end - start;
      SliceAt(compressed, ends, i);
      if len > U16_MAX {
        assert all[i] in all;
        return Err(TooLong);
      }
      FrameNext(all, i);
      payload := payload + Prefix(len);
      payload := payload + compressed[start..end];
    }
    assert all[..|all|] == all;
    return Ok(payload);
  }

  method EncodeWithRawFsst<Table(!new)>(c: Codec<Table>, values: Bytes, offsets: seq<nat>) returns (r: Result<Chunk<Table>>)
    requires WellBehaved(c)
    ensures r == Encoded(c, values, offsets)
  {
    var compression := c.compress(values, offsets);
    if compression.Err? {
      return Err(compression.error);
    }
    var (table, compressed, ends) := compression.value;
    if |ends| != |offsets| {
      return Err(WrongOffsetCount);
    }
    var framed := FrameStrings(compressed, ends);
    if framed.Err? {
      return Err(framed.error);
    }
    return Ok(Chunk(table, framed.value, if offsets == [] then 0 else |offsets| - 1, |values|));
  }

  lemma VerdictAtEnd(payload: Bytes, parts: seq<Bytes>, rest: Bytes, rowCount: nat)
    requires AllShort(parts) && Incomplete(rest) && payload == Framed(parts) + rest && |Concat(parts)| <= I32_MAX
    ensures Verdict(payload, rowCount) ==
      if |rest| == 1 then Err(MissingPrefix) else if |rest| > 1 then Err(ShortPayload)
      else if |parts| != rowCount then Err(WrongRowCount) else Ok((Concat(parts), Offsets(parts)))
  {
    UnframedOfFramed(parts, rest);
  }

  lemma VerdictOverflow(payload: Bytes, parts: seq<Bytes>, rowCount: nat)
    requires parts <= Unframed(payload).0 && |Concat(parts)| > I32_MAX
    ensures Verdict(payload, rowCount) == Err(OffsetPanic)
  {
    var all := Unframed(payload).0;
    assert all[..|parts|] == parts;
    ConcatGrows(all, |parts|);
  }

  /** The first `offset` bytes are the frames of `parts`, which have been collected. */
  ghost predicate HasRead(payload: Bytes, offset: nat, parts: seq<Bytes>, values: Bytes, offsets: seq<nat>) {
    && offset <= |payload| && AllShort(parts) && payload[..offset] == Framed(parts)
    && values == Concat(parts) && offsets == Offsets(parts) && |values| <= I32_MAX
  }

  lemma ReadStart(payload: Bytes)
    ensures HasRead(payload, 0, [], [], [0])
  {
  }

  lemma ReadFrame(payload: Bytes, offset: nat, parts: seq<Bytes>, values: Bytes, offsets: seq<nat>, rowCount: nat)
    requires HasRead(payload, offset, parts, values, offsets) && !Incomplete(payload[offset..])
    ensures var end := offset + 2 + U16Le(payload[offset], payload[offset + 1]);
      end <= |payload| &&
      var part := payload[offset + 2..end];
      if |values + part| > I32_MAX then Verdict(payload, rowCount) == Err(OffsetPanic)
      else HasRead(payload, end, parts + [part], values + part, offsets + [|values + part|])
  {
    UnframedStep(payload, offset, parts);
    var part := payload[offset + 2..offset + 2 + U16Le(payload[offset], payload[offset + 1])];
    AppendPart(parts, part);
    if |values + part| > I32_MAX {
      VerdictOverflow(payload, parts + [part], rowCount);
    }
  }

  lemma ReadEnd(payload: Bytes, offset: nat, parts: seq<Bytes>, values: Bytes, offsets: seq<nat>, rowCount: nat)
    requires HasRead(payload, offset, parts, values, offsets) && Incomplete(payload[offset..])
    ensures |offsets| == |parts| + 1
    ensures Verdict(payload, rowCount) ==
      if |payload| - offset == 1 then Err(MissingPrefix) else if |payload| - offset > 1 then Err(ShortPayload)
      else if |parts| != rowCount then Err(WrongRowCount) else Ok((values, offsets))
  {
    hide Framed;
    hide Verdict;
    assert payload == payload[..offset] + payload[offset..];
    VerdictAtEnd(payload, parts, payload[offset..], rowCount);
  }

  /** The loop that takes a payload apart. */
  method Unframe(payload: Bytes, rowCount: nat) returns (r: Result<(Bytes, seq<nat>)>)
    ensures r == Verdict(payload, rowCount)
  {
    hide *;
    var values: Bytes, offsets: seq<nat> := [], [0];
    var offset := 0;
    ghost var parts: seq<Bytes> := [];
    ReadStart(payload);
    while offset < |payload|
      invariant offset <= |payload| && HasRead(payload, offset, parts, values, offsets)
      decreases |payload| - offset
    {
      IncompleteAt(payload, offset);
      if offset + 2 > |payload| {
        ReadEnd(payload, offset, parts, values, offsets, rowCount);
        return Err(MissingPrefix);
      }
      var len := U16Le(payload[offset], payload[offset + 1]);
      offset := offset + 2;
      if offset + len > |payload| {
        ReadEnd(payload, offset - 2, parts, values, offsets, rowCount);
        return Err(ShortPayload);
      }
      var part := payload[offset..offset + len];
      ReadFrame(payload, offset - 2, parts, values, offsets, rowCount);
      values := values + part;
      if |values| > I32_MAX {
        return Err(OffsetPanic);
      }
      offsets := offsets + [|values|];
      parts := parts + [part];
      offset := offset + len;
    }
    IncompleteAt(payload, offset);
    ReadEnd(payload, offset, parts, values, offsets, rowCount);
    if |offsets| != rowCount + 1 {
      return Err(WrongRowCount);
    }
    return Ok((values, offsets));
  }

  ghost function Decoded<Table(!new)>(c: Codec<Table>, chunk: Chunk<Table>): Result<seq<Bytes>>
    requires WellBehaved(c)
  {
    match Verdict(chunk.payload, chunk.rowCount)
    case Err(e) => Err(e)
    case Ok((values, offsets)) =>
      match c.decompress(chunk.symbolTable, values, offsets, Max(chunk.decodedBytes, |values| * 3))
      case Err(e) => Err(e)
      case Ok((decoded, ends)) =>
        if forall s <- Slices(decoded, ends) :: c.utf8(s) then Ok(Slices(decoded, ends)) else Err(InvalidUtf8)
  }

  function Max(a: nat, b: nat): nat {
    if a < b then b else a
  }

  method DecodeWithRawFsst<Table(!new)>(c: Codec<Table>, chunk: Chunk<Table>) returns (r: Result<seq<Bytes>>)
    requires WellBehaved(c)
    ensures r == Decoded(c, chunk)
  {
    hide Slices;
    hide Verdict;
    var frames := Unframe(chunk.payload, chunk.rowCount);
    if frames.Err? {
      return Err(frames.error);
    }
    var (values, offsets) := frames.value;
    var decompression := c.decompress(chunk.symbolTable, values, offsets, Max(chunk.decodedBytes, |values| * 3));
    if decompression.Err? {
      return Err(decompression.error);
    }
    var (decoded, ends) := decompression.value;
    ghost var all := Slices(decoded, ends);
    var strings: seq<Bytes> := [];
    for i := 0 to |ends| - if ends == [] then 0 else 1
      invariant strings == all[..i] && forall s <- strings :: c.utf8(s)
    {
      SliceAt(decoded, ends, i);
      var s := decoded[ends[i]..ends[i + 1]];
      if !c.utf8(s) {
        assert all[i] in all;
        return Err(InvalidUtf8);
      }
      assert all[..i + 1] == all[..i] + [s];
      strings := strings + [s];
    }
    assert all[..|all|] == all;
    return Ok(strings);
  }

  /** With a compressor and a decompressor that undo each other, any list of UTF-8 strings comes
      back from its chunk; the only chunks refused after compression have a compressed string
      over 65535 bytes. */
  lemma StringsRoundTrip<Table(!new)>(c: Codec<Table>, strings: seq<Bytes>)
    requires Inverse(c) && c.compress(Concat(strings), Offsets(strings)).Ok?
    requires forall s <- strings :: c.utf8(s)
    ensures var compression := c.compress(Concat(strings), Offsets(strings)).value;
      var r := Encoded(c, Concat(strings), Offsets(strings));
      if AllShort(Slices(compression.1, compression.2)) then r.Ok? && Decoded(c, r.value) == Ok(strings)
      else r == Err(TooLong)
  {
    hide *;
    var r := CompressedParts(c, strings);
    var parts := Slices(r.1, r.2);
    if AllShort(parts) {
      VerdictOfFramed(parts);
      DecodedFrames(c, strings, Chunk(r.0, Framed(parts), |strings|, |Concat(strings)|), parts);
    }
  }

  /** What the library's contract says of the compressed strings, and the chunk made of them. */
  lemma CompressedParts<Table(!new)>(c: Codec<Table>, strings: seq<Bytes>) returns (r: (Table, Bytes, seq<int>))
    requires Inverse(c) && c.compress(Concat(strings), Offsets(strings)).Ok?
    ensures c.compress(Concat(strings), Offsets(strings)) == Ok(r) && WellBehaved(c) && ValidOffsets(r.1, r.2)
    ensures var parts := Slices(r.1, r.2);
      && |parts| == |strings| && |Concat(parts)| <= I32_MAX
      && Encoded(c, Concat(strings), Offsets(strings)) ==
         if AllShort(parts) then Ok(Chunk(r.0, Framed(parts), |strings|, |Concat(strings)|)) else Err(TooLong)
  {
    r := c.compress(Concat(strings), Offsets(strings)).value;
    assert InverseAt(c, strings, |Concat(strings)|);
    SlicesLength(r.1, r.2);
    hide Slices;
    hide Framed;
    hide Concat;
    hide Inverse;
    hide InverseAt;
    assert |Offsets(strings)| == |strings| + 1;
  }

  lemma VerdictOfFramed(parts: seq<Bytes>)
    requires AllShort(parts) && |Concat(parts)| <= I32_MAX
    ensures Verdict(Framed(parts), |parts|) == Ok((Concat(parts), Offsets(parts)))
  {
    hide Framed;
    hide Verdict;
    hide Concat;
    assert Framed(parts) + [] == Framed(parts);
    VerdictAtEnd(Framed(parts), parts, [], |parts|);
  }

  lemma DecodedFrames<Table(!new)>(c: Codec<Table>, strings: seq<Bytes>, chunk: Chunk<Table>, parts: seq<Bytes>)
    requires Inverse(c) && c.compress(Concat(strings), Offsets(strings)).Ok? && forall s <- strings :: c.utf8(s)
    requires WellBehaved(c)
    requires var r := c.compress(Concat(strings), Offsets(strings)).value; r.0 == chunk.symbolTable && parts == Slices(r.1, r.2)
    requires Verdict(chunk.payload, chunk.rowCount) == Ok((Concat(parts), Offsets(parts)))
    requires chunk.decodedBytes == |Concat(strings)|
    ensures Decoded(c, chunk) == Ok(strings)
  {
    hide Verdict;
    hide Slices;
    hide Concat;
    hide Offsets;
    assert InverseAt(c, strings, Max(chunk.decodedBytes, |Concat(parts)| * 3));
  }

  /** Every payload is some complete frames and an incomplete rest, and that decides what decoding
      gives: the buffer holds at least three bytes for each compressed one. */
  lemma DecodedIs<Table(!new)>(c: Codec<Table>, chunk: Chunk<Table>, parts: seq<Bytes>, rest: Bytes)
    requires WellBehaved(c) && AllShort(parts) && chunk.payload == Framed(parts) + rest && Incomplete(rest)
    ensures var size := |Concat(parts)|;
      Decoded(c, chunk) ==
        if size > 0x7FFF_FFFF then Err(OffsetPanic)
        else if |rest| == 1 then Err(MissingPrefix)
        else if |rest| >= 2 then Err(ShortPayload)
        else if |parts| != chunk.rowCount then Err(WrongRowCount)
        else
          match c.decompress(chunk.symbolTable, Concat(parts), Offsets(parts),
                             if chunk.decodedBytes < 3 * size then 3 * size else chunk.decodedBytes)
          case Err(e) => Err(e)
          case Ok((decoded, ends)) =>
            if forall s <- Slices(decoded, ends) :: c.utf8(s) then Ok(Slices(decoded, ends)) else Err(InvalidUtf8)
  {
    VerdictOf(chunk.payload, parts, rest, chunk.rowCount);
    var size := |Concat(parts)|;
    assert Max(chunk.decodedBytes, size * 3) == if chunk.decodedBytes < 3 * size then 3 * size else chunk.decodedBytes;
    hide Max;
    hide Verdict;
    hide Framed;
    hide Concat;
    hide Offsets;
    hide Slices;
    hide AllShort;
    hide WellBehaved;
    hide Incomplete;
    if size <= 0x7FFF_FFFF && rest == [] && |parts| == chunk.rowCount {
      assert Verdict(chunk.payload, chunk.rowCount) == Ok((Concat(parts), Offsets(parts)));
    } else {
      assert Verdict(chunk.payload, chunk.rowCount).Err?;
    }
  }

  lemma VerdictOf(payload: Bytes, parts: seq<Bytes>, rest: Bytes, rowCount: nat)
    requires AllShort(parts) && Incomplete(rest) && payload == Framed(parts) + rest
    ensures Verdict(payload, rowCount) ==
      if |Concat(parts)| > 0x7FFF_FFFF then Err(OffsetPanic)
      else if |rest| == 1 then Err(MissingPrefix)
      else if |rest| >= 2 then Err(ShortPayload)
      else if |parts| != rowCount then Err(WrongRowCount)
      else Ok((Concat(parts), Offsets(parts)))
  {
    UnframedOfFramed(parts, rest);
    hide Unframed;
    hide Framed;
    hide Concat;
    hide Offsets;
  }

  /** Encoding fails as the compressor does, or on the wrong number of offsets, or exactly when one
      compressed string is over 65535 bytes. */
  lemma EncodedIs<Table(!new)>(c: Codec<Table>, values: Bytes, offsets: seq<nat>, table: Table, compressed: Bytes, ends: seq<int>)
    requires WellBehaved(c)
    ensures c.compress(values, offsets).Err? ==> Encoded(c, values, offsets) == Err(c.compress(values, offsets).error)
    ensures c.compress(values, offsets) == Ok((table, compressed, ends)) ==>
      Encoded(c, values, offsets) ==
        if |ends| != |offsets| then Err(WrongOffsetCount)
        else if exists i :: 0 < i < |ends| && ends[i] - ends[i - 1] > 65535 then Err(TooLong)
        else Ok(Chunk(table, Framed(Slices(compressed, ends)), if offsets == [] then 0 else |offsets| - 1, |values|))
  {
    if c.compress(values, offsets) == Ok((table, compressed, ends)) {
      ShortIff(compressed, ends);
    }
    hide Slices;
    hide AllShort;
    hide Framed;
  }

  lemma ShortIff(compressed: Bytes, ends: seq<int>)
    requires ValidOffsets(compressed, ends)
    ensures AllShort(Slices(compressed, ends)) <==> !exists i :: 0 < i < |ends| && ends[i] - ends[i - 1] > 65535
  {
    var parts := Slices(compressed, ends);
    if i :| 0 < i < |ends| && ends[i] - ends[i - 1] > 65535 {
      SliceAt(compressed, ends, i - 1);
      assert parts[i - 1] in parts;
    }
    if !AllShort(parts) {
      var k :| 0 <= k < |parts| && |parts[k]| > U16_MAX;
      SliceAt(compressed, ends, k);
      assert ends[k + 1] - ends[k + 1 - 1] > 65535;
    }
    hide Slices;
  }
}
