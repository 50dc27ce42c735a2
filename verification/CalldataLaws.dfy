/** Encoders for the two calldata layouts, and what decoding does to what they produce. */
module CalldataLaws {
  import opened Wrappers
  import opened Texts
  import opened Doubles
  import opened Calldata

  // ---- which reading is chosen ----

  /** Every word is a whole number. */
  predicate Felts(c: seq<Word>) {
    forall i :: 0 <= i < |c| ==> BigInt(c[i]).Some?
  }

  function Sum(xs: seq<nat>): nat {
    if xs == [] then 0 else Sum(xs[..|xs| - 1]) + xs[|xs| - 1]
  }

  /** The first n claimed lengths. */
  function Claims(c: seq<Word>, n: nat): seq<nat>
    requires Felts(c) && 4 * n < |c|
  {
    seq(n, k requires 0 <= k < n => BigInt(c[4 * k + 4]).value)
  }

  lemma NumberOfSmall(w: Word)
    requires BigInt(w).Some? && BigInt(w).value < EXACT_BOUND
    ensures NumberOf(w) == BigInt(w)
  {
  }

  lemma PlusSmall(a: nat, b: nat)
    requires a + b < EXACT_BOUND
    ensures Plus(Some(a), Some(b)) == Some(a + b)
  {
  }

  /** The sum as JavaScript adds it up. */
  function RoundedSum(xs: seq<nat>): nat {
    if xs == [] then 0 else Round(RoundedSum(xs[..|xs| - 1]) + Round(xs[|xs| - 1]))
  }

  /** JavaScript finds the true sum. */
  predicate SurvivesAddition(xs: seq<nat>) { RoundedSum(xs) == Sum(xs) }

  lemma {:induction false} SmallSumIsExact(xs: seq<nat>)
    requires Sum(xs) < EXACT_BOUND
    ensures SurvivesAddition(xs)
  {
    if xs != [] {
      SmallSumIsExact(xs[..|xs| - 1]);
    }
  }

  /** Lengths of 2^53 and 1 add up to 2^53 in JavaScript. */
  lemma RoundedSumLosesOne()
    ensures RoundedSum([EXACT_BOUND, 1]) == EXACT_BOUND && Sum([EXACT_BOUND, 1]) == EXACT_BOUND + 1
  {
    assert [EXACT_BOUND, 1][..1] == [EXACT_BOUND];
    assert [EXACT_BOUND][..0] == [];
    assert RoundedSum([EXACT_BOUND]) == EXACT_BOUND && Sum([EXACT_BOUND]) == EXACT_BOUND;
  }

  lemma {:induction false} NumberSumIsRounded(c: Words, n: nat)
    requires Felts(c) && 4 * n < |c|
    ensures NumberSum(c, n) == Some(RoundedSum(Claims(c, n)))
  {
    if n > 0 {
      assert Claims(c, n)[..n - 1] == Claims(c, n - 1);
      NumberSumIsRounded(c, n - 1);
    }
  }

  /**
   * On felts, the legacy layout is chosen exactly when word 1+4n repeats the sum of the lengths, as
   * JavaScript adds them; below 2^53 that is their sum.
   */
  lemma ChoiceOfReading(c: Words)
    requires c != [] && Felts(c)
    ensures var n := BigInt(c[0]).value;
      && (LegacyAccepts(c) <==> 1 + 4 * n < |c| && BigInt(c[1 + 4 * n]).value == RoundedSum(Claims(c, n)))
      && (1 + 4 * n < |c| && Sum(Claims(c, n)) < EXACT_BOUND ==> SurvivesAddition(Claims(c, n)))
      && (!LegacyAccepts(c) ==> InvokeReading(c) == NewReading(c))
      && (LegacyAccepts(c) ==> InvokeReading(c) == Ok(LegacyReading(c)))
  {
    var n := BigInt(c[0]).value;
    if 1 + 4 * n < |c| {
      NumberSumIsRounded(c, n);
      if Sum(Claims(c, n)) < EXACT_BOUND {
        SmallSumIsExact(Claims(c, n));
      }
    }
  }

  // ---- the new layout ----

  function CountWord(n: nat): Word { Some(Hex(n, 0, 0)) }

  function EncodeCall(call: ContractCall): seq<Word> {
    [call.to, call.selector, CountWord(|call.calldata|)] + call.calldata
  }

  function EncodeCalls(calls: seq<ContractCall>): seq<Word> {
    if calls == [] then []
    else EncodeCall(calls[0]) + EncodeCalls(calls[1..])
  }

  function EncodeNew(calls: seq<ContractCall>): seq<Word> {
    [CountWord(|calls|)] + EncodeCalls(calls)
  }

  /** Calls as the decoder makes them: no decoded arguments yet. */
  predicate Plain(calls: seq<ContractCall>) {
    forall k :: 0 <= k < |calls| ==> calls[k].decodedArgs == None
  }

  /** The same words up to the spelling of numbers. */
  predicate SameWord(a: Word, b: Word) {
    a == b || (BigInt(a).Some? && BigInt(a) == BigInt(b))
  }

  /** The words from `offset` on are w, up to the spelling of numbers. */
  predicate SpelledAt(c: seq<Word>, offset: nat, w: seq<Word>) {
    offset + |w| <= |c| && forall i :: 0 <= i < |w| ==> SameWord(w[i], c[offset + i])
  }

  function Args(calls: seq<ContractCall>): nat {
    if calls == [] then 0 else |calls[0].calldata| + Args(calls[1..])
  }

  lemma {:induction false} EncodeCallsLength(calls: seq<ContractCall>)
    ensures |EncodeCalls(calls)| == 3 * |calls| + Args(calls)
  {
    if calls != [] {
      EncodeCallsLength(calls[1..]);
    }
  }

  /** One step of the parser, on words that spell the call it should find. */
  lemma ParseOneCall(c: Words, offset: nat, call: ContractCall, rest: seq<ContractCall>)
    requires call.decodedArgs == None
    requires var end := offset + 3 + |call.calldata|;
      && end <= |c| && c[offset] == call.to && c[offset + 1] == call.selector
      && BigInt(c[offset + 2]) == Some(|call.calldata|) && c[offset + 3..end] == call.calldata
      && NewFrom(c, end, |rest|) == Ok(rest)
    ensures NewFrom(c, offset, 1 + |rest|) == Ok([call] + rest)
  {
  }

  /** The words from `offset` on begin with w. */
  predicate StandsAt(c: seq<Word>, offset: nat, w: seq<Word>) {
    offset + |w| <= |c| && forall i :: 0 <= i < |w| ==> c[offset + i] == w[i]
  }

  lemma SplitAt(c: seq<Word>, offset: nat, w: seq<Word>, v: seq<Word>)
    requires StandsAt(c, offset, w + v)
    ensures StandsAt(c, offset, w) && StandsAt(c, offset + |w|, v)
  {
    forall i | 0 <= i < |w|
      ensures c[offset + i] == w[i]
    {
      assert (w + v)[i] == w[i];
    }
    forall i | 0 <= i < |v|
      ensures c[offset + |w| + i] == v[i]
    {
      assert (w + v)[|w| + i] == v[i];
      assert c[offset + (|w| + i)] == v[i];
    }
  }

  lemma CallAt(c: seq<Word>, offset: nat, call: ContractCall)
    requires StandsAt(c, offset, EncodeCall(call))
    ensures var end := offset + 3 + |call.calldata|;
      && end <= |c| && c[offset] == call.to && c[offset + 1] == call.selector
      && c[offset + 2] == CountWord(|call.calldata|) && c[offset + 3..end] == call.calldata
  {
    var w := EncodeCall(call);
    assert c[offset + 0] == w[0] && c[offset + 1] == w[1] && c[offset + 2] == w[2];
    forall i | 0 <= i < |call.calldata|
      ensures c[offset + 3 + i] == call.calldata[i]
    {
      assert c[offset + (3 + i)] == w[3 + i];
    }
  }

  lemma {:induction false} ParseEncodedCalls(c: Words, offset: nat, calls: seq<ContractCall>)
    requires Plain(calls) && StandsAt(c, offset, EncodeCalls(calls))
    ensures NewFrom(c, offset, |calls|) == Ok(calls)
    decreases |calls|
  {
    if calls != [] {
      var call, rest := calls[0], calls[1..];
      SplitAt(c, offset, EncodeCall(call), EncodeCalls(rest));
      CallAt(c, offset, call);
      assert |EncodeCall(call)| == 3 + |call.calldata|;
      ParseEncodedCalls(c, offset + 3 + |call.calldata|, rest);
      ParseOneCall(c, offset, call, rest);
      assert calls == [call] + rest;
    }
  }

  /** Parsing what was printed gives the calls back, whatever follows them. */
  lemma NewRoundTrip(calls: seq<ContractCall>, tail: seq<Word>)
    requires Plain(calls) && |EncodeNew(calls) + tail| < ARRAY_BOUND
    ensures NewReading(EncodeNew(calls) + tail) == Ok(calls)
  {
    var c := EncodeNew(calls) + tail;
    ParseEncodedCalls(c, 1, calls);
  }

  lemma SpelledJoin(c: seq<Word>, offset: nat, w: seq<Word>, v: seq<Word>)
    requires SpelledAt(c, offset, w) && SpelledAt(c, offset + |w|, v)
    ensures SpelledAt(c, offset, w + v)
  {
    forall i | 0 <= i < |w + v|
      ensures SameWord((w + v)[i], c[offset + i])
    {
      if i >= |w| {
        assert SameWord(v[i - |w|], c[offset + |w| + (i - |w|)]);
      }
    }
  }

  lemma PrintOneCall(c: Words, offset: nat, call: ContractCall)
    requires var end := offset + 3 + |call.calldata|;
      && end <= |c| && c[offset] == call.to && c[offset + 1] == call.selector
      && BigInt(c[offset + 2]) == Some(|call.calldata|) && c[offset + 3..end] == call.calldata
    ensures SpelledAt(c, offset, EncodeCall(call))
  {
    forall i | 0 <= i < |call.calldata|
      ensures c[offset + (3 + i)] == call.calldata[i]
    {
      assert c[offset + 3..offset + 3 + |call.calldata|][i] == c[offset + 3 + i];
    }
  }

  /** The first call a successful parse found, and where the others start. */
  lemma FirstParsedCall(c: Words, offset: nat, n: nat)
    requires n > 0 && NewFrom(c, offset, n).Ok?
    ensures var calls := NewFrom(c, offset, n).value;
      && calls != [] && calls[0].decodedArgs == None
      && var end := offset + 3 + |calls[0].calldata|;
      && end <= |c| && c[offset] == calls[0].to && c[offset + 1] == calls[0].selector
      && BigInt(c[offset + 2]) == Some(|calls[0].calldata|) && c[offset + 3..end] == calls[0].calldata
      && NewFrom(c, end, n - 1) == Ok(calls[1..])
  {
  }

  lemma {:induction false} PrintParsedCalls(c: Words, offset: nat, n: nat)
    requires offset <= |c| && NewFrom(c, offset, n).Ok?
    ensures var calls := NewFrom(c, offset, n).value;
      |calls| == n && Plain(calls) && SpelledAt(c, offset, EncodeCalls(calls))
    decreases n
  {
    if n > 0 {
      FirstParsedCall(c, offset, n);
      var calls := NewFrom(c, offset, n).value;
      PrintParsedCalls(c, offset + 3 + |calls[0].calldata|, n - 1);
      PrintOneCall(c, offset, calls[0]);
      SpelledJoin(c, offset, EncodeCall(calls[0]), EncodeCalls(calls[1..]));
    }
  }

  /** Printing what was parsed gives back, by value, the words that were read. */
  lemma NewPrefix(c: Words)
    requires NewReading(c).Ok?
    ensures SpelledAt(c, 0, EncodeNew(NewReading(c).value))
    ensures 3 * |NewReading(c).value| + 1 <= |c|
  {
    var calls := NewReading(c).value;
    PrintParsedCalls(c, 1, BigAt(c, 0).value);
    EncodeCallsLength(calls);
    SpelledJoin(c, 0, [CountWord(|calls|)], EncodeCalls(calls));
  }

  lemma {:induction false} FailedParse(c: Words, offset: nat, n: nat) returns (calls: seq<ContractCall>, stop: nat)
    requires offset <= |c| && NewFrom(c, offset, n).Err?
    ensures |calls| == CompletedFrom(c, offset, n) < n && Plain(calls)
    ensures SpelledAt(c, offset, EncodeCalls(calls)) && stop == offset + |EncodeCalls(calls)|
    ensures NewFrom(c, offset, n)
      == Err(if BigAt(c, stop + 2).None? then InvalidFieldElement else UnexpectedCalldataLength)
    ensures BigAt(c, stop + 2).Some? ==> |c| < stop + 3 + BigAt(c, stop + 2).value
    decreases n
  {
    var len := BigAt(c, offset + 2);
    if len.Some? && offset + 3 + len.value <= |c| {
      var end := offset + 3 + len.value;
      var call := ContractCall(c[offset], c[offset + 1], c[offset + 3..end], None);
      var rest: seq<ContractCall>;
      rest, stop := FailedParse(c, end, n - 1);
      calls := [call] + rest;
      assert calls[1..] == rest;
      PrintOneCall(c, offset, call);
      SpelledJoin(c, offset, EncodeCall(call), EncodeCalls(rest));
    } else {
      calls, stop := [], offset;
    }
  }

  /**
   * The newer layout is refused at a count that is no number, or after some calls that do stand
   * there, at the first length that is no number or reaches past the end; the error tells which.
   */
  lemma NewFailure(c: Words) returns (calls: seq<ContractCall>, stop: nat)
    requires NewReading(c).Err?
    ensures BigAt(c, 0).None? ==> NewReading(c).error == InvalidFieldElement
    ensures BigAt(c, 0).Some? ==>
      && |calls| < BigAt(c, 0).value && SpelledAt(c, 1, EncodeCalls(calls)) && stop == 1 + |EncodeCalls(calls)|
      && (BigAt(c, stop + 2).Some? ==> |c| < stop + 3 + BigAt(c, stop + 2).value)
      && NewReading(c).error
         == if BigAt(c, stop + 2).None? then InvalidFieldElement else UnexpectedCalldataLength
  {
    if BigAt(c, 0).Some? {
      calls, stop := FailedParse(c, 1, BigAt(c, 0).value);
    } else {
      calls, stop := [], 0;
    }
  }

  // ---- the legacy layout ----

  /** The part of [offset, offset+len) that lies inside the payload. */
  function Clip(payload: seq<Word>, offset: nat, len: nat): seq<Word> {
    var lo := if offset < |payload| then offset else |payload|;
    var hi := if offset + len < |payload| then offset + len else |payload|;
    payload[lo..hi]
  }

  /** Rounding is invisible through a slice: bounds that are not exact are past the end anyway. */
  lemma BoundIgnoresRounding(c: Words, a: nat, b: nat)
    ensures Bound(c, Plus(Some(a), Some(Round(b)))) == Bound(c, Some(a + b))
  {
  }

  lemma ClipBehind(c: seq<Word>, base: nat, off: nat, len: nat)
    requires base <= |c|
    ensures Clip(c[base..], off, len)
         == if base + off >= |c| then []
            else if base + off + len < |c| then c[base + off..base + off + len]
            else c[base + off..]
  {
    var p := c[base..];
    if off < |p| {
      assert p[off..] == c[base + off..];
      if off + len < |p| {
        assert p[off..off + len] == c[base + off..base + off + len];
      }
    }
  }

  lemma RoundedSlice(c: Words, base: nat, off: nat, len: nat)
    requires base <= |c|
    ensures var start := Plus(Some(base), Some(Round(off)));
      Slice(c, start, Plus(start, Some(Round(len)))) == Clip(c[base..], off, len)
  {
    BoundIgnoresRounding(c, base, off);
    ClipBehind(c, base, off, len);
    var start := Plus(Some(base), Some(Round(off)));
    if base + off < |c| {
      assert start == Some(base + off);
      BoundIgnoresRounding(c, base + off, len);
    }
  }

  /** The number a header word claims: null claims 0, an unreadable word nothing. */
  function Claimed(w: Word): Option<nat> {
    if w.None? then Some(0) else BigInt(w)
  }

  /** What a header with these two words cuts out of the words from `base` on; empty if unreadable. */
  function Cut(c: Words, base: nat, off: Word, len: Word): seq<Word>
    requires base <= |c|
  {
    if Claimed(off).None? || Claimed(len).None? then []
    else Clip(c[base..], Claimed(off).value, Claimed(len).value)
  }

  /** The segment header k of n asks for, clipped to the payload. */
  function SegmentAt(c: Words, n: nat, k: nat): seq<Word>
    requires k < n && 1 + 4 * n < |c|
  {
    Cut(c, 2 + 4 * n, c[4 * k + 3], c[4 * k + 4])
  }

  lemma SliceIsCut(c: Words, base: nat, off: Word, len: Word)
    requires base <= |c|
    ensures var start := Plus(Some(base), NumberOf(off));
      Slice(c, start, Plus(start, NumberOf(len))) == Cut(c, base, off, len)
  {
    if Claimed(off).Some? && Claimed(len).Some? {
      RoundedSlice(c, base, Claimed(off).value, Claimed(len).value);
    }
  }

  lemma CallOfBuilder(c: Words, base: nat, to: Word, selector: Word, off: Word, len: Word)
    requires base <= |c|
    ensures BuilderCall(c, base, CallBuilder(Some(to), Some(selector), NumberOf(off), NumberOf(len)))
         == ContractCall(to, selector, Cut(c, base, off, len), None)
  {
    SliceIsCut(c, base, off, len);
  }

  /** A header denotes that segment, for offsets and lengths of any size. */
  lemma SegmentOfHeader(c: Words, n: nat, k: nat)
    requires k < n && 1 + 4 * n < |c|
    ensures LegacyCall(c, n, k) == ContractCall(c[4 * k + 1], c[4 * k + 2], SegmentAt(c, n, k), None)
  {
    var to, selector, off, len := c[4 * k + 1], c[4 * k + 2], c[4 * k + 3], c[4 * k + 4];
    assert BuilderAt(c, k) == CallBuilder(Some(to), Some(selector), NumberOf(off), NumberOf(len));
    CallOfBuilder(c, 2 + 4 * n, to, selector, off, len);
  }

  datatype Segment = Segment(to: Word, selector: Word, offset: nat, len: nat)

  function Header(s: Segment): seq<Word> {
    [s.to, s.selector, CountWord(s.offset), CountWord(s.len)]
  }

  function Headers(segments: seq<Segment>): seq<Word> {
    if segments == [] then [] else Headers(segments[..|segments| - 1]) + Header(segments[|segments| - 1])
  }

  function SegmentLengths(segments: seq<Segment>): seq<nat> {
    seq(|segments|, k requires 0 <= k < |segments| => segments[k].len)
  }

  /** Any list of segments, in any order and with any overlap, over one payload. */
  function EncodeLegacy(segments: seq<Segment>, payload: seq<Word>): seq<Word> {
    [CountWord(|segments|)] + Headers(segments) + [CountWord(Sum(SegmentLengths(segments)))] + payload
  }

  lemma {:induction false} HeadersLength(segments: seq<Segment>)
    ensures |Headers(segments)| == 4 * |segments|
  {
    if segments != [] {
      HeadersLength(segments[..|segments| - 1]);
    }
  }

  lemma {:induction false} HeadersAt(segments: seq<Segment>, k: nat, j: nat)
    requires k < |segments| && j < 4
    ensures |Headers(segments)| == 4 * |segments|
    ensures Headers(segments)[4 * k + j] == Header(segments[k])[j]
    decreases |segments|
  {
    HeadersLength(segments);
    var front := segments[..|segments| - 1];
    HeadersLength(front);
    if k < |front| {
      HeadersAt(front, k, j);
    }
  }

  /** Where the headers and the total stand in the encoding. */
  lemma EncodedHeader(segments: seq<Segment>, payload: seq<Word>, k: nat)
    requires k < |segments|
    ensures var c, s := EncodeLegacy(segments, payload), segments[k];
      && |c| == 2 + 4 * |segments| + |payload|
      && c[4 * k + 1] == s.to && c[4 * k + 2] == s.selector
      && c[4 * k + 3] == CountWord(s.offset) && c[4 * k + 4] == CountWord(s.len)
  {
    HeadersAt(segments, k, 0);
    HeadersAt(segments, k, 1);
    HeadersAt(segments, k, 2);
    HeadersAt(segments, k, 3);
  }

  lemma {:induction false} EncodedSum(segments: seq<Segment>, payload: seq<Word>, n: nat)
    requires n <= |segments| && |EncodeLegacy(segments, payload)| < ARRAY_BOUND
    ensures NumberSum(EncodeLegacy(segments, payload), n) == Some(RoundedSum(SegmentLengths(segments[..n])))
  {
    if n > 0 {
      var c: Words := EncodeLegacy(segments, payload);
      assert SegmentLengths(segments[..n])[..n - 1] == SegmentLengths(segments[..n - 1]);
      EncodedSum(segments, payload, n - 1);
      EncodedHeader(segments, payload, n - 1);
      assert c[4 * n] == CountWord(segments[n - 1].len);
    }
  }

  /** The call one segment stands for. */
  function SegmentCall(s: Segment, payload: seq<Word>): ContractCall {
    ContractCall(s.to, s.selector, Clip(payload, s.offset, s.len), None)
  }

  lemma EncodedFrame(segments: seq<Segment>, payload: seq<Word>)
    ensures var c, n := EncodeLegacy(segments, payload), |segments|;
      && |c| == 2 + 4 * n + |payload|
      && c[0] == CountWord(n) && c[1 + 4 * n] == CountWord(Sum(SegmentLengths(segments)))
      && c[2 + 4 * n..] == payload
  {
    HeadersLength(segments);
  }

  /** The legacy layout is recognised exactly when its total survives the addition. */
  lemma EncodedIsAcceptedIff(segments: seq<Segment>, payload: seq<Word>)
    requires |EncodeLegacy(segments, payload)| < ARRAY_BOUND
    ensures LegacyAccepts(EncodeLegacy(segments, payload)) <==> SurvivesAddition(SegmentLengths(segments))
  {
    EncodedFrame(segments, payload);
    assert segments[..|segments|] == segments;
    EncodedSum(segments, payload, |segments|);
  }

  lemma EncodedCall(segments: seq<Segment>, payload: seq<Word>, k: nat)
    requires |EncodeLegacy(segments, payload)| < ARRAY_BOUND
    requires k < |segments|
    ensures |EncodeLegacy(segments, payload)| > 1 + 4 * |segments|
    ensures LegacyCall(EncodeLegacy(segments, payload), |segments|, k) == SegmentCall(segments[k], payload)
  {
    EncodedFrame(segments, payload);
    EncodedHeader(segments, payload, k);
    SegmentOfHeader(EncodeLegacy(segments, payload), |segments|, k);
  }

  function SegmentCalls(segments: seq<Segment>, payload: seq<Word>): seq<ContractCall> {
    seq(|segments|, k requires 0 <= k < |segments| => SegmentCall(segments[k], payload))
  }

  lemma EncodedReading(segments: seq<Segment>, payload: seq<Word>)
    requires |EncodeLegacy(segments, payload)| < ARRAY_BOUND && LegacyAccepts(EncodeLegacy(segments, payload))
    ensures LegacyReading(EncodeLegacy(segments, payload)) == SegmentCalls(segments, payload)
  {
    var c: Words, n := EncodeLegacy(segments, payload), |segments|;
    EncodedFrame(segments, payload);
    var calls := LegacyReading(c);
    assert |calls| == n;
    forall k | 0 <= k < n
      ensures calls[k] == SegmentCalls(segments, payload)[k]
    {
      EncodedCall(segments, payload, k);
    }
  }

  /**
   * A legacy word is read as such exactly when its total survives the addition, as every total
   * below 2^53 does; then decoding gives its segments, in header order, with their targets.
   */
  lemma LegacyRoundTrip(segments: seq<Segment>, payload: seq<Word>)
    requires |EncodeLegacy(segments, payload)| < ARRAY_BOUND
    ensures LegacyAccepts(EncodeLegacy(segments, payload)) <==> SurvivesAddition(SegmentLengths(segments))
    ensures Sum(SegmentLengths(segments)) < EXACT_BOUND ==> SurvivesAddition(SegmentLengths(segments))
    ensures SurvivesAddition(SegmentLengths(segments)) ==>
      InvokeReading(EncodeLegacy(segments, payload)) == Ok(SegmentCalls(segments, payload))
    ensures forall k :: 0 <= k < |segments| && segments[k].offset + segments[k].len <= |payload| ==>
      SegmentCalls(segments, payload)[k].calldata
        == payload[segments[k].offset..segments[k].offset + segments[k].len]
  {
    EncodedIsAcceptedIff(segments, payload);
    if Sum(SegmentLengths(segments)) < EXACT_BOUND {
      SmallSumIsExact(SegmentLengths(segments));
    }
    if SurvivesAddition(SegmentLengths(segments)) {
      EncodedReading(segments, payload);
    }
  }

  // ---- the layouts against each other ----

  /** Calls printed in the new layout come back wherever the legacy layout is not recognised. */
  lemma NewLayoutComesBack(calls: seq<ContractCall>)
    requires Plain(calls) && |EncodeNew(calls)| < ARRAY_BOUND && !LegacyAccepts(EncodeNew(calls))
    ensures InvokeReading(EncodeNew(calls)) == Ok(calls)
  {
    NewRoundTrip(calls, []);
    assert EncodeNew(calls) + [] == EncodeNew(calls);
  }

  /** Legacy header k names this target and selector, and its segment is this data. */
  predicate HeaderSpells(c: Words, n: nat, k: nat, call: ContractCall)
    requires k < n && 1 + 4 * n < |c|
  {
    c[4 * k + 1] == call.to && c[4 * k + 2] == call.selector && SegmentAt(c, n, k) == call.calldata
  }

  predicate HeadersSpell(c: Words, calls: seq<ContractCall>) {
    1 + 4 * |calls| < |c| && forall k :: 0 <= k < |calls| ==> HeaderSpells(c, |calls|, k, calls[k])
  }

  lemma AcceptedReadingIs(c: Words, calls: seq<ContractCall>)
    requires LegacyAccepts(c) && BigAt(c, 0) == Some(|calls|) && Plain(calls)
    ensures LegacyReading(c) == calls <==> HeadersSpell(c, calls)
  {
    var n := |calls|;
    forall k | 0 <= k < n
      ensures LegacyReading(c)[k] == ContractCall(c[4 * k + 1], c[4 * k + 2], SegmentAt(c, n, k), None)
    {
      SegmentOfHeader(c, n, k);
    }
    if HeadersSpell(c, calls) {
      forall k | 0 <= k < n
        ensures LegacyReading(c)[k] == calls[k]
      {
        assert HeaderSpells(c, n, k, calls[k]);
      }
    }
    if LegacyReading(c) == calls {
      forall k | 0 <= k < n
        ensures HeaderSpells(c, n, k, calls[k])
      {
        assert LegacyReading(c)[k] == calls[k];
      }
    }
  }

  /** Any calls in the new layout come back exactly when no legacy reading is recognised or it agrees. */
  lemma NewLayoutComesBackIff(calls: seq<ContractCall>)
    requires Plain(calls) && |EncodeNew(calls)| < ARRAY_BOUND
    ensures InvokeReading(EncodeNew(calls)) == Ok(calls)
      <==> !LegacyAccepts(EncodeNew(calls)) || HeadersSpell(EncodeNew(calls), calls)
  {
    if LegacyAccepts(EncodeNew(calls)) {
      AcceptedReadingIs(EncodeNew(calls), calls);
    } else {
      NewLayoutComesBack(calls);
    }
  }

  /** Two calls in the new layout that the legacy layout recognises, and reads as the same two calls. */
  function CoincidentCalls(): seq<ContractCall> {
    [ContractCall(CountWord(100), CountWord(200), CountWords([5, 13, 7, 2, 8]), None),
     ContractCall(CountWord(13), CountWord(7), CountWords([1, 1, 1, 5, 13, 7, 2, 8]), None)]
  }

  function CountWords(ns: seq<nat>): seq<Word> {
    seq(|ns|, i requires 0 <= i < |ns| => CountWord(ns[i]))
  }

  function CoincidentWords(): Words {
    CountWords([2, 100, 200, 5, 5, 13, 7, 2, 8, 13, 7, 8, 1, 1, 1, 5, 13, 7, 2, 8])
  }

  lemma CoincidentEncoding()
    ensures EncodeNew(CoincidentCalls()) == CoincidentWords()
  {
    var calls := CoincidentCalls();
    assert calls[1..] == [calls[1]];
    assert EncodeCalls([calls[1]][1..]) == [];
    assert EncodeCalls([calls[1]]) == EncodeCall(calls[1]);
  }

  lemma CoincidentAccepted()
    ensures LegacyAccepts(CoincidentWords())
  {
    var c := CoincidentWords();
    assert c[4] == CountWord(5) && c[8] == CountWord(8) && c[9] == CountWord(13);
    assert NumberSum(c, 1) == Plus(Some(0), NumberAt(c, 4));
    assert NumberSum(c, 2) == Plus(NumberSum(c, 1), NumberAt(c, 8));
  }

  lemma CountWordsSlice(ns: seq<nat>, i: nat, j: nat)
    requires i <= j <= |ns|
    ensures CountWords(ns)[i..j] == CountWords(ns[i..j])
  {
  }

  lemma CoincidentPayload()
    ensures CoincidentWords()[10..] == CountWords([7, 8, 1, 1, 1, 5, 13, 7, 2, 8])
  {
  }

  lemma FirstHeaderCoincides()
    ensures HeaderSpells(CoincidentWords(), 2, 0, CoincidentCalls()[0])
  {
    var ns: seq<nat> := [7, 8, 1, 1, 1, 5, 13, 7, 2, 8];
    CoincidentPayload();
    CountWordsSlice(ns, 5, 10);
    assert ns[5..10] == [5, 13, 7, 2, 8];
    var c := CoincidentWords();
    assert c[1] == CountWord(100) && c[2] == CountWord(200) && c[3] == CountWord(5) && c[4] == CountWord(5);
  }

  lemma SecondHeaderCoincides()
    ensures HeaderSpells(CoincidentWords(), 2, 1, CoincidentCalls()[1])
  {
    var ns: seq<nat> := [7, 8, 1, 1, 1, 5, 13, 7, 2, 8];
    CoincidentPayload();
    CountWordsSlice(ns, 2, 10);
    assert ns[2..10] == [1, 1, 1, 5, 13, 7, 2, 8];
    var c := CoincidentWords();
    assert c[5] == CountWord(13) && c[6] == CountWord(7) && c[7] == CountWord(2) && c[8] == CountWord(8);
  }

  lemma CoincidentShape()
    ensures |CoincidentCalls()| == 2 && Plain(CoincidentCalls())
    ensures |CoincidentWords()| == 20 && BigAt(CoincidentWords(), 0) == Some(2)
  {
  }

  lemma TwoAgreeingHeaders(c: Words, calls: seq<ContractCall>)
    requires LegacyAccepts(c) && BigAt(c, 0) == Some(2) && |calls| == 2 && |c| > 9 && Plain(calls)
    requires HeaderSpells(c, 2, 0, calls[0]) && HeaderSpells(c, 2, 1, calls[1])
    ensures InvokeReading(c) == Ok(calls)
  {
    assert HeadersSpell(c, calls);
    AcceptedReadingIs(c, calls);
  }

  lemma CoincidentReading()
    ensures InvokeReading(CoincidentWords()) == Ok(CoincidentCalls())
  {
    var c, calls := CoincidentWords(), CoincidentCalls();
    CoincidentShape();
    CoincidentAccepted();
    FirstHeaderCoincides();
    SecondHeaderCoincides();
    TwoAgreeingHeaders(c, calls);
  }

  /** Recognising the legacy layout does not by itself lose the calls. */
  lemma LayoutsMayCoincide()
    ensures LegacyAccepts(CoincidentWords())
    ensures EncodeNew(CoincidentCalls()) == CoincidentWords()
    ensures InvokeReading(CoincidentWords()) == Ok(CoincidentCalls())
  {
    CoincidentEncoding();
    CoincidentAccepted();
    CoincidentReading();
  }

  /** With no more arguments than calls there is no room for a legacy reading: the calls come back. */
  lemma FewArgumentsAreSafe(calls: seq<ContractCall>)
    requires Plain(calls) && |EncodeNew(calls)| < ARRAY_BOUND && Args(calls) <= |calls|
    ensures InvokeReading(EncodeNew(calls)) == Ok(calls)
  {
    EncodeCallsLength(calls);
    NewLayoutComesBack(calls);
  }

  /** Read as one legacy call, the segment starts behind the word. */
  lemma PastTheEnd(c: Words, args: nat)
    requires |c| == 4 + args && args >= 2 && BigInt(c[3]) == Some(args)
    ensures LegacyCall(c, 1, 0).calldata == []
  {
    NumberOfSmall(c[3]);
    PlusSmall(6, args);
  }

  /** The second argument of the only call is the number its first argument reads as. */
  predicate Collides(args: seq<Word>) {
    |args| >= 2 && BigInt(args[1]).Some? && Plus(Some(0), NumberOf(args[0])) == BigInt(args[1])
  }

  lemma EncodedSingleCall(call: ContractCall)
    ensures EncodeNew([call])
         == [CountWord(1), call.to, call.selector, CountWord(|call.calldata|)] + call.calldata
  {
    assert EncodeCalls([call][1..]) == [];
  }

  lemma SingleCallAcceptedIff(c: Words, args: seq<Word>)
    requires |c| == 4 + |args| && BigInt(c[0]) == Some(1) && c[4..] == args
    ensures LegacyAccepts(c) <==> Collides(args)
  {
    assert NumberSum(c, 1) == Plus(Some(0), NumberAt(c, 4));
    if |args| >= 2 {
      assert c[4] == args[0] && c[5] == args[1];
    }
  }

  /** One call in the new layout comes back exactly when its first two arguments do not collide. */
  lemma SingleCallComesBackIff(call: ContractCall)
    requires Plain([call]) && |EncodeNew([call])| < ARRAY_BOUND
    ensures InvokeReading(EncodeNew([call])) == Ok([call]) <==> !Collides(call.calldata)
  {
    var c := EncodeNew([call]);
    EncodedSingleCall(call);
    assert c[4..] == call.calldata;
    SingleCallAcceptedIff(c, call.calldata);
    if Collides(call.calldata) {
      PastTheEnd(c, |call.calldata|);
      assert LegacyReading(c)[0] == LegacyCall(c, 1, 0);
    } else {
      NewRoundTrip([call], []);
      assert c + [] == c;
    }
  }

  /** The new layout of one call with the arguments 5 and 5. */
  function TwoFives(to: Text, selector: Text): Words {
    [CountWord(1), Some(to), Some(selector), CountWord(2), CountWord(5), CountWord(5)]
  }

  /** The collision: two equal arguments are read as a legacy call without arguments. */
  lemma EqualArgumentsCollide(to: Text, selector: Text)
    ensures EncodeNew([ContractCall(Some(to), Some(selector), [CountWord(5), CountWord(5)], None)])
         == TwoFives(to, selector)
    ensures InvokeReading(TwoFives(to, selector)) == Ok([ContractCall(Some(to), Some(selector), [], None)])
  {
    var call := ContractCall(Some(to), Some(selector), [CountWord(5), CountWord(5)], None);
    assert EncodeCalls([call][1..]) == [];
    var c := TwoFives(to, selector);
    assert EncodeNew([call]) == c;
    NumberOfSmall(c[4]);
    NumberOfSmall(c[3]);
    PlusSmall(0, 5);
    PlusSmall(6, 2);
    PlusSmall(8, 5);
    assert NumberSum(c, 1) == Plus(Some(0), NumberAt(c, 4));
    assert LegacyReading(c) == [LegacyCall(c, 1, 0)];
  }

  // ---- conservation in the legacy layout ----

  function Lengths(calls: seq<ContractCall>): seq<nat> {
    seq(|calls|, k requires 0 <= k < |calls| => |calls[k].calldata|)
  }

  /** Segment k is empty or lies inside the word. */
  ghost predicate Inside(c: Words, n: nat, k: nat)
    requires Felts(c) && k < n && 1 + 4 * n < |c|
  {
    var off, len := BigInt(c[4 * k + 3]).value, BigInt(c[4 * k + 4]).value;
    len == 0 || 2 + 4 * n + off + len <= |c|
  }

  lemma SegmentConservation(c: Words, n: nat, k: nat)
    requires Felts(c) && k < n && 1 + 4 * n < |c|
    ensures |LegacyCall(c, n, k).calldata| <= BigInt(c[4 * k + 4]).value
    ensures |LegacyCall(c, n, k).calldata| == BigInt(c[4 * k + 4]).value <==> Inside(c, n, k)
  {
    SegmentOfHeader(c, n, k);
  }

  lemma {:induction false} SumOfSmaller(xs: seq<nat>, ys: seq<nat>)
    requires |xs| == |ys| && forall k :: 0 <= k < |xs| ==> xs[k] <= ys[k]
    ensures Sum(xs) <= Sum(ys)
    ensures Sum(xs) == Sum(ys) <==> forall k :: 0 <= k < |xs| ==> xs[k] == ys[k]
  {
    if xs != [] {
      var last := |xs| - 1;
      SumOfSmaller(xs[..last], ys[..last]);
      var front := forall k :: 0 <= k < last ==> xs[..last][k] == ys[..last][k];
      assert front <==> forall k :: 0 <= k < last ==> xs[k] == ys[k];
    }
  }

  lemma ReadingConservation(c: Words)
    requires Felts(c) && LegacyAccepts(c)
    ensures var n := BigInt(c[0]).value; var lengths := Lengths(LegacyReading(c));
      && |lengths| == n
      && forall k :: 0 <= k < n ==>
           lengths[k] <= Claims(c, n)[k] && (lengths[k] == Claims(c, n)[k] <==> Inside(c, n, k))
  {
    var n := BigInt(c[0]).value;
    forall k | 0 <= k < n
      ensures var given := Lengths(LegacyReading(c))[k];
        given <= Claims(c, n)[k] && (given == Claims(c, n)[k] <==> Inside(c, n, k))
    {
      SegmentConservation(c, n, k);
    }
  }

  /**
   * No more words are handed out than the headers claim, and as many exactly when every segment
   * lies inside. The declared total is that claim exactly when it survives the addition.
   */
  lemma LegacyConservation(c: Words)
    requires Felts(c) && LegacyAccepts(c)
    ensures var n := BigInt(c[0]).value; var claims := Claims(c, n); var given := Lengths(LegacyReading(c));
      && Sum(given) <= Sum(claims)
      && (Sum(given) == Sum(claims) <==> forall k :: 0 <= k < n ==> Inside(c, n, k))
      && (BigInt(c[1 + 4 * n]).value == Sum(claims) <==> SurvivesAddition(claims))
      && (Sum(claims) < EXACT_BOUND ==> SurvivesAddition(claims))
  {
    ChoiceOfReading(c);
    ReadingConservation(c);
    SumOfSmaller(Lengths(LegacyReading(c)), Claims(c, BigInt(c[0]).value));
  }
}
