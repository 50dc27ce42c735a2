/** Decoding of INVOKE calldata, which comes in two wire layouts that are tried in order. */
module Calldata {
  import opened Wrappers
  import opened Texts
  import opened Doubles

  /** One calldata word; None is null. */
  type Word = Option<Text>

  /** A JavaScript array holds fewer than 2^32 elements. */
  const ARRAY_BOUND: nat := 0x1_0000_0000
  type Words = c: seq<Word> | |c| < ARRAY_BOUND witness []

  datatype ContractCall = ContractCall(to: Word, selector: Word, calldata: seq<Word>, decodedArgs: Option<string>)

  datatype DecodeError = InvalidFieldElement | UnexpectedCalldataLength | NotAnInteger

  type Decoded = Result<seq<ContractCall>, DecodeError>

  // ---- reading single words ----

  /** `parseBigInt(c[i])`; None is a thrown error, also for a missing word. */
  function BigAt(c: Words, i: nat): Option<nat> {
    if i < |c| then BigInt(c[i]) else None
  }

  /** `Number(word)`; None is NaN. */
  function NumberOf(w: Word): Option<nat> {
    if w.None? then Some(0)
    else if BigInt(w).None? then None
    else Some(Round(BigInt(w).value))
  }

  /** `Number(c[i])`; a missing word is NaN. */
  function NumberAt(c: Words, i: nat): Option<nat> {
    if i < |c| then NumberOf(c[i]) else None
  }

  /** Addition of JavaScript numbers. */
  function Plus(a: Option<nat>, b: Option<nat>): Option<nat> {
    if a.Some? && b.Some? then Some(Round(a.value + b.value)) else None
  }

  /** How `slice` reads a bound: NaN is 0, and nothing lies beyond the end. */
  function Bound(c: Words, x: Option<nat>): (r: nat)
    ensures r <= |c|
  {
    if x.None? then 0 else if x.value < |c| then x.value else |c|
  }

  function Slice(c: Words, start: Option<nat>, end: Option<nat>): seq<Word> {
    if Bound(c, start) < Bound(c, end) then c[Bound(c, start)..Bound(c, end)] else []
  }

  // ---- the legacy layout: count, 4 words per call, total, payload ----

  /** The sum of the first n claimed lengths, as JavaScript adds them. */
  function NumberSum(c: Words, n: nat): Option<nat> {
    if n == 0 then Some(0) else Plus(NumberSum(c, n - 1), NumberAt(c, 4 * n))
  }

  /** The word after the headers exists and repeats the sum of the claimed lengths. */
  predicate LegacyAccepts(c: Words) {
    BigAt(c, 0).Some? &&
    var n := BigAt(c, 0).value;
    BigAt(c, 1 + 4 * n).Some? && NumberSum(c, n) == BigAt(c, 1 + 4 * n)
  }

  datatype CallBuilder = CallBuilder(
    to: Option<Word>, selector: Option<Word>, dataOffset: Option<nat>, dataLen: Option<nat>)

  function At(c: Words, i: nat): Option<Word> {
    if i < |c| then Some(c[i]) else None
  }

  /** The k-th header. */
  function BuilderAt(c: Words, k: nat): CallBuilder {
    CallBuilder(At(c, 4 * k + 1), At(c, 4 * k + 2), NumberAt(c, 4 * k + 3), NumberAt(c, 4 * k + 4))
  }

  /** The call a header stands for, when the payload starts at word `offset`. */
  function BuilderCall(c: Words, offset: nat, builder: CallBuilder): ContractCall
    requires builder.to.Some? && builder.selector.Some?
  {
    var start := Plus(Some(offset), builder.dataOffset);
    ContractCall(builder.to.value, builder.selector.value, Slice(c, start, Plus(start, builder.dataLen)), None)
  }

  /** The k-th of n calls: its header names a segment of the payload that starts at word 2+4n. */
  function LegacyCall(c: Words, n: nat, k: nat): ContractCall
    requires k < n && 1 + 4 * n < |c|
  {
    BuilderCall(c, 2 + 4 * n, BuilderAt(c, k))
  }

  function LegacyReading(c: Words): seq<ContractCall>
    requires LegacyAccepts(c)
  {
    var n := BigAt(c, 0).value;
    seq(n, k requires 0 <= k < n => LegacyCall(c, n, k))
  }

  /** The `reduce` over claimed lengths. */
  function ReduceLengths(builders: seq<CallBuilder>): Option<nat> {
    if builders == [] then Some(0)
    else Plus(ReduceLengths(builders[..|builders| - 1]), builders[|builders| - 1].dataLen)
  }

  /** The builders hold the first headers of the word. */
  predicate AreHeaders(c: Words, callBuilders: seq<CallBuilder>) {
    forall k :: 0 <= k < |callBuilders| ==> callBuilders[k] == BuilderAt(c, k)
  }

  lemma {:induction false} ReduceIsNumberSum(c: Words, builders: seq<CallBuilder>)
    requires AreHeaders(c, builders)
    ensures ReduceLengths(builders) == NumberSum(c, |builders|)
  {
    if builders != [] {
      var last := |builders| - 1;
      ReduceIsNumberSum(c, builders[..last]);
      assert builders[last] == BuilderAt(c, last);
    }
  }

  method ExpectedLength(c: Words, callBuilders: seq<CallBuilder>) returns (total: Option<nat>)
    requires AreHeaders(c, callBuilders)
    ensures total == NumberSum(c, |callBuilders|)
  {
    ReduceIsNumberSum(c, callBuilders);
    total := ReduceLengths(callBuilders);
  }

  /** The first loop of the legacy decoder: four words per claimed call, missing ones included. */
  method ReadHeaders(c: Words, callsLength: nat) returns (callBuilders: seq<CallBuilder>, offset: nat)
    ensures |callBuilders| == callsLength && offset == 1 + 4 * callsLength
    ensures AreHeaders(c, callBuilders)
  {
    callBuilders, offset := [], 1;
    var i := 0;
    while i < callsLength
      invariant i <= callsLength && offset == 1 + 4 * i && |callBuilders| == i
      invariant AreHeaders(c, callBuilders)
    {
      callBuilders := callBuilders + [CallBuilder(At(c, offset), At(c, offset + 1),
                                                  NumberAt(c, offset + 2), NumberAt(c, offset + 3))];
      offset := offset + 4;
      i := i + 1;
    }
  }

  predicate Complete(callBuilders: seq<CallBuilder>) {
    forall k :: 0 <= k < |callBuilders| ==> callBuilders[k].to.Some? && callBuilders[k].selector.Some?
  }

  /** The calls the headers stand for, one by one. */
  predicate AreCalls(c: Words, offset: nat, callBuilders: seq<CallBuilder>, calls: seq<ContractCall>)
    requires Complete(callBuilders)
  {
    && |calls| <= |callBuilders|
    && forall k :: 0 <= k < |calls| ==> calls[k] == BuilderCall(c, offset, callBuilders[k])
  }

  lemma AppendCall(c: Words, offset: nat, callBuilders: seq<CallBuilder>, calls: seq<ContractCall>)
    requires Complete(callBuilders) && AreCalls(c, offset, callBuilders, calls) && |calls| < |callBuilders|
    ensures AreCalls(c, offset, callBuilders, calls + [BuilderCall(c, offset, callBuilders[|calls|])])
  {
  }

  /** The second loop of the legacy decoder: one slice of the payload per header. */
  method CutSegments(c: Words, offset: nat, callBuilders: seq<CallBuilder>) returns (calls: seq<ContractCall>)
    requires Complete(callBuilders)
    ensures |calls| == |callBuilders| && AreCalls(c, offset, callBuilders, calls)
  {
    calls := [];
    while |calls| < |callBuilders|
      invariant |calls| <= |callBuilders| && AreCalls(c, offset, callBuilders, calls)
    {
      AppendCall(c, offset, callBuilders, calls);
      calls := calls + [BuilderCall(c, offset, callBuilders[|calls|])];
    }
  }

  lemma HeadersAreComplete(c: Words, callBuilders: seq<CallBuilder>)
    requires AreHeaders(c, callBuilders) && 4 * |callBuilders| < |c|
    ensures Complete(callBuilders)
  {
  }

  lemma SegmentsAreReading(c: Words, callBuilders: seq<CallBuilder>, calls: seq<ContractCall>)
    requires LegacyAccepts(c) && BigAt(c, 0).value == |callBuilders| == |calls|
    requires AreHeaders(c, callBuilders) && Complete(callBuilders)
    requires AreCalls(c, 2 + 4 * |callBuilders|, callBuilders, calls)
    ensures calls == LegacyReading(c)
  {
    forall k | 0 <= k < |calls|
      ensures calls[k] == LegacyCall(c, |calls|, k)
    {
      assert callBuilders[k] == BuilderAt(c, k);
    }
  }

  method DecodeLegacy(c: Words) returns (r: Decoded)
    ensures r.Ok? <==> LegacyAccepts(c)
    ensures r.Ok? ==> r.value == LegacyReading(c)
  {
    var callsLength := BigAt(c, 0);
    if callsLength.None? {
      return Err(InvalidFieldElement);
    }
    var callBuilders, offset := ReadHeaders(c, callsLength.value);
    var calldataLen := BigAt(c, offset);
    if calldataLen.None? {
      return Err(InvalidFieldElement);
    }
    var expectedCalldataLen := ExpectedLength(c, callBuilders);
    if expectedCalldataLen.None? {
      return Err(NotAnInteger);
    }
    if calldataLen.value != expectedCalldataLen.value {
      return Err(UnexpectedCalldataLength);
    }
    HeadersAreComplete(c, callBuilders);
    var calls := CutSegments(c, offset + 1, callBuilders);
    SegmentsAreReading(c, callBuilders, calls);
    return Ok(calls);
  }

  // ---- the new layout: count, then per call a target, a selector, a length and the data ----

  /** The n calls that start at word `offset`, or the first error met while reading them. */
  function NewFrom(c: Words, offset: nat, n: nat): Decoded
    decreases n
  {
    if n == 0 then Ok([])
    else
      var len := BigAt(c, offset + 2);
      if len.None? then Err(InvalidFieldElement)
      else if offset + 3 + len.value > |c| then Err(UnexpectedCalldataLength)
      else
        var rest := NewFrom(c, offset + 3 + len.value, n - 1);
        if rest.Err? then rest
        else Ok([ContractCall(c[offset], c[offset + 1], c[offset + 3..offset + 3 + len.value], None)] + rest.value)
  }

  /** How many of those calls are read before the end or the first error. */
  ghost function CompletedFrom(c: Words, offset: nat, n: nat): nat
    decreases n
  {
    if n == 0 || BigAt(c, offset + 2).None? || offset + 3 + BigAt(c, offset + 2).value > |c| then 0
    else 1 + CompletedFrom(c, offset + 3 + BigAt(c, offset + 2).value, n - 1)
  }

  ghost function Completed(c: Words): nat {
    if BigAt(c, 0).None? then 0 else CompletedFrom(c, 1, BigAt(c, 0).value)
  }

  function NewReading(c: Words): Decoded {
    var n := BigAt(c, 0);
    if n.None? then Err(InvalidFieldElement) else NewFrom(c, 1, n.value)
  }

  function Prepend(calls: seq<ContractCall>, rest: Decoded): Decoded {
    if rest.Err? then rest else Ok(calls + rest.value)
  }

  lemma PrependNothing(rest: Decoded)
    ensures Prepend([], rest) == rest
  {
    if rest.Ok? {
      assert [] + rest.value == rest.value;
    }
  }

  /** Moving the first pending call to the finished ones changes nothing. */
  lemma PrependNext(c: Words, calls: seq<ContractCall>, offset: nat, n: nat, call: ContractCall)
    requires n > 0 && BigAt(c, offset + 2).Some?
    requires var end := offset + 3 + BigAt(c, offset + 2).value;
      end <= |c| && call == ContractCall(c[offset], c[offset + 1], c[offset + 3..end], None)
    ensures Prepend(calls, NewFrom(c, offset, n))
         == Prepend(calls + [call], NewFrom(c, offset + 3 + BigAt(c, offset + 2).value, n - 1))
  {
    var rest := NewFrom(c, offset + 3 + BigAt(c, offset + 2).value, n - 1);
    if rest.Ok? {
      assert calls + ([call] + rest.value) == calls + [call] + rest.value;
    }
  }

  /** A length that fits the array is exact as a number, and one that does not fits neither way. */
  lemma LengthCheckIsExact(c: Words, offset: nat, len: nat)
    requires offset <= |c|
    ensures |Slice(c, Some(offset), Some(Round(offset + Round(len))))| == Round(len)
            <==> offset + len <= |c|
    ensures offset + len <= |c| ==>
      Round(len) == len && Slice(c, Some(offset), Some(Round(offset + Round(len)))) == c[offset..offset + len]
  {
  }

  /** One turn of the loop: the call that starts at `offset`. */
  method ReadCall(c: Words, offset: nat, ghost n: nat) returns (r: Result<ContractCall, DecodeError>)
    requires offset <= |c| && n > 0
    ensures r.Err? ==> NewFrom(c, offset, n) == Err(r.error) && CompletedFrom(c, offset, n) == 0
    ensures r.Ok? ==> BigAt(c, offset + 2).Some? && |r.value.calldata| == BigAt(c, offset + 2).value
    ensures r.Ok? ==> offset + 3 + |r.value.calldata| <= |c|
    ensures r.Ok? ==> r.value == ContractCall(c[offset], c[offset + 1],
                                              c[offset + 3..offset + 3 + |r.value.calldata|], None)
  {
    var to := At(c, offset);
    var selector := At(c, offset + 1);
    var calldataLen := BigAt(c, offset + 2);
    if calldataLen.None? {
      return Err(InvalidFieldElement);
    }
    var len := Round(calldataLen.value);
    var data := Slice(c, Some(offset + 3), Some(Round(offset + 3 + len)));
    LengthCheckIsExact(c, offset + 3, calldataLen.value);
    if |data| != len {
      return Err(UnexpectedCalldataLength);
    }
    return Ok(ContractCall(to.value, selector.value, data, None));
  }

  /** Each completed call consumes at least three words, whatever count the first word claims. */
  method DecodeNew(c: Words) returns (r: Decoded, ghost completed: nat)
    ensures r == NewReading(c)
    ensures completed == Completed(c) && (r.Ok? ==> completed == |r.value|)
    ensures completed > 0 ==> 1 + 3 * completed <= |c|
  {
    var calls: seq<ContractCall> := [];
    var callsLength := BigAt(c, 0);
    if callsLength.None? {
      return Err(InvalidFieldElement), 0;
    }
    var offset := 1;
    PrependNothing(NewFrom(c, 1, callsLength.value));
    while |calls| < callsLength.value
      invariant |calls| <= callsLength.value
      invariant 1 + 3 * |calls| <= offset <= |c|
      invariant NewReading(c) == Prepend(calls, NewFrom(c, offset, callsLength.value - |calls|))
      invariant Completed(c) == |calls| + CompletedFrom(c, offset, callsLength.value - |calls|)
      decreases |c| - offset
    {
      var call := ReadCall(c, offset, callsLength.value - |calls|);
      if call.Err? {
        return Err(call.error), |calls|;
      }
      PrependNext(c, calls, offset, callsLength.value - |calls|, call.value);
      calls := calls + [call.value];
      offset := offset + 3 + |call.value.calldata|;
    }
    assert calls + [] == calls;
    return Ok(calls), |calls|;
  }

  // ---- the two together ----

  /** The reading `decodeInvokeCalldata` settles on: legacy where it is accepted, else new. */
  function InvokeReading(c: Words): Decoded {
    if LegacyAccepts(c) then Ok(LegacyReading(c)) else NewReading(c)
  }

  method DecodeInvokeCalldata(c: Words) returns (r: Decoded)
    ensures r == InvokeReading(c)
  {
    r := DecodeLegacy(c);
    if r.Err? {
      ghost var completed;
      r, completed := DecodeNew(c);
    }
  }

  function DecodeGenericCalldata(contractAddress: Text, selector: Text, calldata: Words): ContractCall {
    ContractCall(Some(contractAddress), Some(selector), calldata, None)
  }
}
