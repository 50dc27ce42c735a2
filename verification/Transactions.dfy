/** Transactions whose decoded calls are remembered while filters and parsers look at them. */
module Transactions {
  import opened Wrappers
  import opened Texts
  import opened Calldata
  import opened Filters

  type Calls = seq<ContractCall>

  /** The remembered calls, or undefined. */
  type Cache = Option<Calls>

  /** The calls without the arguments that parsing fills in. */
  function Strip(calls: Calls): Calls {
    seq(|calls|, i requires 0 <= i < |calls| => calls[i].(decodedArgs := None))
  }

  /** What is remembered is what decoding the calldata gives, up to decoded arguments. */
  predicate Faithful(tx: TxData, cache: Cache) {
    cache.Some? ==> Decode(tx).Ok? && Decode(tx).value.Some? && Strip(cache.value) == Strip(Decode(tx).value.value)
  }

  // ---- one filter evaluation ----

  /** `parseCallData`: the remembered calls win over decoding. */
  function CachedDecode(tx: TxData, cache: Cache): Result<Cache, DecodeError> {
    if cache.Some? then Ok(cache) else Decode(tx)
  }

  function CachedVerdict(keccak: Keccak, tx: TxData, cache: Cache, filter: Option<TxFilter>, address: Option<Text>)
    : Result<bool, DecodeError>
  {
    if filter.None? then Ok(true)
    else if !HeaderPasses(keccak, tx, filter.value, address) then Ok(false)
    else
      var calls := CachedDecode(tx, cache);
      if calls.Err? then Err(calls.error)
      else Ok(BodyPasses(keccak, tx, calls.value, filter.value, address))
  }

  /** A match on the function, or on the target alone, stores the calls, even if the filter then rejects. */
  predicate Stores(keccak: Keccak, calls: Calls, f: TxFilter, address: Option<Text>) {
    && calls != []
    && (f.func.Undefined? || AnyHasFunction(keccak, calls, f.func))
    && (!f.func.Undefined?
        || (!TargetOf(f, address).Undefined? && AnyHasTarget(calls, TargetOf(f, address))))
  }

  function CacheAfterFilter(keccak: Keccak, tx: TxData, cache: Cache, filter: Option<TxFilter>,
                            address: Option<Text>): Cache
  {
    if filter.None? || !HeaderPasses(keccak, tx, filter.value, address) then cache
    else
      var calls := CachedDecode(tx, cache);
      if calls.Ok? && calls.value.Some? && Stores(keccak, calls.value.value, filter.value, address)
      then calls.value
      else cache
  }

  /** The call meets the function or the target, whichever is asked for. */
  predicate MeetsSomething(keccak: Keccak, call: ContractCall, f: TxFilter, address: Option<Text>) {
    || (!f.func.Undefined? && HasFunction(keccak, call, f.func))
    || (!TargetOf(f, address).Undefined? && HasTarget(call, TargetOf(f, address)))
  }

  /**
   * A filter fills the cache only with decoded calls one of which it was looking for, and always
   * does so when it accepts a transaction for its calls.
   */
  lemma OnlyFilteredCallsAreStored(keccak: Keccak, tx: TxData, f: TxFilter, address: Option<Text>)
    ensures var after := CacheAfterFilter(keccak, tx, None, Some(f), address);
      && (after.Some? ==>
            && Decode(tx) == Ok(after)
            && exists i :: 0 <= i < |after.value| && MeetsSomething(keccak, after.value[i], f, address))
      && (Accepts(keccak, tx, f, address) && (!f.func.Undefined? || !TargetOf(f, address).Undefined?)
            && Decode(tx).value.Some? && Decode(tx).value.value != []
          ==> after == Decode(tx).value)
  {
    var after := CacheAfterFilter(keccak, tx, None, Some(f), address);
    if after.Some? {
      var calls := after.value;
      if f.func.Undefined? {
        var i :| 0 <= i < |calls| && HasTarget(calls[i], TargetOf(f, address));
        assert MeetsSomething(keccak, calls[i], f, address);
      } else {
        var i :| 0 <= i < |calls| && HasFunction(keccak, calls[i], f.func);
        assert MeetsSomething(keccak, calls[i], f, address);
      }
    }
  }

  /** A rejected transaction keeps its calls exactly when it has the function asked for, but not the target. */
  lemma RejectedYetStored(keccak: Keccak, tx: TxData, f: TxFilter, address: Option<Text>)
    ensures CacheAfterFilter(keccak, tx, None, Some(f), address).Some? && !Accepts(keccak, tx, f, address)
      <==> && HeaderPasses(keccak, tx, f, address)
           && Decode(tx).Ok? && Decode(tx).value.Some?
           && var calls := Decode(tx).value.value;
           && !f.func.Undefined? && !TargetOf(f, address).Undefined?
           && (exists i :: 0 <= i < |calls| && HasFunction(keccak, calls[i], f.func))
           && forall i :: 0 <= i < |calls| ==> !HasTarget(calls[i], TargetOf(f, address))
  {
  }

  // ---- parsing ----

  /** What the parser made of a call's arguments; None is a failure that leaves the call alone. */
  type ArgsOf = ContractCall -> Option<string>

  function FillArgs(calls: Calls, args: ArgsOf): Calls {
    seq(|calls|, i requires 0 <= i < |calls| =>
      if args(calls[i]).Some? then calls[i].(decodedArgs := args(calls[i])) else calls[i])
  }

  /** `parseTransaction` on the cache; failures to load assets or to decode leave it as it is. */
  function CacheAfterParse(tx: TxData, cache: Cache, assetsLoad: bool, args: ArgsOf): Cache {
    if !assetsLoad || CachedDecode(tx, cache).Err? then cache
    else
      var calls := CachedDecode(tx, cache).value;
      if calls.None? then None else Some(FillArgs(calls.value, args))
  }

  function OrElse<T>(a: Option<T>, b: Option<T>): Option<T> { if a.Some? then a else b }

  /** Parsing gives every decoded call its own arguments, and changes nothing else about it. */
  lemma FilledCalls(tx: TxData, cache: Cache, args: ArgsOf)
    requires Faithful(tx, cache)
    ensures Decode(tx).Ok? && Decode(tx).value.Some? ==>
      && var calls := Decode(tx).value.value;
      && var before := if cache.Some? then cache.value else calls;
      && var after := CacheAfterParse(tx, cache, true, args);
      && |before| == |calls|
      && after.Some? && |after.value| == |calls|
      && forall i :: 0 <= i < |calls| ==>
           after.value[i] == calls[i].(decodedArgs := OrElse(args(before[i]), before[i].decodedArgs))
    ensures Decode(tx) == Ok(None) ==> CacheAfterParse(tx, cache, true, args) == None
  {
    if Decode(tx).Ok? && Decode(tx).value.Some? && cache.Some? {
      var calls := Decode(tx).value.value;
      DecodedCallsAreBare(tx);
      assert |Strip(cache.value)| == |Strip(calls)|;
      forall i | 0 <= i < |calls|
        ensures cache.value[i].(decodedArgs := None) == calls[i]
      {
        assert Strip(cache.value)[i] == Strip(calls)[i];
      }
    }
  }

  lemma {:induction false} NewCallsAreBare(c: Words, offset: nat, n: nat)
    ensures NewFrom(c, offset, n).Ok? ==>
      forall i :: 0 <= i < |NewFrom(c, offset, n).value| ==> NewFrom(c, offset, n).value[i].decodedArgs == None
    decreases n
  {
    if n > 0 && BigAt(c, offset + 2).Some? && offset + 3 + BigAt(c, offset + 2).value <= |c| {
      NewCallsAreBare(c, offset + 3 + BigAt(c, offset + 2).value, n - 1);
    }
  }

  /** Decoding alone fills in no arguments. */
  lemma DecodedCallsAreBare(tx: TxData)
    requires Decode(tx).Ok? && Decode(tx).value.Some?
    ensures forall i :: 0 <= i < |Decode(tx).value.value| ==> Decode(tx).value.value[i].decodedArgs == None
  {
    if BigAt(tx.calldata, 0).Some? {
      NewCallsAreBare(tx.calldata, 1, BigAt(tx.calldata, 0).value);
    }
  }

  // ---- transparency ----

  lemma StripIgnoresArgs(calls: Calls, args: ArgsOf)
    ensures Strip(FillArgs(calls, args)) == Strip(calls)
  {
  }

  lemma StrippedCallsPassAlike(keccak: Keccak, xs: Calls, ys: Calls, f: TxFilter, address: Option<Text>)
    requires Strip(xs) == Strip(ys)
    ensures |xs| == |ys| && CallsPass(keccak, xs, f, address) == CallsPass(keccak, ys, f, address)
  {
    assert |Strip(xs)| == |Strip(ys)|;
    forall i | 0 <= i < |xs|
      ensures HasFunction(keccak, xs[i], f.func) == HasFunction(keccak, ys[i], f.func)
      ensures HasTarget(xs[i], TargetOf(f, address)) == HasTarget(ys[i], TargetOf(f, address))
    {
      assert Strip(xs)[i] == Strip(ys)[i];
    }
  }

  lemma OneFilterIsTransparent(keccak: Keccak, tx: TxData, cache: Cache, filter: Option<TxFilter>,
                               address: Option<Text>)
    requires Faithful(tx, cache)
    ensures CachedVerdict(keccak, tx, cache, filter, address) == Verdict(keccak, tx, filter, address)
    ensures Faithful(tx, CacheAfterFilter(keccak, tx, cache, filter, address))
  {
    if cache.Some? && filter.Some? {
      StrippedCallsPassAlike(keccak, cache.value, Decode(tx).value.value, filter.value, address);
    }
  }

  lemma OneParseIsTransparent(tx: TxData, cache: Cache, assetsLoad: bool, args: ArgsOf)
    requires Faithful(tx, cache)
    ensures Faithful(tx, CacheAfterParse(tx, cache, assetsLoad, args))
  {
    if assetsLoad && CachedDecode(tx, cache).Ok? && CachedDecode(tx, cache).value.Some? {
      StripIgnoresArgs(CachedDecode(tx, cache).value.value, args);
    }
  }

  /** What may happen to one transaction while a block is indexed. */
  datatype Op =
    | Evaluate(filter: Option<TxFilter>, address: Option<Text>)
    | Parse(assetsLoad: bool, args: ArgsOf)

  function CacheAfter(keccak: Keccak, tx: TxData, cache: Cache, op: Op): Cache {
    match op
    case Evaluate(filter, address) => CacheAfterFilter(keccak, tx, cache, filter, address)
    case Parse(assetsLoad, args) => CacheAfterParse(tx, cache, assetsLoad, args)
  }

  function CacheAfterAll(keccak: Keccak, tx: TxData, cache: Cache, ops: seq<Op>): Cache {
    if ops == [] then cache
    else CacheAfter(keccak, tx, CacheAfterAll(keccak, tx, cache, ops[..|ops| - 1]), ops[|ops| - 1])
  }

  /**
   * After any operations on a fresh transaction, every filter answers, or fails to decode, as on a
   * fresh copy, and the remembered calls are the decoded ones.
   */
  lemma {:induction false} MemoIsTransparent(keccak: Keccak, tx: TxData, ops: seq<Op>, filter: Option<TxFilter>,
                                             address: Option<Text>)
    ensures var cache := CacheAfterAll(keccak, tx, None, ops);
      && Faithful(tx, cache)
      && CachedVerdict(keccak, tx, cache, filter, address) == Verdict(keccak, tx, filter, address)
    decreases |ops|
  {
    if ops != [] {
      var before := CacheAfterAll(keccak, tx, None, ops[..|ops| - 1]);
      MemoIsTransparent(keccak, tx, ops[..|ops| - 1], filter, address);
      match ops[|ops| - 1]
      case Evaluate(f, a) => OneFilterIsTransparent(keccak, tx, before, f, a);
      case Parse(ok, args) => OneParseIsTransparent(tx, before, ok, args);
    }
    OneFilterIsTransparent(keccak, tx, CacheAfterAll(keccak, tx, None, ops), filter, address);
  }

  // ---- the object ----

  /** A log without the arguments that parsing fills in. */
  function Bare(log: Log): Log { log.(args := None) }

  function BareLogs(logs: seq<Log>): seq<Log> {
    seq(|logs|, i requires 0 <= i < |logs| => Bare(logs[i]))
  }

  /** Parsing a log sets its arguments or, on failure, nothing. */
  function FillLogArgs(logs: seq<Log>, args: Log -> Option<string>): seq<Log> {
    seq(|logs|, i requires 0 <= i < |logs| =>
      if args(logs[i]).Some? then logs[i].(args := args(logs[i])) else logs[i])
  }

  /** Parsing leaves address, topics, data and numbering of every log alone. */
  lemma ParsingKeepsLogs(logs: seq<Log>, args: Log -> Option<string>)
    ensures BareLogs(FillLogArgs(logs, args)) == BareLogs(logs)
  {
  }

  class Transaction {
    const data: TxData
    var decodedCalls: Cache
    var logs: seq<Log>

    constructor (data: TxData, logs: seq<Log>)
      ensures this.data == data && decodedCalls == None && this.logs == logs && Valid()
    {
      this.data, this.logs, decodedCalls := data, logs, None;
    }

    ghost predicate Valid()
      reads this
    {
      Faithful(data, decodedCalls)
    }

    method ParseCallData() returns (r: Result<Cache, DecodeError>)
      ensures r == CachedDecode(data, decodedCalls)
      ensures decodedCalls.Some? ==> r == Ok(decodedCalls)
      // INVOKE transactions of every version but 0 and its query version carry a list of calls
      ensures decodedCalls.None? && data.txType.Invoke?
              && data.version != Some("0x0") && data.version != Some("0x100000000000000000000000000000000") ==>
        && (r.Ok? <==> InvokeReading(data.calldata).Ok?)
        && (r.Ok? ==> r.value == Some(InvokeReading(data.calldata).value))
      // all others are one call, of their contract at their entry point, or none
      ensures decodedCalls.None? && (!data.txType.Invoke? || data.version == Some("0x0")
                                     || data.version == Some("0x100000000000000000000000000000000")) ==>
        if Truthy(data.contractAddress) && Truthy(data.entryPointSelector) then
          r == Ok(Some([ContractCall(data.contractAddress, data.entryPointSelector, data.calldata, None)]))
        else
          r == Ok(None)
    {
      if decodedCalls.Some? {
        return Ok(decodedCalls);
      }
      if data.txType.Invoke? && !LegacyVersion(data.version) {
        var calls := DecodeInvokeCalldata(data.calldata);
        return if calls.Ok? then Ok(Some(calls.value)) else Err(calls.error);
      } else if Truthy(data.contractAddress) && Truthy(data.entryPointSelector) {
        return Ok(Some([DecodeGenericCalldata(data.contractAddress.value, data.entryPointSelector.value,
                                              data.calldata)]));
      }
      return Ok(None);
    }

    /** The tests made before the calldata is looked at. */
    method PassesHeader(keccak: Keccak, f: TxFilter, address: Option<Text>) returns (r: bool)
      ensures r == HeaderPasses(keccak, data, f, address)
    {
      if f.txType.Some? && f.txType.value != data.txType {
        return false;
      }
      if Truthy(data.contractAddress) {
        if Truthy(address) && !HexEq(address, data.contractAddress) {
          return false;
        }
        if TruthyField(f.to) && !HexEq(Some(f.to.text), data.contractAddress) {
          return false;
        }
      }
      if Truthy(data.entryPointSelector) && TruthyField(f.func) {
        if !HexEq(data.entryPointSelector, Some(f.func.text))
           || !HexEq(data.entryPointSelector, Some(SelectorHex(keccak, f.func.text)))
        {
          return false;
        }
      }
      if Truthy(data.from) && Truthy(f.from) && !HexEq(data.from, f.from) {
        return false;
      }
      return true;
    }

    method FilterTransactionsProcessor(keccak: Keccak, filter: Option<TxFilter>, address: Option<Text>)
      returns (r: Result<bool, DecodeError>)
      requires Valid()
      modifies this`decodedCalls
      ensures Valid()
      ensures r == Verdict(keccak, data, filter, address)
      ensures decodedCalls == CacheAfterFilter(keccak, data, old(decodedCalls), filter, address)
    {
      OneFilterIsTransparent(keccak, data, decodedCalls, filter, address);
      if filter.None? {
        return Ok(true);
      }
      var f := filter.value;
      var passes := PassesHeader(keccak, f, address);
      if !passes {
        return Ok(false);
      }

      var parsed := ParseCallData();
      if parsed.Err? {
        return Err(parsed.error);
      }
      var calls := parsed.value;
      if calls.Some? && calls.value != [] {
        if !f.func.Undefined? {
          if !AnyHasFunction(keccak, calls.value, f.func) {
            return Ok(false);
          }
          decodedCalls := calls;
        }
        if !f.to.Undefined? || Truthy(address) {
          if !AnyHasTarget(calls.value, TargetOf(f, address)) {
            return Ok(false);
          }
          decodedCalls := calls;
        }
      } else {
        return Ok(RawWordsPass(keccak, data.calldata, f));
      }
      return Ok(true);
    }

    /** Fills in arguments; the logs are replaced by their parsed selves, in the same order. */
    method ParseTransaction(assetsLoad: bool, args: ArgsOf, logArgs: Log -> Option<string>)
      requires Valid()
      modifies this
      ensures Valid()
      ensures decodedCalls == CacheAfterParse(data, old(decodedCalls), assetsLoad, args)
      ensures logs == if assetsLoad && CachedDecode(data, old(decodedCalls)).Ok?
                      then FillLogArgs(old(logs), logArgs) else old(logs)
      ensures BareLogs(logs) == BareLogs(old(logs))
      // the decoded calls, each with the arguments parsed from it, if any
      ensures assetsLoad && Decode(data).Ok? && Decode(data).value.Some? ==>
        && var calls := Decode(data).value.value;
        && var before := if old(decodedCalls).Some? then old(decodedCalls).value else calls;
        && |before| == |calls|
        && decodedCalls.Some? && |decodedCalls.value| == |calls|
        && forall i :: 0 <= i < |calls| ==>
             decodedCalls.value[i] == calls[i].(decodedArgs := OrElse(args(before[i]), before[i].decodedArgs))
      ensures assetsLoad && Decode(data) == Ok(None) ==> decodedCalls == None
      ensures !assetsLoad || Decode(data).Err? ==> decodedCalls == old(decodedCalls) && logs == old(logs)
      ensures assetsLoad && Decode(data).Ok? ==>
        && |logs| == |old(logs)|
        && forall i :: 0 <= i < |logs| ==>
             logs[i] == old(logs)[i].(args := OrElse(logArgs(old(logs)[i]), old(logs)[i].args))
    {
      FilledCalls(data, decodedCalls, args);
      OneParseIsTransparent(data, decodedCalls, assetsLoad, args);
      if !assetsLoad {
        return;
      }
      if decodedCalls.None? {
        var parsed := ParseCallData();
        if parsed.Err? {
          return;
        }
        decodedCalls := parsed.value;
      }
      if decodedCalls.Some? {
        decodedCalls := Some(FillArgs(decodedCalls.value, args));
      }
      ParsingKeepsLogs(logs, logArgs);
      logs := FillLogArgs(logs, logArgs);
    }
  }
}
