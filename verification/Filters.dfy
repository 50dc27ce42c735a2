/** The precise filters that decide which transactions and logs reach a handler. */
module Filters {
  import opened Wrappers
  import opened Texts
  import opened Calldata

  datatype TxType = Invoke | L1Handler | Declare | Deploy | DeployAccount

  /** The part of a formatted transaction that never changes. */
  datatype TxData = TxData(
    txType: TxType, version: Option<string>, from: Option<Text>,
    contractAddress: Option<Text>, entryPointSelector: Option<Text>, calldata: Words)

  datatype TxFilter = TxFilter(from: Option<Text>, to: Field, func: Field, txType: Option<TxType>)

  /** One event of a transaction, numbered as in the block; `args` are filled in by parsing. */
  datatype Log = Log(
    address: Text, topics: seq<Text>, data: seq<Text>,
    transactionIndex: nat, logIndex: nat, args: Option<string>)

  /** None in `topics` is null or undefined. */
  datatype LogFilter = LogFilter(topics: Option<seq<Option<Text>>>)

  // ---- transactions ----

  predicate TruthyField(f: Field) { f.Given? && !f.text.Blank? }

  /** INVOKE V0 has its own calldata convention. */
  predicate LegacyVersion(version: Option<string>) {
    version == Some("0x0") || version == Some("0x100000000000000000000000000000000")
  }

  /** What `parseCallData` computes when nothing is cached; None is undefined. */
  function Decode(tx: TxData): Result<Option<seq<ContractCall>>, DecodeError> {
    if tx.txType.Invoke? && !LegacyVersion(tx.version) then
      var r := InvokeReading(tx.calldata);
      if r.Ok? then Ok(Some(r.value)) else Err(r.error)
    else if Truthy(tx.contractAddress) && Truthy(tx.entryPointSelector) then
      Ok(Some([DecodeGenericCalldata(tx.contractAddress.value, tx.entryPointSelector.value, tx.calldata)]))
    else
      Ok(None)
  }

  /** The checks that come before any decoding. */
  predicate HeaderPasses(keccak: Keccak, tx: TxData, f: TxFilter, address: Option<Text>) {
    && (f.txType.Some? ==> f.txType.value == tx.txType)
    && (Truthy(tx.contractAddress) ==>
          && (Truthy(address) ==> HexEq(address, tx.contractAddress))
          && (TruthyField(f.to) ==> HexEq(Some(f.to.text), tx.contractAddress)))
    && (Truthy(tx.entryPointSelector) && TruthyField(f.func) ==>
          && HexEq(tx.entryPointSelector, Some(f.func.text))
          && HexEq(tx.entryPointSelector, Some(SelectorHex(keccak, f.func.text))))
    && (Truthy(tx.from) && Truthy(f.from) ==> HexEq(tx.from, f.from))
  }

  predicate HasFunction(keccak: Keccak, call: ContractCall, func: Field) {
    match func
    case Undefined => true
    case Null => call.selector == None
    case Given(t) => HexEq(call.selector, Some(t)) || HexEq(call.selector, Some(SelectorHex(keccak, t)))
  }

  predicate HasTarget(call: ContractCall, target: Field) {
    match target
    case Undefined => true
    case Null => call.to == None
    case Given(t) => !t.Blank? && HexEq(call.to, Some(t))
  }

  /** `filter.to` where it is set, even to null; otherwise the datasource address. */
  function TargetOf(f: TxFilter, address: Option<Text>): Field {
    if !f.to.Undefined? then f.to
    else if Truthy(address) then Given(address.value)
    else Undefined
  }

  predicate AnyHasFunction(keccak: Keccak, calls: seq<ContractCall>, func: Field) {
    exists i :: 0 <= i < |calls| && HasFunction(keccak, calls[i], func)
  }

  predicate AnyHasTarget(calls: seq<ContractCall>, target: Field) {
    exists i :: 0 <= i < |calls| && HasTarget(calls[i], target)
  }

  /** The function and the target may be found in different calls. */
  predicate CallsPass(keccak: Keccak, calls: seq<ContractCall>, f: TxFilter, address: Option<Text>) {
    && (!f.func.Undefined? ==> AnyHasFunction(keccak, calls, f.func))
    && (!TargetOf(f, address).Undefined? ==> AnyHasTarget(calls, TargetOf(f, address)))
  }

  /** Without decoded calls the raw words are searched; selectors are then compared as texts. */
  predicate RawFunctionFound(keccak: Keccak, words: Words, func: Field) {
    match func
    case Undefined => true
    case Null => None in words
    case Given(t) => Some(t) in words || Some(SelectorHex(keccak, t)) in words
  }

  /** Targets are compared as felts there too. */
  predicate RawTargetFound(words: Words, to: Field) {
    match to
    case Undefined => true
    case Null => None in words
    case Given(t) => exists i :: 0 <= i < |words| && HexEq(words[i], Some(t))
  }

  predicate RawWordsPass(keccak: Keccak, words: Words, f: TxFilter) {
    RawFunctionFound(keccak, words, f.func) && RawTargetFound(words, f.to)
  }

  predicate BodyPasses(keccak: Keccak, tx: TxData, calls: Option<seq<ContractCall>>, f: TxFilter,
                       address: Option<Text>)
  {
    if calls.Some? && calls.value != [] then CallsPass(keccak, calls.value, f, address)
    else RawWordsPass(keccak, tx.calldata, f)
  }

  /** The filter's answer on a transaction with nothing cached; decoding may throw. */
  function Verdict(keccak: Keccak, tx: TxData, filter: Option<TxFilter>, address: Option<Text>)
    : Result<bool, DecodeError>
  {
    if filter.None? then Ok(true)
    else if !HeaderPasses(keccak, tx, filter.value, address) then Ok(false)
    else
      var calls := Decode(tx);
      if calls.Err? then Err(calls.error)
      else Ok(BodyPasses(keccak, tx, calls.value, filter.value, address))
  }

  predicate Accepts(keccak: Keccak, tx: TxData, f: TxFilter, address: Option<Text>) {
    Verdict(keccak, tx, Some(f), address) == Ok(true)
  }

  /** Decoding fails or finds at least one call. */
  predicate DecodesToCalls(tx: TxData) {
    Decode(tx).Ok? ==> Decode(tx).value.Some? && Decode(tx).value.value != []
  }

  // ---- logs ----

  /** A topic of the filter against a key of the log: as felts, or either one hashed. */
  predicate TopicMatches(keccak: Keccak, topic: Option<Text>, key: Text) {
    || HexEq(topic, Some(key))
    || HexEq(topic, Some(EventKey(keccak, Some(key))))
    || HexEq(Some(key), Some(EventKey(keccak, topic)))
  }

  predicate CommonTopic(keccak: Keccak, topics: seq<Option<Text>>, keys: seq<Text>) {
    exists i, j :: 0 <= i < |topics| && 0 <= j < |keys| && TopicMatches(keccak, topics[i], keys[j])
  }

  method TopicsHaveNoCommonElements(keccak: Keccak, topics: seq<Option<Text>>, keys: seq<Text>)
    returns (none: bool)
    ensures none <==> !CommonTopic(keccak, topics, keys)
  {
    for i := 0 to |topics|
      invariant !CommonTopic(keccak, topics[..i], keys)
    {
      for j := 0 to |keys|
        invariant !CommonTopic(keccak, topics[..i], keys)
        invariant forall m :: 0 <= m < j ==> !TopicMatches(keccak, topics[i], keys[m])
      {
        if TopicMatches(keccak, topics[i], keys[j]) {
          return false;
        }
      }
      assert topics[..i + 1] == topics[..i] + [topics[i]];
    }
    assert topics[..|topics|] == topics;
    return true;
  }

  /** A log passes unless its address differs or both sides have topics and share none. */
  predicate LogAccepted(keccak: Keccak, log: Log, filter: Option<LogFilter>, address: Option<Text>) {
    && (Truthy(address) ==> HexEq(address, Some(log.address)))
    && (filter.Some? && filter.value.topics.Some? && filter.value.topics.value != [] && log.topics != [] ==>
          CommonTopic(keccak, filter.value.topics.value, log.topics))
  }

  method FilterLogsProcessor(keccak: Keccak, log: Log, filter: Option<LogFilter>, address: Option<Text>)
    returns (r: bool)
    ensures r <==> LogAccepted(keccak, log, filter, address)
  {
    if Truthy(address) && !HexEq(address, Some(log.address)) {
      return false;
    }
    if filter.None? {
      return true;
    }
    if filter.value.topics.Some? && filter.value.topics.value != [] && log.topics != [] {
      var none := TopicsHaveNoCommonElements(keccak, filter.value.topics.value, log.topics);
      if none {
        return false;
      }
    }
    return true;
  }
}
