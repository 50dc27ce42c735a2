/** What the filters match, said on numbers, and that the order of what is searched never matters. */
module MatchLaws {
  import opened Wrappers
  import opened Texts
  import opened Calldata
  import opened Filters
  import opened FilterLaws

  // ---- single matches, on numbers ----

  /** The numbers a call's selector may be for a function filter: of the text itself or of its hash. */
  function SelectorFelts(keccak: Keccak, t: Text): set<nat> {
    match t
    case Hex(v, _, _) => {v}
    case Decimal(v, _) => {v}
    case Name(_) => {keccak(Some(t))}
    case Blank => {0, keccak(Some(t))}
    case Bare0x => {}
  }

  lemma FunctionByFelt(keccak: Keccak, call: ContractCall, t: Text)
    ensures HasFunction(keccak, call, Given(t))
      <==> exists v: nat :: Spells(call.selector, v) && v in SelectorFelts(keccak, t) && v < ADDRESS_BOUND
  {
    HexEqIff(call.selector, Some(t));
    HexEqIff(call.selector, Some(SelectorHex(keccak, t)));
  }

  /** The empty target matches nothing, though the empty text elsewhere reads as 0. */
  lemma TargetByFelt(call: ContractCall, t: Text)
    ensures HasTarget(call, Given(t))
      <==> t != Blank && exists v: nat :: Spells(call.to, v) && Spells(Some(t), v) && v < ADDRESS_BOUND
  {
    HexEqIff(call.to, Some(t));
  }

  /** A topic meets a key that is its number, that it is the hash of, or that is its hash. */
  lemma TopicByFelt(keccak: Keccak, topic: Option<Text>, key: Text)
    ensures TopicMatches(keccak, topic, key)
      <==> exists v: nat ::
             && v < ADDRESS_BOUND
             && ((Spells(topic, v) && (Spells(Some(key), v) || v == keccak(Some(key))))
                 || (Spells(Some(key), v) && v == keccak(topic)))
  {
    HexEqIff(topic, Some(key));
    HexEqIff(topic, Some(EventKey(keccak, Some(key))));
    HexEqIff(Some(key), Some(EventKey(keccak, topic)));
  }

  // ---- a filter is the conjunction of its fields ----

  /** Every field decides for itself; the datasource address goes with `to`. */
  lemma AcceptsFieldByField(keccak: Keccak, tx: TxData, f: TxFilter, address: Option<Text>)
    ensures Accepts(keccak, tx, f, address)
      <==> && Accepts(keccak, tx, ANY.(txType := f.txType), None)
           && Accepts(keccak, tx, ANY.(from := f.from), None)
           && Accepts(keccak, tx, ANY.(func := f.func), None)
           && Accepts(keccak, tx, ANY.(to := f.to), address)
  {
  }

  /** A filter without fields accepts whatever decodes; type and sender need no calls. */
  lemma TypeAndSenderAlone(keccak: Keccak, tx: TxData, txType: Option<TxType>, from: Option<Text>)
    ensures Accepts(keccak, tx, ANY.(txType := txType), None)
      <==> Decode(tx).Ok? && (txType == None || txType == Some(tx.txType))
    ensures Accepts(keccak, tx, ANY.(from := from), None)
      <==> && Decode(tx).Ok?
           && (Truthy(tx.from) && Truthy(from) ==>
                 exists v: nat :: Spells(tx.from, v) && Spells(from, v) && v < ADDRESS_BOUND)
  {
    HexEqIff(tx.from, from);
  }

  /** An entry point must be the function's number, so that names and 0x fail; the empty one is not looked at. */
  lemma EntryPointByFelt(keccak: Keccak, tx: TxData, t: Text)
    requires Truthy(tx.entryPointSelector) && t != Blank
    ensures HeaderPasses(keccak, tx, ANY.(func := Given(t)), None)
      <==> exists v: nat :: Spells(tx.entryPointSelector, v) && Spells(Some(t), v) && v < ADDRESS_BOUND
  {
    HexEqIff(tx.entryPointSelector, Some(t));
    HexEqIff(tx.entryPointSelector, Some(SelectorHex(keccak, t)));
  }

  /** Among decoded calls, wherever they stand, one must have the function. */
  lemma FunctionAlone(keccak: Keccak, tx: TxData, func: Field, calls: seq<ContractCall>)
    requires Decode(tx) == Ok(Some(calls)) && calls != [] && !func.Undefined?
    ensures Accepts(keccak, tx, ANY.(func := func), None)
      <==> && HeaderPasses(keccak, tx, ANY.(func := func), None)
           && exists call :: call in calls && HasFunction(keccak, call, func)
  {
    if i :| 0 <= i < |calls| && HasFunction(keccak, calls[i], func) {
      assert calls[i] in calls;
    }
  }

  /** Among decoded calls one must have the target: `to` where it is set, otherwise the address. */
  lemma TargetAlone(keccak: Keccak, tx: TxData, to: Field, address: Option<Text>, calls: seq<ContractCall>)
    requires Decode(tx) == Ok(Some(calls)) && calls != [] && (!to.Undefined? || Truthy(address))
    ensures Accepts(keccak, tx, ANY.(to := to), address)
      <==> && (Truthy(tx.contractAddress) && Truthy(address) ==> HexEq(address, tx.contractAddress))
           && (Truthy(tx.contractAddress) && TruthyField(to) ==> HexEq(Some(to.text), tx.contractAddress))
           && exists call :: call in calls && HasTarget(call, if to.Undefined? then Given(address.value) else to)
  {
    var target := if to.Undefined? then Given(address.value) else to;
    if i :| 0 <= i < |calls| && HasTarget(calls[i], target) {
      assert calls[i] in calls;
    }
  }

  /** Without calls the raw words decide: the function by its text or its selector's, the target by number. */
  lemma RawWordsAlone(keccak: Keccak, tx: TxData, t: Text)
    requires Decode(tx) == Ok(None) || Decode(tx) == Ok(Some([]))
    ensures Accepts(keccak, tx, ANY.(func := Given(t)), None)
      <==> HeaderPasses(keccak, tx, ANY.(func := Given(t)), None)
           && (Some(t) in tx.calldata || Some(SelectorHex(keccak, t)) in tx.calldata)
    ensures Accepts(keccak, tx, ANY.(to := Given(t)), None)
      <==> HeaderPasses(keccak, tx, ANY.(to := Given(t)), None)
           && exists w, v: nat :: w in tx.calldata && Spells(w, v) && Spells(Some(t), v) && v < ADDRESS_BOUND
    ensures Accepts(keccak, tx, ANY.(func := Null), None) <==> None in tx.calldata
    ensures Accepts(keccak, tx, ANY.(to := Null), None) <==> None in tx.calldata
  {
    RawTargetAmong(tx.calldata, Given(t));
    forall w
      ensures HexEq(w, Some(t)) <==> exists v: nat :: Spells(w, v) && Spells(Some(t), v) && v < ADDRESS_BOUND
    {
      HexEqIff(w, Some(t));
    }
  }

  /** A filter throws exactly when it gets to decoding and that throws; without a filter nothing is decoded. */
  lemma ThrowsIff(keccak: Keccak, tx: TxData, filter: Option<TxFilter>, address: Option<Text>)
    ensures Verdict(keccak, tx, filter, address).Err?
      <==> filter.Some? && Decode(tx).Err? && HeaderPasses(keccak, tx, filter.value, address)
    ensures Verdict(keccak, tx, filter, address).Err? ==>
      Verdict(keccak, tx, filter, address).error == Decode(tx).error
    ensures filter.None? ==> Verdict(keccak, tx, filter, address) == Ok(true)
  {
  }

  // ---- order ----

  lemma SameElements<T>(xs: seq<T>, ys: seq<T>)
    requires multiset(xs) == multiset(ys)
    ensures |xs| == |ys| && forall x :: x in xs <==> x in ys
  {
    assert |multiset(xs)| == |multiset(ys)|;
    forall x
      ensures x in xs <==> x in ys
    {
      assert x in xs <==> x in multiset(xs);
      assert x in ys <==> x in multiset(ys);
    }
  }

  /** The order of the calls is irrelevant: function and target are looked for in all of them. */
  lemma CallsPassInAnyOrder(keccak: Keccak, xs: seq<ContractCall>, ys: seq<ContractCall>, f: TxFilter,
                            address: Option<Text>)
    requires multiset(xs) == multiset(ys)
    ensures CallsPass(keccak, xs, f, address) == CallsPass(keccak, ys, f, address)
  {
    SameElements(xs, ys);
    FoundAmong(keccak, xs, f.func, TargetOf(f, address));
    FoundAmong(keccak, ys, f.func, TargetOf(f, address));
  }

  lemma FoundAmong(keccak: Keccak, calls: seq<ContractCall>, func: Field, target: Field)
    ensures AnyHasFunction(keccak, calls, func) <==> exists call :: call in calls && HasFunction(keccak, call, func)
    ensures AnyHasTarget(calls, target) <==> exists call :: call in calls && HasTarget(call, target)
  {
    if call :| call in calls && HasFunction(keccak, call, func) {
      var i :| 0 <= i < |calls| && calls[i] == call;
      assert HasFunction(keccak, calls[i], func);
    }
    if call :| call in calls && HasTarget(call, target) {
      var i :| 0 <= i < |calls| && calls[i] == call;
      assert HasTarget(calls[i], target);
    }
  }

  /** A filter that asks for only one of function and target passes calls one of which alone would pass. */
  lemma OneCallDecides(keccak: Keccak, calls: seq<ContractCall>, f: TxFilter, address: Option<Text>)
    requires calls != [] && (f.func.Undefined? || TargetOf(f, address).Undefined?)
    ensures CallsPass(keccak, calls, f, address)
      <==> exists i :: 0 <= i < |calls| && CallsPass(keccak, [calls[i]], f, address)
  {
    forall i | 0 <= i < |calls|
      ensures CallsPass(keccak, [calls[i]], f, address)
        <==> (f.func.Undefined? || HasFunction(keccak, calls[i], f.func))
             && (TargetOf(f, address).Undefined? || HasTarget(calls[i], TargetOf(f, address)))
    {
      assert [calls[i]][0] == calls[i];
    }
    assert calls[0] == calls[0];
  }

  /** Raw words are searched in any order too. */
  lemma RawWordsPassInAnyOrder(keccak: Keccak, xs: Words, ys: Words, f: TxFilter)
    requires multiset(xs) == multiset(ys)
    ensures RawWordsPass(keccak, xs, f) == RawWordsPass(keccak, ys, f)
  {
    SameElements(xs, ys);
    RawTargetAmong(xs, f.to);
    RawTargetAmong(ys, f.to);
  }

  lemma RawTargetAmong(words: Words, to: Field)
    ensures to.Given? ==> (RawTargetFound(words, to) <==> exists w :: w in words && HexEq(w, Some(to.text)))
  {
    if to.Given? {
      if w :| w in words && HexEq(w, Some(to.text)) {
        var i :| 0 <= i < |words| && words[i] == w;
        assert HexEq(words[i], Some(to.text));
      }
    }
  }

  /** The verdict on a transaction depends on the decoded calls as a multiset only. */
  lemma VerdictIgnoresCallOrder(keccak: Keccak, tx: TxData, words: Words, f: TxFilter, address: Option<Text>)
    requires Decode(tx).Ok? && Decode(tx).value.Some? && Decode(tx).value.value != []
    requires Decode(tx.(calldata := words)).Ok? && Decode(tx.(calldata := words)).value.Some?
    requires multiset(Decode(tx).value.value) == multiset(Decode(tx.(calldata := words)).value.value)
    ensures Verdict(keccak, tx, Some(f), address) == Verdict(keccak, tx.(calldata := words), Some(f), address)
  {
    var xs, ys := Decode(tx).value.value, Decode(tx.(calldata := words)).value.value;
    SameElements(xs, ys);
    CallsPassInAnyOrder(keccak, xs, ys, f, address);
  }

  /** A log with keys passes a topic filter exactly when one of its keys alone passes one of the topics alone. */
  lemma OneTopicDecides(keccak: Keccak, log: Log, topics: seq<Option<Text>>, address: Option<Text>)
    requires log.topics != [] && topics != []
    ensures LogAccepted(keccak, log, Some(LogFilter(Some(topics))), address)
      <==> exists topic, key :: topic in topics && key in log.topics
             && LogAccepted(keccak, log.(topics := [key]), Some(LogFilter(Some([topic]))), address)
  {
    forall topic, key
      ensures CommonTopic(keccak, [topic], [key]) <==> TopicMatches(keccak, topic, key)
    {
      assert [topic][0] == topic && [key][0] == key;
    }
    if CommonTopic(keccak, topics, log.topics) {
      var i, j :| 0 <= i < |topics| && 0 <= j < |log.topics| && TopicMatches(keccak, topics[i], log.topics[j]);
      assert topics[i] in topics && log.topics[j] in log.topics;
    }
    if topic, key :| topic in topics && key in log.topics && TopicMatches(keccak, topic, key) {
      var i :| 0 <= i < |topics| && topics[i] == topic;
      var j :| 0 <= j < |log.topics| && log.topics[j] == key;
      assert TopicMatches(keccak, topics[i], log.topics[j]);
    }
  }

  /** Hence neither the order of the topics nor that of the keys matters. */
  lemma LogAcceptedInAnyOrder(keccak: Keccak, log: Log, keys: seq<Text>, topics: seq<Option<Text>>,
                              others: seq<Option<Text>>, address: Option<Text>)
    requires multiset(keys) == multiset(log.topics) && multiset(topics) == multiset(others)
    ensures LogAccepted(keccak, log, Some(LogFilter(Some(topics))), address)
      == LogAccepted(keccak, log.(topics := keys), Some(LogFilter(Some(others))), address)
  {
    SameElements(keys, log.topics);
    SameElements(topics, others);
    if keys != [] && topics != [] {
      OneTopicDecides(keccak, log, topics, address);
      OneTopicDecides(keccak, log.(topics := keys), others, address);
      assert forall key :: log.(topics := keys).(topics := [key]) == log.(topics := [key]);
    }
  }
}
