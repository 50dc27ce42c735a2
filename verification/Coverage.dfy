/** Nothing a handler accepts is missed by the compiled queries: when, and exactly when. */
module Coverage {
  import opened Wrappers
  import opened Texts
  import opened Calldata
  import opened CalldataLaws
  import opened Filters
  import opened Queries
  import opened DataSources
  import opened Dictionary
  import opened DictionaryLaws

  // ---- a group against its members ----

  /** The entry of a one-element group asks for that address if it is there and any is allowed. */
  lemma SingletonInForce(a: Option<Text>, limit: int)
    ensures Distinct([a]) && Elements([a]) == {a}
    ensures InForce({a}, limit) <==> limit >= 1 && Truthy(a)
  {
    assert a in {a};
  }

  ghost predicate EventMember(keccak: Keccak, filter: Option<LogFilter>, addresses: seq<Option<Text>>, limit: int,
                              row: Row)
  {
    exists i :: 0 <= i < |addresses| && Denotes(EventEntry(keccak, filter, [addresses[i]], limit), row)
  }

  lemma EventAlone(keccak: Keccak, filter: Option<LogFilter>, a: Option<Text>, limit: int, row: Row)
    ensures Denotes(EventEntry(keccak, filter, [a], limit), row)
      <==> EventMeaning(keccak, filter, {}, limit, row)
           && (limit >= 1 && Truthy(a) ==> HexEq(Some(row.address), a))
  {
    SingletonInForce(a, limit);
    EventEntryMeaning(keccak, filter, [a], limit, row);
    if row.LogRow? {
      assert OneOf(Some(row.address), {a}) <==> HexEq(Some(row.address), a) by {
        assert a in {a};
      }
    }
  }

  lemma EventTogether(keccak: Keccak, filter: Option<LogFilter>, addresses: seq<Option<Text>>, limit: int, row: Row)
    requires Distinct(addresses) && addresses != []
    ensures Denotes(EventEntry(keccak, filter, addresses, limit), row)
      <==> EventMeaning(keccak, filter, {}, limit, row)
           && (|addresses| <= limit && (forall i :: 0 <= i < |addresses| ==> Truthy(addresses[i]))
               ==> exists i :: 0 <= i < |addresses| && HexEq(Some(row.address), addresses[i]))
  {
    EventEntryMeaning(keccak, filter, addresses, limit, row);
    InForceOfList(addresses, limit);
    if row.LogRow? {
      assert OneOf(Some(row.address), Elements(addresses))
        <==> exists i :: 0 <= i < |addresses| && HexEq(Some(row.address), addresses[i]) by {
        if i :| 0 <= i < |addresses| && HexEq(Some(row.address), addresses[i]) {
          assert addresses[i] in Elements(addresses);
        }
      }
    }
  }

  predicate AllTruthy(addresses: seq<Option<Text>>) {
    forall i :: 0 <= i < |addresses| ==> Truthy(addresses[i])
  }

  /** Grouped event handlers select the union of what they select alone, or more when over the limit. */
  lemma EventGroupIsUnion(keccak: Keccak, filter: Option<LogFilter>, addresses: seq<Option<Text>>, limit: int, row: Row)
    requires Distinct(addresses) && addresses != []
    ensures EventMember(keccak, filter, addresses, limit, row)
      ==> Denotes(EventEntry(keccak, filter, addresses, limit), row)
    ensures |addresses| <= limit || limit < 1 || !AllTruthy(addresses) ==>
      (Denotes(EventEntry(keccak, filter, addresses, limit), row)
       ==> EventMember(keccak, filter, addresses, limit, row))
  {
    EventTogether(keccak, filter, addresses, limit, row);
    forall i | 0 <= i < |addresses|
      ensures Denotes(EventEntry(keccak, filter, [addresses[i]], limit), row)
        <==> EventMeaning(keccak, filter, {}, limit, row)
             && (limit >= 1 && Truthy(addresses[i]) ==> HexEq(Some(row.address), addresses[i]))
    {
      EventAlone(keccak, filter, addresses[i], limit, row);
    }
    assert addresses[0] == addresses[0];
  }

  /** The felt a topic is looked up by. */
  function TopicFelt(keccak: Keccak, t: Text): Option<nat> { FeltOf(Some(SelectorHex(keccak, t))) }

  /** Some topic of the filter can be the felt of no key. */
  ghost predicate UnreadableTopic(keccak: Keccak, filter: Option<LogFilter>) {
    HasTopics(filter) && exists t :: Some(t) in filter.value.topics.value && TopicFelt(keccak, t).None?
  }

  /** A row at no address that has every topic of the filter. */
  function RowWithTopics(keccak: Keccak, filter: Option<LogFilter>): Row {
    var topics := if HasTopics(filter) then filter.value.topics.value else [];
    LogRow(Bare0x, seq(|topics|, i requires 0 <= i < |topics| =>
                         if topics[i].Some? then SelectorHex(keccak, topics[i].value) else Blank))
  }

  lemma RowHasTopics(keccak: Keccak, filter: Option<LogFilter>, limit: int)
    requires !UnreadableTopic(keccak, filter)
    ensures EventMeaning(keccak, filter, {}, limit, RowWithTopics(keccak, filter))
  {
    if HasTopics(filter) {
      var topics, keys := filter.value.topics.value, RowWithTopics(keccak, filter).topics;
      forall t | Some(t) in topics
        ensures HasKey(keys, SelectorHex(keccak, t))
      {
        var i :| 0 <= i < |topics| && topics[i] == Some(t);
        assert TopicFelt(keccak, t).Some?;
        assert HexEq(Some(keys[i]), Some(SelectorHex(keccak, t)));
      }
    }
  }

  /** Grouping event handlers adds a row exactly when the limit drops addresses that all are there. */
  lemma EventGroupIsUnionIff(keccak: Keccak, filter: Option<LogFilter>, addresses: seq<Option<Text>>, limit: int)
    requires Distinct(addresses) && addresses != []
    ensures (forall row: Row :: Denotes(EventEntry(keccak, filter, addresses, limit), row)
               <==> EventMember(keccak, filter, addresses, limit, row))
      <==> |addresses| <= limit || limit < 1 || !AllTruthy(addresses) || UnreadableTopic(keccak, filter)
  {
    forall row: Row
      ensures EventMember(keccak, filter, addresses, limit, row)
        ==> Denotes(EventEntry(keccak, filter, addresses, limit), row)
      ensures |addresses| <= limit || limit < 1 || !AllTruthy(addresses) || UnreadableTopic(keccak, filter) ==>
        (Denotes(EventEntry(keccak, filter, addresses, limit), row)
         ==> EventMember(keccak, filter, addresses, limit, row))
    {
      EventGroupIsUnion(keccak, filter, addresses, limit, row);
      EventTogether(keccak, filter, addresses, limit, row);
    }
    if !(|addresses| <= limit || limit < 1 || !AllTruthy(addresses) || UnreadableTopic(keccak, filter)) {
      var row := RowWithTopics(keccak, filter);
      RowHasTopics(keccak, filter, limit);
      EventTogether(keccak, filter, addresses, limit, row);
      forall i | 0 <= i < |addresses|
        ensures !Denotes(EventEntry(keccak, filter, [addresses[i]], limit), row)
      {
        EventAlone(keccak, filter, addresses[i], limit, row);
      }
      assert !EventMember(keccak, filter, addresses, limit, row);
    }
  }

  ghost predicate CallMember(keccak: Keccak, filter: Option<TxFilter>, addresses: seq<Option<Text>>, limit: int,
                             row: Row)
  {
    exists i :: 0 <= i < |addresses| && Denotes(CallEntry(keccak, filter, [addresses[i]], limit), row)
  }

  /** A handler without a filter asks for nothing. */
  function Wanted(filter: Option<TxFilter>): TxFilter {
    match filter
    case None => TxFilter(None, Undefined, Undefined, None)
    case Some(f) => f
  }

  lemma CallAlone(keccak: Keccak, filter: Option<TxFilter>, a: Option<Text>, limit: int, row: Row)
    ensures Denotes(CallEntry(keccak, filter, [a], limit), row)
      <==> row.CallRow? && RestMeaning(keccak, Wanted(filter), row)
           && (if limit >= 1 && Truthy(a) then HexEq(row.to, a) else FieldMatches(row.to, Wanted(filter).to))
  {
    SingletonInForce(a, limit);
    CallEntryMeaning(keccak, filter, [a], limit, row);
    if row.CallRow? {
      assert OneOf(row.to, {a}) <==> HexEq(row.to, a) by {
        assert a in {a};
      }
    }
  }

  lemma CallTogether(keccak: Keccak, filter: Option<TxFilter>, addresses: seq<Option<Text>>, limit: int, row: Row)
    requires Distinct(addresses) && addresses != []
    ensures Denotes(CallEntry(keccak, filter, addresses, limit), row)
      <==> row.CallRow? && RestMeaning(keccak, Wanted(filter), row)
           && (if |addresses| <= limit && AllTruthy(addresses)
               then exists i :: 0 <= i < |addresses| && HexEq(row.to, addresses[i])
               else FieldMatches(row.to, Wanted(filter).to))
  {
    CallEntryMeaning(keccak, filter, addresses, limit, row);
    InForceOfList(addresses, limit);
    if row.CallRow? {
      assert OneOf(row.to, Elements(addresses))
        <==> exists i :: 0 <= i < |addresses| && HexEq(row.to, addresses[i]) by {
        if i :| 0 <= i < |addresses| && HexEq(row.to, addresses[i]) {
          assert addresses[i] in Elements(addresses);
        }
      }
    }
  }

  /** The sender and the function the filter asks for can be met at all. */
  predicate RestReadable(keccak: Keccak, f: TxFilter) {
    && (Truthy(f.from) ==> FeltOf(f.from).Some?)
    && (TruthyField(f.func) && f.func != Given(Bare0x) ==> FeltOf(Some(SelectorHex(keccak, f.func.text))).Some?)
  }

  lemma UnreadableRest(keccak: Keccak, f: TxFilter, row: Row)
    requires row.CallRow? && !RestReadable(keccak, f)
    ensures !RestMeaning(keccak, f, row)
  {
  }

  /** A row that meets everything the filter says about sender, function and type. */
  function RowFor(keccak: Keccak, f: TxFilter, to: Option<Text>): Row {
    CallRow(if Truthy(f.from) then f.from else Some(Hex(1, 0, 0)), to,
            if TruthyField(f.func) && f.func != Given(Bare0x) then Some(SelectorHex(keccak, f.func.text)) else None,
            if f.txType.Some? then f.txType.value else Invoke)
  }

  /** Asking for the target alone finds no call, or only calls to one of the addresses. */
  predicate TargetWithin(to: Field, addresses: seq<Option<Text>>) {
    && TruthyField(to)
    && (FeltOf(Some(to.text)).None? || exists i :: 0 <= i < |addresses| && HexEq(Some(to.text), addresses[i]))
  }

  /**
   * Grouping adds no row to those of the members when the addresses stay in force or some member
   * has none, or when falling back on `filter.to` leads to an address of the group.
   */
  predicate GroupIsNarrow(keccak: Keccak, filter: Option<TxFilter>, addresses: seq<Option<Text>>, limit: int) {
    || |addresses| <= limit || limit < 1 || !AllTruthy(addresses)
    || TargetWithin(Wanted(filter).to, addresses)
    || !RestReadable(keccak, Wanted(filter))
  }

  lemma CallGroupWithinUnion(keccak: Keccak, filter: Option<TxFilter>, addresses: seq<Option<Text>>, limit: int,
                             row: Row)
    requires Distinct(addresses) && addresses != [] && GroupIsNarrow(keccak, filter, addresses, limit)
    requires Denotes(CallEntry(keccak, filter, addresses, limit), row)
    ensures CallMember(keccak, filter, addresses, limit, row)
  {
    var f := Wanted(filter);
    CallTogether(keccak, filter, addresses, limit, row);
    if !RestReadable(keccak, f) {
      UnreadableRest(keccak, f, row);
    }
    forall i | 0 <= i < |addresses|
      ensures Denotes(CallEntry(keccak, filter, [addresses[i]], limit), row)
        <==> (if limit >= 1 && Truthy(addresses[i]) then HexEq(row.to, addresses[i]) else FieldMatches(row.to, f.to))
    {
      CallAlone(keccak, filter, addresses[i], limit, row);
    }
    if |addresses| <= limit || limit < 1 || !AllTruthy(addresses) {
      assert addresses[0] == addresses[0];
    } else {
      var i :| 0 <= i < |addresses| && HexEq(Some(f.to.text), addresses[i]);
      HexEqPartialEquivalence(row.to, Some(f.to.text), addresses[i]);
    }
  }

  lemma BroadGroupAddsRow(keccak: Keccak, filter: Option<TxFilter>, addresses: seq<Option<Text>>, limit: int)
    returns (row: Row)
    requires Distinct(addresses) && addresses != [] && !GroupIsNarrow(keccak, filter, addresses, limit)
    ensures Denotes(CallEntry(keccak, filter, addresses, limit), row)
    ensures !CallMember(keccak, filter, addresses, limit, row)
  {
    var f := Wanted(filter);
    row := RowFor(keccak, f, if TruthyField(f.to) then Some(f.to.text) else None);
    assert RestMeaning(keccak, f, row);
    CallTogether(keccak, filter, addresses, limit, row);
    forall i | 0 <= i < |addresses|
      ensures !Denotes(CallEntry(keccak, filter, [addresses[i]], limit), row)
    {
      CallAlone(keccak, filter, addresses[i], limit, row);
    }
  }

  /** Grouping call handlers adds no row to those of its members exactly when the group is narrow. */
  lemma CallGroupAddsNothingIff(keccak: Keccak, filter: Option<TxFilter>, addresses: seq<Option<Text>>, limit: int)
    requires Distinct(addresses) && addresses != []
    ensures (forall row: Row :: Denotes(CallEntry(keccak, filter, addresses, limit), row)
               ==> CallMember(keccak, filter, addresses, limit, row))
      <==> GroupIsNarrow(keccak, filter, addresses, limit)
  {
    if GroupIsNarrow(keccak, filter, addresses, limit) {
      forall row: Row | Denotes(CallEntry(keccak, filter, addresses, limit), row)
        ensures CallMember(keccak, filter, addresses, limit, row)
      {
        CallGroupWithinUnion(keccak, filter, addresses, limit, row);
      }
    } else {
      var row := BroadGroupAddsRow(keccak, filter, addresses, limit);
    }
  }

  /** Every row with this address as its target also meets `filter.to`. */
  predicate AddressMeetsTo(a: Option<Text>, to: Field) {
    Truthy(a) && FeltOf(a).Some? ==> to.Given? && HexEq(a, Some(to.text))
  }

  /**
   * Grouping keeps every row of its members when the addresses stay in force, when there is no
   * `filter.to` to fall back on, or when falling back on it loses no address.
   */
  predicate GroupIsWide(keccak: Keccak, filter: Option<TxFilter>, addresses: seq<Option<Text>>, limit: int) {
    var f := Wanted(filter);
    || limit < 1
    || (|addresses| <= limit && AllTruthy(addresses))
    || f.to.Undefined? || f.to == Given(Blank)
    || (forall i :: 0 <= i < |addresses| ==> AddressMeetsTo(addresses[i], f.to))
    || !RestReadable(keccak, f)
  }

  lemma WideGroupKeepsMembers(keccak: Keccak, filter: Option<TxFilter>, addresses: seq<Option<Text>>, limit: int,
                              row: Row)
    requires Distinct(addresses) && addresses != [] && GroupIsWide(keccak, filter, addresses, limit)
    requires CallMember(keccak, filter, addresses, limit, row)
    ensures Denotes(CallEntry(keccak, filter, addresses, limit), row)
  {
    var f := Wanted(filter);
    var i :| 0 <= i < |addresses| && Denotes(CallEntry(keccak, filter, [addresses[i]], limit), row);
    CallAlone(keccak, filter, addresses[i], limit, row);
    CallTogether(keccak, filter, addresses, limit, row);
    if !RestReadable(keccak, f) {
      UnreadableRest(keccak, f, row);
    }
    if limit >= 1 && Truthy(addresses[i]) && !(|addresses| <= limit && AllTruthy(addresses)) {
      HexEqPartialEquivalence(row.to, addresses[i], None);
      HexEqPartialEquivalence(row.to, addresses[i], if f.to.Given? then Some(f.to.text) else None);
      assert FieldMatches(row.to, f.to);
    }
  }

  lemma NarrowGroupLosesMember(keccak: Keccak, filter: Option<TxFilter>, addresses: seq<Option<Text>>, limit: int)
    returns (row: Row)
    requires Distinct(addresses) && addresses != [] && !GroupIsWide(keccak, filter, addresses, limit)
    ensures CallMember(keccak, filter, addresses, limit, row)
    ensures !Denotes(CallEntry(keccak, filter, addresses, limit), row)
  {
    var f := Wanted(filter);
    var i :| 0 <= i < |addresses| && !AddressMeetsTo(addresses[i], f.to);
    row := RowFor(keccak, f, addresses[i]);
    CallAlone(keccak, filter, addresses[i], limit, row);
    CallTogether(keccak, filter, addresses, limit, row);
    assert RestMeaning(keccak, f, row);
    assert Denotes(CallEntry(keccak, filter, [addresses[i]], limit), row);
  }

  /** Grouping call handlers loses no row exactly when the group is wide. */
  lemma CallGroupKeepsMembersIff(keccak: Keccak, filter: Option<TxFilter>, addresses: seq<Option<Text>>, limit: int)
    requires Distinct(addresses) && addresses != []
    ensures (forall row: Row :: CallMember(keccak, filter, addresses, limit, row)
               ==> Denotes(CallEntry(keccak, filter, addresses, limit), row))
      <==> GroupIsWide(keccak, filter, addresses, limit)
  {
    if GroupIsWide(keccak, filter, addresses, limit) {
      forall row: Row | CallMember(keccak, filter, addresses, limit, row)
        ensures Denotes(CallEntry(keccak, filter, addresses, limit), row)
      {
        WideGroupKeepsMembers(keccak, filter, addresses, limit, row);
      }
    } else {
      var row := NarrowGroupLosesMember(keccak, filter, addresses, limit);
    }
  }

  // ---- events ----

  function RowOfLog(log: Log): Row { LogRow(log.address, log.topics) }

  /** All topics that can match anything are the same felt. */
  ghost predicate Agreeing(keccak: Keccak, topics: seq<Option<Text>>) {
    forall t, u :: Some(t) in topics && Some(u) in topics && TopicFelt(keccak, t).Some?
      ==> TopicFelt(keccak, t) == TopicFelt(keccak, u)
  }

  /** Texts that are hashed when they are encoded as selectors. */
  predicate Hashed(t: Text) { t.Name? || t.Blank? }

  /**
   * No topic is the hash of a key, no key is the hash of a topic that is already a felt, and the
   * key 0 does not meet the empty topic, which reads as 0.
   */
  ghost predicate NoHashAccident(keccak: Keccak, topics: seq<Option<Text>>, keys: seq<Text>) {
    forall topic, key :: topic in topics && key in keys ==>
      && !HexEq(topic, Some(EventKey(keccak, Some(key))))
      && (topic.None? || !Hashed(topic.value) ==> !HexEq(Some(key), Some(EventKey(keccak, topic))))
      && (topic == Some(Blank) ==> FeltOf(Some(key)) != Some(0))
  }

  /** Without accidents a filter topic matches a key exactly when their felts agree. */
  lemma TopicMatchesIff(keccak: Keccak, t: Text, key: Text)
    requires NoHashAccident(keccak, [Some(t)], [key])
    ensures TopicMatches(keccak, Some(t), key) <==> HexEq(Some(SelectorHex(keccak, t)), Some(key))
  {
    assert Some(t) in [Some(t)] && key in [key];
  }

  ghost predicate EventFilterAgrees(keccak: Keccak, filter: Option<LogFilter>) {
    HasTopics(filter) ==> Agreeing(keccak, filter.value.topics.value)
  }

  ghost predicate NoAccident(keccak: Keccak, filter: Option<LogFilter>, log: Log) {
    HasTopics(filter) ==> NoHashAccident(keccak, filter.value.topics.value, log.topics)
  }

  lemma AcceptedLogHasTopics(keccak: Keccak, log: Log, filter: Option<LogFilter>, address: Option<Text>)
    requires LogAccepted(keccak, log, filter, address) && log.topics != []
    requires EventFilterAgrees(keccak, filter) && NoAccident(keccak, filter, log) && HasTopics(filter)
    ensures forall t :: Some(t) in filter.value.topics.value ==> HasKey(log.topics, SelectorHex(keccak, t))
  {
    var topics := filter.value.topics.value;
    var i, j :| 0 <= i < |topics| && 0 <= j < |log.topics| && TopicMatches(keccak, topics[i], log.topics[j]);
    assert topics[i] in topics && log.topics[j] in log.topics;
    var t := topics[i].value;
    TopicMatchesIff(keccak, t, log.topics[j]);
    forall u | Some(u) in topics
      ensures HasKey(log.topics, SelectorHex(keccak, u))
    {
      assert TopicFelt(keccak, t) == TopicFelt(keccak, u);
      assert HexEq(Some(log.topics[j]), Some(SelectorHex(keccak, u)));
    }
  }

  /** A datasource of the project with one of its handlers. */
  ghost predicate Serves(dataSources: seq<DataSource>, address: Option<Text>, spec: Spec) {
    exists i, j :: 0 <= i < |dataSources| && 0 <= j < |dataSources[i].handlers|
      && dataSources[i].address == address && dataSources[i].handlers[j].spec == spec
  }

  lemma ServedIsDemanded(dataSources: seq<DataSource>, address: Option<Text>, spec: Spec)
    requires Serves(dataSources, address, spec)
    ensures (address, spec) in DemandOf(dataSources)
    ensures address in AddressesFor(DemandOf(dataSources), spec)
  {
    var i, j :| 0 <= i < |dataSources| && 0 <= j < |dataSources[i].handlers|
      && dataSources[i].address == address && dataSources[i].handlers[j].spec == spec;
    assert (address, spec) == (dataSources[i].address, dataSources[i].handlers[j].spec);
    assert (address, spec) in DemandOf(dataSources);
  }

  lemma MeaningIsFetched(keccak: Keccak, dataSources: seq<DataSource>, address: Option<Text>, spec: Spec,
                         limit: int, row: Row)
    requires Serves(dataSources, address, spec)
    requires SpecMeaning(keccak, spec, AddressesFor(DemandOf(dataSources), spec), limit, row)
    ensures Covers(BuildEntries(keccak, dataSources, limit), row)
  {
    ServedIsDemanded(dataSources, address, spec);
    var p := (address, spec);
    assert DemandMeaning(keccak, DemandOf(dataSources), p.1, limit, row);
    CompiledMeaning(keccak, dataSources, limit, row);
  }

  /** Whatever else the project asks for, a log that an Event handler accepts is fetched. */
  lemma EventCoverage(keccak: Keccak, dataSources: seq<DataSource>, limit: int, address: Option<Text>,
                      filter: Option<LogFilter>, log: Log)
    requires Serves(dataSources, address, EventSpec(filter))
    requires LogAccepted(keccak, log, filter, address) && log.topics != []
    requires EventFilterAgrees(keccak, filter) && NoAccident(keccak, filter, log)
    ensures Covers(BuildEntries(keccak, dataSources, limit), RowOfLog(log))
  {
    var addresses := AddressesFor(DemandOf(dataSources), EventSpec(filter));
    ServedIsDemanded(dataSources, address, EventSpec(filter));
    if InForce(addresses, limit) {
      HexEqPartialEquivalence(address, Some(log.address), None);
      assert OneOf(Some(log.address), addresses);
    }
    if HasTopics(filter) {
      AcceptedLogHasTopics(keccak, log, filter, address);
    }
    MeaningIsFetched(keccak, dataSources, address, EventSpec(filter), limit, RowOfLog(log));
  }

  function LogWith(address: Text, keys: seq<Text>): Log { Log(address, keys, [], 0, 0, None) }

  /** The filter has a topic that is not null. */
  ghost predicate NamesTopic(filter: Option<LogFilter>) {
    filter.Some? && filter.value.topics.Some? && exists t :: Some(t) in filter.value.topics.value
  }

  /** Nothing can be the same felt as the datasource address. */
  predicate Unreachable(address: Option<Text>) { Truthy(address) && FeltOf(address).None? }

  /** Every log without keys that the filter accepts is selected by its own entry. */
  ghost predicate CoversKeylessLogs(keccak: Keccak, filter: Option<LogFilter>, address: Option<Text>, limit: int) {
    forall log: Log :: log.topics == [] && LogAccepted(keccak, log, filter, address)
      ==> Denotes(EventEntry(keccak, filter, [address], limit), RowOfLog(log))
  }

  lemma KeylessLogIsSelectedIff(keccak: Keccak, filter: Option<LogFilter>, address: Option<Text>, limit: int, log: Log)
    requires log.topics == [] && LogAccepted(keccak, log, filter, address)
    ensures Denotes(EventEntry(keccak, filter, [address], limit), RowOfLog(log)) <==> !NamesTopic(filter)
  {
    EventAlone(keccak, filter, address, limit, RowOfLog(log));
    HexEqPartialEquivalence(address, Some(log.address), None);
    assert forall t :: !HasKey([], SelectorHex(keccak, t));
  }

  /** Every filter accepts a log without keys at its address; its query finds it unless it names a topic. */
  lemma KeylessCoverageIff(keccak: Keccak, filter: Option<LogFilter>, address: Option<Text>, limit: int)
    ensures CoversKeylessLogs(keccak, filter, address, limit) <==> !NamesTopic(filter) || Unreachable(address)
  {
    forall log: Log | log.topics == [] && LogAccepted(keccak, log, filter, address)
      ensures Denotes(EventEntry(keccak, filter, [address], limit), RowOfLog(log)) <==> !NamesTopic(filter)
    {
      KeylessLogIsSelectedIff(keccak, filter, address, limit, log);
    }
    if !Unreachable(address) {
      var log := LogWith(if Truthy(address) then address.value else Bare0x, []);
      assert LogAccepted(keccak, log, filter, address);
    }
  }

  /** Every log with keys and without accidents that the filter accepts is selected by its own entry. */
  ghost predicate CoversItsLogs(keccak: Keccak, filter: Option<LogFilter>, address: Option<Text>, limit: int) {
    forall log: Log ::
      log.topics != [] && NoAccident(keccak, filter, log) && LogAccepted(keccak, log, filter, address)
      ==> Denotes(EventEntry(keccak, filter, [address], limit), RowOfLog(log))
  }

  lemma AgreeingCoversItsLogs(keccak: Keccak, filter: Option<LogFilter>, address: Option<Text>, limit: int)
    requires EventFilterAgrees(keccak, filter)
    ensures CoversItsLogs(keccak, filter, address, limit)
  {
    forall log: Log | log.topics != [] && NoAccident(keccak, filter, log) && LogAccepted(keccak, log, filter, address)
      ensures Denotes(EventEntry(keccak, filter, [address], limit), RowOfLog(log))
    {
      SingletonInForce(address, limit);
      EventEntryMeaning(keccak, filter, [address], limit, RowOfLog(log));
      if HasTopics(filter) {
        AcceptedLogHasTopics(keccak, log, filter, address);
      }
      if InForce({address}, limit) {
        HexEqPartialEquivalence(address, Some(log.address), None);
        assert address in {address};
      }
    }
  }

  /** The topics' own felts, taken as keys, meet no hash. */
  ghost predicate IdealOnTopics(keccak: Keccak, topics: seq<Option<Text>>) {
    forall t :: Some(t) in topics && TopicFelt(keccak, t).Some? ==>
      NoHashAccident(keccak, topics, [Hex(TopicFelt(keccak, t).value, 0, 0)])
  }

  /** The log whose only key is the felt of t passes the filter. */
  lemma FirstTopicIsAccepted(keccak: Keccak, topics: seq<Option<Text>>, t: Text, address: Option<Text>, log: Log)
    requires Some(t) in topics && TopicFelt(keccak, t).Some?
    requires log.topics == [Hex(TopicFelt(keccak, t).value, 0, 0)]
    requires NoHashAccident(keccak, topics, log.topics)
    requires Truthy(address) ==> HexEq(address, Some(log.address))
    ensures LogAccepted(keccak, log, Some(LogFilter(Some(topics))), address)
  {
    var key := log.topics[0];
    assert key in log.topics;
    TopicMatchesIff(keccak, t, key);
    var i :| 0 <= i < |topics| && topics[i] == Some(t);
    assert TopicMatches(keccak, topics[i], log.topics[0]);
  }

  /** Two topics that disagree: a log whose only key is the first is accepted, but not selected. */
  lemma DisagreeingTopicsMiss(keccak: Keccak, topics: seq<Option<Text>>, t: Text, u: Text,
                              address: Option<Text>, limit: int)
    requires Some(t) in topics && Some(u) in topics && IdealOnTopics(keccak, topics)
    requires TopicFelt(keccak, t).Some? && TopicFelt(keccak, t) != TopicFelt(keccak, u)
    requires !Unreachable(address)
    ensures !CoversItsLogs(keccak, Some(LogFilter(Some(topics))), address, limit)
  {
    var key := Hex(TopicFelt(keccak, t).value, 0, 0);
    var log := LogWith(if Truthy(address) then address.value else key, [key]);
    FirstTopicIsAccepted(keccak, topics, t, address, log);
    SecondTopicIsNotSelected(keccak, topics, t, u, address, limit, log);
  }

  lemma SecondTopicIsNotSelected(keccak: Keccak, topics: seq<Option<Text>>, t: Text, u: Text,
                                 address: Option<Text>, limit: int, log: Log)
    requires Some(u) in topics && TopicFelt(keccak, t).Some? && TopicFelt(keccak, t) != TopicFelt(keccak, u)
    requires log.topics == [Hex(TopicFelt(keccak, t).value, 0, 0)]
    ensures !Denotes(EventEntry(keccak, Some(LogFilter(Some(topics))), [address], limit), RowOfLog(log))
  {
    SingletonInForce(address, limit);
    EventEntryMeaning(keccak, Some(LogFilter(Some(topics))), [address], limit, RowOfLog(log));
    assert !HasKey(log.topics, SelectorHex(keccak, u));
  }

  /**
   * A topic filter's own query misses no log with keys exactly when its readable topics are all one
   * felt, or the address admits no log at all.
   */
  lemma EventCoverageIff(keccak: Keccak, topics: seq<Option<Text>>, address: Option<Text>, limit: int)
    requires IdealOnTopics(keccak, topics)
    ensures CoversItsLogs(keccak, Some(LogFilter(Some(topics))), address, limit)
      <==> Agreeing(keccak, topics) || Unreachable(address)
  {
    var filter := Some(LogFilter(Some(topics)));
    if Agreeing(keccak, topics) {
      AgreeingCoversItsLogs(keccak, filter, address, limit);
    } else if !Unreachable(address) {
      var t, u :| Some(t) in topics && Some(u) in topics && TopicFelt(keccak, t).Some?
        && TopicFelt(keccak, t) != TopicFelt(keccak, u);
      DisagreeingTopicsMiss(keccak, topics, t, u, address, limit);
    }
  }

  // ---- calls ----

  function RowOfCall(tx: TxData, call: ContractCall): Row {
    CallRow(tx.from, call.to, call.selector, tx.txType)
  }

  /** A call that matches the filter's function is one the query's function condition selects. */
  lemma FunctionIsQueried(keccak: Keccak, call: ContractCall, func: Field)
    requires HasFunction(keccak, call, func)
    ensures FunctionMeaning(keccak, call.selector, func)
  {
  }

  lemma TargetIsQueried(call: ContractCall, to: Field)
    requires HasTarget(call, to)
    ensures FieldMatches(call.to, to)
  {
  }

  /** The query gets a condition for this field of the filter. */
  predicate Asks(wanted: Field) { wanted.Null? || TruthyField(wanted) }

  /** The query says something about the target: the addresses in force, or else `filter.to`. */
  ghost predicate AsksTarget(f: TxFilter, addresses: AddressSet, limit: int) {
    InForce(addresses, limit) || Asks(f.to)
  }

  /** One call of an accepted transaction meets everything the query asks of calls. */
  lemma OneCallMeetsAll(keccak: Keccak, calls: seq<ContractCall>, f: TxFilter, address: Option<Text>,
                        asksTarget: bool) returns (i: nat)
    requires calls != [] && CallsPass(keccak, calls, f, address)
    requires |calls| == 1 || !Asks(f.func) || !asksTarget
    ensures i < |calls| && FunctionMeaning(keccak, calls[i].selector, f.func)
    ensures asksTarget ==> HasTarget(calls[i], TargetOf(f, address))
  {
    if Asks(f.func) {
      i :| 0 <= i < |calls| && HasFunction(keccak, calls[i], f.func);
      FunctionIsQueried(keccak, calls[i], f.func);
    } else if !TargetOf(f, address).Undefined? {
      i :| 0 <= i < |calls| && HasTarget(calls[i], TargetOf(f, address));
    } else {
      i := 0;
    }
  }

  /** `filter.to` does not contradict the datasource address. */
  predicate SameTarget(f: TxFilter, address: Option<Text>) {
    f.to.Undefined? || !Truthy(address) || (f.to.Given? && HexEq(Some(f.to.text), address))
  }

  /** Such a call is selected at every set of addresses that has the datasource's own. */
  lemma CallIsSelected(keccak: Keccak, tx: TxData, call: ContractCall, f: TxFilter, address: Option<Text>,
                       addresses: AddressSet, limit: int)
    requires HeaderPasses(keccak, tx, f, address) && Truthy(tx.from)
    requires FunctionMeaning(keccak, call.selector, f.func)
    requires AsksTarget(f, addresses, limit) ==> HasTarget(call, TargetOf(f, address))
    requires address in addresses && (InForce(addresses, limit) ==> SameTarget(f, address))
    ensures CallMeaning(keccak, Some(f), addresses, limit, RowOfCall(tx, call))
  {
    var row := RowOfCall(tx, call);
    if InForce(addresses, limit) {
      assert Truthy(address);
      assert HexEq(row.to, address);
      assert OneOf(row.to, addresses);
    } else if Asks(f.to) {
      TargetIsQueried(call, f.to) by {
        assert TargetOf(f, address) == f.to;
      }
    }
  }

  /** Some call is selected if the address has its way and the query cannot ask two calls at once. */
  lemma SomeCallMeetsQuery(keccak: Keccak, tx: TxData, calls: seq<ContractCall>, f: TxFilter,
                           address: Option<Text>, addresses: AddressSet, limit: int) returns (i: nat)
    requires Accepts(keccak, tx, f, address) && Truthy(tx.from) && Decode(tx) == Ok(Some(calls)) && calls != []
    requires address in addresses && (InForce(addresses, limit) ==> SameTarget(f, address))
    requires |calls| == 1 || !Asks(f.func) || !AsksTarget(f, addresses, limit)
    ensures i < |calls| && CallMeaning(keccak, Some(f), addresses, limit, RowOfCall(tx, calls[i]))
  {
    i := OneCallMeetsAll(keccak, calls, f, address, AsksTarget(f, addresses, limit));
    CallIsSelected(keccak, tx, calls[i], f, address, addresses, limit);
  }

  /** Whatever else the project asks for, some call of an accepted transaction is fetched. */
  lemma CallCoverage(keccak: Keccak, dataSources: seq<DataSource>, limit: int, address: Option<Text>,
                     f: TxFilter, tx: TxData, calls: seq<ContractCall>) returns (i: nat)
    requires Serves(dataSources, address, CallSpec(Some(f)))
    requires Accepts(keccak, tx, f, address) && Truthy(tx.from)
    requires Decode(tx) == Ok(Some(calls)) && calls != []
    requires InForce(AddressesFor(DemandOf(dataSources), CallSpec(Some(f))), limit) ==> SameTarget(f, address)
    requires
      || |calls| == 1 || !Asks(f.func)
      || !AsksTarget(f, AddressesFor(DemandOf(dataSources), CallSpec(Some(f))), limit)
    ensures i < |calls| && Covers(BuildEntries(keccak, dataSources, limit), RowOfCall(tx, calls[i]))
  {
    var spec := CallSpec(Some(f));
    ServedIsDemanded(dataSources, address, spec);
    i := SomeCallMeetsQuery(keccak, tx, calls, f, address, AddressesFor(DemandOf(dataSources), spec), limit);
    MeaningIsFetched(keccak, dataSources, address, spec, limit, RowOfCall(tx, calls[i]));
  }

  ghost predicate SomeCallSelected(keccak: Keccak, tx: TxData, calls: seq<ContractCall>, f: TxFilter,
                                   address: Option<Text>, limit: int)
  {
    exists i :: 0 <= i < |calls| && Denotes(CallEntry(keccak, Some(f), [address], limit), RowOfCall(tx, calls[i]))
  }

  /** Every accepted transaction with decoded calls has one that the handler's own entry selects. */
  ghost predicate CoversItsCalls(keccak: Keccak, f: TxFilter, address: Option<Text>, limit: int) {
    forall tx: TxData, calls: seq<ContractCall> ::
      Truthy(tx.from) && Decode(tx) == Ok(Some(calls)) && calls != [] && Accepts(keccak, tx, f, address)
      ==> SomeCallSelected(keccak, tx, calls, f, address, limit)
  }

  /** What the filter and the datasource ask for can be met by some transaction. */
  predicate Meetable(keccak: Keccak, f: TxFilter, address: Option<Text>) {
    && (Truthy(f.from) ==> FeltOf(f.from).Some?)
    && (f.func.Given? ==> FeltOf(Some(f.func.text)).Some? || FeltOf(Some(SelectorHex(keccak, f.func.text))).Some?)
    && var target := TargetOf(f, address);
       target.Given? ==> TruthyField(target) && FeltOf(Some(target.text)).Some?
  }

  /** Transactions of the other types have at most one decoded call. */
  predicate SingleCallType(f: TxFilter) { f.txType.Some? && !f.txType.value.Invoke? }

  predicate OwnAddressInForce(address: Option<Text>, limit: int) { limit >= 1 && Truthy(address) }

  /** The query asks for nothing that the accepted calls of a transaction could lack. */
  predicate Separable(f: TxFilter, address: Option<Text>, limit: int) {
    && (OwnAddressInForce(address, limit) ==> SameTarget(f, address))
    && !(Asks(f.func) && (OwnAddressInForce(address, limit) || Asks(f.to)))
  }

  /** A single-call transaction is only accepted if its contract meets both `to` and the address. */
  lemma SingleCallHasSameTarget(keccak: Keccak, tx: TxData, f: TxFilter, address: Option<Text>)
    requires SingleCallType(f) && Accepts(keccak, tx, f, address)
    requires Decode(tx).Ok? && Decode(tx).value.Some?
    ensures |Decode(tx).value.value| == 1 && SameTarget(f, address)
  {
    var calls := Decode(tx).value.value;
    assert calls == [DecodeGenericCalldata(tx.contractAddress.value, tx.entryPointSelector.value, tx.calldata)];
    if f.to.Null? {
      assert calls[0].to.Some?;
    }
    if f.to.Given? && Truthy(address) {
      HexEqPartialEquivalence(address, tx.contractAddress, Some(f.to.text));
      HexEqPartialEquivalence(Some(f.to.text), tx.contractAddress, address);
    }
  }

  /** What cannot be met is never accepted. */
  lemma UnmeetableRejects(keccak: Keccak, tx: TxData, calls: seq<ContractCall>, f: TxFilter, address: Option<Text>)
    requires !Meetable(keccak, f, address) && Truthy(tx.from) && Decode(tx) == Ok(Some(calls)) && calls != []
    ensures !Accepts(keccak, tx, f, address)
  {
  }

  lemma SafeFilterCoversItsCalls(keccak: Keccak, f: TxFilter, address: Option<Text>, limit: int)
    requires SingleCallType(f) || !Meetable(keccak, f, address) || Separable(f, address, limit)
    ensures CoversItsCalls(keccak, f, address, limit)
  {
    forall tx: TxData, calls: seq<ContractCall> |
      Truthy(tx.from) && Decode(tx) == Ok(Some(calls)) && calls != [] && Accepts(keccak, tx, f, address)
      ensures SomeCallSelected(keccak, tx, calls, f, address, limit)
    {
      if SingleCallType(f) {
        SingleCallHasSameTarget(keccak, tx, f, address);
      } else if !Meetable(keccak, f, address) {
        UnmeetableRejects(keccak, tx, calls, f, address);
      }
      SingletonInForce(address, limit);
      assert address in {address};
      var i := SomeCallMeetsQuery(keccak, tx, calls, f, address, {address}, limit);
      CallEntryMeaning(keccak, Some(f), [address], limit, RowOfCall(tx, calls[i]));
    }
  }

  // ---- transactions that slip through ----

  /** A word that meets the field, and one that does not. */
  function Meeting(f: Field): Word { if f.Given? then Some(f.text) else None }

  function Missing(f: Field, felt: Option<nat>): Word {
    if f.Given? && felt == Some(0) then Some(Hex(1, 0, 0)) else Some(Hex(0, 0, 0))
  }

  /** The empty function reads as 0. */
  function MeetingFunction(keccak: Keccak, f: Field): Word {
    if !f.Given? then None
    else if f.text.Blank? then Some(Hex(0, 0, 0))
    else Some(SelectorHex(keccak, f.text))
  }

  function Slipping(f: TxFilter, calls: seq<ContractCall>): TxData
    requires |EncodeNew(calls)| < ARRAY_BOUND
  {
    InvokeV1From(if Truthy(f.from) then f.from else Some(Hex(1, 0, 0)), EncodeNew(calls))
  }

  function InvokeV1From(from: Option<Text>, words: Words): TxData {
    TxData(Invoke, Some("0x1"), from, None, None, words)
  }

  /** Calls without arguments come back from an INVOKE transaction, and only calls decide about it. */
  lemma SlippingDecodes(keccak: Keccak, f: TxFilter, address: Option<Text>, calls: seq<ContractCall>)
    requires Meetable(keccak, f, address) && !SingleCallType(f)
    requires 0 < |calls| <= 2 && Plain(calls) && forall i :: 0 <= i < |calls| ==> calls[i].calldata == []
    requires CallsPass(keccak, calls, f, address)
    ensures |EncodeNew(calls)| < ARRAY_BOUND
    ensures var tx := Slipping(f, calls);
      Truthy(tx.from) && Decode(tx) == Ok(Some(calls)) && Accepts(keccak, tx, f, address)
  {
    EncodeCallsLength(calls);
    NoArguments(calls);
    FewArgumentsAreSafe(calls);
    var tx := Slipping(f, calls);
    assert HeaderPasses(keccak, tx, f, address);
  }

  lemma {:induction false} NoArguments(calls: seq<ContractCall>)
    requires forall i :: 0 <= i < |calls| ==> calls[i].calldata == []
    ensures Args(calls) == 0
  {
    if calls != [] {
      NoArguments(calls[1..]);
    }
  }

  lemma MeetingWordsMatch(keccak: Keccak, f: TxFilter, address: Option<Text>, word: Word)
    requires Meetable(keccak, f, address)
    ensures HasFunction(keccak, ContractCall(word, MeetingFunction(keccak, f.func), [], None), f.func)
    ensures HasTarget(ContractCall(Meeting(TargetOf(f, address)), word, [], None), TargetOf(f, address))
  {
  }

  /** `to` and the address disagree: the filter looks at `to`, the query at the address. */
  lemma ConflictSlips(keccak: Keccak, f: TxFilter, address: Option<Text>, limit: int)
    requires Meetable(keccak, f, address) && !SingleCallType(f)
    requires OwnAddressInForce(address, limit) && !SameTarget(f, address)
    ensures !CoversItsCalls(keccak, f, address, limit)
  {
    var call := ContractCall(Meeting(f.to), MeetingFunction(keccak, f.func), [], None);
    var calls := [call];
    MeetingWordsMatch(keccak, f, address, call.to);
    MeetingWordsMatch(keccak, f, address, call.selector);
    assert HasFunction(keccak, calls[0], f.func) && HasTarget(calls[0], TargetOf(f, address));
    SlippingDecodes(keccak, f, address, calls);
    var tx := Slipping(f, calls);
    CallAlone(keccak, Some(f), address, limit, RowOfCall(tx, calls[0]));
    assert !SomeCallSelected(keccak, tx, calls, f, address, limit);
  }

  /** A row with another target is not selected. */
  lemma OtherTargetIsNotSelected(keccak: Keccak, f: TxFilter, address: Option<Text>, limit: int, row: Row)
    requires Meetable(keccak, f, address) && (OwnAddressInForce(address, limit) ==> SameTarget(f, address))
    requires OwnAddressInForce(address, limit) || Asks(f.to)
    requires row.CallRow? && row.to == Missing(TargetOf(f, address), FeltOf(Meeting(TargetOf(f, address))))
    ensures !Denotes(CallEntry(keccak, Some(f), [address], limit), row)
  {
    CallAlone(keccak, Some(f), address, limit, row);
    var target := TargetOf(f, address);
    assert !HexEq(row.to, Meeting(target)) && !FieldMatches(row.to, target);
    if f.to.Given? && Truthy(address) {
      HexEqPartialEquivalence(row.to, address, Some(f.to.text));
      HexEqPartialEquivalence(Some(f.to.text), address, None);
    }
  }

  lemma OtherFunctionIsNotSelected(keccak: Keccak, f: TxFilter, address: Option<Text>, limit: int, row: Row)
    requires Meetable(keccak, f, address) && Asks(f.func)
    requires row.CallRow? && row.func == Missing(f.func, FeltOf(MeetingFunction(keccak, f.func)))
    ensures !Denotes(CallEntry(keccak, Some(f), [address], limit), row)
  {
    CallAlone(keccak, Some(f), address, limit, row);
    assert !FunctionMeaning(keccak, row.func, f.func);
  }

  /** The first call meets the target and not the function, the second the other way round. */
  function SplitCalls(keccak: Keccak, f: TxFilter, address: Option<Text>): seq<ContractCall> {
    var target := TargetOf(f, address);
    [ContractCall(Meeting(target), Missing(f.func, FeltOf(MeetingFunction(keccak, f.func))), [], None),
     ContractCall(Missing(target, FeltOf(Meeting(target))), MeetingFunction(keccak, f.func), [], None)]
  }

  lemma SplitCallsPass(keccak: Keccak, f: TxFilter, address: Option<Text>)
    requires Meetable(keccak, f, address)
    ensures CallsPass(keccak, SplitCalls(keccak, f, address), f, address)
  {
    var calls := SplitCalls(keccak, f, address);
    MeetingWordsMatch(keccak, f, address, calls[1].to);
    MeetingWordsMatch(keccak, f, address, calls[0].selector);
    assert HasTarget(calls[0], TargetOf(f, address)) && HasFunction(keccak, calls[1], f.func);
  }

  lemma SplitCallsNotSelected(keccak: Keccak, f: TxFilter, address: Option<Text>, limit: int, tx: TxData)
    requires Meetable(keccak, f, address) && (OwnAddressInForce(address, limit) ==> SameTarget(f, address))
    requires Asks(f.func) && (OwnAddressInForce(address, limit) || Asks(f.to))
    ensures !SomeCallSelected(keccak, tx, SplitCalls(keccak, f, address), f, address, limit)
  {
    var calls := SplitCalls(keccak, f, address);
    OtherFunctionIsNotSelected(keccak, f, address, limit, RowOfCall(tx, calls[0]));
    OtherTargetIsNotSelected(keccak, f, address, limit, RowOfCall(tx, calls[1]));
  }

  /** Function and target are met by different calls: no single row meets both. */
  lemma SplitSlips(keccak: Keccak, f: TxFilter, address: Option<Text>, limit: int)
    requires Meetable(keccak, f, address) && !SingleCallType(f)
    requires OwnAddressInForce(address, limit) ==> SameTarget(f, address)
    requires Asks(f.func) && (OwnAddressInForce(address, limit) || Asks(f.to))
    ensures !CoversItsCalls(keccak, f, address, limit)
  {
    var calls := SplitCalls(keccak, f, address);
    SplitCallsPass(keccak, f, address);
    SlippingDecodes(keccak, f, address, calls);
    SplitCallsNotSelected(keccak, f, address, limit, Slipping(f, calls));
  }

  /**
   * A call handler's own query misses none of its transactions exactly when it can meet none, when
   * they have single calls only, or when the query neither asks for another target than the filter
   * nor for function and target at once.
   */
  lemma CallCoverageIff(keccak: Keccak, f: TxFilter, address: Option<Text>, limit: int)
    ensures CoversItsCalls(keccak, f, address, limit)
      <==> SingleCallType(f) || !Meetable(keccak, f, address) || Separable(f, address, limit)
  {
    if SingleCallType(f) || !Meetable(keccak, f, address) || Separable(f, address, limit) {
      SafeFilterCoversItsCalls(keccak, f, address, limit);
    } else if OwnAddressInForce(address, limit) && !SameTarget(f, address) {
      ConflictSlips(keccak, f, address, limit);
    } else {
      SplitSlips(keccak, f, address, limit);
    }
  }

  /** Every transaction with decoded calls has one that the address alone selects. */
  ghost predicate CoversUnfiltered(keccak: Keccak, address: Option<Text>, limit: int) {
    forall tx: TxData, calls: seq<ContractCall> ::
      Decode(tx) == Ok(Some(calls)) && calls != [] && Verdict(keccak, tx, None, address) == Ok(true)
      ==> AnyUnfilteredSelected(keccak, tx, calls, address, limit)
  }

  ghost predicate AnyUnfilteredSelected(keccak: Keccak, tx: TxData, calls: seq<ContractCall>,
                                        address: Option<Text>, limit: int)
  {
    exists i :: 0 <= i < |calls| && Denotes(CallEntry(keccak, None, [address], limit), RowOfCall(tx, calls[i]))
  }

  lemma UnfilteredSelects(keccak: Keccak, address: Option<Text>, limit: int, row: Row)
    requires row.CallRow?
    ensures Denotes(CallEntry(keccak, None, [address], limit), row)
      <==> (limit >= 1 && Truthy(address) ==> HexEq(row.to, address))
  {
    CallAlone(keccak, None, address, limit, row);
  }

  lemma OneCallFrom(call: ContractCall)
    requires call.calldata == [] && call.decodedArgs == None
    ensures |EncodeNew([call])| < ARRAY_BOUND
    ensures Decode(InvokeV1From(None, EncodeNew([call]))) == Ok(Some([call]))
  {
    EncodeCallsLength([call]);
    NoArguments([call]);
    FewArgumentsAreSafe([call]);
  }

  /** A call handler without a filter accepts every transaction, yet its query still names the address. */
  lemma UnfilteredCoverageIff(keccak: Keccak, address: Option<Text>, limit: int)
    ensures CoversUnfiltered(keccak, address, limit) <==> limit < 1 || !Truthy(address)
  {
    if limit < 1 || !Truthy(address) {
      forall tx: TxData, calls: seq<ContractCall> | calls != []
        ensures AnyUnfilteredSelected(keccak, tx, calls, address, limit)
      {
        UnfilteredSelects(keccak, address, limit, RowOfCall(tx, calls[0]));
      }
    } else {
      var other := Some(Hex(if FeltOf(address) == Some(0) then 1 else 0, 0, 0));
      var call := ContractCall(other, None, [], None);
      OneCallFrom(call);
      var tx := InvokeV1From(None, EncodeNew([call]));
      UnfilteredSelects(keccak, address, limit, RowOfCall(tx, call));
      assert !AnyUnfilteredSelected(keccak, tx, [call], address, limit);
    }
  }
}
