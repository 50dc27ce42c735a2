/** What the compiled queries select, said without lists, groups or order. */
module DictionaryLaws {
  import opened Wrappers
  import opened Texts
  import opened Filters
  import opened Queries
  import opened DataSources
  import opened Dictionary

  // ---- the meaning of one specification at a set of addresses ----

  type AddressSet = set<Option<Text>>

  /** Addresses narrow a query only if there are some, none is absent, and they fit the limit. */
  ghost predicate InForce(addresses: AddressSet, limit: int) {
    addresses != {} && |addresses| <= limit && forall a :: a in addresses ==> Truthy(a)
  }

  ghost predicate OneOf(x: Option<Text>, addresses: AddressSet) {
    exists a :: a in addresses && HexEq(x, a)
  }

  ghost predicate EventMeaning(keccak: Keccak, filter: Option<LogFilter>, addresses: AddressSet, limit: int, row: Row) {
    && row.LogRow?
    && (InForce(addresses, limit) ==> OneOf(Some(row.address), addresses))
    && (HasTopics(filter) ==>
          forall t :: Some(t) in filter.value.topics.value ==> HasKey(row.topics, SelectorHex(keccak, t)))
  }

  predicate FieldMatches(word: Option<Text>, wanted: Field) {
    match wanted
    case Undefined => true
    case Null => word == None
    case Given(t) => t.Blank? || HexEq(word, Some(t))
  }

  ghost predicate FunctionMeaning(keccak: Keccak, func: Option<Text>, wanted: Field) {
    match wanted
    case Undefined => true
    case Null => func == None
    case Given(t) =>
      if t.Blank? then true else if t.Bare0x? then func == None else HexEq(func, Some(SelectorHex(keccak, t)))
  }

  /** The parts of a call filter that do not concern the target. */
  ghost predicate RestMeaning(keccak: Keccak, f: TxFilter, row: Row)
    requires row.CallRow?
  {
    && (Truthy(f.from) ==> HexEq(row.from, f.from))
    && (f.txType.Some? ==> row.txType == f.txType.value)
    && FunctionMeaning(keccak, row.func, f.func)
  }

  ghost predicate CallMeaning(keccak: Keccak, filter: Option<TxFilter>, addresses: AddressSet, limit: int, row: Row) {
    && row.CallRow?
    && (InForce(addresses, limit) ==> OneOf(row.to, addresses))
    && (filter.Some? && !InForce(addresses, limit) ==> FieldMatches(row.to, filter.value.to))
    && (filter.Some? ==> RestMeaning(keccak, filter.value, row))
  }

  ghost predicate SpecMeaning(keccak: Keccak, spec: Spec, addresses: AddressSet, limit: int, row: Row) {
    match spec
    case CallSpec(filter) => CallMeaning(keccak, filter, addresses, limit, row)
    case EventSpec(filter) => EventMeaning(keccak, filter, addresses, limit, row)
    case _ => false
  }

  // ---- entries mean what their specification says ----

  lemma InForceOfList(addresses: seq<Option<Text>>, limit: int)
    requires Distinct(addresses)
    ensures InForce(Elements(addresses), limit)
      <==> addresses != [] && |addresses| <= limit && forall i :: 0 <= i < |addresses| ==> Truthy(addresses[i])
    ensures InForce(Elements(addresses), limit) <==> AddressConditions(addresses, limit) != []
  {
    DistinctCount(addresses);
    if addresses != [] {
      assert addresses[0] in Elements(addresses);
    }
    forall i | 0 <= i < |addresses|
      ensures addresses[i] in Elements(addresses)
    {
    }
  }

  /** The one condition the addresses compile to, on either field. */
  lemma AddressConditionMeaning(addresses: seq<Option<Text>>, limit: int, field: QueryField, row: Row)
    requires Distinct(addresses) && InForce(Elements(addresses), limit)
    ensures |AddressConditions(addresses, limit)| == 1
    ensures AddressConditions(addresses, limit)[0].field.Address?
    ensures Holds(AddressConditions(addresses, limit)[0].(field := field), row)
      <==> OneOf(FieldText(row, field), Elements(addresses))
  {
    InForceOfList(addresses, limit);
    AllTruthyAreValid(addresses);
    var x := FieldText(row, field);
    var lowered := LowerAll(ValidAddresses(addresses));
    forall i | 0 <= i < |addresses|
      ensures HexEq(x, Some(lowered[i])) == HexEq(x, addresses[i])
      ensures addresses[i] in Elements(addresses)
    {
      HexEqPartialEquivalence(addresses[i], addresses[i], addresses[i]);
    }
    if |addresses| == 1 {
      assert lowered[0] == Lower(addresses[0].value);
      assert Elements(addresses) == {addresses[0]};
    }
  }

  lemma {:induction false} HexTopicsMeaning(keccak: Keccak, topics: seq<Option<Text>>, keys: seq<Text>)
    ensures (forall i :: 0 <= i < |HexTopics(keccak, topics)| ==> HasKey(keys, HexTopics(keccak, topics)[i]))
      <==> forall t :: Some(t) in topics ==> HasKey(keys, SelectorHex(keccak, t))
  {
    if topics != [] {
      var last := |topics| - 1;
      HexTopicsMeaning(keccak, topics[..last], keys);
      assert topics == topics[..last] + [topics[last]];
      var front, all := HexTopics(keccak, topics[..last]), HexTopics(keccak, topics);
      assert forall i :: 0 <= i < |front| ==> all[i] == front[i];
      if topics[last].Some? {
        assert all == front + [SelectorHex(keccak, topics[last].value)];
        assert all[|front|] == SelectorHex(keccak, topics[last].value);
      }
    }
  }

  lemma AllHoldJoin(xs: seq<Condition>, ys: seq<Condition>, row: Row)
    ensures AllHold(xs + ys, row) <==> AllHold(xs, row) && AllHold(ys, row)
  {
    if AllHold(xs + ys, row) {
      forall i | 0 <= i < |xs|
        ensures Holds(xs[i], row)
      {
        assert (xs + ys)[i] == xs[i];
      }
      forall i | 0 <= i < |ys|
        ensures Holds(ys[i], row)
      {
        assert (xs + ys)[|xs| + i] == ys[i];
      }
    }
  }

  lemma EventEntryMeaning(keccak: Keccak, filter: Option<LogFilter>, addresses: seq<Option<Text>>, limit: int, row: Row)
    requires Distinct(addresses)
    ensures Denotes(EventEntry(keccak, filter, addresses, limit), row)
      <==> EventMeaning(keccak, filter, Elements(addresses), limit, row)
  {
    var cs := AddressConditions(addresses, limit);
    var ts := if filter.Some? && filter.value.topics.Some?
      then [Condition(Topics, Many(HexTopics(keccak, filter.value.topics.value)), Contains)] else [];
    AllHoldJoin(cs, ts, row);
    InForceOfList(addresses, limit);
    if row.LogRow? {
      if InForce(Elements(addresses), limit) {
        AddressConditionMeaning(addresses, limit, Address, row);
        assert cs[0].(field := Address) == cs[0];
      }
      if filter.Some? && filter.value.topics.Some? {
        HexTopicsMeaning(keccak, filter.value.topics.value, row.topics);
        assert Holds(ts[0], row) <==>
          forall t :: Some(t) in filter.value.topics.value ==> HasKey(row.topics, SelectorHex(keccak, t));
      }
    }
  }

  lemma TargetMeaning(addresses: seq<Option<Text>>, limit: int, row: Row)
    requires Distinct(addresses)
    ensures AllHold(TargetConditions(addresses, limit), row)
      <==> (InForce(Elements(addresses), limit) ==> OneOf(FieldText(row, To), Elements(addresses)))
    ensures TargetConditions(addresses, limit) == [] <==> !InForce(Elements(addresses), limit)
  {
    InForceOfList(addresses, limit);
    if InForce(Elements(addresses), limit) {
      AddressConditionMeaning(addresses, limit, To, row);
      var c := AddressConditions(addresses, limit)[0].(field := To);
      assert TargetConditions(addresses, limit) == [c];
      OneHolds(c, row);
    }
  }

  lemma OneHolds(c: Condition, row: Row)
    ensures AllHold([c], row) <==> Holds(c, row)
  {
    assert [c][0] == c;
  }

  lemma ToConditionsMeaning(f: TxFilter, row: Row)
    requires row.CallRow?
    ensures AllHold(ToConditions(f), row) <==> FieldMatches(row.to, f.to)
  {
    if f.to.Given? {
      HexEqPartialEquivalence(Some(f.to.text), None, None);
      OneHolds(Condition(To, One(Lower(f.to.text)), EqualTo), row);
    } else {
      OneHolds(Condition(To, IsTrue, IsNull), row);
    }
  }

  lemma FuncConditionsMeaning(keccak: Keccak, f: TxFilter, row: Row)
    requires row.CallRow?
    ensures AllHold(FuncConditions(keccak, f), row) <==> FunctionMeaning(keccak, row.func, f.func)
  {
    OneHolds(Condition(Func, IsTrue, IsNull), row);
    if f.func.Given? {
      OneHolds(Condition(Func, One(SelectorHex(keccak, f.func.text)), EqualTo), row);
    }
  }

  lemma RestConditionsMeaning(keccak: Keccak, f: TxFilter, row: Row)
    requires row.CallRow?
    ensures AllHold(FromConditions(f), row) && AllHold(TypeConditions(f), row)
            && AllHold(FuncConditions(keccak, f), row)
      <==> RestMeaning(keccak, f, row)
  {
    HexEqPartialEquivalence(f.from, None, None);
    if Truthy(f.from) {
      OneHolds(Condition(From, One(Lower(f.from.value)), EqualTo), row);
    }
    if f.txType.Some? {
      OneHolds(Condition(Type, OfType(f.txType.value), EqualTo), row);
    }
    FuncConditionsMeaning(keccak, f, row);
  }

  lemma CallEntryMeaning(keccak: Keccak, filter: Option<TxFilter>, addresses: seq<Option<Text>>, limit: int, row: Row)
    requires Distinct(addresses)
    ensures Denotes(CallEntry(keccak, filter, addresses, limit), row)
      <==> CallMeaning(keccak, filter, Elements(addresses), limit, row)
  {
    TargetMeaning(addresses, limit, row);
    if row.CallRow? && filter.Some? {
      var f := filter.value;
      var target := TargetConditions(addresses, limit);
      var to := if target == [] then ToConditions(f) else [];
      RestConditionsMeaning(keccak, f, row);
      ToConditionsMeaning(f, row);
      AllHoldJoin(target, FromConditions(f), row);
      AllHoldJoin(target + FromConditions(f), TypeConditions(f), row);
      AllHoldJoin(target + FromConditions(f) + TypeConditions(f), to, row);
      AllHoldJoin(target + FromConditions(f) + TypeConditions(f) + to, FuncConditions(keccak, f), row);
    }
  }

  predicate SameButCase(a: Option<Text>, b: Option<Text>) {
    a == b || (a.Some? && b.Some? && a.value.Hex? && b.value.Hex?
               && a.value.value == b.value.value && a.value.pad == b.value.pad)
  }

  lemma AddressCaseLeavesNoTrace(addresses: seq<Option<Text>>, others: seq<Option<Text>>, limit: int)
    requires |addresses| == |others| && forall i :: 0 <= i < |addresses| ==> SameButCase(addresses[i], others[i])
    ensures AddressConditions(addresses, limit) == AddressConditions(others, limit)
  {
    forall i | 0 <= i < |addresses|
      ensures Truthy(addresses[i]) == Truthy(others[i])
    {
      assert SameButCase(addresses[i], others[i]);
    }
    if forall i :: 0 <= i < |addresses| ==> Truthy(addresses[i]) {
      AllTruthyAreValid(addresses);
      AllTruthyAreValid(others);
      assert LowerAll(ValidAddresses(addresses)) == LowerAll(ValidAddresses(others));
    }
  }

  /** The case in which addresses, sender and target are written leaves no trace in a query. */
  lemma CaseLeavesNoTrace(keccak: Keccak, f: TxFilter, g: TxFilter, addresses: seq<Option<Text>>,
                          others: seq<Option<Text>>, limit: int)
    requires |addresses| == |others| && forall i :: 0 <= i < |addresses| ==> SameButCase(addresses[i], others[i])
    requires f.txType == g.txType && f.func == g.func && SameButCase(f.from, g.from)
    requires f.to == g.to || (f.to.Given? && g.to.Given? && SameButCase(Some(f.to.text), Some(g.to.text)))
    ensures CallEntry(keccak, Some(f), addresses, limit) == CallEntry(keccak, Some(g), others, limit)
  {
    AddressCaseLeavesNoTrace(addresses, others, limit);
    assert TargetConditions(addresses, limit) == TargetConditions(others, limit);
    assert ToConditions(f) == ToConditions(g) && FromConditions(f) == FromConditions(g);
  }

  // ---- the meaning of a whole project ----

  ghost predicate Scans(spec: Spec, addresses: AddressSet) {
    match spec
    case BlockSpec(filter) => filter.None? || filter.value.modulo.None?
    case CallSpec(filter) => (filter.None? || !AnyDefined(filter.value)) && forall a :: a in addresses ==> !Truthy(a)
    case EventSpec(filter) => !HasTopics(filter) && forall a :: a in addresses ==> !Truthy(a)
    case CustomSpec(_, _) => false
  }

  predicate Queryable(spec: Spec) { spec.CallSpec? || spec.EventSpec? }

  ghost predicate DemandScans(demand: Demand, spec: Spec) {
    Scans(spec, AddressesFor(demand, spec))
  }

  ghost predicate DemandMeaning(keccak: Keccak, demand: Demand, spec: Spec, limit: int, row: Row) {
    SpecMeaning(keccak, spec, AddressesFor(demand, spec), limit, row)
  }

  /** Which rows are fetched for a demand, whatever order or grouping it was written in. */
  ghost predicate Fetches(keccak: Keccak, demand: Demand, limit: int, row: Row) {
    || (exists p :: p in demand && DemandScans(demand, p.1))
    || (forall p :: p in demand ==> !Queryable(p.1))
    || (exists p :: p in demand && DemandMeaning(keccak, demand, p.1, limit, row))
  }

  lemma {:induction false} NoValidAddresses(addresses: seq<Option<Text>>)
    ensures ValidAddresses(addresses) == [] <==> forall i :: 0 <= i < |addresses| ==> !Truthy(addresses[i])
  {
    if addresses != [] {
      var last := |addresses| - 1;
      NoValidAddresses(addresses[..last]);
      assert addresses == addresses[..last] + [addresses[last]];
    }
  }

  lemma NeedsScanMeaning(g: Group)
    requires g.addresses != []
    ensures NeedsScan(g) <==> Scans(g.handler.spec, Elements(g.addresses))
  {
    NoValidAddresses(g.addresses);
    forall i | 0 <= i < |g.addresses|
      ensures g.addresses[i] in Elements(g.addresses)
    {
    }
  }

  lemma GroupEntryMeaning(keccak: Keccak, g: Group, limit: int, row: Row)
    requires Distinct(g.addresses)
    ensures AnyDenotes(GroupEntry(keccak, g, limit), row)
      <==> SpecMeaning(keccak, g.handler.spec, Elements(g.addresses), limit, row)
  {
    match g.handler.spec
    case CallSpec(filter) =>
      CallEntryMeaning(keccak, filter, g.addresses, limit, row);
      assert GroupEntry(keccak, g, limit)[0] == CallEntry(keccak, filter, g.addresses, limit);
    case EventSpec(filter) =>
      EventEntryMeaning(keccak, filter, g.addresses, limit, row);
      assert GroupEntry(keccak, g, limit)[0] == EventEntry(keccak, filter, g.addresses, limit);
    case _ =>
  }

  lemma AnyDenotesJoin(xs: seq<Entry>, ys: seq<Entry>, row: Row)
    requires |ys| <= 1
    ensures AnyDenotes(xs + ys, row) <==> AnyDenotes(xs, row) || AnyDenotes(ys, row)
  {
    if ys == [] {
      assert xs + ys == xs;
    } else {
      assert ys == [ys[0]];
      AnyDenotesAppend(xs, ys[0], row);
    }
  }

  ghost predicate GroupMeaning(keccak: Keccak, g: Group, limit: int, row: Row) {
    SpecMeaning(keccak, g.handler.spec, Elements(g.addresses), limit, row)
  }

  ghost predicate AnyGroupMeaning(keccak: Keccak, groups: seq<Group>, limit: int, row: Row) {
    exists g :: 0 <= g < |groups| && GroupMeaning(keccak, groups[g], limit, row)
  }

  lemma AnyGroupMeaningLast(keccak: Keccak, groups: seq<Group>, limit: int, row: Row)
    requires groups != []
    ensures var last := |groups| - 1;
      AnyGroupMeaning(keccak, groups, limit, row)
      <==> AnyGroupMeaning(keccak, groups[..last], limit, row) || GroupMeaning(keccak, groups[last], limit, row)
  {
    var last := |groups| - 1;
    if AnyGroupMeaning(keccak, groups[..last], limit, row) {
      var g :| 0 <= g < last && GroupMeaning(keccak, groups[..last][g], limit, row);
      assert GroupMeaning(keccak, groups[g], limit, row);
    }
    if AnyGroupMeaning(keccak, groups, limit, row) && !GroupMeaning(keccak, groups[last], limit, row) {
      var g :| 0 <= g < |groups| && GroupMeaning(keccak, groups[g], limit, row);
      assert groups[..last][g] == groups[g];
    }
  }

  lemma {:induction false} GroupEntriesMeaning(keccak: Keccak, groups: seq<Group>, limit: int, row: Row)
    requires forall g :: 0 <= g < |groups| ==> Distinct(groups[g].addresses)
    ensures AnyDenotes(GroupEntries(keccak, groups, limit), row) <==> AnyGroupMeaning(keccak, groups, limit, row)
  {
    if groups != [] {
      var last := |groups| - 1;
      GroupEntriesMeaning(keccak, groups[..last], limit, row);
      GroupEntryMeaning(keccak, groups[last], limit, row);
      AnyDenotesJoin(GroupEntries(keccak, groups[..last], limit), GroupEntry(keccak, groups[last], limit), row);
      AnyGroupMeaningLast(keccak, groups, limit, row);
    }
  }

  ghost predicate NoneQueryable(groups: seq<Group>) {
    forall g :: 0 <= g < |groups| ==> !Queryable(groups[g].handler.spec)
  }

  lemma NoneQueryableLast(groups: seq<Group>)
    requires groups != []
    ensures var last := |groups| - 1;
      NoneQueryable(groups) <==> NoneQueryable(groups[..last]) && !Queryable(groups[last].handler.spec)
  {
    var last := |groups| - 1;
    forall g | 0 <= g < last
      ensures groups[..last][g] == groups[g]
    {
    }
    if NoneQueryable(groups[..last]) && !Queryable(groups[last].handler.spec) {
      forall g | 0 <= g < |groups|
        ensures !Queryable(groups[g].handler.spec)
      {
        assert g < last ==> groups[..last][g] == groups[g];
      }
    }
  }

  lemma NoEntryIff(keccak: Keccak, g: Group, limit: int)
    ensures GroupEntry(keccak, g, limit) == [] <==> !Queryable(g.handler.spec)
  {
  }

  lemma {:induction false} NoEntriesIff(keccak: Keccak, groups: seq<Group>, limit: int)
    ensures GroupEntries(keccak, groups, limit) == [] <==> NoneQueryable(groups)
  {
    if groups != [] {
      var last := |groups| - 1;
      NoEntriesIff(keccak, groups[..last], limit);
      NoEntryIff(keccak, groups[last], limit);
      NoneQueryableLast(groups);
    }
  }

  ghost predicate Asked(demand: Demand, spec: Spec) {
    exists p :: p in demand && p.1 == spec
  }

  ghost predicate Grouped(groups: seq<Group>, spec: Spec) {
    exists g :: 0 <= g < |groups| && groups[g].handler.spec == spec
  }

  /** A specification has a group exactly when some datasource asks for it. */
  lemma GroupedIffAsked(groups: seq<Group>, demand: Demand, spec: Spec)
    requires GroupsRepresent(groups, demand)
    ensures Grouped(groups, spec) <==> Asked(demand, spec)
  {
    if Grouped(groups, spec) {
      var g :| 0 <= g < |groups| && groups[g].handler.spec == spec;
      assert groups[g].addresses[0] in Elements(groups[g].addresses);
      assert groups[g].addresses[0] in AddressesFor(demand, spec);
    }
    if Asked(demand, spec) {
      var p :| p in demand && p.1 == spec;
      var g :| 0 <= g < |groups| && groups[g].handler.spec == p.1;
    }
  }

  lemma ScanSide(groups: seq<Group>, demand: Demand)
    requires GroupsRepresent(groups, demand)
    ensures AnyNeedsScan(groups) <==> exists p :: p in demand && DemandScans(demand, p.1)
  {
    if g :| 0 <= g < |groups| && NeedsScan(groups[g]) {
      NeedsScanMeaning(groups[g]);
      GroupedIffAsked(groups, demand, groups[g].handler.spec);
      var p :| p in demand && p.1 == groups[g].handler.spec;
      assert DemandScans(demand, p.1);
    }
    if p :| p in demand && DemandScans(demand, p.1) {
      GroupedIffAsked(groups, demand, p.1);
      var g :| 0 <= g < |groups| && groups[g].handler.spec == p.1;
      NeedsScanMeaning(groups[g]);
      assert NeedsScan(groups[g]);
    }
  }

  lemma MeaningSide(keccak: Keccak, groups: seq<Group>, demand: Demand, limit: int, row: Row)
    requires GroupsRepresent(groups, demand)
    ensures AnyGroupMeaning(keccak, groups, limit, row)
      <==> exists p :: p in demand && DemandMeaning(keccak, demand, p.1, limit, row)
  {
    if AnyGroupMeaning(keccak, groups, limit, row) {
      var g :| 0 <= g < |groups| && GroupMeaning(keccak, groups[g], limit, row);
      GroupedIffAsked(groups, demand, groups[g].handler.spec);
      var p :| p in demand && p.1 == groups[g].handler.spec;
      assert DemandMeaning(keccak, demand, p.1, limit, row);
    }
    if p :| p in demand && DemandMeaning(keccak, demand, p.1, limit, row) {
      GroupedIffAsked(groups, demand, p.1);
      var g :| 0 <= g < |groups| && groups[g].handler.spec == p.1;
      assert GroupMeaning(keccak, groups[g], limit, row);
    }
  }

  lemma QueryableSide(groups: seq<Group>, demand: Demand)
    requires GroupsRepresent(groups, demand)
    ensures NoneQueryable(groups)
      <==> forall p :: p in demand ==> !Queryable(p.1)
  {
    if g :| 0 <= g < |groups| && Queryable(groups[g].handler.spec) {
      GroupedIffAsked(groups, demand, groups[g].handler.spec);
      var p :| p in demand && p.1 == groups[g].handler.spec;
    }
    if p :| p in demand && Queryable(p.1) {
      GroupedIffAsked(groups, demand, p.1);
      var g :| 0 <= g < |groups| && groups[g].handler.spec == p.1;
    }
  }

  /** The compiled list selects exactly the rows its demand fetches. */
  lemma CompiledMeaning(keccak: Keccak, dataSources: seq<DataSource>, limit: int, row: Row)
    ensures Covers(BuildEntries(keccak, dataSources, limit), row)
      <==> Fetches(keccak, DemandOf(dataSources), limit, row)
  {
    var groups, demand := GroupedDataSources(dataSources), DemandOf(dataSources);
    GroupingRepresents(dataSources);
    ScanSide(groups, demand);
    GroupEntriesMeaning(keccak, groups, limit, row);
    MeaningSide(keccak, groups, demand, limit, row);
    NoEntriesIff(keccak, groups, limit);
    QueryableSide(groups, demand);
    UniqKeepsDenotation(GroupEntries(keccak, groups, limit), row);
  }

  /** No query can serve this specification at these addresses, all of which are absent or empty. */
  ghost predicate Unservable(spec: Spec, addresses: AddressSet) {
    match spec
    case BlockSpec(filter) => filter == None || filter.value.modulo == None
    case CallSpec(filter) =>
      && (filter == None || filter == Some(TxFilter(None, Undefined, Undefined, None)))
      && forall a :: a in addresses ==> a == None || a == Some(Blank)
    case EventSpec(filter) =>
      && (filter == None || filter.value.topics == None || filter.value.topics == Some([]))
      && forall a :: a in addresses ==> a == None || a == Some(Blank)
    case CustomSpec(_, _) => false
  }

  lemma ScansIff(spec: Spec, addresses: AddressSet)
    ensures Scans(spec, addresses) <==> Unservable(spec, addresses)
  {
  }

  /** Everything is scanned exactly when one specification cannot be served, or none asks for calls or logs. */
  lemma FullScanIff(keccak: Keccak, dataSources: seq<DataSource>, limit: int)
    ensures var demand := DemandOf(dataSources);
      BuildEntries(keccak, dataSources, limit) == []
      <==> (exists p :: p in demand && Unservable(p.1, AddressesFor(demand, p.1)))
           || (forall p :: p in demand ==> !p.1.CallSpec? && !p.1.EventSpec?)
  {
    var groups, demand := GroupedDataSources(dataSources), DemandOf(dataSources);
    GroupingRepresents(dataSources);
    ScanSide(groups, demand);
    NoEntriesIff(keccak, groups, limit);
    QueryableSide(groups, demand);
    UniqKeepsDenotation(GroupEntries(keccak, groups, limit), LogRow(Blank, []));
    forall p | p in demand
      ensures DemandScans(demand, p.1) <==> Unservable(p.1, AddressesFor(demand, p.1))
    {
      ScansIff(p.1, AddressesFor(demand, p.1));
    }
  }

  // ---- the compiled list itself ----

  /** The query for one specification, at the addresses it is asked for in some order. */
  ghost predicate EntryAt(keccak: Keccak, e: Entry, spec: Spec, addresses: seq<Option<Text>>, limit: int) {
    match spec
    case CallSpec(filter) => e == CallEntry(keccak, filter, addresses, limit)
    case EventSpec(filter) => e == EventEntry(keccak, filter, addresses, limit)
    case _ => false
  }

  ghost predicate EntryFor(keccak: Keccak, e: Entry, demand: Demand, spec: Spec, limit: int) {
    exists addresses ::
      && Distinct(addresses) && Elements(addresses) == AddressesFor(demand, spec)
      && EntryAt(keccak, e, spec, addresses, limit)
  }

  ghost predicate EntryOfGroup(keccak: Keccak, e: Entry, g: Group, limit: int) {
    EntryAt(keccak, e, g.handler.spec, g.addresses, limit)
  }

  ghost predicate EntryOfAny(keccak: Keccak, e: Entry, groups: seq<Group>, limit: int) {
    exists g :: 0 <= g < |groups| && EntryOfGroup(keccak, e, groups[g], limit)
  }

  lemma EntryOfAnyLast(keccak: Keccak, e: Entry, groups: seq<Group>, limit: int)
    requires groups != []
    ensures var last := |groups| - 1;
      EntryOfAny(keccak, e, groups, limit)
      <==> EntryOfAny(keccak, e, groups[..last], limit) || EntryOfGroup(keccak, e, groups[last], limit)
  {
    var last := |groups| - 1;
    if EntryOfAny(keccak, e, groups[..last], limit) {
      var g :| 0 <= g < last && EntryOfGroup(keccak, e, groups[..last][g], limit);
      assert EntryOfGroup(keccak, e, groups[g], limit);
    }
    if EntryOfAny(keccak, e, groups, limit) && !EntryOfGroup(keccak, e, groups[last], limit) {
      var g :| 0 <= g < |groups| && EntryOfGroup(keccak, e, groups[g], limit);
      assert groups[..last][g] == groups[g];
    }
  }

  lemma OneGroupsEntry(keccak: Keccak, e: Entry, g: Group, limit: int)
    ensures e in GroupEntry(keccak, g, limit) <==> EntryOfGroup(keccak, e, g, limit)
  {
  }

  lemma {:induction false} EntryOfSomeGroup(keccak: Keccak, groups: seq<Group>, limit: int, e: Entry)
    ensures e in GroupEntries(keccak, groups, limit) <==> EntryOfAny(keccak, e, groups, limit)
  {
    if groups != [] {
      var last := |groups| - 1;
      EntryOfSomeGroup(keccak, groups[..last], limit, e);
      OneGroupsEntry(keccak, e, groups[last], limit);
      EntryOfAnyLast(keccak, e, groups, limit);
    }
  }

  ghost predicate Demanded(keccak: Keccak, e: Entry, demand: Demand, limit: int) {
    exists p :: p in demand && EntryFor(keccak, e, demand, p.1, limit)
  }

  /** Some query for this specification is in the list, or a duplicate of one. */
  ghost predicate Served(keccak: Keccak, entries: seq<Entry>, demand: Demand, spec: Spec, limit: int) {
    exists e :: EntryFor(keccak, e, demand, spec, limit) && KeySeen(entries, e)
  }

  lemma EntryOfSomeDemand(keccak: Keccak, groups: seq<Group>, demand: Demand, limit: int, e: Entry)
    requires GroupsRepresent(groups, demand) && e in GroupEntries(keccak, groups, limit)
    ensures Demanded(keccak, e, demand, limit)
  {
    EntryOfSomeGroup(keccak, groups, limit, e);
    var g :| 0 <= g < |groups| && EntryOfGroup(keccak, e, groups[g], limit);
    GroupedIffAsked(groups, demand, groups[g].handler.spec);
    var p :| p in demand && p.1 == groups[g].handler.spec;
    assert EntryFor(keccak, e, demand, p.1, limit);
  }

  lemma DemandIsServed(keccak: Keccak, groups: seq<Group>, demand: Demand, limit: int, spec: Spec)
    requires GroupsRepresent(groups, demand) && Asked(demand, spec) && Queryable(spec)
    ensures Served(keccak, GroupEntries(keccak, groups, limit), demand, spec, limit)
  {
    GroupedIffAsked(groups, demand, spec);
    var g :| 0 <= g < |groups| && groups[g].handler.spec == spec;
    var all, e := GroupEntries(keccak, groups, limit), GroupEntry(keccak, groups[g], limit)[0];
    OneGroupsEntry(keccak, e, groups[g], limit);
    EntryOfSomeGroup(keccak, groups, limit, e);
    var i :| 0 <= i < |all| && all[i] == e;
    assert SameKey(all[i], e);
    assert EntryFor(keccak, e, demand, spec, limit);
  }

  lemma UniqServes(keccak: Keccak, all: seq<Entry>, demand: Demand, spec: Spec, limit: int)
    requires Served(keccak, all, demand, spec, limit)
    ensures Served(keccak, UniqByKey(all), demand, spec, limit)
  {
    var e :| EntryFor(keccak, e, demand, spec, limit) && KeySeen(all, e);
    KeysAreKept(all, e);
  }

  /**
   * Unless everything is scanned, the compiled list holds queries for what is asked for, one for
   * every specification on calls or logs, and no two that are duplicates.
   */
  lemma CompiledList(keccak: Keccak, dataSources: seq<DataSource>, limit: int)
    requires BuildEntries(keccak, dataSources, limit) != []
    ensures var demand, entries := DemandOf(dataSources), BuildEntries(keccak, dataSources, limit);
      && (forall e :: e in entries ==> Demanded(keccak, e, demand, limit))
      && (forall p :: p in demand && Queryable(p.1) ==> Served(keccak, entries, demand, p.1, limit))
      && (forall i, j :: 0 <= i < j < |entries| ==> !SameKey(entries[i], entries[j]))
  {
    var groups, demand := GroupedDataSources(dataSources), DemandOf(dataSources);
    var all := GroupEntries(keccak, groups, limit);
    GroupingRepresents(dataSources);
    forall e | e in UniqByKey(all)
      ensures Demanded(keccak, e, demand, limit)
    {
      UniqKeepsFirsts(all, e);
      EntryOfSomeDemand(keccak, groups, demand, limit, e);
    }
    forall p | p in demand && Queryable(p.1)
      ensures Served(keccak, UniqByKey(all), demand, p.1, limit)
    {
      DemandIsServed(keccak, groups, demand, limit, p.1);
      UniqServes(keccak, all, demand, p.1, limit);
    }
    forall i, j | 0 <= i < j < |UniqByKey(all)|
      ensures !SameKey(UniqByKey(all)[i], UniqByKey(all)[j])
    {
      KeptKeysDiffer(all, i, j);
    }
  }

  /** Reordering or repeating datasources and handlers never changes what is fetched. */
  lemma OrderIsIrrelevant(keccak: Keccak, xs: seq<DataSource>, ys: seq<DataSource>, limit: int, row: Row)
    requires DemandOf(xs) == DemandOf(ys)
    ensures Covers(BuildEntries(keccak, xs, limit), row) <==> Covers(BuildEntries(keccak, ys, limit), row)
  {
    CompiledMeaning(keccak, xs, limit, row);
    CompiledMeaning(keccak, ys, limit, row);
  }

  ghost predicate SameSource(a: DataSource, b: DataSource) {
    a.address == b.address && multiset(a.handlers) == multiset(b.handlers)
  }

  ghost predicate Occurs(d: DataSource, xs: seq<DataSource>) {
    exists k :: 0 <= k < |xs| && SameSource(d, xs[k])
  }

  /** The same datasources up to the order of the list and of the handlers inside each. */
  ghost predicate Rearranged(xs: seq<DataSource>, ys: seq<DataSource>) {
    (forall d :: d in xs ==> Occurs(d, ys)) && (forall d :: d in ys ==> Occurs(d, xs))
  }

  lemma RearrangedDemand(xs: seq<DataSource>, ys: seq<DataSource>)
    requires forall d :: d in xs ==> Occurs(d, ys)
    ensures DemandOf(xs) <= DemandOf(ys)
  {
    forall p | p in DemandOf(xs)
      ensures p in DemandOf(ys)
    {
      var i, j :| 0 <= i < |xs| && 0 <= j < |xs[i].handlers|
        && p == (xs[i].address, xs[i].handlers[j].spec);
      assert Occurs(xs[i], ys);
      var k :| 0 <= k < |ys| && SameSource(xs[i], ys[k]);
      assert xs[i].handlers[j] in multiset(ys[k].handlers);
      var m :| 0 <= m < |ys[k].handlers| && ys[k].handlers[m] == xs[i].handlers[j];
      assert p == (ys[k].address, ys[k].handlers[m].spec);
    }
  }

  lemma PermutationIsIrrelevant(keccak: Keccak, xs: seq<DataSource>, ys: seq<DataSource>, limit: int, row: Row)
    requires Rearranged(xs, ys)
    ensures Covers(BuildEntries(keccak, xs, limit), row) <==> Covers(BuildEntries(keccak, ys, limit), row)
  {
    RearrangedDemand(xs, ys);
    RearrangedDemand(ys, xs);
    OrderIsIrrelevant(keccak, xs, ys, limit, row);
  }
}
