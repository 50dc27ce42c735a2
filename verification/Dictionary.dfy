/** Compiling datasources into dictionary queries. */
module Dictionary {
  import opened Wrappers
  import opened Texts
  import opened Filters
  import opened Queries
  import opened DataSources

  // ---- the conditions, as values ----

  function LowerAll(texts: seq<Text>): seq<Text> {
    seq(|texts|, i requires 0 <= i < |texts| => Lower(texts[i]))
  }

  /** No condition if the list is empty or over the limit, or if any address is absent. */
  function AddressConditions(addresses: seq<Option<Text>>, limit: int): seq<Condition> {
    if addresses == [] || |addresses| > limit || exists i :: 0 <= i < |addresses| && !Truthy(addresses[i]) then []
    else if |addresses| == 1 then [Condition(Address, One(Lower(addresses[0].value)), EqualTo)]
    else [Condition(Address, Many(LowerAll(ValidAddresses(addresses))), In)]
  }

  /** The non-null topics, hashed unless they are hex. */
  function HexTopics(keccak: Keccak, topics: seq<Option<Text>>): seq<Text> {
    if topics == [] then []
    else HexTopics(keccak, topics[..|topics| - 1])
         + match topics[|topics| - 1]
           case None => []
           case Some(t) => [if IsHex(t) then t else SelectorHex(keccak, t)]
  }

  function EventEntry(keccak: Keccak, filter: Option<LogFilter>, addresses: seq<Option<Text>>, limit: int): Entry {
    Entry(Logs,
          AddressConditions(addresses, limit)
          + if filter.Some? && filter.value.topics.Some?
            then [Condition(Topics, Many(HexTopics(keccak, filter.value.topics.value)), Contains)]
            else [])
  }

  function AsTarget(c: Condition): Condition {
    if c.field.Address? then c.(field := To) else c
  }

  function TargetConditions(addresses: seq<Option<Text>>, limit: int): seq<Condition> {
    var cs := AddressConditions(addresses, limit);
    seq(|cs|, i requires 0 <= i < |cs| => AsTarget(cs[i]))
  }

  function FromConditions(f: TxFilter): seq<Condition> {
    if Truthy(f.from) then [Condition(From, One(Lower(f.from.value)), EqualTo)] else []
  }

  function TypeConditions(f: TxFilter): seq<Condition> {
    if f.txType.Some? then [Condition(Type, OfType(f.txType.value), EqualTo)] else []
  }

  /** `filter.to`, which is asked for only where the addresses ask for nothing. */
  function ToConditions(f: TxFilter): seq<Condition> {
    if TruthyField(f.to) then [Condition(To, One(Lower(f.to.text)), EqualTo)]
    else if f.to.Null? then [Condition(To, IsTrue, IsNull)]
    else []
  }

  function FuncConditions(keccak: Keccak, f: TxFilter): seq<Condition> {
    if f.func.Null? || f.func == Given(Bare0x) then [Condition(Func, IsTrue, IsNull)]
    else if TruthyField(f.func) then
      [Condition(Func, One(if IsHex(f.func.text) then f.func.text else SelectorHex(keccak, f.func.text)), EqualTo)]
    else []
  }

  function CallEntry(keccak: Keccak, filter: Option<TxFilter>, addresses: seq<Option<Text>>, limit: int): Entry {
    var target := TargetConditions(addresses, limit);
    if filter.None? then Entry(Calls, target)
    else
      var f := filter.value;
      Entry(Calls,
            target + FromConditions(f) + TypeConditions(f)
            + (if target == [] then ToConditions(f) else [])
            + FuncConditions(keccak, f))
  }

  // ---- the same, step by step on a shared list ----

  class ConditionList {
    var items: seq<Condition>

    constructor ()
      ensures items == []
    {
      items := [];
    }

    method Push(c: Condition)
      modifies this
      ensures items == old(items) + [c]
    {
      items := items + [c];
    }
  }

  lemma {:induction false} AllTruthyAreValid(addresses: seq<Option<Text>>)
    requires forall i :: 0 <= i < |addresses| ==> Truthy(addresses[i])
    ensures |ValidAddresses(addresses)| == |addresses|
    ensures forall i :: 0 <= i < |addresses| ==> Some(ValidAddresses(addresses)[i]) == addresses[i]
  {
    if addresses != [] {
      AllTruthyAreValid(addresses[..|addresses| - 1]);
    }
  }

  method ApplyAddresses(conditions: ConditionList, addresses: seq<Option<Text>>, limit: int)
    modifies conditions
    ensures conditions.items == old(conditions.items) + AddressConditions(addresses, limit)
  {
    if addresses == [] || |addresses| > limit
       || exists i :: 0 <= i < |addresses| && !Truthy(addresses[i])
    {
      assert AddressConditions(addresses, limit) == [];
      return;
    }
    AllTruthyAreValid(addresses);
    var filterAddresses := LowerAll(ValidAddresses(addresses));
    if |addresses| == 1 {
      conditions.Push(Condition(Address, One(filterAddresses[0]), EqualTo));
    } else {
      conditions.Push(Condition(Address, Many(filterAddresses), In));
    }
  }

  method EventFilterToQueryEntry(keccak: Keccak, filter: Option<LogFilter>, addresses: seq<Option<Text>>, limit: int)
    returns (e: Entry)
    ensures e == EventEntry(keccak, filter, addresses, limit)
  {
    var conditions := new ConditionList();
    ApplyAddresses(conditions, addresses, limit);
    if filter.Some? && filter.value.topics.Some? {
      conditions.Push(Condition(Topics, Many(HexTopics(keccak, filter.value.topics.value)), Contains));
    }
    e := Entry(Logs, conditions.items);
  }

  /** Every condition on the address becomes one on the target, in place. */
  method RenameAddresses(conditions: ConditionList)
    modifies conditions
    ensures |conditions.items| == |old(conditions.items)|
    ensures forall i :: 0 <= i < |conditions.items| ==> conditions.items[i] == AsTarget(old(conditions.items)[i])
  {
    var i := 0;
    while i < |conditions.items|
      invariant i <= |conditions.items| == |old(conditions.items)|
      invariant forall k :: 0 <= k < i ==> conditions.items[k] == AsTarget(old(conditions.items)[k])
      invariant forall k :: i <= k < |conditions.items| ==> conditions.items[k] == old(conditions.items)[k]
    {
      if conditions.items[i].field == Address {
        conditions.items := conditions.items[i := conditions.items[i].(field := To)];
      }
      i := i + 1;
    }
  }

  method CallFilterToQueryEntry(keccak: Keccak, filter: Option<TxFilter>, addresses: seq<Option<Text>>, limit: int)
    returns (e: Entry)
    ensures e == CallEntry(keccak, filter, addresses, limit)
  {
    var conditions := new ConditionList();
    ApplyAddresses(conditions, addresses, limit);
    RenameAddresses(conditions);
    ghost var c0 := conditions.items;
    assert c0 == TargetConditions(addresses, limit);
    if filter.None? {
      return Entry(Calls, conditions.items);
    }
    var f := filter.value;
    if Truthy(f.from) {
      conditions.Push(Condition(From, One(Lower(f.from.value)), EqualTo));
    }
    ghost var c1 := conditions.items;
    assert c1 == c0 + FromConditions(f);
    if f.txType.Some? {
      conditions.Push(Condition(Type, OfType(f.txType.value), EqualTo));
    }
    ghost var c2 := conditions.items;
    assert c2 == c1 + TypeConditions(f);
    OnlyAddressesAskForTarget(f, addresses, limit);
    var optionsAddresses := exists c :: c in conditions.items && c.field == To;
    if !optionsAddresses {
      PushTo(conditions, f);
    }
    ghost var c3 := conditions.items;
    assert c3 == c2 + if c0 == [] then ToConditions(f) else [];
    if f.func == Null || f.func == Given(Bare0x) {
      conditions.Push(Condition(Func, IsTrue, IsNull));
    } else if TruthyField(f.func) {
      conditions.Push(Condition(Func, One(if IsHex(f.func.text) then f.func.text
                                          else SelectorHex(keccak, f.func.text)), EqualTo));
    }
    assert conditions.items == c3 + FuncConditions(keccak, f);
    e := Entry(Calls, conditions.items);
  }

  method PushTo(conditions: ConditionList, f: TxFilter)
    modifies conditions
    ensures conditions.items == old(conditions.items) + ToConditions(f)
  {
    if TruthyField(f.to) {
      conditions.Push(Condition(To, One(Lower(f.to.text)), EqualTo));
    } else if f.to == Null {
      conditions.Push(Condition(To, IsTrue, IsNull));
    }
  }

  /** Before `filter.to` is looked at, a condition on the target can only come from the addresses. */
  lemma OnlyAddressesAskForTarget(f: TxFilter, addresses: seq<Option<Text>>, limit: int)
    ensures var cs := TargetConditions(addresses, limit) + FromConditions(f) + TypeConditions(f);
      (exists c :: c in cs && c.field == To) <==> TargetConditions(addresses, limit) != []
  {
    var target := TargetConditions(addresses, limit);
    var cs := target + FromConditions(f) + TypeConditions(f);
    if target != [] {
      assert target[0] in cs && target[0].field == To;
    }
  }

  // ---- the whole compilation ----

  predicate AnyDefined(f: TxFilter) {
    f.from.Some? || !f.to.Undefined? || !f.func.Undefined? || f.txType.Some?
  }

  predicate HasTopics(filter: Option<LogFilter>) {
    filter.Some? && filter.value.topics.Some? && filter.value.topics.value != []
  }

  predicate WithoutFilter(spec: Spec) {
    match spec
    case BlockSpec(filter) => filter.None?
    case CallSpec(filter) => filter.None?
    case EventSpec(filter) => filter.None?
    case CustomSpec(_, filter) => filter.None?
  }

  /** A group that no query can serve: everything has to be scanned. */
  predicate NeedsScan(g: Group) {
    (WithoutFilter(g.handler.spec) && g.addresses == []) || KindNeedsScan(g)
  }

  predicate KindNeedsScan(g: Group) {
    match g.handler.spec
    case BlockSpec(filter) => filter.None? || filter.value.modulo.None?
    case CallSpec(filter) => (filter.None? || !AnyDefined(filter.value)) && ValidAddresses(g.addresses) == []
    case EventSpec(filter) => !HasTopics(filter) && ValidAddresses(g.addresses) == []
    case CustomSpec(_, _) => false
  }

  /** The entry of one group, if its kind has any. */
  function GroupEntry(keccak: Keccak, g: Group, limit: int): seq<Entry> {
    match g.handler.spec
    case CallSpec(filter) => [CallEntry(keccak, filter, g.addresses, limit)]
    case EventSpec(filter) => [EventEntry(keccak, filter, g.addresses, limit)]
    case _ => []
  }

  function GroupEntries(keccak: Keccak, groups: seq<Group>, limit: int): seq<Entry> {
    if groups == [] then []
    else GroupEntries(keccak, groups[..|groups| - 1], limit) + GroupEntry(keccak, groups[|groups| - 1], limit)
  }

  lemma GroupEntriesStep(keccak: Keccak, groups: seq<Group>, i: nat, limit: int)
    requires i < |groups|
    ensures GroupEntries(keccak, groups[..i + 1], limit)
         == GroupEntries(keccak, groups[..i], limit) + GroupEntry(keccak, groups[i], limit)
  {
    assert groups[..i + 1][..i] == groups[..i];
  }

  predicate AnyNeedsScan(groups: seq<Group>) {
    exists g :: 0 <= g < |groups| && NeedsScan(groups[g])
  }

  /** One group that needs a scan empties the whole list, wherever it stands. */
  function BuildEntries(keccak: Keccak, dataSources: seq<DataSource>, limit: int): seq<Entry> {
    EntriesOfGroups(keccak, GroupedDataSources(dataSources), limit)
  }

  function EntriesOfGroups(keccak: Keccak, groups: seq<Group>, limit: int): seq<Entry> {
    if AnyNeedsScan(groups) then [] else UniqByKey(GroupEntries(keccak, groups, limit))
  }

  /** The switch over the kinds of handler: either everything must be scanned, or the group's entry. */
  method CompileGroup(keccak: Keccak, g: Group, limit: int) returns (scan: bool, entries: seq<Entry>)
    ensures scan == NeedsScan(g)
    ensures !scan ==> entries == GroupEntry(keccak, g, limit)
  {
    var addresses := g.addresses;
    if WithoutFilter(g.handler.spec) && addresses == [] {
      return true, [];
    }
    match g.handler.spec {
      case BlockSpec(filter) =>
        if filter.None? || filter.value.modulo.None? {
          return true, [];
        }
        return false, [];
      case CallSpec(filter) =>
        if (filter.None? || !AnyDefined(filter.value)) && ValidAddresses(addresses) == [] {
          return true, [];
        }
        var e := CallFilterToQueryEntry(keccak, filter, addresses, limit);
        return false, [e];
      case EventSpec(filter) =>
        if !HasTopics(filter) && ValidAddresses(addresses) == [] {
          return true, [];
        }
        var e := EventFilterToQueryEntry(keccak, filter, addresses, limit);
        return false, [e];
      case CustomSpec(_, _) =>
        return false, [];
    }
  }

  /** The loop's invariant: the first i groups need no scan, and these are their entries. */
  ghost predicate CompiledUpTo(keccak: Keccak, groups: seq<Group>, i: nat, limit: int, entries: seq<Entry>)
    requires i <= |groups|
  {
    !AnyNeedsScan(groups[..i]) && entries == GroupEntries(keccak, groups[..i], limit)
  }

  lemma CompileOneMore(keccak: Keccak, groups: seq<Group>, i: nat, limit: int, entries: seq<Entry>)
    requires i < |groups| && CompiledUpTo(keccak, groups, i, limit, entries)
    ensures if NeedsScan(groups[i]) then AnyNeedsScan(groups)
      else CompiledUpTo(keccak, groups, i + 1, limit, entries + GroupEntry(keccak, groups[i], limit))
  {
    GroupEntriesStep(keccak, groups, i, limit);
    assert groups[..i + 1] == groups[..i] + [groups[i]];
  }

  /** One turn of the loop. */
  method AddGroup(keccak: Keccak, groups: seq<Group>, i: nat, limit: int, entries: seq<Entry>)
    returns (scan: bool, more: seq<Entry>)
    requires i < |groups| && CompiledUpTo(keccak, groups, i, limit, entries)
    ensures scan ==> AnyNeedsScan(groups)
    ensures !scan ==> CompiledUpTo(keccak, groups, i + 1, limit, more)
  {
    CompileOneMore(keccak, groups, i, limit, entries);
    var own: seq<Entry>;
    scan, own := CompileGroup(keccak, groups[i], limit);
    more := entries + own;
  }

  method BuildDictionaryV1QueryEntries(keccak: Keccak, dataSources: seq<DataSource>, limit: int)
    returns (entries: seq<Entry>)
    ensures entries == BuildEntries(keccak, dataSources, limit)
  {
    var queryEntries: seq<Entry> := [];
    var groups := GroupedDataSources(dataSources);
    var i := 0;
    while i < |groups|
      invariant i <= |groups| && CompiledUpTo(keccak, groups, i, limit, queryEntries)
    {
      var scan, more := AddGroup(keccak, groups, i, limit, queryEntries);
      if scan {
        return [];
      }
      queryEntries := more;
      i := i + 1;
    }
    assert groups[..|groups|] == groups;
    return UniqByKey(queryEntries);
  }
}
