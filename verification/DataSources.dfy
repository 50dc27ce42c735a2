/** Datasources, and how their handlers are grouped before queries are compiled. */
module DataSources {
  import opened Wrappers
  import opened Texts
  import opened Filters

  datatype BlockFilter = BlockFilter(modulo: Option<int>, timestamp: Option<string>)

  /** The kind of a handler together with its filter: what handlers are grouped by. */
  datatype Spec =
    | BlockSpec(block: Option<BlockFilter>)
    | CallSpec(call: Option<TxFilter>)
    | EventSpec(event: Option<LogFilter>)
    | CustomSpec(kind: string, custom: Option<string>)

  datatype Handler = Handler(name: string, spec: Spec)

  datatype DataSource = DataSource(address: Option<Text>, handlers: seq<Handler>)

  type Addressed = (Option<Text>, Handler)

  function WithAddress(address: Option<Text>, handlers: seq<Handler>): seq<Addressed> {
    seq(|handlers|, i requires 0 <= i < |handlers| => (address, handlers[i]))
  }

  /** Every handler with the address of its datasource. */
  function Flatten(dataSources: seq<DataSource>): seq<Addressed> {
    if dataSources == [] then []
    else Flatten(dataSources[..|dataSources| - 1])
         + WithAddress(dataSources[|dataSources| - 1].address, dataSources[|dataSources| - 1].handlers)
  }

  datatype Group = Group(handler: Handler, addresses: seq<Option<Text>>)

  /** Adding to a `Set`: nothing happens to an element that is there. */
  function AddAddress(addresses: seq<Option<Text>>, a: Option<Text>): seq<Option<Text>> {
    if a in addresses then addresses else addresses + [a]
  }

  function AddToGroups(groups: seq<Group>, a: Option<Text>, h: Handler): seq<Group> {
    if groups == [] then [Group(h, [a])]
    else if groups[0].handler.spec == h.spec
    then [groups[0].(addresses := AddAddress(groups[0].addresses, a))] + groups[1..]
    else [groups[0]] + AddToGroups(groups[1..], a, h)
  }

  function GroupAll(pairs: seq<Addressed>): seq<Group> {
    if pairs == [] then []
    else
      var last := pairs[|pairs| - 1];
      AddToGroups(GroupAll(pairs[..|pairs| - 1]), last.0, last.1)
  }

  /** The groups in order of first appearance, each with its distinct addresses. */
  function GroupedDataSources(dataSources: seq<DataSource>): seq<Group> {
    GroupAll(Flatten(dataSources))
  }

  /** `validAddresses` */
  function ValidAddresses(addresses: seq<Option<Text>>): seq<Text> {
    if addresses == [] then []
    else ValidAddresses(addresses[..|addresses| - 1])
         + if Truthy(addresses[|addresses| - 1]) then [addresses[|addresses| - 1].value] else []
  }

  // ---- what grouping keeps ----

  /** A project seen as a set: which specification is asked for at which address. */
  type Demand = set<(Option<Text>, Spec)>

  ghost function DemandOf(dataSources: seq<DataSource>): Demand {
    set i, j | 0 <= i < |dataSources| && 0 <= j < |dataSources[i].handlers| ::
      (dataSources[i].address, dataSources[i].handlers[j].spec)
  }

  ghost function Wanted(pairs: seq<Addressed>): Demand {
    set i | 0 <= i < |pairs| :: (pairs[i].0, pairs[i].1.spec)
  }

  /** The addresses a demand names for one specification. */
  ghost function AddressesFor(demand: Demand, spec: Spec): set<Option<Text>> {
    set p | p in demand && p.1 == spec :: p.0
  }

  ghost predicate Distinct<T>(xs: seq<T>) {
    forall i, j :: 0 <= i < j < |xs| ==> xs[i] != xs[j]
  }

  ghost function Elements<T>(xs: seq<T>): set<T> { set x | x in xs }

  lemma {:induction false} DistinctCount<T>(xs: seq<T>)
    requires Distinct(xs)
    ensures |Elements(xs)| == |xs|
  {
    if xs == [] {
      assert Elements(xs) == {};
    } else {
      var last := |xs| - 1;
      DistinctCount(xs[..last]);
      assert xs == xs[..last] + [xs[last]];
      assert Elements(xs) == Elements(xs[..last]) + {xs[last]};
    }
  }

  /** Every specification has one group, and that group lists its addresses once each. */
  ghost predicate GroupsRepresent(groups: seq<Group>, demand: Demand) {
    && (forall g :: 0 <= g < |groups| ==>
          && groups[g].addresses != [] && Distinct(groups[g].addresses)
          && Elements(groups[g].addresses) == AddressesFor(demand, groups[g].handler.spec))
    && (forall g, k :: 0 <= g < k < |groups| ==> groups[g].handler.spec != groups[k].handler.spec)
    && (forall p :: p in demand ==> exists g :: 0 <= g < |groups| && groups[g].handler.spec == p.1)
  }

  /** The addresses listed for one specification; empty if it has no group. */
  ghost function Listed(groups: seq<Group>, spec: Spec): seq<Option<Text>> {
    if groups == [] then []
    else if groups[0].handler.spec == spec then groups[0].addresses
    else Listed(groups[1..], spec)
  }

  ghost function SpecsOf(groups: seq<Group>): (specs: seq<Spec>)
    ensures |specs| == |groups|
    ensures forall g :: 0 <= g < |groups| ==> specs[g] == groups[g].handler.spec
  {
    if groups == [] then [] else [groups[0].handler.spec] + SpecsOf(groups[1..])
  }

  ghost predicate NoneEmpty(groups: seq<Group>) {
    forall g :: 0 <= g < |groups| ==> groups[g].addresses != []
  }

  lemma {:induction false} AddToGroupsLists(groups: seq<Group>, a: Option<Text>, h: Handler, spec: Spec)
    ensures Listed(AddToGroups(groups, a, h), spec)
         == if spec == h.spec then AddAddress(Listed(groups, spec), a) else Listed(groups, spec)
  {
    if groups != [] && groups[0].handler.spec != h.spec {
      AddToGroupsLists(groups[1..], a, h, spec);
    }
  }

  lemma {:induction false} AddToGroupsSpecs(groups: seq<Group>, a: Option<Text>, h: Handler)
    ensures SpecsOf(AddToGroups(groups, a, h))
         == if h.spec in SpecsOf(groups) then SpecsOf(groups) else SpecsOf(groups) + [h.spec]
  {
    if groups != [] && groups[0].handler.spec != h.spec {
      AddToGroupsSpecs(groups[1..], a, h);
      var rest := AddToGroups(groups[1..], a, h);
      assert ([groups[0]] + rest)[1..] == rest;
    }
  }

  lemma {:induction false} AddToGroupsFills(groups: seq<Group>, a: Option<Text>, h: Handler)
    requires NoneEmpty(groups)
    ensures NoneEmpty(AddToGroups(groups, a, h))
  {
    if groups != [] && groups[0].handler.spec != h.spec {
      AddToGroupsFills(groups[1..], a, h);
    }
  }

  lemma {:induction false} ListedAt(groups: seq<Group>, g: nat)
    requires g < |groups| && Distinct(SpecsOf(groups))
    ensures Listed(groups, groups[g].handler.spec) == groups[g].addresses
  {
    if g > 0 {
      assert SpecsOf(groups)[0] != SpecsOf(groups)[g];
      forall i, j | 0 <= i < j < |groups[1..]|
        ensures SpecsOf(groups[1..])[i] != SpecsOf(groups[1..])[j]
      {
        assert SpecsOf(groups)[i + 1] != SpecsOf(groups)[j + 1];
      }
      ListedAt(groups[1..], g - 1);
    }
  }

  lemma {:induction false} ListedHasGroup(groups: seq<Group>, spec: Spec) returns (g: nat)
    requires Listed(groups, spec) != []
    ensures g < |groups| && groups[g].handler.spec == spec
  {
    if groups[0].handler.spec == spec {
      g := 0;
    } else {
      g := ListedHasGroup(groups[1..], spec);
      g := g + 1;
    }
  }

  lemma AddAddressElements(addresses: seq<Option<Text>>, a: Option<Text>)
    requires Distinct(addresses)
    ensures Distinct(AddAddress(addresses, a))
    ensures Elements(AddAddress(addresses, a)) == Elements(addresses) + {a}
  {
  }

  lemma AddressesForMore(demand: Demand, a: Option<Text>, spec: Spec, s: Spec)
    ensures AddressesFor(demand + {(a, spec)}, s)
         == AddressesFor(demand, s) + if s == spec then {a} else {}
  {
    var more := demand + {(a, spec)};
    forall x | x in AddressesFor(demand, s) + if s == spec then {a} else {}
      ensures x in AddressesFor(more, s)
    {
      assert (x, s) in more;
    }
  }

  lemma {:induction false} GroupAllLists(pairs: seq<Addressed>, spec: Spec)
    ensures Distinct(Listed(GroupAll(pairs), spec))
    ensures Elements(Listed(GroupAll(pairs), spec)) == AddressesFor(Wanted(pairs), spec)
  {
    if pairs == [] {
      assert Wanted(pairs) == {};
    } else {
      var last := |pairs| - 1;
      var front, p := pairs[..last], pairs[last];
      GroupAllLists(front, spec);
      AddToGroupsLists(GroupAll(front), p.0, p.1, spec);
      AddAddressElements(Listed(GroupAll(front), spec), p.0);
      AddressesForMore(Wanted(front), p.0, p.1.spec, spec);
      WantedLast(pairs);
    }
  }

  lemma WantedLast(pairs: seq<Addressed>)
    requires pairs != []
    ensures var last := |pairs| - 1;
      Wanted(pairs) == Wanted(pairs[..last]) + {(pairs[last].0, pairs[last].1.spec)}
  {
    var last := |pairs| - 1;
    assert pairs == pairs[..last] + [pairs[last]];
    WantedConcat(pairs[..last], [pairs[last]]);
    assert Wanted([pairs[last]]) == {([pairs[last]][0].0, [pairs[last]][0].1.spec)};
  }

  lemma {:induction false} GroupAllSpecs(pairs: seq<Addressed>)
    ensures NoneEmpty(GroupAll(pairs)) && Distinct(SpecsOf(GroupAll(pairs)))
  {
    if pairs != [] {
      var last := pairs[|pairs| - 1];
      GroupAllSpecs(pairs[..|pairs| - 1]);
      AddToGroupsSpecs(GroupAll(pairs[..|pairs| - 1]), last.0, last.1);
      AddToGroupsFills(GroupAll(pairs[..|pairs| - 1]), last.0, last.1);
    }
  }

  lemma GroupAllRepresents(pairs: seq<Addressed>)
    ensures GroupsRepresent(GroupAll(pairs), Wanted(pairs))
  {
    var groups, demand := GroupAll(pairs), Wanted(pairs);
    GroupAllSpecs(pairs);
    forall g | 0 <= g < |groups|
      ensures Distinct(groups[g].addresses)
      ensures Elements(groups[g].addresses) == AddressesFor(demand, groups[g].handler.spec)
    {
      ListedAt(groups, g);
      GroupAllLists(pairs, groups[g].handler.spec);
    }
    forall g, k | 0 <= g < k < |groups|
      ensures groups[g].handler.spec != groups[k].handler.spec
    {
      assert SpecsOf(groups)[g] != SpecsOf(groups)[k];
    }
    forall p | p in demand
      ensures exists g :: 0 <= g < |groups| && groups[g].handler.spec == p.1
    {
      GroupAllLists(pairs, p.1);
      assert p.0 in AddressesFor(demand, p.1);
      assert p.0 in Elements(Listed(groups, p.1));
      var g := ListedHasGroup(groups, p.1);
    }
  }

  lemma {:induction false} FlattenKeepsDemand(dataSources: seq<DataSource>)
    ensures Wanted(Flatten(dataSources)) == DemandOf(dataSources)
  {
    if dataSources != [] {
      var last := |dataSources| - 1;
      var front, d := dataSources[..last], dataSources[last];
      FlattenKeepsDemand(front);
      var here := WithAddress(d.address, d.handlers);
      WantedConcat(Flatten(front), here);
      forall p | p in DemandOf(dataSources)
        ensures p in Wanted(Flatten(dataSources))
      {
        var i, j :| 0 <= i < |dataSources| && 0 <= j < |dataSources[i].handlers|
          && p == (dataSources[i].address, dataSources[i].handlers[j].spec);
        if i < last {
          assert front[i] == dataSources[i];
          assert p in DemandOf(front);
        } else {
          assert here[j] == (d.address, d.handlers[j]);
        }
      }
      forall p | p in Wanted(Flatten(dataSources))
        ensures p in DemandOf(dataSources)
      {
        if p in DemandOf(front) {
          var i, j :| 0 <= i < |front| && 0 <= j < |front[i].handlers|
            && p == (front[i].address, front[i].handlers[j].spec);
          assert dataSources[i] == front[i];
        } else {
          assert p in Wanted(here);
          var j :| 0 <= j < |here| && p == (here[j].0, here[j].1.spec);
          assert p == (dataSources[last].address, dataSources[last].handlers[j].spec);
        }
      }
    }
  }

  lemma WantedConcat(xs: seq<Addressed>, ys: seq<Addressed>)
    ensures Wanted(xs + ys) == Wanted(xs) + Wanted(ys)
  {
    forall p | p in Wanted(xs)
      ensures p in Wanted(xs + ys)
    {
      var i :| 0 <= i < |xs| && p == (xs[i].0, xs[i].1.spec);
      assert (xs + ys)[i] == xs[i];
    }
    forall p | p in Wanted(ys)
      ensures p in Wanted(xs + ys)
    {
      var i :| 0 <= i < |ys| && p == (ys[i].0, ys[i].1.spec);
      assert (xs + ys)[|xs| + i] == ys[i];
    }
  }

  /** Grouping loses nothing and invents nothing. */
  lemma GroupingRepresents(dataSources: seq<DataSource>)
    ensures GroupsRepresent(GroupedDataSources(dataSources), DemandOf(dataSources))
  {
    GroupAllRepresents(Flatten(dataSources));
    FlattenKeepsDemand(dataSources);
  }
}
