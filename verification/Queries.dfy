/** Dictionary queries and what they select. */
module Queries {
  import opened Wrappers
  import opened Texts
  import opened Filters

  datatype QueryField = Address | To | From | Type | Func | Topics

  datatype Value = One(text: Text) | Many(texts: seq<Text>) | OfType(txType: TxType) | IsTrue

  datatype Matcher = EqualTo | In | Contains | IsNull

  datatype Condition = Condition(field: QueryField, value: Value, matcher: Matcher)

  datatype Entity = Logs | Calls

  datatype Entry = Entry(entity: Entity, conditions: seq<Condition>)

  /** What the dictionary stores: one row per event and one per decoded call. */
  datatype Row =
    | LogRow(address: Text, topics: seq<Text>)
    | CallRow(from: Option<Text>, to: Option<Text>, func: Option<Text>, txType: TxType)

  function FieldText(row: Row, field: QueryField): Option<Text> {
    match (row, field)
    case (LogRow(address, _), Address) => Some(address)
    case (CallRow(_, to, _, _), To) => to
    case (CallRow(from, _, _, _), From) => from
    case (CallRow(_, _, func, _), Func) => func
    case _ => None
  }

  /** Addresses and selectors are compared by felt. */
  predicate Holds(c: Condition, row: Row) {
    match (c.matcher, c.value)
    case (EqualTo, One(t)) => HexEq(FieldText(row, c.field), Some(t))
    case (EqualTo, OfType(t)) => row.CallRow? && c.field.Type? && row.txType == t
    case (In, Many(ts)) => exists i :: 0 <= i < |ts| && HexEq(FieldText(row, c.field), Some(ts[i]))
    case (Contains, Many(ts)) =>
      row.LogRow? && c.field.Topics? && forall i :: 0 <= i < |ts| ==> HasKey(row.topics, ts[i])
    case (IsNull, IsTrue) => FieldText(row, c.field) == None
    case _ => false
  }

  /** Some key is the same felt as the topic. */
  predicate HasKey(keys: seq<Text>, topic: Text) {
    exists k :: 0 <= k < |keys| && HexEq(Some(keys[k]), Some(topic))
  }

  predicate AllHold(conditions: seq<Condition>, row: Row) {
    forall i :: 0 <= i < |conditions| ==> Holds(conditions[i], row)
  }

  predicate Denotes(e: Entry, row: Row) {
    (e.entity.Logs? <==> row.LogRow?) && AllHold(e.conditions, row)
  }

  /** Without any entry everything is scanned. */
  predicate Covers(entries: seq<Entry>, row: Row) {
    entries == [] || exists i :: 0 <= i < |entries| && Denotes(entries[i], row)
  }

  // ---- sorting and removing duplicates ----

  /** The alphabetical rank of a field's name. */
  function Rank(f: QueryField): nat {
    match f
    case Address => 0
    case From => 1
    case Func => 2
    case To => 3
    case Topics => 4
    case Type => 5
  }

  function InsertByField(c: Condition, sorted: seq<Condition>): seq<Condition> {
    if sorted == [] || Rank(c.field) <= Rank(sorted[0].field) then [c] + sorted
    else [sorted[0]] + InsertByField(c, sorted[1..])
  }

  /** `sortBy(conditions, c => c.field)`: stable. */
  function SortByField(conditions: seq<Condition>): seq<Condition> {
    if conditions == [] then [] else InsertByField(conditions[0], SortByField(conditions[1..]))
  }

  lemma {:induction false} InsertKeepsElements(c: Condition, sorted: seq<Condition>)
    ensures multiset(InsertByField(c, sorted)) == multiset(sorted) + multiset{c}
  {
    if sorted != [] && Rank(c.field) > Rank(sorted[0].field) {
      InsertKeepsElements(c, sorted[1..]);
      assert sorted == [sorted[0]] + sorted[1..];
    }
  }

  lemma {:induction false} SortKeepsElements(conditions: seq<Condition>)
    ensures multiset(SortByField(conditions)) == multiset(conditions)
  {
    if conditions != [] {
      SortKeepsElements(conditions[1..]);
      InsertKeepsElements(conditions[0], SortByField(conditions[1..]));
      assert conditions == [conditions[0]] + conditions[1..];
    }
  }

  predicate SameKey(a: Entry, b: Entry) {
    a.entity == b.entity && SortByField(a.conditions) == SortByField(b.conditions)
  }

  predicate KeySeen(entries: seq<Entry>, e: Entry) {
    exists i :: 0 <= i < |entries| && SameKey(entries[i], e)
  }

  /** `uniqBy` with that key: the first entry of each kind is kept. */
  function UniqByKey(entries: seq<Entry>): seq<Entry> {
    if entries == [] then []
    else
      var last := |entries| - 1;
      var front := UniqByKey(entries[..last]);
      if KeySeen(front, entries[last]) then front else front + [entries[last]]
  }

  /** The conditions on one field, in order. */
  function OfField(conditions: seq<Condition>, field: QueryField): seq<Condition> {
    if conditions == [] then []
    else if conditions[0].field == field then [conditions[0]] + OfField(conditions[1..], field)
    else OfField(conditions[1..], field)
  }

  /** The lists agree up to the order among different fields. */
  ghost predicate SameOnFields(xs: seq<Condition>, ys: seq<Condition>) {
    forall field :: OfField(xs, field) == OfField(ys, field)
  }

  predicate Sorted(conditions: seq<Condition>) {
    forall i, j :: 0 <= i < j < |conditions| ==> Rank(conditions[i].field) <= Rank(conditions[j].field)
  }

  lemma {:induction false} InsertIsStable(c: Condition, sorted: seq<Condition>, field: QueryField)
    ensures OfField(InsertByField(c, sorted), field) == OfField([c], field) + OfField(sorted, field)
  {
    assert [c][1..] == [];
    if sorted == [] || Rank(c.field) <= Rank(sorted[0].field) {
      assert ([c] + sorted)[1..] == sorted;
    } else {
      InsertIsStable(c, sorted[1..], field);
      var rest := InsertByField(c, sorted[1..]);
      assert ([sorted[0]] + rest)[1..] == rest;
    }
  }

  lemma {:induction false} InsertSorts(c: Condition, sorted: seq<Condition>)
    requires Sorted(sorted)
    ensures Sorted(InsertByField(c, sorted))
  {
    if sorted != [] && Rank(c.field) > Rank(sorted[0].field) {
      InsertSorts(c, sorted[1..]);
      InsertKeepsElements(c, sorted[1..]);
      var rest := InsertByField(c, sorted[1..]);
      forall i | 0 <= i < |rest|
        ensures Rank(sorted[0].field) <= Rank(rest[i].field)
      {
        assert rest[i] in multiset(rest);
        assert rest[i] == c || rest[i] in sorted[1..];
      }
    }
  }

  /** Sorting brings the fields into order and leaves the conditions on each of them as they were. */
  lemma {:induction false} SortIsStable(conditions: seq<Condition>, field: QueryField)
    ensures Sorted(SortByField(conditions))
    ensures OfField(SortByField(conditions), field) == OfField(conditions, field)
  {
    if conditions != [] {
      SortIsStable(conditions[1..], field);
      InsertSorts(conditions[0], SortByField(conditions[1..]));
      InsertIsStable(conditions[0], SortByField(conditions[1..]), field);
      assert [conditions[0]][1..] == [];
    }
  }

  lemma {:induction false} FirstOfField(conditions: seq<Condition>, field: QueryField)
    requires OfField(conditions, field) != []
    ensures exists i :: 0 <= i < |conditions| && conditions[i].field == field
  {
    if conditions[0].field != field {
      FirstOfField(conditions[1..], field);
      var i :| 0 <= i < |conditions[1..]| && conditions[1..][i].field == field;
      assert conditions[i + 1].field == field;
    }
  }

  /** The first of a sorted list has the least field. */
  lemma HeadRank(conditions: seq<Condition>, field: QueryField)
    requires conditions != [] && Sorted(conditions) && OfField(conditions, field) != []
    ensures Rank(conditions[0].field) <= Rank(field)
  {
    FirstOfField(conditions, field);
  }

  /** A sorted list is determined by the conditions on each field. */
  lemma {:induction false} SortedIsDetermined(xs: seq<Condition>, ys: seq<Condition>)
    requires Sorted(xs) && Sorted(ys) && SameOnFields(xs, ys)
    ensures xs == ys
  {
    if xs == [] || ys == [] {
      if xs != [] {
        assert OfField(xs, xs[0].field) != OfField(ys, xs[0].field);
      } else if ys != [] {
        assert OfField(xs, ys[0].field) != OfField(ys, ys[0].field);
      }
    } else {
      var f, g := xs[0].field, ys[0].field;
      assert OfField(xs, f) == OfField(ys, f) && OfField(xs, g) == OfField(ys, g);
      HeadRank(xs, g);
      HeadRank(ys, f);
      assert f == g;
      assert xs[0] == OfField(xs, f)[0] == ys[0];
      forall field
        ensures OfField(xs[1..], field) == OfField(ys[1..], field)
      {
        assert OfField(xs, field) == OfField(ys, field);
        if field == f {
          assert OfField(xs[1..], field) == OfField(xs, field)[1..];
          assert OfField(ys[1..], field) == OfField(ys, field)[1..];
        }
      }
      SortedIsDetermined(xs[1..], ys[1..]);
    }
  }

  /** Two entries count as duplicates exactly when they agree up to the order among different fields. */
  lemma SameKeyIff(a: Entry, b: Entry)
    ensures SameKey(a, b)
      <==> a.entity == b.entity && SameOnFields(a.conditions, b.conditions)
  {
    forall field
      ensures OfField(SortByField(a.conditions), field) == OfField(a.conditions, field)
      ensures OfField(SortByField(b.conditions), field) == OfField(b.conditions, field)
    {
      SortIsStable(a.conditions, field);
      SortIsStable(b.conditions, field);
    }
    if SameKey(a, b) {
      forall field
        ensures OfField(a.conditions, field) == OfField(b.conditions, field)
      {
        assert OfField(SortByField(a.conditions), field) == OfField(a.conditions, field);
      }
    } else if SameOnFields(a.conditions, b.conditions) {
      SortIsStable(a.conditions, Address);
      SortIsStable(b.conditions, Address);
      SortedIsDetermined(SortByField(a.conditions), SortByField(b.conditions));
    }
  }

  /** The entry is the first of its key. */
  predicate FirstOfKey(entries: seq<Entry>, i: nat)
    requires i < |entries|
  {
    forall k :: 0 <= k < i ==> !SameKey(entries[k], entries[i])
  }

  /** A key is kept exactly when some entry has it. */
  lemma {:induction false} KeysAreKept(entries: seq<Entry>, e: Entry)
    ensures KeySeen(UniqByKey(entries), e) <==> KeySeen(entries, e)
  {
    if entries != [] {
      var last := |entries| - 1;
      var front := UniqByKey(entries[..last]);
      KeysAreKept(entries[..last], e);
      KeySeenAppend(entries[..last], entries[last], e);
      KeySeenAppend(front, entries[last], e);
      assert entries == entries[..last] + [entries[last]];
      if KeySeen(front, entries[last]) && SameKey(entries[last], e) {
        var i :| 0 <= i < |front| && SameKey(front[i], entries[last]);
        assert SameKey(front[i], e);
      }
    }
  }

  lemma KeySeenAppend(front: seq<Entry>, last: Entry, e: Entry)
    ensures KeySeen(front + [last], e) <==> KeySeen(front, e) || SameKey(last, e)
  {
    var all := front + [last];
    if KeySeen(front, e) {
      var i :| 0 <= i < |front| && SameKey(front[i], e);
      assert SameKey(all[i], e);
    }
    if SameKey(last, e) {
      assert SameKey(all[|front|], e);
    }
  }

  /** No key is kept twice. */
  lemma {:induction false} KeptKeysDiffer(entries: seq<Entry>, i: nat, j: nat)
    requires i < j < |UniqByKey(entries)|
    ensures !SameKey(UniqByKey(entries)[i], UniqByKey(entries)[j])
  {
    if j < |UniqByKey(entries[..|entries| - 1])| {
      KeptKeysDiffer(entries[..|entries| - 1], i, j);
    }
  }

  /** What is kept of every key is its first entry, and of no key anything else. */
  lemma {:induction false} UniqKeepsFirsts(entries: seq<Entry>, e: Entry)
    ensures e in UniqByKey(entries) <==> exists i :: 0 <= i < |entries| && entries[i] == e && FirstOfKey(entries, i)
  {
    if entries != [] {
      var last := |entries| - 1;
      var front := UniqByKey(entries[..last]);
      UniqKeepsFirsts(entries[..last], e);
      KeysAreKept(entries[..last], entries[last]);
      assert FirstOfKey(entries, last) <==> !KeySeen(front, entries[last]) by {
        forall k | 0 <= k < last
          ensures entries[..last][k] == entries[k]
        {
        }
      }
      forall i | 0 <= i < last
        ensures FirstOfKey(entries[..last], i) == FirstOfKey(entries, i)
      {
        assert forall k :: 0 <= k <= i ==> entries[..last][k] == entries[k];
      }
    }
  }

  predicate Precedes(entries: seq<Entry>, x: Entry, y: Entry) {
    exists a, b :: 0 <= a < b < |entries| && entries[a] == x && entries[b] == y
  }

  /** What is kept stays in order. */
  lemma {:induction false} KeptInOrder(entries: seq<Entry>, i: nat, j: nat)
    requires i < j < |UniqByKey(entries)|
    ensures Precedes(entries, UniqByKey(entries)[i], UniqByKey(entries)[j])
  {
    var last := |entries| - 1;
    var front := UniqByKey(entries[..last]);
    if j < |front| {
      KeptInOrder(entries[..last], i, j);
      var a, b :| 0 <= a < b < last && entries[..last][a] == front[i] && entries[..last][b] == front[j];
      assert entries[a] == front[i] && entries[b] == front[j];
    } else {
      UniqKeepsFirsts(entries[..last], front[i]);
      var a :| 0 <= a < last && entries[..last][a] == front[i];
      assert entries[a] == front[i] && entries[last] == UniqByKey(entries)[j];
    }
  }

  /** The compiled list without duplicates: the first entry of every key, in order, no key twice, none lost. */
  lemma UniqIsExact(entries: seq<Entry>)
    ensures var kept := UniqByKey(entries);
      && (forall i, j :: 0 <= i < j < |kept| ==> !SameKey(kept[i], kept[j]))
      && (forall i, j :: 0 <= i < j < |kept| ==> Precedes(entries, kept[i], kept[j]))
      && (forall e :: KeySeen(kept, e) <==> KeySeen(entries, e))
      && (forall e :: e in kept
            <==> exists i :: 0 <= i < |entries| && entries[i] == e && FirstOfKey(entries, i))
  {
    forall i, j | 0 <= i < j < |UniqByKey(entries)|
      ensures !SameKey(UniqByKey(entries)[i], UniqByKey(entries)[j])
      ensures Precedes(entries, UniqByKey(entries)[i], UniqByKey(entries)[j])
    {
      KeptKeysDiffer(entries, i, j);
      KeptInOrder(entries, i, j);
    }
    forall e
      ensures KeySeen(UniqByKey(entries), e) <==> KeySeen(entries, e)
      ensures e in UniqByKey(entries)
        <==> exists i :: 0 <= i < |entries| && entries[i] == e && FirstOfKey(entries, i)
    {
      KeysAreKept(entries, e);
      UniqKeepsFirsts(entries, e);
    }
  }

  lemma SameElementsHoldAlike(xs: seq<Condition>, ys: seq<Condition>, row: Row)
    requires multiset(xs) == multiset(ys)
    ensures AllHold(xs, row) ==> AllHold(ys, row)
  {
    if AllHold(xs, row) {
      forall i | 0 <= i < |ys|
        ensures Holds(ys[i], row)
      {
        assert ys[i] in multiset(xs);
      }
    }
  }

  /** Entries with the same key select the same rows. */
  lemma SameKeySameDenotation(a: Entry, b: Entry, row: Row)
    requires SameKey(a, b)
    ensures Denotes(a, row) <==> Denotes(b, row)
  {
    SortKeepsElements(a.conditions);
    SortKeepsElements(b.conditions);
    SameElementsHoldAlike(a.conditions, b.conditions, row);
    SameElementsHoldAlike(b.conditions, a.conditions, row);
  }

  predicate AnyDenotes(entries: seq<Entry>, row: Row) {
    exists i :: 0 <= i < |entries| && Denotes(entries[i], row)
  }

  lemma AnyDenotesAppend(front: seq<Entry>, e: Entry, row: Row)
    ensures AnyDenotes(front + [e], row) <==> AnyDenotes(front, row) || Denotes(e, row)
  {
    var all := front + [e];
    if AnyDenotes(front, row) {
      var i :| 0 <= i < |front| && Denotes(front[i], row);
      assert Denotes(all[i], row);
    }
    if Denotes(e, row) {
      assert Denotes(all[|front|], row);
    }
  }

  /** Removing duplicates never changes what the list selects. */
  lemma {:induction false} UniqKeepsDenotation(entries: seq<Entry>, row: Row)
    ensures AnyDenotes(UniqByKey(entries), row) <==> AnyDenotes(entries, row)
    ensures UniqByKey(entries) == [] <==> entries == []
  {
    if entries != [] {
      var last := |entries| - 1;
      var front := UniqByKey(entries[..last]);
      UniqKeepsDenotation(entries[..last], row);
      assert entries == entries[..last] + [entries[last]];
      AnyDenotesAppend(entries[..last], entries[last], row);
      AnyDenotesAppend(front, entries[last], row);
      if KeySeen(front, entries[last]) {
        var i :| 0 <= i < |front| && SameKey(front[i], entries[last]);
        SameKeySameDenotation(front[i], entries[last], row);
      }
    }
  }
}
