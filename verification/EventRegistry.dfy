/** The launchpad event registry of protocol/events.go. Go leaves the order in which `range` visits a
    map open; here every such order is an argument, any enumeration of the keys. */
module EventRegistry {
  import opened Wrappers
  import Hex
  import StringOrder

  type Hash = h: seq<Hex.Byte> | |h| == 32 witness seq(32, _ => 0)

  datatype AbiEvent = AbiEvent(id: Hash, name: string, sig: string)

  /** A contract and the events of its ABI; None if the ABI does not parse. */
  datatype Source = Source(name: string, events: Option<map<string, AbiEvent>>)

  /** The fields of an EventDef at one moment. */
  datatype Definition = Definition(topic0: Hash, name: string, sig: string, event: AbiEvent, contracts: seq<string>)

  class EventDef {
    const topic0: Hash
    const name: string
    const sig: string
    const event: AbiEvent
    var contracts: seq<string>

    constructor (ev: AbiEvent, source: string)
      ensures topic0 == ev.id && name == ev.name && sig == ev.sig && event == ev && contracts == [source]
      ensures View() == Definition(ev.id, ev.name, ev.sig, ev, [source])
    {
      topic0, name, sig, event, contracts := ev.id, ev.name, ev.sig, ev, [source];
    }

    function View(): (view: Definition)
      reads this
      ensures view.topic0 == topic0 && view.name == name && view.sig == sig && view.event == event
      ensures view.contracts == contracts
    {
      Definition(topic0, name, sig, event, contracts)
    }
  }

  type Registry = map<Hash, EventDef>
  type Contents = map<Hash, Definition>

  /** A visit of all of a map's keys, each once. */
  ghost predicate Enumerates<T(!new)>(order: seq<T>, keys: set<T>) {
    && (forall x :: x in order <==> x in keys)
    && forall i, j | 0 <= i < j < |order| :: order[i] != order[j]
  }

  ghost predicate Parsed(sources: seq<Source>) {
    forall i | 0 <= i < |sources| :: sources[i].events.Some?
  }

  ghost predicate VisitOf(source: Source, order: seq<string>) {
    source.events.Some? ==> Enumerates(order, source.events.value.Keys)
  }

  ghost predicate VisitsOf(sources: seq<Source>, orders: seq<seq<string>>) {
    |orders| == |sources| && forall i | 0 <= i < |sources| :: VisitOf(sources[i], orders[i])
  }

  // ---------- the loops, on values ----------

  function AppendedUnique(s: seq<string>, v: string): seq<string> {
    if v in s then s else s + [v]
  }

  function Register(reg: Contents, source: string, ev: AbiEvent): Contents {
    if ev.id in reg then
      reg[ev.id := reg[ev.id].(contracts := AppendedUnique(reg[ev.id].contracts, source))]
    else
      reg[ev.id := Definition(ev.id, ev.name, ev.sig, ev, [source])]
  }

  function RegisterAll(reg: Contents, source: string, events: seq<AbiEvent>): Contents {
    if events == [] then reg
    else Register(RegisterAll(reg, source, events[..|events| - 1]), source, events[|events| - 1])
  }

  /** The events of a source in the order of a visit. */
  function Visited(events: map<string, AbiEvent>, order: seq<string>): (visited: seq<AbiEvent>)
    requires forall name | name in order :: name in events
    ensures |visited| == |order|
    ensures forall i | 0 <= i < |order| :: visited[i] == events[order[i]]
  {
    seq(|order|, i requires 0 <= i < |order| => events[order[i]])
  }

  ghost function Built(sources: seq<Source>, orders: seq<seq<string>>): Contents
    requires Parsed(sources) && VisitsOf(sources, orders)
  {
    if sources == [] then map[]
    else
      var n := |sources| - 1;
      assert VisitOf(sources[n], orders[n]);
      RegisterAll(Built(sources[..n], orders[..n]), sources[n].name, Visited(sources[n].events.value, orders[n]))
  }

  // ---------- what the registry is, without any loop ----------

  ghost predicate Declares(source: Source, h: Hash) {
    source.events.Some? && exists name :: name in source.events.value && source.events.value[name].id == h
  }

  /** e is one of the events of the source with topic h. */
  ghost predicate Candidate(source: Source, h: Hash, e: AbiEvent) {
    e.id == h && source.events.Some? && e in source.events.value.Values
  }

  /** The names of the declaring sources, in the order of the sources, without repeats. */
  ghost function Declarers(sources: seq<Source>, h: Hash): seq<string> {
    if sources == [] then []
    else
      var n := |sources| - 1;
      var earlier := Declarers(sources[..n], h);
      if Declares(sources[n], h) then AppendedUnique(earlier, sources[n].name) else earlier
  }

  ghost predicate FirstDeclares(sources: seq<Source>, k: int, h: Hash) {
    0 <= k < |sources| && Declares(sources[k], h) && forall i | 0 <= i < k :: !Declares(sources[i], h)
  }

  /** The entry for h comes from the earliest source declaring h; all declaring sources are listed. */
  ghost predicate EntryFor(sources: seq<Source>, h: Hash, d: Definition) {
    && d == Definition(h, d.event.name, d.event.sig, d.event, Declarers(sources, h))
    && exists k :: FirstDeclares(sources, k, h) && Candidate(sources[k], h, d.event)
  }

  ghost predicate IsRegistry(sources: seq<Source>, reg: Contents) {
    && (forall h: Hash :: h in reg <==> exists i :: 0 <= i < |sources| && Declares(sources[i], h))
    && forall h | h in reg :: EntryFor(sources, h, reg[h])
  }

  // ---------- one source ----------

  /** The first event with topic h in a list. */
  function FirstWith(events: seq<AbiEvent>, h: Hash): Option<AbiEvent> {
    if events == [] then None
    else
      var earlier := FirstWith(events[..|events| - 1], h);
      var last := events[|events| - 1];
      if earlier.Some? then earlier else if last.id == h then Some(last) else None
  }

  lemma {:induction false} FirstWithExactly(events: seq<AbiEvent>, h: Hash)
    ensures FirstWith(events, h).Some? <==> exists e :: e in events && e.id == h
    ensures FirstWith(events, h).Some? ==> FirstWith(events, h).value in events && FirstWith(events, h).value.id == h
    ensures events != [] && events[0].id == h ==> FirstWith(events, h) == Some(events[0])
  {
    if events != [] {
      var init := events[..|events| - 1];
      FirstWithExactly(init, h);
      assert events == init + [events[|events| - 1]];
    }
  }

  /** What visiting a source does to the entry for h, whatever the other topics are. */
  function EntryAfter(before: Option<Definition>, source: string, first: Option<AbiEvent>): Option<Definition> {
    match first
    case None => before
    case Some(e) =>
      match before
      case None => Some(Definition(e.id, e.name, e.sig, e, [source]))
      case Some(d) => Some(d.(contracts := AppendedUnique(d.contracts, source)))
  }

  function Get(reg: Contents, h: Hash): Option<Definition> {
    if h in reg then Some(reg[h]) else None
  }

  lemma {:induction false} RegisterAllAt(reg: Contents, source: string, events: seq<AbiEvent>, h: Hash)
    ensures Get(RegisterAll(reg, source, events), h) == EntryAfter(Get(reg, h), source, FirstWith(events, h))
  {
    if events != [] {
      RegisterAllAt(reg, source, events[..|events| - 1], h);
      FirstWithExactly(events[..|events| - 1], h);
    }
  }

  lemma {:induction false} VisitedDeclares(source: Source, order: seq<string>, h: Hash)
    requires source.events.Some? && VisitOf(source, order)
    ensures var first := FirstWith(Visited(source.events.value, order), h);
            && (first.Some? <==> Declares(source, h))
            && (first.Some? ==> Candidate(source, h, first.value))
  {
    var events := source.events.value;
    var visited := Visited(events, order);
    FirstWithExactly(visited, h);
    if Declares(source, h) {
      var name :| name in events && events[name].id == h;
      assert name in order;
      var i :| 0 <= i < |order| && order[i] == name;
      assert visited[i] in visited;
    }
    if e :| e in visited && e.id == h {
      var i :| 0 <= i < |visited| && visited[i] == e;
      assert order[i] in order;
    }
  }

  // ---------- all sources ----------

  ghost predicate Describes(sources: seq<Source>, h: Hash, entry: Option<Definition>) {
    && (entry.Some? <==> exists i :: 0 <= i < |sources| && Declares(sources[i], h))
    && (entry.Some? ==> EntryFor(sources, h, entry.value))
    && (entry.None? ==> Declarers(sources, h) == [])
  }

  lemma {:induction false} DescribesSnoc(init: seq<Source>, source: Source, h: Hash, before: Option<Definition>,
                                         first: Option<AbiEvent>)
    requires Describes(init, h, before)
    requires first.Some? <==> Declares(source, h)
    requires first.Some? ==> Candidate(source, h, first.value)
    ensures Describes(init + [source], h, EntryAfter(before, source.name, first))
  {
    var sources := init + [source];
    assert sources[..|init|] == init && sources[|init|] == source;
    assert forall i | 0 <= i < |init| :: sources[i] == init[i];
    if before.Some? {
      var k :| FirstDeclares(init, k, h) && Candidate(init[k], h, before.value.event);
      assert FirstDeclares(sources, k, h);
    } else if first.Some? {
      assert FirstDeclares(sources, |init|, h);
    }
  }

  lemma {:induction false} BuiltSnoc(sources: seq<Source>, orders: seq<seq<string>>, i: nat)
    requires VisitsOf(sources, orders) && i < |sources| && Parsed(sources[..i + 1])
    ensures VisitOf(sources[i], orders[i]) && sources[i].events.Some?
    ensures VisitsOf(sources[..i], orders[..i]) && VisitsOf(sources[..i + 1], orders[..i + 1])
    ensures Built(sources[..i + 1], orders[..i + 1]) ==
            RegisterAll(Built(sources[..i], orders[..i]), sources[i].name, Visited(sources[i].events.value, orders[i]))
  {
    assert sources[..i + 1][i] == sources[i];
    assert sources[..i + 1][..i] == sources[..i] && orders[..i + 1][..i] == orders[..i];
  }

  /** One more source: the entry for h before and after. */
  lemma {:induction false} SourceDescribes(sources: seq<Source>, i: nat, order: seq<string>, before: Contents, h: Hash)
    requires i < |sources| && sources[i].events.Some? && VisitOf(sources[i], order)
    requires Describes(sources[..i], h, Get(before, h))
    ensures Describes(sources[..i + 1], h,
                      Get(RegisterAll(before, sources[i].name, Visited(sources[i].events.value, order)), h))
  {
    var events := Visited(sources[i].events.value, order);
    RegisterAllAt(before, sources[i].name, events, h);
    VisitedDeclares(sources[i], order, h);
    DescribesSnoc(sources[..i], sources[i], h, Get(before, h), FirstWith(events, h));
    assert sources[..i + 1] == sources[..i] + [sources[i]];
  }

  lemma {:induction false} BuiltFrom(sources: seq<Source>, orders: seq<seq<string>>, i: nat, h: Hash)
    requires Parsed(sources) && VisitsOf(sources, orders) && i <= |sources|
    ensures Describes(sources[..i], h, Get(Built(sources[..i], orders[..i]), h))
  {
    if i > 0 {
      BuiltFrom(sources, orders, i - 1, h);
      BuiltSnoc(sources, orders, i - 1);
      SourceDescribes(sources, i - 1, orders[i - 1], Built(sources[..i - 1], orders[..i - 1]), h);
    }
  }

  lemma {:induction false} BuiltAt(sources: seq<Source>, orders: seq<seq<string>>, h: Hash)
    requires Parsed(sources) && VisitsOf(sources, orders)
    ensures Describes(sources, h, Get(Built(sources, orders), h))
  {
    BuiltFrom(sources, orders, |sources|, h);
    assert sources[..|sources|] == sources && orders[..|sources|] == orders;
  }

  /** Whatever the visiting order, the loops build a registry in the sense of IsRegistry. */
  lemma {:induction false} BuiltIsRegistry(sources: seq<Source>, orders: seq<seq<string>>)
    requires Parsed(sources) && VisitsOf(sources, orders)
    ensures IsRegistry(sources, Built(sources, orders))
  {
    forall h: Hash
      ensures h in Built(sources, orders) <==> exists i :: 0 <= i < |sources| && Declares(sources[i], h)
      ensures h in Built(sources, orders) ==> EntryFor(sources, h, Built(sources, orders)[h])
    {
      BuiltAt(sources, orders, h);
    }
  }

  /** The contracts listed for h are the declaring ones, each once, by their first declaring source. */
  lemma {:induction false} DeclarersInOrder(sources: seq<Source>, h: Hash) returns (at: seq<nat>)
    ensures |at| == |Declarers(sources, h)|
    ensures forall i, j | 0 <= i < j < |at| :: at[i] < at[j]
    ensures forall i | 0 <= i < |at| ::
              && at[i] < |sources| && Declares(sources[at[i]], h) && sources[at[i]].name == Declarers(sources, h)[i]
              && forall k | 0 <= k < at[i] :: Declares(sources[k], h) ==> sources[k].name != sources[at[i]].name
    ensures forall k | 0 <= k < |sources| && Declares(sources[k], h) :: sources[k].name in Declarers(sources, h)
  {
    at := [];
    if sources != [] {
      var n := |sources| - 1;
      var init := sources[..n];
      at := DeclarersInOrder(init, h);
      assert forall k | 0 <= k < n :: init[k] == sources[k];
      var earlier := Declarers(init, h);
      if Declares(sources[n], h) && sources[n].name !in earlier {
        at := at + [n];
        assert Declarers(sources, h) == earlier + [sources[n].name];
      }
    }
  }

  // ---------- independence of the visiting order ----------

  /** In the earliest source that declares a topic only one event has that topic. */
  ghost predicate Unambiguous(sources: seq<Source>) {
    forall h, k, d, e ::
      FirstDeclares(sources, k, h) && Candidate(sources[k], h, d) && Candidate(sources[k], h, e) ==> d == e
  }

  lemma {:induction false} EntryUnique(sources: seq<Source>, h: Hash, a: Definition, b: Definition)
    requires Unambiguous(sources) && EntryFor(sources, h, a) && EntryFor(sources, h, b)
    ensures a == b
  {
    var k :| FirstDeclares(sources, k, h) && Candidate(sources[k], h, a.event);
    var l :| FirstDeclares(sources, l, h) && Candidate(sources[l], h, b.event);
    assert k == l;
  }

  lemma {:induction false} RegistryUnique(sources: seq<Source>, a: Contents, b: Contents)
    requires Unambiguous(sources) && IsRegistry(sources, a) && IsRegistry(sources, b)
    ensures a == b
  {
    assert forall h: Hash :: h in a <==> h in b;
    forall h | h in a ensures a[h] == b[h] {
      EntryUnique(sources, h, a[h], b[h]);
    }
  }

  lemma {:induction false} EnumerationFrom<T(!new)>(keys: set<T>) returns (order: seq<T>)
    ensures Enumerates(order, keys)
  {
    if keys == {} {
      order := [];
    } else {
      var x :| x in keys;
      var rest := EnumerationFrom(keys - {x});
      order := [x] + rest;
    }
  }

  /** Every source has a visit that starts with any one of its names. */
  lemma {:induction false} VisitStartingWith(sources: seq<Source>, k: nat,
                                             first: string) returns (orders: seq<seq<string>>)
    requires Parsed(sources) && k < |sources| && first in sources[k].events.value
    ensures VisitsOf(sources, orders) && orders[k] != [] && orders[k][0] == first
  {
    orders := [];
    while |orders| < |sources|
      invariant |orders| <= |sources|
      invariant forall i | 0 <= i < |orders| :: VisitOf(sources[i], orders[i])
      invariant k < |orders| ==> orders[k] != [] && orders[k][0] == first
    {
      var keys := sources[|orders|].events.value.Keys;
      if |orders| == k {
        var rest := EnumerationFrom(keys - {first});
        orders := orders + [[first] + rest];
      } else {
        var order := EnumerationFrom(keys);
        orders := orders + [order];
      }
    }
  }

  /** The entry of a topic comes from the event that the visit of its earliest source meets first. */
  lemma {:induction false} FirstVisitedWinsFrom(sources: seq<Source>, orders: seq<seq<string>>, k: nat, h: Hash, i: nat)
    requires Parsed(sources) && VisitsOf(sources, orders) && FirstDeclares(sources, k, h) && k < i <= |sources|
    ensures VisitOf(sources[k], orders[k])
    ensures var entry := Get(Built(sources[..i], orders[..i]), h);
            var first := FirstWith(Visited(sources[k].events.value, orders[k]), h);
            entry.Some? && first.Some? && entry.value.event == first.value
  {
    var j := i - 1;
    BuiltSnoc(sources, orders, j);
    var before := Built(sources[..j], orders[..j]);
    RegisterAllAt(before, sources[j].name, Visited(sources[j].events.value, orders[j]), h);
    if k < j {
      FirstVisitedWinsFrom(sources, orders, k, h, j);
    } else {
      BuiltFrom(sources, orders, j, h);
      VisitedDeclares(sources[k], orders[k], h);
    }
  }

  lemma {:induction false} FirstVisitedWins(sources: seq<Source>, orders: seq<seq<string>>, k: nat, h: Hash)
    requires Parsed(sources) && VisitsOf(sources, orders) && FirstDeclares(sources, k, h)
    ensures VisitOf(sources[k], orders[k])
    ensures var first := FirstWith(Visited(sources[k].events.value, orders[k]), h);
            first.Some? && h in Built(sources, orders) && Built(sources, orders)[h].event == first.value
  {
    FirstVisitedWinsFrom(sources, orders, k, h, |sources|);
    assert sources[..|sources|] == sources && orders[..|sources|] == orders;
  }

  /** All visiting orders give the same registry exactly if the sources are unambiguous; distinct ids
      within each source are enough for that. */
  lemma {:induction false} OrderIndependentExactly(sources: seq<Source>)
    requires Parsed(sources)
    ensures (forall o, p :: VisitsOf(sources, o) && VisitsOf(sources, p) ==> Built(sources, o) == Built(sources, p))
            <==> Unambiguous(sources)
  {
    if Unambiguous(sources) {
      forall o, p | VisitsOf(sources, o) && VisitsOf(sources, p) ensures Built(sources, o) == Built(sources, p) {
        BuiltIsRegistry(sources, o);
        BuiltIsRegistry(sources, p);
        RegistryUnique(sources, Built(sources, o), Built(sources, p));
      }
    } else {
      var h, k, d, e :|
        FirstDeclares(sources, k, h) && Candidate(sources[k], h, d) && Candidate(sources[k], h, e) && d != e;
      var events := sources[k].events.value;
      var x :| x in events && events[x] == d;
      var y :| y in events && events[y] == e;
      var o := VisitStartingWith(sources, k, x);
      var p := VisitStartingWith(sources, k, y);
      FirstVisitedWins(sources, o, k, h);
      FirstVisitedWins(sources, p, k, h);
      FirstWithExactly(Visited(events, o[k]), h);
      FirstWithExactly(Visited(events, p[k]), h);
    }
  }

  lemma {:induction false} DistinctIdsUnambiguous(sources: seq<Source>)
    requires Parsed(sources)
    requires forall i, x, y | 0 <= i < |sources| && x in sources[i].events.value && y in sources[i].events.value ::
               x != y ==> sources[i].events.value[x].id != sources[i].events.value[y].id
    ensures Unambiguous(sources)
  {
  }

  // ---------- the registry on the heap ----------

  ghost predicate Holds(reg: Registry, contents: Contents)
    reads set h | h in reg :: reg[h]
  {
    reg.Keys == contents.Keys && forall h | h in reg :: reg[h].topic0 == h && reg[h].View() == contents[h]
  }

  method AppendUnique(s: seq<string>, v: string) returns (r: seq<string>)
    ensures r == AppendedUnique(s, v)
  {
    for i := 0 to |s|
      invariant v !in s[..i]
    {
      if s[i] == v {
        return s;
      }
    }
    return s + [v];
  }

  /** The body of the inner loop: a known topic gets another contract through its pointer, a new topic
      a new entry. */
  method RegisterEvent(reg: Registry, ghost contents: Contents, source: string, ev: AbiEvent) returns (r: Registry)
    requires Holds(reg, contents)
    modifies set h | h in reg :: reg[h]
    ensures Holds(r, Register(contents, source, ev))
    ensures forall h | h in r :: (h in reg && r[h] == reg[h]) || fresh(r[h])
  {
    if ev.id in reg {
      var d := reg[ev.id];
      var contracts := AppendUnique(d.contracts, source);
      d.contracts := contracts;
      r := reg;
    } else {
      var d := new EventDef(ev, source);
      r := reg[ev.id := d];
    }
  }

  lemma {:induction false} RegisterAllSnoc(reg: Contents, source: string, events: seq<AbiEvent>, i: nat)
    requires i < |events|
    ensures RegisterAll(reg, source, events[..i + 1]) ==
            Register(RegisterAll(reg, source, events[..i]), source, events[i])
  {
    assert events[..i + 1][..i] == events[..i];
  }

  method RegisterSource(reg: Registry, ghost contents: Contents, source: string, events: map<string, AbiEvent>,
                        order: seq<string>) returns (r: Registry)
    requires Holds(reg, contents)
    requires forall name | name in order :: name in events
    modifies set h | h in reg :: reg[h]
    ensures Holds(r, RegisterAll(contents, source, Visited(events, order)))
    ensures forall h | h in r :: (h in reg && r[h] == reg[h]) || fresh(r[h])
  {
    r := reg;
    ghost var visited := Visited(events, order);
    for i := 0 to |order|
      invariant Holds(r, RegisterAll(contents, source, visited[..i]))
      invariant forall h | h in r :: (h in reg && r[h] == reg[h]) || fresh(r[h])
    {
      RegisterAllSnoc(contents, source, visited, i);
      assert order[i] in order;
      r := RegisterEvent(r, RegisterAll(contents, source, visited[..i]), source, events[order[i]]);
    }
    assert visited[..|order|] == visited;
  }

  /** None is the panic on an ABI that does not parse. */
  method BuildEventRegistry(sources: seq<Source>, orders: seq<seq<string>>) returns (reg: Option<Registry>)
    requires VisitsOf(sources, orders)
    ensures reg.None? <==> !Parsed(sources)
    ensures reg.Some? ==> Holds(reg.value, Built(sources, orders)) && IsRegistry(sources, Built(sources, orders))
    ensures reg.Some? ==> forall h | h in reg.value :: fresh(reg.value[h])
    ensures reg.Some? ==>
              forall h | h in reg.value ::
                var d := reg.value[h];
                && d.topic0 == h == d.event.id && d.name == d.event.name && d.sig == d.event.sig
                && d.contracts == Declarers(sources, h)
                && exists k :: FirstDeclares(sources, k, h) && Candidate(sources[k], h, d.event)
  {
    var r: Registry := map[];
    ghost var contents: Contents := map[];
    for i := 0 to |sources|
      invariant Parsed(sources[..i])
      invariant contents == Built(sources[..i], orders[..i])
      invariant Holds(r, contents)
      invariant forall h | h in r :: fresh(r[h])
    {
      if sources[i].events.None? {
        return None;
      }
      assert Parsed(sources[..i + 1]) by {
        assert sources[..i + 1] == sources[..i] + [sources[i]];
      }
      BuiltSnoc(sources, orders, i);
      r := RegisterSource(r, contents, sources[i].name, sources[i].events.value, orders[i]);
      contents := Built(sources[..i + 1], orders[..i + 1]);
    }
    assert sources[..|sources|] == sources && orders[..|sources|] == orders;
    BuiltIsRegistry(sources, orders);
    reg := Some(r);
    assert forall h | h in r :: r[h].View() == contents[h] && EntryFor(sources, h, contents[h]);
  }

  // ---------- the sorted listing ----------

  function HexText(h: Hash): string {
    "0x" + Hex.Encode(h)
  }

  /** The comparison of Events(): by name, then by the hex text of the topic. */
  predicate Precedes(a: EventDef, b: EventDef) {
    if a.name != b.name then StringOrder.Less(a.name, b.name)
    else StringOrder.Less(HexText(a.topic0), HexText(b.topic0))
  }

  /** Names ascend, and among equal names the hex texts. */
  lemma {:induction false} PrecedesMeans(a: EventDef, b: EventDef)
    ensures Precedes(a, b) <==>
            if a.name == b.name
            then StringOrder.Ascending("0x" + Hex.Encode(a.topic0), "0x" + Hex.Encode(b.topic0))
            else StringOrder.Ascending(a.name, b.name)
  {
    StringOrder.LessExactly(a.name, b.name);
    StringOrder.LessExactly(HexText(a.topic0), HexText(b.topic0));
  }

  lemma {:induction false} HexTextInjective(a: Hash, b: Hash)
    requires HexText(a) == HexText(b)
    ensures a == b
  {
    assert HexText(a)[2..] == Hex.Encode(a) && HexText(b)[2..] == Hex.Encode(b);
    Hex.EncodeInjective(a, b);
  }

  lemma {:induction false} PrecedesAsymmetric(a: EventDef, b: EventDef)
    requires Precedes(a, b)
    ensures !Precedes(b, a)
  {
    if Precedes(b, a) {
      PrecedesTransitive(a, b, a);
      StringOrder.Irreflexive(HexText(a.topic0));
    }
  }

  lemma {:induction false} PrecedesTransitive(a: EventDef, b: EventDef, c: EventDef)
    requires Precedes(a, b) && Precedes(b, c)
    ensures Precedes(a, c)
  {
    if a.name == b.name == c.name {
      StringOrder.Transitive(HexText(a.topic0), HexText(b.topic0), HexText(c.topic0));
    } else if a.name != b.name && b.name != c.name {
      StringOrder.Transitive(a.name, b.name, c.name);
      StringOrder.Irreflexive(a.name);
    }
  }

  /** The order is total because topics are distinct and their hex text is injective. */
  lemma {:induction false} PrecedesConnected(a: EventDef, b: EventDef)
    requires a.topic0 != b.topic0
    ensures Precedes(a, b) || Precedes(b, a)
  {
    if a.name != b.name {
      StringOrder.Connected(a.name, b.name);
    } else {
      if HexText(a.topic0) == HexText(b.topic0) {
        HexTextInjective(a.topic0, b.topic0);
      }
      StringOrder.Connected(HexText(a.topic0), HexText(b.topic0));
    }
  }

  // ---------- Events, LookupEvent, Topic0Count ----------

  /** Every definition is filed under its own topic. */
  ghost predicate Filed(reg: Registry) {
    forall h | h in reg :: reg[h].topic0 == h
  }

  /** The strictly sorted listing of exactly the registry's definitions. */
  ghost predicate IsListing(reg: Registry, out: seq<EventDef>) {
    && (forall i, j | 0 <= i < j < |out| :: Precedes(out[i], out[j]))
    && (forall i | 0 <= i < |out| :: out[i].topic0 in reg && reg[out[i].topic0] == out[i])
    && (forall h | h in reg :: reg[h] in out)
  }

  /** Insertion at the sorted place, behind whatever does not come after d. */
  function Inserted(d: EventDef, s: seq<EventDef>): (r: seq<EventDef>)
    ensures multiset(r) == multiset([d] + s)
  {
    if s == [] then [d]
    else if Precedes(s[|s| - 1], d) then s + [d]
    else
      assert s == s[..|s| - 1] + [s[|s| - 1]];
      Inserted(d, s[..|s| - 1]) + [s[|s| - 1]]
  }

  /** sort.Slice with the comparison of Events(); only that the result is a sorted permutation matters. */
  function SortSlice(s: seq<EventDef>): (r: seq<EventDef>)
    ensures multiset(r) == multiset(s)
  {
    if s == [] then []
    else
      assert s == s[..|s| - 1] + [s[|s| - 1]];
      Inserted(s[|s| - 1], SortSlice(s[..|s| - 1]))
  }

  ghost predicate Sorted(s: seq<EventDef>) {
    forall i, j | 0 <= i < j < |s| :: !Precedes(s[j], s[i])
  }

  ghost predicate TopicsDistinct(s: seq<EventDef>) {
    forall i, j | 0 <= i < j < |s| :: s[i].topic0 != s[j].topic0
  }

  lemma {:induction false} InsertedSorted(d: EventDef, s: seq<EventDef>)
    requires Sorted(s)
    ensures Sorted(Inserted(d, s))
  {
    if s == [] {
    } else if Precedes(s[|s| - 1], d) {
      forall i | 0 <= i < |s| ensures !Precedes(d, s[i]) {
        if Precedes(d, s[i]) {
          PrecedesTransitive(s[|s| - 1], d, s[i]);
          if i == |s| - 1 {
            PrecedesAsymmetric(s[i], s[i]);
          }
        }
      }
    } else {
      var init, last := s[..|s| - 1], s[|s| - 1];
      InsertedSorted(d, init);
      var r := Inserted(d, init);
      forall i | 0 <= i < |r| ensures !Precedes(last, r[i]) {
        assert r[i] in multiset(r);
        assert r[i] in multiset([d] + init);
      }
    }
  }

  lemma {:induction false} SortSliceSorted(s: seq<EventDef>)
    ensures Sorted(SortSlice(s))
  {
    if s != [] {
      SortSliceSorted(s[..|s| - 1]);
      InsertedSorted(s[|s| - 1], SortSlice(s[..|s| - 1]));
    }
  }

  lemma {:induction false} OccurrencesOfDistinct(s: seq<EventDef>, d: EventDef)
    requires forall i, j | 0 <= i < j < |s| :: s[i] != s[j]
    ensures multiset(s)[d] <= 1
  {
    if s != [] {
      var init := s[..|s| - 1];
      assert s == init + [s[|s| - 1]];
      OccurrencesOfDistinct(init, d);
      assert s[|s| - 1] !in init;
    }
  }

  lemma {:induction false} OccurrencesOfRepeated(s: seq<EventDef>, i: nat, j: nat)
    requires i < j < |s| && s[i] == s[j]
    ensures multiset(s)[s[i]] >= 2
  {
    assert s == s[..j] + s[j..];
    assert s[..j][i] in multiset(s[..j]) && s[j..][0] in multiset(s[j..]);
  }

  lemma {:induction false} SortedIsListing(reg: Registry, collected: seq<EventDef>, out: seq<EventDef>)
    requires Filed(reg) && TopicsDistinct(collected)
    requires forall i | 0 <= i < |collected| :: collected[i].topic0 in reg && reg[collected[i].topic0] == collected[i]
    requires forall h | h in reg :: reg[h] in collected
    requires multiset(out) == multiset(collected) && Sorted(out)
    ensures IsListing(reg, out)
  {
    forall i | 0 <= i < |out| ensures out[i].topic0 in reg && reg[out[i].topic0] == out[i] {
      assert out[i] in multiset(collected);
    }
    forall h | h in reg ensures reg[h] in out {
      assert reg[h] in multiset(out);
    }
    forall i, j | 0 <= i < j < |out| ensures Precedes(out[i], out[j]) {
      if out[i].topic0 == out[j].topic0 {
        OccurrencesOfRepeated(out, i, j);
        OccurrencesOfDistinct(collected, out[i]);
      }
      PrecedesConnected(out[i], out[j]);
    }
  }

  lemma {:induction false} ListingAscends(reg: Registry, out: seq<EventDef>)
    requires IsListing(reg, out)
    ensures forall i, j | 0 <= i < j < |out| ::
              if out[i].name == out[j].name
              then StringOrder.Ascending("0x" + Hex.Encode(out[i].topic0), "0x" + Hex.Encode(out[j].topic0))
              else StringOrder.Ascending(out[i].name, out[j].name)
  {
    forall i, j | 0 <= i < j < |out|
      ensures if out[i].name == out[j].name
              then StringOrder.Ascending("0x" + Hex.Encode(out[i].topic0), "0x" + Hex.Encode(out[j].topic0))
              else StringOrder.Ascending(out[i].name, out[j].name)
    {
      PrecedesMeans(out[i], out[j]);
    }
  }

  lemma {:induction false} SortedVisitIsListing(reg: Registry, order: seq<Hash>, collected: seq<EventDef>)
    requires Filed(reg) && Enumerates(order, reg.Keys)
    requires |collected| == |order| && forall k | 0 <= k < |order| :: order[k] in reg && collected[k] == reg[order[k]]
    ensures IsListing(reg, SortSlice(collected))
  {
    forall h | h in reg ensures reg[h] in collected {
      assert h in order;
      var k :| 0 <= k < |order| && order[k] == h;
      assert collected[k] in collected;
    }
    SortSliceSorted(collected);
    SortedIsListing(reg, collected, SortSlice(collected));
  }

  /** Every definition once, in sorted order. */
  method Events(reg: Registry, order: seq<Hash>) returns (out: seq<EventDef>)
    requires Filed(reg) && Enumerates(order, reg.Keys)
    ensures IsListing(reg, out)
    ensures forall i, j | 0 <= i < j < |out| ::
              if out[i].name == out[j].name
              then StringOrder.Ascending("0x" + Hex.Encode(out[i].topic0), "0x" + Hex.Encode(out[j].topic0))
              else StringOrder.Ascending(out[i].name, out[j].name)
  {
    out := [];
    for i := 0 to |order|
      invariant |out| == i && forall k | 0 <= k < i :: order[k] in reg && out[k] == reg[order[k]]
    {
      assert order[i] in order;
      out := out + [reg[order[i]]];
    }
    SortedVisitIsListing(reg, order, out);
    out := SortSlice(out);
    ListingAscends(reg, out);
  }

  function LookupEvent(reg: Registry, topic0: Hash): Option<EventDef> {
    if topic0 in reg then Some(reg[topic0]) else None
  }

  function Topic0Count(reg: Registry): nat {
    |reg|
  }

  lemma {:induction false} StrictlySortedUnique(a: seq<EventDef>, b: seq<EventDef>)
    requires forall i, j | 0 <= i < j < |a| :: Precedes(a[i], a[j])
    requires forall i, j | 0 <= i < j < |b| :: Precedes(b[i], b[j])
    requires (forall d | d in a :: d in b) && (forall d | d in b :: d in a)
    ensures a == b
  {
    assert b != [] ==> b[0] in b && b[0] in a;
    if a != [] {
      assert a[0] in b;
      var j :| 0 <= j < |b| && b[j] == a[0];
      var i :| 0 <= i < |a| && a[i] == b[0];
      if a[0] != b[0] {
        PrecedesAsymmetric(a[0], b[0]);
      }
      forall k | 1 <= k < |a| ensures a[k] in b[1..] {
        PrecedesAsymmetric(a[0], a[k]);
        assert a[k] in b;
      }
      forall k | 1 <= k < |b| ensures b[k] in a[1..] {
        PrecedesAsymmetric(b[0], b[k]);
        assert b[k] in a;
      }
      StrictlySortedUnique(a[1..], b[1..]);
    }
  }

  /** Whatever order the registry map is ranged over in, Events() returns the same list. */
  lemma {:induction false} ListingUnique(reg: Registry, a: seq<EventDef>, b: seq<EventDef>)
    requires IsListing(reg, a) && IsListing(reg, b)
    ensures a == b
  {
    StrictlySortedUnique(a, b);
  }

  lemma {:induction false} EnumerationLength<T(!new)>(order: seq<T>, keys: set<T>)
    requires Enumerates(order, keys)
    ensures |order| == |keys|
  {
    if order == [] {
      assert keys == {};
    } else {
      assert order[0] in order;
      var rest := keys - {order[0]};
      forall x ensures x in order[1..] <==> x in rest {
        assert x in order <==> x == order[0] || x in order[1..];
      }
      EnumerationLength(order[1..], rest);
    }
  }

  /** Listing, index and count agree. */
  lemma {:induction false} ListingAgrees(reg: Registry, out: seq<EventDef>, d: EventDef)
    requires Filed(reg) && IsListing(reg, out)
    ensures d in out <==> LookupEvent(reg, d.topic0) == Some(d)
    ensures TopicsDistinct(out)
    ensures |out| == Topic0Count(reg)
    ensures forall h: Hash ::
              LookupEvent(reg, h) == None <==> forall i | 0 <= i < |out| :: out[i].topic0 != h
  {
    forall i, j | 0 <= i < j < |out| ensures out[i].topic0 != out[j].topic0 {
      PrecedesAsymmetric(out[i], out[j]);
    }
    var topics := seq(|out|, i requires 0 <= i < |out| => out[i].topic0);
    forall h: Hash ensures h in topics <==> h in reg.Keys {
      if h in reg {
        var i :| 0 <= i < |out| && out[i] == reg[h];
        assert topics[i] == h;
      }
    }
    EnumerationLength(topics, reg.Keys);
  }

  /** The definitions a listing shows. */
  function Views(out: seq<EventDef>): (views: seq<Definition>)
    reads out
    ensures |views| == |out| && forall i | 0 <= i < |out| :: views[i] == out[i].View()
  {
    seq(|out|, i requires 0 <= i < |out| reads out => out[i].View())
  }

  /** Deterministic output across program starts: two registries of the same unambiguous sources, built
      and listed in any orders, show the same definitions in the same order. */
  lemma {:induction false} ListingsDeterministic(sources: seq<Source>, o: seq<seq<string>>, p: seq<seq<string>>,
                                                 r: Registry, r': Registry, out: seq<EventDef>, out': seq<EventDef>)
    requires Parsed(sources) && Unambiguous(sources) && VisitsOf(sources, o) && VisitsOf(sources, p)
    requires Holds(r, Built(sources, o)) && Holds(r', Built(sources, p))
    requires IsListing(r, out) && IsListing(r', out')
    ensures Views(out) == Views(out')
  {
    OrderIndependentExactly(sources);
    var contents := Built(sources, o);
    assert Built(sources, p) == contents;
    var twins := seq(|out|, i requires 0 <= i < |out| => r'[out[i].topic0]);
    TwinsAreListing(r, r', contents, out, twins);
    ListingUnique(r', twins, out');
  }

  lemma {:induction false} TwinsAreListing(r: Registry, r': Registry, contents: Contents, out: seq<EventDef>,
                                           twins: seq<EventDef>)
    requires Holds(r, contents) && Holds(r', contents) && IsListing(r, out)
    requires |twins| == |out| && forall i | 0 <= i < |out| :: out[i].topic0 in r' && twins[i] == r'[out[i].topic0]
    ensures IsListing(r', twins) && forall i | 0 <= i < |out| :: twins[i].View() == out[i].View()
  {
    forall i | 0 <= i < |out| ensures twins[i].View() == out[i].View() {
      assert contents[out[i].topic0] == out[i].View();
    }
    forall i, j | 0 <= i < j < |out| ensures Precedes(twins[i], twins[j]) {
      assert twins[i].View() == out[i].View() && twins[j].View() == out[j].View();
    }
    forall h | h in r' ensures r'[h] in twins {
      assert r[h] in out;
      var i :| 0 <= i < |out| && out[i] == r[h];
      assert twins[i] == r'[h];
    }
  }
}
