/**
 Histories given as events: calls and returns in the order in which they were seen, paired by arbitrary
 identifiers, which are renumbered before the search.
 */
module Events {
  import opened History
  import opened Bitset
  import opened LinkedHistory
  import Checker

  datatype Event<+V> = Event(isReturn: bool, value: V, id: nat)

  /** The identifiers in the order of their first appearance. */
  function FirstSeen<V>(events: seq<Event<V>>): (ids: seq<nat>)
    ensures forall i, j :: 0 <= i < j < |ids| ==> ids[i] != ids[j]
    ensures forall k :: 0 <= k < |events| ==> events[k].id in ids
  {
    if events == [] then []
    else
      var n := |events| - 1;
      var before := FirstSeen(events[..n]);
      if events[n].id in before then before else before + [events[n].id]
  }

  /** Replaces every identifier by its rank of first appearance. */
  method Renumber<V>(events: seq<Event<V>>) returns (e: seq<Event<V>>)
    ensures |e| == |events|
    ensures forall k :: 0 <= k < |e| ==> e[k].isReturn == events[k].isReturn && e[k].value == events[k].value
    ensures forall k :: 0 <= k < |e| ==> e[k].id < |FirstSeen(events)| && FirstSeen(events)[e[k].id] == events[k].id
  {
    hide FirstSeen, Ranked;
    e := [];
    var m: map<nat, nat> := map[];
    var id := 0;
    ghost var ids: seq<nat> := [];
    SeenNone(events);
    RankedNone(events);
    for i := 0 to |events|
      invariant ids == FirstSeen(events[..i]) && id == |ids| && Ranked(events, e, ids, i)
      invariant forall j :: 0 <= j < |ids| ==> ids[j] in m
      invariant forall x :: x in m ==> m[x] < id && ids[m[x]] == x
    {
      SeenNext(events, i);
      var v := events[i];
      if v.id in m {
        assert ids[m[v.id]] in ids;
        RankedNext(events, e, ids, i, ids, m[v.id]);
        e := e + [Event(v.isReturn, v.value, m[v.id])];
      } else {
        RankedNext(events, e, ids, i, ids + [v.id], id);
        e := e + [Event(v.isReturn, v.value, id)];
        m := m[v.id := id];
        id := id + 1;
        ids := ids + [v.id];
      }
    }
    assert events[..|events|] == events;
    RankedAll(events, e, ids);
  }

  /** The first events with their identifiers replaced by ranks in ids. */
  ghost predicate Ranked<V>(events: seq<Event<V>>, e: seq<Event<V>>, ids: seq<nat>, i: nat) {
    && i <= |events| && |e| == i
    && (forall k :: 0 <= k < i ==> e[k].isReturn == events[k].isReturn && e[k].value == events[k].value)
    && (forall k :: 0 <= k < i ==> e[k].id < |ids| && ids[e[k].id] == events[k].id)
  }

  lemma RankedNone<V>(events: seq<Event<V>>)
    ensures Ranked(events, [], [], 0)
  {}

  lemma RankedNext<V>(events: seq<Event<V>>, e: seq<Event<V>>, ids: seq<nat>, i: nat, ids': seq<nat>, id: nat)
    requires Ranked(events, e, ids, i) && i < |events| && ids <= ids' && id < |ids'| && ids'[id] == events[i].id
    ensures Ranked(events, e + [Event(events[i].isReturn, events[i].value, id)], ids', i + 1)
  {}

  lemma RankedAll<V>(events: seq<Event<V>>, e: seq<Event<V>>, ids: seq<nat>)
    requires Ranked(events, e, ids, |events|)
    ensures |e| == |events|
    ensures forall k :: 0 <= k < |e| ==> e[k].isReturn == events[k].isReturn && e[k].value == events[k].value
    ensures forall k :: 0 <= k < |e| ==> e[k].id < |ids| && ids[e[k].id] == events[k].id
  {}

  lemma SeenNone<V>(events: seq<Event<V>>)
    ensures FirstSeen(events[..0]) == []
  {}

  lemma SeenNext<V>(events: seq<Event<V>>, i: nat)
    requires i < |events|
    ensures var ids := FirstSeen(events[..i]);
      FirstSeen(events[..i + 1]) == if events[i].id in ids then ids else ids + [events[i].id]
  {
    assert events[..i + 1][..i] == events[..i];
  }

  method ConvertEntries<V>(events: seq<Event<V>>) returns (entries: seq<Entry<V>>)
    ensures |entries| == |events|
    ensures forall k :: 0 <= k < |events| ==> entries[k] == Entry(events[k].isReturn, events[k].value, events[k].id, -1)
  {
    entries := [];
    for i := 0 to |events|
      invariant |entries| == i
      invariant forall k :: 0 <= k < i ==> entries[k] == Entry(events[k].isReturn, events[k].value, events[k].id, -1)
    {
      entries := entries + [Entry(events[i].isReturn, events[i].value, events[i].id, -1)];
    }
  }

  ghost predicate IsAt<V>(events: seq<Event<V>>, id: nat, isReturn: bool, p: int) {
    0 <= p < |events| && events[p].id == id && events[p].isReturn == isReturn
  }

  /** Each identifier has one call and one later return. */
  ghost predicate Paired<V>(events: seq<Event<V>>) {
    && |events| == 2 * |FirstSeen(events)|
    && (forall p, q, id, isReturn :: IsAt(events, id, isReturn, p) && IsAt(events, id, isReturn, q) ==> p == q)
    && (forall id :: id in FirstSeen(events) ==> exists p, q :: p < q && IsAt(events, id, false, p) && IsAt(events, id, true, q))
  }

  ghost function Where<V>(events: seq<Event<V>>, id: nat, isReturn: bool): (p: int)
    requires Paired(events) && id in FirstSeen(events)
    ensures IsAt(events, id, isReturn, p)
  {
    var p, q :| p < q && IsAt(events, id, false, p) && IsAt(events, id, true, q);
    if isReturn then q else p
  }

  /** The operations that the events record, timed by the places of their call and return. */
  ghost function Recorded<V>(events: seq<Event<V>>): (ops: seq<Operation<V>>)
    requires Paired(events)
    ensures |ops| == |FirstSeen(events)|
  {
    var ids := FirstSeen(events);
    seq(|ids|, j requires 0 <= j < |ids| =>
      var c, r := Where(events, ids[j], false), Where(events, ids[j], true);
      Operation(events[c].value, c + 1, events[r].value, r + 1))
  }

  lemma WhereOrder<V>(events: seq<Event<V>>, id: nat)
    requires Paired(events) && id in FirstSeen(events)
    ensures Where(events, id, false) < Where(events, id, true)
  {
    var p, q :| p < q && IsAt(events, id, false, p) && IsAt(events, id, true, q);
    assert p == Where(events, id, false) && q == Where(events, id, true);
  }

  lemma RenumberedPlaces<V>(events: seq<Event<V>>, entries: seq<Entry<V>>)
    requires Paired(events) && |entries| == |events|
    requires forall k :: 0 <= k < |events| ==> entries[k].isReturn == events[k].isReturn && entries[k].value == events[k].value
    requires forall k :: 0 <= k < |events| ==>
      entries[k].id < |FirstSeen(events)| && FirstSeen(events)[entries[k].id] == events[k].id
    ensures Places(Recorded(events), entries)
  {
    hide FirstSeen, Paired, Where;
    var ops, ids := Recorded(events), FirstSeen(events);
    forall k | 0 <= k < |entries| ensures EntryPlaced(ops, entries, k) {
      WhereUnique(events, k);
    }
    forall j | 0 <= j < |ops| ensures OpPlaced(ops, entries, j) {
      WhereOrder(events, ids[j]);
    }
    WhereUnique(events, -1);
  }

  /** An event is found at its own place, and there are two events for each identifier. */
  lemma WhereUnique<V>(events: seq<Event<V>>, k: int)
    requires Paired(events)
    ensures |events| == 2 * |FirstSeen(events)|
    ensures 0 <= k < |events| ==> k == Where(events, events[k].id, events[k].isReturn)
  {
    hide FirstSeen, Where;
    if 0 <= k < |events| {
      assert IsAt(events, events[k].id, events[k].isReturn, k);
      assert IsAt(events, events[k].id, events[k].isReturn, Where(events, events[k].id, events[k].isReturn));
    }
  }

  /** Without a timeout, the check of an event history decides whether the recorded operations are linearizable. */
  method CheckEvents<S(==), V(!new)>(m: Model<S, V>, history: seq<Event<V>>, hash: seq<Word> -> nat) returns (ok: bool)
    requires Paired(history)
    ensures ok <==> Linearizable(m, Recorded(history))
  {
    hide Paired, Recorded, FirstSeen, Places;
    var events := Renumber(history);
    var entries := ConvertEntries(events);
    RenumberedPlaces(history, entries);
    var l, nodes := MakeLinkedEntries(entries, Recorded(history));
    var loads;
    ok, loads := Checker.CheckSingle(m, l, _ => false, hash, Recorded(history), nodes);
  }
}
