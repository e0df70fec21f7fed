/**
 From a history of timed operations to the entries in time order. Entries with equal times may
 come in either order, so the checker's verdict lies between two readings of real time: one in
 which operations that merely touch are concurrent, and one in which they are ordered.
 */
module Entries {
  import opened Common
  import opened History
  import opened LinkedHistory
  import opened Search

  ghost predicate SortedByTime<V>(s: seq<Entry<V>>) {
    forall i, j :: 0 <= i < j < |s| ==> s[i].time <= s[j].time
  }

  // ----- sorting -----

  /** Time order, with the returns first among entries of the same time. */
  predicate ReturnsFirst<V>(a: Entry<V>, b: Entry<V>) {
    a.time < b.time || (a.time == b.time && (a.isReturn || !b.isReturn))
  }

  ghost predicate SortedReturnsFirst<V>(s: seq<Entry<V>>) {
    forall i, j :: 0 <= i < j < |s| ==> ReturnsFirst(s[i], s[j])
  }

  function Insert<V>(x: Entry<V>, s: seq<Entry<V>>): seq<Entry<V>> {
    if s == [] || ReturnsFirst(x, s[0]) then [x] + s else [s[0]] + Insert(x, s[1..])
  }

  function InsertionSort<V>(s: seq<Entry<V>>): seq<Entry<V>> {
    if s == [] then [] else Insert(s[0], InsertionSort(s[1..]))
  }

  lemma {:induction false} InsertKeeps<V>(x: Entry<V>, s: seq<Entry<V>>)
    requires SortedReturnsFirst(s)
    ensures SortedReturnsFirst(Insert(x, s)) && multiset(Insert(x, s)) == multiset(s) + multiset{x}
  {
    if s != [] && !ReturnsFirst(x, s[0]) {
      InsertKeeps(x, s[1..]);
      assert s == [s[0]] + s[1..];
      var rest := Insert(x, s[1..]);
      forall j | 0 <= j < |rest| ensures ReturnsFirst(s[0], rest[j]) {
        assert rest[j] in multiset(s[1..]) + multiset{x};
        assert rest[j] in s[1..] || rest[j] == x;
      }
    }
  }

  lemma {:induction false} SortSorts<V>(s: seq<Entry<V>>)
    ensures SortedReturnsFirst(InsertionSort(s)) && multiset(InsertionSort(s)) == multiset(s)
  {
    if s != [] {
      SortSorts(s[1..]);
      InsertKeeps(s[0], InsertionSort(s[1..]));
      assert s == [s[0]] + s[1..];
    }
  }

  /** Stands for the library sort: callers know no more than its contract. */
  method SortByTime<V>(entries: seq<Entry<V>>) returns (s: seq<Entry<V>>)
    ensures SortedByTime(s) && multiset(s) == multiset(entries)
  {
    SortSorts(entries);
    s := InsertionSort(entries);
  }

  // ----- the entries of a history -----

  ghost predicate Timed<V>(history: seq<Operation<V>>) {
    forall id :: 0 <= id < |history| ==> history[id].call < history[id].ret
  }

  function Raw<V>(history: seq<Operation<V>>): seq<Entry<V>> {
    seq(2 * |history|, j requires 0 <= j < 2 * |history| =>
      var op := history[j / 2];
      if j % 2 == 0 then Entry(false, op.input, j / 2, op.call) else Entry(true, op.output, j / 2, op.ret))
  }

  ghost predicate KeepsTime<V>(history: seq<Operation<V>>, e: Entry<V>) {
    e.id < |history| && e.time == if e.isReturn then history[e.id].ret else history[e.id].call
  }

  /** `placed` is the history with its times replaced by places in the sorted entries. */
  ghost predicate Placement<V>(history: seq<Operation<V>>, entries: seq<Entry<V>>, placed: seq<Operation<V>>) {
    && |placed| == |history| && Places(placed, entries)
    && (forall k :: 0 <= k < |entries| ==> KeepsTime(history, entries[k]))
    && (forall id :: 0 <= id < |history| ==>
         placed[id].input == history[id].input && placed[id].output == history[id].output)
  }

  ghost function Find<T(!new)>(s: seq<T>, x: T): (i: int)
    requires x in s
    ensures 0 <= i < |s| && s[i] == x
  {
    var i :| 0 <= i < |s| && s[i] == x; i
  }

  lemma RawDistinct<V>(history: seq<Operation<V>>, i: int, j: int)
    requires 0 <= i < j < 2 * |history|
    ensures Raw(history)[i] != Raw(history)[j]
  {
    assert i / 2 == j / 2 ==> i % 2 != j % 2;
  }

  /** Each entry has one place in a permutation of the raw entries. */
  lemma OnePlace<V>(history: seq<Operation<V>>, entries: seq<Entry<V>>, i: int, j: int)
    requires multiset(entries) == multiset(Raw(history))
    requires 0 <= i < j < |entries|
    ensures entries[i] != entries[j]
  {
    if entries[i] == entries[j] {
      CountTwice(entries, i, j);
      forall a, b | 0 <= a < b < |Raw(history)| ensures Raw(history)[a] != Raw(history)[b] {
        RawDistinct(history, a, b);
      }
      CountOnce(Raw(history), entries[i]);
      assert false;
    }
  }

  lemma EntryIsRaw<V>(history: seq<Operation<V>>, entries: seq<Entry<V>>, k: int)
    requires multiset(entries) == multiset(Raw(history)) && 0 <= k < |entries|
    ensures entries[k].id < |history|
    ensures entries[k] == Raw(history)[2 * entries[k].id + if entries[k].isReturn then 1 else 0]
  {
    assert entries[k] in multiset(entries);
    assert entries[k] in Raw(history);
    var j :| 0 <= j < |Raw(history)| && Raw(history)[j] == entries[k];
  }

  lemma RawAt<V>(history: seq<Operation<V>>, entries: seq<Entry<V>>, id: nat)
    requires multiset(entries) == multiset(Raw(history)) && id < |history|
    ensures Raw(history)[2 * id] == Entry(false, history[id].input, id, history[id].call) && Raw(history)[2 * id] in entries
    ensures Raw(history)[2 * id + 1] == Entry(true, history[id].output, id, history[id].ret) && Raw(history)[2 * id + 1] in entries
  {
    assert Raw(history)[2 * id] in multiset(Raw(history));
    assert Raw(history)[2 * id + 1] in multiset(Raw(history));
  }

  ghost function PlacedAt<V(!new)>(history: seq<Operation<V>>, entries: seq<Entry<V>>, id: nat): Operation<V>
    requires multiset(entries) == multiset(Raw(history)) && id < |history|
  {
    RawAt(history, entries, id);
    Operation(history[id].input, Find(entries, Raw(history)[2 * id]) + 1,
              history[id].output, Find(entries, Raw(history)[2 * id + 1]) + 1)
  }

  lemma PlaceOne<V(!new)>(history: seq<Operation<V>>, entries: seq<Entry<V>>, k: int)
    requires multiset(entries) == multiset(Raw(history)) && 0 <= k < |entries|
    ensures KeepsTime(history, entries[k])
    ensures var op := PlacedAt(history, entries, entries[k].id);
      if entries[k].isReturn then op.ret == k + 1 && op.output == entries[k].value
      else op.call == k + 1 && op.input == entries[k].value
  {
    EntryIsRaw(history, entries, k);
    var id := entries[k].id;
    RawAt(history, entries, id);
    var i := Find(entries, entries[k]);
    if i < k {
      OnePlace(history, entries, i, k);
    } else if k < i {
      OnePlace(history, entries, k, i);
    }
  }

  lemma PlaceInOrder<V(!new)>(history: seq<Operation<V>>, entries: seq<Entry<V>>, id: nat)
    requires Timed(history) && SortedByTime(entries) && multiset(entries) == multiset(Raw(history)) && id < |history|
    ensures var op := PlacedAt(history, entries, id);
      && 1 <= op.call < op.ret <= |entries|
      && entries[op.call - 1].id == id && !entries[op.call - 1].isReturn
      && entries[op.ret - 1].id == id && entries[op.ret - 1].isReturn
      && op.input == history[id].input && op.output == history[id].output
  {
    RawAt(history, entries, id);
  }

  lemma RawLength<V>(history: seq<Operation<V>>, entries: seq<Entry<V>>)
    requires multiset(entries) == multiset(Raw(history))
    ensures |entries| == 2 * |history|
  {
    assert |multiset(entries)| == |entries| && |multiset(Raw(history))| == |Raw(history)|;
  }

  /** Sorted entries give the operations their places. */
  lemma PlaceAll<V(!new)>(history: seq<Operation<V>>, entries: seq<Entry<V>>) returns (placed: seq<Operation<V>>)
    requires Timed(history) && SortedByTime(entries) && multiset(entries) == multiset(Raw(history))
    ensures Placement(history, entries, placed)
  {
    RawLength(history, entries);
    placed := seq(|history|, id requires 0 <= id < |history| => PlacedAt(history, entries, id));
    hide Raw, PlacedAt, SortedByTime, Timed, OpPlaced, EntryPlaced;
    PlacedEntries(history, entries, placed);
    PlacedOps(history, entries, placed);
  }

  ghost predicate AllPlaced<V(!new)>(history: seq<Operation<V>>, entries: seq<Entry<V>>, placed: seq<Operation<V>>) {
    && multiset(entries) == multiset(Raw(history)) && |placed| == |history|
    && forall id :: 0 <= id < |placed| ==> placed[id] == PlacedAt(history, entries, id)
  }

  lemma PlacedEntries<V(!new)>(history: seq<Operation<V>>, entries: seq<Entry<V>>, placed: seq<Operation<V>>)
    requires AllPlaced(history, entries, placed)
    ensures forall k :: 0 <= k < |entries| ==> KeepsTime(history, entries[k]) && EntryPlaced(placed, entries, k)
  {
    forall k | 0 <= k < |entries| ensures KeepsTime(history, entries[k]) && EntryPlaced(placed, entries, k) {
      PlaceOne(history, entries, k);
    }
  }

  lemma PlacedOps<V(!new)>(history: seq<Operation<V>>, entries: seq<Entry<V>>, placed: seq<Operation<V>>)
    requires Timed(history) && SortedByTime(entries) && AllPlaced(history, entries, placed)
    ensures forall id :: 0 <= id < |placed| ==>
      OpPlaced(placed, entries, id) && placed[id].input == history[id].input && placed[id].output == history[id].output
  {
    hide PlacedAt, Raw, SortedByTime, Timed;
    forall id | 0 <= id < |placed|
      ensures OpPlaced(placed, entries, id)
      ensures placed[id].input == history[id].input && placed[id].output == history[id].output
    {
      PlaceInOrder(history, entries, id);
    }
  }

  method MakeEntries<V(!new)>(history: seq<Operation<V>>) returns (entries: seq<Entry<V>>, ghost placed: seq<Operation<V>>)
    requires Timed(history)
    ensures SortedByTime(entries) && Placement(history, entries, placed)
  {
    entries := [];
    var id := 0;
    while id < |history|
      invariant 0 <= id <= |history|
      invariant entries == Raw(history)[..2 * id]
    {
      var elem := history[id];
      entries := entries + [Entry(false, elem.input, id, elem.call)];
      entries := entries + [Entry(true, elem.output, id, elem.ret)];
      id := id + 1;
    }
    assert Raw(history)[..2 * |history|] == Raw(history);
    entries := SortByTime(entries);
    placed := PlaceAll(history, entries);
  }

  // ----- what the places keep of real time -----

  /** Operations that merely touch count as ordered too. */
  ghost predicate RespectsTouching<V>(order: seq<Operation<V>>) {
    forall i, j :: 0 <= i < j < |order| ==> order[i].call < order[j].ret
  }

  ghost predicate TouchingWitness<S, V>(m: Model<S, V>, ops: multiset<Operation<V>>, order: seq<Operation<V>>) {
    multiset(order) == ops && RespectsTouching(order) && Legal(m, m.init, order)
  }

  ghost predicate LinearizableTouching<S, V(!new)>(m: Model<S, V>, history: seq<Operation<V>>) {
    exists order :: TouchingWitness(m, multiset(history), order)
  }

  /** The same ids, seen in two histories. */
  ghost predicate SameIds<V>(ops: seq<Operation<V>>, ops': seq<Operation<V>>, order: seq<Operation<V>>, order': seq<Operation<V>>) {
    |order| == |order'| && forall i :: 0 <= i < |order| ==> SameId(ops, ops', order[i], order'[i])
  }

  ghost predicate SameId<V>(ops: seq<Operation<V>>, ops': seq<Operation<V>>, op: Operation<V>, op': Operation<V>) {
    exists id :: 0 <= id < |ops| && id < |ops'| && op == ops[id] && op' == ops'[id]
  }

  lemma EmptySameIds<V>(ops: seq<Operation<V>>, ops': seq<Operation<V>>)
    ensures SameIds(ops, ops', [], [])
  {}

  /** A legal order of one history gives one of another with the same inputs and outputs. */
  lemma {:induction false} Transfer<S, V>(m: Model<S, V>, ops: seq<Operation<V>>, ops': seq<Operation<V>>, done: set<nat>, s: S,
                                          order: seq<Operation<V>>) returns (order': seq<Operation<V>>)
    requires |ops| == |ops'|
    requires forall id :: 0 <= id < |ops| ==> ops[id].input == ops'[id].input && ops[id].output == ops'[id].output
    requires multiset(order) == Rem(ops, done) && Legal(m, s, order)
    ensures multiset(order') == Rem(ops', done) && Legal(m, s, order') && SameIds(ops, ops', order, order')
    decreases |order|
  {
    hide Rem, SameIds;
    if order == [] {
      order' := [];
      EmptySameIds(ops, ops');
      if Rem(ops', done) != multiset{} {
        var op :| op in Rem(ops', done);
        var id := RemMember(ops', done, op);
        RemHas(ops, done, id);
        assert false;
      }
    } else {
      assert order == [order[0]] + order[1..];
      assert order[0] in multiset(order);
      var id := RemMember(ops, done, order[0]);
      RemRemove(ops, done, id);
      var rest := Transfer(m, ops, ops', done + {id}, m.step(s, order[0].input, order[0].output).1, order[1..]);
      order' := [ops'[id]] + rest;
      assert order'[1..] == rest;
      RemRemove(ops', done, id);
      RemHas(ops', done, id);
      SameIdsStep(ops, ops', id, order, rest);
    }
  }

  lemma SameIdsStep<V>(ops: seq<Operation<V>>, ops': seq<Operation<V>>, id: nat, order: seq<Operation<V>>, rest: seq<Operation<V>>)
    requires id < |ops| && |ops| == |ops'| && order != [] && order[0] == ops[id]
    requires SameIds(ops, ops', order[1..], rest)
    ensures SameIds(ops, ops', order, [ops'[id]] + rest)
  {
    var order' := [ops'[id]] + rest;
    assert SameId(ops, ops', order[0], order'[0]);
    forall i | 0 <= i < |order| ensures SameId(ops, ops', order[i], order'[i]) {
      assert i > 0 ==> SameId(ops, ops', order[1..][i - 1], rest[i - 1]);
    }
  }

  /** Places keep the order of different times. */
  lemma PlacesKeepOrder<V>(history: seq<Operation<V>>, entries: seq<Entry<V>>, placed: seq<Operation<V>>, a: nat, b: nat)
    requires SortedByTime(entries) && Placement(history, entries, placed) && a < |history| && b < |history|
    ensures history[b].ret < history[a].call ==> placed[b].ret < placed[a].call
    ensures placed[b].ret < placed[a].call ==> history[b].ret <= history[a].call
    ensures SortedReturnsFirst(entries) && history[b].ret <= history[a].call ==> placed[b].ret < placed[a].call
  {
    assert OpPlaced(placed, entries, a) && OpPlaced(placed, entries, b);
    var i, j := placed[b].ret - 1, placed[a].call - 1;
    assert KeepsTime(history, entries[i]) && KeepsTime(history, entries[j]);
    assert i < j ==> entries[i].time <= entries[j].time;
    assert j < i ==> entries[j].time <= entries[i].time;
    assert SortedReturnsFirst(entries) && j < i ==> ReturnsFirst(entries[j], entries[i]);
    assert i != j;
  }

  /** A verdict of true is right, whatever the sort did with equal times. */
  lemma PlacesSound<S, V(!new)>(m: Model<S, V>, history: seq<Operation<V>>, entries: seq<Entry<V>>, placed: seq<Operation<V>>)
    requires SortedByTime(entries) && Placement(history, entries, placed)
    ensures Linearizable(m, placed) ==> Linearizable(m, history)
    ensures Linearizable(m, placed) && SortedReturnsFirst(entries) ==> LinearizableTouching(m, history)
  {
    if Linearizable(m, placed) {
      RemNone(placed);
      RemNone(history);
      var order :| Witness(m, m.init, multiset(placed), order);
      var order' := Transfer(m, placed, history, {}, m.init, order);
      forall i, j | 0 <= i < j < |order'|
        ensures order'[i].call <= order'[j].ret
        ensures SortedReturnsFirst(entries) ==> order'[i].call < order'[j].ret
      {
        assert SameId(placed, history, order[i], order'[i]) && SameId(placed, history, order[j], order'[j]);
        var a :| 0 <= a < |placed| && a < |history| && order[i] == placed[a] && order'[i] == history[a];
        var b :| 0 <= b < |placed| && b < |history| && order[j] == placed[b] && order'[j] == history[b];
        PlacesKeepOrder(history, entries, placed, a, b);
      }
      assert Witness(m, m.init, multiset(history), order');
      assert SortedReturnsFirst(entries) ==> TouchingWitness(m, multiset(history), order');
    }
  }

  /** An order that also keeps touching operations apart is found, whatever the sort did. */
  lemma PlacesComplete<S, V(!new)>(m: Model<S, V>, history: seq<Operation<V>>, entries: seq<Entry<V>>, placed: seq<Operation<V>>)
    requires SortedByTime(entries) && Placement(history, entries, placed)
    ensures LinearizableTouching(m, history) ==> Linearizable(m, placed)
  {
    if LinearizableTouching(m, history) {
      RemNone(placed);
      RemNone(history);
      var order :| TouchingWitness(m, multiset(history), order);
      var order' := Transfer(m, history, placed, {}, m.init, order);
      forall i, j | 0 <= i < j < |order'| ensures order'[i].call <= order'[j].ret {
        assert SameId(history, placed, order[i], order'[i]) && SameId(history, placed, order[j], order'[j]);
        var a :| 0 <= a < |history| && a < |placed| && order[i] == history[a] && order'[i] == placed[a];
        var b :| 0 <= b < |history| && b < |placed| && order[j] == history[b] && order'[j] == placed[b];
        PlacesKeepOrder(history, entries, placed, a, b);
      }
      assert Witness(m, m.init, multiset(placed), order');
    }
  }

  /** No operation returns at the very time at which another is called. */
  ghost predicate NoTies<V>(history: seq<Operation<V>>) {
    forall a, b :: 0 <= a < |history| && 0 <= b < |history| ==> history[a].call != history[b].ret
  }

  lemma WithoutTies<S, V(!new)>(m: Model<S, V>, history: seq<Operation<V>>)
    requires NoTies(history)
    ensures Linearizable(m, history) ==> LinearizableTouching(m, history)
  {
    if Linearizable(m, history) {
      var order: seq<Operation<V>> :| Witness(m, m.init, multiset(history), order);
      forall i, j | 0 <= i < j < |order| ensures order[i].call < order[j].ret {
        assert order[i] in multiset(order) && order[j] in multiset(order);
        assert order[i] in history && order[j] in history;
      }
      assert TouchingWitness(m, multiset(history), order);
    }
  }

  ghost predicate SortOutcome<V>(history: seq<Operation<V>>, entries: seq<Entry<V>>, placed: seq<Operation<V>>) {
    SortedByTime(entries) && Placement(history, entries, placed)
  }

  /** Every outcome of the sort gives the right verdict if and only if ties do not matter. */
  lemma VerdictOverSorts<S, V(!new)>(m: Model<S, V>, history: seq<Operation<V>>)
    requires Timed(history)
    ensures (forall entries, placed :: SortOutcome(history, entries, placed) ==>
              (Linearizable(m, placed) <==> Linearizable(m, history)))
      <==> (Linearizable(m, history) ==> LinearizableTouching(m, history))
  {
    SortSorts(Raw(history));
    var entries := InsertionSort(Raw(history));
    assert SortedByTime(entries);
    var placed := PlaceAll(history, entries);
    assert SortOutcome(history, entries, placed);
    PlacesSound(m, history, entries, placed);
    forall entries, placed | SortOutcome(history, entries, placed)
      ensures LinearizableTouching(m, history) ==> Linearizable(m, placed)
      ensures Linearizable(m, placed) ==> Linearizable(m, history)
    {
      PlacesComplete(m, history, entries, placed);
      PlacesSound(m, history, entries, placed);
    }
  }
}
