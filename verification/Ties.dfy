/**
 When equal times matter. For histories whose operations can be told apart by their values, the unstable sort
 gives the right verdict for every model exactly when no operation returns at the time another is called.
 */
module Ties {
  import opened History
  import opened LinkedHistory
  import opened Entries

  /** No two operations have the same input and output. */
  ghost predicate DistinctValues<V>(history: seq<Operation<V>>) {
    forall a, b :: 0 <= a < b < |history| ==> history[a].input != history[b].input || history[a].output != history[b].output
  }

  /** Whatever the sort does with equal times, the entries are judged like the history. */
  ghost predicate RightUnderSorts<S, V(!new)>(m: Model<S, V>, history: seq<Operation<V>>) {
    forall entries, placed :: SortOutcome(history, entries, placed) ==> (Linearizable(m, placed) <==> Linearizable(m, history))
  }

  // ----- calls before returns -----

  ghost predicate Sorts<V>(history: seq<Operation<V>>, entries: seq<Entry<V>>) {
    SortedByTime(entries) && multiset(entries) == multiset(Raw(history))
  }

  /** Entries with an operation's return in front of its call place nothing. */
  lemma ReturnInFront<V>(history: seq<Operation<V>>, entries: seq<Entry<V>>, placed: seq<Operation<V>>, id: nat)
    requires SortedReturnsFirst(entries) && id < |history| && history[id].call >= history[id].ret
    ensures !Placement(history, entries, placed)
  {
    if |placed| == |history| && Places(placed, entries) && OpPlaced(placed, entries, id) {
      var c, r := placed[id].call - 1, placed[id].ret - 1;
      assert ReturnsFirst(entries[c], entries[r]);
      assert !(KeepsTime(history, entries[c]) && KeepsTime(history, entries[r]));
    }
  }

  /** Every outcome of the sort keeps each call in front of its return, so that the operations can be linked, if
      and only if each operation is called strictly before it returns. */
  lemma AlwaysPlaced<V(!new)>(history: seq<Operation<V>>)
    ensures (forall entries :: Sorts(history, entries) ==> exists placed :: Placement(history, entries, placed)) <==> Timed(history)
  {
    if Timed(history) {
      forall entries | Sorts(history, entries) ensures exists placed :: Placement(history, entries, placed) {
        var placed := PlaceAll(history, entries);
      }
    } else {
      var id :| 0 <= id < |history| && history[id].call >= history[id].ret;
      var entries := InsertionSort(Raw(history));
      SortSorts(Raw(history));
      assert Sorts(history, entries);
      forall placed: seq<Operation<V>> ensures !Placement(history, entries, placed) {
        ReturnInFront(history, entries, placed, id);
      }
    }
  }

  // ----- ties between operations -----

  /** A model that accepts the operations of a script one after the other and nothing else. */
  ghost function Script<V>(script: seq<Operation<V>>): Model<int, V> {
    Model(0, (s: int, input, output) =>
      (0 <= s < |script| && script[s].input == input && script[s].output == output, s + 1))
  }

  lemma {:induction false} ScriptAccepts<V>(script: seq<Operation<V>>, k: nat)
    requires k <= |script|
    ensures Legal(Script(script), k, script[k..])
    decreases |script| - k
  {
    if k < |script| {
      ScriptAccepts(script, k + 1);
      assert script[k..][1..] == script[k + 1..];
    }
  }

  lemma {:induction false} ScriptOnly<V>(script: seq<Operation<V>>, k: nat, order: seq<Operation<V>>)
    requires k <= |script| && Legal(Script(script), k, order)
    ensures k + |order| <= |script|
    ensures forall i :: 0 <= i < |order| ==>
      order[i].input == script[k + i].input && order[i].output == script[k + i].output
    decreases |order|
  {
    if order != [] {
      ScriptOnly(script, k + 1, order[1..]);
      forall i | 0 < i < |order|
        ensures order[i].input == script[k + i].input && order[i].output == script[k + i].output
      {
        assert order[i] == order[1..][i - 1];
      }
    }
  }

  // ----- an order in which a tie is turned around -----

  ghost predicate ByCall<V>(s: seq<Operation<V>>) {
    forall i, j :: 0 <= i < j < |s| ==> s[i].call <= s[j].call
  }

  lemma {:induction false} SplitAt<V>(s: seq<Operation<V>>, time: int) returns (k: nat)
    requires ByCall(s)
    ensures k <= |s| && forall i :: 0 <= i < |s| ==> (i < k <==> s[i].call <= time)
  {
    if s == [] || s[|s| - 1].call <= time {
      k := |s|;
    } else {
      k := SplitAt(s[..|s| - 1], time);
    }
  }

  lemma {:induction false} SortCalls<V>(s: seq<Operation<V>>) returns (t: seq<Operation<V>>)
    ensures ByCall(t) && multiset(t) == multiset(s)
  {
    hide ByCall;
    if s == [] {
      t := [];
      NoneByCall<V>();
    } else {
      var rest := SortCalls(s[1..]);
      var k := SplitAt(rest, s[0].call);
      t := rest[..k] + [s[0]] + rest[k..];
      PutIn(rest, k, s[0]);
      PutByCall(rest, k, s[0]);
      assert s == [s[0]] + s[1..];
    }
  }

  lemma NoneByCall<V>()
    ensures ByCall<V>([])
  {}

  lemma PutByCall<V>(s: seq<Operation<V>>, k: nat, op: Operation<V>)
    requires ByCall(s) && k <= |s| && forall i :: 0 <= i < |s| ==> (i < k <==> s[i].call <= op.call)
    ensures ByCall(s[..k] + [op] + s[k..])
  {
    var t := s[..k] + [op] + s[k..];
    forall i | 0 <= i < |t| ensures t[i] == if i < k then s[i] else if i == k then op else s[i - 1] {}
  }

  lemma TurnedOrder<V>(history: seq<Operation<V>>, i: nat, j: nat) returns (order: seq<Operation<V>>, a: nat, b: nat)
    requires Timed(history) && i < |history| && j < |history| && i != j && history[i].ret == history[j].call
    ensures multiset(order) == multiset(history) && RespectsRealTime(order)
    ensures a < b < |order| && order[a] == history[j] && order[b] == history[i]
  {
    var others := TakeOut(history, i, j);
    var sorted := SortCalls(others);
    assert history[j] in multiset(sorted);
    assert history[j] in sorted;
    a :| 0 <= a < |sorted| && sorted[a] == history[j];
    b := SplitAt(sorted, history[i].ret);
    order := sorted[..b] + [history[i]] + sorted[b..];
    PutIn(sorted, b, history[i]);
    forall k | 0 <= k < |sorted| ensures sorted[k].call <= sorted[k].ret {
      assert sorted[k] in multiset(sorted);
      assert sorted[k] in others;
    }
    InsertedOrder(sorted, b, history[i]);
  }

  /** The other operations. */
  lemma TakeOut<V>(history: seq<Operation<V>>, i: nat, j: nat) returns (others: seq<Operation<V>>)
    requires Timed(history) && i < |history| && j < |history| && i != j
    ensures multiset(others) + multiset{history[i]} == multiset(history) && history[j] in multiset(others)
    ensures forall op :: op in others ==> op.call <= op.ret
  {
    others := history[..i] + history[i + 1..];
    assert history == history[..i] + [history[i]] + history[i + 1..];
    assert others[if j < i then j else j - 1] == history[j];
  }

  lemma PutIn<V>(s: seq<Operation<V>>, k: nat, op: Operation<V>)
    requires k <= |s|
    ensures multiset(s[..k] + [op] + s[k..]) == multiset(s) + multiset{op}
  {
    assert s == s[..k] + s[k..];
  }

  lemma InsertedOrder<V>(sorted: seq<Operation<V>>, b: nat, op: Operation<V>)
    requires ByCall(sorted) && b <= |sorted| && op.call <= op.ret
    requires forall k :: 0 <= k < |sorted| ==> (k < b <==> sorted[k].call <= op.ret) && sorted[k].call <= sorted[k].ret
    ensures RespectsRealTime(sorted[..b] + [op] + sorted[b..])
  {
    var order := sorted[..b] + [op] + sorted[b..];
    forall p, q | 0 <= p < q < |order| ensures order[p].call <= order[q].ret {
      assert order[p] == if p < b then sorted[p] else if p == b then op else sorted[p - 1];
      assert order[q] == if q < b then sorted[q] else if q == b then op else sorted[q - 1];
    }
  }

  /** With a tie, the model that scripts the turned order separates the two readings of real time. */
  lemma TieMatters<V(!new)>(history: seq<Operation<V>>, i: nat, j: nat) returns (m: Model<int, V>)
    requires Timed(history) && DistinctValues(history)
    requires i < |history| && j < |history| && history[i].ret == history[j].call
    ensures Linearizable(m, history) && !LinearizableTouching(m, history)
  {
    var order, a, b := TurnedOrder(history, i, j);
    m := Script(order);
    ScriptAccepts(order, 0);
    assert order[0..] == order;
    assert Witness(m, m.init, multiset(history), order);
    forall other: seq<Operation<V>> ensures !TouchingWitness(m, multiset(history), other) {
      if multiset(other) == multiset(history) && Legal(m, m.init, other) {
        ScriptOnly(order, 0, other);
        assert |multiset(other)| == |other| && |multiset(order)| == |order|;
        SameByValues(history, order, other, a);
        SameByValues(history, order, other, b);
        assert !RespectsTouching(other);
      }
    }
  }

  lemma SameByValues<V>(history: seq<Operation<V>>, order: seq<Operation<V>>, other: seq<Operation<V>>, k: nat)
    requires DistinctValues(history) && multiset(order) == multiset(history) == multiset(other) && k < |order| && k < |other|
    requires order[k].input == other[k].input && order[k].output == other[k].output
    ensures order[k] == other[k]
  {
    assert order[k] in multiset(order) && other[k] in multiset(other);
    assert order[k] in history && other[k] in history;
  }

  /** The verdict is right for every model and every outcome of the sort if and only if no operation returns at
      the very time at which another is called. */
  lemma TiesExactly<V(!new)>(history: seq<Operation<V>>)
    requires Timed(history) && DistinctValues(history)
    ensures (forall m: Model<int, V> :: RightUnderSorts(m, history)) <==> NoTies(history)
  {
    forall m: Model<int, V>
      ensures RightUnderSorts(m, history) <==> (Linearizable(m, history) ==> LinearizableTouching(m, history))
      ensures NoTies(history) ==> RightUnderSorts(m, history)
    {
      VerdictOverSorts(m, history);
      if NoTies(history) {
        WithoutTies(m, history);
      }
    }
    if !NoTies(history) {
      var j, i :| 0 <= j < |history| && 0 <= i < |history| && history[j].call == history[i].ret;
      var m := TieMatters(history, i, j);
      assert !RightUnderSorts(m, history);
    }
  }
}
