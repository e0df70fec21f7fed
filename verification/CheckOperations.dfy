/**
 The whole check: partition, one search per part, and the loop that collects the verdicts.
 `Race` is the concurrent collection as a step system; `CheckParts` is its sequential reading,
 which takes the verdicts in any order.
 */
module Race {
  import opened Common

  /** A goroutine searching one part: running, blocked on sending its verdict, or received. */
  datatype Searcher = Running | Ready(verdict: bool) | Received

  datatype State = State(searchers: seq<Searcher>, kill: bool, ok: bool, count: nat, done: bool, timedOut: bool)

  ghost predicate Init(n: nat, s: State) {
    s == State(seq(n, i => Running), false, true, 0, false, false)
  }

  /** A search ends: with the part's true verdict, or with false when it saw the kill flag. */
  ghost predicate Finish(truth: seq<bool>, s: State, i: nat, verdict: bool, s': State) {
    && i < |s.searchers| == |truth| && s.searchers[i] == Running
    && (verdict == truth[i] || (!verdict && s.kill))
    && s' == s.(searchers := s.searchers[i := Ready(verdict)])
  }

  /** The collecting loop takes one verdict. */
  ghost predicate Receive(s: State, i: nat, s': State) {
    && !s.done && i < |s.searchers| && s.searchers[i].Ready?
    && var ok := s.ok && s.searchers[i].verdict;
       var t := s.(searchers := s.searchers[i := Received], ok := ok);
       s' == if !ok then t.(kill := true, done := true)
             else t.(count := s.count + 1, done := s.count + 1 >= |s.searchers|)
  }

  ghost predicate Timeout(s: State, s': State) {
    !s.done && s' == s.(done := true, timedOut := true)
  }

  ghost predicate Next(truth: seq<bool>, timeout: bool, s: State, s': State) {
    || (exists i: nat, verdict :: Finish(truth, s, i, verdict, s'))
    || (exists i: nat :: Receive(s, i, s'))
    || (timeout && Timeout(s, s'))
  }

  /** A run from the start of the collecting loop. */
  ghost predicate Run(truth: seq<bool>, timeout: bool, run: seq<State>) {
    && run != [] && Init(|truth|, run[0])
    && forall k :: 0 <= k < |run| - 1 ==> Next(truth, timeout, run[k], run[k + 1])
  }

  ghost function Taken(s: State): set<nat> {
    set i: nat | i < |s.searchers| && s.searchers[i] == Received
  }

  ghost predicate Inv(truth: seq<bool>, timeout: bool, s: State) {
    && |s.searchers| == |truth|
    && (s.kill <==> !s.ok)
    && (s.timedOut ==> s.done && timeout)
    && (!s.done ==> s.ok && (s.count < |truth| || truth == []))
    && (!s.done ==> forall i: nat :: i < |truth| && s.searchers[i].Ready? ==> s.searchers[i].verdict == truth[i])
    && (s.ok ==> |Taken(s)| == s.count && forall i :: i in Taken(s) ==> truth[i])
    && (!s.ok ==> s.done && !s.timedOut && exists i :: 0 <= i < |truth| && !truth[i])
    && (s.done && s.ok && !s.timedOut ==> s.count >= |truth| > 0)
  }

  lemma ReceiveKeeps(truth: seq<bool>, timeout: bool, s: State, i: nat, s': State)
    requires Inv(truth, timeout, s) && Receive(s, i, s')
    ensures Inv(truth, timeout, s')
  {
    if s'.ok {
      assert Taken(s') == Taken(s) + {i};
      assert i !in Taken(s);
    } else {
      assert !truth[i];
    }
  }

  lemma NextKeeps(truth: seq<bool>, timeout: bool, s: State, s': State)
    requires Inv(truth, timeout, s) && Next(truth, timeout, s, s')
    ensures Inv(truth, timeout, s')
  {
    if i: nat, verdict :| Finish(truth, s, i, verdict, s') {
      assert Taken(s') == Taken(s);
    } else if i: nat :| Receive(s, i, s') {
      ReceiveKeeps(truth, timeout, s, i, s');
    } else {
      assert Taken(s') == Taken(s);
    }
  }

  lemma {:induction false} RunKeeps(truth: seq<bool>, timeout: bool, run: seq<State>)
    requires Run(truth, timeout, run)
    ensures Inv(truth, timeout, run[|run| - 1])
  {
    if |run| == 1 {
      assert Taken(run[0]) == {};
    } else {
      RunKeeps(truth, timeout, run[..|run| - 1]);
      NextKeeps(truth, timeout, run[|run| - 2], run[|run| - 1]);
    }
  }

  lemma {:induction false} AllBelow(n: nat, s: set<nat>)
    requires |s| >= n && forall i :: i in s ==> i < n
    ensures forall i: nat :: i < n ==> i in s
  {
    if n > 0 {
      if n - 1 in s {
        AllBelow(n - 1, s - {n - 1});
        forall i: nat | i < n ensures i in s {
          assert i < n - 1 ==> i in s - {n - 1};
        }
      } else {
        Bounded(s, n - 1);
        assert false;
      }
    }
  }

  /** However the verdicts arrive: without a timeout the answer is true exactly when every part is
      linearizable, a false answer always comes from a part that is not, and exactly then the kill flag is set. */
  lemma CollectsAll(truth: seq<bool>, timeout: bool, run: seq<State>)
    requires Run(truth, timeout, run) && run[|run| - 1].done
    ensures var s := run[|run| - 1];
      && (!s.timedOut ==> (s.ok <==> forall i :: 0 <= i < |truth| ==> truth[i]))
      && (!s.ok ==> exists i :: 0 <= i < |truth| && !truth[i])
      && (s.kill <==> !s.ok)
  {
    RunKeeps(truth, timeout, run);
    var s := run[|run| - 1];
    if s.ok && !s.timedOut {
      AllBelow(|truth|, Taken(s));
      forall i: nat | i < |truth| ensures truth[i] {
        assert i in Taken(s);
      }
    }
  }

  /** Before the loop ends a step is always possible, unless there is no part and no timeout:
      then the loop waits for ever. */
  lemma LoopEndsOrSteps(truth: seq<bool>, timeout: bool, run: seq<State>)
    requires Run(truth, timeout, run)
    ensures var s := run[|run| - 1];
      && (truth == [] && !timeout ==> !s.done && forall s' :: !Next(truth, timeout, s, s'))
      && (truth != [] && !s.done ==> exists s' :: Next(truth, timeout, s, s'))
  {
    RunKeeps(truth, timeout, run);
    var s := run[|run| - 1];
    if truth != [] && !s.done {
      if forall i: nat :: i < |truth| ==> s.searchers[i] == Received {
        CountBelow(|truth|, Taken(s));
      }
      var i: nat :| i < |truth| && s.searchers[i] != Received;
      if s.searchers[i] == Running {
        var s' := s.(searchers := s.searchers[i := Ready(truth[i])]);
        assert Finish(truth, s, i, truth[i], s');
        assert Next(truth, timeout, s, s');
      } else {
        var ok := s.ok && s.searchers[i].verdict;
        var t := s.(searchers := s.searchers[i := Received], ok := ok);
        var s' := if !ok then t.(kill := true, done := true)
                  else t.(count := s.count + 1, done := s.count + 1 >= |s.searchers|);
        assert Receive(s, i, s');
        assert Next(truth, timeout, s, s');
      }
    }
  }

  lemma {:induction false} CountBelow(n: nat, s: set<nat>)
    requires forall i: nat :: i < n ==> i in s
    ensures |s| >= n
  {
    if n > 0 {
      CountBelow(n - 1, s - {n - 1});
    }
  }
}

module CheckOperations {
  import opened History
  import opened Bitset
  import opened LinkedHistory
  import opened Entries
  import Checker
  import KvModel
  import KvReads
  import Race

  /** One part: sort its entries, link them, search. */
  method CheckPart<S(==), V(!new)>(m: Model<S, V>, part: seq<Operation<V>>, kill: nat -> bool, hash: seq<Word> -> nat)
    returns (ok: bool, loads: nat)
    requires Timed(part)
    ensures ok ==> Linearizable(m, part)
    ensures !ok ==> !LinearizableTouching(m, part) || (loads > 0 && kill(loads - 1))
  {
    var entries, placed := MakeEntries(part);
    var l, nodes := MakeLinkedEntries(entries, placed);
    ok, loads := Checker.CheckSingle(m, l, kill, hash, placed, nodes);
    PlacesSound(m, part, entries, placed);
    PlacesComplete(m, part, entries, placed);
  }

  /** Collects the verdicts of the parts in any order, and stops at the first false one. */
  method CheckParts<S(==), V(!new)>(m: Model<S, V>, parts: seq<seq<Operation<V>>>, hash: seq<Word> -> nat) returns (ok: bool)
    requires parts != []
    requires forall i :: 0 <= i < |parts| ==> Timed(parts[i])
    ensures ok ==> forall i :: 0 <= i < |parts| ==> Linearizable(m, parts[i])
    ensures !ok ==> exists i :: 0 <= i < |parts| && !LinearizableTouching(m, parts[i])
  {
    ok := true;
    var count := 0;
    var waiting := set i {:trigger parts[i]} | 0 <= i < |parts|;
    ghost var all := waiting;
    while waiting != {}
      invariant ok && waiting <= all
      invariant forall i :: 0 <= i < |parts| && i !in waiting ==> Linearizable(m, parts[i])
      decreases |waiting|
    {
      var i :| i in waiting;
      waiting := waiting - {i};
      var result, loads := CheckPart(m, parts[i], _ => false, hash);
      ok := ok && result;
      if !ok {
        return;
      }
      count := count + 1;
    }
  }

  /** The check of a key-value history decides linearizability of the whole store. */
  method CheckKv(history: seq<KvModel.KvOperation>, hash: seq<Word> -> nat) returns (ok: bool)
    requires history != [] && Timed(history)
    requires forall op :: op in history ==> KvModel.WellTyped(op)
    ensures ok ==> Linearizable(KvModel.STORE, history) && KvReads.Explained(history)
    ensures !ok && NoTies(history) ==> !Linearizable(KvModel.STORE, history) && !KvReads.Explained(history)
  {
    hide KvReads.Explained, KvModel.Only, KvModel.KeysOf, KvModel.Wellformed, Linearizable, LinearizableTouching, NoTies, Timed;
    var parts, keys := KvModel.Partition(history);
    TimedWellformed(history);
    KvModel.PartitionExact(history, keys);
    KvReads.StoreMeaning(history);
    assert history[0] in history;
    forall i | 0 <= i < |parts| ensures Timed(parts[i]) && (NoTies(history) ==> NoTies(parts[i])) {
      PartKeeps(history, keys[i]);
    }
    ok := CheckParts(KvModel.MODEL, parts, hash);
    if !ok && NoTies(history) {
      var i :| 0 <= i < |parts| && !LinearizableTouching(KvModel.MODEL, parts[i]);
      WithoutTies(KvModel.MODEL, parts[i]);
    }
  }

  lemma TimedWellformed(history: seq<KvModel.KvOperation>)
    requires Timed(history) && forall op :: op in history ==> KvModel.WellTyped(op)
    ensures KvModel.Wellformed(history)
  {}

  lemma PartKeeps(history: seq<KvModel.KvOperation>, key: string)
    ensures Timed(history) ==> Timed(KvModel.Only(history, key))
    ensures NoTies(history) ==> NoTies(KvModel.Only(history, key))
  {
    var part := KvModel.Only(history, key);
    forall i | 0 <= i < |part| ensures part[i] in history {
      KvModel.OnlyIn(history, key, part[i]);
    }
  }

  /** The answers that the searches of the parts give while the kill flag is unset. */
  ghost predicate Answers<S, V(!new)>(m: Model<S, V>, parts: seq<seq<Operation<V>>>, truth: seq<bool>) {
    |truth| == |parts| &&
    forall i :: 0 <= i < |parts| ==>
      (truth[i] ==> Linearizable(m, parts[i])) && (!truth[i] ==> !LinearizableTouching(m, parts[i]))
  }

  /** However the answers of concurrent searches arrive and whenever the kill flag is seen: a false result means
      that some part has no order, a true one without a timeout that every part has one. */
  lemma ConcurrentCheck<S, V(!new)>(m: Model<S, V>, parts: seq<seq<Operation<V>>>, truth: seq<bool>, timeout: bool, run: seq<Race.State>)
    requires Answers(m, parts, truth) && Race.Run(truth, timeout, run) && run[|run| - 1].done
    ensures var s := run[|run| - 1];
      && (s.ok && !s.timedOut ==> forall i :: 0 <= i < |parts| ==> Linearizable(m, parts[i]))
      && (!s.ok ==> exists i :: 0 <= i < |parts| && !LinearizableTouching(m, parts[i]))
  {
    hide Linearizable, LinearizableTouching;
    Race.CollectsAll(truth, timeout, run);
    var s := run[|run| - 1];
    if !s.ok {
      var i :| 0 <= i < |truth| && !truth[i];
      assert !LinearizableTouching(m, parts[i]);
    }
  }

  /** The concurrent check of a key-value history without ties and without a timeout decides linearizability of
      the whole store. */
  lemma ConcurrentKv(history: seq<KvModel.KvOperation>, keys: seq<string>, truth: seq<bool>, run: seq<Race.State>)
    requires Timed(history) && NoTies(history) && KvModel.KeysOf(history, keys)
    requires forall op :: op in history ==> KvModel.WellTyped(op)
    requires Answers(KvModel.MODEL, seq(|keys|, i requires 0 <= i < |keys| => KvModel.Only(history, keys[i])), truth)
    requires Race.Run(truth, false, run) && run[|run| - 1].done
    ensures run[|run| - 1].ok <==> Linearizable(KvModel.STORE, history)
    ensures run[|run| - 1].ok <==> KvReads.Explained(history)
  {
    hide KvReads.Explained, KvModel.Only, KvModel.KeysOf, KvModel.Wellformed, Linearizable, LinearizableTouching, NoTies, Timed, Race.Inv;
    var parts := seq(|keys|, i requires 0 <= i < |keys| => KvModel.Only(history, keys[i]));
    Race.RunKeeps(truth, false, run);
    NoTimeout(truth, run[|run| - 1]);
    ConcurrentCheck(KvModel.MODEL, parts, truth, false, run);
    TimedWellformed(history);
    KvModel.PartitionExact(history, keys);
    KvReads.StoreMeaning(history);
    forall i | 0 <= i < |parts| ensures Linearizable(KvModel.MODEL, parts[i]) ==> LinearizableTouching(KvModel.MODEL, parts[i]) {
      PartKeeps(history, keys[i]);
      WithoutTies(KvModel.MODEL, parts[i]);
    }
    if run[|run| - 1].ok {
      forall i | 0 <= i < |keys| ensures Linearizable(KvModel.MODEL, KvModel.Only(history, keys[i])) {
        assert parts[i] == KvModel.Only(history, keys[i]);
      }
    } else {
      var i :| 0 <= i < |parts| && !LinearizableTouching(KvModel.MODEL, parts[i]);
      assert !Linearizable(KvModel.MODEL, KvModel.Only(history, keys[i]));
    }
  }

  lemma NoTimeout(truth: seq<bool>, s: Race.State)
    requires Race.Inv(truth, false, s)
    ensures !s.timedOut
  {}

  const READ: KvModel.KvOperation := Operation(KvModel.KvInput(KvModel.GET, "k", ""), 0, KvModel.KvOutput("x"), 5)
  const WRITE: KvModel.KvOperation := Operation(KvModel.KvInput(KvModel.PUT, "k", "x"), 5, KvModel.KvOutput(""), 9)

  /** The read sees the write, so the write comes first. */
  lemma OnlyOrder(order: seq<KvModel.KvOperation>)
    requires multiset(order) == multiset([READ, WRITE]) && Legal(KvModel.MODEL, "", order)
    ensures order == [WRITE, READ]
  {
    assert |order| == 2 by { assert |multiset(order)| == |order|; }
    assert order[0] in multiset(order) && order[1] in multiset(order);
    assert WRITE in multiset(order) && READ in multiset(order);
    assert order[0] == WRITE;
  }

  /** With a tie the verdict can be wrong: a read that returns at the very time at which the write
      it saw was called. A sort that puts the return first makes the search answer false. */
  lemma TieExample()
    ensures Timed([READ, WRITE]) && Linearizable(KvModel.MODEL, [READ, WRITE])
    ensures exists entries, placed :: SortOutcome([READ, WRITE], entries, placed) && !Linearizable(KvModel.MODEL, placed)
  {
    var history, order := [READ, WRITE], [WRITE, READ];
    assert order[1..] == [READ] && order[1..][1..] == [];
    assert Legal(KvModel.MODEL, "x", [READ]);
    assert Witness(KvModel.MODEL, "", multiset(history), order);
    forall other: seq<KvModel.KvOperation> ensures !TouchingWitness(KvModel.MODEL, multiset(history), other) {
      if multiset(other) == multiset(history) && Legal(KvModel.MODEL, "", other) {
        OnlyOrder(other);
        assert other[0].call >= other[1].ret;
      }
    }
    VerdictOverSorts(KvModel.MODEL, history);
  }
}
