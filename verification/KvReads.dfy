/**
 What the key-value model means: a get returns the value of the last put of its key, followed by everything
 that was appended to the key since.
 */
module KvReads {
  import opened History
  import opened KvModel

  predicate IsGet(op: KvOperation) {
    op.input.KvInput? && op.input.op == GET
  }

  predicate IsPut(op: KvOperation) {
    op.input.KvInput? && op.input.op == PUT
  }

  predicate IsAppend(op: KvOperation) {
    op.input.KvInput? && !IsGet(op) && !IsPut(op)
  }

  /** The appended values, in order. */
  function Appended(ops: seq<KvOperation>): string {
    if ops == [] then "" else (if IsAppend(ops[0]) then ops[0].input.value else "") + Appended(ops[1..])
  }

  /** The position of the last put, or -1. */
  function LastPut(ops: seq<KvOperation>): (p: int)
    ensures -1 <= p < |ops| && (p >= 0 ==> IsPut(ops[p]))
    ensures forall j :: p < j < |ops| ==> !IsPut(ops[j])
  {
    if ops == [] then -1 else if IsPut(ops[|ops| - 1]) then |ops| - 1 else LastPut(ops[..|ops| - 1])
  }

  /** What operations on one key leave there, if it held `start` before. */
  function Held(start: string, ops: seq<KvOperation>): string {
    var p := LastPut(ops);
    (if p >= 0 then ops[p].input.value else start) + Appended(ops[p + 1..])
  }

  /** Every get of a key returns what the operations on that key in front of it leave there. */
  ghost predicate ReadsHeld(store: Store, order: seq<KvOperation>) {
    forall i :: 0 <= i < |order| && IsGet(order[i]) ==>
      order[i].output == KvOutput(Held(Lookup(store, order[i].input.key), Only(order[..i], order[i].input.key)))
  }

  ghost predicate AllTyped(order: seq<KvOperation>) {
    forall i :: 0 <= i < |order| ==> WellTyped(order[i])
  }

  lemma LastPutIs(ops: seq<KvOperation>, p: int)
    requires -1 <= p < |ops| && (p >= 0 ==> IsPut(ops[p]))
    requires forall j :: p < j < |ops| ==> !IsPut(ops[j])
    ensures LastPut(ops) == p
  {}

  /** What a put at p, or the start, and the appends behind it leave. */
  lemma HeldIs(start: string, ops: seq<KvOperation>, p: int)
    requires -1 <= p < |ops| && (p >= 0 ==> IsPut(ops[p]))
    requires forall j :: p < j < |ops| ==> !IsPut(ops[j])
    ensures Held(start, ops) == (if p >= 0 then ops[p].input.value else start) + Appended(ops[p + 1..])
  {
    hide Appended;
    LastPutIs(ops, p);
  }

  lemma AppendedFirst(op: KvOperation, rest: seq<KvOperation>)
    ensures Appended([op] + rest) == (if IsAppend(op) then op.input.value else "") + Appended(rest)
  {
    assert ([op] + rest)[1..] == rest;
  }

  ghost predicate NoPut(ops: seq<KvOperation>) {
    forall i :: 0 <= i < |ops| ==> !IsPut(ops[i])
  }

  lemma HeldPut(start: string, a: seq<KvOperation>, put: KvOperation, b: seq<KvOperation>)
    requires IsPut(put) && NoPut(b)
    ensures Held(start, a + [put] + b) == put.input.value + Appended(b)
  {
    hide Appended, Held;
    var ops := a + [put] + b;
    assert forall j :: |a| < j < |ops| ==> ops[j] == b[j - |a| - 1];
    HeldIs(start, ops, |a|);
    assert ops[|a| + 1..] == b;
  }

  lemma HeldKept(start: string, ops: seq<KvOperation>)
    requires NoPut(ops)
    ensures Held(start, ops) == start + Appended(ops)
  {
    hide Appended, Held;
    HeldIs(start, ops, -1);
    assert ops[0..] == ops;
  }

  /** The first operation decides what the others start from. */
  lemma HeldFirst(start: string, op: KvOperation, rest: seq<KvOperation>)
    requires WellTyped(op)
    ensures Held(start, [op] + rest) ==
      Held(if IsGet(op) then start else if IsPut(op) then op.input.value else start + op.input.value, rest)
  {
    hide Appended, Held;
    var p := LastPut(rest);
    var next := if IsGet(op) then start else if IsPut(op) then op.input.value else start + op.input.value;
    if p >= 0 {
      var a, b := rest[..p], rest[p + 1..];
      assert NoPut(b);
      HeldPut(next, a, rest[p], b);
      HeldPut(start, [op] + a, rest[p], b);
      assert a + [rest[p]] + b == rest;
      assert [op] + a + [rest[p]] + b == [op] + rest;
    } else {
      HeldKept(next, rest);
      HeldFront(start, op, rest);
    }
  }

  lemma HeldFront(start: string, op: KvOperation, rest: seq<KvOperation>)
    requires WellTyped(op) && NoPut(rest)
    ensures Held(start, [op] + rest) ==
      (if IsGet(op) then start else if IsPut(op) then op.input.value else start + op.input.value) + Appended(rest)
  {
    hide Appended, Held;
    if IsPut(op) {
      HeldPut(start, [], op, rest);
      assert [] + [op] + rest == [op] + rest;
    } else {
      HeldKept(start, [op] + rest);
      AppendedFirst(op, rest);
      assert "" + Appended(rest) == Appended(rest);
      assert start + (op.input.value + Appended(rest)) == (start + op.input.value) + Appended(rest);
    }
  }

  lemma HeldNone(start: string)
    ensures Held(start, []) == start
  {
    hide Held;
    var none: seq<KvOperation> := [];
    HeldIs(start, none, -1);
    assert none[0..] == [] && start + "" == start;
  }

  /** What the store model makes of one operation. */
  lemma StoreFirst(store: Store, op: KvOperation)
    requires WellTyped(op)
    ensures var r := StoreStep(store, op.input, op.output);
      && (r.0 <==> IsGet(op) ==> op.output.value == Lookup(store, op.input.key))
      && forall key, rest :: Held(Lookup(r.1, key), rest) ==
           Held(Lookup(store, key), (if op.input.key == key then [op] else []) + rest)
  {
    hide Held;
    var r := StoreStep(store, op.input, op.output);
    forall key, rest
      ensures Held(Lookup(r.1, key), rest) == Held(Lookup(store, key), (if op.input.key == key then [op] else []) + rest)
    {
      if op.input.key == key {
        HeldFirst(Lookup(store, key), op, rest);
      } else {
        assert [] + rest == rest;
      }
    }
  }

  lemma OnlyFirst(order: seq<KvOperation>, i: nat, key: string)
    requires 0 < i <= |order| && WellTyped(order[0])
    ensures Only(order[..i], key) == (if order[0].input.key == key then [order[0]] else []) + Only(order[1..][..i - 1], key)
  {
    assert order[..i][1..] == order[1..][..i - 1];
  }

  lemma ReadsFirst(store: Store, order: seq<KvOperation>)
    requires order != [] && WellTyped(order[0])
    ensures var op := order[0]; var next := StoreStep(store, op.input, op.output);
      ReadsHeld(store, order) <==> next.0 && ReadsHeld(next.1, order[1..])
  {
    hide Held, Only;
    var op, rest := order[0], order[1..];
    var next := StoreStep(store, op.input, op.output);
    StoreFirst(store, op);
    forall i | 1 <= i < |order|
      ensures order[i].input.KvInput? ==> var key := order[i].input.key;
        Held(Lookup(next.1, key), Only(rest[..i - 1], key)) == Held(Lookup(store, key), Only(order[..i], key))
    {
      if order[i].input.KvInput? {
        OnlyFirst(order, i, order[i].input.key);
      }
    }
    if IsGet(op) {
      HeldNone(Lookup(store, op.input.key));
      OnlyNothing(op.input.key);
      assert order[..0] == [];
    }
    assert forall i :: 0 <= i < |rest| ==> rest[i] == order[i + 1];
    if ReadsHeld(store, order) {
      forall i | 0 <= i < |rest| && IsGet(rest[i])
        ensures rest[i].output == KvOutput(Held(Lookup(next.1, rest[i].input.key), Only(rest[..i], rest[i].input.key)))
      {
        assert order[i + 1] == rest[i];
      }
    }
    if next.0 && ReadsHeld(next.1, rest) {
      forall i | 0 <= i < |order| && IsGet(order[i])
        ensures order[i].output == KvOutput(Held(Lookup(store, order[i].input.key), Only(order[..i], order[i].input.key)))
      {
        assert i > 0 ==> order[i] == rest[i - 1];
      }
    }
  }

  lemma OnlyNothing(key: string)
    ensures Only([], key) == []
  {}

  /** The store model accepts exactly the orders in which every get returns the last put of its key and what
      was appended since. */
  lemma {:induction false} StoreExactly(store: Store, order: seq<KvOperation>)
    ensures Legal(STORE, store, order) <==> AllTyped(order) && ReadsHeld(store, order)
    decreases |order|
  {
    hide ReadsHeld;
    if order == [] {
      ReadsNothing(store);
    } else if WellTyped(order[0]) {
      ReadsFirst(store, order);
      StoreExactly(StoreStep(store, order[0].input, order[0].output).1, order[1..]);
      assert AllTyped(order[1..]) ==> forall i :: 1 <= i < |order| ==> order[i] == order[1..][i - 1];
    }
  }

  lemma ReadsNothing(store: Store)
    ensures ReadsHeld(store, [])
  {}

  /** The same for the register of one key, whose value is `start` at first. */
  lemma RegisterExactly(start: string, key: string, order: seq<KvOperation>)
    requires forall i :: 0 <= i < |order| ==> OnKey(order[i], key)
    ensures Legal(MODEL, start, order) <==>
      forall i :: 0 <= i < |order| && IsGet(order[i]) ==> order[i].output == KvOutput(Held(start, order[..i]))
  {
    hide Held, Only, Legal;
    var store := map[key := start];
    SameAsStore(store, key, order);
    StoreExactly(store, order);
    forall i | 0 <= i < |order| ensures Only(order[..i], order[i].input.key) == order[..i] {
      OnlyAll(order[..i], key);
    }
  }

  lemma {:induction false} OnlyAll(order: seq<KvOperation>, key: string)
    requires forall i :: 0 <= i < |order| ==> OnKey(order[i], key)
    ensures Only(order, key) == order
  {
    if order != [] {
      OnlyAll(order[1..], key);
      assert order == [order[0]] + order[1..];
    }
  }

  lemma {:induction false} SameAsStore(store: Store, key: string, order: seq<KvOperation>)
    requires forall i :: 0 <= i < |order| ==> OnKey(order[i], key)
    ensures Legal(STORE, store, order) <==> Legal(MODEL, Lookup(store, key), order)
    decreases |order|
  {
    if order != [] {
      SameAsStore(StoreStep(store, order[0].input, order[0].output).1, key, order[1..]);
    }
  }

  /** An order of the history's operations that respects real time and explains every get. */
  ghost predicate Explains(h: seq<KvOperation>, order: seq<KvOperation>) {
    multiset(order) == multiset(h) && RespectsRealTime(order) && AllTyped(order) && ReadsHeld(map[], order)
  }

  ghost predicate Explained(h: seq<KvOperation>) {
    exists order :: Explains(h, order)
  }

  /** A history of the store is linearizable if and only if some order explains every get. */
  lemma StoreMeaning(h: seq<KvOperation>)
    ensures Linearizable(STORE, h) <==> Explained(h)
  {
    hide Legal, RespectsRealTime, AllTyped, ReadsHeld;
    if Linearizable(STORE, h) {
      var order :| Witness(STORE, map[], multiset(h), order);
      StoreExactly(map[], order);
      assert Explains(h, order);
    }
    if Explained(h) {
      var order :| Explains(h, order);
      StoreExactly(map[], order);
      assert Witness(STORE, map[], multiset(h), order);
    }
  }
}
