/**
 The key-value model and its partition by key. A history over the whole store is linearizable
 exactly when each key's part is: the parts' orders can be merged without breaking real time.
 */
module KvModel {
  import opened History

  const GET: nat := 0
  const PUT: nat := 1

  datatype KvValue = KvInput(op: nat, key: string, value: string) | KvOutput(value: string)

  type KvOperation = Operation<KvValue>

  /** The input and the output have the types that the model asserts. */
  predicate WellTyped(op: KvOperation) {
    op.input.KvInput? && op.output.KvOutput?
  }

  function Step(st: string, input: KvValue, output: KvValue): (r: (bool, string)) {
    if !input.KvInput? || !output.KvOutput? then (false, st)
    else if input.op == GET then (output.value == st, st)
    else if input.op == PUT then (true, input.value)
    else (true, st + input.value)
  }

  /** One key's value, initially the empty string. */
  const MODEL: Model<string, KvValue> := Model("", Step)

  type Store = map<string, string>

  function Lookup(store: Store, key: string): string {
    if key in store then store[key] else ""
  }

  function StoreStep(store: Store, input: KvValue, output: KvValue): (bool, Store) {
    if !input.KvInput? then (false, store)
    else
      var r := Step(Lookup(store, input.key), input, output);
      (r.0, store[input.key := r.1])
  }

  /** The whole store, to which each operation applies at its own key. */
  const STORE: Model<Store, KvValue> := Model(map[], StoreStep)

  /** The operations of a history on one key, in order. */
  function Only(h: seq<KvOperation>, key: string): seq<KvOperation> {
    if h == [] then []
    else (if h[0].input.KvInput? && h[0].input.key == key then [h[0]] else []) + Only(h[1..], key)
  }

  predicate OnKey(op: KvOperation, key: string) {
    WellTyped(op) && op.input.key == key
  }

  lemma {:induction false} OnlyAppend(a: seq<KvOperation>, b: seq<KvOperation>, key: string)
    ensures Only(a + b, key) == Only(a, key) + Only(b, key)
  {
    if a == [] {
      assert a + b == b;
    } else {
      assert (a + b)[1..] == a[1..] + b;
      OnlyAppend(a[1..], b, key);
      assert (a + b)[0] == a[0];
    }
  }

  lemma {:induction false} OnlyCount(h: seq<KvOperation>, key: string, x: KvOperation)
    ensures multiset(Only(h, key))[x] == if x.input.KvInput? && x.input.key == key then multiset(h)[x] else 0
  {
    if h != [] {
      OnlyCount(h[1..], key, x);
      assert h == [h[0]] + h[1..];
    }
  }

  lemma OnlySame(a: seq<KvOperation>, b: seq<KvOperation>, key: string)
    requires multiset(a) == multiset(b)
    ensures multiset(Only(a, key)) == multiset(Only(b, key))
  {
    forall x ensures multiset(Only(a, key))[x] == multiset(Only(b, key))[x] {
      OnlyCount(a, key, x);
      OnlyCount(b, key, x);
    }
  }

  lemma {:induction false} OnlyIn(h: seq<KvOperation>, key: string, x: KvOperation)
    ensures x in Only(h, key) <==> x in h && x.input.KvInput? && x.input.key == key
  {
    if h != [] {
      OnlyIn(h[1..], key, x);
    }
  }

  // ----- a legal order of the whole store is legal for each key -----

  lemma {:induction false} OnlyRealTime(order: seq<KvOperation>, key: string)
    requires RespectsRealTime(order)
    ensures RespectsRealTime(Only(order, key))
  {
    if order != [] {
      var rest := Only(order[1..], key);
      OnlyRealTime(order[1..], key);
      forall j | 0 <= j < |rest| ensures order[0].call <= rest[j].ret {
        OnlyIn(order[1..], key, rest[j]);
      }
    }
  }

  lemma {:induction false} OnlyLegal(order: seq<KvOperation>, key: string, store: Store)
    requires Legal(STORE, store, order)
    ensures Legal(MODEL, Lookup(store, key), Only(order, key))
  {
    if order != [] {
      var op := order[0];
      var next := StoreStep(store, op.input, op.output).1;
      OnlyLegal(order[1..], key, next);
      if op.input.key == key {
        var mine := Only(order, key);
        assert mine[1..] == Only(order[1..], key);
      } else {
        assert Only(order, key) == Only(order[1..], key);
      }
    }
  }

  // ----- legal orders of the keys merge into a legal order of the whole store -----

  ghost predicate Distinct(keys: seq<string>) {
    forall i, j :: 0 <= i < j < |keys| ==> keys[i] != keys[j]
  }

  ghost function Total(lanes: seq<seq<KvOperation>>): nat {
    if lanes == [] then 0 else |lanes[0]| + Total(lanes[1..])
  }

  lemma {:induction false} TotalDrop(lanes: seq<seq<KvOperation>>, i: nat)
    requires i < |lanes| && lanes[i] != []
    ensures Total(lanes[i := lanes[i][1..]]) + 1 == Total(lanes)
  {
    if i > 0 {
      TotalDrop(lanes[1..], i - 1);
      assert lanes[i := lanes[i][1..]][1..] == lanes[1..][i - 1 := lanes[1..][i - 1][1..]];
    }
  }

  lemma {:induction false} TotalZero(lanes: seq<seq<KvOperation>>)
    requires Total(lanes) == 0
    ensures forall i :: 0 <= i < |lanes| ==> lanes[i] == []
  {
    if lanes != [] {
      TotalZero(lanes[1..]);
      forall i | 0 <= i < |lanes| ensures lanes[i] == [] {
        assert i > 0 ==> lanes[i] == lanes[1..][i - 1];
      }
    }
  }

  /** One key's order, legal from what the store holds at the key. */
  ghost predicate Lane(store: Store, key: string, lane: seq<KvOperation>) {
    && RespectsRealTime(lane) && Legal(MODEL, Lookup(store, key), lane)
    && forall op :: op in lane ==> OnKey(op, key) && op.call <= op.ret
  }

  ghost predicate Lanes(store: Store, keys: seq<string>, lanes: seq<seq<KvOperation>>) {
    && |keys| == |lanes| && Distinct(keys)
    && forall i :: 0 <= i < |lanes| ==> Lane(store, keys[i], lanes[i])
  }

  ghost predicate Earliest(lanes: seq<seq<KvOperation>>, op: KvOperation) {
    forall i, j :: 0 <= i < |lanes| && 0 <= j < |lanes[i]| ==> op.ret <= lanes[i][j].ret
  }

  lemma {:induction false} EarliestIn(lane: seq<KvOperation>) returns (j: nat)
    requires lane != []
    ensures j < |lane| && forall k :: 0 <= k < |lane| ==> lane[j].ret <= lane[k].ret
  {
    j := 0;
    if |lane| > 1 {
      var k := EarliestIn(lane[1..]);
      assert forall i :: 1 <= i < |lane| ==> lane[i] == lane[1..][i - 1];
      j := if lane[0].ret <= lane[k + 1].ret then 0 else k + 1;
    }
  }

  /** Some remaining operation returns first. */
  lemma {:induction false} FindEarliest(lanes: seq<seq<KvOperation>>) returns (i: nat, j: nat)
    requires Total(lanes) > 0
    ensures i < |lanes| && j < |lanes[i]| && Earliest(lanes, lanes[i][j])
  {
    var rest := lanes[1..];
    assert forall k :: 1 <= k < |lanes| ==> lanes[k] == rest[k - 1];
    if Total(rest) == 0 {
      TotalZero(rest);
      i := 0;
      j := EarliestIn(lanes[0]);
    } else {
      var i', j' := FindEarliest(rest);
      i, j := i' + 1, j';
      if lanes[0] != [] {
        var k := EarliestIn(lanes[0]);
        if lanes[0][k].ret < lanes[i][j].ret {
          i, j := 0, k;
        }
      }
    }
  }

  /** Taking the first operation of one lane. */
  lemma LanesStep(store: Store, keys: seq<string>, lanes: seq<seq<KvOperation>>, i: nat)
    requires Lanes(store, keys, lanes) && i < |lanes| && lanes[i] != []
    ensures var op := lanes[i][0]; var r := StoreStep(store, op.input, op.output);
      && OnKey(op, keys[i]) && r.0 && Lanes(r.1, keys, lanes[i := lanes[i][1..]])
  {
    var op := lanes[i][0];
    assert Lane(store, keys[i], lanes[i]);
    assert op in lanes[i];
    var store' := StoreStep(store, op.input, op.output).1;
    var lanes' := lanes[i := lanes[i][1..]];
    forall k | 0 <= k < |lanes'| ensures Lane(store', keys[k], lanes'[k]) {
      assert Lane(store, keys[k], lanes[k]);
      if k == i {
        assert forall x :: x in lanes'[k] ==> x in lanes[k];
      }
    }
  }

  /** The order holds exactly the lanes. */
  ghost predicate Merges(keys: seq<string>, lanes: seq<seq<KvOperation>>, order: seq<KvOperation>) {
    && |keys| == |lanes|
    && (forall i :: 0 <= i < |keys| ==> Only(order, keys[i]) == lanes[i])
    && (forall op :: op in order ==> exists i :: 0 <= i < |keys| && OnKey(op, keys[i]))
  }

  lemma MergesStep(keys: seq<string>, lanes: seq<seq<KvOperation>>, i: nat, rest: seq<KvOperation>)
    requires Distinct(keys) && i < |lanes| && |keys| == |lanes| && lanes[i] != [] && OnKey(lanes[i][0], keys[i])
    requires Merges(keys, lanes[i := lanes[i][1..]], rest)
    ensures Merges(keys, lanes, [lanes[i][0]] + rest)
  {
    var lanes' := lanes[i := lanes[i][1..]];
    var order := [lanes[i][0]] + rest;
    assert order[1..] == rest;
    forall k | 0 <= k < |keys| ensures Only(order, keys[k]) == lanes[k] {
      assert Only(rest, keys[k]) == lanes'[k];
      assert k == i ==> lanes[k] == [lanes[k][0]] + lanes'[k];
    }
  }

  /** The order's first operation was called before every other one of the lanes returned. */
  lemma MergesBefore(store: Store, keys: seq<string>, lanes: seq<seq<KvOperation>>, i: nat, j: nat, rest: seq<KvOperation>)
    requires Lanes(store, keys, lanes) && i < |lanes| && j < |lanes[i]| && Earliest(lanes, lanes[i][j])
    requires Merges(keys, lanes[i := lanes[i][1..]], rest)
    ensures forall op :: op in rest ==> lanes[i][0].call <= op.ret
  {
    var lanes' := lanes[i := lanes[i][1..]];
    assert Lane(store, keys[i], lanes[i]);
    assert lanes[i][0] in lanes[i];
    assert lanes[i][0].call <= lanes[i][j].ret;
    forall op | op in rest ensures lanes[i][0].call <= op.ret {
      var k :| 0 <= k < |keys| && OnKey(op, keys[k]);
      OnlyIn(rest, keys[k], op);
      assert op in lanes'[k];
      assert op in lanes[k];
    }
  }

  lemma {:induction false} MergeLanes(store: Store, keys: seq<string>, lanes: seq<seq<KvOperation>>) returns (order: seq<KvOperation>)
    requires Lanes(store, keys, lanes)
    ensures RespectsRealTime(order) && Legal(STORE, store, order) && Merges(keys, lanes, order)
    decreases Total(lanes)
  {
    if Total(lanes) == 0 {
      TotalZero(lanes);
      order := [];
    } else {
      var i, j := FindEarliest(lanes);
      var op := lanes[i][0];
      LanesStep(store, keys, lanes, i);
      TotalDrop(lanes, i);
      var rest := MergeLanes(StoreStep(store, op.input, op.output).1, keys, lanes[i := lanes[i][1..]]);
      order := [op] + rest;
      MergesStep(keys, lanes, i, rest);
      MergesBefore(store, keys, lanes, i, j, rest);
      hide Lanes, Merges, Earliest, Total;
      assert order[1..] == rest;
      assert Witness(STORE, StoreStep(store, op.input, op.output).1, multiset(rest), rest);
      PrependStep(STORE, store, op, multiset(rest), rest);
    }
  }

  // ----- partitioning is exact -----

  ghost predicate Wellformed(h: seq<KvOperation>) {
    forall op :: op in h ==> WellTyped(op) && op.call <= op.ret
  }

  /** The keys are those of the history, each once. */
  ghost predicate KeysOf(h: seq<KvOperation>, keys: seq<string>) {
    Distinct(keys) && forall op :: op in h ==> exists i :: 0 <= i < |keys| && OnKey(op, keys[i])
  }

  lemma {:induction false} WitnessLanes(h: seq<KvOperation>, keys: seq<string>, n: nat) returns (lanes: seq<seq<KvOperation>>)
    requires n <= |keys|
    requires forall i :: 0 <= i < |keys| ==> Linearizable(MODEL, Only(h, keys[i]))
    ensures |lanes| == n
    ensures forall i :: 0 <= i < n ==> Witness(MODEL, "", multiset(Only(h, keys[i])), lanes[i])
  {
    hide Only, Legal, RespectsRealTime, Witness;
    if n == 0 {
      lanes := [];
    } else {
      var before := WitnessLanes(h, keys, n - 1);
      assert Linearizable(MODEL, Only(h, keys[n - 1]));
      var lane :| Witness(MODEL, "", multiset(Only(h, keys[n - 1])), lane);
      lanes := before + [lane];
    }
  }

  lemma WitnessIsLane(h: seq<KvOperation>, key: string, lane: seq<KvOperation>)
    requires Wellformed(h) && Witness(MODEL, "", multiset(Only(h, key)), lane)
    ensures Lane(map[], key, lane)
  {
    forall op | op in lane ensures OnKey(op, key) && op.call <= op.ret {
      assert op in multiset(lane);
      assert op in Only(h, key);
      OnlyIn(h, key, op);
    }
  }

  lemma MergedIsPermutation(h: seq<KvOperation>, keys: seq<string>, lanes: seq<seq<KvOperation>>, order: seq<KvOperation>)
    requires KeysOf(h, keys) && Merges(keys, lanes, order)
    requires forall i :: 0 <= i < |lanes| ==> multiset(lanes[i]) == multiset(Only(h, keys[i]))
    ensures multiset(order) == multiset(h)
  {
    forall x ensures multiset(order)[x] == multiset(h)[x] {
      if x in order || x in h {
        var i :| 0 <= i < |keys| && OnKey(x, keys[i]);
        OnlyCount(order, keys[i], x);
        OnlyCount(h, keys[i], x);
        assert Only(order, keys[i]) == lanes[i];
      }
    }
  }

  /** A history is linearizable if and only if each key's part is. */
  lemma PartitionExact(h: seq<KvOperation>, keys: seq<string>)
    requires Wellformed(h) && KeysOf(h, keys)
    ensures Linearizable(STORE, h) <==> forall i :: 0 <= i < |keys| ==> Linearizable(MODEL, Only(h, keys[i]))
  {
    if Linearizable(STORE, h) {
      var order :| Witness(STORE, map[], multiset(h), order);
      forall i | 0 <= i < |keys| ensures Linearizable(MODEL, Only(h, keys[i])) {
        OnlyRealTime(order, keys[i]);
        OnlyLegal(order, keys[i], map[]);
        OnlySame(order, h, keys[i]);
        assert Witness(MODEL, "", multiset(Only(h, keys[i])), Only(order, keys[i]));
      }
    }
    if forall i :: 0 <= i < |keys| ==> Linearizable(MODEL, Only(h, keys[i])) {
      MergeParts(h, keys);
    }
  }

  lemma MergeParts(h: seq<KvOperation>, keys: seq<string>)
    requires Wellformed(h) && KeysOf(h, keys)
    requires forall i :: 0 <= i < |keys| ==> Linearizable(MODEL, Only(h, keys[i]))
    ensures Linearizable(STORE, h)
  {
    var lanes := WitnessLanes(h, keys, |keys|);
    forall i | 0 <= i < |keys|
      ensures Lane(map[], keys[i], lanes[i]) && multiset(lanes[i]) == multiset(Only(h, keys[i]))
    {
      WitnessIsLane(h, keys[i], lanes[i]);
    }
    hide Lane, Legal, RespectsRealTime, Linearizable, CanFinish;
    var order := MergeLanes(map[], keys, lanes);
    MergedIsPermutation(h, keys, lanes, order);
    Finish(h, order);
  }

  lemma Finish(h: seq<KvOperation>, order: seq<KvOperation>)
    requires multiset(order) == multiset(h) && RespectsRealTime(order) && Legal(STORE, map[], order)
    ensures Linearizable(STORE, h)
  {
    assert Witness(STORE, map[], multiset(h), order);
  }

  ghost function Bucket(m: map<string, seq<KvOperation>>, key: string): seq<KvOperation> {
    if key in m then m[key] else []
  }

  lemma BucketStep(m: map<string, seq<KvOperation>>, h: seq<KvOperation>, op: KvOperation)
    requires WellTyped(op) && forall key :: Bucket(m, key) == Only(h, key)
    ensures forall key :: Bucket(m[op.input.key := Bucket(m, op.input.key) + [op]], key) == Only(h + [op], key)
  {
    var m' := m[op.input.key := Bucket(m, op.input.key) + [op]];
    forall key ensures Bucket(m', key) == Only(h + [op], key) {
      OnlyAppend(h, [op], key);
      assert [op][1..] == [];
      assert Only([op], key) == if op.input.key == key then [op] else [];
    }
  }

  method GroupByKey(history: seq<KvOperation>) returns (m: map<string, seq<KvOperation>>)
    requires forall op :: op in history ==> WellTyped(op)
    ensures forall key :: Bucket(m, key) == Only(history, key)
    ensures forall key :: key in m ==> m[key] != []
  {
    m := map[];
    for i := 0 to |history|
      invariant forall key :: Bucket(m, key) == Only(history[..i], key)
      invariant forall key :: key in m ==> m[key] != []
    {
      assert history[i] in history;
      assert history[..i + 1] == history[..i] + [history[i]];
      BucketStep(m, history[..i], history[i]);
      var key := history[i].input.key;
      m := m[key := (if key in m then m[key] else []) + [history[i]]];
    }
    assert history[..|history|] == history;
  }

  /** Splits a history by key. The parts come in any order of the keys, as from a Go map. */
  method Partition(history: seq<KvOperation>) returns (parts: seq<seq<KvOperation>>, ghost keys: seq<string>)
    requires forall op :: op in history ==> WellTyped(op)
    ensures KeysOf(history, keys) && |parts| == |keys|
    ensures forall i :: 0 <= i < |parts| ==> parts[i] == Only(history, keys[i]) && parts[i] != []
    ensures forall op :: op in history ==> exists i :: 0 <= i < |parts| && op in parts[i]
    ensures forall i, op :: 0 <= i < |parts| && op in parts[i] ==> op in history && parts[i] == Only(history, op.input.key)
  {
    hide Only, KeysOf;
    var m := GroupByKey(history);
    parts, keys := [], [];
    var left := m.Keys;
    while left != {}
      invariant |parts| == |keys| && Distinct(keys) && left <= m.Keys
      invariant forall key :: key in m ==> (key in left <==> key !in keys)
      invariant forall i :: 0 <= i < |keys| ==> keys[i] in m && parts[i] == m[keys[i]]
      decreases |left|
    {
      var key :| key in left;
      parts, keys, left := parts + [m[key]], keys + [key], left - {key};
    }
    AllKeys(history, m, keys);
    forall i | 0 <= i < |parts| ensures parts[i] == Only(history, keys[i]) {
      assert Bucket(m, keys[i]) == Only(history, keys[i]);
    }
    PartsAreKeys(history, keys, parts);
  }

  lemma AllKeys(history: seq<KvOperation>, m: map<string, seq<KvOperation>>, keys: seq<string>)
    requires forall op :: op in history ==> WellTyped(op)
    requires forall key :: Bucket(m, key) == Only(history, key)
    requires Distinct(keys) && forall key :: key in m ==> key in keys
    ensures KeysOf(history, keys)
  {
    forall op | op in history ensures exists i :: 0 <= i < |keys| && OnKey(op, keys[i]) {
      OnlyIn(history, op.input.key, op);
      assert Bucket(m, op.input.key) == Only(history, op.input.key);
      assert op.input.key in keys;
    }
  }

  lemma PartsAreKeys(history: seq<KvOperation>, keys: seq<string>, parts: seq<seq<KvOperation>>)
    requires KeysOf(history, keys) && |parts| == |keys|
    requires forall op :: op in history ==> WellTyped(op)
    requires forall i :: 0 <= i < |parts| ==> parts[i] == Only(history, keys[i])
    ensures forall op :: op in history ==> exists i :: 0 <= i < |parts| && op in parts[i]
    ensures forall i, op :: 0 <= i < |parts| && op in parts[i] ==> op in history && parts[i] == Only(history, op.input.key)
  {
    forall op | op in history ensures exists i :: 0 <= i < |parts| && op in parts[i] {
      var i :| 0 <= i < |keys| && OnKey(op, keys[i]);
      OnlyIn(history, keys[i], op);
      assert op in parts[i];
    }
    forall i, op | 0 <= i < |parts| && op in parts[i] ensures op in history && parts[i] == Only(history, op.input.key) {
      OnlyIn(history, keys[i], op);
    }
  }
}
