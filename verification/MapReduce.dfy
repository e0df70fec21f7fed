/**
 The MapReduce pipeline: partition by hash, sort, group, reduce and merge, against a plain
 group-by. An empty partition writes a record with an empty key; the theorems say exactly when
 that does no harm.
 */
module MapReduce {
  import opened Sorting

  datatype KeyValue = KeyValue(key: string, value: string)

  type Reducer = (string, seq<string>) -> string

  // ----- the plain group-by -----

  function Values(pairs: seq<KeyValue>, key: string): seq<string> {
    if pairs == [] then []
    else
      var n := |pairs| - 1;
      Values(pairs[..n], key) + if pairs[n].key == key then [pairs[n].value] else []
  }

  ghost function Keys(pairs: seq<KeyValue>): set<string> {
    set i | 0 <= i < |pairs| :: pairs[i].key
  }

  function Reduced(pairs: seq<KeyValue>, key: string, reduceF: Reducer): string {
    reduceF(key, Sort(Values(pairs, key)))
  }

  /** One entry for each key: the reduction of its sorted values. */
  ghost function GroupBy(pairs: seq<KeyValue>, reduceF: Reducer): map<string, string> {
    map k | k in Keys(pairs) :: Reduced(pairs, k, reduceF)
  }

  lemma {:induction false} ValuesCount(pairs: seq<KeyValue>, key: string, value: string)
    ensures multiset(Values(pairs, key))[value] == multiset(pairs)[KeyValue(key, value)]
  {
    if pairs != [] {
      var n := |pairs| - 1;
      ValuesCount(pairs[..n], key, value);
      assert pairs == pairs[..n] + [pairs[n]];
    }
  }

  /** The order of the pairs does not matter. */
  lemma ReducedSame(a: seq<KeyValue>, b: seq<KeyValue>, key: string, reduceF: Reducer)
    requires multiset(a) == multiset(b)
    ensures Reduced(a, key, reduceF) == Reduced(b, key, reduceF)
  {
    forall v ensures multiset(Values(a, key))[v] == multiset(Values(b, key))[v] {
      ValuesCount(a, key, v);
      ValuesCount(b, key, v);
    }
    assert multiset(Values(a, key)) == multiset(Values(b, key));
    SortSame(Values(a, key), Values(b, key));
  }

  lemma KeysSame(a: seq<KeyValue>, b: seq<KeyValue>)
    requires multiset(a) == multiset(b)
    ensures Keys(a) == Keys(b)
  {
    forall k ensures k in Keys(a) <==> k in Keys(b) {
      if k in Keys(a) {
        var i :| 0 <= i < |a| && a[i].key == k;
        assert a[i] in multiset(b);
        assert a[i] in b;
      }
      if k in Keys(b) {
        var i :| 0 <= i < |b| && b[i].key == k;
        assert b[i] in multiset(a);
        assert b[i] in a;
      }
    }
  }

  /** The group-by does not depend on the order in which the mappers' outputs come. */
  lemma GroupBySame(a: seq<KeyValue>, b: seq<KeyValue>, reduceF: Reducer)
    requires multiset(a) == multiset(b)
    ensures GroupBy(a, reduceF) == GroupBy(b, reduceF)
  {
    KeysSame(a, b);
    forall k | k in Keys(a) ensures Reduced(a, k, reduceF) == Reduced(b, k, reduceF) {
      ReducedSame(a, b, k, reduceF);
    }
  }

  lemma {:induction false} ValuesAppend(a: seq<KeyValue>, b: seq<KeyValue>, key: string)
    ensures Values(a + b, key) == Values(a, key) + Values(b, key)
  {
    if b == [] {
      assert a + b == a;
    } else {
      var n := |b| - 1;
      ValuesAppend(a, b[..n], key);
      assert (a + b)[..|a + b| - 1] == a + b[..n];
    }
  }

  lemma {:induction false} ValuesNone(pairs: seq<KeyValue>, key: string)
    requires key !in Keys(pairs)
    ensures Values(pairs, key) == []
  {
    if pairs != [] {
      var n := |pairs| - 1;
      assert pairs[n].key in Keys(pairs);
      assert forall i :: 0 <= i < n ==> pairs[i].key in Keys(pairs);
      ValuesNone(pairs[..n], key);
    }
  }

  // ----- one reduce task -----

  ghost predicate SortedByKey(pairs: seq<KeyValue>) {
    forall i, j :: 0 <= i < j < |pairs| ==> LE(pairs[i].key, pairs[j].key)
  }

  /** Strictly ascending keys. */
  ghost predicate Ascending(pairs: seq<KeyValue>) {
    forall i, j :: 0 <= i < j < |pairs| ==> LE(pairs[i].key, pairs[j].key) && pairs[i].key != pairs[j].key
  }

  /** The output of a reduce task: one record for each key, in order. */
  ghost predicate ReduceOutput(pairs: seq<KeyValue>, out: seq<KeyValue>, reduceF: Reducer) {
    && Ascending(out) && Keys(out) == Keys(pairs)
    && forall i :: 0 <= i < |out| ==> out[i].value == Reduced(pairs, out[i].key, reduceF)
  }

  function InsertPair(x: KeyValue, s: seq<KeyValue>): seq<KeyValue> {
    if s == [] || LE(x.key, s[0].key) then [x] + s else [s[0]] + InsertPair(x, s[1..])
  }

  function SortPairs(s: seq<KeyValue>): seq<KeyValue> {
    if s == [] then [] else InsertPair(s[0], SortPairs(s[1..]))
  }

  lemma {:induction false} InsertPairSorted(x: KeyValue, s: seq<KeyValue>)
    requires SortedByKey(s)
    ensures SortedByKey(InsertPair(x, s)) && multiset(InsertPair(x, s)) == multiset(s) + multiset{x}
  {
    if s == [] {
    } else if LE(x.key, s[0].key) {
      forall j | 0 <= j < |s| ensures LE(x.key, s[j].key) {
        if j > 0 {
          Trans(x.key, s[0].key, s[j].key);
        }
      }
    } else {
      Total(x.key, s[0].key);
      InsertPairSorted(x, s[1..]);
      var rest := InsertPair(x, s[1..]);
      assert s == [s[0]] + s[1..];
      forall j | 0 <= j < |rest| ensures LE(s[0].key, rest[j].key) {
        assert rest[j] in multiset(s[1..]) + multiset{x};
        assert rest[j] == x || rest[j] in s[1..];
      }
    }
  }

  lemma {:induction false} SortPairsSorted(s: seq<KeyValue>)
    ensures SortedByKey(SortPairs(s)) && multiset(SortPairs(s)) == multiset(s)
  {
    if s != [] {
      SortPairsSorted(s[1..]);
      InsertPairSorted(s[0], SortPairs(s[1..]));
      assert s == [s[0]] + s[1..];
    }
  }

  /** Stands for the library sort: callers know no more than its contract. */
  method SortByKey(pairs: seq<KeyValue>) returns (s: seq<KeyValue>)
    ensures SortedByKey(s) && multiset(s) == multiset(pairs)
  {
    SortPairsSorted(pairs);
    s := SortPairs(pairs);
  }

  /** The pairs ps[s..i] are the ones of one key, and no earlier pair has that key. */
  ghost predicate OneGroup(ps: seq<KeyValue>, s: int, i: int, key: string, values: seq<string>) {
    && 0 <= s <= i <= |ps|
    && (forall j :: s <= j < i ==> ps[j].key == key)
    && (forall j :: 0 <= j < s ==> ps[j].key != key && LE(ps[j].key, key))
    && values == Values(ps[s..i], key)
  }

  /** Writing a finished group. */
  lemma FlushGroup(ps: seq<KeyValue>, s: int, i: int, key: string, values: seq<string>, out: seq<KeyValue>, reduceF: Reducer)
    requires OneGroup(ps, s, i, key, values) && s < i && ReduceOutput(ps[..s], out, reduceF)
    ensures ReduceOutput(ps[..i], out + [KeyValue(key, reduceF(key, Sort(values)))], reduceF)
  {
    hide Values, LE, Sort;
    var rec := KeyValue(key, reduceF(key, Sort(values)));
    var out' := out + [rec];
    GroupValues(ps, s, i, key, values);
    KeysGrow(ps, s, i, key);
    KeysAppend(out, [rec]);
    KeysOne(rec);
    forall j | 0 <= j < |out| ensures out[j].key != key && LE(out[j].key, key) && out[j].value == Reduced(ps[..i], out[j].key, reduceF) {
      assert out[j].key in Keys(out);
      EarlierKey(ps, s, i, key, values, out[j].key);
    }
  }

  lemma KeysOne(rec: KeyValue)
    ensures Keys([rec]) == {rec.key}
  {
    assert [rec][0].key == rec.key;
  }

  /** The values collected for the group are all of its values so far. */
  lemma GroupValues(ps: seq<KeyValue>, s: int, i: int, key: string, values: seq<string>)
    requires OneGroup(ps, s, i, key, values)
    ensures Values(ps[..i], key) == values
  {
    assert ps[..i] == ps[..s] + ps[s..i];
    ValuesAppend(ps[..s], ps[s..i], key);
    ValuesNone(ps[..s], key);
  }

  /** An earlier key keeps its values. */
  lemma EarlierKey(ps: seq<KeyValue>, s: int, i: int, key: string, values: seq<string>, earlier: string)
    requires OneGroup(ps, s, i, key, values) && earlier in Keys(ps[..s])
    ensures earlier != key && LE(earlier, key) && Values(ps[..i], earlier) == Values(ps[..s], earlier)
  {
    var m :| 0 <= m < |ps[..s]| && ps[..s][m].key == earlier;
    assert ps[..i] == ps[..s] + ps[s..i];
    ValuesAppend(ps[..s], ps[s..i], earlier);
    ValuesNone(ps[s..i], earlier);
  }

  lemma KeysAppend(a: seq<KeyValue>, b: seq<KeyValue>)
    ensures Keys(a + b) == Keys(a) + Keys(b)
  {
    forall k ensures k in Keys(a + b) <==> k in Keys(a) || k in Keys(b) {
      if k in Keys(a) {
        var i :| 0 <= i < |a| && a[i].key == k;
        assert (a + b)[i].key == k;
      }
      if k in Keys(b) {
        var i :| 0 <= i < |b| && b[i].key == k;
        assert (a + b)[|a| + i].key == k;
      }
    }
  }

  lemma KeysGrow(ps: seq<KeyValue>, s: int, i: int, key: string)
    requires 0 <= s < i <= |ps| && forall j :: s <= j < i ==> ps[j].key == key
    ensures Keys(ps[..i]) == Keys(ps[..s]) + {key}
  {
    assert ps[..i] == ps[..s] + ps[s..i];
    KeysAppend(ps[..s], ps[s..i]);
    assert ps[s..i][0].key == key;
    assert Keys(ps[s..i]) == {key};
  }

  /** Groups sorted pairs and reduces each group; after the loop the last group is written, and for no
      pairs at all a record with an empty key. */
  method ReducePairs(ps: seq<KeyValue>, reduceF: Reducer) returns (out: seq<KeyValue>)
    requires SortedByKey(ps)
    ensures ps != [] ==> ReduceOutput(ps, out, reduceF)
    ensures ps == [] ==> out == [KeyValue("", reduceF("", []))]
  {
    hide Values, LE, Sort, Keys;
    out := [];
    var values: seq<string> := [];
    var currKey := "";
    ghost var s := 0;
    NoGroup(ps, reduceF);
    for i := 0 to |ps|
      invariant 0 <= s <= i && (i > 0 ==> s < i && currKey == ps[s].key)
      invariant OneGroup(ps, s, i, currKey, values) && ReduceOutput(ps[..s], out, reduceF)
      invariant i == 0 ==> values == [] && currKey == "" && out == [] && s == 0
    {
      if i == 0 {
        currKey := ps[i].key;
        values := values + [ps[i].value];
        StartGroup(ps, 0);
      } else if currKey == ps[i].key {
        GrowGroup(ps, s, i, currKey, values);
        values := values + [ps[i].value];
      } else {
        var sorted := SortStrings(values);
        FlushGroup(ps, s, i, currKey, values, out, reduceF);
        out := out + [KeyValue(currKey, reduceF(currKey, sorted))];
        NextGroup(ps, s, i, currKey, values);
        values := [ps[i].value];
        currKey := ps[i].key;
        s := i;
      }
    }
    var sorted := SortStrings(values);
    if ps != [] {
      FlushGroup(ps, s, |ps|, currKey, values, out, reduceF);
      assert ps[..|ps|] == ps;
    } else {
      SortNothing();
    }
    out := out + [KeyValue(currKey, reduceF(currKey, sorted))];
  }

  lemma SortNothing()
    ensures Sort([]) == []
  {}

  lemma NoGroup(ps: seq<KeyValue>, reduceF: Reducer)
    ensures OneGroup(ps, 0, 0, "", []) && ReduceOutput(ps[..0], [], reduceF)
  {}

  lemma StartGroup(ps: seq<KeyValue>, i: int)
    requires SortedByKey(ps) && 0 <= i < |ps| && forall j :: 0 <= j < i ==> ps[j].key != ps[i].key
    ensures OneGroup(ps, i, i + 1, ps[i].key, [ps[i].value])
  {
    var one := ps[i..i + 1];
    assert one == [ps[i]] && one[..0] == [];
  }

  lemma GrowGroup(ps: seq<KeyValue>, s: int, i: int, key: string, values: seq<string>)
    requires OneGroup(ps, s, i, key, values) && i < |ps| && ps[i].key == key
    ensures OneGroup(ps, s, i + 1, key, values + [ps[i].value])
  {
    var more := ps[s..i + 1];
    assert more[..|more| - 1] == ps[s..i];
  }

  lemma NextGroup(ps: seq<KeyValue>, s: int, i: int, key: string, values: seq<string>)
    requires SortedByKey(ps) && OneGroup(ps, s, i, key, values) && s < i < |ps| && ps[i].key != key && key == ps[s].key
    ensures OneGroup(ps, i, i + 1, ps[i].key, [ps[i].value])
  {
    forall j | 0 <= j < i ensures ps[j].key != ps[i].key {
      if j < s && ps[j].key == ps[i].key {
        assert LE(ps[s].key, ps[i].key) && LE(ps[j].key, ps[s].key);
        AntiSym(ps[j].key, key);
        assert false;
      }
    }
    StartGroup(ps, i);
  }
}
