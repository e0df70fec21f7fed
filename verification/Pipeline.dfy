/**
 The whole job: map tasks write one file per reduce task, reduce tasks read one file per map task,
 and the merge collects the reduce outputs into one map, in sorted order of the keys.
 */
module Pipeline {
  import opened Common
  import opened Sorting
  import opened MapReduce

  type Hash = string -> nat

  /** The pairs that go to reduce task r. */
  function Part(pairs: seq<KeyValue>, hash: Hash, n: nat, r: nat): seq<KeyValue>
    requires n > 0
  {
    if pairs == [] then []
    else
      var m := |pairs| - 1;
      Part(pairs[..m], hash, n, r) + if hash(pairs[m].key) % n == r then [pairs[m]] else []
  }

  lemma {:induction false} PartAppend(a: seq<KeyValue>, b: seq<KeyValue>, hash: Hash, n: nat, r: nat)
    requires n > 0
    ensures Part(a + b, hash, n, r) == Part(a, hash, n, r) + Part(b, hash, n, r)
  {
    if b == [] {
      assert a + b == a;
    } else {
      var m := |b| - 1;
      PartAppend(a, b[..m], hash, n, r);
      assert (a + b)[..|a + b| - 1] == a + b[..m];
    }
  }

  /** A part has all the values of its keys. */
  lemma {:induction false} PartValues(pairs: seq<KeyValue>, hash: Hash, n: nat, r: nat, key: string)
    requires n > 0 && hash(key) % n == r
    ensures Values(Part(pairs, hash, n, r), key) == Values(pairs, key)
  {
    if pairs != [] {
      var m := |pairs| - 1;
      PartValues(pairs[..m], hash, n, r, key);
      if hash(pairs[m].key) % n == r {
        var part := Part(pairs, hash, n, r);
        assert part[..|part| - 1] == Part(pairs[..m], hash, n, r);
      } else {
        assert Part(pairs, hash, n, r) == Part(pairs[..m], hash, n, r);
      }
    }
  }

  lemma {:induction false} PartKeys(pairs: seq<KeyValue>, hash: Hash, n: nat, r: nat, key: string)
    requires n > 0
    ensures key in Keys(Part(pairs, hash, n, r)) <==> key in Keys(pairs) && hash(key) % n == r
  {
    if pairs != [] {
      var m := |pairs| - 1;
      PartKeys(pairs[..m], hash, n, r, key);
      KeysAppend(pairs[..m], [pairs[m]]);
      assert pairs == pairs[..m] + [pairs[m]];
      KeysOne(pairs[m]);
      if hash(pairs[m].key) % n == r {
        KeysAppend(Part(pairs[..m], hash, n, r), [pairs[m]]);
      } else {
        assert Part(pairs, hash, n, r) == Part(pairs[..m], hash, n, r);
      }
    }
  }

  // ----- what the merge collects -----

  /** What one reduce task contributes. */
  ghost function PartMap(part: seq<KeyValue>, reduceF: Reducer): map<string, string> {
    if part == [] then map["" := reduceF("", [])] else GroupBy(part, reduceF)
  }

  /** The merged map after the first r reduce outputs; later ones win. */
  ghost function Merged(all: seq<KeyValue>, hash: Hash, n: nat, reduceF: Reducer, r: nat): map<string, string>
    requires n > 0
  {
    if r == 0 then map[] else Merged(all, hash, n, reduceF, r - 1) + PartMap(Part(all, hash, n, r - 1), reduceF)
  }

  ghost predicate Empty(all: seq<KeyValue>, hash: Hash, n: nat, r: nat)
    requires n > 0
  {
    Part(all, hash, n, r) == []
  }

  /** An empty part among the first r whose record for the empty key is not overwritten. */
  ghost predicate Stray(all: seq<KeyValue>, hash: Hash, n: nat, r: nat)
    requires n > 0
  {
    exists e: nat :: e < r && Empty(all, hash, n, e) && ("" in Keys(all) && hash("") % n < r ==> hash("") % n < e)
  }

  lemma PartMapAt(all: seq<KeyValue>, hash: Hash, n: nat, reduceF: Reducer, r: nat, key: string)
    requires n > 0
    ensures var m := PartMap(Part(all, hash, n, r), reduceF);
      && (key in m <==> (key in Keys(all) && hash(key) % n == r) || (key == "" && Empty(all, hash, n, r)))
      && (key in m && Empty(all, hash, n, r) ==> m[key] == reduceF("", []))
      && (key in m && !Empty(all, hash, n, r) ==> m[key] == Reduced(all, key, reduceF))
  {
    var part := Part(all, hash, n, r);
    PartKeys(all, hash, n, r, key);
    if part == [] {
      assert Keys(part) == {};
    } else {
      if key in Keys(part) {
        PartValues(all, hash, n, r, key);
      }
      if key == "" && key !in Keys(part) {
        assert key !in GroupBy(part, reduceF);
      }
    }
  }

  /** What the merge holds for each key after r outputs. */
  lemma {:induction false} MergedAt(all: seq<KeyValue>, hash: Hash, n: nat, reduceF: Reducer, r: nat, key: string)
    requires n > 0
    ensures var m := Merged(all, hash, n, reduceF, r);
      var present := key in Keys(all) && hash(key) % n < r;
      var stray := key == "" && Stray(all, hash, n, r);
      && (key in m <==> present || stray)
      && (key in m ==> m[key] == if stray then reduceF("", []) else Reduced(all, key, reduceF))
  {
    hide Stray, Empty, Keys, PartMap, Part, Reduced;
    if r == 0 {
      NoStray(all, hash, n);
    } else {
      MergedAt(all, hash, n, reduceF, r - 1, key);
      PartMapAt(all, hash, n, reduceF, r - 1, key);
      StrayStep(all, hash, n, r - 1);
      FullPart(all, hash, n, r - 1, key);
    }
  }

  lemma NoStray(all: seq<KeyValue>, hash: Hash, n: nat)
    requires n > 0
    ensures !Stray(all, hash, n, 0)
  {}

  lemma FullPart(all: seq<KeyValue>, hash: Hash, n: nat, r: nat, key: string)
    requires n > 0
    ensures key in Keys(all) && hash(key) % n == r ==> !Empty(all, hash, n, r)
  {
    PartKeys(all, hash, n, r, key);
  }

  lemma StrayStep(all: seq<KeyValue>, hash: Hash, n: nat, r: nat)
    requires n > 0
    ensures Stray(all, hash, n, r + 1) <==>
      if "" in Keys(all) && hash("") % n == r then false
      else Stray(all, hash, n, r) || Empty(all, hash, n, r)
  {
    if "" in Keys(all) && hash("") % n == r {
      PartKeys(all, hash, n, r, "");
    } else {
      if Stray(all, hash, n, r) {
        var e: nat :| e < r && Empty(all, hash, n, e) && ("" in Keys(all) && hash("") % n < r ==> hash("") % n < e);
        assert e < r + 1 && Empty(all, hash, n, e);
      }
      if Empty(all, hash, n, r) {
        assert r < r + 1;
      }
    }
  }

  /** The job yields the plain group-by if and only if no empty part leaves a stray record for the
      empty key, or that record happens to be the right one. */
  lemma PipelineExact(all: seq<KeyValue>, hash: Hash, n: nat, reduceF: Reducer)
    requires n > 0
    ensures Merged(all, hash, n, reduceF, n) == GroupBy(all, reduceF) <==>
      (Stray(all, hash, n, n) ==> "" in Keys(all) && reduceF("", []) == Reduced(all, "", reduceF))
  {
    hide Stray, Merged, Keys, Reduced;
    var m, g := Merged(all, hash, n, reduceF, n), GroupBy(all, reduceF);
    forall key
      ensures key != "" ==> (key in m <==> key in g) && (key in m ==> m[key] == g[key])
      ensures key == "" ==> (key in m <==> key in g || Stray(all, hash, n, n))
      ensures key == "" && key in m ==> m[key] == if Stray(all, hash, n, n) then reduceF("", []) else Reduced(all, key, reduceF)
    {
      MergedAt(all, hash, n, reduceF, n, key);
      assert hash(key) % n < n;
    }
    MergedAt(all, hash, n, reduceF, n, "");
    if Stray(all, hash, n, n) {
      if m == g {
        assert "" in m && "" in g;
        assert m[""] == g[""];
      }
    }
  }

  /** With every part non-empty, the result is the group-by: it depends neither on the number of reduce
      tasks nor on the order of the mappers' outputs. */
  lemma PipelineIndependent(all: seq<KeyValue>, all': seq<KeyValue>, hash: Hash, n: nat, n': nat, reduceF: Reducer)
    requires n > 0 && n' > 0 && multiset(all) == multiset(all')
    requires (forall r: nat :: r < n ==> !Empty(all, hash, n, r)) && (forall r: nat :: r < n' ==> !Empty(all', hash, n', r))
    ensures Merged(all, hash, n, reduceF, n) == Merged(all', hash, n', reduceF, n') == GroupBy(all, reduceF)
  {
    PipelineExact(all, hash, n, reduceF);
    PipelineExact(all', hash, n', reduceF);
    GroupBySame(all, all', reduceF);
  }

  /** A concrete stray record: one pair, two reduce tasks. */
  lemma StrayExample(hash: Hash, reduceF: Reducer)
    requires hash("a") % 2 == 0
    ensures Merged([KeyValue("a", "1")], hash, 2, reduceF, 2) != GroupBy([KeyValue("a", "1")], reduceF)
  {
    var all := [KeyValue("a", "1")];
    assert all[..0] == [];
    assert Empty(all, hash, 2, 1);
    KeysOne(all[0]);
    assert Stray(all, hash, 2, 2);
    PipelineExact(all, hash, 2, reduceF);
  }

  // ----- the tasks -----

  function Concat(parts: seq<seq<KeyValue>>): seq<KeyValue> {
    if parts == [] then [] else Concat(parts[..|parts| - 1]) + parts[|parts| - 1]
  }

  function Content(files: map<(nat, nat), seq<KeyValue>>, name: (nat, nat)): seq<KeyValue> {
    if name in files then files[name] else []
  }

  /** Adding records to the map in order. */
  ghost function AddAll(m: map<string, string>, recs: seq<KeyValue>): map<string, string> {
    if recs == [] then m
    else AddAll(m, recs[..|recs| - 1])[recs[|recs| - 1].key := recs[|recs| - 1].value]
  }

  lemma {:induction false} AddAllAt(m: map<string, string>, recs: seq<KeyValue>, key: string)
    requires Ascending(recs)
    ensures var t := AddAll(m, recs);
      && (key in t <==> key in m || key in Keys(recs))
      && (key in t && key !in Keys(recs) ==> t[key] == m[key])
      && (forall i :: 0 <= i < |recs| && recs[i].key == key ==> key in t && t[key] == recs[i].value)
  {
    hide LE;
    if recs != [] {
      var n := |recs| - 1;
      AddAllAt(m, recs[..n], key);
      KeysAppend(recs[..n], [recs[n]]);
      KeysOne(recs[n]);
      assert recs == recs[..n] + [recs[n]];
      forall i | 0 <= i < |recs| && recs[i].key == key ensures AddAll(m, recs)[key] == recs[i].value {
        assert i < n ==> recs[..n][i] == recs[i];
      }
    }
  }

  /** Merging a reduce output adds its part's group-by. */
  lemma MergeOutput(m: map<string, string>, part: seq<KeyValue>, ps: seq<KeyValue>, out: seq<KeyValue>, reduceF: Reducer)
    requires multiset(ps) == multiset(part)
    requires if ps == [] then out == [KeyValue("", reduceF("", []))] else ReduceOutput(ps, out, reduceF)
    ensures AddAll(m, out) == m + PartMap(part, reduceF)
  {
    hide LE, Reduced, AddAll;
    assert |multiset(ps)| == |ps| && |multiset(part)| == |part|;
    KeysSame(ps, part);
    var pm := PartMap(part, reduceF);
    if ps == [] {
      KeysOne(out[0]);
      assert Ascending(out);
    }
    forall key ensures key in pm <==> key in Keys(out) {}
    forall key
      ensures key in AddAll(m, out) <==> key in m || key in pm
      ensures key in AddAll(m, out) ==> AddAll(m, out)[key] == if key in pm then pm[key] else m[key]
    {
      AddAllAt(m, out, key);
      if key in Keys(out) {
        var i :| 0 <= i < |out| && out[i].key == key;
        if ps != [] {
          ReducedSame(ps, part, key, reduceF);
        }
      }
    }
  }

  /** What reduce task r reads: its files of the first k map tasks. */
  function Gathered(files: map<(nat, nat), seq<KeyValue>>, k: nat, r: nat): seq<KeyValue> {
    if k == 0 then [] else Gathered(files, k - 1, r) + Content(files, (k - 1, r))
  }

  lemma ConcatNone(parts: seq<seq<KeyValue>>)
    ensures Concat(parts[..0]) == []
  {}

  lemma ConcatLast(parts: seq<seq<KeyValue>>, k: nat)
    requires 0 < k <= |parts|
    ensures Concat(parts[..k]) == Concat(parts[..k - 1]) + parts[k - 1]
  {
    assert parts[..k][..k - 1] == parts[..k - 1];
  }

  /** The files of reduce task r hold its part of everything the map tasks produced. */
  lemma {:induction false} GatheredIsPart(files: map<(nat, nat), seq<KeyValue>>, mapped: seq<seq<KeyValue>>, k: nat, r: nat, hash: Hash, n: nat)
    requires n > 0 && k <= |mapped|
    requires forall m: nat :: m < |mapped| ==> Content(files, (m, r)) == Part(mapped[m], hash, n, r)
    ensures Gathered(files, k, r) == Part(Concat(mapped[..k]), hash, n, r)
  {
    hide Part, Concat, Content;
    if k == 0 {
      ConcatNone(mapped);
      PartNone(hash, n, r);
    } else {
      GatheredIsPart(files, mapped, k - 1, r, hash, n);
      ConcatLast(mapped, k);
      PartAppend(Concat(mapped[..k - 1]), mapped[k - 1], hash, n, r);
    }
  }

  class Job {
    var inter: map<(nat, nat), seq<KeyValue>>  // intermediate files, by map task and reduce task
    var outs: map<nat, seq<KeyValue>>          // the reduce tasks' output files

    constructor ()
      ensures inter == map[] && outs == map[]
    {
      inter, outs := map[], map[];
    }

    /** One map task: each pair is appended to the file of its reduce task. */
    method DoMap(mapTask: nat, kvpairs: seq<KeyValue>, nReduce: nat, hash: Hash)
      requires nReduce > 0
      modifies this`inter
      ensures forall r: nat :: r < nReduce ==>
        Content(inter, (mapTask, r)) == Content(old(inter), (mapTask, r)) + Part(kvpairs, hash, nReduce, r)
      ensures forall name: (nat, nat) :: name.0 != mapTask ==> Content(inter, name) == Content(old(inter), name)
    {
      hide Part;
      ghost var files := inter;
      for i := 0 to nReduce
        invariant forall r: nat :: r < i ==> (mapTask, r) in inter
        invariant forall name :: Content(inter, name) == Content(files, name)
      {
        if (mapTask, i) !in inter {
          inter := inter[(mapTask, i) := []];
        }
      }
      NothingWritten(files, inter, mapTask, kvpairs, hash, nReduce);
      AppendPairs(mapTask, kvpairs, nReduce, hash, files);
    }

    method AppendPairs(mapTask: nat, kvpairs: seq<KeyValue>, nReduce: nat, hash: Hash, ghost files: map<(nat, nat), seq<KeyValue>>)
      requires nReduce > 0 && Wrote(files, inter, mapTask, kvpairs[..0], hash, nReduce)
      modifies this`inter
      ensures Wrote(files, inter, mapTask, kvpairs, hash, nReduce)
    {
      hide Part, Wrote;
      for i := 0 to |kvpairs|
        invariant Wrote(files, inter, mapTask, kvpairs[..i], hash, nReduce)
      {
        var r := hash(kvpairs[i].key) % nReduce;
        WroteNext(files, inter, mapTask, kvpairs, i, hash, nReduce);
        inter := inter[(mapTask, r) := inter[(mapTask, r)] + [kvpairs[i]]];
      }
      assert kvpairs[..|kvpairs|] == kvpairs;
    }

    /** One reduce task: gather, sort by key, group, reduce, append to the output file. */
    method DoReduce(reduceTask: nat, nMap: nat, reduceF: Reducer) returns (ghost ps: seq<KeyValue>, ghost out: seq<KeyValue>)
      modifies this`outs
      ensures multiset(ps) == multiset(Gathered(inter, nMap, reduceTask))
      ensures if ps == [] then out == [KeyValue("", reduceF("", []))] else ReduceOutput(ps, out, reduceF)
      ensures outs == old(outs)[reduceTask := (if reduceTask in old(outs) then old(outs)[reduceTask] else []) + out]
    {
      var kvpairs: seq<KeyValue> := [];
      for m := 0 to nMap
        invariant kvpairs == Gathered(inter, m, reduceTask)
      {
        kvpairs := kvpairs + Content(inter, (m, reduceTask));
      }
      var sorted := SortByKey(kvpairs);
      var recs := ReducePairs(sorted, reduceF);
      outs := outs[reduceTask := (if reduceTask in outs then outs[reduceTask] else []) + recs];
      ps, out := sorted, recs;
    }

    /** Collects the outputs of the reduce tasks into one map. */
    method Merge(nReduce: nat) returns (kvs: map<string, string>)
      requires forall r: nat :: r < nReduce ==> r in outs
      ensures kvs == MergedOutputs(outs, nReduce)
    {
      kvs := map[];
      for i := 0 to nReduce
        invariant kvs == MergedOutputs(outs, i)
      {
        var file := outs[i];
        var before := kvs;
        for j := 0 to |file|
          invariant kvs == AddAll(before, file[..j])
        {
          assert file[..j + 1][..j] == file[..j];
          kvs := kvs[file[j].key := file[j].value];
        }
        assert file[..|file|] == file;
      }
    }
  }

  /** The first k map tasks have written their parts. */
  ghost predicate MapsDone(inter: map<(nat, nat), seq<KeyValue>>, mapped: seq<seq<KeyValue>>, k: nat, hash: Hash, n: nat)
    requires n > 0 && k <= |mapped|
  {
    forall m: nat, r: nat :: m < k && r < n ==> Content(inter, (m, r)) == Part(mapped[m], hash, n, r)
  }

  /** Once all map tasks are done, a reduce task reads its part of everything. */
  lemma GatheredDone(inter: map<(nat, nat), seq<KeyValue>>, mapped: seq<seq<KeyValue>>, r: nat, hash: Hash, n: nat)
    requires n > 0 && r < n && MapsDone(inter, mapped, |mapped|, hash, n)
    ensures Gathered(inter, |mapped|, r) == Part(Concat(mapped), hash, n, r)
  {
    hide Part, Gathered, Concat, Content;
    GatheredIsPart(inter, mapped, |mapped|, r, hash, n);
    assert mapped[..|mapped|] == mapped;
  }

  /** The files of a map task exist and have grown by the parts of its pairs; other tasks' files are as before. */
  ghost predicate Wrote(before: map<(nat, nat), seq<KeyValue>>, inter: map<(nat, nat), seq<KeyValue>>, mapTask: nat,
                        pairs: seq<KeyValue>, hash: Hash, n: nat)
    requires n > 0
  {
    && (forall r: nat :: r < n ==> (mapTask, r) in inter)
    && (forall r: nat :: r < n ==> Content(inter, (mapTask, r)) == Content(before, (mapTask, r)) + Part(pairs, hash, n, r))
    && (forall name: (nat, nat) :: name.0 != mapTask ==> Content(inter, name) == Content(before, name))
  }

  lemma NothingWritten(before: map<(nat, nat), seq<KeyValue>>, inter: map<(nat, nat), seq<KeyValue>>, mapTask: nat,
                       pairs: seq<KeyValue>, hash: Hash, n: nat)
    requires n > 0
    requires forall r: nat :: r < n ==> (mapTask, r) in inter
    requires forall name :: Content(inter, name) == Content(before, name)
    ensures Wrote(before, inter, mapTask, pairs[..0], hash, n)
  {
    hide Part;
    assert pairs[..0] == [];
    forall r: nat ensures Part([], hash, n, r) == [] {
      PartNone(hash, n, r);
    }
  }

  lemma WroteNext(before: map<(nat, nat), seq<KeyValue>>, inter: map<(nat, nat), seq<KeyValue>>, mapTask: nat,
                  pairs: seq<KeyValue>, i: nat, hash: Hash, n: nat)
    requires n > 0 && i < |pairs| && Wrote(before, inter, mapTask, pairs[..i], hash, n)
    ensures var r := hash(pairs[i].key) % n;
      (mapTask, r) in inter &&
      Wrote(before, inter[(mapTask, r) := inter[(mapTask, r)] + [pairs[i]]], mapTask, pairs[..i + 1], hash, n)
  {
    hide Part;
    var r := hash(pairs[i].key) % n;
    assert (mapTask, r) in inter;
    var next := inter[(mapTask, r) := inter[(mapTask, r)] + [pairs[i]]];
    forall q: nat | q < n
      ensures (mapTask, q) in next
      ensures Content(next, (mapTask, q)) == Content(before, (mapTask, q)) + Part(pairs[..i + 1], hash, n, q)
    {
      PartPush(pairs, i, hash, n, q);
      assert Content(inter, (mapTask, q)) == Content(before, (mapTask, q)) + Part(pairs[..i], hash, n, q);
    }
  }

  lemma PartNone(hash: Hash, n: nat, r: nat)
    requires n > 0
    ensures Part([], hash, n, r) == []
  {}

  lemma PartPush(pairs: seq<KeyValue>, i: nat, hash: Hash, n: nat, r: nat)
    requires n > 0 && i < |pairs|
    ensures Part(pairs[..i + 1], hash, n, r) ==
      Part(pairs[..i], hash, n, r) + if hash(pairs[i].key) % n == r then [pairs[i]] else []
  {
    assert pairs[..i + 1][..i] == pairs[..i];
  }

  function Mapped(files: seq<(string, string)>, mapF: (string, string) -> seq<KeyValue>): (m: seq<seq<KeyValue>>)
    ensures |m| == |files|
  {
    seq(|files|, i requires 0 <= i < |files| => mapF(files[i].0, files[i].1))
  }

  ghost function MergedOutputs(outs: map<nat, seq<KeyValue>>, n: nat): map<string, string> {
    if n == 0 then map[] else AddAll(MergedOutputs(outs, n - 1), if n - 1 in outs then outs[n - 1] else [])
  }

  lemma {:induction false} OutputsSame(outs: map<nat, seq<KeyValue>>, outs': map<nat, seq<KeyValue>>, n: nat)
    requires forall r: nat :: r < n ==> (r in outs <==> r in outs') && (r in outs ==> outs[r] == outs'[r])
    ensures MergedOutputs(outs, n) == MergedOutputs(outs', n)
  {
    if n > 0 {
      OutputsSame(outs, outs', n - 1);
    }
  }

  lemma OutputsNone(outs: map<nat, seq<KeyValue>>)
    ensures MergedOutputs(outs, 0) == map[]
  {}

  /** One more output is added to what the earlier ones gave. */
  lemma OutputsNext(before: map<nat, seq<KeyValue>>, after: map<nat, seq<KeyValue>>, i: nat)
    requires i in after && forall r: nat :: r < i ==> r in before && r in after && before[r] == after[r]
    ensures MergedOutputs(after, i + 1) == AddAll(MergedOutputs(before, i), after[i])
  {
    hide AddAll;
    OutputsSame(before, after, i);
  }

  lemma MergedNone(all: seq<KeyValue>, hash: Hash, n: nat, reduceF: Reducer)
    requires n > 0
    ensures Merged(all, hash, n, reduceF, 0) == map[]
  {}

  lemma MergedNext(all: seq<KeyValue>, hash: Hash, n: nat, reduceF: Reducer, r: nat)
    requires n > 0
    ensures Merged(all, hash, n, reduceF, r + 1) == Merged(all, hash, n, reduceF, r) + PartMap(Part(all, hash, n, r), reduceF)
  {}

  /** Writes the merged map in the order of its keys. */
  method WriteSorted(kvs: map<string, string>) returns (lines: seq<KeyValue>)
    ensures Ascending(lines) && Keys(lines) == kvs.Keys
    ensures forall i :: 0 <= i < |lines| ==> lines[i].key in kvs && lines[i].value == kvs[lines[i].key]
  {
    hide LE, Ascending, Keys, Sorted;
    var keys := ListKeys(kvs);
    var sorted := SortStrings(keys);
    SortedDistinct(keys, sorted);
    lines := [];
    for i := 0 to |sorted|
      invariant |lines| == i && forall j :: 0 <= j < i ==> lines[j] == KeyValue(sorted[j], kvs[sorted[j]])
    {
      lines := lines + [KeyValue(sorted[i], kvs[sorted[i]])];
    }
    LinesHaveKeys(kvs, sorted, lines);
    LinesAscend(sorted, lines);
  }

  lemma LinesAscend(sorted: seq<string>, lines: seq<KeyValue>)
    requires Sorted(sorted) && forall i, j :: 0 <= i < j < |sorted| ==> sorted[i] != sorted[j]
    requires |lines| == |sorted| && forall j :: 0 <= j < |sorted| ==> lines[j].key == sorted[j]
    ensures Ascending(lines)
  {
    hide LE;
  }

  /** Every key of the map once, in any order. */
  method ListKeys(kvs: map<string, string>) returns (keys: seq<string>)
    ensures forall k :: k in keys <==> k in kvs
    ensures forall i, j :: 0 <= i < j < |keys| ==> keys[i] != keys[j]
  {
    keys := [];
    var left := kvs.Keys;
    while left != {}
      invariant left <= kvs.Keys
      invariant forall k :: k in keys <==> k in kvs && k !in left
      invariant forall i, j :: 0 <= i < j < |keys| ==> keys[i] != keys[j]
      decreases |left|
    {
      var k :| k in left;
      keys, left := keys + [k], left - {k};
    }
  }

  lemma LinesHaveKeys(kvs: map<string, string>, sorted: seq<string>, lines: seq<KeyValue>)
    requires |lines| == |sorted| && forall j :: 0 <= j < |sorted| ==> sorted[j] in kvs && lines[j] == KeyValue(sorted[j], kvs[sorted[j]])
    requires forall k :: k in kvs ==> k in sorted
    ensures Keys(lines) == kvs.Keys
  {
    forall k ensures k in Keys(lines) <==> k in kvs {
      if k in kvs {
        var i :| 0 <= i < |sorted| && sorted[i] == k;
        assert lines[i].key == k;
      }
    }
  }

  lemma SortedDistinct(keys: seq<string>, sorted: seq<string>)
    requires multiset(keys) == multiset(sorted) && forall i, j :: 0 <= i < j < |keys| ==> keys[i] != keys[j]
    ensures forall i, j :: 0 <= i < j < |sorted| ==> sorted[i] != sorted[j]
    ensures forall k :: k in keys <==> k in sorted
  {
    forall k ensures k in keys <==> k in sorted {
      assert k in multiset(keys) <==> k in multiset(sorted);
    }
    forall i, j | 0 <= i < j < |sorted| ensures sorted[i] != sorted[j] {
      if sorted[i] == sorted[j] {
        CountTwice(sorted, i, j);
        CountOnce(keys, sorted[i]);
        assert false;
      }
    }
  }
}
