/**
 The phases of a job, with tasks that are run once or more. The files are opened for appending, so a map
 task that is run again leaves its pairs again, while a reduce task that is run again leaves records that the
 merge overwrites.
 */
module Retries {
  import opened Sorting
  import opened MapReduce
  import opened Pipeline
  import Schedule

  function Times(pairs: seq<KeyValue>, n: nat): seq<KeyValue> {
    if n == 0 then [] else Times(pairs, n - 1) + pairs
  }

  /** What the map tasks leave when task m is run runs[m] times. */
  function Again(mapped: seq<seq<KeyValue>>, runs: seq<nat>): (r: seq<seq<KeyValue>>)
    requires |runs| == |mapped|
    ensures |r| == |mapped|
  {
    seq(|mapped|, m requires 0 <= m < |mapped| => Times(mapped[m], runs[m]))
  }

  // ----- the tasks -----

  method MapAgain(job: Job, mapTask: nat, kvpairs: seq<KeyValue>, nReduce: nat, hash: Hash, times: nat)
    requires nReduce > 0
    modifies job`inter
    ensures forall r: nat :: r < nReduce ==>
      Content(job.inter, (mapTask, r)) == old(Content(job.inter, (mapTask, r))) + Part(Times(kvpairs, times), hash, nReduce, r)
    ensures forall name: (nat, nat) :: name.0 != mapTask ==> Content(job.inter, name) == old(Content(job.inter, name))
  {
    hide Part, Content;
    ghost var before := job.inter;
    forall r: nat ensures Part(Times(kvpairs, 0), hash, nReduce, r) == [] {
      PartNone(hash, nReduce, r);
    }
    for i := 0 to times
      invariant forall r: nat :: r < nReduce ==>
        Content(job.inter, (mapTask, r)) == Content(before, (mapTask, r)) + Part(Times(kvpairs, i), hash, nReduce, r)
      invariant forall name: (nat, nat) :: name.0 != mapTask ==> Content(job.inter, name) == Content(before, name)
    {
      forall r: nat
        ensures Part(Times(kvpairs, i + 1), hash, nReduce, r) == Part(Times(kvpairs, i), hash, nReduce, r) + Part(kvpairs, hash, nReduce, r)
      {
        PartAppend(Times(kvpairs, i), kvpairs, hash, nReduce, r);
      }
      job.DoMap(mapTask, kvpairs, nReduce, hash);
    }
  }

  /** All map tasks, from empty files. */
  method MapPhase(job: Job, files: seq<(string, string)>, mapF: (string, string) -> seq<KeyValue>, hash: Hash, nReduce: nat,
                       runs: seq<nat>)
    requires job.inter == map[] && nReduce > 0 && |runs| == |files|
    modifies job`inter
    ensures MapsDone(job.inter, Again(Mapped(files, mapF), runs), |files|, hash, nReduce)
  {
    hide Part, Times;
    ghost var mapped := Again(Mapped(files, mapF), runs);
    for i := 0 to |files|
      invariant MapsDone(job.inter, mapped, i, hash, nReduce)
      invariant forall m: nat, r: nat :: m >= i ==> Content(job.inter, (m, r)) == []
    {
      var kvpairs := mapF(files[i].0, files[i].1);
      assert Times(kvpairs, runs[i]) == mapped[i];
      MapAgain(job, i, kvpairs, nReduce, hash, runs[i]);
      forall m: nat, r: nat | m < i + 1 && r < nReduce ensures Content(job.inter, (m, r)) == Part(mapped[m], hash, nReduce, r) {
        assert m == i ==> [] + Part(mapped[m], hash, nReduce, r) == Part(mapped[m], hash, nReduce, r);
      }
    }
  }

  lemma {:induction false} AddAllAppend(m: map<string, string>, a: seq<KeyValue>, b: seq<KeyValue>)
    ensures AddAll(m, a + b) == AddAll(AddAll(m, a), b)
  {
    if b == [] {
      assert a + b == a;
    } else {
      var n := |b| - 1;
      AddAllAppend(m, a, b[..n]);
      assert (a + b)[..|a + b| - 1] == a + b[..n];
    }
  }

  /** A reduce task run one or more times adds its part's group-by once. */
  method ReduceAgain(job: Job, reduceTask: nat, nMap: nat, reduceF: Reducer, times: nat, ghost part: seq<KeyValue>, ghost m: map<string, string>)
    requires times > 0 && reduceTask !in job.outs && part == Gathered(job.inter, nMap, reduceTask)
    modifies job`outs
    ensures job.outs.Keys == old(job.outs).Keys + {reduceTask}
    ensures forall r :: r in old(job.outs) ==> job.outs[r] == old(job.outs)[r]
    ensures AddAll(m, job.outs[reduceTask]) == m + PartMap(part, reduceF)
  {
    hide AddAll, PartMap, Gathered, ReduceOutput;
    ghost var before, pm := job.outs, PartMap(part, reduceF);
    var ps, out := job.DoReduce(reduceTask, nMap, reduceF);
    MergeOutput(m, part, ps, out, reduceF);
    assert [] + out == out;
    for i := 1 to times
      invariant job.outs.Keys == before.Keys + {reduceTask}
      invariant forall r :: r in before ==> job.outs[r] == before[r]
      invariant AddAll(m, job.outs[reduceTask]) == m + pm
    {
      ghost var file := job.outs[reduceTask];
      var ps, out := job.DoReduce(reduceTask, nMap, reduceF);
      AddAllAppend(m, file, out);
      MergeOutput(m + pm, part, ps, out, reduceF);
      assert (m + pm) + pm == m + pm;
    }
  }

  /** All reduce tasks, from empty output files. */
  method ReducePhase(job: Job, nMap: nat, nReduce: nat, reduceF: Reducer, hash: Hash, runs: seq<nat>, ghost mapped: seq<seq<KeyValue>>)
    requires job.outs == map[] && nReduce > 0 && nMap == |mapped| && MapsDone(job.inter, mapped, nMap, hash, nReduce)
    requires |runs| == nReduce && forall r :: 0 <= r < nReduce ==> runs[r] > 0
    modifies job`outs
    ensures forall r: nat :: r in job.outs <==> r < nReduce
    ensures MergedOutputs(job.outs, nReduce) == Merged(Concat(mapped), hash, nReduce, reduceF, nReduce)
  {
    hide Merged, Part, Gathered, PartMap, AddAll, Concat, MapsDone, Content, MergedOutputs;
    OutputsNone(job.outs);
    ghost var all := Concat(mapped);
    MergedNone(all, hash, nReduce, reduceF);
    for i := 0 to nReduce
      invariant forall r: nat :: r in job.outs <==> r < i
      invariant MergedOutputs(job.outs, i) == Merged(all, hash, nReduce, reduceF, i)
    {
      ghost var before := job.outs;
      GatheredDone(job.inter, mapped, i, hash, nReduce);
      ReduceAgain(job, i, nMap, reduceF, runs[i], Part(all, hash, nReduce, i), MergedOutputs(before, i));
      OutputsNext(before, job.outs, i);
      MergedNext(all, hash, nReduce, reduceF, i);
    }
  }

  /** A whole job with retries: what is merged is the result for the duplicated map outputs; how often the reduce
      tasks were run makes no difference. */
  method RetriedJob(job: Job, files: seq<(string, string)>, mapF: (string, string) -> seq<KeyValue>, hash: Hash, nReduce: nat,
                    reduceF: Reducer, mapRuns: seq<nat>, reduceRuns: seq<nat>) returns (kvs: map<string, string>)
    requires job.inter == map[] && job.outs == map[] && nReduce > 0
    requires |mapRuns| == |files| && |reduceRuns| == nReduce && forall r :: 0 <= r < nReduce ==> reduceRuns[r] > 0
    modifies job
    ensures kvs == Merged(Concat(Again(Mapped(files, mapF), mapRuns)), hash, nReduce, reduceF, nReduce)
  {
    hide Merged, MergedOutputs, Concat;
    MapPhase(job, files, mapF, hash, nReduce, mapRuns);
    ReducePhase(job, |files|, nReduce, reduceF, hash, reduceRuns, Again(Mapped(files, mapF), mapRuns));
    kvs := job.Merge(nReduce);
  }

  lemma OnceEach(mapped: seq<seq<KeyValue>>)
    ensures Again(mapped, seq(|mapped|, _ => 1)) == mapped
  {
    forall m | 0 <= m < |mapped| ensures Times(mapped[m], 1) == mapped[m] {
      assert Times(mapped[m], 0) == [];
    }
  }

  /** A whole job that runs every task once, from empty files. */
  method Sequential(job: Job, files: seq<(string, string)>, mapF: (string, string) -> seq<KeyValue>, hash: Hash, nReduce: nat,
                    reduceF: Reducer) returns (kvs: map<string, string>)
    requires job.inter == map[] && job.outs == map[] && nReduce > 0
    modifies job
    ensures kvs == Merged(Concat(Mapped(files, mapF)), hash, nReduce, reduceF, nReduce)
  {
    hide Merged, Concat, Mapped, Again;
    OnceEach(Mapped(files, mapF));
    kvs := RetriedJob(job, files, mapF, hash, nReduce, reduceF, seq(|files|, _ => 1), seq(nReduce, _ => 1));
  }

  // ----- what the duplicates do -----

  lemma {:induction false} TimesKeys(pairs: seq<KeyValue>, n: nat)
    requires n > 0
    ensures Keys(Times(pairs, n)) == Keys(pairs)
  {
    KeysAppend(Times(pairs, n - 1), pairs);
    if n > 1 {
      TimesKeys(pairs, n - 1);
    } else {
      assert Times(pairs, 0) == [] && Keys([]) == {};
    }
  }

  lemma {:induction false} AgainKeys(mapped: seq<seq<KeyValue>>, runs: seq<nat>, k: nat)
    requires |runs| == |mapped| && k <= |mapped| && forall m :: 0 <= m < |runs| ==> runs[m] > 0
    ensures Keys(Concat(Again(mapped, runs)[..k])) == Keys(Concat(mapped[..k]))
  {
    hide Keys, Times;
    if k == 0 {
      ConcatNone(mapped);
      ConcatNone(Again(mapped, runs));
    } else {
      AgainKeys(mapped, runs, k - 1);
      ConcatLast(mapped, k);
      ConcatLast(Again(mapped, runs), k);
      KeysAppend(Concat(mapped[..k - 1]), mapped[k - 1]);
      KeysAppend(Concat(Again(mapped, runs)[..k - 1]), Again(mapped, runs)[k - 1]);
      TimesKeys(mapped[k - 1], runs[k - 1]);
    }
  }

  /** A reducer that tells how many values it was given. */
  const TALLY: Reducer := (key, values) => seq(|values|, _ => 'x')

  lemma TallyCounts(pairs: seq<KeyValue>, key: string)
    ensures |Reduced(pairs, key, TALLY)| == |Values(pairs, key)|
  {
    hide Sort;
    SortSorted(Values(pairs, key));
    assert |multiset(Sort(Values(pairs, key)))| == |multiset(Values(pairs, key))|;
  }

  lemma {:induction false} TimesValues(pairs: seq<KeyValue>, n: nat, key: string)
    requires n > 0
    ensures |Values(Times(pairs, n), key)| >= |Values(pairs, key)|
    ensures n > 1 ==> |Values(Times(pairs, n), key)| >= 2 * |Values(pairs, key)|
  {
    hide Values;
    ValuesAppend(Times(pairs, n - 1), pairs, key);
    if n > 1 {
      TimesValues(pairs, n - 1, key);
    }
  }

  /** A task that is run again adds values of its keys. */
  lemma {:induction false} AgainValues(mapped: seq<seq<KeyValue>>, runs: seq<nat>, k: nat, m: nat, key: string)
    requires |runs| == |mapped| && k <= |mapped| && m < |mapped| && forall i :: 0 <= i < |runs| ==> runs[i] > 0
    requires runs[m] > 1 && Values(mapped[m], key) != []
    ensures |Values(Concat(Again(mapped, runs)[..k]), key)| >= |Values(Concat(mapped[..k]), key)| + if m < k then 1 else 0
  {
    hide Values, Times, Concat;
    var again := Again(mapped, runs);
    if k == 0 {
      ConcatNone(mapped);
      ConcatNone(again);
    } else {
      AgainValues(mapped, runs, k - 1, m, key);
      ConcatLast(mapped, k);
      ConcatLast(again, k);
      ValuesAppend(Concat(mapped[..k - 1]), mapped[k - 1], key);
      ValuesAppend(Concat(again[..k - 1]), again[k - 1], key);
      TimesValues(mapped[k - 1], runs[k - 1], key);
    }
  }

  lemma {:induction false} ValuesSome(pairs: seq<KeyValue>, i: nat)
    requires i < |pairs|
    ensures Values(pairs, pairs[i].key) != []
  {
    var n := |pairs| - 1;
    if i < n {
      ValuesSome(pairs[..n], i);
    }
  }

  /** Every map task was run once, or had nothing to leave. */
  ghost predicate NoDuplicates(mapped: seq<seq<KeyValue>>, runs: seq<nat>)
    requires |runs| == |mapped|
  {
    forall m :: 0 <= m < |runs| ==> runs[m] == 1 || mapped[m] == []
  }

  lemma {:induction false} TimesSame(pairs: seq<KeyValue>, n: nat)
    requires n == 1 || pairs == []
    ensures Times(pairs, n) == pairs
  {
    if n > 0 && pairs == [] {
      TimesSame(pairs, n - 1);
    } else if n == 1 {
      assert Times(pairs, 0) == [];
    }
  }

  /** The tally tells a doubled job from a plain one. */
  lemma TallyNotices(mapped: seq<seq<KeyValue>>, runs: seq<nat>, m: nat)
    requires |runs| == |mapped| && m < |mapped| && forall i :: 0 <= i < |runs| ==> runs[i] > 0
    requires runs[m] > 1 && mapped[m] != []
    ensures GroupBy(Concat(Again(mapped, runs)), TALLY) != GroupBy(Concat(mapped), TALLY)
  {
    hide Concat, Keys, Values, Again, Reduced;
    var all, doubled, key := Concat(mapped), Concat(Again(mapped, runs)), mapped[m][0].key;
    ValuesSome(mapped[m], 0);
    AgainValues(mapped, runs, |mapped|, m, key);
    assert mapped[..|mapped|] == mapped && Again(mapped, runs)[..|mapped|] == Again(mapped, runs);
    TallyCounts(all, key);
    TallyCounts(doubled, key);
    KeyIffValue(doubled, key);
    var a, b := GroupBy(doubled, TALLY), GroupBy(all, TALLY);
    assert key in a;
    assert key in b ==> a[key] != b[key];
  }

  /** A stray record shows under the tally. */
  lemma TallyStray(all: seq<KeyValue>, same: seq<KeyValue>, hash: Hash, n: nat)
    requires n > 0 && Keys(all) == Keys(same) && Stray(all, hash, n, n)
    ensures Merged(all, hash, n, TALLY, n) != GroupBy(same, TALLY)
  {
    hide Merged, Keys, Reduced, Stray, Values;
    MergedAt(all, hash, n, TALLY, n, "");
    var m, g := Merged(all, hash, n, TALLY, n), GroupBy(same, TALLY);
    assert "" in m && m[""] == [];
    if "" in Keys(same) {
      TallyCounts(same, "");
      KeyIffValue(same, "");
      assert g[""] != [];
    }
  }

  lemma KeyIffValue(pairs: seq<KeyValue>, key: string)
    ensures key in Keys(pairs) <==> Values(pairs, key) != []
  {
    if key in Keys(pairs) {
      var i :| 0 <= i < |pairs| && pairs[i].key == key;
      ValuesSome(pairs, i);
    } else {
      ValuesNone(pairs, key);
    }
  }

  /** Which partitions are empty, and so whether a record is stray, depends on the keys only. */
  lemma StraySame(a: seq<KeyValue>, b: seq<KeyValue>, hash: Hash, n: nat)
    requires n > 0 && Keys(a) == Keys(b)
    ensures Stray(a, hash, n, n) <==> Stray(b, hash, n, n)
  {
    hide Keys, Empty;
    forall r: nat ensures Empty(a, hash, n, r) <==> Empty(b, hash, n, r) {
      EmptyByKeys(a, hash, n, r);
      EmptyByKeys(b, hash, n, r);
    }
  }

  lemma EmptyByKeys(pairs: seq<KeyValue>, hash: Hash, n: nat, r: nat)
    requires n > 0
    ensures Empty(pairs, hash, n, r) <==> forall key :: key in Keys(pairs) ==> hash(key) % n != r
  {
    var part := Part(pairs, hash, n, r);
    forall key ensures key in Keys(part) <==> key in Keys(pairs) && hash(key) % n == r {
      PartKeys(pairs, hash, n, r, key);
    }
    if part != [] {
      assert part[0].key in Keys(part);
    }
  }

  /** A job whose map tasks were run one or more times yields the plain group-by under every reducer if and only
      if no empty partition leaves a stray record and every task that left pairs was run once. */
  lemma RetriedExact(mapped: seq<seq<KeyValue>>, runs: seq<nat>, hash: Hash, n: nat)
    requires n > 0 && |runs| == |mapped| && forall m :: 0 <= m < |runs| ==> runs[m] > 0
    ensures (forall reduceF: Reducer :: Merged(Concat(Again(mapped, runs)), hash, n, reduceF, n) == GroupBy(Concat(mapped), reduceF))
      <==> !Stray(Concat(mapped), hash, n, n) && NoDuplicates(mapped, runs)
  {
    hide Merged, Concat, Reduced, Keys, Stray, GroupBy;
    var all, doubled := Concat(mapped), Concat(Again(mapped, runs));
    AgainKeys(mapped, runs, |mapped|);
    assert mapped[..|mapped|] == mapped && Again(mapped, runs)[..|mapped|] == Again(mapped, runs);
    StraySame(doubled, all, hash, n);
    if Stray(doubled, hash, n, n) {
      TallyStray(doubled, all, hash, n);
      assert Merged(doubled, hash, n, TALLY, n) != GroupBy(all, TALLY);
    } else {
      forall reduceF: Reducer ensures Merged(doubled, hash, n, reduceF, n) == GroupBy(doubled, reduceF) {
        PipelineExact(doubled, hash, n, reduceF);
      }
      if NoDuplicates(mapped, runs) {
        SameAgain(mapped, runs);
      } else {
        var m :| 0 <= m < |runs| && runs[m] != 1 && mapped[m] != [];
        TallyNotices(mapped, runs, m);
        assert Merged(doubled, hash, n, TALLY, n) != GroupBy(all, TALLY);
      }
    }
  }

  lemma SameAgain(mapped: seq<seq<KeyValue>>, runs: seq<nat>)
    requires |runs| == |mapped| && NoDuplicates(mapped, runs)
    ensures Again(mapped, runs) == mapped
  {
    forall m | 0 <= m < |mapped| ensures Times(mapped[m], runs[m]) == mapped[m] {
      TimesSame(mapped[m], runs[m]);
    }
  }

  /** How often the scheduler had each task run. */
  function RunsOf(s: Schedule.State): (r: seq<nat>)
    ensures |r| == |s.slots|
  {
    seq(|s.slots|, i requires 0 <= i < |s.slots| => s.slots[i].runs)
  }

  /** After a map phase of the scheduler the job yields the plain group-by under every reducer if and only if no
      empty partition leaves a stray record and no reply of a task that left pairs was lost. */
  lemma ScheduledExact(job: Schedule.Job, workers: seq<string>, steps: seq<Schedule.Step>, s: Schedule.State,
                       mapped: seq<seq<KeyValue>>, hash: Hash, n: nat)
    requires job.phase.MapPhase? && Schedule.Distinct(workers) && Schedule.Path(job, Schedule.Init(workers), steps, s)
    requires Schedule.Returned(job, s) && |mapped| == |job.mapFiles| && n > 0
    ensures |RunsOf(s)| == |mapped|
    ensures (forall reduceF: Reducer :: Merged(Concat(Again(mapped, RunsOf(s))), hash, n, reduceF, n) == GroupBy(Concat(mapped), reduceF))
      <==> !Stray(Concat(mapped), hash, n, n) && forall m :: 0 <= m < |mapped| ==> s.slots[m].lost == 0 || mapped[m] == []
  {
    hide Merged, Concat, Stray, GroupBy, Again, Schedule.Path;
    Schedule.ScheduleReturns(job, workers, steps, s);
    RetriedExact(mapped, RunsOf(s), hash, n);
    var runs := RunsOf(s);
    assert forall m :: 0 <= m < |runs| ==> runs[m] == 1 + s.slots[m].lost;
  }

  /** One pair whose map task is run twice reaches the reducer twice, and the result is wrong for every reducer
      that notices. */
  lemma MapTwice(pair: KeyValue, hash: Hash, reduceF: Reducer)
    requires reduceF(pair.key, [pair.value, pair.value]) != reduceF(pair.key, [pair.value])
    ensures Merged(Concat(Again([[pair]], [2])), hash, 1, reduceF, 1) == map[pair.key := reduceF(pair.key, [pair.value, pair.value])]
    ensures Merged(Concat(Again([[pair]], [2])), hash, 1, reduceF, 1) != GroupBy([pair], reduceF)
  {
    hide Merged, Concat, Again, Reduced, Keys, Stray;
    var all := [pair, pair];
    TwiceMapped(pair);
    TwiceReduced(pair, reduceF);
    TwiceFull(pair, hash);
    PipelineExact(all, hash, 1, reduceF);
    OnceReduced(pair, reduceF);
    KeysOne(pair);
    assert GroupBy([pair], reduceF)[pair.key] == reduceF(pair.key, [pair.value]);
  }

  lemma OnceReduced(pair: KeyValue, reduceF: Reducer)
    ensures Reduced([pair], pair.key, reduceF) == reduceF(pair.key, [pair.value])
  {
    assert [pair][..0] == [];
    assert Values([], pair.key) == [];
    assert Values([pair], pair.key) == [pair.value];
    assert [pair.value][1..] == [] && Sort([pair.value]) == [pair.value];
  }

  lemma TwiceMapped(pair: KeyValue)
    ensures Concat(Again([[pair]], [2])) == [pair, pair]
  {
    var all := [pair, pair];
    assert Times([pair], 0) == [] && Times([pair], 1) == [pair] && Times([pair], 2) == all;
    var again := Again([[pair]], [2]);
    assert again == [all];
    ConcatNone(again);
    ConcatLast(again, 1);
    assert again[..1] == again;
  }

  lemma TwiceFull(pair: KeyValue, hash: Hash)
    ensures Keys([pair, pair]) == {pair.key} && !Stray([pair, pair], hash, 1, 1)
  {
    hide Part;
    var all := [pair, pair];
    KeysOne(pair);
    KeysAppend([pair], [pair]);
    assert all == [pair] + [pair];
    PartKeys(all, hash, 1, 0, pair.key);
    assert Keys([]) == {};
    assert !Empty(all, hash, 1, 0);
  }

  lemma TwiceReduced(pair: KeyValue, reduceF: Reducer)
    ensures Reduced([pair, pair], pair.key, reduceF) == reduceF(pair.key, [pair.value, pair.value])
  {
    hide LE;
    var all, v := [pair, pair], pair.value;
    assert [pair][..0] == [];
    assert Values([], pair.key) == [];
    assert Values([pair], pair.key) == [v];
    assert all[..1] == [pair];
    assert Values(all, pair.key) == Values(all[..1], pair.key) + [v];
    Refl(v);
    assert [v][1..] == [] && Sort([v]) == [v];
    assert [v, v][1..] == [v] && Sort([v, v]) == Insert(v, [v]) == [v] + [v] == [v, v];
    assert Values(all, pair.key) == [v] + [v] == [v, v];
  }
}
