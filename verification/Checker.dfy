/**
 The search of one history: the memo table of hash buckets, the stack of lifted calls, and
 the loop that lifts, backtracks and moves the cursor.
 */
module Checker {
  import opened Common
  import opened History
  import opened Bitset
  import opened LinkedHistory
  import opened Search

  datatype CacheEntry<S> = CacheEntry(linearized: array<Word>, state: S)
  datatype CallsEntry<S, !V> = CallsEntry(entry: Node<V>, state: S)

  // ----- the memo table -----

  /** What the arrays in the table held when they were stored; they never change again. */
  ghost predicate Frozen(snap: map<array<Word>, seq<Word>>)
    reads snap.Keys
  {
    forall a :: a in snap ==> a[..] == snap[a]
  }

  ghost predicate Holds<S>(cache: map<nat, seq<CacheEntry<S>>>, snap: map<array<Word>, seq<Word>>,
                           h: nat, i: int, width: nat) {
    && h in cache && 0 <= i < |cache[h]| && cache[h][i].linearized in snap
    && |snap[cache[h][i].linearized]| == width
  }

  ghost function Pair<S>(snap: map<array<Word>, seq<Word>>, e: CacheEntry<S>): (set<nat>, S)
    requires e.linearized in snap
  {
    (Bits(snap[e.linearized]), e.state)
  }

  /** The buckets hold exactly the pairs in `seen`, each under the hash of its words. */
  ghost predicate Stored<S>(cache: map<nat, seq<CacheEntry<S>>>, snap: map<array<Word>, seq<Word>>,
                            hash: seq<Word> -> nat, width: nat, seen: set<(set<nat>, S)>) {
    && (forall h, i :: h in cache && 0 <= i < |cache[h]| ==>
         Holds(cache, snap, h, i, width) && Pair(snap, cache[h][i]) in seen && h == hash(snap[cache[h][i].linearized]))
    && (forall p :: p in seen ==> exists h, i :: Holds(cache, snap, h, i, width) && Pair(snap, cache[h][i]) == p)
  }

  /** The table contains an entry exactly when its pair was stored, whatever the hash. */
  method CacheContains<S(==)>(cache: map<nat, seq<CacheEntry<S>>>, hash: seq<Word> -> nat, entry: CacheEntry<S>,
                              ghost snap: map<array<Word>, seq<Word>>, ghost seen: set<(set<nat>, S)>)
    returns (found: bool)
    requires Stored(cache, snap, hash, entry.linearized.Length, seen) && Frozen(snap)
    ensures found <==> (Bits(entry.linearized[..]), entry.state) in seen
  {
    hide Bits;
    var h := hash(entry.linearized[..]);
    var bucket := if h in cache then cache[h] else [];
    for i := 0 to |bucket|
      invariant forall j :: 0 <= j < i ==> Pair(snap, bucket[j]) != (Bits(entry.linearized[..]), entry.state)
    {
      assert Holds(cache, snap, h, i, entry.linearized.Length);
      var same := Equals(entry.linearized, bucket[i].linearized);
      if same && entry.state == bucket[i].state {
        return true;
      }
    }
    NotInBucket(cache, snap, hash, entry.linearized[..], entry.state, seen);
    return false;
  }

  /** A pair that is not in the bucket of its hash is not in the table. */
  lemma NotInBucket<S>(cache: map<nat, seq<CacheEntry<S>>>, snap: map<array<Word>, seq<Word>>,
                       hash: seq<Word> -> nat, words: seq<Word>, s: S, seen: set<(set<nat>, S)>)
    requires Stored(cache, snap, hash, |words|, seen)
    requires hash(words) in cache ==>
      forall j :: 0 <= j < |cache[hash(words)]| ==>
        Holds(cache, snap, hash(words), j, |words|) && Pair(snap, cache[hash(words)][j]) != (Bits(words), s)
    ensures (Bits(words), s) !in seen
  {
    if (Bits(words), s) in seen {
      var h, i :| Holds(cache, snap, h, i, |words|) && Pair(snap, cache[h][i]) == (Bits(words), s);
      BitsExtensional(words, snap[cache[h][i].linearized]);
      assert false;
    }
  }

  /** Appending an entry to the bucket of its hash stores its pair. */
  lemma StoredAppend<S>(cache: map<nat, seq<CacheEntry<S>>>, snap: map<array<Word>, seq<Word>>,
                        hash: seq<Word> -> nat, entry: CacheEntry<S>, words: seq<Word>, seen: set<(set<nat>, S)>)
    requires Stored(cache, snap, hash, |words|, seen) && entry.linearized !in snap
    ensures var h := hash(words);
            var bucket := (if h in cache then cache[h] else []) + [entry];
            Stored(cache[h := bucket], snap[entry.linearized := words], hash, |words|, seen + {(Bits(words), entry.state)})
  {
    hide Bits;
    var h := hash(words);
    var bucket := (if h in cache then cache[h] else []) + [entry];
    var cache', snap' := cache[h := bucket], snap[entry.linearized := words];
    var seen' := seen + {(Bits(words), entry.state)};
    forall g, i | g in cache' && 0 <= i < |cache'[g]|
      ensures Holds(cache', snap', g, i, |words|) && Pair(snap', cache'[g][i]) in seen'
      ensures g == hash(snap'[cache'[g][i].linearized])
    {
      if g != h || i < |bucket| - 1 {
        assert cache'[g][i] == cache[g][i];
        assert Holds(cache, snap, g, i, |words|);
      }
    }
    forall p | p in seen' ensures exists g, i :: Holds(cache', snap', g, i, |words|) && Pair(snap', cache'[g][i]) == p {
      if p in seen {
        var g, i :| Holds(cache, snap, g, i, |words|) && Pair(snap, cache[g][i]) == p;
        assert Holds(cache', snap', g, i, |words|) && Pair(snap', cache'[g][i]) == p;
      } else {
        assert Holds(cache', snap', h, |bucket| - 1, |words|);
      }
    }
  }

  // ----- the stack of lifted calls -----

  /** Every call and return lifted along the path still has the pointers it was lifted with. */
  ghost predicate Kept<S, V>(nodes: seq<Node<V>>, path: seq<Point<S, V>>, cuts: seq<Cut>)
    reads nodes
  {
    |path| == |cuts| + 1 &&
    forall k :: 0 <= k < |cuts| ==> Inside(nodes, path[k], cuts[k]) && KeptAt(path[k], cuts[k])
  }

  /** The call and the return that a lift takes out. */
  ghost function LiftedNodes<S, V>(p: Point<S, V>, c: Cut): set<Node<V>> {
    if 0 < c.a < c.b < |p.chain| then {p.chain[c.a], Without(p.chain, c.a)[c.b - 1]} else {}
  }

  ghost predicate Inside<S, V>(nodes: seq<Node<V>>, p: Point<S, V>, c: Cut) {
    forall x :: x in LiftedNodes(p, c) ==> x in nodes
  }

  ghost predicate KeptAt<S, V>(p: Point<S, V>, c: Cut)
    reads LiftedNodes(p, c)
  {
    0 < c.a < c.b < |p.chain| && LiftedShadow(p.chain, c.a, c.b)
  }

  lemma {:induction false} DoneGrows<S, V>(m: Model<S, V>, ops: seq<Operation<V>>, path: seq<Point<S, V>>, cuts: seq<Cut>,
                                           j: nat, k: nat)
    requires Steps(m, ops, path, cuts) && j <= k < |path|
    ensures path[j].done <= path[k].done
    decreases k
  {
    if j < k {
      DoneGrows(m, ops, path, cuts, j, k - 1);
      assert Moves(m, ops, path[k - 1], cuts[k - 1], path[k]);
    }
  }

  /** What was lifted along the path is not in the list. */
  ghost predicate Out<S, V>(path: seq<Point<S, V>>, cuts: seq<Cut>, chain: seq<Node<V>>) {
    |path| == |cuts| + 1 &&
    forall k :: 0 <= k < |cuts| ==> OutAt(path[k], cuts[k], chain)
  }

  ghost predicate OutAt<S, V>(p: Point<S, V>, c: Cut, chain: seq<Node<V>>) {
    forall x :: x in LiftedNodes(p, c) ==> x !in chain
  }

  /** The chain starts with the head and goes on with nodes of the history. */
  ghost predicate Inhabits<V>(chain: seq<Node<V>>, nodes: seq<Node<V>>, head: Node<V>) {
    |chain| > 0 && chain[0] == head && forall i :: 0 <= i < |chain| ==> chain[i] == head || chain[i] in nodes
  }

  lemma LiftedIsOut<S, V>(m: Model<S, V>, ops: seq<Operation<V>>, nodes: seq<Node<V>>, head: Node<V>,
                          path: seq<Point<S, V>>, cuts: seq<Cut>)
    requires Represents(ops, nodes) && Path(m, ops, nodes, head, path, cuts)
    ensures Out(path, cuts, path[|cuts|].chain)
  {
    forall k | 0 <= k < |cuts| ensures OutAt(path[k], cuts[k], path[|cuts|].chain) {
      assert Moves(m, ops, path[k], cuts[k], path[k + 1]);
      assert Here(ops, nodes, head, path[k]) && Here(ops, nodes, head, path[|cuts|]);
      DoneGrows(m, ops, path, cuts, k + 1, |cuts|);
      LiftedIsOutOf(ops, nodes, head, path[k], cuts[k], path[|cuts|]);
    }
  }

  lemma LiftedIsOutOf<S, V>(ops: seq<Operation<V>>, nodes: seq<Node<V>>, head: Node<V>, p: Point<S, V>, c: Cut, q: Point<S, V>)
    requires Represents(ops, nodes) && Here(ops, nodes, head, p) && Here(ops, nodes, head, q)
    requires 0 < c.a < c.b < |p.chain| && p.chain[c.a].matching == p.chain[c.b] && p.chain[c.a].id in q.done
    ensures OutAt(p, c, q.chain)
  {
    OnlyTwo(ops, nodes, head, p, c, c.b);
    assert p.chain[0].pos < p.chain[c.a].pos < p.chain[c.b].pos;
  }

  lemma LiftedNodesAre<S, V>(p: Point<S, V>, c: Cut)
    requires 0 < c.a < c.b < |p.chain|
    ensures LiftedNodes(p, c) == {p.chain[c.a], p.chain[c.b]}
  {}

  /** `Lift` keeps the pointers of everything lifted before. */
  method LiftCall<S, V>(entry: Node<V>, ghost nodes: seq<Node<V>>, ghost path: seq<Point<S, V>>, ghost cuts: seq<Cut>,
                        ghost c: Cut, ghost q: Point<S, V>)
    requires Kept(nodes, path, cuts) && Out(path, cuts, path[|cuts|].chain)
    requires var p := path[|cuts|];
      && InOrder(p.chain) && Linked(p.chain)
      && 0 < c.a < c.b < |p.chain| && p.chain[c.a] == entry && p.chain[c.b] == entry.matching
      && q.chain == Lifted(p.chain, c.a, c.b) && p.chain[c.a] in nodes && p.chain[c.b] in nodes
    modifies path[|cuts|].chain
    ensures Linked(q.chain) && Kept(nodes, path + [q], cuts + [c])
  {
    hide Linked, InOrder, Lifted, LiftedShadow;
    ghost var p := path[|cuts|];
    LiftedNodesAre(p, c);
    Lift(entry, p.chain, c.a, c.b);
    assert Inside(nodes, p, c) && KeptAt(p, c);
    ghost var path', cuts' := path + [q], cuts + [c];
    forall k | 0 <= k < |cuts'| ensures Inside(nodes, path'[k], cuts'[k]) && KeptAt(path'[k], cuts'[k]) {
      if k < |cuts| {
        assert OutAt(path[k], cuts[k], p.chain);
        assert path'[k] == path[k] && cuts'[k] == cuts[k];
      } else {
        assert path'[k] == p && cuts'[k] == c;
      }
    }
  }

  /** `Unlift` undoes the last lift and keeps the pointers of the others. */
  method UnliftCall<S, V>(entry: Node<V>, ghost nodes: seq<Node<V>>, ghost path: seq<Point<S, V>>, ghost cuts: seq<Cut>)
    requires |cuts| > 0 && Kept(nodes, path, cuts)
    requires var n := |cuts| - 1; var p, c := path[n], cuts[n];
      && Out(path[..n + 1], cuts[..n], p.chain)
      && InOrder(p.chain) && 0 < c.a < c.b < |p.chain| && p.chain[c.a] == entry && p.chain[c.b] == entry.matching
      && Linked(Lifted(p.chain, c.a, c.b))
    modifies path[|cuts| - 1].chain
    ensures Linked(path[|cuts| - 1].chain) && Kept(nodes, path[..|cuts|], cuts[..|cuts| - 1])
  {
    hide Linked, InOrder, Lifted, LiftedShadow;
    ghost var n := |cuts| - 1;
    ghost var p, c := path[n], cuts[n];
    assert KeptAt(p, c);
    Unlift(entry, p.chain, c.a, c.b);
    forall k | 0 <= k < n ensures KeptAt(path[k], cuts[k]) {
      assert OutAt(path[..n + 1][k], cuts[..n][k], p.chain);
    }
  }

  // ----- the search loop -----

  /** The cursor is at index e of the list; what it passed, and what is in the table off the
      path, leads nowhere. */
  ghost predicate Searching<S, V(!new)>(m: Model<S, V>, ops: seq<Operation<V>>, nodes: seq<Node<V>>, head: Node<V>,
                                        path: seq<Point<S, V>>, cuts: seq<Cut>, e: int, seen: set<(set<nat>, S)>) {
    && Represents(ops, nodes)
    && Path(m, ops, nodes, head, path, cuts) && Explored(m, ops, path, cuts)
    && Memo(m, ops, path, seen) && seen <= Universe(m, ops)
    && Tried(m, ops, path[|cuts|], e)
    && 1 <= e && (|path[|cuts|].chain| > 1 ==> e < |path[|cuts|].chain|)
  }

  /** The stack holds the lifted calls with the states they were lifted in. */
  ghost predicate StackMatches<S, V>(calls: seq<CallsEntry<S, V>>, path: seq<Point<S, V>>, cuts: seq<Cut>) {
    |calls| == |cuts| && |path| == |cuts| + 1 && forall k :: 0 <= k < |calls| ==>
      && 0 <= cuts[k].a < |path[k].chain| && calls[k].entry == path[k].chain[cuts[k].a] && calls[k].state == path[k].state
  }

  /** What the invariant says about the list. */
  lemma CursorFacts<S, V(!new)>(m: Model<S, V>, ops: seq<Operation<V>>, nodes: seq<Node<V>>, head: Node<V>,
                                path: seq<Point<S, V>>, cuts: seq<Cut>, e: int, seen: set<(set<nat>, S)>)
    requires Searching(m, ops, nodes, head, path, cuts, e, seen)
    ensures |path| == |cuts| + 1
    ensures var p := path[|cuts|];
      && Here(ops, nodes, head, p) && Represents(ops, nodes) && Out(path, cuts, p.chain)
      && Inhabits(p.chain, nodes, head) && InOrder(p.chain) && 1 <= e && (|p.chain| > 1 ==> e < |p.chain|)
      && (forall id :: id in p.done ==> id < |ops|)
  {
    LiftedIsOut(m, ops, nodes, head, path, cuts);
  }

  lemma StackPush<S, V>(calls: seq<CallsEntry<S, V>>, path: seq<Point<S, V>>, cuts: seq<Cut>, entry: Node<V>, state: S,
                        a: int, b: int, newState: S, id: nat)
    requires StackMatches(calls, path, cuts) && state == path[|cuts|].state
    requires 0 <= a < b < |path[|cuts|].chain| && entry == path[|cuts|].chain[a]
    ensures var q := Point(Lifted(path[|cuts|].chain, a, b), path[|cuts|].done + {id}, newState);
      StackMatches(calls + [CallsEntry(entry, state)], path + [q], cuts + [Cut(a, b)])
  {}

  lemma HeadLink<V>(chain: seq<Node<V>>)
    requires Linked(chain) && |chain| > 0
    ensures chain[0].next == if |chain| > 1 then chain[1] else null
  {}

  lemma StartSearch<S, V(!new)>(m: Model<S, V>, ops: seq<Operation<V>>, nodes: seq<Node<V>>, head: Node<V>)
    requires Represents(ops, nodes) && InOrder(nodes) && head.pos == 0
    ensures Searching(m, ops, nodes, head, [Point([head] + nodes, {}, m.init)], [], 1, {})
  {
    StartPath(m, ops, nodes, head);
  }

  /** The call under the cursor leads nowhere: not allowed by the model, or its pair is in the table. */
  lemma AdvanceSearch<S, V(!new)>(m: Model<S, V>, ops: seq<Operation<V>>, nodes: seq<Node<V>>, head: Node<V>,
                                  path: seq<Point<S, V>>, cuts: seq<Cut>, e: int, b: int, seen: set<(set<nat>, S)>)
    requires Searching(m, ops, nodes, head, path, cuts, e, seen)
    requires var p := path[|cuts|];
      && e < b < |p.chain| && p.chain[e].matching != null && p.chain[e].id < |ops|
      && (Take(m, ops, p.state, p.chain[e].id).0 ==>
          (p.done + {p.chain[e].id}, Take(m, ops, p.state, p.chain[e].id).1) in seen)
    ensures Searching(m, ops, nodes, head, path, cuts, e + 1, seen)
  {
    var p := path[|cuts|];
    var id := p.chain[e].id;
    assert Here(ops, nodes, head, p);
    NextNotOnPath(m, ops, nodes, head, path, cuts, id, Take(m, ops, p.state, id).1);
    assert !Leads(m, ops, p, id);
    TriedNext(m, ops, p, e);
  }

  lemma PushSearch<S, V(!new)>(m: Model<S, V>, ops: seq<Operation<V>>, nodes: seq<Node<V>>, head: Node<V>,
                               path: seq<Point<S, V>>, cuts: seq<Cut>, c: Cut, q: Point<S, V>, seen: set<(set<nat>, S)>)
    requires Searching(m, ops, nodes, head, path, cuts, c.a, seen)
    requires Moves(m, ops, path[|cuts|], c, q)
    ensures Searching(m, ops, nodes, head, path + [q], cuts + [c], 1, seen + {(q.done, q.state)})
  {
    PushPath(m, ops, nodes, head, path, cuts, c, q, seen);
    EndInUniverse(m, ops, nodes, head, path + [q], cuts + [c]);
  }

  lemma PopSearch<S, V(!new)>(m: Model<S, V>, ops: seq<Operation<V>>, nodes: seq<Node<V>>, head: Node<V>,
                              path: seq<Point<S, V>>, cuts: seq<Cut>, e: int, seen: set<(set<nat>, S)>)
    requires Searching(m, ops, nodes, head, path, cuts, e, seen)
    requires e < |path[|cuts|].chain| && path[|cuts|].chain[e].matching == null && |cuts| > 0
    ensures Searching(m, ops, nodes, head, path[..|cuts|], cuts[..|cuts| - 1], cuts[|cuts| - 1].a + 1, seen)
  {
    assert Here(ops, nodes, head, path[|cuts|]);
    ReturnMeansStuck(m, ops, nodes, head, path[|cuts|], e);
    PopPath(m, ops, nodes, head, path, cuts, seen);
    assert Moves(m, ops, path[|cuts| - 1], cuts[|cuts| - 1], path[|cuts|]);
  }

  lemma SearchFails<S, V(!new)>(m: Model<S, V>, ops: seq<Operation<V>>, nodes: seq<Node<V>>, head: Node<V>,
                                path: seq<Point<S, V>>, e: int, seen: set<(set<nat>, S)>)
    requires Searching(m, ops, nodes, head, path, [], e, seen)
    requires e < |path[0].chain| && path[0].chain[e].matching == null
    ensures !Linearizable(m, ops)
  {
    assert Here(ops, nodes, head, path[0]);
    ReturnMeansStuck(m, ops, nodes, head, path[0], e);
    StuckAtStart(m, ops);
  }

  lemma SearchSucceeds<S, V(!new)>(m: Model<S, V>, ops: seq<Operation<V>>, nodes: seq<Node<V>>, head: Node<V>,
                                   path: seq<Point<S, V>>, cuts: seq<Cut>, e: int, seen: set<(set<nat>, S)>)
    requires Searching(m, ops, nodes, head, path, cuts, e, seen)
    requires |path[|cuts|].chain| == 1
    ensures Linearizable(m, ops)
  {
    PathFinishes(m, ops, nodes, head, path, cuts, 0);
    StuckAtStart(m, ops);
  }

  /** What the loop knows about its variables: the path so far, the cursor's index, the pairs in
      the memo table, and what the arrays in the table hold. */
  datatype Trail<!S(==), !V> = Trail(path: seq<Point<S, V>>, cuts: seq<Cut>, e: int, seen: set<(set<nat>, S)>,
                                 snap: map<array<Word>, seq<Word>>)

  /** The list left at the cursor. */
  ghost function Left<S, V>(t: Trail<S, V>): seq<Node<V>> {
    if |t.path| == |t.cuts| + 1 then t.path[|t.cuts|].chain else []
  }

  /** The linearized set, the table and the stack hold what the trail says. */
  ghost predicate Tables<S, V>(hash: seq<Word> -> nat, linearized: array<Word>, cache: map<nat, seq<CacheEntry<S>>>,
                               calls: seq<CallsEntry<S, V>>, state: S, t: Trail<S, V>, n: nat)
    reads linearized, t.snap.Keys
  {
    && StackMatches(calls, t.path, t.cuts)
    && state == t.path[|t.cuts|].state
    && Bits(linearized[..]) == t.path[|t.cuts|].done && 64 * linearized.Length >= n
    && Frozen(t.snap) && linearized !in t.snap && Stored(cache, t.snap, hash, linearized.Length, t.seen)
  }

  lemma TablesAre<S, V>(hash: seq<Word> -> nat, linearized: array<Word>, cache: map<nat, seq<CacheEntry<S>>>,
                        calls: seq<CallsEntry<S, V>>, state: S, t: Trail<S, V>, n: nat)
    ensures Tables(hash, linearized, cache, calls, state, t, n) <==>
      && StackMatches(calls, t.path, t.cuts) && |t.path| == |t.cuts| + 1 && state == t.path[|t.cuts|].state
      && Bits(linearized[..]) == t.path[|t.cuts|].done && 64 * linearized.Length >= n
      && Frozen(t.snap) && linearized !in t.snap && Stored(cache, t.snap, hash, linearized.Length, t.seen)
  {}

  lemma FrozenMore(snap: map<array<Word>, seq<Word>>, a: array<Word>, words: seq<Word>)
    requires Frozen(snap) && a[..] == words
    ensures Frozen(snap[a := words])
  {}

  /** The list is linked as the trail says, and the cursor is in it. */
  ghost predicate Cursor<S, V>(nodes: seq<Node<V>>, head: Node<V>, entry: Node?<V>, t: Trail<S, V>)
    reads nodes, head, Left(t)
  {
    && Linked(Left(t)) && Kept(nodes, t.path, t.cuts)
    && |Left(t)| > 0 && Left(t)[0] == head
    && (|Left(t)| > 1 ==> 1 <= t.e < |Left(t)| && entry == Left(t)[t.e])
  }

  ghost predicate Invariant<S, V(!new)>(m: Model<S, V>, ops: seq<Operation<V>>, nodes: seq<Node<V>>, head: Node<V>, t: Trail<S, V>) {
    Searching(m, ops, nodes, head, t.path, t.cuts, t.e, t.seen)
  }

  /** A call that the model allows and whose pair is new: store the pair, push the call, lift it. */
  method Push<S(==), V(!new)>(m: Model<S, V>, hash: seq<Word> -> nat, headEntry: Node<V>, entry: Node<V>, newState: S,
                              linearized: array<Word>, newLinearized: array<Word>,
                              cache: map<nat, seq<CacheEntry<S>>>, calls: seq<CallsEntry<S, V>>, state: S,
                              ghost ops: seq<Operation<V>>, ghost nodes: seq<Node<V>>, ghost t: Trail<S, V>, ghost b: int)
    returns (cache': map<nat, seq<CacheEntry<S>>>, calls': seq<CallsEntry<S, V>>, entry': Node?<V>, ghost t': Trail<S, V>)
    requires Invariant(m, ops, nodes, headEntry, t) && Cursor(nodes, headEntry, entry, t)
    requires Tables(hash, linearized, cache, calls, state, t, |ops|)
    requires |Left(t)| > 1 && entry.id < |ops| && (true, newState) == Take(m, ops, state, entry.id)
    requires t.e < b < |Left(t)| && Left(t)[b] == entry.matching && entry in nodes && Left(t)[b] in nodes
    requires newLinearized !in t.snap && newLinearized != linearized && newLinearized.Length == linearized.Length
    requires Bits(newLinearized[..]) == t.path[|t.cuts|].done + {entry.id}
    requires (Bits(newLinearized[..]), newState) !in t.seen
    modifies Left(t), linearized
    ensures Invariant(m, ops, nodes, headEntry, t') && Cursor(nodes, headEntry, entry', t')
    ensures Tables(hash, linearized, cache', calls', newState, t', |ops|)
    ensures t'.seen == t.seen + {(old(Bits(newLinearized[..])), newState)}
    ensures t'.snap.Keys == t.snap.Keys + {newLinearized}
  {
    hide Searching, Path, Kept, Stored, Frozen, Represents, Here, StackMatches, Linked, InOrder, Out, Lifted, Bits, Tables;
    TablesAre(hash, linearized, cache, calls, state, t, |ops|);
    CursorFacts(m, ops, nodes, headEntry, t.path, t.cuts, t.e, t.seen);
    StackPush(calls, t.path, t.cuts, entry, state, t.e, b, newState, entry.id);
    ghost var p, c := t.path[|t.cuts|], Cut(t.e, b);
    ghost var q := Point(Lifted(p.chain, t.e, b), p.done + {entry.id}, newState);
    PushSearch(m, ops, nodes, headEntry, t.path, t.cuts, c, q, t.seen);
    CursorFacts(m, ops, nodes, headEntry, t.path + [q], t.cuts + [c], 1, t.seen + {(q.done, q.state)});
    ghost var words := newLinearized[..];

    var h := hash(newLinearized[..]);
    var newCacheEntry := CacheEntry(newLinearized, newState);
    StoredAppend(cache, t.snap, hash, newCacheEntry, words, t.seen);
    cache' := cache[h := (if h in cache then cache[h] else []) + [newCacheEntry]];
    calls' := calls + [CallsEntry(entry, state)];
    Set(linearized, entry.id);
    LiftCall(entry, nodes, t.path, t.cuts, c, q);
    HeadLink(q.chain);
    entry' := headEntry.next;
    t' := Trail(t.path + [q], t.cuts + [c], 1, t.seen + {(q.done, q.state)}, t.snap[newLinearized := words]);
    FrozenMore(t.snap, newLinearized, words);
    TablesAre(hash, linearized, cache', calls', newState, t', |ops|);
  }

  /** A return under the cursor: give up the last linearized operation and put it back. */
  method Pop<S(==), V(!new)>(m: Model<S, V>, hash: seq<Word> -> nat, headEntry: Node<V>, entry: Node<V>,
                             linearized: array<Word>, cache: map<nat, seq<CacheEntry<S>>>,
                             calls: seq<CallsEntry<S, V>>, state: S,
                             ghost ops: seq<Operation<V>>, ghost nodes: seq<Node<V>>, ghost t: Trail<S, V>)
    returns (calls': seq<CallsEntry<S, V>>, state': S, entry': Node?<V>, ghost t': Trail<S, V>)
    requires Invariant(m, ops, nodes, headEntry, t) && Cursor(nodes, headEntry, entry, t)
    requires Tables(hash, linearized, cache, calls, state, t, |ops|)
    requires |Left(t)| > 1 && entry.matching == null && |calls| > 0
    modifies nodes, headEntry, linearized
    ensures Invariant(m, ops, nodes, headEntry, t') && Cursor(nodes, headEntry, entry', t')
    ensures Tables(hash, linearized, cache, calls', state', t', |ops|)
    ensures t'.seen == t.seen && t'.snap == t.snap && |calls'| < |calls|
  {
    hide Searching, Path, Kept, Stored, Frozen, Represents, Here, StackMatches, Linked, InOrder, Out, Lifted, Bits, Tables;
    TablesAre(hash, linearized, cache, calls, state, t, |ops|);
    StackPop(calls, t.path, t.cuts);
    ghost var n := |t.cuts| - 1;
    ghost var path, cuts, p, c := t.path[..n + 1], t.cuts[..n], t.path[n], t.cuts[n];
    PopFacts(m, ops, nodes, headEntry, t.path, t.cuts, t.e, t.seen);
    PopSearch(m, ops, nodes, headEntry, t.path, t.cuts, t.e, t.seen);
    CursorFacts(m, ops, nodes, headEntry, path, cuts, c.a + 1, t.seen);

    var callsTop := calls[|calls| - 1];
    var top := callsTop.entry;
    state' := callsTop.state;
    Clear(linearized, top.id);
    calls' := calls[..|calls| - 1];
    UnliftCall(top, nodes, t.path, t.cuts);
    CallLink(p.chain, c.a);
    entry' := top.next;
    t' := t.(path := path, cuts := cuts, e := c.a + 1);
    TablesAre(hash, linearized, cache, calls', state', t', |ops|);
  }

  lemma StackPop<S, V>(calls: seq<CallsEntry<S, V>>, path: seq<Point<S, V>>, cuts: seq<Cut>)
    requires StackMatches(calls, path, cuts) && |calls| > 0
    ensures var n := |cuts| - 1;
      && |calls| == |cuts| && |path| == |cuts| + 1
      && StackMatches(calls[..n], path[..n + 1], cuts[..n])
      && 0 <= cuts[n].a < |path[n].chain| && calls[n].entry == path[n].chain[cuts[n].a] && calls[n].state == path[n].state
  {}

  lemma CallLink<V>(chain: seq<Node<V>>, a: int)
    requires Linked(chain) && 0 <= a < |chain| - 1
    ensures chain[a].next == chain[a + 1]
  {}

  /** The last lift of the path, seen from its end. */
  lemma PopFacts<S, V(!new)>(m: Model<S, V>, ops: seq<Operation<V>>, nodes: seq<Node<V>>, head: Node<V>,
                             path: seq<Point<S, V>>, cuts: seq<Cut>, e: int, seen: set<(set<nat>, S)>)
    requires Searching(m, ops, nodes, head, path, cuts, e, seen) && |cuts| > 0
    ensures |path| == |cuts| + 1
    ensures var n := |cuts| - 1; var p, c := path[n], cuts[n];
      && 0 < c.a < c.b < |p.chain| && p.chain[c.b] == p.chain[c.a].matching && p.chain[c.a].id < |ops|
      && path[n + 1].chain == Lifted(p.chain, c.a, c.b)
      && p.done == path[n + 1].done - {p.chain[c.a].id}
      && (forall x :: x in p.chain ==> x == head || x in nodes)
  {
    var n := |cuts| - 1;
    assert Moves(m, ops, path[n], cuts[n], path[n + 1]);
    assert Here(ops, nodes, head, path[n]);
  }

  lemma LeftInside<S, V(!new)>(m: Model<S, V>, ops: seq<Operation<V>>, nodes: seq<Node<V>>, head: Node<V>, t: Trail<S, V>)
    requires Invariant(m, ops, nodes, head, t)
    ensures |t.path| == |t.cuts| + 1
    ensures forall x :: x in Left(t) ==> x == head || x in nodes
    ensures |Left(t)| > 0 && Left(t)[0] == head
    ensures |Left(t)| > 1 ==> 1 <= t.e < |Left(t)|
    ensures |t.cuts| == 0 ==> Left(t) == [head] + nodes
    ensures t.seen <= Universe(m, ops)
    ensures Represents(ops, nodes) && Here(ops, nodes, head, t.path[|t.cuts|])
  {
    CursorFacts(m, ops, nodes, head, t.path, t.cuts, t.e, t.seen);
    assert Here(ops, nodes, head, t.path[|t.cuts|]);
  }

  lemma LinkedTail<V>(head: Node<V>, nodes: seq<Node<V>>)
    requires Linked([head] + nodes)
    ensures Linked(nodes)
  {
    var all := [head] + nodes;
    forall i | 0 <= i < |nodes| - 1 ensures nodes[i].next == nodes[i + 1] {
      assert all[i + 1].next == all[i + 2];
    }
    forall i | 1 <= i < |nodes| ensures nodes[i].prev == nodes[i - 1] {
      assert all[i + 1].prev == all[i];
    }
    assert |nodes| > 0 ==> nodes[|nodes| - 1] == all[|all| - 1];
  }

  /** A call under the cursor: linearize it if the model allows it and its pair is new, else move on. */
  method TryCall<S(==), V(!new)>(m: Model<S, V>, hash: seq<Word> -> nat, headEntry: Node<V>, entry: Node<V>,
                                 linearized: array<Word>, cache: map<nat, seq<CacheEntry<S>>>,
                                 calls: seq<CallsEntry<S, V>>, state: S,
                                 ghost ops: seq<Operation<V>>, ghost nodes: seq<Node<V>>, ghost t: Trail<S, V>)
    returns (cache': map<nat, seq<CacheEntry<S>>>, calls': seq<CallsEntry<S, V>>, state': S, entry': Node?<V>,
             ghost t': Trail<S, V>)
    requires Invariant(m, ops, nodes, headEntry, t) && Cursor(nodes, headEntry, entry, t)
    requires Tables(hash, linearized, cache, calls, state, t, |ops|)
    requires |Left(t)| > 1 && entry.matching != null
    modifies nodes, headEntry, linearized
    ensures Invariant(m, ops, nodes, headEntry, t') && Cursor(nodes, headEntry, entry', t')
    ensures Tables(hash, linearized, cache', calls', state', t', |ops|)
    ensures forall a :: a in t'.snap && a !in t.snap ==> fresh(a)
    ensures t.seen < t'.seen ||
            (t'.seen == t.seen && |calls'| == |calls| && |Left(t')| - t'.e < |Left(t)| - t.e)
  {
    hide Represents, Searching, Path, Kept, Stored, Here, StackMatches, Linked, InOrder, Out, Lifted, Bits, Universe;
    cache', calls', state' := cache, calls, state;
    LeftInside(m, ops, nodes, headEntry, t);
    ghost var p := t.path[|t.cuts|];
    var matching := entry.matching;
    ghost var b := FindReturn(ops, nodes, headEntry, p, t.e);
    CallLink(p.chain, t.e);
    var step := m.step(state, entry.value.value, matching.value.value);
    if step.0 {
      var newLinearized := Clone(linearized);
      Set(newLinearized, entry.id);
      var contains := CacheContains(cache, hash, CacheEntry(newLinearized, step.1), t.snap, t.seen);
      if !contains {
        cache', calls', entry', t' := Push(m, hash, headEntry, entry, step.1, linearized, newLinearized, cache, calls, state,
                                           ops, nodes, t, b);
        state' := step.1;
        return;
      }
    }
    AdvanceSearch(m, ops, nodes, headEntry, t.path, t.cuts, t.e, b, t.seen);
    entry' := entry.next;
    t' := t.(e := t.e + 1);
  }

  /** An empty set of linearized ids, and a head in front of the history. */
  method Begin<S(==), V(!new)>(m: Model<S, V>, subhistory: Node?<V>, hash: seq<Word> -> nat,
                               ghost ops: seq<Operation<V>>, ghost nodes: seq<Node<V>>)
    returns (linearized: array<Word>, headEntry: Node<V>, ghost t: Trail<S, V>)
    requires Represents(ops, nodes) && InOrder(nodes) && Linked(nodes) && Starts(subhistory, nodes)
    modifies nodes
    ensures fresh(linearized) && fresh(headEntry)
    ensures Invariant(m, ops, nodes, headEntry, t) && Cursor(nodes, headEntry, subhistory, t)
    ensures Tables(hash, linearized, map[], [], m.init, t, |ops|)
  {
    hide Searching, InOrder, Linked, Explored, Memo;
    var length := Length(subhistory, nodes);
    linearized := NewBitset(length / 2);
    headEntry := new Node<V>(None, null, 0xFFFF_FFFF_FFFF_FFFF, 0);
    InsertBefore(headEntry, subhistory, nodes, 0);
    assert Inserted(nodes, 0, headEntry) == [headEntry] + nodes;
    StartSearch(m, ops, nodes, headEntry);
    t := Trail([Point([headEntry] + nodes, {}, m.init)], [], 1, {}, map[]);
  }

  /** What is still to do: pairs to store, calls to give up, nodes to pass. */
  ghost predicate Progress<S, V>(m: Model<S, V>, ops: seq<Operation<V>>, t: Trail<S, V>, depth: nat, t': Trail<S, V>, depth': nat) {
    && t'.seen <= Universe(m, ops)
    && (|| t.seen < t'.seen
        || (t'.seen == t.seen && (depth' < depth || (depth' == depth && |Left(t')| - t'.e < |Left(t)| - t.e))))
  }

  /** One turn of the loop after the kill flag was found unset. */
  method Turn<S(==), V(!new)>(m: Model<S, V>, hash: seq<Word> -> nat, headEntry: Node<V>, entry: Node?<V>,
                              linearized: array<Word>, cache: map<nat, seq<CacheEntry<S>>>,
                              calls: seq<CallsEntry<S, V>>, state: S,
                              ghost ops: seq<Operation<V>>, ghost nodes: seq<Node<V>>, ghost t: Trail<S, V>)
    returns (failed: bool, cache': map<nat, seq<CacheEntry<S>>>, calls': seq<CallsEntry<S, V>>, state': S,
             entry': Node?<V>, ghost t': Trail<S, V>)
    requires Invariant(m, ops, nodes, headEntry, t) && Cursor(nodes, headEntry, entry, t)
    requires Tables(hash, linearized, cache, calls, state, t, |ops|)
    requires headEntry.next != null
    modifies nodes, headEntry, linearized
    ensures failed ==> !Linearizable(m, ops) && Linked(nodes)
    ensures !failed ==> Invariant(m, ops, nodes, headEntry, t') && Cursor(nodes, headEntry, entry', t')
    ensures !failed ==> Tables(hash, linearized, cache', calls', state', t', |ops|)
    ensures !failed ==> forall a :: a in t'.snap && a !in t.snap ==> fresh(a)
    ensures !failed ==> Progress(m, ops, t, |calls|, t', |calls'|)
  {
    hide Invariant, Cursor, Tables, Left, Linked, Universe, Linearizable;
    failed, cache', calls', state', entry', t' := false, cache, calls, state, entry, t;
    AtCursor(m, ops, nodes, headEntry, entry, t);
    if entry.matching != null {
      cache', calls', state', entry', t' := TryCall(m, hash, headEntry, entry, linearized, cache, calls, state, ops, nodes, t);
      SeenBounded(m, ops, nodes, headEntry, t');
    } else if |calls| == 0 {
      EmptyStack(m, hash, linearized, cache, state, headEntry, entry, ops, nodes, t);
      failed := true;
    } else {
      calls', state', entry', t' := Pop(m, hash, headEntry, entry, linearized, cache, calls, state, ops, nodes, t);
      SeenBounded(m, ops, nodes, headEntry, t');
    }
  }

  /** Decides one history. `kill(i)` is what the i-th load of the kill flag returns; `loads` counts the loads made. */
  method CheckSingle<S(==), V(!new)>(m: Model<S, V>, subhistory: Node?<V>, kill: nat -> bool, hash: seq<Word> -> nat,
                                     ghost ops: seq<Operation<V>>, ghost nodes: seq<Node<V>>) returns (ok: bool, loads: nat)
    requires Represents(ops, nodes) && InOrder(nodes) && Linked(nodes) && Starts(subhistory, nodes)
    modifies nodes
    ensures ok ==> Linearizable(m, ops)
    ensures !ok ==> !Linearizable(m, ops) || (loads > 0 && kill(loads - 1))
    ensures forall i: nat :: i < loads && kill(i) ==> !ok && i == loads - 1
    ensures !ok && (loads > 0 ==> !kill(loads - 1)) ==> Linked(nodes)
  {
    hide Represents, Searching, Path, Kept, Stored, Here, StackMatches, Linked, InOrder, Out, Lifted, Bits, Universe;
    var linearized, headEntry, t := Begin(m, subhistory, hash, ops, nodes);
    var cache: map<nat, seq<CacheEntry<S>>> := map[];
    var calls: seq<CallsEntry<S, V>> := [];
    var state := m.init;
    var entry := subhistory;
    loads := 0;
    while headEntry.next != null
      invariant Invariant(m, ops, nodes, headEntry, t) && Cursor(nodes, headEntry, entry, t)
      invariant Tables(hash, linearized, cache, calls, state, t, |ops|)
      invariant forall i: nat :: i < loads ==> !kill(i)
      decreases Universe(m, ops) - t.seen, |calls|, |Left(t)| - t.e
    {
      loads := loads + 1;
      if kill(loads - 1) {
        return false, loads;
      }
      AtCursor(m, ops, nodes, headEntry, entry, t);
      var failed;
      failed, cache, calls, state, entry, t :=
        Turn(m, hash, headEntry, entry, linearized, cache, calls, state, ops, nodes, t);
      if failed {
        return false, loads;
      }
    }
    AtCursor(m, ops, nodes, headEntry, entry, t);
    EmptyList(m, ops, nodes, headEntry, t);
    return true, loads;
  }

  lemma SeenBounded<S, V(!new)>(m: Model<S, V>, ops: seq<Operation<V>>, nodes: seq<Node<V>>, head: Node<V>, t: Trail<S, V>)
    requires Invariant(m, ops, nodes, head, t)
    ensures t.seen <= Universe(m, ops)
  {}

  /** The cursor is never null while the list is not empty. */
  lemma AtCursor<S, V(!new)>(m: Model<S, V>, ops: seq<Operation<V>>, nodes: seq<Node<V>>, head: Node<V>, entry: Node?<V>,
                             t: Trail<S, V>)
    requires Invariant(m, ops, nodes, head, t) && Cursor(nodes, head, entry, t)
    ensures head.next == null ==> |Left(t)| == 1
    ensures head.next != null ==> |Left(t)| > 1 && t.e < |Left(t)| && entry != null && entry == Left(t)[t.e]
  {
    HeadLink(Left(t));
  }

  /** A return under the cursor and nothing to give up: no order exists, and every lift is undone. */
  lemma EmptyStack<S, V(!new)>(m: Model<S, V>, hash: seq<Word> -> nat, linearized: array<Word>, cache: map<nat, seq<CacheEntry<S>>>,
                                   state: S, head: Node<V>, entry: Node<V>,
                                   ops: seq<Operation<V>>, nodes: seq<Node<V>>, t: Trail<S, V>)
    requires Invariant(m, ops, nodes, head, t) && Cursor(nodes, head, entry, t)
    requires Tables(hash, linearized, cache, [], state, t, |ops|)
    requires |Left(t)| > 1 && entry.matching == null
    ensures !Linearizable(m, ops) && Linked(nodes)
  {
    LeftInside(m, ops, nodes, head, t);
    assert t.cuts == [];
    SearchFails(m, ops, nodes, head, t.path, t.e, t.seen);
    LinkedTail(head, nodes);
  }

  lemma EmptyList<S, V(!new)>(m: Model<S, V>, ops: seq<Operation<V>>, nodes: seq<Node<V>>, head: Node<V>, t: Trail<S, V>)
    requires Invariant(m, ops, nodes, head, t) && |Left(t)| == 1
    ensures Linearizable(m, ops)
  {
    LeftInside(m, ops, nodes, head, t);
    SearchSucceeds(m, ops, nodes, head, t.path, t.cuts, t.e, t.seen);
  }
}
