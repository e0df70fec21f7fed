/**
 The backtracking search over a linked history, as points on a path: which operations are
 linearized, which nodes are left, and the model's state. The lemmas say what each turn of
 the search loop keeps and what its two exits mean.
 */
module Search {
  import opened Common
  import opened History
  import opened LinkedHistory

  /** The operations whose id is not in `done`. */
  ghost function Rem<V>(ops: seq<Operation<V>>, done: set<nat>): multiset<Operation<V>> {
    if ops == [] then multiset{}
    else var n := |ops| - 1;
      Rem(ops[..n], done) + if n in done then multiset{} else multiset{ops[n]}
  }

  lemma {:induction false} RemHas<V>(ops: seq<Operation<V>>, done: set<nat>, id: nat)
    requires id < |ops| && id !in done
    ensures ops[id] in Rem(ops, done)
  {
    if id < |ops| - 1 {
      RemHas(ops[..|ops| - 1], done, id);
    }
  }

  lemma {:induction false} RemMember<V>(ops: seq<Operation<V>>, done: set<nat>, op: Operation<V>) returns (id: nat)
    requires op in Rem(ops, done)
    ensures id < |ops| && id !in done && ops[id] == op
  {
    var n := |ops| - 1;
    if n !in done && ops[n] == op {
      id := n;
    } else {
      id := RemMember(ops[..n], done, op);
    }
  }

  lemma {:induction false} RemOutside<V>(ops: seq<Operation<V>>, done: set<nat>, id: nat)
    requires id >= |ops|
    ensures Rem(ops, done + {id}) == Rem(ops, done)
  {
    if ops != [] {
      RemOutside(ops[..|ops| - 1], done, id);
    }
  }

  lemma {:induction false} RemRemove<V>(ops: seq<Operation<V>>, done: set<nat>, id: nat)
    requires id < |ops| && id !in done
    ensures Rem(ops, done + {id}) == Rem(ops, done) - multiset{ops[id]}
  {
    var n := |ops| - 1;
    if id == n {
      RemOutside(ops[..n], done, id);
    } else {
      RemRemove(ops[..n], done, id);
      RemHas(ops[..n], done, id);
      MinusFirst(Rem(ops[..n], done), ops[id], if n in done then multiset{} else multiset{ops[n]});
    }
  }

  lemma MinusFirst<T>(a: multiset<T>, x: T, b: multiset<T>)
    requires x in a
    ensures (a - multiset{x}) + b == (a + b) - multiset{x}
  {}

  lemma {:induction false} RemNone<V>(ops: seq<Operation<V>>)
    ensures Rem(ops, {}) == multiset(ops)
  {
    if ops != [] {
      var n := |ops| - 1;
      RemNone(ops[..n]);
      assert ops == ops[..n] + [ops[n]];
    }
  }

  lemma {:induction false} RemAll<V>(ops: seq<Operation<V>>, done: set<nat>)
    requires forall id: nat :: id < |ops| ==> id in done
    ensures Rem(ops, done) == multiset{}
  {
    if ops != [] {
      RemAll(ops[..|ops| - 1], done);
    }
  }

  /** Where the search stands: the list left (with its head), the ids linearized, the state. */
  datatype Point<!S, !V> = Point(chain: seq<Node<V>>, done: set<nat>, state: S)

  /** The indices of a call and its return in a list. */
  datatype Cut = Cut(a: int, b: int)

  /** The list is the history without the calls and returns of the linearized ids. */
  ghost predicate Here<S, V>(ops: seq<Operation<V>>, nodes: seq<Node<V>>, head: Node<V>, p: Point<S, V>) {
    && |p.chain| > 0 && p.chain[0] == head && head.pos == 0
    && InOrder(p.chain)
    && (forall i :: 1 <= i < |p.chain| ==> p.chain[i] in nodes && p.chain[i].id !in p.done)
    && (forall k :: 0 <= k < |nodes| && nodes[k].id !in p.done ==> nodes[k] in p.chain)
    && (forall id :: id in p.done ==> id < |ops|)
  }

  ghost function Take<S, V>(m: Model<S, V>, ops: seq<Operation<V>>, s: S, id: nat): (bool, S)
    requires id < |ops|
  {
    m.step(s, ops[id].input, ops[id].output)
  }

  /** No order of the operations left is legal from here. */
  ghost predicate Stuck<S, V(!new)>(m: Model<S, V>, ops: seq<Operation<V>>, done: set<nat>, s: S) {
    !CanFinish(m, s, Rem(ops, done))
  }

  /** Linearizing `id` next leads to a legal order of everything left. */
  ghost predicate Leads<S, V(!new)>(m: Model<S, V>, ops: seq<Operation<V>>, p: Point<S, V>, id: nat)
    requires id < |ops|
  {
    Take(m, ops, p.state, id).0 && !Stuck(m, ops, p.done + {id}, Take(m, ops, p.state, id).1)
  }

  /** The first e - 1 nodes after the head are calls that do not lead anywhere. */
  ghost predicate Tried<S, V(!new)>(m: Model<S, V>, ops: seq<Operation<V>>, p: Point<S, V>, e: int) {
    forall i :: 1 <= i < e && i < |p.chain| ==>
      p.chain[i].id < |ops| && p.chain[i].matching != null && !Leads(m, ops, p, p.chain[i].id)
  }

  lemma TriedNext<S, V(!new)>(m: Model<S, V>, ops: seq<Operation<V>>, p: Point<S, V>, e: int)
    requires Tried(m, ops, p, e) && 1 <= e < |p.chain|
    requires p.chain[e].id < |ops| && p.chain[e].matching != null && !Leads(m, ops, p, p.chain[e].id)
    ensures Tried(m, ops, p, e + 1)
  {}

  /** Lifting the call at c.a and its return at c.b leads from p to q. */
  ghost predicate Moves<S, V>(m: Model<S, V>, ops: seq<Operation<V>>, p: Point<S, V>, c: Cut, q: Point<S, V>) {
    && 0 < c.a < c.b < |p.chain|
    && p.chain[c.a].matching == p.chain[c.b]
    && p.chain[c.a].id < |ops|
    && Take(m, ops, p.state, p.chain[c.a].id).0
    && q == Point(Lifted(p.chain, c.a, c.b), p.done + {p.chain[c.a].id}, Take(m, ops, p.state, p.chain[c.a].id).1)
  }

  /** A node of the list is the node at its place in the history. */
  lemma PlaceOf<S, V>(ops: seq<Operation<V>>, nodes: seq<Node<V>>, head: Node<V>, p: Point<S, V>, i: int)
    requires Represents(ops, nodes) && Here(ops, nodes, head, p) && 1 <= i < |p.chain|
    ensures 1 <= p.chain[i].pos <= |nodes| && nodes[p.chain[i].pos - 1] == p.chain[i]
    ensures Describes(ops, nodes, p.chain[i].pos - 1)
  {
    var k :| 0 <= k < |nodes| && nodes[k] == p.chain[i];
    assert Describes(ops, nodes, k);
  }

  lemma FindNode<S, V>(ops: seq<Operation<V>>, nodes: seq<Node<V>>, head: Node<V>, p: Point<S, V>, k: nat)
    returns (i: int)
    requires Represents(ops, nodes) && Here(ops, nodes, head, p)
    requires k < |nodes| && nodes[k].id !in p.done
    ensures 1 <= i < |p.chain| && p.chain[i] == nodes[k] && p.chain[i].pos == k + 1
  {
    assert nodes[k] in p.chain;
    i :| 0 <= i < |p.chain| && p.chain[i] == nodes[k];
    assert Describes(ops, nodes, k);
  }

  /** A call in the list is followed by its return. */
  lemma FindReturn<S, V>(ops: seq<Operation<V>>, nodes: seq<Node<V>>, head: Node<V>, p: Point<S, V>, a: int)
    returns (b: int)
    requires Represents(ops, nodes) && Here(ops, nodes, head, p)
    requires 1 <= a < |p.chain| && p.chain[a].matching != null
    ensures a < b < |p.chain| && p.chain[b] == p.chain[a].matching && p.chain[b].matching == null
    ensures p.chain[a].id < |ops| && p.chain[a].pos == ops[p.chain[a].id].call
    ensures p.chain[a].value == Some(ops[p.chain[a].id].input) && p.chain[b].value == Some(ops[p.chain[a].id].output)
    ensures p.chain[a] in nodes && p.chain[b] in nodes && p.chain[a].id !in p.done
  {
    PlaceOf(ops, nodes, head, p, a);
    var id := p.chain[a].id;
    assert Describes(ops, nodes, ops[id].ret - 1);
    b := FindNode(ops, nodes, head, p, ops[id].ret - 1);
  }

  /** Only the call and the return carry their id. */
  lemma OnlyTwo<S, V>(ops: seq<Operation<V>>, nodes: seq<Node<V>>, head: Node<V>, p: Point<S, V>, c: Cut, i: int)
    requires Represents(ops, nodes) && Here(ops, nodes, head, p)
    requires 0 < c.a < c.b < |p.chain| && p.chain[c.a].matching == p.chain[c.b] && 1 <= i < |p.chain|
    ensures p.chain[i].id == p.chain[c.a].id <==> i == c.a || i == c.b
  {
    PlaceOf(ops, nodes, head, p, i);
    PlaceOf(ops, nodes, head, p, c.a);
    PlaceOf(ops, nodes, head, p, c.b);
  }

  /** Lifting leaves the history without one more id. */
  lemma MoveKeepsList<S, V>(m: Model<S, V>, ops: seq<Operation<V>>, nodes: seq<Node<V>>, head: Node<V>,
                            p: Point<S, V>, c: Cut, q: Point<S, V>)
    requires Represents(ops, nodes) && Here(ops, nodes, head, p) && Moves(m, ops, p, c, q)
    ensures Here(ops, nodes, head, q)
  {
    forall i | 1 <= i < |q.chain| ensures q.chain[i] in nodes && q.chain[i].id !in q.done {
      OnlyTwo(ops, nodes, head, p, c, if i < c.a then i else if i < c.b - 1 then i + 1 else i + 2);
    }
    forall k | 0 <= k < |nodes| && nodes[k].id !in q.done ensures nodes[k] in q.chain {
      var i := FindNode(ops, nodes, head, p, k);
      OnlyTwo(ops, nodes, head, p, c, i);
      assert q.chain[if i < c.a then i else if i < c.b then i - 1 else i - 2] == p.chain[i];
    }
  }

  lemma FirstCandidate<S, V(!new)>(m: Model<S, V>, ops: seq<Operation<V>>, done: set<nat>, s: S,
                                   order: seq<Operation<V>>, waiting: nat) returns (id: nat)
    requires Witness(m, s, Rem(ops, done), order) && waiting < |ops| && waiting !in done
    requires ops[waiting].call <= ops[waiting].ret
    ensures id < |ops| && id !in done && ops[id].call <= ops[waiting].ret
    ensures Take(m, ops, s, id).0 && !Stuck(m, ops, done + {id}, Take(m, ops, s, id).1)
  {
    RemHas(ops, done, waiting);
    assert ops[waiting] in order;
    FirstStep(m, s, Rem(ops, done), order);
    id := RemMember(ops, done, order[0]);
    RemRemove(ops, done, id);
    assert Witness(m, Take(m, ops, s, id).1, Rem(ops, done + {id}), order[1..]);
  }

  /** The first operation of a legal order is called before the first return left in the list. */
  lemma FirstIsTried<S, V(!new)>(m: Model<S, V>, ops: seq<Operation<V>>, nodes: seq<Node<V>>, head: Node<V>,
                                 p: Point<S, V>, e: int, order: seq<Operation<V>>) returns (i: int)
    requires Represents(ops, nodes) && Here(ops, nodes, head, p)
    requires 1 <= e < |p.chain| && p.chain[e].matching == null
    requires Witness(m, p.state, Rem(ops, p.done), order)
    ensures 1 <= i < e && p.chain[i].id < |ops| && Leads(m, ops, p, p.chain[i].id)
  {
    PlaceOf(ops, nodes, head, p, e);
    var id := FirstCandidate(m, ops, p.done, p.state, order, p.chain[e].id);
    assert Describes(ops, nodes, ops[id].call - 1);
    i := FindNode(ops, nodes, head, p, ops[id].call - 1);
  }

  /** When the calls before the first return left in the list lead nowhere, nothing does. */
  lemma ReturnMeansStuck<S, V(!new)>(m: Model<S, V>, ops: seq<Operation<V>>, nodes: seq<Node<V>>, head: Node<V>,
                                     p: Point<S, V>, e: int)
    requires Represents(ops, nodes) && Here(ops, nodes, head, p) && Tried(m, ops, p, e)
    requires 1 <= e < |p.chain| && p.chain[e].matching == null
    ensures Stuck(m, ops, p.done, p.state)
  {
    if !Stuck(m, ops, p.done, p.state) {
      var order :| Witness(m, p.state, Rem(ops, p.done), order);
      var i := FirstIsTried(m, ops, nodes, head, p, e, order);
      assert false;
    }
  }

  // ----- the whole search -----

  /** The points from the start to where the search stands, and the lifts between them. */
  ghost predicate Path<S, V>(m: Model<S, V>, ops: seq<Operation<V>>, nodes: seq<Node<V>>, head: Node<V>,
                             path: seq<Point<S, V>>, cuts: seq<Cut>) {
    && Steps(m, ops, path, cuts)
    && path[0].chain == [head] + nodes
    && (forall k :: 0 <= k < |path| ==> Here(ops, nodes, head, path[k]) && |path[k].done| == k)
  }

  ghost predicate Steps<S, V>(m: Model<S, V>, ops: seq<Operation<V>>, path: seq<Point<S, V>>, cuts: seq<Cut>) {
    && |path| == |cuts| + 1
    && path[0].done == {} && path[0].state == m.init
    && (forall k :: 0 <= k < |cuts| ==> Moves(m, ops, path[k], cuts[k], path[k + 1]))
  }

  /** Everything before the path is explored: each earlier candidate leads nowhere. */
  ghost predicate Explored<S, V(!new)>(m: Model<S, V>, ops: seq<Operation<V>>, path: seq<Point<S, V>>, cuts: seq<Cut>) {
    |path| == |cuts| + 1 && forall k :: 0 <= k < |cuts| ==> Tried(m, ops, path[k], cuts[k].a)
  }

  ghost predicate OnPath<S, V>(path: seq<Point<S, V>>, done: set<nat>, s: S) {
    exists k :: 1 <= k < |path| && path[k].done == done && path[k].state == s
  }

  /** A pair in the memo table is on the path or was explored without success. */
  ghost predicate Memo<S, V(!new)>(m: Model<S, V>, ops: seq<Operation<V>>, path: seq<Point<S, V>>, seen: set<(set<nat>, S)>) {
    forall p :: p in seen ==> OnPath(path, p.0, p.1) || Stuck(m, ops, p.0, p.1)
  }

  /** The pairs of linearized ids and state that some sequence of k operations reaches. */
  ghost function Reach<S, V>(m: Model<S, V>, ops: seq<Operation<V>>, k: nat): set<(set<nat>, S)> {
    if k == 0 then {({}, m.init)} else Grown(m, ops, Reach(m, ops, k - 1))
  }

  ghost function Grown<S, V>(m: Model<S, V>, ops: seq<Operation<V>>, from: set<(set<nat>, S)>): (to: set<(set<nat>, S)>) {
    set p, id: nat | p in from && 0 <= id < |ops| :: (p.0 + {id}, Take(m, ops, p.1, id).1)
  }

  ghost function Union<T>(layers: seq<set<T>>): set<T> {
    if layers == [] then {} else Union(layers[..|layers| - 1]) + layers[|layers| - 1]
  }

  lemma {:induction false} LayerInUnion<T>(layers: seq<set<T>>, k: nat)
    requires k < |layers|
    ensures layers[k] <= Union(layers)
  {
    if k < |layers| - 1 {
      LayerInUnion(layers[..|layers| - 1], k);
    }
  }

  /** Everything that the search can reach. */
  ghost function Universe<S, V>(m: Model<S, V>, ops: seq<Operation<V>>): set<(set<nat>, S)> {
    Union(seq(|ops| + 1, k requires k >= 0 => Reach(m, ops, k)))
  }

  lemma MoveGrows<S, V>(m: Model<S, V>, ops: seq<Operation<V>>, p: Point<S, V>, c: Cut, q: Point<S, V>,
                        from: set<(set<nat>, S)>)
    requires Moves(m, ops, p, c, q) && (p.done, p.state) in from
    ensures (q.done, q.state) in Grown(m, ops, from)
  {
    var pair := (p.done, p.state);
    assert pair in from;
  }

  /** Where the path leads is reachable. */
  lemma {:induction false} PathReaches<S, V>(m: Model<S, V>, ops: seq<Operation<V>>,
                                             path: seq<Point<S, V>>, cuts: seq<Cut>, k: nat)
    requires Steps(m, ops, path, cuts) && k < |path|
    ensures (path[k].done, path[k].state) in Reach(m, ops, k)
  {
    hide Moves, Grown;
    if k == 0 {
      assert Reach(m, ops, 0) == {({}, m.init)};
    } else {
      PathReaches(m, ops, path, cuts, k - 1);
      MoveGrows(m, ops, path[k - 1], cuts[k - 1], path[k], Reach(m, ops, k - 1));
    }
  }

  /** The point reached is one of finitely many. */
  lemma EndInUniverse<S, V>(m: Model<S, V>, ops: seq<Operation<V>>, nodes: seq<Node<V>>, head: Node<V>,
                            path: seq<Point<S, V>>, cuts: seq<Cut>)
    requires Path(m, ops, nodes, head, path, cuts)
    ensures (path[|cuts|].done, path[|cuts|].state) in Universe(m, ops)
  {
    PathReaches(m, ops, path, cuts, |cuts|);
    assert Here(ops, nodes, head, path[|cuts|]);
    Bounded(path[|cuts|].done, |ops|);
    LayerInUnion(seq(|ops| + 1, k requires k >= 0 => Reach(m, ops, k)), |cuts|);
  }

  /** A pair with one more linearized id is not on the path. */
  lemma NextNotOnPath<S, V>(m: Model<S, V>, ops: seq<Operation<V>>, nodes: seq<Node<V>>, head: Node<V>,
                            path: seq<Point<S, V>>, cuts: seq<Cut>, id: nat, s: S)
    requires Path(m, ops, nodes, head, path, cuts) && id !in path[|cuts|].done
    ensures !OnPath(path, path[|cuts|].done + {id}, s)
  {
    assert |path[|cuts|].done + {id}| == |cuts| + 1;
  }

  lemma StartPath<S, V>(m: Model<S, V>, ops: seq<Operation<V>>, nodes: seq<Node<V>>, head: Node<V>)
    requires Represents(ops, nodes) && InOrder(nodes) && head.pos == 0
    ensures Path(m, ops, nodes, head, [Point([head] + nodes, {}, m.init)], [])
  {
    var p: Point<S, V> := Point([head] + nodes, {}, m.init);
    forall k | 0 <= k < |nodes| ensures nodes[k] == p.chain[k + 1] && nodes[k].pos > 0 {
      assert Describes(ops, nodes, k);
    }
    assert Here(ops, nodes, head, p);
  }

  /** Linearizing one more operation. */
  lemma PushPath<S, V(!new)>(m: Model<S, V>, ops: seq<Operation<V>>, nodes: seq<Node<V>>, head: Node<V>,
                             path: seq<Point<S, V>>, cuts: seq<Cut>, c: Cut, q: Point<S, V>, seen: set<(set<nat>, S)>)
    requires Represents(ops, nodes) && Path(m, ops, nodes, head, path, cuts) && Explored(m, ops, path, cuts)
    requires Moves(m, ops, path[|cuts|], c, q) && Tried(m, ops, path[|cuts|], c.a)
    requires Memo(m, ops, path, seen)
    ensures Path(m, ops, nodes, head, path + [q], cuts + [c]) && Explored(m, ops, path + [q], cuts + [c])
    ensures Memo(m, ops, path + [q], seen + {(q.done, q.state)})
  {
    MoveKeepsList(m, ops, nodes, head, path[|cuts|], c, q);
    var path', cuts' := path + [q], cuts + [c];
    var id := path[|cuts|].chain[c.a].id;
    assert id !in path[|cuts|].done && |q.done| == |path[|cuts|].done| + 1;
    forall k | 0 <= k < |cuts'| ensures Moves(m, ops, path'[k], cuts'[k], path'[k + 1]) && Tried(m, ops, path'[k], cuts'[k].a) {
      assert k < |cuts| ==> Moves(m, ops, path[k], cuts[k], path[k + 1]);
    }
    forall p | p in seen + {(q.done, q.state)} ensures OnPath(path', p.0, p.1) || Stuck(m, ops, p.0, p.1) {
      if OnPath(path, p.0, p.1) {
        var k :| 1 <= k < |path| && path[k].done == p.0 && path[k].state == p.1;
        assert path'[k] == path[k];
      } else if p == (q.done, q.state) {
        assert path'[|path|] == q;
      }
    }
  }

  /** Giving up the last operation: it leads nowhere, and its pair stays in the memo table. */
  lemma PopPath<S, V(!new)>(m: Model<S, V>, ops: seq<Operation<V>>, nodes: seq<Node<V>>, head: Node<V>,
                            path: seq<Point<S, V>>, cuts: seq<Cut>, seen: set<(set<nat>, S)>)
    requires Represents(ops, nodes) && Path(m, ops, nodes, head, path, cuts) && Explored(m, ops, path, cuts)
    requires Memo(m, ops, path, seen) && |cuts| > 0
    requires Stuck(m, ops, path[|cuts|].done, path[|cuts|].state)
    ensures var n := |cuts| - 1;
      && Path(m, ops, nodes, head, path[..|cuts|], cuts[..n]) && Explored(m, ops, path[..|cuts|], cuts[..n])
      && Memo(m, ops, path[..|cuts|], seen)
      && Tried(m, ops, path[n], cuts[n].a + 1)
  {
    hide Moves, Tried, Here, Stuck, Memo, Represents;
    var n := |cuts| - 1;
    assert Moves(m, ops, path[n], cuts[n], path[n + 1]);
    assert Tried(m, ops, path[n], cuts[n].a);
    TriedThrough(m, ops, path[n], cuts[n], path[n + 1]);
    MemoPop(m, ops, path, seen);
  }

  /** A call that led to a hopeless point is tried. */
  lemma TriedThrough<S, V(!new)>(m: Model<S, V>, ops: seq<Operation<V>>, p: Point<S, V>, c: Cut, q: Point<S, V>)
    requires Moves(m, ops, p, c, q) && Tried(m, ops, p, c.a) && Stuck(m, ops, q.done, q.state)
    ensures Tried(m, ops, p, c.a + 1)
  {
    hide Stuck;
    TriedNext(m, ops, p, c.a);
  }

  lemma MemoPop<S, V(!new)>(m: Model<S, V>, ops: seq<Operation<V>>, path: seq<Point<S, V>>, seen: set<(set<nat>, S)>)
    requires |path| > 0 && Memo(m, ops, path, seen)
    requires Stuck(m, ops, path[|path| - 1].done, path[|path| - 1].state)
    ensures Memo(m, ops, path[..|path| - 1], seen)
  {
    hide Stuck;
    forall p | p in seen ensures OnPath(path[..|path| - 1], p.0, p.1) || Stuck(m, ops, p.0, p.1) {
      if OnPath(path, p.0, p.1) {
        var k :| 1 <= k < |path| && path[k].done == p.0 && path[k].state == p.1;
        assert k < |path| - 1 ==> path[..|path| - 1][k] == path[k];
      }
    }
  }

  /** An operation still to come returns after the call that is linearized now. */
  lemma CallBeforeReturns<S, V(!new)>(m: Model<S, V>, ops: seq<Operation<V>>, nodes: seq<Node<V>>, head: Node<V>,
                                      p: Point<S, V>, c: Cut, q: Point<S, V>, op: Operation<V>)
    requires Represents(ops, nodes) && Here(ops, nodes, head, p) && Moves(m, ops, p, c, q) && Tried(m, ops, p, c.a)
    requires op in Rem(ops, q.done)
    ensures ops[p.chain[c.a].id].call <= op.ret
  {
    var id := RemMember(ops, q.done, op);
    assert Describes(ops, nodes, ops[id].ret - 1);
    var i := FindNode(ops, nodes, head, p, ops[id].ret - 1);
    assert i > c.a;
    PlaceOf(ops, nodes, head, p, c.a);
  }

  lemma FirstSuffices<S, V(!new)>(m: Model<S, V>, ops: seq<Operation<V>>, done: set<nat>, s: S, id: nat)
    requires id < |ops| && id !in done && Take(m, ops, s, id).0
    requires !Stuck(m, ops, done + {id}, Take(m, ops, s, id).1)
    requires forall op :: op in Rem(ops, done + {id}) ==> ops[id].call <= op.ret
    ensures !Stuck(m, ops, done, s)
  {
    hide Rem, Legal, RespectsRealTime;
    var left := Rem(ops, done + {id});
    var rest :| Witness(m, Take(m, ops, s, id).1, left, rest);
    PrependStep(m, s, ops[id], left, rest);
    RemRemove(ops, done, id);
    RemHas(ops, done, id);
    assert left + multiset{ops[id]} == Rem(ops, done);
  }

  /** A lift of a call that no return precedes extends a legal order of the rest. */
  lemma LeadsFinishes<S, V(!new)>(m: Model<S, V>, ops: seq<Operation<V>>, nodes: seq<Node<V>>, head: Node<V>,
                                  p: Point<S, V>, c: Cut, q: Point<S, V>)
    requires Represents(ops, nodes) && Here(ops, nodes, head, p) && Moves(m, ops, p, c, q) && Tried(m, ops, p, c.a)
    requires !Stuck(m, ops, q.done, q.state)
    ensures !Stuck(m, ops, p.done, p.state)
  {
    forall op | op in Rem(ops, q.done) ensures ops[p.chain[c.a].id].call <= op.ret {
      CallBeforeReturns(m, ops, nodes, head, p, c, q, op);
    }
    FirstSuffices(m, ops, p.done, p.state, p.chain[c.a].id);
  }

  /** From every point of a path that ends with nothing left, the rest can be ordered legally. */
  lemma {:induction false} PathFinishes<S, V(!new)>(m: Model<S, V>, ops: seq<Operation<V>>, nodes: seq<Node<V>>, head: Node<V>,
                                                    path: seq<Point<S, V>>, cuts: seq<Cut>, k: nat)
    requires Represents(ops, nodes) && Path(m, ops, nodes, head, path, cuts) && Explored(m, ops, path, cuts)
    requires |path[|cuts|].chain| == 1 && k <= |cuts|
    ensures !Stuck(m, ops, path[k].done, path[k].state)
    decreases |cuts| - k
  {
    assert Here(ops, nodes, head, path[k]);
    if k == |cuts| {
      forall id: nat | id < |ops| ensures id in path[k].done {
        assert nodes[ops[id].call - 1].id == id && Describes(ops, nodes, ops[id].call - 1);
      }
      RemAll(ops, path[k].done);
      assert Witness(m, path[k].state, Rem(ops, path[k].done), []);
    } else {
      PathFinishes(m, ops, nodes, head, path, cuts, k + 1);
      assert Moves(m, ops, path[k], cuts[k], path[k + 1]);
      LeadsFinishes(m, ops, nodes, head, path[k], cuts[k], path[k + 1]);
    }
  }

  lemma StuckAtStart<S, V(!new)>(m: Model<S, V>, ops: seq<Operation<V>>)
    ensures Stuck(m, ops, {}, m.init) <==> !Linearizable(m, ops)
  {
    RemNone(ops);
  }
}
