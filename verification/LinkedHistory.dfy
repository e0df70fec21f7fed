/**
 The doubly linked history: one node per call or return, in time order. `Lift` takes a call
 and its return out of the list, `Unlift` puts them back through the pointers they kept.
 */
module LinkedHistory {
  import opened Common
  import opened History

  /** A call or return of the history, in time order. */
  datatype Entry<+V> = Entry(isReturn: bool, value: V, id: nat, time: int)

  class Node<V> {
    const value: Option<V>
    const matching: Node?<V>  // the return of a call, null on a return
    const id: nat
    ghost const pos: nat      // the place in the whole history, counted from one; zero on the head
    var next: Node?<V>
    var prev: Node?<V>

    constructor (value: Option<V>, matching: Node?<V>, id: nat, ghost pos: nat)
      ensures this.value == value && this.matching == matching && this.id == id && this.pos == pos
      ensures next == null && prev == null
    {
      this.value, this.matching, this.id, this.pos := value, matching, id, pos;
      next, prev := null, null;
    }
  }

  /** Every pointer between the nodes of `chain` is what a doubly linked list has. */
  ghost predicate Linked<V>(chain: seq<Node<V>>)
    reads chain
  {
    && (forall i {:trigger chain[i].next} :: 0 <= i < |chain| - 1 ==> chain[i].next == chain[i + 1])
    && (forall i {:trigger chain[i].prev} :: 1 <= i < |chain| ==> chain[i].prev == chain[i - 1])
    && (|chain| > 0 ==> chain[|chain| - 1].next == null)
  }

  /** The nodes are in time order. */
  ghost predicate InOrder<V>(chain: seq<Node<V>>) {
    forall i, j :: 0 <= i < j < |chain| ==> chain[i].pos < chain[j].pos
  }

  ghost function Without<V>(chain: seq<Node<V>>, k: int): (r: seq<Node<V>>)
    requires 0 <= k < |chain|
    ensures |r| == |chain| - 1
    ensures InOrder(chain) ==> InOrder(r)
  {
    seq(|chain| - 1, i requires 0 <= i < |chain| - 1 => if i < k then chain[i] else chain[i + 1])
  }

  ghost function Neighbours<V>(chain: seq<Node<V>>, k: int): set<Node<V>>
    requires 0 < k < |chain|
  {
    {chain[k - 1]} + if k + 1 < |chain| then {chain[k + 1]} else {}
  }

  /** The pointers that chain[k] keeps when it is taken out of `chain`. */
  ghost predicate Shadow<V>(chain: seq<Node<V>>, k: int)
    requires 0 < k < |chain|
    reads chain[k]
  {
    chain[k].prev == chain[k - 1] && chain[k].next == if k + 1 < |chain| then chain[k + 1] else null
  }

  lemma NeighboursApart<V>(chain: seq<Node<V>>, k: int)
    requires InOrder(chain) && 0 < k < |chain|
    ensures chain[k] !in Without(chain, k)
    ensures forall i :: 0 <= i < |chain| && i != k - 1 ==> chain[i] != chain[k - 1]
    ensures k + 1 < |chain| ==> forall i :: 0 <= i < |chain| && i != k + 1 ==> chain[i] != chain[k + 1]
  {}

  method Unlink<V>(x: Node<V>, ghost chain: seq<Node<V>>, ghost k: int)
    requires Linked(chain) && InOrder(chain)
    requires 0 < k < |chain| && chain[k] == x
    modifies Neighbours(chain, k)
    ensures Linked(Without(chain, k)) && Shadow(chain, k)
    ensures chain[0].prev == old(chain[0].prev)
  {
    NeighboursApart(chain, k);
    hide InOrder;
    ghost var rest := Without(chain, k);
    x.prev.next := x.next;
    if x.next != null {
      x.next.prev := x.prev;
    }
    forall i | 0 <= i < |rest| - 1 ensures rest[i].next == rest[i + 1] {
      if i < k - 1 {
        assert chain[i].next == chain[i + 1];
      } else if i >= k {
        assert chain[i + 1].next == chain[i + 2];
      }
    }
    forall i | 1 <= i < |rest| ensures rest[i].prev == rest[i - 1] {
      if i < k {
        assert chain[i].prev == chain[i - 1];
      } else if i > k {
        assert chain[i + 1].prev == chain[i];
      }
    }
    assert k + 1 < |chain| ==> rest[|rest| - 1] == chain[|chain| - 1];
  }

  method Relink<V>(x: Node<V>, ghost chain: seq<Node<V>>, ghost k: int)
    requires InOrder(chain) && 0 < k < |chain| && chain[k] == x
    requires Linked(Without(chain, k)) && Shadow(chain, k)
    modifies Neighbours(chain, k)
    ensures Linked(chain) && Shadow(chain, k)
    ensures chain[0].prev == old(chain[0].prev)
  {
    NeighboursApart(chain, k);
    hide InOrder;
    ghost var rest := Without(chain, k);
    x.prev.next := x;
    if x.next != null {
      x.next.prev := x;
    }
    forall i | 0 <= i < |rest| - 1 && i != k - 1 ensures rest[i].next == rest[i + 1] {}
    forall i | 1 <= i < |rest| && i != k ensures rest[i].prev == rest[i - 1] {}
    BackIn(chain, k);
  }

  /** A list with the k-th node taken out, except that its neighbours point to it, is linked. */
  lemma BackIn<V>(chain: seq<Node<V>>, k: int)
    requires 0 < k < |chain| && Shadow(chain, k)
    requires chain[k - 1].next == chain[k] && (k + 1 < |chain| ==> chain[k + 1].prev == chain[k])
    requires var rest := Without(chain, k);
      && (forall i {:trigger rest[i].next} :: 0 <= i < |rest| - 1 && i != k - 1 ==> rest[i].next == rest[i + 1])
      && (forall i {:trigger rest[i].prev} :: 1 <= i < |rest| && i != k ==> rest[i].prev == rest[i - 1])
      && (k + 1 < |chain| ==> rest[|rest| - 1].next == null)
    ensures Linked(chain)
  {
    var rest := Without(chain, k);
    forall i | 0 <= i < |chain| - 1 ensures chain[i].next == chain[i + 1] {
      if i < k - 1 {
        assert rest[i].next == rest[i + 1];
      } else if i > k {
        assert rest[i - 1].next == rest[i];
      }
    }
    forall i | 1 <= i < |chain| ensures chain[i].prev == chain[i - 1] {
      if i < k {
        assert rest[i].prev == rest[i - 1];
      } else if i > k + 1 {
        assert rest[i - 1].prev == rest[i - 2];
      }
    }
    assert k + 1 < |chain| ==> rest[|rest| - 1] == chain[|chain| - 1];
  }

  ghost function Lifted<V>(chain: seq<Node<V>>, a: int, b: int): (r: seq<Node<V>>)
    requires 0 <= a < b < |chain|
    ensures InOrder(chain) ==> InOrder(r)
  {
    Without(Without(chain, a), b - 1)
  }

  /** The pointers that the lifted nodes chain[a] and chain[b] keep; those of chain[b] no longer
      mention chain[a], even when the two were neighbours. */
  ghost predicate LiftedShadow<V>(chain: seq<Node<V>>, a: int, b: int)
    requires 0 < a < b < |chain|
    reads chain[a], Without(chain, a)[b - 1]
  {
    Shadow(chain, a) && Shadow(Without(chain, a), b - 1)
  }

  /** Takes a call and its return out of the list. */
  method Lift<V>(entry: Node<V>, ghost chain: seq<Node<V>>, ghost a: int, ghost b: int)
    requires Linked(chain) && InOrder(chain)
    requires 0 < a < b < |chain| && chain[a] == entry && chain[b] == entry.matching
    modifies chain
    ensures Linked(Lifted(chain, a, b)) && LiftedShadow(chain, a, b)
    ensures chain[0].prev == old(chain[0].prev)
  {
    NeighboursApart(chain, a);
    hide InOrder, Linked, Shadow;
    Unlink(entry, chain, a);
    Unlink(entry.matching, Without(chain, a), b - 1);
  }

  /** Undoes `Lift`: every pointer of `chain` is as in a doubly linked list again. */
  method Unlift<V>(entry: Node<V>, ghost chain: seq<Node<V>>, ghost a: int, ghost b: int)
    requires InOrder(chain) && 0 < a < b < |chain| && chain[a] == entry && chain[b] == entry.matching
    requires Linked(Lifted(chain, a, b)) && LiftedShadow(chain, a, b)
    modifies chain
    ensures Linked(chain)
    ensures chain[0].prev == old(chain[0].prev)
  {
    NeighboursApart(chain, a);
    hide InOrder, Linked, Shadow;
    Relink(entry.matching, Without(chain, a), b - 1);
    Relink(entry, chain, a);
  }

  ghost function Inserted<V>(chain: seq<Node<V>>, k: int, n: Node<V>): seq<Node<V>>
    requires 0 <= k <= |chain|
  {
    seq(|chain| + 1, i requires 0 <= i <= |chain| =>
      if i < k then chain[i] else if i == k then n else chain[i - 1])
  }

  /** Puts `n` in front of `mark`, or starts a list with it. */
  method InsertBefore<V>(n: Node<V>, mark: Node?<V>, ghost chain: seq<Node<V>>, ghost k: int)
    requires Linked(chain) && InOrder(chain) && n !in chain
    requires n.next == null && n.prev == null
    requires if chain == [] then k == 0 && mark == null else 0 <= k < |chain| && mark == chain[k]
    requires chain != [] ==> chain[0].prev == null
    modifies n, if mark == null then {} else {mark}, if k > 0 then {chain[k - 1]} else {}
    ensures Linked(Inserted(chain, k, n)) && Inserted(chain, k, n)[0].prev == null
  {
    assert forall i :: 0 <= i < |chain| && i != k ==> chain[i] != mark;
    assert k > 0 ==> forall i :: 0 <= i < |chain| && i != k - 1 ==> chain[i] != chain[k - 1];
    hide InOrder;
    if mark != null {
      var beforeMark := mark.prev;
      mark.prev := n;
      n.next := mark;
      if beforeMark != null {
        n.prev := beforeMark;
        beforeMark.next := n;
      }
    }
    ghost var all := Inserted(chain, k, n);
    forall i | 0 <= i < |all| - 1 ensures all[i].next == all[i + 1] {
      if i < k - 1 {
        assert chain[i].next == chain[i + 1];
      } else if i > k {
        assert chain[i - 1].next == chain[i];
      }
    }
    forall i | 1 <= i < |all| ensures all[i].prev == all[i - 1] {
      if i < k {
        assert chain[i].prev == chain[i - 1];
      } else if i > k + 1 {
        assert chain[i - 1].prev == chain[i - 2];
      }
    }
    assert chain != [] ==> all[|all| - 1] == chain[|chain| - 1];
  }

  method Length<V>(n: Node?<V>, ghost chain: seq<Node<V>>) returns (l: nat)
    requires Linked(chain) && (if chain == [] then n == null else n == chain[0])
    ensures l == |chain|
  {
    var m := n;
    l := 0;
    while m != null
      invariant l <= |chain|
      invariant m == if l < |chain| then chain[l] else null
      decreases |chain| - l
    {
      m := m.next;
      l := l + 1;
    }
  }

  /** `ops` with its times read as places in the sequence of entries, counted from one. */
  ghost predicate Places<V>(ops: seq<Operation<V>>, entries: seq<Entry<V>>) {
    && |entries| == 2 * |ops|
    && (forall k :: 0 <= k < |entries| ==> EntryPlaced(ops, entries, k))
    && (forall id :: 0 <= id < |ops| ==> OpPlaced(ops, entries, id))
  }

  ghost predicate EntryPlaced<V>(ops: seq<Operation<V>>, entries: seq<Entry<V>>, k: int)
    requires 0 <= k < |entries|
  {
    && entries[k].id < |ops|
    && var op := ops[entries[k].id];
       if entries[k].isReturn then op.ret == k + 1 && op.output == entries[k].value
       else op.call == k + 1 && op.input == entries[k].value
  }

  ghost predicate OpPlaced<V>(ops: seq<Operation<V>>, entries: seq<Entry<V>>, id: int)
    requires 0 <= id < |ops|
  {
    && 1 <= ops[id].call < ops[id].ret <= |entries|
    && entries[ops[id].call - 1].id == id && !entries[ops[id].call - 1].isReturn
    && entries[ops[id].ret - 1].id == id && entries[ops[id].ret - 1].isReturn
  }

  /** The nodes hold the calls and returns of `ops`, whose times are places in `nodes`. */
  ghost predicate Represents<V>(ops: seq<Operation<V>>, nodes: seq<Node<V>>) {
    && |nodes| == 2 * |ops|
    && (forall id :: 0 <= id < |ops| ==> 1 <= ops[id].call < ops[id].ret <= |nodes|)
    && (forall k :: 0 <= k < |nodes| ==> Describes(ops, nodes, k))
    && (forall id :: 0 <= id < |ops| ==>
         && nodes[ops[id].call - 1].id == id && nodes[ops[id].call - 1].matching != null
         && nodes[ops[id].ret - 1].id == id && nodes[ops[id].ret - 1].matching == null)
  }

  ghost predicate Describes<V>(ops: seq<Operation<V>>, nodes: seq<Node<V>>, k: nat)
    requires k < |nodes| && |nodes| == 2 * |ops|
    requires forall id :: 0 <= id < |ops| ==> 1 <= ops[id].call < ops[id].ret <= |nodes|
  {
    && nodes[k].pos == k + 1
    && nodes[k].id < |ops|
    && var op := ops[nodes[k].id];
       if nodes[k].matching != null
       then nodes[k].pos == op.call && nodes[k].value == Some(op.input) && nodes[k].matching == nodes[op.ret - 1]
       else nodes[k].pos == op.ret && nodes[k].value == Some(op.output)
  }

  method MakeLinkedEntries<V>(entries: seq<Entry<V>>, ghost ops: seq<Operation<V>>)
    returns (root: Node?<V>, ghost nodes: seq<Node<V>>)
    requires Places(ops, entries)
    ensures Represents(ops, nodes) && InOrder(nodes)
    ensures Linked(nodes)
    ensures forall k :: 0 <= k < |nodes| ==> fresh(nodes[k])
    ensures Starts(root, nodes)
  {
    root := null;
    nodes := [];
    assert Linked(nodes);
    hide Linked, Places, InOrder, Represents, Inserted;
    var matches: map<nat, Node<V>> := map[];
    var i := |entries|;
    while i > 0
      invariant 0 <= i <= |entries|
      invariant forall k :: 0 <= k < |nodes| ==> fresh(nodes[k])
      invariant Linked(nodes) && Starts(root, nodes)
      invariant Built(entries, nodes, i, matches)
      decreases i
    {
      i := i - 1;
      root, nodes, matches := AddEntry(entries, i, root, matches, nodes, ops);
    }
    MatchedRepresents(ops, entries, nodes, matches);
  }

  /** `root` is the first node of the list. */
  ghost predicate Starts<V>(root: Node?<V>, nodes: seq<Node<V>>)
    reads nodes
  {
    if nodes == [] then root == null else root == nodes[0] && nodes[0].prev == null
  }

  /** One turn of the loop that builds the list from its end. */
  method AddEntry<V>(entries: seq<Entry<V>>, i: nat, root: Node?<V>, matches: map<nat, Node<V>>,
                     ghost nodes: seq<Node<V>>, ghost ops: seq<Operation<V>>)
    returns (root': Node<V>, ghost nodes': seq<Node<V>>, matches': map<nat, Node<V>>)
    requires Places(ops, entries) && i < |entries|
    requires Linked(nodes) && Starts(root, nodes) && Built(entries, nodes, i + 1, matches)
    modifies nodes
    ensures Linked(nodes') && Starts(root', nodes') && Built(entries, nodes', i, matches')
    ensures forall k :: 0 <= k < |nodes'| ==> fresh(nodes'[k]) || (0 < k <= |nodes| && nodes'[k] == nodes[k - 1])
  {
    hide Places, Built, Linked, InOrder;
    var elem := entries[i];
    if elem.isReturn {
      root' := new Node(Some(elem.value), null, elem.id, i + 1);
      matches' := matches[elem.id := root'];
    } else {
      root' := new Node(Some(elem.value), if elem.id in matches then matches[elem.id] else null, elem.id, i + 1);
      matches' := matches;
    }
    BuiltStep(ops, entries, nodes, i, matches, root', matches');
    InsertBefore(root', root, nodes, 0);
    nodes' := Inserted(nodes, 0, root');
  }

  /** A call points to the return recorded for its id, and a return is the one recorded. */
  ghost predicate Matched<V>(x: Node<V>, matches: map<nat, Node<V>>) {
    x.id in matches && matches[x.id] == if x.matching == null then x else x.matching
  }

  /** The nodes of the entries from `i` on. */
  ghost predicate Built<V>(entries: seq<Entry<V>>, nodes: seq<Node<V>>, i: nat, matches: map<nat, Node<V>>) {
    && i + |nodes| == |entries|
    && forall k :: 0 <= k < |nodes| ==> Holds(entries, nodes[k], k + i) && Matched(nodes[k], matches)
  }

  lemma BuiltStep<V>(ops: seq<Operation<V>>, entries: seq<Entry<V>>, nodes: seq<Node<V>>, i: nat,
                     matches: map<nat, Node<V>>, entry: Node<V>, matches': map<nat, Node<V>>)
    requires Places(ops, entries) && i < |entries| && Built(entries, nodes, i + 1, matches)
    requires var elem := entries[i];
             && entry.pos == i + 1 && entry.id == elem.id && entry.value == Some(elem.value)
             && if elem.isReturn then entry.matching == null && matches' == matches[elem.id := entry]
                else entry.matching == (if elem.id in matches then matches[elem.id] else null) && matches' == matches
    ensures InOrder(nodes) && entry !in nodes
    ensures Built(entries, Inserted(nodes, 0, entry), i, matches')
  {
    var elem := entries[i];
    assert EntryPlaced(ops, entries, i) && OpPlaced(ops, entries, elem.id);
    if !elem.isReturn {
      var r := ops[elem.id].ret - 1;
      assert Holds(entries, nodes[r - i - 1], r) && Matched(nodes[r - i - 1], matches);
    }
    forall k | 0 <= k < |nodes| ensures Matched(nodes[k], matches') && nodes[k].pos == k + i + 2 {
      assert Holds(entries, nodes[k], k + i + 1) && Matched(nodes[k], matches);
      assert EntryPlaced(ops, entries, k + i + 1);
    }
    forall k | 0 <= k <= |nodes|
      ensures Holds(entries, Inserted(nodes, 0, entry)[k], k + i) && Matched(Inserted(nodes, 0, entry)[k], matches')
    {
      if k > 0 {
        assert Holds(entries, nodes[k - 1], k + i);
      }
    }
  }

  lemma MatchedRepresents<V>(ops: seq<Operation<V>>, entries: seq<Entry<V>>, nodes: seq<Node<V>>, matches: map<nat, Node<V>>)
    requires Places(ops, entries) && |nodes| == |entries|
    requires Built(entries, nodes, 0, matches)
    ensures Represents(ops, nodes) && InOrder(nodes)
  {
    assert forall k :: 0 <= k < |nodes| ==> Holds(entries, nodes[k], k + 0);
    forall id | 0 <= id < |ops| ensures 1 <= ops[id].call < ops[id].ret <= |nodes| {
      assert OpPlaced(ops, entries, id);
    }
    forall id | 0 <= id < |ops|
      ensures nodes[ops[id].call - 1].id == id && nodes[ops[id].call - 1].matching != null
      ensures nodes[ops[id].ret - 1].id == id && nodes[ops[id].ret - 1].matching == null
    {
      assert OpPlaced(ops, entries, id);
      assert Holds(entries, nodes[ops[id].call - 1], ops[id].call - 1);
      assert Holds(entries, nodes[ops[id].ret - 1], ops[id].ret - 1);
    }
    forall k | 0 <= k < |nodes| ensures Describes(ops, nodes, k) {
      assert EntryPlaced(ops, entries, k);
      assert Matched(nodes[ops[nodes[k].id].ret - 1], matches);
    }
  }

  ghost predicate Holds<V>(entries: seq<Entry<V>>, x: Node<V>, k: nat) {
    k < |entries| && x.pos == k + 1 && x.id == entries[k].id && x.value == Some(entries[k].value) && (entries[k].isReturn <==> x.matching == null)
  }
}
