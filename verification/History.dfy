/**
 What the linearizability checker decides: histories of timed operations, sequential
 models, and the existence of a legal order that respects real time.
 */
module History {

  /** One operation of a history: input and output with invocation and response times. */
  datatype Operation<+V> = Operation(input: V, call: int, output: V, ret: int)

  /** A sequential model: the initial state and the step function, which says whether
      a step is possible and gives the new state. Equality of states is `==`. */
  datatype Model<!S, !V> = Model(init: S, step: (S, V, V) -> (bool, S))

  /** The model accepts the operations one after the other, starting in `s`. */
  ghost predicate Legal<S, V>(m: Model<S, V>, s: S, order: seq<Operation<V>>) {
    order == [] ||
    (m.step(s, order[0].input, order[0].output).0 &&
     Legal(m, m.step(s, order[0].input, order[0].output).1, order[1..]))
  }

  /** No operation is placed before one that returned before it was called. */
  ghost predicate RespectsRealTime<V>(order: seq<Operation<V>>) {
    forall i, j :: 0 <= i < j < |order| ==> order[i].call <= order[j].ret
  }

  ghost predicate Witness<S, V>(m: Model<S, V>, s: S, ops: multiset<Operation<V>>, order: seq<Operation<V>>) {
    multiset(order) == ops && RespectsRealTime(order) && Legal(m, s, order)
  }

  /** The operations in `ops` can all be ordered legally from state `s`. */
  ghost predicate CanFinish<S, V(!new)>(m: Model<S, V>, s: S, ops: multiset<Operation<V>>) {
    exists order :: Witness(m, s, ops, order)
  }

  ghost predicate Linearizable<S, V(!new)>(m: Model<S, V>, ops: seq<Operation<V>>) {
    CanFinish(m, m.init, multiset(ops))
  }

  /** Taking the first operation of a witness leaves a witness for the others. */
  lemma FirstStep<S, V>(m: Model<S, V>, s: S, ops: multiset<Operation<V>>, order: seq<Operation<V>>)
    requires Witness(m, s, ops, order) && order != []
    ensures order[0] in ops
    ensures m.step(s, order[0].input, order[0].output).0
    ensures Witness(m, m.step(s, order[0].input, order[0].output).1, ops - multiset{order[0]}, order[1..])
    ensures forall op :: op in ops && op != order[0] ==> order[0].call <= op.ret
  {
    assert order == [order[0]] + order[1..];
    forall op | op in ops && op != order[0] ensures order[0].call <= op.ret {
      assert op in order;
    }
  }

  /** Putting an operation in front that was called before all the others returned. */
  lemma PrependStep<S, V>(m: Model<S, V>, s: S, op: Operation<V>, ops: multiset<Operation<V>>, order: seq<Operation<V>>)
    requires m.step(s, op.input, op.output).0
    requires Witness(m, m.step(s, op.input, op.output).1, ops, order)
    requires forall o :: o in ops ==> op.call <= o.ret
    ensures Witness(m, s, ops + multiset{op}, [op] + order)
  {
    var longer := [op] + order;
    assert longer[1..] == order;
    forall i, j | 0 <= i < j < |longer| ensures longer[i].call <= longer[j].ret {
      assert longer[j] == order[j - 1];
      if i == 0 {
        assert order[j - 1] in multiset(order);
      }
    }
  }
}
