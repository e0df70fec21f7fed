/**
 A selective-repeat sliding window over a network that loses, duplicates and reorders packets.
 The sender and the receiver are classes whose methods follow pure step functions; the network
 and the runs of the whole system are a step system over those functions.
 */
module SlidingWindow {

  const WINDOW_SIZE: nat := 10

  type Payload(==, !new, 0) = string

  datatype Packet = Packet(number: nat, payload: Payload)

  // ----- the sender -----

  datatype Sender = Sender(
    next: nat,                  // number of the next packet
    left: int,                  // free places in the window
    queue: seq<Packet>,         // packets waiting for a place
    acked: map<nat, bool>,      // whether each packet is acknowledged
    window: map<nat, Packet>,   // packets sent and not acknowledged
    timer: bool,                // whether the timer runs
    starts: nat)                // how often it was started, from the beginning each time

  const SENDER_START: Sender := Sender(1, WINDOW_SIZE, [], map[], map[], false, 0)

  /** A new packet goes into the window and onto the network, or into the queue. */
  function Submit(s: Sender, payload: Payload): Sender {
    var pkt := Packet(s.next, payload);
    var t := s.(acked := s.acked[s.next := false], next := s.next + 1);
    if s.left > 0 then
      t.(window := s.window[s.next := pkt], left := s.left - 1, timer := s.timer || s.window == map[],
         starts := s.starts + if s.window == map[] then 1 else 0)
    else t.(queue := s.queue + [pkt])
  }

  function SubmitSends(s: Sender, payload: Payload): seq<Packet> {
    if s.left > 0 then [Packet(s.next, payload)] else []
  }

  predicate IsFirst(window: map<nat, Packet>, k: nat) {
    k in window && forall j :: j in window ==> k <= j
  }

  /** The window without the acknowledged packets. */
  function Unacked(window: map<nat, Packet>, acked: map<nat, bool>): map<nat, Packet> {
    map k | k in window && !(k in acked && acked[k]) :: window[k]
  }

  /** Packets move from the queue into free places. */
  function Refill(s: Sender): Sender
    decreases |s.queue|
  {
    if s.queue != [] && s.left > 0 then
      Refill(s.(queue := s.queue[1..], left := s.left - 1, window := s.window[s.queue[0].number := s.queue[0]]))
    else s
  }

  function RefillSends(s: Sender): seq<Packet>
    decreases |s.queue|
  {
    if s.queue != [] && s.left > 0 then
      [s.queue[0]] +
      RefillSends(s.(queue := s.queue[1..], left := s.left - 1, window := s.window[s.queue[0].number := s.queue[0]]))
    else []
  }

  /** What the timer check says before the packets are removed. On an empty window the program reads
      past the end of the map; `garbage` is what it finds there. */
  predicate Restarts(s: Sender, number: nat, garbage: bool) {
    if s.window == map[] then garbage else IsFirst(s.window, number)
  }

  function Removed(s: Sender, number: nat, garbage: bool): Sender {
    var acked := s.acked[number := true];
    var window := Unacked(s.window, acked);
    s.(timer := s.timer || Restarts(s, number, garbage), starts := s.starts + (if Restarts(s, number, garbage) then 1 else 0),
       acked := acked, window := window, left := s.left + |s.window| - |window|)
  }

  /** An acknowledgement arrives. */
  function Ack(s: Sender, number: nat, garbage: bool): Sender {
    var t := Refill(Removed(s, number, garbage));
    if t.queue == [] && t.window == map[] then t.(timer := false) else t
  }

  function AckSends(s: Sender, number: nat, garbage: bool): seq<Packet> {
    RefillSends(Removed(s, number, garbage))
  }

  // ----- what the sender keeps -----

  predicate Acknowledged(s: Sender, k: nat) {
    k in s.acked && s.acked[k]
  }

  predicate Queued(s: Sender, k: nat) {
    exists i :: 0 <= i < |s.queue| && s.queue[i].number == k
  }

  function FirstQueued(s: Sender): int {
    s.next - |s.queue|
  }

  /** The queue holds the last numbers, in order. */
  ghost predicate QueueInOrder(s: Sender, payloads: seq<Payload>) {
    && FirstQueued(s) >= 1 && |payloads| == s.next - 1
    && forall i :: 0 <= i < |s.queue| ==>
         s.queue[i] == Packet(FirstQueued(s) + i, payloads[FirstQueued(s) + i - 1])
  }

  /** The window holds exactly the sent numbers that are not acknowledged. */
  ghost predicate WindowHolds(s: Sender, payloads: seq<Payload>) {
    && (forall k :: k in s.acked <==> 1 <= k < s.next)
    && (forall k :: k in s.window <==> 1 <= k < FirstQueued(s) && !Acknowledged(s, k))
    && (forall k :: k in s.window && k - 1 < |payloads| ==> s.window[k] == Packet(k, payloads[k - 1]))
    && (forall k: nat :: Acknowledged(s, k) ==> k < FirstQueued(s))
  }

  ghost predicate SenderInv(s: Sender, payloads: seq<Payload>) {
    && QueueInOrder(s, payloads) && WindowHolds(s, payloads)
    && s.left + |s.window| == WINDOW_SIZE
    && s.left >= 0
    && (s.queue != [] ==> s.left == 0)
    && (s.timer <==> s.window != map[])
  }

  /** Each issued number is in exactly one of acknowledged, window and queue. */
  lemma ExactlyOnePlace(s: Sender, payloads: seq<Payload>, k: nat)
    requires SenderInv(s, payloads) && 1 <= k < s.next
    ensures Acknowledged(s, k) || k in s.window || Queued(s, k)
    ensures !(Acknowledged(s, k) && k in s.window) && !(k in s.window && Queued(s, k)) && !(Acknowledged(s, k) && Queued(s, k))
  {
    if k >= FirstQueued(s) {
      assert s.queue[k - FirstQueued(s)].number == k;
    }
  }

  lemma MapGrows(m: map<nat, Packet>, k: nat, p: Packet)
    requires k !in m
    ensures |m[k := p]| == |m| + 1
  {
    assert m[k := p].Keys == m.Keys + {k};
    assert |m[k := p].Keys| == |m.Keys| + 1;
  }

  lemma SubmitKeeps(s: Sender, payloads: seq<Payload>, payload: Payload)
    requires SenderInv(s, payloads)
    ensures SenderInv(Submit(s, payload), payloads + [payload])
  {
    var t := Submit(s, payload);
    if s.left > 0 {
      MapGrows(s.window, s.next, Packet(s.next, payload));
    }
    assert forall k: nat :: Acknowledged(t, k) <==> Acknowledged(s, k);
  }

  /** Everything but the queue's claim on a full window. */
  ghost predicate RefillInv(s: Sender, payloads: seq<Payload>) {
    QueueInOrder(s, payloads) && WindowHolds(s, payloads) && s.left + |s.window| == WINDOW_SIZE && s.left >= 0
  }

  function Moved(s: Sender): Sender
    requires s.queue != []
  {
    s.(queue := s.queue[1..], left := s.left - 1, window := s.window[s.queue[0].number := s.queue[0]])
  }

  lemma {:induction false} RefillKeeps(s: Sender, payloads: seq<Payload>)
    requires RefillInv(s, payloads)
    ensures var t := Refill(s);
      && RefillInv(t, payloads) && (t.queue != [] ==> t.left == 0)
      && t.timer == s.timer && t.starts == s.starts && t.acked == s.acked && t.next == s.next
      && FirstQueued(s) <= FirstQueued(t)
    decreases |s.queue|
  {
    if s.queue != [] && s.left > 0 {
      RefillOne(s, payloads);
      hide RefillInv;
      RefillKeeps(Moved(s), payloads);
    }
  }

  /** What is sent on refilling is what leaves the queue, in its order. */
  lemma {:induction false} RefillSendsQueued(s: Sender)
    ensures s.queue == RefillSends(s) + Refill(s).queue
    decreases |s.queue|
  {
    if s.queue != [] && s.left > 0 {
      var t := Moved(s);
      RefillSendsQueued(t);
      assert RefillSends(s) == [s.queue[0]] + RefillSends(t) && Refill(s) == Refill(t);
      hide RefillSends, Refill;
      assert s.queue == [s.queue[0]] + t.queue;
    }
  }

  lemma RefillOne(s: Sender, payloads: seq<Payload>)
    requires RefillInv(s, payloads) && s.queue != [] && s.left > 0
    ensures RefillInv(Moved(s), payloads)
  {
    var pkt, t := s.queue[0], Moved(s);
    assert pkt == Packet(FirstQueued(s), payloads[FirstQueued(s) - 1]);
    MapGrows(s.window, pkt.number, pkt);
    assert QueueInOrder(t, payloads);
    hide QueueInOrder;
    assert forall k: nat :: Acknowledged(t, k) <==> Acknowledged(s, k);
    assert WindowHolds(t, payloads);
  }

  lemma UnackedSize(window: map<nat, Packet>, acked: map<nat, bool>)
    ensures |Unacked(window, acked)| <= |window|
  {
    SubsetSize(Unacked(window, acked).Keys, window.Keys);
  }

  lemma {:induction false} SubsetSize(a: set<nat>, b: set<nat>)
    requires a <= b
    ensures |a| <= |b|
  {
    if a != {} {
      var x :| x in a;
      SubsetSize(a - {x}, b - {x});
    }
  }

  lemma RemovedKeeps(s: Sender, payloads: seq<Payload>, number: nat, garbage: bool)
    requires SenderInv(s, payloads) && 1 <= number < FirstQueued(s)
    ensures RefillInv(Removed(s, number, garbage), payloads)
  {
    var t := Removed(s, number, garbage);
    UnackedSize(s.window, t.acked);
    assert forall k: nat :: Acknowledged(t, k) <==> Acknowledged(s, k) || k == number;
  }

  /** An acknowledgement of a packet that was sent keeps everything, whatever a check of an empty
      window finds. */
  lemma AckKeeps(s: Sender, payloads: seq<Payload>, number: nat, garbage: bool)
    requires SenderInv(s, payloads) && 1 <= number < FirstQueued(s)
    ensures SenderInv(Ack(s, number, garbage), payloads)
    ensures s.queue == AckSends(s, number, garbage) + Ack(s, number, garbage).queue
    ensures Ack(s, number, garbage).next == s.next
    ensures Ack(s, number, garbage).starts == s.starts + if Restarts(s, number, garbage) then 1 else 0
    ensures forall k: nat :: Acknowledged(Ack(s, number, garbage), k) <==> Acknowledged(s, k) || k == number
    ensures FirstQueued(s) <= FirstQueued(Ack(s, number, garbage))
  {
    RemovedKeeps(s, payloads, number, garbage);
    var r := Removed(s, number, garbage);
    RefillKeeps(r, payloads);
    RefillSendsQueued(r);
    var t := Ack(s, number, garbage);
    var u := Refill(r);
    assert forall k: nat :: Acknowledged(t, k) <==> Acknowledged(r, k);
    assert forall k: nat :: Acknowledged(r, k) <==> Acknowledged(s, k) || k == number;
    TimerRuns(s, payloads, number, garbage);
  }

  /** After an acknowledgement the timer runs exactly when the window is not empty. */
  lemma TimerRuns(s: Sender, payloads: seq<Payload>, number: nat, garbage: bool)
    requires SenderInv(s, payloads) && 1 <= number < FirstQueued(s)
    requires RefillInv(Refill(Removed(s, number, garbage)), payloads)
    requires var u := Refill(Removed(s, number, garbage));
      u.timer == Removed(s, number, garbage).timer && (u.queue != [] ==> u.left == 0)
    ensures Ack(s, number, garbage).timer <==> Ack(s, number, garbage).window != map[]
  {
    var r := Removed(s, number, garbage);
    var u := Refill(r);
    if u.window == map[] {
      assert |u.window| == 0;
    }
  }

  // ----- the receiver -----

  datatype Receiver = Receiver(
    received: map<nat, Payload>,  // the messages that arrived
    status: map<nat, bool>,       // whether each was handed to the upper layer
    lastUpper: nat,               // number of the last one handed up
    upper: seq<Payload>)          // what the upper layer got

  const RECEIVER_START: Receiver := Receiver(map[], map[], 0, [])

  /** How far an unbroken run of arrived numbers goes from `from` on, but not beyond `limit`. */
  function RunTo(status: map<nat, bool>, from: nat, limit: nat): nat
    decreases if limit > from then limit - from else 0
  {
    if from < limit && from + 1 in status then RunTo(status, from + 1, limit) else from
  }

  /** Hands the messages up to number `to` to the upper layer. */
  function HandUp(r: Receiver, to: nat): Receiver
    decreases if to > r.lastUpper then to - r.lastUpper else 0
  {
    if r.lastUpper < to && r.lastUpper + 1 in r.received then
      HandUp(r.(lastUpper := r.lastUpper + 1, status := r.status[r.lastUpper + 1 := true],
                upper := r.upper + [r.received[r.lastUpper + 1]]), to)
    else r
  }

  function Arrived(r: Receiver, pkt: Packet): Receiver {
    r.(received := r.received[pkt.number := pkt.payload],
       status := if pkt.number in r.status then r.status else r.status[pkt.number := false])
  }

  /** A packet arrives: everything deliverable up to its number is handed up. */
  function Receive(r: Receiver, pkt: Packet): Receiver {
    var t := Arrived(r, pkt);
    HandUp(t, RunTo(t.status, t.lastUpper, pkt.number))
  }

  /** The payloads 1..lastUpper are handed up, in order and once each, and nothing else is marked. */
  ghost predicate ReceiverInv(r: Receiver, payloads: seq<Payload>) {
    && r.lastUpper <= |payloads| && r.upper == payloads[..r.lastUpper]
    && r.status.Keys == r.received.Keys
    && (forall k :: k in r.received ==> 1 <= k <= |payloads| && r.received[k] == payloads[k - 1])
    && (forall k: nat :: 1 <= k <= r.lastUpper ==> k in r.status)
    && (forall k :: k in r.status ==> (r.status[k] <==> k <= r.lastUpper))
  }

  lemma {:induction false} RunToBounds(status: map<nat, bool>, from: nat, limit: nat)
    ensures var m := RunTo(status, from, limit);
      && from <= m && (m <= limit || m == from)
      && (forall k: nat :: from < k <= m ==> k in status)
      && (m < limit ==> m + 1 !in status)
    decreases if limit > from then limit - from else 0
  {
    if from < limit && from + 1 in status {
      RunToBounds(status, from + 1, limit);
    }
  }

  lemma {:induction false} HandUpKeeps(r: Receiver, to: nat, payloads: seq<Payload>)
    requires ReceiverInv(r, payloads) && r.lastUpper <= to && forall k: nat :: r.lastUpper < k <= to ==> k in r.status
    ensures ReceiverInv(HandUp(r, to), payloads) && HandUp(r, to).lastUpper == to && HandUp(r, to).received == r.received
    decreases if to > r.lastUpper then to - r.lastUpper else 0
  {
    if r.lastUpper < to {
      var n := r.lastUpper + 1;
      assert n in r.status;
      var t := r.(lastUpper := n, status := r.status[n := true], upper := r.upper + [r.received[n]]);
      assert payloads[..n] == payloads[..r.lastUpper] + [payloads[n - 1]];
      assert ReceiverInv(t, payloads);
      HandUpKeeps(t, to, payloads);
    }
  }

  lemma ArrivedKeeps(r: Receiver, pkt: Packet, payloads: seq<Payload>)
    requires ReceiverInv(r, payloads) && 1 <= pkt.number <= |payloads| && pkt.payload == payloads[pkt.number - 1]
    ensures ReceiverInv(Arrived(r, pkt), payloads)
  {}

  lemma ReceiveKeeps(r: Receiver, pkt: Packet, payloads: seq<Payload>)
    requires ReceiverInv(r, payloads) && 1 <= pkt.number <= |payloads| && pkt.payload == payloads[pkt.number - 1]
    ensures ReceiverInv(Receive(r, pkt), payloads)
    ensures Receive(r, pkt).received.Keys == r.received.Keys + {pkt.number}
    ensures Receive(r, pkt).lastUpper == RunTo(Arrived(r, pkt).status, r.lastUpper, pkt.number)
  {
    hide HandUp, RunTo;
    var t := Arrived(r, pkt);
    RunToBounds(t.status, t.lastUpper, pkt.number);
    ArrivedKeeps(r, pkt, payloads);
    HandUpKeeps(t, RunTo(t.status, t.lastUpper, pkt.number), payloads);
  }

  /** A message that arrived and whose predecessors were all handed up. */
  predicate Lags(r: Receiver) {
    r.lastUpper + 1 in r.status
  }

  /** A packet leaves a deliverable message behind exactly when it closes the gap before a message
      that had already arrived, or comes again while one is left behind. */
  lemma LagsExactly(r: Receiver, pkt: Packet, payloads: seq<Payload>)
    requires ReceiverInv(r, payloads) && 1 <= pkt.number <= |payloads| && pkt.payload == payloads[pkt.number - 1]
    ensures Lags(Receive(r, pkt)) <==>
      if pkt.number <= r.lastUpper then Lags(r)
      else pkt.number + 1 in r.status && forall k: nat :: r.lastUpper < k < pkt.number ==> k in r.status
  {
    hide HandUp, RunTo;
    ReceiveKeeps(r, pkt, payloads);
    var t, u := Arrived(r, pkt), Receive(r, pkt);
    RunToBounds(t.status, r.lastUpper, pkt.number);
    assert u.status.Keys == t.status.Keys;
  }

  // ----- the whole system -----

  /** What was submitted, both ends, and everything that was ever put on the network. A packet on
      the network may arrive never, once or often, in any order; a damaged one counts as lost. */
  datatype System = System(payloads: seq<Payload>, sender: Sender, receiver: Receiver, packets: set<Packet>, acks: set<nat>)

  const START: System := System([], SENDER_START, RECEIVER_START, {}, {})

  datatype Action =
    | SubmitOne(payload: Payload)
    | PacketArrives(pkt: Packet)
    | AckArrives(number: nat, garbage: bool)
    | TimeOut

  predicate Enabled(sys: System, a: Action) {
    match a
    case SubmitOne(_) => true
    case PacketArrives(pkt) => pkt in sys.packets
    case AckArrives(number, _) => number in sys.acks
    case TimeOut => sys.sender.timer
  }

  /** The first packet of the window is sent again. */
  function Resent(s: Sender): set<Packet> {
    set k | k in s.window && IsFirst(s.window, k) :: s.window[k]
  }

  function Apply(sys: System, a: Action): System {
    match a
    case SubmitOne(payload) =>
      sys.(payloads := sys.payloads + [payload], sender := Submit(sys.sender, payload),
           packets := sys.packets + set p | p in SubmitSends(sys.sender, payload))
    case PacketArrives(pkt) =>
      sys.(receiver := Receive(sys.receiver, pkt), acks := sys.acks + {pkt.number})
    case AckArrives(number, garbage) =>
      sys.(sender := Ack(sys.sender, number, garbage),
           packets := sys.packets + set p | p in AckSends(sys.sender, number, garbage))
    case TimeOut =>
      sys.(sender := sys.sender.(timer := true, starts := sys.sender.starts + 1), packets := sys.packets + Resent(sys.sender))
  }

  /** The state after a run. */
  function After(run: seq<Action>): System {
    if run == [] then START else Apply(After(run[..|run| - 1]), run[|run| - 1])
  }

  /** Every action of the run is enabled when it happens. */
  ghost predicate Possible(run: seq<Action>) {
    run == [] || (Possible(run[..|run| - 1]) && Enabled(After(run[..|run| - 1]), run[|run| - 1]))
  }

  ghost predicate Genuine(sys: System, p: Packet) {
    1 <= p.number < FirstQueued(sys.sender) && p.number - 1 < |sys.payloads| && p.payload == sys.payloads[p.number - 1]
  }

  ghost predicate SystemInv(sys: System) {
    && SenderInv(sys.sender, sys.payloads) && ReceiverInv(sys.receiver, sys.payloads)
    && (forall p :: p in sys.packets <==> Genuine(sys, p))
    && (forall k :: k in sys.acks <==> k in sys.receiver.received)
    && (forall k :: k in sys.receiver.received ==> k < FirstQueued(sys.sender))
    && (forall k: nat :: Acknowledged(sys.sender, k) ==> k in sys.acks)
  }

  lemma SubmitStep(sys: System, payload: Payload)
    requires SystemInv(sys)
    ensures SystemInv(Apply(sys, SubmitOne(payload)))
  {
    hide SenderInv, ReceiverInv;
    SubmitKeeps(sys.sender, sys.payloads, payload);
    SubmitOnlyAdds(sys.sender, sys.receiver, sys.payloads, payload);
    var sys' := Apply(sys, SubmitOne(payload));
    forall p ensures p in sys'.packets <==> Genuine(sys', p) {
      SubmitGenuine(sys, payload, p);
    }
  }

  lemma SubmitGenuine(sys: System, payload: Payload, p: Packet)
    requires SenderInv(sys.sender, sys.payloads)
    ensures Genuine(Apply(sys, SubmitOne(payload)), p) <==> Genuine(sys, p) || p in SubmitSends(sys.sender, payload)
  {
    var s, payloads := sys.sender, sys.payloads + [payload];
    assert s.left > 0 ==> s.queue == [];
    assert payloads[|sys.payloads|] == payload;
    assert forall i :: 0 <= i < |sys.payloads| ==> payloads[i] == sys.payloads[i];
  }

  lemma SubmitOnlyAdds(s: Sender, r: Receiver, payloads: seq<Payload>, payload: Payload)
    requires SenderInv(s, payloads) && ReceiverInv(r, payloads)
    ensures var t := Submit(s, payload);
      && FirstQueued(s) <= FirstQueued(t) && s.next == |payloads| + 1
      && (s.left > 0 ==> FirstQueued(t) == s.next + 1)
      && (forall k: nat :: Acknowledged(t, k) <==> Acknowledged(s, k))
    ensures ReceiverInv(r, payloads + [payload])
  {
    assert (payloads + [payload])[..r.lastUpper] == payloads[..r.lastUpper];
  }

  lemma ArriveStep(sys: System, pkt: Packet)
    requires SystemInv(sys) && pkt in sys.packets
    ensures SystemInv(Apply(sys, PacketArrives(pkt)))
  {
    hide SenderInv, ReceiverInv, Receive;
    assert Genuine(sys, pkt);
    ReceiveKeeps(sys.receiver, pkt, sys.payloads);
  }

  lemma AckStep(sys: System, number: nat, garbage: bool)
    requires SystemInv(sys) && number in sys.acks
    ensures SystemInv(Apply(sys, AckArrives(number, garbage)))
  {
    hide SenderInv, ReceiverInv, Ack, AckSends;
    AckInRange(sys, number);
    AckKeeps(sys.sender, sys.payloads, number, garbage);
    var sys' := Apply(sys, AckArrives(number, garbage));
    forall p ensures p in sys'.packets <==> Genuine(sys', p) {
      LeftQueue(sys.sender, sys.payloads, AckSends(sys.sender, number, garbage), sys'.sender, p);
    }
  }

  /** What leaves the queue are the next numbers with their payloads. */
  lemma LeftQueue(s: Sender, payloads: seq<Payload>, sent: seq<Packet>, t: Sender, p: Packet)
    requires SenderInv(s, payloads) && s.queue == sent + t.queue && t.next == s.next
    ensures p in sent <==>
      FirstQueued(s) <= p.number < FirstQueued(t) && p.number - 1 < |payloads| && p.payload == payloads[p.number - 1]
  {
    var i := p.number - FirstQueued(s);
    assert forall k :: 0 <= k < |sent| ==> sent[k] == s.queue[k];
    if 0 <= i < |sent| {
      assert sent[i] == Packet(p.number, payloads[p.number - 1]);
    }
  }

  lemma AckInRange(sys: System, number: nat)
    requires SystemInv(sys) && number in sys.acks
    ensures 1 <= number < FirstQueued(sys.sender)
  {
    assert number in sys.receiver.received;
  }

  lemma TimeOutStep(sys: System)
    requires SystemInv(sys) && sys.sender.timer
    ensures SystemInv(Apply(sys, TimeOut))
    ensures Resent(sys.sender) != {}
  {
    var s := sys.sender;
    var k := FindFirst(s.window);
    assert s.window[k] in Resent(s);
    StartedKeeps(s, sys.payloads, s.starts + 1);
    var sys' := Apply(sys, TimeOut);
    assert sys'.sender == s.(starts := s.starts + 1);
    forall p ensures p in sys'.packets <==> Genuine(sys', p) {
      assert p in sys.packets <==> Genuine(sys, p);
    }
  }

  lemma FindFirst(window: map<nat, Packet>) returns (k: nat)
    requires window != map[]
    ensures IsFirst(window, k)
  {
    var some :| some in window;
    k := Least(window.Keys, some);
  }

  lemma {:induction false} Least(s: set<nat>, some: nat) returns (k: nat)
    requires some in s
    ensures k in s && forall j :: j in s ==> k <= j
    decreases some
  {
    if j :| j in s && j < some {
      k := Least(s, j);
    } else {
      k := some;
    }
  }

  /** Over every run, whatever the network does. */
  lemma {:induction false} RunKeeps(run: seq<Action>)
    requires Possible(run)
    ensures SystemInv(After(run))
    decreases |run|
  {
    if run == [] {
      assert SystemInv(START);
    } else {
      var before, a := After(run[..|run| - 1]), run[|run| - 1];
      RunKeeps(run[..|run| - 1]);
      hide SystemInv, Apply;
      match a
      case SubmitOne(payload) => SubmitStep(before, payload);
      case PacketArrives(pkt) => ArriveStep(before, pkt);
      case AckArrives(number, garbage) => AckStep(before, number, garbage);
      case TimeOut => TimeOutStep(before);
    }
  }

  /** The receiver has always handed up exactly the first payloads, in order and once each. */
  lemma DeliversInOrder(run: seq<Action>)
    requires Possible(run)
    ensures var sys := After(run);
      && sys.receiver.lastUpper <= |sys.payloads|
      && sys.receiver.upper == sys.payloads[..sys.receiver.lastUpper]
      && forall k :: k in sys.receiver.status && sys.receiver.status[k] ==> k <= sys.receiver.lastUpper
  {
    RunKeeps(run);
  }

  /** The sender's books in every reachable state; the timeout handler always has a packet to send. */
  lemma SenderBooks(run: seq<Action>)
    requires Possible(run)
    ensures var s := After(run).sender;
      && (forall k: nat :: 1 <= k < s.next ==>
           && (Acknowledged(s, k) || k in s.window || Queued(s, k))
           && !(Acknowledged(s, k) && k in s.window) && !(k in s.window && Queued(s, k)) && !(Acknowledged(s, k) && Queued(s, k)))
      && s.left + |s.window| == WINDOW_SIZE
      && (s.queue != [] ==> |s.window| == WINDOW_SIZE)
      && (s.timer <==> s.window != map[])
      && (s.timer ==> Resent(s) != {})
  {
    RunKeeps(run);
    var sys := After(run);
    forall k: nat | 1 <= k < sys.sender.next
      ensures Acknowledged(sys.sender, k) || k in sys.sender.window || Queued(sys.sender, k)
      ensures !(Acknowledged(sys.sender, k) && k in sys.sender.window)
      ensures !(k in sys.sender.window && Queued(sys.sender, k)) && !(Acknowledged(sys.sender, k) && Queued(sys.sender, k))
    {
      ExactlyOnePlace(sys.sender, sys.payloads, k);
    }
    if sys.sender.timer {
      TimeOutStep(sys);
    }
  }

  /** What was put on the network in every reachable state: each packet that was issued and is not in the queue,
      so in particular each one in the window, and an acknowledgement of each number that arrived. */
  lemma SentExactly(run: seq<Action>)
    requires Possible(run)
    ensures var sys := After(run); var s := sys.sender;
      && s.next == |sys.payloads| + 1
      && (forall p :: p in sys.packets <==>
           1 <= p.number < s.next && !Queued(s, p.number) && p.payload == sys.payloads[p.number - 1])
      && (forall k :: k in s.window ==> s.window[k] in sys.packets)
      && (forall k :: k in sys.acks <==> k in sys.receiver.received)
  {
    hide After, Possible, ReceiverInv;
    RunKeeps(run);
    var sys := After(run);
    var s := sys.sender;
    forall p: Packet | 1 <= p.number < s.next ensures Queued(s, p.number) <==> p.number >= FirstQueued(s) {
      QueuedIs(s, sys.payloads, p.number);
    }
    forall k | k in s.window ensures s.window[k] in sys.packets {
      WindowGenuine(s, sys.payloads, k);
      WindowOpen(s, sys.payloads, k);
      assert Genuine(sys, s.window[k]);
    }
  }

  lemma QueuedIs(s: Sender, payloads: seq<Payload>, k: nat)
    requires SenderInv(s, payloads) && 1 <= k < s.next
    ensures Queued(s, k) <==> k >= FirstQueued(s)
  {
    if k >= FirstQueued(s) {
      assert s.queue[k - FirstQueued(s)].number == k;
    }
  }

  /** The lowest number that was issued and is not acknowledged. */
  ghost predicate LowestOpen(s: Sender, k: nat) {
    1 <= k < s.next && !Acknowledged(s, k) && forall j: nat :: 1 <= j < k ==> Acknowledged(s, j)
  }

  /** A timeout in any reachable state sends exactly the packet of the lowest number that is not acknowledged. */
  lemma ResendsLowest(run: seq<Action>) returns (k: nat)
    requires Possible(run) && After(run).sender.timer
    ensures LowestOpen(After(run).sender, k) && k <= |After(run).payloads|
    ensures Resent(After(run).sender) == {Packet(k, After(run).payloads[k - 1])}
  {
    hide After, Possible, ReceiverInv;
    RunKeeps(run);
    var sys := After(run);
    k := FindFirst(sys.sender.window);
    FirstIsLowest(sys.sender, sys.payloads, k);
  }

  /** Every issued number is acknowledged. */
  ghost predicate AllAcknowledged(s: Sender) {
    forall k: nat :: 1 <= k < s.next ==> Acknowledged(s, k)
  }

  lemma OpenWindow(s: Sender, payloads: seq<Payload>)
    requires SenderInv(s, payloads)
    ensures s.window == map[] <==> AllAcknowledged(s)
    ensures forall k: nat :: IsFirst(s.window, k) <==> LowestOpen(s, k)
  {
    forall k: nat ensures IsFirst(s.window, k) <==> LowestOpen(s, k) {
      if IsFirst(s.window, k) {
        FirstIsLowest(s, payloads, k);
      }
      if LowestOpen(s, k) {
        LowestIsFirst(s, payloads, k);
      }
    }
    if s.window == map[] {
      assert |s.window| == 0;
    } else {
      var k := FindFirst(s.window);
    }
  }

  lemma LowestIsFirst(s: Sender, payloads: seq<Payload>, k: nat)
    requires SenderInv(s, payloads) && LowestOpen(s, k)
    ensures IsFirst(s.window, k)
  {
    assert s.window == map[] ==> |s.window| == 0;
    assert s.queue == [] ==> k in s.window;
    var j := FindFirst(s.window);
    FirstIsLowest(s, payloads, j);
  }

  /** When the timer is started anew: a payload comes while nothing is open, the lowest open number is
      acknowledged, or the timer runs out. With nothing open an acknowledgement reads past the window's end. */
  lemma StartsExactly(run: seq<Action>, a: Action)
    requires Possible(run) && Enabled(After(run), a)
    ensures var s := After(run).sender;
      var started :=
        match a
        case SubmitOne(_) => AllAcknowledged(s)
        case PacketArrives(_) => false
        case AckArrives(number, garbage) => if AllAcknowledged(s) then garbage else LowestOpen(s, number)
        case TimeOut => true;
      Apply(After(run), a).sender.starts == s.starts + if started then 1 else 0
  {
    hide After, Possible, ReceiverInv, Receive, Ack, AckSends, AllAcknowledged, LowestOpen;
    RunKeeps(run);
    var sys := After(run);
    OpenWindow(sys.sender, sys.payloads);
    if a.AckArrives? {
      hide SenderInv, SystemInv;
      AckInRange(sys, a.number);
      EndsOf(sys);
      AckKeeps(sys.sender, sys.payloads, a.number, a.garbage);
    }
    if a.SubmitOne? && sys.sender.window == map[] {
      assert |sys.sender.window| == 0;
    }
  }

  lemma EndsOf(sys: System)
    requires SystemInv(sys)
    ensures EndsInv(sys) && SenderInv(sys.sender, sys.payloads)
  {}

  lemma FirstIsLowest(s: Sender, payloads: seq<Payload>, k: nat)
    requires SenderInv(s, payloads) && IsFirst(s.window, k)
    ensures LowestOpen(s, k) && k <= |payloads| && Resent(s) == {Packet(k, payloads[k - 1])}
  {
    WindowGenuine(s, payloads, k);
    forall j: nat | 1 <= j < k ensures Acknowledged(s, j) {
      assert j !in s.window;
    }
    assert Resent(s) == {s.window[k]};
  }

  /** The receiver after its final flush: everything deliverable is handed up. */
  ghost predicate Flushed(r: Receiver, r': Receiver) {
    && r'.received == r.received && r'.lastUpper >= r.lastUpper && r'.lastUpper + 1 !in r'.status
    && forall k: nat :: r.lastUpper < k <= r'.lastUpper ==> k in r.status
  }

  /** What the two ends keep whatever is on the network. */
  ghost predicate EndsInv(sys: System) {
    && SenderInv(sys.sender, sys.payloads) && ReceiverInv(sys.receiver, sys.payloads)
    && (forall k :: k in sys.receiver.received ==> k < FirstQueued(sys.sender))
    && (forall k: nat :: Acknowledged(sys.sender, k) ==> k in sys.receiver.received)
  }

  lemma FlushedAll(sys: System, r: Receiver)
    requires EndsInv(sys) && sys.sender.window == map[] && sys.sender.queue == []
    requires Flushed(sys.receiver, r) && ReceiverInv(r, sys.payloads)
    ensures r.upper == sys.payloads
  {
    forall k: nat | 1 <= k <= |sys.payloads| ensures k in r.status {
      ExactlyOnePlace(sys.sender, sys.payloads, k);
    }
    assert r.lastUpper == |sys.payloads|;
    assert sys.payloads[..|sys.payloads|] == sys.payloads;
  }

  /** Once the sender's window and queue are empty, the final flush has handed up everything. */
  lemma EverythingDelivered(run: seq<Action>, r: Receiver)
    requires Possible(run) && After(run).sender.window == map[] && After(run).sender.queue == []
    requires Flushed(After(run).receiver, r) && ReceiverInv(r, After(run).payloads)
    ensures r.upper == After(run).payloads
  {
    hide After, SenderInv, ReceiverInv;
    RunKeeps(run);
    FlushedAll(After(run), r);
  }

  // ----- everything can still be delivered -----

  lemma RunMore(run: seq<Action>, a: Action)
    requires Possible(run) && Enabled(After(run), a)
    ensures Possible(run + [a]) && After(run + [a]) == Apply(After(run), a)
  {
    assert (run + [a])[..|run|] == run;
  }

  /** The issued numbers that are not acknowledged. */
  ghost function Open(s: Sender): set<nat> {
    set k: nat | 1 <= k < s.next && !Acknowledged(s, k)
  }

  lemma WindowOpen(s: Sender, payloads: seq<Payload>, k: nat)
    requires SenderInv(s, payloads) && k in s.window
    ensures k in Open(s) && s.window[k].number == k && 1 <= k < FirstQueued(s)
  {}

  lemma AckCloses(s: Sender, payloads: seq<Payload>, k: nat)
    requires SenderInv(s, payloads) && k in s.window
    ensures |Open(Ack(s, k, false))| < |Open(s)|
  {
    hide Ack, SenderInv, Acknowledged;
    WindowOpen(s, payloads, k);
    AckKeeps(s, payloads, k, false);
    assert Open(Ack(s, k, false)) == Open(s) - {k};
  }

  /** A continuation without new payloads, from any state of the network. */
  ghost predicate Continues(sys: System, more: seq<Action>, end: System)
    decreases |more|
  {
    if more == [] then sys == end
    else !more[0].SubmitOne? && Enabled(sys, more[0]) && Continues(Apply(sys, more[0]), more[1..], end)
  }

  lemma ContinuesFirst(sys: System, a: Action, more: seq<Action>, end: System)
    requires !a.SubmitOne? && Enabled(sys, a) && Continues(Apply(sys, a), more, end)
    ensures Continues(sys, [a] + more, end)
  {
    assert ([a] + more)[1..] == more;
  }

  /** Everything that is on the network is lost. */
  function Emptied(sys: System): System {
    sys.(packets := {}, acks := {})
  }

  /** After a timeout, the arrival of the packet that was resent and its acknowledgement. */
  function Exchanged(sys: System, pkt: Packet): System {
    Apply(Apply(Apply(sys, TimeOut), PacketArrives(pkt)), AckArrives(pkt.number, false))
  }

  lemma ExchangeKeeps(sys: System, k: nat)
    requires EndsInv(sys) && IsFirst(sys.sender.window, k)
    ensures sys.sender.timer && sys.sender.window[k].number == k && sys.sender.window[k] in Resent(sys.sender)
    ensures var next := Exchanged(sys, sys.sender.window[k]);
      EndsInv(next) && next.payloads == sys.payloads && |Open(next.sender)| < |Open(sys.sender)|
  {
    hide Ack, Receive, SenderInv, ReceiverInv, Open, AckSends, Acknowledged;
    var s, r := sys.sender, sys.receiver;
    SenderTimer(s, sys.payloads);
    WindowOpen(s, sys.payloads, k);
    WindowGenuine(s, sys.payloads, k);
    ReceiveKeeps(r, s.window[k], sys.payloads);
    var t := Apply(sys, TimeOut).sender;
    StartedKeeps(s, sys.payloads, s.starts + 1);
    assert t == s.(starts := s.starts + 1);
    AckKeeps(t, sys.payloads, k, false);
    AckCloses(t, sys.payloads, k);
  }

  /** How often the timer was started is none of the books' concern. */
  lemma StartedKeeps(s: Sender, payloads: seq<Payload>, n: nat)
    requires SenderInv(s, payloads)
    ensures SenderInv(s.(starts := n), payloads) && Open(s.(starts := n)) == Open(s)
    ensures FirstQueued(s.(starts := n)) == FirstQueued(s) && forall k: nat :: Acknowledged(s.(starts := n), k) <==> Acknowledged(s, k)
  {
    assert QueueInOrder(s.(starts := n), payloads);
    assert forall k: nat :: Acknowledged(s.(starts := n), k) <==> Acknowledged(s, k);
  }

  lemma SenderTimer(s: Sender, payloads: seq<Payload>)
    requires SenderInv(s, payloads)
    ensures s.timer <==> s.window != map[]
    ensures s.window == map[] ==> s.queue == []
  {}

  lemma WindowGenuine(s: Sender, payloads: seq<Payload>, k: nat)
    requires SenderInv(s, payloads) && k in s.window
    ensures 1 <= k <= |payloads| && s.window[k] == Packet(k, payloads[k - 1])
  {}

  lemma {:induction false} ExchangeAll(sys: System) returns (more: seq<Action>, end: System)
    requires EndsInv(sys)
    ensures Continues(sys, more, end) && EndsInv(end) && end.payloads == sys.payloads
    ensures end.sender.window == map[] && end.sender.queue == []
    decreases |Open(sys.sender)|
  {
    hide EndsInv, Open, Ack, Receive, AckSends, Continues;
    EndsGive(sys);
    if sys.sender.window == map[] {
      more, end := [], sys;
      ContinuesSelf(sys);
    } else {
      var k := FindFirst(sys.sender.window);
      var pkt := sys.sender.window[k];
      ExchangeKeeps(sys, k);
      var rest;
      rest, end := ExchangeAll(Exchanged(sys, pkt));
      var one := Apply(sys, TimeOut);
      var two := Apply(one, PacketArrives(pkt));
      ContinuesFirst(two, AckArrives(pkt.number, false), rest, end);
      ContinuesFirst(one, PacketArrives(pkt), [AckArrives(pkt.number, false)] + rest, end);
      more := [TimeOut] + ([PacketArrives(pkt)] + ([AckArrives(pkt.number, false)] + rest));
      ContinuesFirst(sys, TimeOut, more[1..], end);
      assert more == [TimeOut] + more[1..];
    }
  }

  lemma ContinuesSelf(sys: System)
    ensures Continues(sys, [], sys)
  {}

  lemma EndsGive(sys: System)
    requires EndsInv(sys)
    ensures sys.sender.timer <==> sys.sender.window != map[]
    ensures sys.sender.window == map[] ==> sys.sender.queue == []
  {
    SenderTimer(sys.sender, sys.payloads);
  }

  /** The ends and the submitted payloads agree, and one network has all that the other has. */
  ghost predicate Wider(big: System, small: System) {
    && big.payloads == small.payloads && big.sender == small.sender && big.receiver == small.receiver
    && small.packets <= big.packets && small.acks <= big.acks
  }

  /** What a system can do after everything on the network was lost, it can do in the run itself. */
  lemma {:induction false} ContinuesRun(run: seq<Action>, small: System, more: seq<Action>, end: System)
    requires Possible(run) && Wider(After(run), small) && Continues(small, more, end)
    ensures Possible(run + more) && Wider(After(run + more), end)
    decreases |more|
  {
    hide After, Possible, Ack, Receive, AckSends, Submit;
    if more == [] {
      assert run + more == run;
    } else {
      RunMore(run, more[0]);
      ContinuesRun(run + [more[0]], Apply(small, more[0]), more[1..], end);
      assert run + [more[0]] + more[1..] == run + more;
    }
  }

  /** From every reachable state, even if everything now on the network is lost, some continuation without new
      payloads empties window and queue, after which the flush has handed up every payload. */
  lemma CanDeliver(run: seq<Action>) returns (more: seq<Action>, end: System)
    requires Possible(run)
    ensures Continues(Emptied(After(run)), more, end) && end.payloads == After(run).payloads
    ensures end.sender.window == map[] && end.sender.queue == []
    ensures forall r :: Flushed(end.receiver, r) && ReceiverInv(r, end.payloads) ==> r.upper == After(run).payloads
    ensures Possible(run + more) && Wider(After(run + more), end)
  {
    hide After, Possible, SenderInv, ReceiverInv, Continues;
    RunKeeps(run);
    assert EndsInv(Emptied(After(run)));
    more, end := ExchangeAll(Emptied(After(run)));
    forall r | Flushed(end.receiver, r) && ReceiverInv(r, end.payloads) ensures r.upper == After(run).payloads {
      FlushedAll(end, r);
    }
    ContinuesRun(run, Emptied(After(run)), more, end);
  }

  /** The flush is needed: both packets arrived and were acknowledged, the second one first, and only
      the first payload was handed up. */
  lemma FlushNeeded(first: Payload, second: Payload)
    ensures var p1, p2 := Packet(1, first), Packet(2, second);
      var run := [SubmitOne(first), SubmitOne(second), PacketArrives(p2), PacketArrives(p1), AckArrives(1, false), AckArrives(2, false)];
      && Possible(run)
      && After(run).sender.window == map[] && After(run).sender.queue == []
      && After(run).payloads == [first, second] && After(run).receiver.upper == [first]
  {
    hide Receive, Ack, AckSends, HandUp;
    var p1, p2 := Packet(1, first), Packet(2, second);
    var a1, a2, a3, a4, a5, a6 :=
      SubmitOne(first), SubmitOne(second), PacketArrives(p2), PacketArrives(p1), AckArrives(1, false), AckArrives(2, false);
    assert [a1][..0] == [] && [a1, a2][..1] == [a1] && [a1, a2, a3][..2] == [a1, a2];
    assert [a1, a2, a3, a4][..3] == [a1, a2, a3] && [a1, a2, a3, a4, a5][..4] == [a1, a2, a3, a4];
    assert [a1, a2, a3, a4, a5, a6][..5] == [a1, a2, a3, a4, a5];
    var s1 := Apply(START, a1);
    assert After([a1]) == s1;
    var s2 := Apply(s1, a2);
    assert After([a1, a2]) == s2;
    assert p1 in s2.packets && p2 in s2.packets;
    var s3 := Apply(s2, a3);
    assert After([a1, a2, a3]) == s3;
    var s4 := Apply(s3, a4);
    assert After([a1, a2, a3, a4]) == s4;
    var s5 := Apply(s4, a5);
    assert After([a1, a2, a3, a4, a5]) == s5;
    assert Possible([a1]) && Possible([a1, a2]) && Possible([a1, a2, a3]);
    assert Possible([a1, a2, a3, a4]);
    assert Possible([a1, a2, a3, a4, a5]);
    ReceiveSwapped(first, second);
    AckBoth(first, second);
  }

  lemma ReceiveSwapped(first: Payload, second: Payload)
    ensures Receive(Receive(RECEIVER_START, Packet(2, second)), Packet(1, first)).upper == [first]
  {
    var r3 := Receive(RECEIVER_START, Packet(2, second));
    assert RunTo(map[2 := false], 0, 2) == 0;
    assert r3 == Receiver(map[2 := second], map[2 := false], 0, []);
    var t := Arrived(r3, Packet(1, first));
    assert RunTo(t.status, 0, 1) == 1;
    assert HandUp(t, 1).upper == [] + [t.received[1]];
  }

  lemma AckBoth(first: Payload, second: Payload)
    ensures var s2 := Submit(Submit(SENDER_START, first), second);
      var s6 := Ack(Ack(s2, 1, false), 2, false);
      s6.window == map[] && s6.queue == []
  {
    var s2 := Submit(Submit(SENDER_START, first), second);
    var s5 := Ack(s2, 1, false);
    assert s5.queue == [] && s5.window == map[2 := Packet(2, second)];
  }
}
