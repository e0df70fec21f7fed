/**
 The sender and the receiver of the sliding window as the program runs them: handlers that change
 fields in place. Each follows the step function of the same name.
 */
module Endpoints {
  import opened SlidingWindow

  class SenderNode {
    var sequenceNumber: nat
    var windowLeft: int
    var unsendPkts: seq<Packet>
    var unackPkts: map<nat, bool>
    var slidingWindow: map<nat, Packet>
    var timer: bool
    var timerStarts: nat    // how often the timer was started
    var sent: seq<Packet>   // what went to the lower layer

    ghost function State(): Sender
      reads this
    {
      Sender(sequenceNumber, windowLeft, unsendPkts, unackPkts, slidingWindow, timer, timerStarts)
    }

    constructor ()
      ensures State() == SENDER_START && sent == []
    {
      sequenceNumber, windowLeft, unsendPkts := 1, WINDOW_SIZE, [];
      unackPkts, slidingWindow, timer, timerStarts, sent := map[], map[], false, 0, [];
    }

    method ToLowerLayer(pkt: Packet)
      modifies this`sent
      ensures sent == old(sent) + [pkt]
    {
      sent := sent + [pkt];
    }

    method StartTimer()
      modifies this`timer, this`timerStarts
      ensures timer && timerStarts == old(timerStarts) + 1
    {
      timer, timerStarts := true, timerStarts + 1;
    }

    method FromUpperLayer(payload: Payload)
      modifies this
      ensures State() == Submit(old(State()), payload)
      ensures sent == old(sent) + SubmitSends(old(State()), payload)
    {
      var pkt := Packet(sequenceNumber, payload);
      unackPkts := unackPkts[sequenceNumber := false];
      if windowLeft > 0 {
        ToLowerLayer(pkt);
        if slidingWindow == map[] {
          StartTimer();
        }
        slidingWindow := slidingWindow[sequenceNumber := pkt];
        windowLeft := windowLeft - 1;
      } else {
        unsendPkts := unsendPkts + [pkt];
      }
      sequenceNumber := sequenceNumber + 1;
    }

    /** Takes the acknowledged packets out of the window, one after the other. */
    method RemoveAcked()
      modifies this`slidingWindow, this`windowLeft
      ensures slidingWindow == Unacked(old(slidingWindow), unackPkts)
      ensures windowLeft == old(windowLeft) + |old(slidingWindow)| - |slidingWindow|
    {
      var iter := slidingWindow.Keys;
      while iter != {}
        invariant iter <= slidingWindow.Keys
        invariant forall k :: k in slidingWindow ==> k in old(slidingWindow) && slidingWindow[k] == old(slidingWindow)[k]
        invariant forall k :: k in old(slidingWindow) && k !in slidingWindow ==> Acked(k)
        invariant forall k :: k in slidingWindow && k !in iter ==> !Acked(k)
        invariant windowLeft == old(windowLeft) + |old(slidingWindow)| - |slidingWindow|
        decreases |iter|
      {
        var k :| k in iter;
        iter := iter - {k};
        if k in unackPkts && unackPkts[k] {
          ShrinksByOne(slidingWindow, k);
          slidingWindow := slidingWindow - {k};
          windowLeft := windowLeft + 1;
        }
      }
    }

    ghost predicate Acked(k: nat)
      reads this`unackPkts
    {
      k in unackPkts && unackPkts[k]
    }

    /** Fills free places from the queue. */
    method RefillWindow()
      modifies this`unsendPkts, this`slidingWindow, this`windowLeft, this`sent
      ensures State() == Refill(old(State()))
      ensures sent == old(sent) + RefillSends(old(State()))
      ensures old(sent) <= sent && old(unsendPkts) == sent[|old(sent)|..] + unsendPkts
    {
      RefillSendsQueued(State());
      while unsendPkts != [] && windowLeft > 0
        invariant Refill(State()) == Refill(old(State()))
        invariant sent + RefillSends(State()) == old(sent) + RefillSends(old(State()))
        decreases |unsendPkts|
      {
        var frontPkt := unsendPkts[0];
        ToLowerLayer(frontPkt);
        unsendPkts := unsendPkts[1..];
        slidingWindow := slidingWindow[frontPkt.number := frontPkt];
        windowLeft := windowLeft - 1;
      }
    }

    /** An acknowledgement; `garbage` is what a look at the first packet of an empty window finds. */
    method FromLowerLayer(number: nat, garbage: bool)
      modifies this
      ensures State() == Ack(old(State()), number, garbage)
      ensures sent == old(sent) + AckSends(old(State()), number, garbage)
      ensures old(sent) <= sent && old(unsendPkts) == sent[|old(sent)|..] + unsendPkts
    {
      hide Refill, RefillSends;
      var first := if slidingWindow == map[] then garbage else IsFirst(slidingWindow, number);
      if first {
        StartTimer();
      }
      unackPkts := unackPkts[number := true];
      RemoveAcked();
      assert State() == Removed(old(State()), number, garbage);
      RefillWindow();
      if unsendPkts == [] && slidingWindow == map[] {
        timer := false;
      }
    }

    /** The timer ran out: the first packet of the window is sent again. */
    method OnTimeout() returns (pkt: Packet)
      requires slidingWindow != map[]
      modifies this`sent, this`timer, this`timerStarts
      ensures pkt in Resent(State()) && sent == old(sent) + [pkt]
      ensures State() == old(State()).(timer := true, starts := old(State()).starts + 1)
    {
      ghost var f := FindFirst(slidingWindow);
      var k :| k in slidingWindow && IsFirst(slidingWindow, k);
      pkt := slidingWindow[k];
      assert IsFirst(State().window, k) && pkt == State().window[k];
      ToLowerLayer(pkt);
      StartTimer();
    }
  }

  lemma ShrinksByOne(m: map<nat, Packet>, k: nat)
    requires k in m
    ensures |m - {k}| == |m| - 1
  {
    assert (m - {k}).Keys == m.Keys - {k};
    assert |(m - {k}).Keys| == |m.Keys| - 1;
  }

  class ReceiverNode {
    var receivedMsgs: map<nat, Payload>
    var msgStatus: map<nat, bool>
    var lastUpper: nat
    var upper: seq<Payload>   // what went to the upper layer
    var ackSent: seq<nat>     // the acknowledgements sent

    ghost function State(): Receiver
      reads this
    {
      Receiver(receivedMsgs, msgStatus, lastUpper, upper)
    }

    constructor ()
      ensures State() == RECEIVER_START && ackSent == []
    {
      receivedMsgs, msgStatus, lastUpper, upper, ackSent := map[], map[], 0, [], [];
    }

    /** A packet arrives: it is acknowledged, stored once, and what is in order is handed up. */
    method FromLowerLayer(pkt: Packet, ghost payloads: seq<Payload>)
      requires ReceiverInv(State(), payloads)
      requires 1 <= pkt.number <= |payloads| && pkt.payload == payloads[pkt.number - 1]
      modifies this
      ensures State() == Receive(old(State()), pkt) && ReceiverInv(State(), payloads)
      ensures ackSent == old(ackSent) + [pkt.number]
    {
      hide HandUp, RunTo, ReceiverInv;
      ackSent := ackSent + [pkt.number];
      receivedMsgs := receivedMsgs[pkt.number := pkt.payload];
      if pkt.number !in msgStatus {
        msgStatus := msgStatus[pkt.number := false];
      }
      ghost var t := State();
      assert t == Arrived(old(State()), pkt);
      ReceiveKeeps(old(State()), pkt, payloads);
      ArrivedKeeps(old(State()), pkt, payloads);
      ghost var end := RunTo(t.status, t.lastUpper, pkt.number);
      RunToBounds(t.status, t.lastUpper, pkt.number);
      HandUpLoop(pkt.number, payloads, end);
    }

    /** The loop that hands messages up, from the one after the last handed up to `limit`. */
    method HandUpLoop(limit: nat, ghost payloads: seq<Payload>, ghost end: nat)
      requires ReceiverInv(State(), payloads) && end == RunTo(msgStatus, lastUpper, limit)
      modifies this`msgStatus, this`lastUpper, this`upper
      ensures State() == HandUp(old(State()), end)
    {
      hide HandUp, RunTo;
      RunToBounds(msgStatus, lastUpper, limit);
      ghost var r0 := State();
      var i := lastUpper + 1;
      while i <= limit
        invariant i == lastUpper + 1 && r0.lastUpper <= lastUpper <= end
        invariant receivedMsgs == r0.received && msgStatus.Keys == r0.status.Keys
        invariant ReceiverInv(State(), payloads)
        invariant HandUp(State(), end) == HandUp(r0, end)
      {
        if i !in msgStatus {
          break;
        } else if !msgStatus[i] && (i == 1 || (i - 1 in msgStatus && msgStatus[i - 1])) {
          assert lastUpper < end;
          HandUpOne(State(), end, payloads);
          upper := upper + [receivedMsgs[i]];
          lastUpper := i;
          msgStatus := msgStatus[i := true];
        }
        i := i + 1;
      }
      assert lastUpper == end;
      HandUpDone(State());
    }

    /** Before the receiver ends, it hands up everything that is deliverable. */
    method Final(ghost payloads: seq<Payload>)
      requires ReceiverInv(State(), payloads)
      modifies this`msgStatus, this`lastUpper, this`upper
      ensures ReceiverInv(State(), payloads) && Flushed(old(State()), State())
      ensures upper == payloads[..lastUpper] && (lastUpper < |payloads| ==> lastUpper + 1 !in receivedMsgs)
    {
      ghost var r0 := State();
      var i := lastUpper + 1;
      while true
        invariant i == lastUpper + 1 && r0.lastUpper <= lastUpper <= |payloads|
        invariant receivedMsgs == r0.received && msgStatus.Keys == r0.status.Keys
        invariant ReceiverInv(State(), payloads)
        invariant forall k: nat :: r0.lastUpper < k <= lastUpper ==> k in r0.status
        decreases |payloads| - lastUpper
      {
        if i !in msgStatus {
          break;
        } else if !msgStatus[i] {
          HandUpOne(State(), i, payloads);
          upper := upper + [receivedMsgs[i]];
          lastUpper := i;
          msgStatus := msgStatus[i := true];
          i := i + 1;
        }
      }
    }
  }

  lemma HandUpDone(r: Receiver)
    ensures HandUp(r, r.lastUpper) == r
  {}

  /** Handing up the next message. */
  lemma HandUpOne(r: Receiver, end: nat, payloads: seq<Payload>)
    requires ReceiverInv(r, payloads) && r.lastUpper < end && r.lastUpper + 1 in r.received
    ensures var n := r.lastUpper + 1;
      var t := r.(lastUpper := n, status := r.status[n := true], upper := r.upper + [r.received[n]]);
      ReceiverInv(t, payloads) && HandUp(r, end) == HandUp(t, end)
  {
    var n := r.lastUpper + 1;
    assert payloads[..n] == payloads[..r.lastUpper] + [payloads[n - 1]];
  }
}
