/** What the sender owes its user: nothing that fits is dropped, everything goes out, and
    what arrives undisturbed is delivered. */
module FragmentDelivery {
  import opened Buffers
  import opened FragmentHeader
  import opened FragmentProtocol
  import opened FragmentReassembly
  import opened FragmentReceive
  import opened FragmentRuns
  import opened FragmentSend
  import opened FragmentSize
  import opened FragmentSplit
  import opened FragmentWindow
  import Integers
  import opened Options

  // One datagram

  /** A datagram that fits goes out as one packet, in which any receiver finds it. */
  lemma FittingIsSentWhole(s: Sender, data: seq<Byte>, payloadSize: nat)
    requires ValidSender(s) && payloadSize >= 4 && 0 < |data| <= payloadSize
    ensures var (s', packet) := Outgoing(s, data, payloadSize);
            && s' == s && packet.Some? && |packet.value| == |data| + 4
            && forall w: Window, headroom: int, now: int | ValidSlots(w, headroom) ::
                 Receive(w, packet.value, headroom, now) == (w, Deliver(data))
  {
    hide Receive, WholePacket;
    var packet := Outgoing(s, data, payloadSize).1.value;
    WholeLength(data);
    forall w: Window, headroom: int, now: int | ValidSlots(w, headroom)
      ensures Receive(w, packet, headroom, now) == (w, Deliver(data))
    {
      WholeIsRead(data, w, headroom, now);
    }
  }

  lemma NothingIsSentForNothing(s: Sender, payloadSize: nat)
    requires ValidSender(s) && payloadSize >= 4
    ensures Outgoing(s, [], payloadSize) == (s, None)
  {
  }

  // Whole behaviours

  /** A datagram handed over is dropped exactly when 32 fragments of the payload size,
      rounded down to a multiple of four, would not hold it.  Otherwise it is on the wire
      whole, or its fragments begin to go out. */
  lemma SubmittedIsOnItsWay(states: seq<State>, actions: seq<Action>, link: Link, k: nat, data: seq<Byte>,
                            payloadSize: nat)
    requires Behaviour(states, actions, link) && k < |actions|
    requires actions[k] == SubmitAct(data, payloadSize) && data != []
    ensures var s, s' := states[k], states[k + 1];
            if |data| <= payloadSize then exists wire :: wire in s'.net && wire.tag == Entire(data)
            else if |data| <= payloadSize / 4 * 4 * 32 then
              && s'.number == s.number + 1 && s'.number in s'.sent && s'.sent[s'.number].data == data
              && exists wire :: wire in s'.net && wire.tag == Part(s'.number, 0)
            else s'.net == s.net && s'.sent == s.sent && s'.sender.pending == []
  {
    hide OptimalFragmentSize, RoundDown, Sent.Packet, Sent.Last, Sending;
    var s, s' := states[k], states[k + 1];
    assert Next(s, s', link, actions[k]);
    BehaviourInv(states, actions, link, k);
    if |data| <= payloadSize {
      FittingIsSentWhole(s.sender, data, payloadSize);
      assert Wire(Entire(data), Outgoing(s.sender, data, payloadSize).1.value) in s'.net;
    } else {
      OutgoingStarts(s.sender, data, payloadSize);
      RoundedDown(payloadSize);
      var packet := Outgoing(s.sender, data, payloadSize).1;
      if packet.Some? {
        FieldsOfSending(s'.sender, Sent(data, OptimalFragmentSize(|data|, payloadSize)), 1);
        assert Wire(Part(s'.number, 0), packet.value) in s'.net;
      }
    }
  }

  lemma RoundedDown(x: nat)
    ensures RoundDown(x) == x / 4 * 4
  {
  }

  ghost predicate OnTheWire(s: State, n: int, i: nat)
    requires AllValid(s.sent)
  {
    n in s.sent && i <= s.sent[n].Last() && (s.sender.pending == [] || n < s.number || i < s.sender.fragId) ==>
      Wire(Part(n, i), s.sent[n].Packet(n % N_SEQ_ID, i)) in s.net
  }

  /** Every fragment of every datagram cut up is on the wire, unless it is of the current
      datagram and still to be sent. */
  ghost predicate AllOnTheWire(s: State)
    requires AllValid(s.sent)
  {
    forall n, i: nat :: OnTheWire(s, n, i)
  }

  lemma {:induction false} EverythingGoesOut(states: seq<State>, actions: seq<Action>, link: Link, k: nat)
    requires Behaviour(states, actions, link) && k < |states|
    ensures AllValid(states[k].sent) && AllOnTheWire(states[k])
  {
    hide Next, AllOnTheWire, Init, Inv;
    BehaviourInv(states, actions, link, k);
    InvFacts(states[k], link);
    if k == 0 {
      NothingYet(states[0], link);
    } else {
      BehaviourInv(states, actions, link, k - 1);
      InvFacts(states[k - 1], link);
      EverythingGoesOut(states, actions, link, k - 1);
      NextGoesOut(states[k - 1], states[k], link, actions[k - 1]);
    }
  }

  lemma InvFacts(s: State, link: Link)
    requires Inv(s, link)
    ensures AllValid(s.sent)
  {
  }

  lemma NothingYet(s: State, link: Link)
    requires Init(s, link)
    ensures AllOnTheWire(s)
  {
  }

  lemma NextGoesOut(s: State, s': State, link: Link, a: Action)
    requires Inv(s, link) && Next(s, s', link, a) && AllValid(s.sent) && AllValid(s'.sent) && AllOnTheWire(s)
    ensures AllOnTheWire(s')
  {
    hide Inv, OnTheWire, Submit, Emit, Simulates, Collect, Receive, Reap;
    forall n, i: nat
      ensures OnTheWire(s', n, i)
    {
      assert OnTheWire(s, n, i);
      match a
      case SubmitAct(data, payloadSize) => SubmitGoesOut(s, s', link, data, payloadSize, n, i);
      case EmitAct => EmitGoesOut(s, s', link, n, i);
      case ArriveAct(_, _) => SameWires(s, s', n, i);
      case TickAct(_) => SameWires(s, s', n, i);
    }
  }

  lemma SameWires(s: State, s': State, n: int, i: nat)
    requires AllValid(s.sent) && OnTheWire(s, n, i)
    requires s'.sent == s.sent && s'.net == s.net && s'.sender == s.sender && s'.number == s.number
    ensures OnTheWire(s', n, i)
  {
    hide Sent.Packet, Sent.Last;
  }

  /** Handing over a datagram leaves what there was, and may begin to send a new one. */
  ghost predicate Begins(s: State, s': State) {
    && s'.number == s.number + 1 && s'.number !in s.sent && s'.number in s'.sent && s'.sent[s'.number].Valid()
    && s'.sent == s.sent[s'.number := s'.sent[s'.number]]
    && s'.sender.fragId == 1 && s'.sender.pending != []
    && Wire(Part(s'.number, 0), s'.sent[s'.number].Packet(s'.number % N_SEQ_ID, 0)) in s'.net
  }

  lemma NextId(number: int)
    ensures Integers.ModuloAdd(number % N_SEQ_ID, 1, N_SEQ_ID) == (number + 1) % N_SEQ_ID
  {
  }

  lemma SubmitEffect(s: State, s': State, link: Link, data: seq<Byte>, payloadSize: nat)
    requires Inv(s, link) && Submit(s, s', data, payloadSize)
    ensures s.net <= s'.net && s.sender.pending == [] && (forall n :: n in s.sent ==> n <= s.number)
    ensures Begins(s, s') || (s'.sent == s.sent && s'.sender.pending == [])
  {
    hide Simulates, Sent.Packet, Sent.Last, OptimalFragmentSize, Sending, Genuine, Integers.ModuloAdd, RoundDown,
      WholePacket;
    if |data| > payloadSize {
      hide Outgoing;
      OutgoingStarts(s.sender, data, payloadSize);
      if Outgoing(s.sender, data, payloadSize).1.Some? {
        var d := Sent(data, OptimalFragmentSize(|data|, payloadSize));
        FieldsOfSending(s'.sender, d, 1);
        MoreToSend(s'.sender, d, 1);
        NextId(s.number);
      }
    }
  }

  lemma SubmitGoesOut(s: State, s': State, link: Link, data: seq<Byte>, payloadSize: nat, n: int, i: nat)
    requires Inv(s, link) && Submit(s, s', data, payloadSize) && AllValid(s.sent) && AllValid(s'.sent)
    requires OnTheWire(s, n, i)
    ensures OnTheWire(s', n, i)
  {
    hide Inv, Submit, Sent.Packet, Sent.Last;
    SubmitEffect(s, s', link, data, payloadSize);
  }

  lemma MoreToSend(s: Sender, d: Sent, i: nat)
    requires Sending(s, d, i) && i <= d.Last()
    ensures s.pending != []
  {
  }

  lemma EmitGoesOut(s: State, s': State, link: Link, n: int, i: nat)
    requires Inv(s, link) && Emit(s, s') && AllValid(s.sent) && AllValid(s'.sent) && OnTheWire(s, n, i)
    ensures OnTheWire(s', n, i)
  {
    hide Simulates, Sent.Packet, Genuine, ReadyToSend, Sent.Last;
    SendsChunk(s.sender, s.sent[s.number], s.sender.fragId);
  }

  /** A datagram sent whole is delivered whenever its packet arrives. */
  lemma WholeArrivalDelivers(states: seq<State>, actions: seq<Action>, link: Link, k: nat, wire: Wire, now: int)
    requires Behaviour(states, actions, link) && k < |actions|
    requires actions[k] == ArriveAct(wire, now) && wire.tag.Entire?
    ensures states[k + 1].delivered == states[k].delivered + [wire.tag.data]
  {
    hide Simulates, Receive, WholePacket, Sent.Packet, Sent.Last, Collect;
    var s, s' := states[k], states[k + 1];
    assert Next(s, s', link, actions[k]);
    BehaviourInv(states, actions, link, k);
    assert Genuine(wire, s.sent, s.submitted);
    WholeIsRead(wire.tag.data, s.receiver, link.headroom, now);
  }

  /** The fragments of n that have arrived in steps a to k - 1. */
  function Arrived(actions: seq<Action>, a: nat, k: nat, n: int): set<nat>
    requires a <= k <= |actions|
  {
    if k == a then {}
    else
      Arrived(actions, a, k - 1, n)
      + match actions[k - 1]
        case ArriveAct(wire, _) => if wire.tag.Part? && wire.tag.n == n then {wire.tag.i} else {}
        case _ => {}
  }

  /** The step does not make the receiver forget what it has of datagram n. */
  ghost predicate LeavesAlone(s: State, a: Action, n: int) {
    match a
    case ArriveAct(wire, now) => Undisturbed(s.collection, EventOf(wire.tag, now), n)
    case TickAct(now) => Undisturbed(s.collection, Expire(now), n)
    case _ => true
  }

  ghost predicate LeftAlone(states: seq<State>, actions: seq<Action>, a: nat, k: nat, n: int)
    requires a <= k <= |actions| <= |states|
  {
    forall j :: a <= j < k ==> LeavesAlone(states[j], actions[j], n)
  }

  /** One step, as far as datagram n goes. */
  lemma StepCollects(s: State, s': State, link: Link, a: Action, n: int)
    requires Inv(s, link) && Next(s, s', link, a) && LeavesAlone(s, a, n)
    requires n in s.sent && |s.sent[n].data| <= link.capacity - link.headroom
    ensures n in s'.sent && s'.sent[n] == s.sent[n]
    ensures if a.ArriveAct? && a.wire.tag.Part? && a.wire.tag.n == n then
              var got := Got(s.collection, n) + {a.wire.tag.i};
              if Complete(s.sent[n], got) then s'.delivered == s.delivered + [s.sent[n].data]
              else s'.delivered == s.delivered && Got(s'.collection, n) == got
            else Got(s'.collection, n) == Got(s.collection, n)
  {
    hide Simulates, Sent.Packet, Sent.Last, Receive, Reap, Outgoing, ReadyToSend, Collect, Undisturbed, Complete;
    var room := link.capacity - link.headroom;
    match a
    case SubmitAct(_, _) =>
    case EmitAct =>
    case ArriveAct(wire, now) =>
      var e := EventOf(wire.tag, now);
      OneMore(s.collection, e, s.sent, room, n);
      if wire.tag.Part? {
        assert Genuine(wire, s.sent, s.submitted);
        StepRefines(s.receiver, s.collection, e, s.sent, link.headroom, link.capacity);
      }
    case TickAct(now) =>
      OneMore(s.collection, Expire(now), s.sent, room, n);
  }

  /** While one of its fragments is missing the receiver collects those that arrive. */
  lemma {:induction false} CollectedSoFar(states: seq<State>, actions: seq<Action>, link: Link, a: nat, k: nat, n: int)
    requires Behaviour(states, actions, link) && a <= k <= |actions| && LeftAlone(states, actions, a, k, n)
    requires n in states[a].sent && |states[a].sent[n].data| <= link.capacity - link.headroom
    requires AllValid(states[a].sent) && Got(states[a].collection, n) == {}
    requires !Complete(states[a].sent[n], Arrived(actions, a, k, n))
    ensures n in states[k].sent && states[k].sent[n] == states[a].sent[n]
    ensures Got(states[k].collection, n) == Arrived(actions, a, k, n)
    decreases k
  {
    hide Inv, Next, Got, Complete, LeavesAlone;
    if k > a {
      MoreIsComplete(states[a].sent[n], Arrived(actions, a, k - 1, n), Arrived(actions, a, k, n));
      CollectedSoFar(states, actions, link, a, k - 1, n);
      BehaviourInv(states, actions, link, k - 1);
      StepCollects(states[k - 1], states[k], link, actions[k - 1], n);
    }
  }

  /** Once the receiver has nothing of a datagram that fits its buffers, and fragments of it
      arrive undisturbed, in any order and with any duplicates, the one that completes it
      delivers it. */
  lemma DeliveredWhenAllArrived(states: seq<State>, actions: seq<Action>, link: Link, a: nat, k: nat, n: int)
    requires Behaviour(states, actions, link) && a <= k < |actions| && LeftAlone(states, actions, a, k + 1, n)
    requires n in states[a].sent && |states[a].sent[n].data| <= link.capacity - link.headroom
    requires AllValid(states[a].sent) && Got(states[a].collection, n) == {}
    requires !Complete(states[a].sent[n], Arrived(actions, a, k, n))
    requires Complete(states[a].sent[n], Arrived(actions, a, k + 1, n))
    ensures states[k + 1].delivered == states[k].delivered + [states[a].sent[n].data]
  {
    hide Inv, Next, Got, Complete, LeavesAlone;
    CollectedSoFar(states, actions, link, a, k, n);
    BehaviourInv(states, actions, link, k);
    StepCollects(states[k], states[k + 1], link, actions[k], n);
    assert Arrived(actions, a, k, n) + {} == Arrived(actions, a, k, n);
  }
}
