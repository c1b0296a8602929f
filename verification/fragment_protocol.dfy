/** Sender, network and receiver together.  The network may drop, duplicate,
    reorder and delay: every packet ever put on the wire may arrive at any time,
    any number of times, or never. */
module FragmentProtocol {
  import opened Buffers
  import opened FragmentHeader
  import opened FragmentReassembly
  import opened FragmentReceive
  import opened FragmentRuns
  import opened FragmentSend
  import opened FragmentSize
  import opened FragmentSplit
  import opened FragmentWindow

  /** What a packet on the wire is; the receiver sees its bytes only. */
  datatype Tag = Part(n: int, i: nat) | Entire(data: seq<Byte>)

  datatype Wire = Wire(tag: Tag, bytes: seq<Byte>)

  datatype State = State(
    sender: Sender,
    number: int,                    // of the latest datagram that was cut up
    sent: map<int, Sent>,           // the datagrams cut up so far
    submitted: set<seq<Byte>>,      // everything handed to the sender
    net: set<Wire>,                 // everything ever put on the wire
    receiver: Window,
    ghost collection: Collection,   // what the receiver's window stands for
    delivered: seq<seq<Byte>>)      // everything the receiver passed on

  /** Sizes fixed when the link is set up. */
  datatype Link = Link(headroom: int, capacity: int)

  ghost predicate Init(s: State, link: Link) {
    && 0 <= s.number < N_SEQ_ID && s.sender == Sender(s.number, 0, 0, [])
    && s.sent == map[] && s.submitted == {} && s.net == {} && s.delivered == []
    && Initial(s.receiver, link.headroom, link.capacity)
    && s.collection.open == map[] && s.collection.head % N_SEQ_ID == 0
  }

  /** A datagram is handed over while none is being cut up. */
  ghost predicate Submit(s: State, s': State, data: seq<Byte>, payloadSize: nat) {
    && ValidSender(s.sender) && s.sender.pending == [] && 4 <= payloadSize <= MAX_FRAG_SIZE + 3
    && var (sender, packet) := Outgoing(s.sender, data, payloadSize);
       var cut := packet.Some? && |data| > payloadSize;
       var number := if cut then s.number + 1 else s.number;
       s' == s.(sender := sender, number := number,
                sent := if cut then s.sent[number := Sent(data, sender.fragSize)] else s.sent,
                submitted := s.submitted + {data},
                net := s.net + if cut then {Wire(Part(number, 0), packet.value)}
                               else if packet.Some? then {Wire(Entire(data), packet.value)} else {})
  }

  /** The next fragment of the current datagram goes out. */
  ghost predicate Emit(s: State, s': State) {
    && ValidSender(s.sender) && s.sender.pending != []
    && var (sender, packet) := ReadyToSend(s.sender);
       s' == s.(sender := sender, net := s.net + {Wire(Part(s.number, s.sender.fragId), packet.value)})
  }

  function EventOf(tag: Tag, now: int): Event {
    match tag
    case Part(n, i) => Fragment(n, i, now)
    case Entire(data) => Whole(data)
  }

  /** A packet arrives whose number can be told apart from those in the window. */
  ghost predicate Arrive(s: State, s': State, link: Link, wire: Wire, now: int) {
    && wire in s.net && ValidSlots(s.receiver, link.headroom)
    && AllValid(s.sent) && Possible(s.collection, EventOf(wire.tag, now), s.sent)
    && var (receiver, outcome) := Receive(s.receiver, wire.bytes, link.headroom, now);
       s' == s.(receiver := receiver,
                collection := Collect(s.collection, EventOf(wire.tag, now), s.sent, link.capacity - link.headroom).0,
                delivered := if outcome.Deliver? then s.delivered + [outcome.content] else s.delivered)
  }

  ghost predicate Tick(s: State, s': State, link: Link, now: int) {
    && ValidSlots(s.receiver, link.headroom) && AllValid(s.sent)
    && s' == s.(receiver := Reap(s.receiver, now),
                collection := Collect(s.collection, Expire(now), s.sent, link.capacity - link.headroom).0)
  }

  datatype Action = SubmitAct(data: seq<Byte>, payloadSize: nat) | EmitAct | ArriveAct(wire: Wire,
            now: int) | TickAct(now: int)

  ghost predicate Next(s: State, s': State, link: Link, a: Action) {
    match a
    case SubmitAct(data, payloadSize) => Submit(s, s', data, payloadSize)
    case EmitAct => Emit(s, s')
    case ArriveAct(wire, now) => Arrive(s, s', link, wire, now)
    case TickAct(now) => Tick(s, s', link, now)
  }

  // The invariant

  ghost predicate Genuine(wire: Wire, sent: map<int, Sent>, submitted: set<seq<Byte>>)
    requires AllValid(sent)
  {
    match wire.tag
    case Part(n, i) => n in sent && i <= sent[n].Last() && wire.bytes == sent[n].Packet(n % N_SEQ_ID, i)
    case Entire(data) => data in submitted && wire.bytes == WholePacket(data)
  }

  ghost predicate SenderInv(s: State) {
    && ValidSender(s.sender) && s.sender.seqId == s.number % N_SEQ_ID
    && AllValid(s.sent)
    && (forall n | n in s.sent :: n <= s.number && s.sent[n].data in s.submitted)
    && (s.sender.pending != [] ==>
          s.number in s.sent && s.sender.fragId <= s.sent[s.number].Last()
          && Sending(s.sender, s.sent[s.number], s.sender.fragId))
  }

  ghost predicate Inv(s: State, link: Link) {
    && SenderInv(s)
    && (forall wire | wire in s.net :: Genuine(wire, s.sent, s.submitted))
    && Simulates(s.receiver, s.collection, s.sent, link.headroom, link.capacity)
    && (forall k | 0 <= k < |s.delivered| :: s.delivered[k] in s.submitted)
  }

  lemma InitInv(s: State, link: Link)
    requires Init(s, link)
    ensures Inv(s, link)
  {
    InitialSimulates(s.receiver, s.collection.head, s.sent, link.headroom, link.capacity);
  }

  lemma MoreSent(w: Window, c: Collection, sent: map<int, Sent>, n: int, d: Sent, headroom: int, capacity: int)
    requires AllValid(sent) && Simulates(w, c, sent, headroom, capacity) && n !in sent && d.Valid()
    ensures Simulates(w, c, sent[n := d], headroom, capacity)
  {
    hide Tracks;
    var sent' := sent[n := d];
    forall m | InWindow(c.head, m)
      ensures SlotAgrees(w.slots[SlotOf(w, c.head, m)], c, m, sent', headroom)
    {
      assert SlotAgrees(w.slots[SlotOf(w, c.head, m)], c, m, sent, headroom);
      if m == n {
        UnusedTracks(w.slots[SlotOf(w, c.head, m)], d, headroom);
      }
    }
  }

  lemma UnusedTracks(slot: Slot, d: Sent, headroom: int)
    requires d.Valid() && !slot.defined
    ensures Tracks(slot, d, {}, headroom)
  {
  }

  lemma StillGenuine(wire: Wire, sent: map<int, Sent>, sent': map<int, Sent>,
                     submitted: set<seq<Byte>>, submitted': set<seq<Byte>>)
    requires AllValid(sent) && AllValid(sent') && submitted <= submitted'
    requires forall n | n in sent :: n in sent' && sent'[n] == sent[n]
    requires Genuine(wire, sent, submitted)
    ensures Genuine(wire, sent', submitted')
  {
  }

  lemma SubmitWholeKeepsInv(s: State, s': State, link: Link, data: seq<Byte>, payloadSize: nat)
    requires Inv(s, link) && Submit(s, s', data, payloadSize) && |data| <= payloadSize
    ensures Inv(s', link)
  {
    hide Simulates, WholePacket, Sent.Packet, Sent.Last;
    forall wire | wire in s.net
      ensures Genuine(wire, s'.sent, s'.submitted)
    {
      StillGenuine(wire, s.sent, s'.sent, s.submitted, s'.submitted);
    }
  }

  lemma SubmitCutKeepsInv(s: State, s': State, link: Link, data: seq<Byte>, payloadSize: nat)
    requires Inv(s, link) && Submit(s, s', data, payloadSize) && |data| > payloadSize
    ensures Inv(s', link)
  {
    hide Simulates, Outgoing, Sending, Sent.Packet, Sent.Last, OptimalFragmentSize;
    OutgoingStarts(s.sender, data, payloadSize);
    var d := Sent(data, OptimalFragmentSize(|data|, payloadSize));
    var (sender, packet) := Outgoing(s.sender, data, payloadSize);
    if packet.Some? {
      var number := s.number + 1;
      assert sender.fragSize == d.size && sender.fragId == 1 by { FieldsOfSending(sender, d, 1); }
      MoreSent(s.receiver, s.collection, s.sent, number, d, link.headroom, link.capacity);
      assert s'.sender.seqId == s'.number % N_SEQ_ID;
      assert Genuine(Wire(Part(number, 0), packet.value), s'.sent, s'.submitted);
    }
    forall wire | wire in s.net
      ensures Genuine(wire, s'.sent, s'.submitted)
    {
      StillGenuine(wire, s.sent, s'.sent, s.submitted, s'.submitted);
    }
  }

  lemma FieldsOfSending(s: Sender, d: Sent, i: nat)
    requires Sending(s, d, i)
    ensures s.fragSize == d.size && s.fragId == i
  {
  }

  lemma SubmitKeepsInv(s: State, s': State, link: Link, data: seq<Byte>, payloadSize: nat)
    requires Inv(s, link) && Submit(s, s', data, payloadSize)
    ensures Inv(s', link)
  {
    if |data| <= payloadSize {
      SubmitWholeKeepsInv(s, s', link, data, payloadSize);
    } else {
      SubmitCutKeepsInv(s, s', link, data, payloadSize);
    }
  }

  lemma EmitKeepsInv(s: State, s': State, link: Link)
    requires Inv(s, link) && Emit(s, s')
    ensures Inv(s', link)
  {
    hide Simulates, Sent.Packet;
    SendsChunk(s.sender, s.sent[s.number], s.sender.fragId);
  }

  lemma ArriveKeepsInv(s: State, s': State, link: Link, wire: Wire, now: int)
    requires Inv(s, link) && Arrive(s, s', link, wire, now)
    ensures Inv(s', link)
  {
    hide Simulates, Receive, WholePacket, Sent.Packet, Sent.Last;
    assert Genuine(wire, s.sent, s.submitted);
    if wire.tag.Entire? {
      WholeIsRead(wire.tag.data, s.receiver, link.headroom, now);
      WholeIsRead(wire.tag.data, s.receiver, link.headroom, 0);
    }
    StepRefines(s.receiver, s.collection, EventOf(wire.tag, now), s.sent, link.headroom, link.capacity);
  }

  lemma NextKeepsInv(s: State, s': State, link: Link, a: Action)
    requires Inv(s, link) && Next(s, s', link, a)
    ensures Inv(s', link)
  {
    match a
    case SubmitAct(data, payloadSize) => SubmitKeepsInv(s, s', link, data, payloadSize);
    case EmitAct => EmitKeepsInv(s, s', link);
    case ArriveAct(wire, now) => ArriveKeepsInv(s, s', link, wire, now);
    case TickAct(now) => StepRefines(s.receiver, s.collection, Expire(now), s.sent, link.headroom, link.capacity);
  }

  ghost predicate Behaviour(states: seq<State>, actions: seq<Action>, link: Link) {
    && |states| == |actions| + 1 && Init(states[0], link)
    && forall k | 0 <= k < |actions| :: Next(states[k], states[k + 1], link, actions[k])
  }

  lemma {:induction false} BehaviourInv(states: seq<State>, actions: seq<Action>, link: Link, k: nat)
    requires Behaviour(states, actions, link) && k < |states|
    ensures Inv(states[k], link)
  {
    if k == 0 {
      InitInv(states[0], link);
    } else {
      BehaviourInv(states, actions, link, k - 1);
      NextKeepsInv(states[k - 1], states[k], link, actions[k - 1]);
    }
  }

  /** Safety of the protocol: in every behaviour, all that is ever delivered was
      submitted to the sender, byte for byte. */
  lemma NothingForged(states: seq<State>, actions: seq<Action>, link: Link, k: nat, j: nat)
    requires Behaviour(states, actions, link) && k < |states| && j < |states[k].delivered|
    ensures states[k].delivered[j] in states[k].submitted
  {
    BehaviourInv(states, actions, link, k);
  }
}
