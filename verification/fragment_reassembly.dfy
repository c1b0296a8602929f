/** The receiver over whole runs.  Reassembly is specified as a plain map from
    datagram numbers to the fragments received so far; the circular window of 25
    slots, with eight-bit sequence ids and 32-bit maps, refines it. */
module FragmentReassembly {
  import Bits
  import opened Buffers
  import opened FragmentHeader
  import opened FragmentReceive
  import opened FragmentSplit
  import opened FragmentWindow
  import opened Integers

  /** The fragments of one datagram received so far, and when the latest came. */
  datatype Partial = Partial(got: set<nat>, stamp: int)

  /** The newest number seen, and the partial datagrams among it and the 24 before it. */
  datatype Collection = Collection(head: int, open: map<int, Partial>)

  /** What reaches the receiver. */
  datatype Event =
    | Fragment(n: int, i: nat, now: int)  // fragment i of datagram number n
    | Whole(data: seq<Byte>)              // a datagram that was not fragmented
    | Expire(now: int)                    // the periodic time-to-live check

  function Got(c: Collection, n: int): set<nat> {
    if n in c.open then c.open[n].got else {}
  }

  /** Looking up n moves the head and forgets what leaves the window. */
  function MoveHead(c: Collection, n: int): Collection {
    var head := NextHead(c.head, n);
    if Abs(n - c.head) >= N_FRAG_BUF then Collection(head, map[])
    else Collection(head, map m | m in c.open && InWindow(head, m) :: c.open[m])
  }

  ghost predicate AllValid(sent: map<int, Sent>) {
    forall n | n in sent :: sent[n].Valid()
  }

  /** The events the network can produce from what was sent, as long as the
      numbers can be told apart. */
  ghost predicate Possible(c: Collection, e: Event, sent: map<int, Sent>)
    requires AllValid(sent)
  {
    e.Fragment? ==> e.n in sent && e.i <= sent[e.n].Last() && Distinguishable(c.head, e.n)
  }

  /** The specification of one step.  A fragment must fit the room left in an
      assembly buffer. */
  function Collect(c: Collection, e: Event, sent: map<int, Sent>, room: int): (Collection, Outcome)
    requires AllValid(sent) && Possible(c, e, sent)
  {
    match e
    case Whole(data) => (c, Deliver(data))
    case Expire(now) =>
      (c.(open := map n | n in c.open && c.open[n].stamp + FRAG_TTL_SEC > now :: c.open[n]), Empty)
    case Fragment(n, i, now) =>
      Add(MoveHead(c, n), sent[n], n, i, now, room)
  }

  /** Recording fragment i of datagram n, or delivering the datagram if none is missing. */
  function Add(c: Collection, d: Sent, n: int, i: nat, now: int, room: int): (Collection, Outcome)
    requires d.Valid() && i <= d.Last()
  {
    var got := Got(c, n) + {i};
    if d.Start(i) + |d.Chunk(i)| > room then (c, Rejected)
    else if Complete(d, got) then (c.(open := c.open - {n}), Deliver(d.data))
    else (c.(open := c.open[n := Partial(got, now)]), Empty)
  }

  /** The same step of the code. */
  function Step(w: Window, e: Event, sent: map<int, Sent>, headroom: int): (r: (Window, Outcome))
    requires AllValid(sent) && ValidSlots(w, headroom)
    requires e.Fragment? ==> e.n in sent && e.i <= sent[e.n].Last()
    ensures ValidSlots(r.0, headroom)
  {
    match e
    case Whole(data) => Receive(w, WholePacket(data), headroom, 0)
    case Expire(now) => (Reap(w, now), Empty)
    case Fragment(n, i, now) => Receive(w, sent[n].Packet(n % N_SEQ_ID, i), headroom, now)
  }

  /** An unfragmented datagram on the wire. */
  function WholePacket(data: seq<Byte>): seq<Byte> {
    ToNetwork(Flags(FRAG_WHOLE, 0, 0, 0)) + data
  }

  /** The simulation relation: each number in the window has its own slot, and the
      slot holds exactly the fragments collected for it. */
  ghost predicate Simulates(w: Window, c: Collection, sent: map<int, Sent>, headroom: int, capacity: int)
    requires AllValid(sent)
  {
    && ValidSlots(w, headroom) && headroom <= capacity
    && (forall k | 0 <= k < N_FRAG_BUF :: |w.slots[k].buf.data| == capacity)
    && Stands(w, c.head)
    && (forall n | n in c.open :: n in sent && InWindow(c.head, n) && c.open[n].got != {})
    && (forall n | InWindow(c.head, n) :: SlotAgrees(w.slots[SlotOf(w, c.head, n)], c, n, sent, headroom))
  }

  ghost predicate SlotAgrees(slot: Slot, c: Collection, n: int, sent: map<int, Sent>, headroom: int)
    requires AllValid(sent)
  {
    if n in sent
    then Tracks(slot, sent[n], Got(c, n), headroom) && (n in c.open ==> slot.timestamp == c.open[n].stamp)
    else !slot.defined
  }

  /** A fragment off the wire is joined, under its own id and size, to the slot
      looked up for its datagram. */
  lemma PacketIsRead(d: Sent, n: int, i: nat, w: Window, headroom: int, now: int)
    requires d.Valid() && i <= d.Last() && ValidSlots(w, headroom)
    requires ValidSlots(GetBuf(w, n % N_SEQ_ID).0, headroom)
    ensures Receive(w, d.Packet(n % N_SEQ_ID, i), headroom, now) == JoinAt(w, d, n, i, headroom, now)
  {
    hide Bits.Or, Bits.And, Flags, Join, GetBuf, ToNetwork, FromNetwork, Sent.Chunk, Sent.Last;
    var seqId := n % N_SEQ_ID;
    var header := ToNetwork(Flags(d.Kind(i), seqId, i, d.size));
    var packet := d.Packet(seqId, i);
    assert packet[..HEADER_SIZE] == header && packet[HEADER_SIZE..] == d.Chunk(i);
    var flags := FromNetwork(header);
    HeaderRoundTrip(d.Kind(i), seqId, i, d.size, flags);
    ChunkLength(d, i);
    SizeIsAligned(d.size);
  }

  function JoinAt(w: Window, d: Sent, n: int, i: nat, headroom: int, now: int): (Window, Outcome)
    requires d.Valid() && i <= d.Last() && ValidWindow(w)
    requires ValidSlots(GetBuf(w, n % N_SEQ_ID).0, headroom)
  {
    var (w', k) := GetBuf(w, n % N_SEQ_ID);
    var (slot, outcome) := Join(w'.slots[k], d.Kind(i), i, d.size, d.Chunk(i), headroom, now);
    (w'.(slots := w'.slots[k := slot]), outcome)
  }

  lemma SizeIsAligned(size: nat)
    ensures Bits.And(size, FRAG_SIZE_ROUND_MASK) == size % 4
  {
    Powers();
    Bits.AndLow(size, 2);
  }

  lemma WholeIsRead(data: seq<Byte>, w: Window, headroom: int, now: int)
    requires ValidSlots(w, headroom)
    ensures Receive(w, WholePacket(data), headroom, now) == (w, Deliver(data))
  {
    hide Bits.Or, Bits.And, Flags, ToNetwork, FromNetwork;
    var header := ToNetwork(Flags(FRAG_WHOLE, 0, 0, 0));
    var packet := WholePacket(data);
    assert packet[..HEADER_SIZE] == header && packet[HEADER_SIZE..] == data;
    var flags := FromNetwork(header);
    HeaderRoundTrip(FRAG_WHOLE, 0, 0, 0, flags);
    SpuriousTestSeesSixBits(flags);
  }

  /** What is collected of a number that stays in the window stays as it is. */
  lemma StaysAgreed(slot: Slot, c: Collection, n: int, m: int, sent: map<int, Sent>, headroom: int)
    requires AllValid(sent) && SlotAgrees(slot, c, m, sent, headroom)
    requires Abs(n - c.head) < N_FRAG_BUF && InWindow(NextHead(c.head, n), m)
    ensures SlotAgrees(slot, MoveHead(c, n), m, sent, headroom)
  {
    hide Tracks;
  }

  /** Of a number that is new in the window nothing has been collected. */
  lemma NewAgrees(slot: Slot, c: Collection, n: int, m: int, sent: map<int, Sent>, headroom: int)
    requires AllValid(sent) && !slot.defined && !(Abs(n - c.head) < N_FRAG_BUF && m in c.open)
    ensures SlotAgrees(slot, MoveHead(c, n), m, sent, headroom)
  {
    hide Holds;
  }

  lemma MoveSimulates(w: Window, c: Collection, n: int, sent: map<int, Sent>, headroom: int, capacity: int)
    requires AllValid(sent) && Simulates(w, c, sent, headroom, capacity) && Distinguishable(c.head, n)
    ensures var (w', k) := GetBuf(w, n % N_SEQ_ID);
            var c' := MoveHead(c, n);
            Simulates(w', c', sent, headroom, capacity) && InWindow(c'.head, n) && k == SlotOf(w', c'.head, n)
  {
    hide GetBuf, SlotAgrees, SlotOf;
    LookupRefinesMap(w, c.head, n);
    GetBufKeepsBuffers(w, n % N_SEQ_ID);
    var (w', k) := GetBuf(w, n % N_SEQ_ID);
    var head := NextHead(c.head, n);
    forall m | InWindow(head, m)
      ensures SlotAgrees(w'.slots[SlotOf(w', head, m)], MoveHead(c, n), m, sent, headroom)
    {
      if Abs(n - c.head) < N_FRAG_BUF && InWindow(c.head, m) {
        StaysAgreed(w.slots[SlotOf(w, c.head, m)], c, n, m, sent, headroom);
      } else {
        NewAgrees(w'.slots[SlotOf(w', head, m)], c, n, m, sent, headroom);
      }
    }
  }

  /** One step of the code is one step of the specification, with the same outcome. */
  lemma StepRefines(w: Window, c: Collection, e: Event, sent: map<int, Sent>, headroom: int, capacity: int)
    requires AllValid(sent) && Simulates(w, c, sent, headroom, capacity) && Possible(c, e, sent)
    ensures var (w', outcome) := Step(w, e, sent, headroom);
            var (c', expected) := Collect(c, e, sent, capacity - headroom);
            Simulates(w', c', sent, headroom, capacity) && outcome == expected
  {
    match e
    case Whole(data) =>
      WholeIsRead(data, w, headroom, 0);
    case Expire(now) =>
      var w' := Reap(w, now);
      var c' := Collect(c, e, sent, capacity - headroom).0;
      forall n | InWindow(c.head, n)
        ensures SlotAgrees(w'.slots[SlotOf(w', c.head, n)], c', n, sent, headroom)
      {
        assert SlotAgrees(w.slots[SlotOf(w, c.head, n)], c, n, sent, headroom);
      }
    case Fragment(n, i, now) =>
      MoveSimulates(w, c, n, sent, headroom, capacity);
      PacketIsRead(sent[n], n, i, w, headroom, now);
      JoinSimulates(GetBuf(w, n % N_SEQ_ID).0, MoveHead(c, n), n, i, now, sent, headroom, capacity);
  }

  /** Joining a fragment touches one slot, and so the fragments of one datagram. */
  lemma JoinSimulates(w: Window, c: Collection, n: int, i: nat, now: int, sent: map<int, Sent>, headroom: int,
            capacity: int)
    requires AllValid(sent) && Simulates(w, c, sent, headroom, capacity)
    requires n in sent && i <= sent[n].Last() && InWindow(c.head, n)
    ensures var d := sent[n];
            var k := SlotOf(w, c.head, n);
            var (slot, outcome) := Join(w.slots[k], d.Kind(i), i, d.size, d.Chunk(i), headroom, now);
            var w' := w.(slots := w.slots[k := slot]);
            var (c', expected) := Add(c, d, n, i, now, capacity - headroom);
            Simulates(w', c', sent, headroom, capacity) && outcome == expected
  {
    hide Join, Tracks, Sent.Chunk, Sent.Last, Sent.Start;
    var d := sent[n];
    var k := SlotOf(w, c.head, n);
    assert SlotAgrees(w.slots[k], c, n, sent, headroom);
    JoinRecords(w.slots[k], d, Got(c, n), i, headroom, now);
    var slot := Join(w.slots[k], d.Kind(i), i, d.size, d.Chunk(i), headroom, now).0;
    var w' := w.(slots := w.slots[k := slot]);
    var c' := Add(c, d, n, i, now, capacity - headroom).0;
    assert SlotAgrees(slot, c', n, sent, headroom);
    forall m | InWindow(c.head, m)
      ensures SlotAgrees(w'.slots[SlotOf(w', c.head, m)], c', m, sent, headroom)
    {
      SlotsAreDistinct(w, c.head, n, m);
      assert SlotAgrees(w.slots[SlotOf(w, c.head, m)], c, m, sent, headroom);
    }
  }
}
