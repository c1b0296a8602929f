/** What the receiver does with fragments whose number cannot be told apart: for every
    such number it joins fragments of two datagrams. */
module FragmentMix {
  import opened Bits
  import opened Buffers
  import opened FragmentHeader
  import FragmentProtocol
  import opened FragmentReassembly
  import opened FragmentReceive
  import opened FragmentRuns
  import opened FragmentSize
  import opened FragmentSplit
  import opened FragmentWindow
  import opened Integers
  import opened Sequences

  /** The number that n is taken for. */
  function Mistaken(head: int, n: int): int {
    head + ModuloSubtract(n % N_SEQ_ID, head % N_SEQ_ID, N_SEQ_ID)
  }

  lemma MistakenFor(head: int, n: int)
    requires !Distinguishable(head, n)
    ensures var m := Mistaken(head, n);
            m != n && Abs(m - head) < N_FRAG_BUF && m % N_SEQ_ID == n % N_SEQ_ID && Distinguishable(head, m)
  {
    hide ModuloSubtract;
    ClassifiedCorrectly(head, n);
    var turns := ShortestPath(n, head, N_SEQ_ID);
    var m := Mistaken(head, n);
    assert m == (n / N_SEQ_ID - turns) * N_SEQ_ID + n % N_SEQ_ID;
    RemainderUnique(m, N_SEQ_ID, n / N_SEQ_ID - turns, n % N_SEQ_ID);
  }

  /** Datagrams that are cut alike. */
  ghost predicate CutAlike(d: Sent, e: Sent) {
    d.Valid() && e.Valid() && d.size == e.size && d.Last() == e.Last()
  }

  /** Datagram d with fragment i taken from e. */
  function Mixed(d: Sent, e: Sent, i: nat): Sent
    requires d.Valid() && e.Valid() && i <= e.Last() && i <= d.Last()
  {
    ChunkLength(d, i);
    Sent(d.data[..d.Start(i)] + e.Chunk(i) + (if i < d.Last() then d.data[d.End(i)..] else []), d.size)
  }

  lemma MixedIsValid(d: Sent, e: Sent, i: nat)
    requires CutAlike(d, e) && i <= d.Last()
    ensures var x := Mixed(d, e, i);
            && CutAlike(x, d) && x.Chunk(i) == e.Chunk(i)
            && |x.data| == if i < d.Last() then |d.data| else |e.data|
  {
    hide Count;
    ChunkLength(d, i);
    ChunkLength(e, i);
    var x := Mixed(d, e, i);
    assert |x.data| == if i < d.Last() then |d.data| else |e.data|;
    ChunkLength(x, i);
  }

  lemma MixedKeeps(d: Sent, e: Sent, i: nat, j: nat)
    requires CutAlike(d, e) && i <= d.Last() && j <= d.Last() && j != i
    ensures CutAlike(Mixed(d, e, i), d) && Mixed(d, e, i).Chunk(j) == d.Chunk(j)
  {
    hide Count, Sent.Last;
    MixedIsValid(d, e, i);
    var x := Mixed(d, e, i);
    ChunkLength(d, i);
    ChunkLength(e, i);
    ChunkLength(d, j);
    ChunkLength(x, j);
    assert x.Start(j) == d.Start(j) && x.End(j) == d.End(j);
    if j < i {
      ChunksAreApart(d, j, i);
      SliceBefore(d.data, d.Start(i), x.data, d.Start(j), d.End(j));
    } else {
      ChunksAreApart(d, i, j);
      SliceAfter(d.data, d.End(i), x.data, d.Start(j), d.End(j));
    }
  }

  lemma SamePacket(d: Sent, e: Sent, seqId: nat, i: nat)
    requires CutAlike(d, e) && i <= d.Last() && d.Chunk(i) == e.Chunk(i)
    ensures d.Packet(seqId, i) == e.Packet(seqId, i)
  {
    hide Flags, ToNetwork, Sent.Last;
    assert d.Kind(i) == e.Kind(i);
  }

  /** A slot that holds fragments of d other than i holds them as fragments of the mix. */
  lemma TracksMixed(slot: Slot, d: Sent, e: Sent, i: nat, got: set<nat>, headroom: int)
    requires CutAlike(d, e) && i <= d.Last() && i !in got && Tracks(slot, d, got, headroom)
    requires Complete(d, got + {i})
    ensures CutAlike(Mixed(d, e, i), d) && Tracks(slot, Mixed(d, e, i), got, headroom)
  {
    hide Count, Sent.Last, Sent.Chunk, HasLength, Mixed, Complete, Has, Pow2;
    MixedIsValid(d, e, i);
    if slot.defined {
      MixedLength(slot.buf.len, d, e, i, got);
      forall j | j in got
        ensures j <= d.Last() && HasChunk(slot.buf, Mixed(d, e, i), j)
      {
        MixedKeeps(d, e, i, j);
      }
    }
  }

  lemma MixedLength(len: int, d: Sent, e: Sent, i: nat, got: set<nat>)
    requires CutAlike(d, e) && i <= d.Last() && i !in got && HasLength(len, d, got)
    requires Complete(d, got + {i})
    ensures CutAlike(Mixed(d, e, i), d) && HasLength(len, Mixed(d, e, i), got)
  {
    hide Count, Sent.Last, Sent.Chunk, Mixed;
    MixedIsValid(d, e, i);
    var x := Mixed(d, e, i);
    ChunkLength(x, x.Last());
    assert i < d.Last() ==> d.Last() in got;
  }

  /** The window holds fragments of m as well as fragments of the mix. */
  lemma SimulatesMixed(w: Window, c: Collection, m: int, e: Sent, i: nat, sent: map<int, Sent>,
                       headroom: int, capacity: int)
    requires AllValid(sent) && Simulates(w, c, sent, headroom, capacity) && m in c.open
    requires m in sent && CutAlike(sent[m], e) && i <= e.Last() && i !in Got(c, m) && Complete(sent[m], Got(c, m) + {i})
    ensures AllValid(sent[m := Mixed(sent[m], e, i)])
    ensures Simulates(w, c, sent[m := Mixed(sent[m], e, i)], headroom, capacity)
  {
    hide Tracks, Mixed, Complete, Sent.Last;
    MixedIsValid(sent[m], e, i);
    var sent' := sent[m := Mixed(sent[m], e, i)];
    forall k | InWindow(c.head, k)
      ensures SlotAgrees(w.slots[SlotOf(w, c.head, k)], c, k, sent', headroom)
    {
      assert SlotAgrees(w.slots[SlotOf(w, c.head, k)], c, k, sent, headroom);
      if k == m {
        TracksMixed(w.slots[SlotOf(w, c.head, m)], sent[m], e, i, Got(c, m), headroom);
      }
    }
  }

  /** The premise of safety is needed for every number: whenever n cannot be told apart,
      a window that holds all but one fragment of the datagram n is taken for is
      completed by a fragment of n, and delivers the mix of the two. */
  lemma IndistinguishableMix(w: Window, c: Collection, n: int, e: Sent, i: nat, sent: map<int, Sent>,
                             headroom: int, capacity: int, now: int)
    requires AllValid(sent) && Simulates(w, c, sent, headroom, capacity) && !Distinguishable(c.head, n)
    requires var m := Mistaken(c.head, n);
             && m in c.open && m in sent && CutAlike(sent[m], e)
             && i <= e.Last() && i !in Got(c, m) && Complete(sent[m], Got(c, m) + {i})
             && |Mixed(sent[m], e, i).data| <= capacity - headroom
    ensures var m := Mistaken(c.head, n);
            m != n && Receive(w, e.Packet(n % N_SEQ_ID, i), headroom, now).1 == Deliver(Mixed(sent[m], e, i).data)
  {
    hide Receive, Collect, Mixed, Complete, Sent.Packet, Sent.Last;
    var m := Mistaken(c.head, n);
    MistakenFor(c.head, n);
    var x := Mixed(sent[m], e, i);
    MixedIsValid(sent[m], e, i);
    SimulatesMixed(w, c, m, e, i, sent, headroom, capacity);
    SamePacket(x, e, n % N_SEQ_ID, i);
    SameComplete(x, sent[m], Got(c, m) + {i});
    var event, sent' := Fragment(m, i, now), sent[m := x];
    StepRefines(w, c, event, sent', headroom, capacity);
    OneMore(c, event, sent', capacity - headroom, m);
  }

  lemma SameComplete(d: Sent, e: Sent, got: set<nat>)
    requires CutAlike(d, e)
    ensures Complete(d, got) <==> Complete(e, got)
  {
  }

  /** And nothing need be there before: the first fragment of n and the last one of the
      datagram it is taken for are joined, wherever the window is. */
  lemma TwoAreJoined(w: Window, c: Collection, n: int, d: Sent, e: Sent, sent: map<int, Sent>,
                     headroom: int, capacity: int, now: int)
    requires AllValid(sent) && Simulates(w, c, sent, headroom, capacity) && !Distinguishable(c.head, n)
    requires Mistaken(c.head, n) !in sent && CutAlike(d, e) && d.Last() == 1 && |d.data| <= capacity - headroom
    ensures var m := Mistaken(c.head, n);
            var (w', first) := Receive(w, e.Packet(n % N_SEQ_ID, 0), headroom, now);
            && m != n && first == Empty && ValidSlots(w', headroom)
            && Receive(w', d.Packet(m % N_SEQ_ID, 1), headroom, now).1 == Deliver(e.Chunk(0) + d.Chunk(1))
  {
    hide Receive, Collect, Mixed, Complete, Sent.Packet, Sent.Last;
    var m := Mistaken(c.head, n);
    MistakenFor(c.head, n);
    var x := Mixed(d, e, 0);
    MixedIsValid(d, e, 0);
    MixedKeeps(d, e, 0, 1);
    SamePacket(x, e, n % N_SEQ_ID, 0);
    SamePacket(x, d, m % N_SEQ_ID, 1);
    TwoFragments(w, c, m, x, sent, headroom, capacity, now);
    TwoChunks(x);
  }

  lemma TwoChunks(d: Sent)
    requires d.Valid() && d.Last() == 1
    ensures d.data == d.Chunk(0) + d.Chunk(1)
  {
    hide Sent.Last;
    ChunkLength(d, 0);
    ChunkLength(d, 1);
  }

  lemma TwoFragments(w: Window, c: Collection, m: int, d: Sent, sent: map<int, Sent>,
                     headroom: int, capacity: int, now: int)
    requires AllValid(sent) && Simulates(w, c, sent, headroom, capacity) && Distinguishable(c.head, m)
    requires m !in sent && d.Valid() && d.Last() == 1 && |d.data| <= capacity - headroom
    ensures var (w', first) := Receive(w, d.Packet(m % N_SEQ_ID, 0), headroom, now);
            && first == Empty && ValidSlots(w', headroom)
            && Receive(w', d.Packet(m % N_SEQ_ID, 1), headroom, now).1 == Deliver(d.data)
  {
    hide Receive, Sent.Packet, Sent.Last, Collect, SlotAgrees, SlotOf;
    var sent' := sent[m := d];
    FragmentProtocol.MoreSent(w, c, sent, m, d, headroom, capacity);
    var one, two := Fragment(m, 0, now), Fragment(m, 1, now);
    StepRefines(w, c, one, sent', headroom, capacity);
    OneMore(c, one, sent', capacity - headroom, m);
    assert 1 !in Got(c, m) + {0};
    var c' := Collect(c, one, sent', capacity - headroom).0;
    FirstMoves(c, m, d, now, sent', capacity - headroom);
    StepRefines(Step(w, one, sent', headroom).0, c', two, sent', headroom, capacity);
    OneMore(c', two, sent', capacity - headroom, m);
  }

  lemma FirstMoves(c: Collection, m: int, d: Sent, now: int, sent: map<int, Sent>, room: int)
    requires AllValid(sent) && m in sent && sent[m] == d && Possible(c, Fragment(m, 0, now), sent)
    requires m in c.open ==> InWindow(c.head, m)
    ensures var head := Collect(c, Fragment(m, 0, now), sent, room).0.head; Abs(m - head) < N_FRAG_BUF && m <= head
  {
  }
}
