/** The sending side: fragment_outgoing and fragment_ready_to_send on values. */
module FragmentSend {
  import opened Buffers
  import opened FragmentHeader
  import opened FragmentReassembly
  import opened FragmentSize
  import opened FragmentSplit
  import opened FragmentWindow
  import opened Integers
  import opened Options

  /** What is left to send of the current datagram, and how it is being cut. */
  datatype Sender = Sender(seqId: int, fragSize: nat, fragId: nat, pending: seq<Byte>)

  predicate ValidSender(s: Sender) {
    0 <= s.seqId < N_SEQ_ID && (s.pending != [] ==> s.fragSize > 0)
  }

  /** The next fragment of the current datagram, if any of it is left. */
  function ReadyToSend(s: Sender): (r: (Sender, Option<seq<Byte>>))
    requires ValidSender(s)
    ensures ValidSender(r.0)
    ensures r.1.Some? <==> s.pending != []
  {
    if s.pending == [] then (s, None)
    else
      var last := |s.pending| <= s.fragSize;
      var size := if last then |s.pending| else s.fragSize;
      var kind := if last then FRAG_YES_LAST else FRAG_YES_NOTLAST;
      var packet := ToNetwork(Flags(kind, s.seqId, s.fragId, s.fragSize)) + s.pending[..size];
      (s.(fragId := s.fragId + 1, pending := s.pending[size..]), Some(packet))
  }

  /** Taking a datagram for sending: it goes out whole, or its first fragment does,
      or it is dropped because 32 fragments would not hold it. */
  function Outgoing(s: Sender, data: seq<Byte>, payloadSize: nat): (r: (Sender, Option<seq<Byte>>))
    requires ValidSender(s) && payloadSize >= 4
    ensures ValidSender(r.0)
  {
    if data == [] then (s, None)
    else if |data| > payloadSize then
      SameCount(|data|, payloadSize);
      var fragSize := OptimalFragmentSize(|data|, payloadSize);
      if |data| > fragSize * MAX_FRAGS then (s.(fragSize := fragSize), None)
      else ReadyToSend(Sender(ModuloAdd(s.seqId, 1, N_SEQ_ID), fragSize, 0, data))
    else (s, Some(WholePacket(data)))
  }

  /** Everything sent until nothing is left of the current datagram. */
  function Drain(s: Sender): seq<seq<Byte>>
    requires ValidSender(s)
    decreases |s.pending|
  {
    if s.pending == [] then []
    else
      var (rest, packet) := ReadyToSend(s);
      [packet.value] + Drain(rest)
  }

  /** The sender is about to send fragment i of d. */
  predicate Sending(s: Sender, d: Sent, i: nat) {
    && ValidSender(s) && d.Valid() && s.fragSize == d.size && s.fragId == i
    && if i <= d.Last() then d.Start(i) < |d.data| && s.pending == d.data[d.Start(i)..]
       else i == d.Last() + 1 && s.pending == []
  }

  /** The next chunk is the front of what is pending. */
  lemma ChunkIsFront(d: Sent, i: nat, pending: seq<Byte>)
    requires d.Valid() && i <= d.Last() && d.Start(i) < |d.data| && pending == d.data[d.Start(i)..]
    ensures var size := |d.Chunk(i)|;
            && 0 < size <= |pending| && pending[..size] == d.Chunk(i)
            && (if i == d.Last() then size == |pending| <= d.size && pending[size..] == []
                else size == d.size < |pending| && d.Start(i + 1) < |d.data|
                     && pending[size..] == d.data[d.Start(i + 1)..])
  {
    hide Sent.Start, Sent.Last;
    ChunkLength(d, i);
  }

  lemma SendsChunk(s: Sender, d: Sent, i: nat)
    requires Sending(s, d, i) && i <= d.Last()
    ensures var (s', packet) := ReadyToSend(s);
            packet == Some(d.Packet(s.seqId, i)) && Sending(s', d, i + 1) && s'.seqId == s.seqId
  {
    hide Flags, ToNetwork, Count, Sent.Last, Sent.Chunk, Sent.Start, Sent.End;
    ChunkIsFront(d, i, s.pending);
  }

  lemma {:induction false} DrainsFrom(s: Sender, d: Sent, i: nat)
    requires Sending(s, d, i)
    ensures |Drain(s)| == d.Last() + 1 - i
    ensures forall j: nat | j < |Drain(s)| :: Drain(s)[j] == d.Packet(s.seqId, i + j)
    decreases d.Last() + 1 - i
  {
    hide Flags, ToNetwork, Sent.Packet, Sent.Last, ReadyToSend;
    if i <= d.Last() {
      SendsChunk(s, d, i);
      var rest := ReadyToSend(s).0;
      DrainsFrom(rest, d, i + 1);
      forall j: nat | j < |Drain(s)|
        ensures Drain(s)[j] == d.Packet(s.seqId, i + j)
      {
        if j > 0 {
          assert Drain(s)[j] == Drain(rest)[j - 1];
        }
      }
    }
  }

  /** Draining a datagram sends exactly ceil(length/size) packets: fragments
      0, 1, 2, ... in order, only the final one marked last, and their payloads
      concatenate to the datagram. */
  lemma DrainsCompletely(s: Sender, d: Sent)
    requires Sending(s, d, 0)
    ensures |Drain(s)| == Count(|d.data|, d.size) <= MAX_FRAGS
    ensures forall k: nat | k < |Drain(s)| ::
              Drain(s)[k] == ToNetwork(Flags(if k == |Drain(s)| - 1 then FRAG_YES_LAST else FRAG_YES_NOTLAST,
                                             s.seqId, k, d.size)) + d.Chunk(k)
    ensures Payloads(d, |Drain(s)|) == d.data
  {
    hide Flags, ToNetwork, Drain, Count;
    DrainsFrom(s, d, 0);
    LastBounds(d);
    PayloadsConcatenate(d, d.Last() + 1);
    ChunkLength(d, d.Last());
    forall k: nat | k < |Drain(s)|
      ensures Drain(s)[k] == d.Packet(s.seqId, k)
    {
      assert Drain(s)[k] == d.Packet(s.seqId, 0 + k);
    }
  }

  /** The payloads of the first n fragments, in order. */
  function Payloads(d: Sent, n: nat): seq<Byte>
    requires d.Valid() && n <= d.Last() + 1
  {
    if n == 0 then [] else Payloads(d, n - 1) + d.Chunk(n - 1)
  }

  lemma {:induction false} PayloadsConcatenate(d: Sent, n: nat)
    requires d.Valid() && n <= d.Last() + 1
    ensures var end := if n == 0 then 0 else d.End(n - 1);
            end <= |d.data| && Payloads(d, n) == d.data[..end]
  {
    if n > 0 {
      PayloadsConcatenate(d, n - 1);
      ChunkLength(d, n - 1);
      if n > 1 {
        ChunkLength(d, n - 2);
      }
    }
  }

  lemma SendingFromStart(seqId: int, d: Sent)
    requires d.Valid() && 0 <= seqId < N_SEQ_ID
    ensures Sending(Sender(seqId, d.size, 0, d.data), d, 0)
  {
    assert d.data[d.Start(0)..] == d.data;
  }

  lemma TakesSeveral(d: Sent)
    requires d.Valid() && |d.data| > d.size
    ensures d.Last() >= 1
  {
    hide Count;
    CountAtMost(|d.data|, d.size, 1);
  }

  /** Accepting a datagram for fragmentation starts its drain: it is cut into
      chunks of the size chosen, and fragment 0 goes out at once. */
  lemma OutgoingStarts(s: Sender, data: seq<Byte>, payloadSize: nat)
    requires ValidSender(s) && 4 <= payloadSize <= MAX_FRAG_SIZE + 3 && |data| > payloadSize
    ensures var d := Sent(data, OptimalFragmentSize(|data|, payloadSize));
            var (s', packet) := Outgoing(s, data, payloadSize);
            if |data| > RoundDown(payloadSize) * MAX_FRAGS
            then packet == None && s' == s.(fragSize := d.size)
            else d.Valid() && d.Last() >= 1 && s'.seqId == ModuloAdd(s.seqId, 1, N_SEQ_ID)
                 && packet == Some(d.Packet(s'.seqId, 0)) && Sending(s', d, 1)
  {
    hide OptimalFragmentSize, RoundDown, ReadyToSend, Sending, Sent.Last;
    var d := Sent(data, OptimalFragmentSize(|data|, payloadSize));
    SameCount(|data|, payloadSize);
    if |data| <= d.size * MAX_FRAGS {
      TakesSeveral(d);
      var seqId := ModuloAdd(s.seqId, 1, N_SEQ_ID);
      SendingFromStart(seqId, d);
      SendsChunk(Sender(seqId, d.size, 0, data), d, 0);
    }
  }

  lemma WholeLength(data: seq<Byte>)
    ensures |WholePacket(data)| == |data| + 4
  {
  }

  /** No packet is longer than the payload size and its header. */
  lemma PacketsFit(s: Sender, data: seq<Byte>, payloadSize: nat)
    requires ValidSender(s) && payloadSize >= 4
    ensures var (s', packet) := Outgoing(s, data, payloadSize);
            && (packet.Some? ==> |packet.value| <= payloadSize + 4)
            && (s.pending == [] ==> forall i :: 0 <= i < |Drain(s')| ==> |Drain(s')[i]| <= payloadSize + 4)
  {
    hide ReadyToSend, OptimalFragmentSize, WholePacket, Drain;
    WholeLength(data);
    if s.pending == [] {
      NothingToDrain(s);
    }
    var s' := Outgoing(s, data, payloadSize).0;
    if |data| > payloadSize {
      SameCount(|data|, payloadSize);
      var size := OptimalFragmentSize(|data|, payloadSize);
      if |data| <= size * MAX_FRAGS {
        var start := Sender(ModuloAdd(s.seqId, 1, N_SEQ_ID), size, 0, data);
        OnePacketFits(start);
        DrainFits(s');
      } else if s'.pending == [] {
        NothingToDrain(s');
      }
    }
  }

  lemma NothingToDrain(s: Sender)
    requires ValidSender(s) && s.pending == []
    ensures Drain(s) == []
  {
  }

  lemma OnePacketFits(s: Sender)
    requires ValidSender(s)
    ensures var (s', packet) := ReadyToSend(s);
            s'.fragSize == s.fragSize && (packet.Some? ==> |packet.value| <= s.fragSize + 4)
  {
  }

  lemma {:induction false} DrainFits(s: Sender)
    requires ValidSender(s)
    ensures forall i :: 0 <= i < |Drain(s)| ==> |Drain(s)[i]| <= s.fragSize + 4
    decreases |s.pending|
  {
    if s.pending != [] {
      OnePacketFits(s);
      hide ToNetwork, Flags;
      DrainFits(ReadyToSend(s).0);
    }
  }
}
