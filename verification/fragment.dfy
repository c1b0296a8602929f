/** fragment.c in its own form: structs updated in place, each operation equal to
    the function on values that the theorems are about. */
module FragmentMasters {
  import opened Bits
  import opened Buffers
  import opened Frames
  import FragmentHeader
  import FragmentReceive
  import FragmentRuns
  import FragmentSend
  import FragmentSize
  import opened FragmentWindow
  import opened Integers

  const FRAME_HEADROOM_MARKER_FRAGMENT: nat := 2

  class Fragment {
    var defined: bool
    var maxFragSize: int
    var received: nat
    var timestamp: int
    const buf: Buffer

    function Value(): Slot
      reads this, buf, buf.data
    {
      Slot(defined, maxFragSize, received, timestamp, buf.Value())
    }

    constructor (capacity: nat)
      requires capacity < BUF_SIZE_MAX
      ensures fresh(buf) && fresh(buf.data) && buf.Valid() && buf.data.Length == capacity
      ensures !defined
    {
      defined, maxFragSize, received, timestamp := false, 0, 0, 0;
      buf := new Buffer(capacity);
    }

    /** The first-fragment test, and what it sets up. */
    method Open(size: nat, headroom: int)
      requires buf.Valid() && 0 <= headroom <= buf.data.Length
      modifies this, buf`offset, buf`len
      ensures buf.Valid() && defined && Value() == FragmentReceive.OpenSlot(old(Value()), size, headroom)
    {
      if !defined || maxFragSize != size {
        defined := true;
        maxFragSize := size;
        received := 0;
        var started := buf.Init(headroom);
        assert started;
      }
    }

    /** The part of fragment_incoming that works on one slot; false is a fragment
        that overflows the assembly buffer. */
    method Join(kind: nat, n: nat, size: nat, src: Buffer, headroom: int, now: int) returns (ok: bool)
      requires buf.Valid() && src.Valid() && src != buf && src.data != buf.data
      requires 0 <= headroom <= buf.data.Length
      modifies this, buf`offset, buf`len, buf.data
      ensures buf.Valid() && Value().buf.Valid()
      ensures var (slot, outcome) := FragmentReceive.Join(old(Value()), kind, n, size, old(src.Value().Content()),
                headroom, now);
              && Value() == slot && ok == !outcome.Rejected?
              && (outcome.Deliver? <==> ok && !defined)
              && (outcome.Deliver? ==> buf.Value().Content() == outcome.content)
    {
      hide Or, And, FragmentReceive.MapBits, FragmentReceive.OpenSlot, Buf.Filled;
      Open(size, headroom);
      assert src.Value().Content()[0..src.len] == src.Value().Content();
      ok := buf.CopyRange(n * size, src, 0, src.len);
      if !ok {
        return;
      }
      received := Or(received, FragmentReceive.MapBits(kind, n));
      timestamp := now;
      if And(received, FragmentReceive.FRAG_MAP_MASK) == FragmentReceive.FRAG_MAP_MASK {
        defined := false;
      }
    }
  }

  class FragmentList {
    var seqId: int
    var index: int
    const fragments: seq<Fragment>
    ghost const bufs: seq<Buffer>
    ghost const datas: seq<array<Byte>>

    /** fragment_init clears the list; fragment_list_buf_init allocates the buffers. */
    constructor (capacity: nat)
      requires capacity < BUF_SIZE_MAX
      ensures Valid() && FragmentRuns.Initial(Value(), 0, capacity)
      ensures forall i :: 0 <= i < N_FRAG_BUF ==> fresh(fragments[i]) && fresh(bufs[i]) && fresh(datas[i])
    {
      var fs: seq<Fragment> := [];
      ghost var bs: seq<Buffer>, ds: seq<array<Byte>> := [], [];
      while |fs| < N_FRAG_BUF
        invariant |fs| == |bs| == |ds| <= N_FRAG_BUF
        invariant forall i :: 0 <= i < |fs| ==>
                    && fresh(fs[i]) && fresh(bs[i]) && fresh(ds[i]) && !fs[i].defined
                    && fs[i].buf == bs[i] && bs[i].data == ds[i] && bs[i].Valid() && ds[i].Length == capacity
        invariant forall i, j :: 0 <= i < j < |fs| ==> fs[i] != fs[j] && bs[i] != bs[j] && ds[i] != ds[j]
      {
        var f := new Fragment(capacity);
        fs, bs, ds := fs + [f], bs + [f.buf], ds + [f.buf.data];
      }
      fragments, bufs, datas := fs, bs, ds;
      seqId, index := 0, 0;
    }

    ghost predicate Valid()
      reads this, bufs, datas
    {
      && |fragments| == |bufs| == |datas| == N_FRAG_BUF
      && (forall i :: 0 <= i < N_FRAG_BUF ==>
            fragments[i].buf == bufs[i] && bufs[i].data == datas[i] && bufs[i].Valid())
      && (forall i, j :: 0 <= i < j < N_FRAG_BUF ==>
            fragments[i] != fragments[j] && bufs[i] != bufs[j] && datas[i] != datas[j])
      && 0 <= seqId < N_SEQ_ID && 0 <= index < N_FRAG_BUF
    }

    ghost function Value(): (w: Window)
      requires Valid()
      reads this, fragments, bufs, datas
      ensures ValidWindow(w)
    {
      Window(seqId, index,
             seq(N_FRAG_BUF, i requires Valid() && 0 <= i < N_FRAG_BUF reads this, fragments, bufs, datas =>
        Slot(fragments[i].defined, fragments[i].maxFragSize, fragments[i].received, fragments[i].timestamp,
                  bufs[i].Value())))
    }

    /** Every assembly buffer is longer than the headroom. */
    ghost predicate HasHeadroom(headroom: int)
      reads this, bufs, datas
    {
      Valid() && headroom >= 0 && forall i :: 0 <= i < N_FRAG_BUF ==> headroom <= datas[i].Length
    }

    lemma HeadroomInSlots(headroom: int)
      requires HasHeadroom(headroom)
      ensures FragmentReceive.ValidSlots(Value(), headroom)
    {
    }

    /** The loop that marks every slot unused. */
    method ForgetAll()
      requires Valid()
      modifies fragments
      ensures Valid() && Value() == old(Value()).(slots := ClearAll(old(Value()).slots))
    {
      ghost var before := Value();
      for i := 0 to N_FRAG_BUF
        invariant Valid() && seqId == before.seqId && index == before.index
        invariant forall j :: 0 <= j < N_FRAG_BUF ==>
                    fragments[j].Value() == if j < i then before.slots[j].(defined := false) else before.slots[j]
      {
        fragments[i].defined := false;
      }
      assert Value().slots == ClearAll(before.slots);
    }

    /** Starting the window afresh at an id out of reach. */
    method Restart(id: int)
      requires Valid() && 0 <= id < N_SEQ_ID
      modifies this, fragments
      ensures Valid() && Value() == Window(id, 0, ClearAll(old(Value()).slots))
    {
      ForgetAll();
      index := 0;
      seqId := id;
      assert Value().slots == ClearAll(old(Value()).slots);
    }

    /** One turn of the loop that moves the window head forward. */
    method Advance()
      requires Valid()
      modifies this, fragments
      ensures Valid() && Value() == SlideOne(old(Value()))
    {
      hide ModuloAdd;
      index := ModuloAdd(index, 1, N_FRAG_BUF);
      fragments[index].defined := false;
      seqId := ModuloAdd(seqId, 1, N_SEQ_ID);
      assert Value().slots == SlideOne(old(Value())).slots;
    }

    /** The loop that moves the window head forward to an id ahead of it. */
    method MoveHead(ahead: int) returns (diff: int)
      requires Valid()
      modifies this, fragments
      ensures Valid() && diff == if ahead > 0 then 0 else ahead
      ensures Value() == if ahead > 0 then Slide(old(Value()), ahead) else old(Value())
    {
      hide Value, SlideOne;
      diff := ahead;
      while diff > 0
        invariant Valid() && (if ahead > 0 then 0 <= diff else diff == ahead)
        invariant if ahead > 0 then Slide(Value(), diff) == Slide(old(Value()), ahead) else Value() == old(Value())
      {
        Advance();
        diff := diff - 1;
      }
    }

    /** fragment_list_get_buf */
    method GetBuf(id: int) returns (k: int)
      requires Valid() && 0 <= id < N_SEQ_ID
      modifies this, fragments
      ensures Valid() && (Value(), k) == FragmentWindow.GetBuf(old(Value()), id)
    {
      var diff := ModuloSubtract(id, seqId, N_SEQ_ID);
      if Abs(diff) >= N_FRAG_BUF {
        Restart(id);
        diff := 0;
      }
      diff := MoveHead(diff);
      k := ModuloAdd(index, diff, N_FRAG_BUF);
    }

    /** Joining a fragment to slot k touches no other slot. */
    method JoinAt(k: int, kind: nat, n: nat, size: nat, src: Buffer, headroom: int, now: int) returns (complete: bool)
      requires Valid() && 0 <= k < N_FRAG_BUF && src.Valid() && src !in bufs && src.data !in datas
      requires 0 <= headroom <= datas[k].Length
      modifies fragments[k], bufs[k], datas[k]
      ensures Valid()
      ensures var w: Window := old(Value());
              w.slots[k].buf.Valid() && headroom <= |w.slots[k].buf.data|
              && var (slot, outcome) := FragmentReceive.Join(w.slots[k], kind, n, size, old(src.Value().Content()),
                        headroom, now);
                 && Value() == w.(slots := w.slots[k := slot]) && complete == outcome.Deliver?
                 && (complete ==> bufs[k].Value().Content() == outcome.content)
    {
      hide FragmentReceive.Join;
      ghost var w := Value();
      var frag := fragments[k];
      assert frag.Value() == w.slots[k];
      var ok := frag.Join(kind, n, size, src, headroom, now);
      complete := ok && !frag.defined;
      assert Value().slots == w.slots[k := frag.Value()];
    }

    /** fragment_ttl_reap */
    method TtlReap(now: int)
      requires Valid()
      modifies fragments
      ensures Valid() && Value() == FragmentReceive.Reap(old(Value()), now)
    {
      ghost var before := Value();
      for i := 0 to N_FRAG_BUF
        invariant Valid() && seqId == before.seqId && index == before.index
        invariant forall j :: 0 <= j < N_FRAG_BUF ==>
                    fragments[j].Value() ==
                    if j < i then FragmentReceive.ReapSlot(before.slots[j], now) else before.slots[j]
      {
        var frag := fragments[i];
        if frag.defined && frag.timestamp + FragmentReceive.FRAG_TTL_SEC <= now {
          frag.defined := false;
        }
      }
      assert Value().slots == FragmentReceive.Reap(before, now).slots;
    }
  }

  /** What FragmentMaster.Outgoing and the calls of ReadyToSend after it put out is within
      the dynamic MTU, with the fragment header on top. */
  lemma MtuIsKept(frame: Frame, s: FragmentSend.Sender, data: seq<Byte>)
    requires frame.Usable() && FragmentSend.ValidSender(s)
    ensures frame.linkMtuDynamic >= frame.extraFrame && frame.PayloadSizeDynamic() >= 4
    ensures var (s', packet) := FragmentSend.Outgoing(s, data, frame.PayloadSizeDynamic());
            var limit := frame.linkMtuDynamic - frame.extraFrame + 4;
            && (packet.Some? ==> |packet.value| <= limit)
            && (s.pending == [] ==>
                  forall i :: 0 <= i < |FragmentSend.Drain(s')| ==> |FragmentSend.Drain(s')[i]| <= limit)
  {
    BuffersSuffice(frame, 0);
    FragmentSend.PacketsFit(s, data, frame.PayloadSizeDynamic());
  }

  class FragmentMaster {
    var outgoingSeqId: int
    var outgoingFragSize: nat
    var outgoingFragId: nat
    const outgoing: Buffer
    const outgoingReturn: Buffer
    const incoming: FragmentList

    /** fragment_init and fragment_frame_init; the first id is random. */
    constructor (frame: Frame, random: nat)
      requires frame.Usable() && frame.BufSize() < BUF_SIZE_MAX
      ensures ValidOutgoing(frame) && Sender() == FragmentSend.Sender(outgoingSeqId, 0, 0, [])
      ensures incoming.Valid() && FragmentRuns.Initial(incoming.Value(), 0, frame.BufSize())
      ensures fresh(outgoing) && fresh(outgoing.data) && fresh(outgoingReturn) && fresh(outgoingReturn.data)
      ensures fresh(incoming)
    {
      outgoingSeqId := random % N_SEQ_ID;
      outgoingFragSize, outgoingFragId := 0, 0;
      outgoing := new Buffer(frame.BufSize());
      outgoingReturn := new Buffer(frame.BufSize());
      incoming := new FragmentList(frame.BufSize());
    }

    ghost predicate ValidOutgoing(frame: Frame)
      reads this, outgoing, outgoingReturn, frame
    {
      && frame.Usable() && frame.BufSize() < BUF_SIZE_MAX
      && outgoing != outgoingReturn && outgoing.data != outgoingReturn.data
      && outgoing.Valid() && outgoingReturn.Valid()
      && outgoing.data.Length == outgoingReturn.data.Length == frame.BufSize()
      && 0 <= outgoingSeqId < N_SEQ_ID
      && (outgoing.len > 0 ==> outgoingFragSize > 0)
      && outgoing.len <= frame.PayloadSize()
    }

    ghost function Sender(): (s: FragmentSend.Sender)
      requires outgoing.Valid()
      reads this, outgoing, outgoing.data
    {
      FragmentSend.Sender(outgoingSeqId, outgoingFragSize, outgoingFragId, outgoing.Value().Content())
    }

    /** fragment_prepend_flags */
    method PrependFlags(buf: Buffer, kind: nat, seqId: nat, fragId: nat, fragSize: nat)
      requires buf.Valid() && buf.offset >= FragmentHeader.HEADER_SIZE
      modifies buf`offset, buf`len, buf.data
      ensures buf.Valid() && buf.Value().Content() ==
                FragmentHeader.ToNetwork(FragmentHeader.Flags(kind, seqId, fragId, fragSize))
                + old(buf.Value().Content())
    {
      var ok := buf.WritePrepend(FragmentHeader.ToNetwork(FragmentHeader.Flags(kind, seqId, fragId, fragSize)));
      assert ok;
    }

    /** Moving the next size bytes of the outgoing datagram to the return buffer. */
    method TakeChunk(buf: Buffer, frame: Frame, size: nat)
      requires ValidOutgoing(frame) && buf != outgoing && buf != outgoingReturn
      requires size <= outgoing.len
      modifies buf, outgoing`offset, outgoing`len, outgoingReturn.data
      ensures ValidOutgoing(frame) && buf.Valid() && buf.data == outgoingReturn.data
      ensures buf.offset >= FragmentHeader.HEADER_SIZE
      ensures buf.Value().Content() == old(outgoing.Value().Content())[..size]
      ensures outgoing.Value().Content() == old(outgoing.Value().Content())[size..]
    {
      hide Buf.Appended, Buf.Dropped, Buf.Content, frame.Headroom;
      BuffersSuffice(frame, 0);
      OpenedAppended(outgoingReturn.Value(), frame.Headroom(0), outgoing.Value().Content()[..size]);
      buf.Assign(outgoingReturn);
      var ok := buf.Init(frame.Headroom(0));
      assert ok;
      ok := buf.CopyN(outgoing, size);
      assert ok;
    }

    /** fragment_ready_to_send: the asserts stand for the ASSERTs of the source. */
    method ReadyToSend(buf: Buffer, frame: Frame) returns (ready: bool)
      requires ValidOutgoing(frame) && buf != outgoing && buf != outgoingReturn
      modifies this`outgoingFragId, buf, outgoing, outgoingReturn.data
      ensures ValidOutgoing(frame)
      ensures var (s, packet) := FragmentSend.ReadyToSend(old(Sender()));
              && Sender() == s && ready == packet.Some?
              && (ready ==> buf.Valid() && buf.data == outgoingReturn.data && buf.Value().Content() == packet.value)
      ensures !ready ==> buf.data == old(buf.data) && buf.offset == old(buf.offset) && buf.len == old(buf.len)
    {
      hide FragmentHeader.Flags, FragmentHeader.ToNetwork, frame.PayloadSize, frame.BufSize;
      if outgoing.len > 0 {
        var size := outgoingFragSize;
        var last := false;
        if outgoing.len <= size {
          size := outgoing.len;
          last := true;
        }
        TakeChunk(buf, frame, size);
        PrependFlags(buf, if last then FragmentHeader.FRAG_YES_LAST else FragmentHeader.FRAG_YES_NOTLAST,
                     outgoingSeqId, outgoingFragId, outgoingFragSize);
        outgoingFragId := outgoingFragId + 1;
        assert !last || outgoing.len == 0;
        return true;
      }
      return false;
    }

    /** fragment_outgoing */
    method Outgoing(buf: Buffer, frame: Frame)
      requires ValidOutgoing(frame) && buf.Valid()
      requires buf != outgoing && buf != outgoingReturn && buf.data != outgoing.data && buf.data != outgoingReturn.data
      requires buf.len <= frame.PayloadSize() && FragmentHeader.HEADER_SIZE <= buf.offset
      modifies this, buf, buf.data, outgoing, outgoing.data, outgoingReturn.data
      ensures ValidOutgoing(frame)
      ensures var (s, packet) := FragmentSend.Outgoing(old(Sender()), old(buf.Value().Content()),
                frame.PayloadSizeDynamic());
              && Sender() == s
              && if packet.Some? then buf.Valid() && buf.Value().Content() == packet.value else buf.len == 0
    {
      hide FragmentSend.ReadyToSend, FragmentSize.OptimalFragmentSize, FragmentSize.RoundDown, FragmentSize.Count,
        FragmentHeader.Flags, FragmentHeader.ToNetwork, frame.PayloadSize, frame.PayloadSizeDynamic, frame.Headroom,
        frame.BufSize, frame.MaxRwSizeLink;
      BuffersSuffice(frame, 0);
      if buf.len > 0 {
        if buf.len > frame.PayloadSizeDynamic() {
          FragmentSize.SameCount(buf.len, frame.PayloadSizeDynamic());
          outgoingFragSize := FragmentSize.OptimalFragmentSize(buf.len, frame.PayloadSizeDynamic());
          if buf.len > outgoingFragSize * FragmentHeader.MAX_FRAGS {
            buf.len := 0;
            return;
          }
          StartCutting(buf, frame);
        } else {
          PrependFlags(buf, FragmentHeader.FRAG_WHOLE, 0, 0, 0);
        }
      }
    }

    /** Taking the datagram over and sending its first fragment. */
    method StartCutting(buf: Buffer, frame: Frame)
      requires ValidOutgoing(frame) && buf.Valid() && outgoingFragSize > 0
      requires buf != outgoing && buf != outgoingReturn && buf.data != outgoing.data && buf.data != outgoingReturn.data
      requires 0 < buf.len <= frame.PayloadSize()
      modifies this, buf, outgoing, outgoing.data, outgoingReturn.data
      ensures ValidOutgoing(frame)
      ensures var start := FragmentSend.Sender(ModuloAdd(old(outgoingSeqId), 1, N_SEQ_ID), old(outgoingFragSize),
                0, old(buf.Value().Content()));
              var (s, packet) := FragmentSend.ReadyToSend(start);
              Sender() == s && packet.Some? && buf.Valid() && buf.Value().Content() == packet.value
    {
      hide FragmentSend.ReadyToSend;
      Load(buf, frame);
      outgoingSeqId := ModuloAdd(outgoingSeqId, 1, N_SEQ_ID);
      outgoingFragId := 0;
      buf.len := 0;
      var ready := ReadyToSend(buf, frame);
      assert ready;
    }

    /** Copying a datagram to the outgoing buffer, behind the headroom. */
    method Load(buf: Buffer, frame: Frame)
      requires frame.Usable() && frame.BufSize() < BUF_SIZE_MAX
      requires outgoing.Valid() && outgoing.data.Length == frame.BufSize()
      requires buf.Valid() && buf != outgoing && buf.data != outgoing.data && buf.len <= frame.PayloadSize()
      modifies outgoing`offset, outgoing`len, outgoing.data
      ensures outgoing.Valid() && outgoing.len == buf.len && outgoing.Value().Content() == old(buf.Value().Content())
    {
      hide Buf.Appended, frame.Headroom;
      BuffersSuffice(frame, 0);
      OpenedAppended(outgoing.Value(), frame.Headroom(0), buf.Value().Content());
      var ok := outgoing.Init(frame.Headroom(0));
      assert ok;
      ok := outgoing.Copy(buf);
      assert ok;
    }

    /** fragment_incoming */
    method Incoming(buf: Buffer, frame: Frame, now: int)
      requires frame.Usable() && buf.Valid() && buf !in incoming.bufs && buf.data !in incoming.datas
      requires incoming.Valid() && forall i :: 0 <= i < N_FRAG_BUF ==> incoming.datas[i].Length == frame.BufSize()
      modifies buf, incoming, incoming.fragments, incoming.bufs, incoming.datas
      ensures incoming.Valid()
      ensures var headroom := frame.Headroom(FRAME_HEADROOM_MARKER_FRAGMENT);
              FragmentReceive.ValidSlots(old(incoming.Value()), headroom)
              && var (w, outcome) := FragmentReceive.Receive(old(incoming.Value()), old(buf.Value().Content()),
                        headroom, now);
                 && incoming.Value() == w
                 && if outcome.Deliver? then buf.Valid() && buf.Value().Content() == outcome.content else buf.len == 0
    {
      hide FragmentReceive.ReceiveFragment, FragmentReceive.ValidSlots, FragmentHeader.TypeOf,
        FragmentHeader.SpuriousWholeFlags, FragmentHeader.FromNetwork, frame.Headroom, incoming.Value;
      BuffersSuffice(frame, FRAME_HEADROOM_MARKER_FRAGMENT);
      var headroom := frame.Headroom(FRAME_HEADROOM_MARKER_FRAGMENT);
      incoming.HeadroomInSlots(headroom);
      if buf.len > 0 {
        var got, header := buf.Read(FragmentHeader.HEADER_SIZE);
        if !got {
          buf.len := 0;
          return;
        }
        var flags := FragmentHeader.FromNetwork(header);
        var kind := FragmentHeader.TypeOf(flags);
        if kind == FragmentHeader.FRAG_WHOLE {
          if FragmentHeader.SpuriousWholeFlags(flags) {
            buf.len := 0;
          }
        } else if kind == FragmentHeader.FRAG_YES_NOTLAST || kind == FragmentHeader.FRAG_YES_LAST {
          IncomingFragment(buf, flags, headroom, now);
        } else {
          buf.len := 0;
        }
      }
    }

    method IncomingFragment(buf: Buffer, flags: nat, headroom: int, now: int)
      requires buf.Valid() && buf !in incoming.bufs && buf.data !in incoming.datas
      requires incoming.HasHeadroom(headroom) && FragmentReceive.ValidSlots(incoming.Value(), headroom)
      modifies buf, incoming, incoming.fragments, incoming.bufs, incoming.datas
      ensures incoming.Valid()
      ensures var (w, outcome) := FragmentReceive.ReceiveFragment(old(incoming.Value()), flags,
                old(buf.Value().Content()), headroom, now);
              && incoming.Value() == w
              && if outcome.Deliver? then buf.Valid() && buf.Value().Content() == outcome.content else buf.len == 0
    {
      hide FragmentReceive.Join, FragmentReceive.ValidSlots, FragmentWindow.GetBuf, And, incoming.Value,
        FragmentHeader.TypeOf, FragmentHeader.SizeOf, FragmentHeader.FragIdOf, FragmentHeader.SeqIdOf;
      FragmentHeader.FieldsOf(flags);
      var kind := FragmentHeader.TypeOf(flags);
      var size := if kind == FragmentHeader.FRAG_YES_LAST then FragmentHeader.SizeOf(flags) else buf.len;
      var k := incoming.GetBuf(FragmentHeader.SeqIdOf(flags));
      if And(size, FragmentHeader.FRAG_SIZE_ROUND_MASK) != 0 {
        buf.len := 0;
        return;
      }
      var complete := incoming.JoinAt(k, kind, FragmentHeader.FragIdOf(flags), size, buf, headroom, now);
      TakeOver(buf, k, complete);
    }

    /** `*buf = frag->buf`, or nothing to deliver. */
    method TakeOver(buf: Buffer, k: int, complete: bool)
      requires incoming.Valid() && 0 <= k < N_FRAG_BUF && buf !in incoming.bufs
      modifies buf
      ensures incoming.Valid() && incoming.Value() == old(incoming.Value())
      ensures if complete then buf.Valid() && buf.Value().Content() == incoming.bufs[k].Value().Content()
              else buf.len == 0
    {
      if complete {
        buf.Assign(incoming.fragments[k].buf);
      } else {
        buf.len := 0;
      }
    }
  }
}
