/** What the receiver makes of any packet at all, said of its bytes, and when it forgets. */
module FragmentErrors {
  import opened Buffers
  import opened FragmentHeader
  import opened FragmentReceive
  import opened FragmentWindow
  import Bits

  /** The type of a packet is in the low two bits of its fourth byte; the bits above them
      must be clear in a datagram that was not fragmented. */
  lemma FourthByte(b: seq<Byte>)
    requires |b| == 4
    ensures var flags, last: int := FromNetwork(b), b[3];
            TypeOf(flags) == last % 4 && (TypeOf(flags) == 0 ==> (SpuriousWholeFlags(flags) <==> last / 4 != 0))
  {
    hide TypeOf, SpuriousWholeFlags, SeqIdOf;
    var flags, last: int := FromNetwork(b), b[3];
    FieldsOf(flags);
    var b0: int, b1: int, b2: int := b[0], b[1], b[2];
    LowByte(flags, b0 * 0x1_0000 + b1 * 0x100 + b2, last);
    if TypeOf(flags) == 0 {
      SpuriousTestSeesSixBits(flags);
    }
  }

  lemma LowByte(flags: int, high: nat, last: int)
    requires flags == high * 256 + last && 0 <= last < 256
    ensures flags % 4 == last % 4 && flags / 4 % 256 % 64 == last / 4
  {
    Bits.RemainderUnique(flags, 4, high * 64 + last / 4, last % 4);
    var q := flags / 4;
    Bits.RemainderUnique(q, 256, high / 4, high % 4 * 64 + last / 4);
    Bits.RemainderUnique(high % 4 * 64 + last / 4, 64, high % 4, last / 4);
  }

  /** An empty packet is nothing; one shorter than a header, of the type that is not
      implemented, or whole with stray bits is rejected; any other whole one is delivered.
      None of them touches the window. */
  lemma UnfragmentedByBytes(w: Window, packet: seq<Byte>, headroom: int, now: int)
    requires ValidSlots(w, headroom)
    ensures |packet| == 0 ==> Receive(w, packet, headroom, now) == (w, Empty)
    ensures 0 < |packet| < 4 ==> Receive(w, packet, headroom, now) == (w, Rejected)
    ensures |packet| >= 4 && packet[3] % 4 == 3 ==> Receive(w, packet, headroom, now) == (w, Rejected)
    ensures |packet| >= 4 && packet[3] % 4 == 0 ==>
              Receive(w, packet, headroom, now) == (w, if packet[3] / 4 != 0 then Rejected else Deliver(packet[4..]))
  {
    hide FromNetwork, TypeOf, SpuriousWholeFlags, ReceiveFragment;
    if |packet| >= 4 {
      FourthByte(packet[..4]);
    }
  }

  /** A fragment that is not the last one must be a multiple of four bytes long; otherwise
      the window is moved to its id and the packet dropped. */
  lemma OddFragmentIsRejected(w: Window, packet: seq<Byte>, headroom: int, now: int)
    requires ValidSlots(w, headroom) && |packet| >= 4 && packet[3] % 4 == 1 && |packet| % 4 != 0
    ensures var (w', outcome) := Receive(w, packet, headroom, now);
            && outcome == Rejected
            && exists id :: 0 <= id < 256 && w' == GetBuf(w, id).0
  {
    hide FromNetwork, TypeOf, SpuriousWholeFlags, SeqIdOf, GetBuf, Join;
    var flags := FromNetwork(packet[..4]);
    FourthByte(packet[..4]);
    FieldsOf(flags);
    var size := |packet[4..]|;
    Powers();
    Bits.AndLow(size, 2);
    assert 0 <= SeqIdOf(flags) < 256;
  }

  /** A fragment of another size starts its slot over: what was there is forgotten. */
  lemma OtherSizeStartsOver(slot: Slot, kind: nat, n: nat, size: nat, body: seq<Byte>, headroom: int, now: int)
    requires slot.buf.Valid() && 0 <= headroom <= |slot.buf.data| && slot.maxFragSize != size
    ensures Join(slot, kind, n, size, body, headroom, now) ==
            Join(slot.(defined := false), kind, n, size, body, headroom, now)
  {
  }

  /** A partial datagram is forgotten when nothing was added to it for ten seconds, and not
      before; nothing else is touched. */
  lemma ForgottenAfterTenSeconds(w: Window, now: int, k: int)
    requires ValidWindow(w) && 0 <= k < N_FRAG_BUF
    ensures var w' := Reap(w, now);
            && w' == w.(slots := w'.slots)
            && w'.slots[k] == w.slots[k].(defined := w'.slots[k].defined)
            && (w'.slots[k].defined <==> w.slots[k].defined && now - w.slots[k].timestamp < 10)
  {
  }
}
