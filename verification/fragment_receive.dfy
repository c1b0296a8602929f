/** Accepting one packet from the peer: fragment_incoming on values. */
module FragmentReceive {
  import opened Bits
  import opened Buffers
  import opened FragmentHeader
  import opened FragmentWindow
  import Integers

  const FRAG_MAP_MASK: nat := 0xffff_ffff
  const FRAG_TTL_SEC: int := 10

  datatype Outcome =
    | Empty                        // nothing to deliver yet
    | Deliver(content: seq<Byte>)  // a whole datagram
    | Rejected                     // an error was logged and the packet dropped

  /** What a fragment adds to the received map: 32-bit `FRAG_MAP_MASK << n` for a
      last fragment, `1 << n` for any other. */
  function MapBits(kind: nat, n: nat): nat {
    (if kind == FRAG_YES_LAST then FRAG_MAP_MASK else 1) * Pow2(n) % Pow2(32)
  }

  /** Every slot has an assembly buffer with room for the headroom. */
  predicate ValidSlots(w: Window, headroom: int) {
    ValidWindow(w) && headroom >= 0
    && forall i :: 0 <= i < |w.slots| ==> w.slots[i].buf.Valid() && headroom <= |w.slots[i].buf.data|
  }

  /** The slot after the first-fragment test. */
  function OpenSlot(slot: Slot, size: nat, headroom: int): Slot {
    if !slot.defined || slot.maxFragSize != size
    then Slot(true, size, 0, slot.timestamp, slot.buf.Opened(headroom))
    else slot
  }

  /** Joining one fragment to its slot. */
  function Join(slot: Slot, kind: nat, n: nat, size: nat, body: seq<Byte>, headroom: int, now: int)
    : (r: (Slot, Outcome))
    requires slot.buf.Valid() && 0 <= headroom <= |slot.buf.data|
    ensures r.0.buf.Valid() && |r.0.buf.data| == |slot.buf.data|
  {
    var ready := OpenSlot(slot, size, headroom);
    if !ready.buf.HasRoom(n * size, |body|) then (ready, Rejected)
    else
      var filled := ready.(buf := ready.buf.Filled(n * size, body),
                            received := Or(ready.received, MapBits(kind, n)),
                            timestamp := now);
      if And(filled.received, FRAG_MAP_MASK) == FRAG_MAP_MASK
      then (filled.(defined := false), Deliver(filled.buf.Content()))
      else (filled, Empty)
  }

  function ReceiveFragment(w: Window, flags: nat, body: seq<Byte>, headroom: int, now: int): (r: (Window, Outcome))
    requires ValidSlots(w, headroom)
    ensures ValidSlots(r.0, headroom)
  {
    var kind := TypeOf(flags);
    FieldsOf(flags);
    var size := if kind == FRAG_YES_LAST then SizeOf(flags) else |body|;
    GetBufKeepsBuffers(w, SeqIdOf(flags));
    var (w, k) := GetBuf(w, SeqIdOf(flags));
    if And(size, FRAG_SIZE_ROUND_MASK) != 0 then (w, Rejected)
    else
      var (slot, outcome) := Join(w.slots[k], kind, FragIdOf(flags), size, body, headroom, now);
      (w.(slots := w.slots[k := slot]), outcome)
  }

  function Receive(w: Window, packet: seq<Byte>, headroom: int, now: int): (r: (Window, Outcome))
    requires ValidSlots(w, headroom)
    ensures ValidSlots(r.0, headroom)
  {
    if |packet| == 0 then (w, Empty)
    else if |packet| < HEADER_SIZE then (w, Rejected)
    else
      var flags := FromNetwork(packet[..HEADER_SIZE]);
      var body := packet[HEADER_SIZE..];
      var kind := TypeOf(flags);
      if kind == FRAG_WHOLE then
        if SpuriousWholeFlags(flags) then (w, Rejected) else (w, Deliver(body))
      else if kind == FRAG_YES_NOTLAST || kind == FRAG_YES_LAST then
        ReceiveFragment(w, flags, body, headroom, now)
      else (w, Rejected)
  }

  /** fragment_ttl_reap: forget partial datagrams not added to for ten seconds. */
  function Reap(w: Window, now: int): (r: Window)
    requires ValidWindow(w)
    ensures ValidWindow(r)
  {
    w.(slots := seq(|w.slots|, i requires 0 <= i < |w.slots| => ReapSlot(w.slots[i], now)))
  }

  function ReapSlot(slot: Slot, now: int): Slot {
    if slot.defined && slot.timestamp + FRAG_TTL_SEC <= now then slot.(defined := false) else slot
  }

  lemma {:induction false} SlideKeepsBuffers(w: Window, steps: nat)
    requires ValidWindow(w)
    ensures forall i :: 0 <= i < |w.slots| ==> Slide(w, steps).slots[i].buf == w.slots[i].buf
    decreases steps
  {
    if steps > 0 {
      SlideKeepsBuffers(SlideOne(w), steps - 1);
    }
  }

  lemma GetBufKeepsBuffers(w: Window, seqId: int)
    requires ValidWindow(w) && 0 <= seqId < N_SEQ_ID
    ensures forall i :: 0 <= i < |w.slots| ==> GetBuf(w, seqId).0.slots[i].buf == w.slots[i].buf
  {
    var diff := Integers.ModuloSubtract(seqId, w.seqId, N_SEQ_ID);
    if 0 < diff < N_FRAG_BUF {
      SlideKeepsBuffers(w, diff);
    }
  }
}
