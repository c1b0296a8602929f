/** One datagram cut into fragments, and one slot putting it together again. */
module FragmentSplit {
  import opened Bits
  import opened Buffers
  import opened FragmentHeader
  import opened FragmentReceive
  import opened FragmentSize
  import opened FragmentWindow
  import opened Sequences

  /** A datagram and the fragment size chosen for it. */
  datatype Sent = Sent(data: seq<Byte>, size: nat) {

    predicate Valid() {
      && 0 < size <= MAX_FRAG_SIZE && size % 4 == 0
      && 0 < |data| <= size * MAX_FRAGS
    }

    /** The id of the last fragment. */
    function Last(): (last: nat)
      requires Valid()
      ensures last < MAX_FRAGS
    {
      var n := Count(|data|, size);
      LastBounds(this);
      n - 1
    }

    function Start(i: nat): (s: nat) {
      i * size
    }

    function End(i: nat): nat {
      if i * size + size <= |data| then i * size + size else |data|
    }

    function Chunk(i: nat): seq<Byte>
      requires Valid() && i <= Last()
    {
      LastBounds(this);
      FragmentSize.Monotone(i, Last(), size);
      data[Start(i)..End(i)]
    }

    function Kind(i: nat): nat
      requires Valid()
    {
      if i == Last() then FRAG_YES_LAST else FRAG_YES_NOTLAST
    }

    /** Fragment i on the wire. */
    function Packet(seqId: nat, i: nat): seq<Byte>
      requires Valid() && i <= Last()
    {
      ToNetwork(Flags(Kind(i), seqId, i, size)) + Chunk(i)
    }
  }

  /** Fragment ids 0 to last-1 are full, and the last one is the rest. */
  lemma LastBounds(d: Sent)
    requires d.Valid()
    ensures var n := Count(|d.data|, d.size);
            1 <= n <= MAX_FRAGS && n * d.size - d.size < |d.data| <= n * d.size
    ensures (Count(|d.data|, d.size) - 1) * d.size < |d.data|
  {
    hide Count;
    var n := CountBounds(|d.data|, d.size);
    CountAtMost(|d.data|, d.size, MAX_FRAGS);
    assert (n - 1) * d.size == n * d.size - d.size;
  }

  lemma ChunkLength(d: Sent, i: nat)
    requires d.Valid() && i <= d.Last()
    ensures |d.Chunk(i)| == d.End(i) - d.Start(i)
    ensures i < d.Last() ==> |d.Chunk(i)| == d.size && d.End(i) == d.Start(i + 1) < |d.data|
    ensures i == d.Last() ==> d.End(i) == |d.data|
    ensures 0 < |d.Chunk(i)| <= d.size
  {
    LastBounds(d);
    Monotone(i, d.Last(), d.size);
    assert (i + 1) * d.size == i * d.size + d.size;
    if i < d.Last() {
      Monotone(i + 1, d.Last(), d.size);
    } else {
      assert d.Last() * d.size == Count(|d.data|, d.size) * d.size - d.size;
    }
  }

  /** Fragments with different ids cover different bytes. */
  lemma ChunksAreApart(d: Sent, i: nat, j: nat)
    requires i < j
    ensures d.End(i) <= d.Start(j)
  {
    Monotone(i + 1, j, d.size);
    assert (i + 1) * d.size == i * d.size + d.size;
  }

  /** Every byte belongs to one fragment. */
  lemma ChunkOf(d: Sent, p: nat) returns (i: nat)
    requires d.Valid() && p < |d.data|
    ensures i <= d.Last() && d.Start(i) <= p < d.End(i)
  {
    hide Quotient;
    i := Quotient(p, d.size);
    LastBounds(d);
    if i > d.Last() {
      Monotone(d.Last() + 1, i, d.size);
    }
  }

  // One slot

  /** How far a buffer is in use that holds the fragments in got. */
  ghost predicate HasLength(len: int, d: Sent, got: set<nat>)
    requires d.Valid()
  {
    if d.Last() in got then len == |d.data| else len <= d.Start(d.Last()) <= |d.data|
  }

  /** The slot holds exactly the fragments in got of datagram d. */
  ghost predicate Holds(slot: Slot, d: Sent, got: set<nat>, headroom: int)
    requires d.Valid()
  {
    && slot.buf.Valid() && 0 <= headroom == slot.buf.offset
    && slot.maxFragSize == d.size
    && slot.received < Pow2(32)
    && (forall i: nat | i < MAX_FRAGS :: Has(slot.received, i) <==> i in got || (d.Last() in got && i >= d.Last()))
    && (forall i | i in got :: i <= d.Last() && HasChunk(slot.buf, d, i))
    && HasLength(slot.buf.len, d, got)
  }

  ghost predicate HasChunk(b: Buf, d: Sent, i: nat)
    requires b.Valid() && d.Valid()
  {
    && i <= d.Last()
    && var at := b.offset + d.Start(i);
       at + |d.Chunk(i)| <= |b.data| && b.data[at..at + |d.Chunk(i)|] == d.Chunk(i)
  }

  /** A slot that got nothing of d may be unused, or opened by a fragment that did not fit. */
  ghost predicate Tracks(slot: Slot, d: Sent, got: set<nat>, headroom: int)
    requires d.Valid()
  {
    (slot.defined || got == {}) && (slot.defined ==> Holds(slot, d, got, headroom))
  }

  /** The received map of the sum is the sum of the maps, with the high bits
      filled by the last fragment. */
  lemma MapGrows(received: nat, d: Sent, got: set<nat>, i: nat, j: nat)
    requires d.Valid() && i <= d.Last() && j < MAX_FRAGS
    requires Has(received, j) <==> j in got || (d.Last() in got && j >= d.Last())
    ensures Has(Or(received, MapBits(d.Kind(i), i)), j) <==>
              j in got + {i} || (d.Last() in got + {i} && j >= d.Last())
  {
    hide Has, Or, MapBits, Sent.Last;
    MapBitsAre(d.Kind(i), i);
    OrHas(received, MapBits(d.Kind(i), i), j);
    RunHas(i, 32, j);
    PowerHas(i, j);
  }

  /** In 32 bits, `FULL << n` is 2^32 - 2^n and `1 << n` is 2^n. */
  lemma MapBitsAre(kind: nat, n: nat)
    requires n < MAX_FRAGS
    ensures MapBits(kind, n) == if kind == FRAG_YES_LAST then Pow2(32) - Pow2(n) else Pow2(n)
    ensures MapBits(kind, n) < Pow2(32)
  {
    WordSize();
    PowerIncreases(n + 1, 32);
    if kind == FRAG_YES_LAST {
      ShiftedOnes(n);
    } else {
      RemainderUnique(1 * Pow2(n), Pow2(32), 0, Pow2(n));
    }
  }

  /** Filling in fragment i leaves the other fragments as they were. */
  lemma FillKeepsChunks(b: Buf, d: Sent, i: nat, j: nat)
    requires b.Valid() && d.Valid() && i <= d.Last() && j != i
    requires b.HasRoom(d.Start(i), |d.Chunk(i)|) && HasChunk(b, d, j)
    ensures HasChunk(b.Filled(d.Start(i), d.Chunk(i)), d, j)
  {
    ChunkLength(d, i);
    ChunkLength(d, j);
    if i < j {
      ChunksAreApart(d, i, j);
    } else {
      ChunksAreApart(d, j, i);
    }
    SpliceKeeps(b.data, b.offset + d.Start(i), d.Chunk(i), b.offset + d.Start(j), |d.Chunk(j)|);
  }

  lemma SpliceKeeps(s: seq<Byte>, at: nat, bytes: seq<Byte>, from: nat, size: nat)
    requires at + |bytes| <= |s| && from + size <= |s|
    requires from + size <= at || at + |bytes| <= from
    ensures Spliced(s, at, bytes)[from..from + size] == s[from..from + size]
  {
    if from + size <= at {
      SliceBefore(s, at, Spliced(s, at, bytes), from, from + size);
    } else {
      SliceAfter(s, at + |bytes|, Spliced(s, at, bytes), from, from + size);
    }
  }

  /** Joining fragment i of d to the slot of d: it is recorded if it fits, and the
      datagram is delivered, byte for byte, exactly when no fragment is missing. */
  lemma JoinRecords(slot: Slot, d: Sent, got: set<nat>, i: nat, headroom: int, now: int)
    requires d.Valid() && i <= d.Last() && Tracks(slot, d, got, headroom)
    requires slot.buf.Valid() && 0 <= headroom <= |slot.buf.data|
    ensures var (slot', outcome) := Join(slot, d.Kind(i), i, d.size, d.Chunk(i), headroom, now);
            if headroom + d.Start(i) + |d.Chunk(i)| > |slot.buf.data|
            then outcome == Rejected && Tracks(slot', d, got, headroom)
                 && (got != {} ==> slot'.timestamp == slot.timestamp)
            else if Complete(d, got + {i})
            then outcome == Deliver(d.data) && Tracks(slot', d, {}, headroom)
            else outcome == Empty && Tracks(slot', d, got + {i}, headroom) && slot'.timestamp == now
  {
    var ready := OpenSlot(slot, d.size, headroom);
    OpenHolds(slot, d, got, headroom);
    assert i * d.size == d.Start(i);
    if ready.buf.HasRoom(d.Start(i), |d.Chunk(i)|) {
      var filled := ready.(buf := ready.buf.Filled(d.Start(i), d.Chunk(i)),
                           received := Or(ready.received, MapBits(d.Kind(i), i)),
                           timestamp := now);
      FillHolds(ready, d, got, i, headroom, now);
      CompleteIff(filled, d, got + {i}, headroom);
      if Complete(d, got + {i}) {
        WholeContent(filled, d, got + {i}, headroom);
      }
    }
  }

  predicate Complete(d: Sent, got: set<nat>)
    requires d.Valid()
  {
    forall i: nat | i <= d.Last() :: i in got
  }

  lemma OpenHolds(slot: Slot, d: Sent, got: set<nat>, headroom: int)
    requires d.Valid() && Tracks(slot, d, got, headroom)
    requires slot.buf.Valid() && 0 <= headroom <= |slot.buf.data|
    ensures var ready := OpenSlot(slot, d.size, headroom);
            ready.defined && Holds(ready, d, got, headroom) && |ready.buf.data| == |slot.buf.data|
            && (got != {} ==> ready.timestamp == slot.timestamp)
  {
    hide Count, Pow2;
    LastBounds(d);
    if !slot.defined {
      forall i: nat
        ensures !Has(0, i)
      {
        ZeroHas(i);
      }
    }
  }

  lemma FillChunks(b: Buf, d: Sent, got: set<nat>, i: nat)
    requires b.Valid() && d.Valid() && i <= d.Last() && b.HasRoom(d.Start(i), |d.Chunk(i)|)
    requires forall j | j in got :: j <= d.Last() && HasChunk(b, d, j)
    ensures forall j | j in got + {i} :: j <= d.Last() && HasChunk(b.Filled(d.Start(i), d.Chunk(i)), d, j)
  {
    var filled := b.Filled(d.Start(i), d.Chunk(i));
    forall j | j in got + {i}
      ensures j <= d.Last() && HasChunk(filled, d, j)
    {
      if j == i {
        assert HasChunk(filled, d, i);
      } else {
        hide HasChunk, Sent.Chunk, Sent.Last, Sent.Start;
        FillKeepsChunks(b, d, i, j);
      }
    }
  }

  lemma FillLength(b: Buf, d: Sent, got: set<nat>, i: nat)
    requires b.Valid() && d.Valid() && i <= d.Last() && b.HasRoom(d.Start(i), |d.Chunk(i)|)
    requires HasLength(b.len, d, got)
    ensures HasLength(b.Filled(d.Start(i), d.Chunk(i)).len, d, got + {i})
  {
    hide Sent.Last, Sent.Chunk;
    ChunkLength(d, i);
    if i < d.Last() {
      ChunksAreApart(d, i, d.Last());
    }
  }

  lemma FillHolds(ready: Slot, d: Sent, got: set<nat>, i: nat, headroom: int, now: int)
    requires d.Valid() && i <= d.Last() && Holds(ready, d, got, headroom)
    requires ready.buf.HasRoom(d.Start(i), |d.Chunk(i)|)
    ensures Holds(ready.(buf := ready.buf.Filled(d.Start(i), d.Chunk(i)),
                         received := Or(ready.received, MapBits(d.Kind(i), i)),
                         timestamp := now), d, got + {i}, headroom)
  {
    hide Or, Has, MapBits, HasChunk, HasLength, Sent.Last, Sent.Chunk, Sent.Start, Sent.Kind, Pow2;
    MapBitsAre(d.Kind(i), i);
    OrBelow(ready.received, MapBits(d.Kind(i), i), 32);
    forall j: nat | j < MAX_FRAGS {
      MapGrows(ready.received, d, got, i, j);
    }
    FillChunks(ready.buf, d, got, i);
    FillLength(ready.buf, d, got, i);
  }

  lemma CompleteIff(slot: Slot, d: Sent, got: set<nat>, headroom: int)
    requires d.Valid() && Holds(slot, d, got, headroom)
    ensures And(slot.received, FRAG_MAP_MASK) == FRAG_MAP_MASK <==> Complete(d, got)
  {
    hide And, Pow2;
    WordSize();
    AndLow(slot.received, 32);
    RemainderUnique(slot.received, Pow2(32), 0, slot.received);
    forall j: nat
      ensures Has(FRAG_MAP_MASK, j) <==> j < 32
    {
      RunHas(0, 32, j);
    }
    if Complete(d, got) {
      SameDigits(slot.received, FRAG_MAP_MASK, 32);
    }
    if slot.received == FRAG_MAP_MASK {
      assert Has(slot.received, 31) && d.Last() in got;
      forall i: nat | i <= d.Last()
        ensures i in got
      {
        assert Has(slot.received, i);
      }
    }
  }

  lemma WholeContent(slot: Slot, d: Sent, got: set<nat>, headroom: int)
    requires d.Valid() && Holds(slot, d, got, headroom) && Complete(d, got)
    ensures slot.buf.Content() == d.data
  {
    forall p: nat | p < |d.data|
      ensures slot.buf.Content()[p] == d.data[p]
    {
      var i := ChunkOf(d, p);
      ChunkLength(d, i);
      ByteAt(slot.buf, d, i, p);
    }
  }

  lemma ByteAt(b: Buf, d: Sent, i: nat, p: nat)
    requires b.Valid() && d.Valid() && HasChunk(b, d, i) && d.Start(i) <= p < d.End(i)
    ensures b.offset + p < |b.data| && p < |d.data| && b.data[b.offset + p] == d.data[p]
  {
    ChunkLength(d, i);
    assert d.Chunk(i)[p - d.Start(i)] == d.data[p];
    assert b.data[b.offset + d.Start(i)..b.offset + d.Start(i) + |d.Chunk(i)|][p - d.Start(i)] == b.data[b.offset + p];
  }
}
