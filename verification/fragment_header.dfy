/** The four-byte fragment header: two bits of type, eight of sequence id, five
    of fragment id and fourteen of size, sent in network byte order. */
module FragmentHeader {
  import opened Bits
  import opened Buffers

  const FRAG_WHOLE: nat := 0
  const FRAG_YES_NOTLAST: nat := 1
  const FRAG_YES_LAST: nat := 2
  const FRAG_TEST: nat := 3

  const FRAG_TYPE_MASK: nat := 0x3
  const FRAG_SEQ_ID_MASK: nat := 0xff
  const FRAG_ID_MASK: nat := 0x1f
  const FRAG_SIZE_MASK: nat := 0x3fff
  const FRAG_SIZE_ROUND_MASK: nat := 0x3
  const MAX_FRAGS: nat := 32
  const MAX_FRAG_SIZE: nat := 65532
  const HEADER_SIZE: nat := 4

  // Shifts left by n are written as multiplication by 2^n, shifts right as division.

  function Flags(kind: nat, seqId: nat, fragId: nat, fragSize: nat): nat {
    var flags := Or(Or(And(kind, FRAG_TYPE_MASK),
                       And(seqId, FRAG_SEQ_ID_MASK) * 4),
                    And(fragId, FRAG_ID_MASK) * 0x400);
    if kind == FRAG_WHOLE || kind == FRAG_YES_NOTLAST then flags
    else Or(flags, And(fragSize / 4, FRAG_SIZE_MASK) * 0x8000)
  }

  function TypeOf(flags: nat): nat {
    And(flags, FRAG_TYPE_MASK)
  }

  function SeqIdOf(flags: nat): nat {
    And(flags / 4, FRAG_SEQ_ID_MASK)
  }

  function FragIdOf(flags: nat): nat {
    And(flags / 0x400, FRAG_ID_MASK)
  }

  function SizeOf(flags: nat): nat {
    And(flags / 0x8000, FRAG_SIZE_MASK) * 4
  }

  function ToNetwork(flags: nat): (b: seq<Byte>)
    ensures |b| == HEADER_SIZE
  {
    [flags / 0x100_0000 % 256, flags / 0x1_0000 % 256, flags / 0x100 % 256, flags % 256]
  }

  function FromNetwork(b: seq<Byte>): nat
    requires |b| == HEADER_SIZE
  {
    var b0: int, b1: int, b2: int, b3: int := b[0], b[1], b[2], b[3];
    b0 * 0x100_0000 + b1 * 0x1_0000 + b2 * 0x100 + b3
  }

  lemma Powers()
    ensures Pow2(2) == 4 && Pow2(5) == 32 && Pow2(8) == 256 && Pow2(10) == 1024
    ensures Pow2(14) == 0x4000 && Pow2(15) == 0x8000
  {
    assert Pow2(4) == 16 && Pow2(6) == 64;
    assert Pow2(12) == 0x1000;
  }

  /** What each masked field of any flags word is, arithmetically. */
  lemma FieldsOf(flags: nat)
    ensures TypeOf(flags) == flags % 4
    ensures SeqIdOf(flags) == flags / 4 % 256
    ensures FragIdOf(flags) == flags / 1024 % 32
    ensures SizeOf(flags) == flags / 0x8000 % 0x4000 * 4
  {
    Powers();
    AndLow(flags, 2);
    AndLow(flags / 4, 8);
    AndLow(flags / 1024, 5);
    AndLow(flags / 0x8000, 14);
  }

  lemma FlagsSum(kind: nat, seqId: nat, fragId: nat, fragSize: nat)
    ensures Flags(kind, seqId, fragId, fragSize)
         == kind % 4 + seqId % 256 * 4 + fragId % 32 * 1024
            + (if kind == FRAG_WHOLE || kind == FRAG_YES_NOTLAST then 0 else fragSize / 4 % 0x4000 * 0x8000)
  {
    Powers();
    AndLow(kind, 2);
    AndLow(seqId, 8);
    AndLow(fragId, 5);
    AndLow(fragSize / 4, 14);
    OrDisjoint(kind % 4, seqId % 256, 2);
    OrDisjoint(kind % 4 + seqId % 256 * 4, fragId % 32, 10);
    OrDisjoint(kind % 4 + seqId % 256 * 4 + fragId % 32 * 1024, fragSize / 4 % 0x4000, 15);
  }

  lemma NetworkOrderRoundTrip(flags: nat)
    requires flags < 0x1_0000_0000
    ensures FromNetwork(ToNetwork(flags)) == flags
  {
    BytesOf(flags, flags / 0x100, flags % 0x100);
    BytesOf(flags / 0x100, flags / 0x1_0000, flags / 0x100 % 0x100);
    BytesOf(flags / 0x1_0000, flags / 0x100_0000, flags / 0x1_0000 % 0x100);
  }

  lemma BytesOf(x: nat, high: nat, low: nat)
    requires high == x / 0x100 && low == x % 0x100
    ensures x == high * 0x100 + low && x / 0x1_0000 == high / 0x100
  {
    var top, mid := high / 0x100, high % 0x100;
    RemainderUnique(x, 0x1_0000, top, mid * 0x100 + low);
  }

  lemma FieldSplit(kind: nat, seqId: nat, fragId: nat, size: nat)
    requires kind < 4 && seqId < 256 && fragId < 32 && size < 0x4000
    ensures var flags := kind + seqId * 4 + fragId * 1024 + size * 0x8000;
            flags % 4 == kind && flags / 4 % 256 == seqId && flags / 1024 % 32 == fragId
            && flags / 0x8000 % 0x4000 == size && flags < 0x1_0000_0000
  {
    var low4 := kind + seqId * 4;
    var low15 := low4 + fragId * 1024;
    var flags := low15 + size * 0x8000;
    var high := fragId + size * 32;
    RemainderUnique(flags, 4, seqId + high * 256, kind);
    RemainderUnique(seqId + high * 256, 256, high, seqId);
    RemainderUnique(flags, 1024, high, low4);
    RemainderUnique(high, 32, size, fragId);
    RemainderUnique(flags, 0x8000, size, low15);
  }

  lemma FieldsOfSum(kind: nat, seqId: nat, fragId: nat, size: nat, flags: nat)
    requires kind < 4 && seqId < 256 && fragId < 32 && size < 0x4000
    requires flags == kind + seqId * 4 + fragId * 1024 + size * 0x8000
    ensures TypeOf(flags) == kind && SeqIdOf(flags) == seqId && FragIdOf(flags) == fragId
    ensures SizeOf(flags) == size * 4 && flags < 0x1_0000_0000
  {
    FieldSplit(kind, seqId, fragId, size);
    FieldsOf(flags);
  }

  lemma FlagsInRange(kind: nat, seqId: nat, fragId: nat, fragSize: nat) returns (size: nat)
    requires kind <= FRAG_TEST && seqId < 256 && fragId < MAX_FRAGS
    ensures size < 0x4000 && (kind == FRAG_YES_LAST ==> size == fragSize / 4 % 0x4000)
    ensures Flags(kind, seqId, fragId, fragSize) == kind + seqId * 4 + fragId * 1024 + size * 0x8000
  {
    hide Or, And;
    FlagsSum(kind, seqId, fragId, fragSize);
    size := if kind == FRAG_WHOLE || kind == FRAG_YES_NOTLAST then 0 else fragSize / 4 % 0x4000;
  }

  lemma SizeSurvives(fragSize: nat)
    ensures fragSize / 4 % 0x4000 * 4 == fragSize <==> fragSize % 4 == 0 && fragSize <= MAX_FRAG_SIZE
  {
  }

  /** Packing and unpacking undo each other on the fields in range.  The size is
      carried only by a last fragment, and survives exactly when it is a multiple
      of four that fourteen bits can hold. */
  lemma HeaderRoundTrip(kind: nat, seqId: nat, fragId: nat, fragSize: nat, flags: nat)
    requires kind <= FRAG_TEST && seqId < 256 && fragId < MAX_FRAGS
    requires flags == FromNetwork(ToNetwork(Flags(kind, seqId, fragId, fragSize)))
    ensures TypeOf(flags) == kind && SeqIdOf(flags) == seqId && FragIdOf(flags) == fragId
    ensures kind == FRAG_YES_LAST ==>
              (SizeOf(flags) == fragSize <==> fragSize % 4 == 0 && fragSize <= MAX_FRAG_SIZE)
  {
    hide Flags, ToNetwork, FromNetwork, TypeOf, SeqIdOf, FragIdOf, SizeOf;
    var packed := Flags(kind, seqId, fragId, fragSize);
    var size := FlagsInRange(kind, seqId, fragId, fragSize);
    FieldsOfSum(kind, seqId, fragId, size, packed);
    NetworkOrderRoundTrip(packed);
    SizeSurvives(fragSize);
  }

  /** The test for stray bits in the header of a whole datagram. */
  predicate SpuriousWholeFlags(flags: nat) {
    And(flags, Or(FRAG_SEQ_ID_MASK, FRAG_ID_MASK)) != 0
  }

  lemma SixBits(flags: nat)
    requires flags % 4 == 0
    ensures flags % 256 != 0 <==> flags / 4 % 256 % 64 != 0
  {
    var q := flags / 4;
    BitFields(flags, q / 256, q % 256 / 64, q % 256 % 64);
  }

  lemma BitFields(flags: nat, high: nat, mid: nat, low: nat)
    requires mid < 4 && low < 64 && flags == (high * 256 + mid * 64 + low) * 4
    ensures flags % 256 == low * 4 && flags / 4 % 256 % 64 == low
  {
    RemainderUnique(flags, 256, high * 4 + mid, low * 4);
    RemainderUnique(flags, 4, high * 256 + mid * 64 + low, 0);
    RemainderUnique(flags / 4, 256, high, mid * 64 + low);
    RemainderUnique(mid * 64 + low, 64, mid, low);
  }

  lemma MaskUnion()
    ensures Or(FRAG_SEQ_ID_MASK, FRAG_ID_MASK) == 0xff
  {
    assert Or(0xf, 0x1) == 0xf;
    assert Or(0x3f, 0x7) == 0x3f;
  }

  /** It ors the unshifted masks, so what it rejects is a nonzero low six bits of
      the sequence id: the upper two bits and the whole fragment id pass unseen. */
  lemma SpuriousTestSeesSixBits(flags: nat)
    requires TypeOf(flags) == FRAG_WHOLE
    ensures SpuriousWholeFlags(flags) <==> SeqIdOf(flags) % 64 != 0
  {
    Powers();
    MaskUnion();
    FieldsOf(flags);
    AndLow(flags, 8);
    SixBits(flags);
  }
}
