/** Virtual addresses, prefix masks, and the index of prefix lengths in use. */
module Mroute {
  import opened Bits
  import opened Buffers
  import opened FragmentHeader
  import opened Sequences

  const MR_MAX_ADDR_LEN: nat := 20
  const MR_ADDR_ETHER: nat := 1
  const MR_ADDR_IPV4: nat := 2
  const MR_ADDR_MASK: nat := 3
  const MR_WITH_NETBITS: nat := 8
  const MR_HELPER_NET_LEN: nat := 32

  /** struct mroute_addr: only the first len bytes of the address mean anything. */
  datatype MrouteAddr = MrouteAddr(len: nat, kind: nat, netbits: nat, addr: seq<Byte>) {
    predicate Valid() {
      len <= MR_MAX_ADDR_LEN && |addr| == MR_MAX_ADDR_LEN && kind < 256 && netbits < 256
    }
  }

  /** What tells two addresses apart. */
  datatype Key = Key(kind: nat, netbits: nat, bytes: seq<Byte>)

  function KeyOf(a: MrouteAddr): Key
    requires a.Valid()
  {
    Key(a.kind, a.netbits, a.addr[..a.len])
  }

  /** mroute_addr_equal */
  predicate AddrEqual(a: MrouteAddr, b: MrouteAddr)
    requires a.Valid() && b.Valid()
  {
    a.kind == b.kind && a.netbits == b.netbits && a.len == b.len && a.addr[..a.len] == b.addr[..b.len]
  }

  /** The len + 2 bytes from the type field on, which the hash function reads. */
  function HashBytes(a: MrouteAddr): seq<Byte>
    requires a.Valid()
  {
    ([a.kind, a.netbits] + a.addr)[..a.len + 2]
  }

  /** Equality of addresses is equality of what the hash reads: equal addresses
      hash alike, and different ones differ in the bytes hashed. */
  lemma EqualAddressesHashAlike(a: MrouteAddr, b: MrouteAddr)
    requires a.Valid() && b.Valid()
    ensures AddrEqual(a, b) <==> KeyOf(a) == KeyOf(b)
    ensures AddrEqual(a, b) <==> HashBytes(a) == HashBytes(b)
  {
    assert HashBytes(a) == [a.kind, a.netbits] + a.addr[..a.len];
    assert HashBytes(b) == [b.kind, b.netbits] + b.addr[..b.len];
    if HashBytes(a) == HashBytes(b) {
      assert HashBytes(a)[0] == HashBytes(b)[0] && HashBytes(a)[1] == HashBytes(b)[1];
      assert HashBytes(a)[2..] == HashBytes(b)[2..];
      assert a.addr[..a.len] == b.addr[..b.len];
    }
  }

  /** mroute_learnable_address */
  method LearnableAddress(a: MrouteAddr) returns (learnable: bool)
    requires a.Valid()
    ensures learnable <==> Learnable(KeyOf(a))
  {
    var notAllZeros, notAllOnes := false, false;
    for i := 0 to a.len
      invariant notAllZeros <==> exists j :: 0 <= j < i && a.addr[j] != 0
      invariant notAllOnes <==> exists j :: 0 <= j < i && a.addr[j] != 0xff
    {
      var b := a.addr[i];
      if b != 0 {
        notAllZeros := true;
      }
      if b != 0xff {
        notAllOnes := true;
      }
    }
    learnable := notAllZeros && notAllOnes
                 && !(And(a.kind, MR_ADDR_MASK) == MR_ADDR_ETHER && And(a.addr[0], 1) != 0);
    assert forall j :: 0 <= j < a.len ==> KeyOf(a).bytes[j] == a.addr[j];
  }

  /** Neither all zeros nor all ones nor an Ethernet multicast address. */
  predicate Learnable(key: Key) {
    && (exists j :: 0 <= j < |key.bytes| && key.bytes[j] != 0)
    && (exists j :: 0 <= j < |key.bytes| && key.bytes[j] != 0xff)
    && !(And(key.kind, MR_ADDR_MASK) == MR_ADDR_ETHER && And(key.bytes[0], 1) != 0)
  }

  /** What can be learned, by the bytes: not an address of zeros, nor of ones, nor of an
      Ethernet group, whose first byte is odd. */
  lemma LearnableExactly(key: Key)
    requires key.bytes != []
    ensures Learnable(key) <==>
              && key.bytes != seq(|key.bytes|, _ => 0) && key.bytes != seq(|key.bytes|, _ => 255)
              && !(key.kind % 4 == 1 && key.bytes[0] % 2 == 1)
  {
    hide And, Pow2;
    AndLow(key.kind, 2);
    AndLow(key.bytes[0], 1);
    assert Pow2(1) == 2 && Pow2(2) == 4 by { SmallPowers(); }
    if forall j :: 0 <= j < |key.bytes| ==> key.bytes[j] == 0 {
      assert key.bytes == seq(|key.bytes|, _ => 0);
    }
    if forall j :: 0 <= j < |key.bytes| ==> key.bytes[j] == 255 {
      assert key.bytes == seq(|key.bytes|, _ => 255);
    }
  }

  lemma SmallPowers()
    ensures Pow2(1) == 2 && Pow2(2) == 4
  {
  }

  /** netbits_to_netmask: `~0 << (32 - netbits)` in 32 bits. */
  function NetbitsToNetmask(netbits: int): nat {
    if 0 < netbits <= 32 then 0xffff_ffff * Pow2(32 - netbits) % Pow2(32) else 0
  }

  /** mroute_addr_mask_host_bits */
  function MaskHostBits(bytes: seq<Byte>, netbits: nat): seq<Byte>
    requires |bytes| == 4
  {
    ToNetwork(And(FromNetwork(bytes), NetbitsToNetmask(netbits)))
  }

  /** Two addresses agree on their first n bits. */
  predicate SamePrefix(a: nat, b: nat, n: nat)
    requires n <= 32
  {
    a / Pow2(32 - n) == b / Pow2(32 - n)
  }

  /** A network address has no host bits set. */
  predicate IsNetwork(bytes: seq<Byte>, n: nat) {
    |bytes| == 4 && n <= 32 && FromNetwork(bytes) % Pow2(32 - n) == 0
  }

  lemma MaskedValue(v: nat, n: nat)
    requires v < 0x1_0000_0000 && n <= 32
    ensures And(v, NetbitsToNetmask(n)) == v - v % Pow2(32 - n) < 0x1_0000_0000
  {
    hide And, Pow2;
    WordSize();
    if n > 0 {
      ShiftedOnes(32 - n);
      AndHigh(v, 32 - n, 32);
    } else {
      AndZero(v);
      RemainderUnique(v, Pow2(32), 0, v);
    }
  }

  lemma AndZero(v: nat)
    ensures And(v, 0) == 0
  {
  }

  lemma ReadsBack(bytes: seq<Byte>)
    requires |bytes| == 4
    ensures FromNetwork(bytes) < 0x1_0000_0000 && ToNetwork(FromNetwork(bytes)) == bytes
  {
    var b0: int, b1: int, b2: int, b3: int := bytes[0], bytes[1], bytes[2], bytes[3];
    var v := FromNetwork(bytes);
    RemainderUnique(v, 0x100, b0 * 0x1_0000 + b1 * 0x100 + b2, b3);
    RemainderUnique(v / 0x100, 0x100, b0 * 0x100 + b1, b2);
    RemainderUnique(v, 0x1_0000, b0 * 0x100 + b1, b2 * 0x100 + b3);
    RemainderUnique(v / 0x1_0000, 0x100, b0, b1);
    RemainderUnique(v, 0x100_0000, b0, b1 * 0x1_0000 + b2 * 0x100 + b3);
    RemainderUnique(b0, 0x100, 0, b0);
  }

  /** Masking an address to n bits gives a network exactly when it is the network
      the address lies in: the test by hash key is the test by leading bits. */
  lemma MaskFindsNetwork(addr: seq<Byte>, net: seq<Byte>, n: nat)
    requires |addr| == 4 && n <= 32 && IsNetwork(net, n)
    ensures MaskHostBits(addr, n) == net <==> SamePrefix(FromNetwork(addr), FromNetwork(net), n)
  {
    hide And, Pow2, ToNetwork, FromNetwork, NetbitsToNetmask;
    var a, b, p := FromNetwork(addr), FromNetwork(net), Pow2(32 - n);
    ReadsBack(addr);
    ReadsBack(net);
    MaskedValue(a, n);
    NetworkOrderRoundTrip(a - a % p);
    assert a - a % p == (a / p) * p && b == (b / p) * p;
  }

  lemma MaskIsNetwork(addr: seq<Byte>, n: nat)
    requires |addr| == 4 && n <= 32
    ensures IsNetwork(MaskHostBits(addr, n), n)
  {
    hide And, Pow2, ToNetwork, FromNetwork, NetbitsToNetmask;
    var a, p := FromNetwork(addr), Pow2(32 - n);
    ReadsBack(addr);
    MaskedValue(a, n);
    NetworkOrderRoundTrip(a - a % p);
    assert a - a % p == (a / p) * p + 0;
    RemainderUnique(a - a % p, p, a / p, 0);
  }

  // The index of prefix lengths

  /** The lengths below k that are in use, longest first. */
  function Lengths(refcount: seq<int>, k: nat): seq<nat>
    requires k <= |refcount|
  {
    if k == 0 then []
    else (if refcount[k - 1] > 0 then [k - 1] else []) + Lengths(refcount, k - 1)
  }

  lemma LengthsNone(refcount: seq<int>)
    ensures Lengths(refcount, 0) == []
  {
  }

  lemma LengthsMore(refcount: seq<int>, k: nat)
    requires 0 < k <= |refcount|
    ensures Lengths(refcount, k) ==
            if refcount[k - 1] > 0 then [k - 1] + Lengths(refcount, k - 1) else Lengths(refcount, k - 1)
  {
    NothingBefore(Lengths(refcount, k - 1));
  }

  lemma {:induction false} LengthsAreExact(refcount: seq<int>, k: nat)
    requires k <= |refcount|
    ensures forall i, j :: 0 <= i < j < |Lengths(refcount, k)| ==> Lengths(refcount, k)[i] > Lengths(refcount, k)[j]
    ensures forall n: nat :: n in Lengths(refcount, k) <==> n < k && refcount[n] > 0
    ensures |Lengths(refcount, k)| <= k
  {
    hide Lengths;
    if k == 0 {
      LengthsNone(refcount);
    } else {
      LengthsAreExact(refcount, k - 1);
      LengthsMore(refcount, k);
      var rest := Lengths(refcount, k - 1);
      assert forall i :: 0 <= i < |rest| ==> rest[i] in rest;
    }
  }

  lemma {:induction false} SameLengths(r: seq<int>, s: seq<int>, k: nat)
    requires k <= |r| && k <= |s| && forall i :: 0 <= i < k ==> (r[i] > 0 <==> s[i] > 0)
    ensures Lengths(r, k) == Lengths(s, k)
  {
    if k > 0 {
      SameLengths(r, s, k - 1);
    }
  }

  lemma {:induction false} NoLengths(r: seq<int>, k: nat)
    requires k <= |r| && forall i :: 0 <= i < k ==> r[i] == 0
    ensures Lengths(r, k) == []
  {
    if k > 0 {
      NoLengths(r, k - 1);
    }
  }

  lemma OneLength(done: seq<nat>, refcount: seq<int>, i: nat)
    requires i < |refcount|
    ensures done + Lengths(refcount, i + 1) == (if refcount[i] > 0 then done + [i] else done) + Lengths(refcount, i)
  {
    var rest := Lengths(refcount, i);
    if refcount[i] > 0 {
      assert Lengths(refcount, i + 1) == [i] + rest;
      ConcatAssociates(done, [i], rest);
    } else {
      assert Lengths(refcount, i + 1) == [] + rest == rest;
    }
  }

  function AllLengths(refcount: seq<int>): seq<nat> {
    Lengths(refcount, |refcount|)
  }

  class MrouteHelper {
    var cacheGeneration: nat
    var nNetLen: int
    const netLen: array<nat>
    const netLenRefcount: array<int>

    /** The index lists exactly the lengths in use, although it is rebuilt only when
        a count becomes zero or one. */
    predicate Valid()
      reads this, netLen, netLenRefcount
    {
      && netLen != netLenRefcount as object && netLen.Length == netLenRefcount.Length == MR_HELPER_NET_LEN
      && cacheGeneration < 0x1_0000_0000
      && 0 <= nNetLen <= MR_HELPER_NET_LEN
      && (forall i :: 0 <= i < MR_HELPER_NET_LEN ==> netLenRefcount[i] >= 0)
      && netLen[..nNetLen] == AllLengths(netLenRefcount[..])
    }

    constructor ()
      ensures Valid() && cacheGeneration == 0 && nNetLen == 0 && fresh(netLen) && fresh(netLenRefcount)
      ensures forall i :: 0 <= i < MR_HELPER_NET_LEN ==> netLenRefcount[i] == 0
    {
      cacheGeneration, nNetLen := 0, 0;
      netLen := new nat[MR_HELPER_NET_LEN](_ => 0);
      netLenRefcount := new int[MR_HELPER_NET_LEN](_ => 0);
      new;
      NoLengths(netLenRefcount[..], MR_HELPER_NET_LEN);
    }

    /** mroute_helper_regenerate */
    method Regenerate()
      requires netLen != netLenRefcount as object && netLen.Length == netLenRefcount.Length == MR_HELPER_NET_LEN
      modifies this`nNetLen, netLen
      ensures 0 <= nNetLen <= MR_HELPER_NET_LEN
      ensures netLen[..nNetLen] == AllLengths(netLenRefcount[..])
    {
      hide Lengths;
      ghost var refcount := netLenRefcount[..];
      var i, j := MR_HELPER_NET_LEN - 1, 0;
      assert netLen[..0] == [];
      NothingBefore(AllLengths(refcount));
      while i >= 0
        invariant -1 <= i < MR_HELPER_NET_LEN && 0 <= j <= MR_HELPER_NET_LEN - 1 - i
        invariant netLen[..j] + Lengths(refcount, i + 1) == AllLengths(refcount)
      {
        ghost var done := netLen[..j];
        OneLength(done, refcount, i);
        if netLenRefcount[i] > 0 {
          netLen[j] := i;
          j := j + 1;
          assert netLen[..j] == done + [i];
        }
        i := i - 1;
      }
      NothingAfter(netLen[..j]);
      LengthsNone(refcount);
      nNetLen := j;
    }

    /** mroute_helper_add_iroute; a host route has netbits -1. */
    method AddIroute(netbits: int)
      requires Valid() && netbits < MR_HELPER_NET_LEN
      modifies this, netLen, netLenRefcount
      ensures Valid()
      ensures netbits < 0 ==> cacheGeneration == old(cacheGeneration) && netLenRefcount[..] == old(netLenRefcount[..])
      ensures netbits >= 0 ==> cacheGeneration == (old(cacheGeneration) + 1) % 0x1_0000_0000
      ensures netbits >= 0 ==>
                netLenRefcount[..] == old(netLenRefcount[..])[netbits := old(netLenRefcount[netbits]) + 1]
    {
      if netbits >= 0 {
        ghost var before := netLenRefcount[..];
        cacheGeneration := (cacheGeneration + 1) % 0x1_0000_0000;
        netLenRefcount[netbits] := netLenRefcount[netbits] + 1;
        if netLenRefcount[netbits] == 1 {
          Regenerate();
        } else {
          SameLengths(before, netLenRefcount[..], MR_HELPER_NET_LEN);
        }
      }
    }

    /** mroute_helper_del_iroute; the source asserts that the count was positive. */
    method DelIroute(netbits: int)
      requires Valid() && netbits < MR_HELPER_NET_LEN && (netbits >= 0 ==> netLenRefcount[netbits] > 0)
      modifies this, netLen, netLenRefcount
      ensures Valid()
      ensures netbits < 0 ==> cacheGeneration == old(cacheGeneration) && netLenRefcount[..] == old(netLenRefcount[..])
      ensures netbits >= 0 ==> cacheGeneration == (old(cacheGeneration) + 1) % 0x1_0000_0000
      ensures netbits >= 0 ==>
                netLenRefcount[..] == old(netLenRefcount[..])[netbits := old(netLenRefcount[netbits]) - 1]
    {
      if netbits >= 0 {
        ghost var before := netLenRefcount[..];
        cacheGeneration := (cacheGeneration + 1) % 0x1_0000_0000;
        netLenRefcount[netbits] := netLenRefcount[netbits] - 1;
        if netLenRefcount[netbits] == 0 {
          Regenerate();
        } else {
          SameLengths(before, netLenRefcount[..], MR_HELPER_NET_LEN);
        }
      }
    }
  }
}
