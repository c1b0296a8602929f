/** The walk over DHCP options (RFC 2132) that takes out the router options: dhcp.c. */
module Dhcp {
  import opened Bits
  import opened Buffers
  import opened Sequences
  import FragmentHeader

  const DHCP_PAD: Byte := 0
  const DHCP_ROUTER: Byte := 3
  const DHCP_MSG_TYPE: Byte := 53
  const DHCP_END: Byte := 255

  /** The walk goes on with the option at the front. */
  predicate More(s: seq<Byte>) {
    s != [] && s[0] != DHCP_END
  }

  /** How many bytes the walk steps over, within the options. */
  function Size(s: seq<Byte>): (n: nat)
    requires s != []
    ensures 1 <= n <= |s|
  {
    if s[0] == DHCP_PAD || |s| < 2 then 1 else if s[1] + 2 <= |s| then s[1] + 2 else |s|
  }

  /** A router option whose contents are all there. */
  predicate RouterFits(s: seq<Byte>) {
    |s| >= 2 && s[0] == DHCP_ROUTER && s[1] + 2 <= |s|
  }

  function Pads(n: nat): (r: seq<Byte>)
    ensures |r| == n
  {
    seq(n, _ => DHCP_PAD)
  }

  /** The options after do_extract. */
  function Stripped(s: seq<Byte>): (r: seq<Byte>)
    ensures |r| == |s|
    decreases |s|
  {
    if !More(s) then s
    else
      var n := Size(s);
      (if RouterFits(s) then Pads(n) else s[..n]) + Stripped(s[n..])
  }

  /** The address a router option gives, if its length is a positive multiple of four. */
  function AddressOf(s: seq<Byte>): int
    requires RouterFits(s)
  {
    if s[1] >= 4 && s[1] % 4 == 0 then FragmentHeader.FromNetwork(s[2..6]) else 0
  }

  /** The first address other than zero, after one that was found before. */
  function Router(s: seq<Byte>, found: int): int
    decreases |s|
  {
    if !More(s) then found
    else Router(s[Size(s)..], if found == 0 && RouterFits(s) then AddressOf(s) else found)
  }

  function MessageType(s: seq<Byte>): int
    decreases |s|
  {
    if !More(s) then -1
    else if s[0] == DHCP_MSG_TYPE then if |s| >= 3 && s[1] == 1 then s[2] else -1
    else MessageType(s[Size(s)..])
  }

  datatype Opt = Opt(position: nat, bytes: seq<Byte>)

  /** The options met, other than padding and the router options taken out. */
  function Others(s: seq<Byte>, position: nat): seq<Opt>
    decreases |s|
  {
    if s == [] then []
    else if s[0] == DHCP_END then [Opt(position, s)]
    else
      var n := Size(s);
      (if s[0] == DHCP_PAD || RouterFits(s) then [] else [Opt(position, s[..n])]) + Others(s[n..], position + n)
  }

  /** The bytes of the router options taken out. */
  predicate InRouter(s: seq<Byte>, j: nat)
    decreases |s|
  {
    More(s) && if j < Size(s) then RouterFits(s) else InRouter(s[Size(s)..], j - Size(s))
  }

  // What taking out the router options keeps

  /** Exactly the bytes of the fitting router options become padding. */
  lemma {:induction false} OnlyRoutersChange(s: seq<Byte>, j: nat)
    requires j < |s|
    ensures Stripped(s)[j] == if InRouter(s, j) then DHCP_PAD else s[j]
    decreases |s|
  {
    if More(s) && j >= Size(s) {
      OnlyRoutersChange(s[Size(s)..], j - Size(s));
    }
  }

  lemma PadFirst(n: nat, t: seq<Byte>)
    requires n > 0
    ensures var s := Pads(n) + t;
            s[0] == DHCP_PAD && More(s) && Size(s) == 1 && !RouterFits(s) && s[1..] == Pads(n - 1) + t
  {
  }

  lemma PadsNone(t: seq<Byte>)
    ensures Pads(0) + t == t
  {
  }

  // The walk passes over padding.

  lemma OnePad(s: seq<Byte>, position: nat)
    requires More(s) && s[0] == DHCP_PAD
    ensures Router(s, 0) == Router(s[1..], 0) && MessageType(s) == MessageType(s[1..])
    ensures Others(s, position) == Others(s[1..], position + 1)
  {
  }

  lemma {:induction false} PadsStay(n: nat, t: seq<Byte>)
    ensures Stripped(Pads(n) + t) == Pads(n) + Stripped(t)
    decreases n
  {
    var s := Pads(n) + t;
    if n == 0 {
      assert s == t;
    } else {
      PadFirst(n, t);
      PadsStay(n - 1, t);
      assert Stripped(s) == s[..1] + Stripped(s[1..]);
      assert s[..1] + (Pads(n - 1) + Stripped(t)) == Pads(n) + Stripped(t);
    }
  }

  lemma {:induction false} PadsArePassed(n: nat, t: seq<Byte>, position: nat)
    ensures Router(Pads(n) + t, 0) == Router(t, 0)
    ensures MessageType(Pads(n) + t) == MessageType(t)
    ensures Others(Pads(n) + t, position) == Others(t, position + n)
    decreases n
  {
    hide Router, MessageType, Others, Pads;
    if n == 0 {
      PadsNone(t);
    } else {
      PadFirst(n, t);
      OnePad(Pads(n) + t, position);
      PadsArePassed(n - 1, t, position + 1);
    }
  }

  /** Stripping keeps the option at the front, if it is none to be taken out. */
  lemma FrontIsKept(s: seq<Byte>)
    requires More(s) && !RouterFits(s)
    ensures var t := Stripped(s);
            && More(t) && !RouterFits(t) && Size(t) == Size(s) && t[0] == s[0]
            && (|s| >= 2 && s[0] != DHCP_PAD ==> t[1] == s[1])
            && (s[0] == DHCP_MSG_TYPE && |s| >= 3 && s[1] == 1 ==> t[2] == s[2])
            && t[..Size(s)] == s[..Size(s)] && t[Size(s)..] == Stripped(s[Size(s)..])
  {
  }

  /** What is done to the option at the front. */
  lemma StrippedFront(s: seq<Byte>)
    requires More(s)
    ensures Stripped(s) == (if RouterFits(s) then Pads(Size(s)) else s[..Size(s)]) + Stripped(s[Size(s)..])
  {
  }

  /** A router option taken out is none of the others. */
  lemma RouterIsPassed(s: seq<Byte>, position: nat)
    requires More(s) && RouterFits(s)
    ensures MessageType(s) == MessageType(s[Size(s)..])
    ensures Others(s, position) == Others(s[Size(s)..], position + Size(s))
  {
  }

  /** An option that stays is met in both walks. */
  lemma KeptIsMet(s: seq<Byte>, position: nat)
    requires More(s) && !RouterFits(s)
    requires var rest := s[Size(s)..];
             && MessageType(Stripped(rest)) == MessageType(rest)
             && Others(Stripped(rest), position + Size(s)) == Others(rest, position + Size(s))
    ensures MessageType(Stripped(s)) == MessageType(s)
    ensures Others(Stripped(s), position) == Others(s, position)
  {
    hide Stripped;
    FrontIsKept(s);
  }

  /** Taking out the router options does not change the message type, and the walk
      meets the same other options at the same positions. */
  lemma {:induction false} StrippingKeeps(s: seq<Byte>, position: nat)
    ensures MessageType(Stripped(s)) == MessageType(s)
    ensures Others(Stripped(s), position) == Others(s, position)
    decreases |s|
  {
    hide Stripped, MessageType, Others, Pads, RouterFits, Size;
    if More(s) {
      var n := Size(s);
      StrippingKeeps(s[n..], position + n);
      if RouterFits(s) {
        StrippedFront(s);
        PadsArePassed(n, Stripped(s[n..]), position);
        RouterIsPassed(s, position);
      } else {
        KeptIsMet(s, position);
      }
    } else {
      AtEnd(s, 0);
    }
  }

  /** It leaves nothing to take out: doing it again changes nothing and returns zero. */
  lemma {:induction false} NothingIsLeft(s: seq<Byte>)
    ensures Stripped(Stripped(s)) == Stripped(s) && Router(Stripped(s), 0) == 0
    decreases |s|
  {
    hide Stripped;
    if More(s) {
      var n := Size(s);
      NothingIsLeft(s[n..]);
      StrippedFront(s);
      if RouterFits(s) {
        PadsStay(n, Stripped(s[n..]));
        PadsArePassed(n, Stripped(s[n..]), 0);
      } else {
        FrontIsKept(s);
        StrippedFront(Stripped(s));
      }
    } else {
      AtEnd(s, 0);
    }
  }

  lemma AtEnd(rest: seq<Byte>, found: int)
    requires !More(rest)
    ensures Stripped(rest) == rest && Router(rest, found) == found
  {
  }

  // The loops

  /** The walk for the message type steps over any other option. */
  lemma MessageStep(rest: seq<Byte>)
    requires More(rest) && rest[0] != DHCP_MSG_TYPE
    ensures MessageType(rest) == MessageType(rest[Size(rest)..])
  {
  }

  lemma NoMessage()
    ensures MessageType([]) == -1
  {
  }

  /** get_dhcp_message_type */
  method GetMessageType(p: array<Byte>, optlen: nat) returns (r: int)
    requires optlen <= p.Length
    ensures r == MessageType(p[..optlen])
  {
    ghost var s := p[..optlen];
    var i := 0;
    assert s[0..] == s;
    while i < optlen
      invariant MessageType(s) == if i <= optlen then MessageType(s[i..]) else -1
      decreases optlen - i
    {
      ghost var rest := s[i..];
      assert rest[0] == p[i] && (i + 1 < optlen ==> rest[1] == p[i + 1]) && (i + 2 < optlen ==> rest[2] == p[i + 2]);
      var type_ := p[i];
      var room := optlen - i;
      if type_ == DHCP_END {
        return -1;
      } else if type_ == DHCP_PAD {
      } else if type_ == DHCP_MSG_TYPE {
        if room >= 3 {
          if p[i + 1] == 1 {
            return p[i + 2];
          }
        }
        return -1;
      } else {
        if room >= 2 {
          var len: int := p[i + 1];
          i := i + (len + 1);
        }
      }
      i := i + 1;
      NextOption(s, |s| - |rest|, i);
    }
    NoMessage();
    if i <= optlen {
      assert s[i..] == [];
    }
    r := -1;
  }

  /** One turn of it: what is left to walk, or nothing if the option is cut off. */
  lemma NextOption(s: seq<Byte>, i: nat, next: nat)
    requires i < |s| && More(s[i..]) && s[i] != DHCP_MSG_TYPE
    requires next == i + Size(s[i..]) || (next > |s| && Size(s[i..]) == |s| - i)
    ensures MessageType(s[i..]) == if next <= |s| then MessageType(s[next..]) else -1
  {
    hide MessageType, Size;
    var n := Size(s[i..]);
    MessageStep(s[i..]);
    assert s[i..][n..] == s[i + n..];
    NoMessage();
  }

  /** memset (p + from, DHCP_PAD, n) */
  method PadOut(p: array<Byte>, from: nat, n: nat)
    requires from + n <= p.Length
    modifies p
    ensures p[..] == old(p[..from]) + Pads(n) + old(p[from + n..])
  {
    ghost var s := p[..];
    assert s[..from] + Pads(0) + s[from..] == s;
    for j := 0 to n
      invariant p[..] == s[..from] + Pads(j) + s[from + j..]
    {
      PadMore(s, from, j);
      p[from + j] := DHCP_PAD;
    }
  }

  lemma PadMore(s: seq<Byte>, from: nat, j: nat)
    requires from + j < |s|
    ensures (s[..from] + Pads(j) + s[from + j..])[from + j := DHCP_PAD]
         == s[..from] + Pads(j + 1) + s[from + j + 1..]
  {
  }

  lemma LowBits(len: nat)
    ensures And(len, 3) == len % 4
  {
    AndLow(len, 2);
    assert Pow2(2) == 4;
  }

  /** What do_extract does to an option. */
  function Front(rest: seq<Byte>): seq<Byte>
    requires rest != []
  {
    if RouterFits(rest) then Pads(Size(rest)) else rest[..Size(rest)]
  }

  /** The buffer after one option of n bytes. */
  lemma Padded(s: seq<Byte>, i: nat, n: nat, optlen: nat)
    requires i + n <= optlen <= |s|
    ensures (s[..i] + Pads(n) + s[i + n..])[..optlen] == s[..i] + Pads(n) + s[i..optlen][n..]
    ensures (s[..i] + Pads(n) + s[i + n..])[optlen..] == s[optlen..]
    ensures s[..optlen] == s[..i] + s[i..optlen][..n] + s[i..optlen][n..]
  {
  }

  /** A router option of do_extract. */
  method RouterOption(p: array<Byte>, i: nat, optlen: nat, found: int) returns (ret: int, next: nat)
    requires i < optlen <= p.Length && p[i] == DHCP_ROUTER
    modifies p
    ensures var rest := old(p[i..optlen]);
            && p[..optlen] == old(p[..i]) + Front(rest) + rest[Size(rest)..]
            && p[optlen..] == old(p[optlen..])
            && ret == (if found == 0 && RouterFits(rest) then AddressOf(rest) else found)
            && next == if |rest| < 2 then i else i + old(p[i + 1]) + 1
  {
    hide And, Pads, FragmentHeader.FromNetwork;
    ret, next := found, i;
    ghost var rest := p[i..optlen];
    Padded(p[..], i, Size(rest), optlen);
    var room := optlen - i;
    if room >= 2 {
      var len: int := p[i + 1];
      if len <= room - 2 {
        LowBits(len);
        if ret == 0 && len >= 4 && And(len, 3) == 0 {
          SliceOfSlice(p[..], i, optlen - i, 2, 6);
          assert p[i + 2..i + 6] == rest[2..6];
          ret := FragmentHeader.FromNetwork(p[i + 2..i + 6]);
        }
        PadOut(p, i, len + 2);
      }
      next := i + (len + 1);
    }
  }

  /** One turn of the loop of do_extract. */
  method OneOption(p: array<Byte>, i: nat, optlen: nat, found: int) returns (ret: int, next: nat)
    requires i < optlen <= p.Length && p[i] != DHCP_END
    modifies p
    ensures var rest := old(p[i..optlen]);
            && p[..optlen] == old(p[..i]) + Front(rest) + rest[Size(rest)..]
            && p[optlen..] == old(p[optlen..])
            && ret == (if found == 0 && RouterFits(rest) then AddressOf(rest) else found)
            && (next == i + Size(rest) || (next > optlen && Size(rest) == |rest|))
  {
    var type_ := p[i];
    var room := optlen - i;
    ret, next := found, i;
    Padded(p[..], i, Size(p[i..optlen]), optlen);
    if type_ == DHCP_PAD {
    } else if type_ == DHCP_ROUTER {
      ret, next := RouterOption(p, i, optlen, ret);
    } else {
      if room >= 2 {
        var len: int := p[i + 1];
        next := next + (len + 1);
      }
    }
    next := next + 1;
  }

  lemma StepStripped(done: seq<Byte>, rest: seq<Byte>)
    requires More(rest)
    ensures done + Stripped(rest) == done + Front(rest) + Stripped(rest[Size(rest)..])
  {
    StrippedFront(rest);
    ConcatAssociates(done, Front(rest), Stripped(rest[Size(rest)..]));
  }

  lemma Parts(s: seq<Byte>, done: seq<Byte>, rest: seq<Byte>)
    requires s == done + rest
    ensures s[..|done|] == done && s[|done|..] == rest
  {
  }

  /** do_extract: the router options are padded out and the first address is returned. */
  method DoExtract(p: array<Byte>, optlen: nat) returns (ret: int)
    requires optlen <= p.Length
    modifies p
    ensures p[..optlen] == Stripped(old(p[..optlen])) && p[optlen..] == old(p[optlen..])
    ensures ret == Router(old(p[..optlen]), 0)
  {
    hide Stripped, Router, Front, RouterFits, Size, AddressOf;
    ghost var s := p[..optlen];
    ghost var done: seq<Byte>, rest := [], s;
    var i := 0;
    ret := 0;
    while i < optlen && p[i] != DHCP_END
      invariant Stripped(s) == done + Stripped(rest) && Router(s, 0) == Router(rest, ret)
      invariant p[..optlen] == done + rest && p[optlen..] == old(p[optlen..])
      invariant if i <= optlen then |done| == i else rest == []
      decreases optlen - i
    {
      Parts(p[..optlen], done, rest);
      assert p[..optlen][..i] == p[..i] && p[..optlen][i..] == p[i..optlen] && rest[0] == p[i];
      StepStripped(done, rest);
      RouterStep(rest, ret);
      ret, i := OneOption(p, i, optlen, ret);
      done, rest := done + Front(rest), rest[Size(rest)..];
    }
    if i < optlen {
      Parts(p[..optlen], done, rest);
      assert p[..optlen][i..][0] == p[i];
    }
    AtEnd(rest, ret);
  }

  lemma RouterStep(rest: seq<Byte>, found: int)
    requires More(rest)
    ensures Router(rest, found) == Router(rest[Size(rest)..],
              if found == 0 && RouterFits(rest) then AddressOf(rest) else found)
  {
  }
}
