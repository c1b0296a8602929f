/** What the walks of dhcp.c find in a list of options, said of the list and not of the
    walk: section 2 of RFC 2132 gives the encoding. */
module DhcpOptions {
  import opened Buffers
  import opened Dhcp
  import opened Sequences

  datatype Item = Pad | Tlv(code: Byte, data: seq<Byte>)

  predicate ValidItem(item: Item) {
    item.Tlv? ==> item.code != 0 && item.code != 255 && |item.data| <= 255
  }

  predicate ValidItems(items: seq<Item>) {
    forall i :: 0 <= i < |items| ==> ValidItem(items[i])
  }

  function EncodeOne(item: Item): seq<Byte>
    requires ValidItem(item)
  {
    match item
    case Pad => [0]
    case Tlv(code, data) => [code, |data|] + data
  }

  function Encode(items: seq<Item>): seq<Byte>
    requires ValidItems(items)
  {
    if items == [] then [] else EncodeOne(items[0]) + Encode(items[1..])
  }

  /** Where a list of options stops: at the end of the bytes, at the end option, or at an
      option that is cut off. */
  predicate Stops(tail: seq<Byte>) {
    tail == [] || tail[0] == 255 || (tail[0] != 0 && (|tail| < 2 || tail[1] + 2 > |tail|))
  }

  /** The big-endian value of the first four bytes of an option. */
  function Address(item: Item): int {
    if item.Pad? || |item.data| < 4 then 0
    else
      var a: int, b: int, c: int, d: int := item.data[0], item.data[1], item.data[2], item.data[3];
      a * 0x100_0000 + b * 0x1_0000 + c * 0x100 + d
  }

  /** A router option from which the address is taken. */
  predicate GivesAddress(item: Item) {
    item.Tlv? && item.code == 3 && |item.data| >= 4 && |item.data| % 4 == 0
    && !(item.data[0] == item.data[1] == item.data[2] == item.data[3] == 0)
  }

  /** The options with every router option replaced by padding. */
  function WithoutRouters(items: seq<Item>): (r: seq<Item>)
    ensures ValidItems(items) ==> ValidItems(r)
  {
    if items == [] then []
    else
      var rest := WithoutRouters(items[1..]);
      if items[0].Tlv? && items[0].code == 3 then seq(|items[0].data| + 2, _ => Pad) + rest else [items[0]] + rest
  }

  /** Every sequence of bytes is a list of options and what stops it. */
  lemma {:induction false} ListOfOptions(s: seq<Byte>) returns (items: seq<Item>, tail: seq<Byte>)
    ensures ValidItems(items) && Stops(tail) && s == Encode(items) + tail
    decreases |s|
  {
    if Stops(s) {
      items, tail := [], s;
    } else {
      var item := if s[0] == 0 then Pad else Tlv(s[0], s[2..s[1] + 2]);
      var n := |EncodeOne(item)|;
      assert EncodeOne(item) == s[..n];
      var rest;
      rest, tail := ListOfOptions(s[n..]);
      items := [item] + rest;
      assert items[1..] == rest;
      ConcatAssociates(EncodeOne(item), Encode(rest), tail);
      assert s == s[..n] + s[n..];
    }
  }

  /** The walk at an option of such a list. */
  lemma AtOption(item: Item, rest: seq<Byte>)
    requires ValidItem(item)
    ensures var s := EncodeOne(item) + rest;
            && More(s) && Size(s) == |EncodeOne(item)| && s[Size(s)..] == rest && s[..Size(s)] == EncodeOne(item)
            && (RouterFits(s) <==> item.Tlv? && item.code == 3)
            && s[0] == (if item.Pad? then 0 else item.code)
            && (item.Tlv? ==> s[1] == |item.data| && s[2..|item.data| + 2] == item.data)
  {
    var s := EncodeOne(item) + rest;
    assert s[..|EncodeOne(item)|] == EncodeOne(item) && s[|EncodeOne(item)|..] == rest;
    if item.Tlv? {
      assert s[2..|item.data| + 2] == EncodeOne(item)[2..] == item.data;
    }
  }

  lemma EncodedFirst(items: seq<Item>, tail: seq<Byte>)
    requires ValidItems(items) && items != []
    ensures Encode(items) + tail == EncodeOne(items[0]) + (Encode(items[1..]) + tail)
  {
    ConcatAssociates(EncodeOne(items[0]), Encode(items[1..]), tail);
  }

  lemma AtStop(tail: seq<Byte>, found: int)
    requires Stops(tail)
    ensures Router(tail, found) == found && MessageType(tail) == -1 && Stripped(tail) == tail
  {
    if More(tail) {
      assert Size(tail) == |tail| && tail[|tail|..] == [] && !RouterFits(tail);
      assert tail[..|tail|] + [] == tail;
    }
  }

  lemma RouterAt(item: Item, rest: seq<Byte>, found: int)
    requires ValidItem(item)
    ensures Router(EncodeOne(item) + rest, found) ==
            Router(rest, if found == 0 && GivesAddress(item) then Address(item) else found)
    ensures GivesAddress(item) ==> Address(item) != 0
  {
    var s := EncodeOne(item) + rest;
    AtOption(item, rest);
    if RouterFits(s) {
      RouterStep(s, found);
      if |item.data| >= 4 {
        assert s[2..6] == s[2..|item.data| + 2][..4] == item.data[..4];
      }
    }
  }

  lemma {:induction false} FoundStays(items: seq<Item>, tail: seq<Byte>, found: int)
    requires ValidItems(items) && Stops(tail) && found != 0
    ensures Router(Encode(items) + tail, found) == found
  {
    hide Router, EncodeOne, GivesAddress;
    if items == [] {
      assert Encode(items) + tail == tail;
      AtStop(tail, found);
    } else {
      EncodedFirst(items, tail);
      RouterAt(items[0], Encode(items[1..]) + tail, found);
      FoundStays(items[1..], tail, found);
    }
  }

  /** The address returned is that of the first router option that gives one, whatever
      follows it; zero if there is none. */
  lemma {:induction false} FirstRouterIsReturned(items: seq<Item>, tail: seq<Byte>)
    requires ValidItems(items) && Stops(tail)
    ensures forall k :: 0 <= k < |items| && GivesAddress(items[k])
                        && (forall j :: 0 <= j < k ==> !GivesAddress(items[j]))
              ==> Router(Encode(items) + tail, 0) == Address(items[k])
    ensures (forall k :: 0 <= k < |items| ==> !GivesAddress(items[k])) ==> Router(Encode(items) + tail, 0) == 0
  {
    hide Router, EncodeOne, GivesAddress;
    if items == [] {
      assert Encode(items) + tail == tail;
      AtStop(tail, 0);
    } else {
      EncodedFirst(items, tail);
      RouterAt(items[0], Encode(items[1..]) + tail, 0);
      if GivesAddress(items[0]) {
        FoundStays(items[1..], tail, Address(items[0]));
      } else {
        FirstRouterIsReturned(items[1..], tail);
        assert forall k :: 1 <= k < |items| ==> items[k] == items[1..][k - 1];
      }
    }
  }

  /** The message type is the one byte of the first message type option, if that has one
      byte and is not cut off. */
  lemma {:induction false} FirstTypeIsReturned(items: seq<Item>, tail: seq<Byte>)
    requires ValidItems(items) && Stops(tail)
    ensures forall k :: 0 <= k < |items| && IsType(items[k]) && (forall j :: 0 <= j < k ==> !IsType(items[j]))
              ==> MessageType(Encode(items) + tail) == if |items[k].data| == 1 then items[k].data[0] else -1
    ensures (forall k :: 0 <= k < |items| ==> !IsType(items[k])) ==> MessageType(Encode(items) + tail) == -1
  {
    hide MessageType, EncodeOne, IsType;
    if items == [] {
      assert Encode(items) + tail == tail;
      AtStop(tail, 0);
    } else {
      EncodedFirst(items, tail);
      TypeAt(items[0], Encode(items[1..]) + tail);
      if !IsType(items[0]) {
        FirstTypeIsReturned(items[1..], tail);
        assert forall k :: 1 <= k < |items| ==> items[k] == items[1..][k - 1];
      }
    }
  }

  predicate IsType(item: Item) {
    item.Tlv? && item.code == 53
  }

  lemma TypeAt(item: Item, rest: seq<Byte>)
    requires ValidItem(item)
    ensures MessageType(EncodeOne(item) + rest) ==
            if !IsType(item) then MessageType(rest) else if |item.data| == 1 then item.data[0] else -1
  {
    AtOption(item, rest);
    if IsType(item) && |item.data| == 1 {
      var s := EncodeOne(item) + rest;
      assert s[2..3][0] == s[2];
    }
  }

  /** What is left are the same options, with padding for the router options, and what
      follows the list. */
  lemma {:induction false} RoutersBecomePadding(items: seq<Item>, tail: seq<Byte>)
    requires ValidItems(items) && Stops(tail)
    ensures Stripped(Encode(items) + tail) == Encode(WithoutRouters(items)) + tail
  {
    hide Stripped, EncodeOne;
    if items == [] {
      assert Encode(items) + tail == tail;
      AtStop(tail, 0);
    } else {
      var first, rest := items[0], Encode(items[1..]) + tail;
      EncodedFirst(items, tail);
      RoutersBecomePadding(items[1..], tail);
      AtOption(first, rest);
      StrippedFront(EncodeOne(first) + rest);
      var others := WithoutRouters(items[1..]);
      if first.Tlv? && first.code == 3 {
        PaddingIsEncoded(|first.data| + 2, others);
        ConcatAssociates(Pads(|first.data| + 2), Encode(others), tail);
        EncodedLength(first);
      } else {
        assert ([first] + others)[1..] == others;
        ConcatAssociates(EncodeOne(first), Encode(others), tail);
      }
    }
  }

  lemma EncodedLength(item: Item)
    requires ValidItem(item) && item.Tlv?
    ensures |EncodeOne(item)| == |item.data| + 2
  {
  }

  lemma {:induction false} PaddingIsEncoded(n: nat, others: seq<Item>)
    requires ValidItems(others)
    ensures Encode(seq(n, _ => Pad) + others) == Pads(n) + Encode(others)
  {
    var items := seq(n, _ => Pad) + others;
    if n == 0 {
      assert items == others;
      PadsNone(Encode(others));
    } else {
      assert items[1..] == seq(n - 1, _ => Pad) + others;
      PaddingIsEncoded(n - 1, others);
      assert [DHCP_PAD] + (Pads(n - 1) + Encode(others)) == Pads(n) + Encode(others);
    }
  }
}
