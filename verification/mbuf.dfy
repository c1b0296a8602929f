/** The queue of packets shared between clients: a ring of items in a power of two
    of slots, with counted references to the buffers. */
module Mbufs {
  import opened Bits
  import opened Options

  /** struct mbuf_item.  Buffers and clients are known by number; an item whose client
      has gone has neither. */
  datatype Item = Item(buffer: Option<int>, instance: Option<int>)

  const GONE := Item(None, None)

  predicate Full(item: Item) {
    item.buffer.Some? && item.instance.Some?
  }

  /** The items whose client is still there. */
  function Live(q: seq<Item>): seq<Item> {
    if q == [] then [] else (if q[0].instance.Some? then [q[0]] else []) + Live(q[1..])
  }

  function Reference(item: Item): multiset<int> {
    if item.buffer.Some? then multiset{item.buffer.value} else multiset{}
  }

  /** A holder that takes a reference and gives it up again. */
  lemma TakenAndGiven(holders: multiset<int>, item: Item)
    ensures holders + Reference(item) - Reference(item) == holders
  {
  }

  /** How often each buffer is held by a queue. */
  function Held(q: seq<Item>): multiset<int> {
    if q == [] then multiset{} else Reference(q[0]) + Held(q[1..])
  }

  /** The queue after a client has gone. */
  function Dereferenced(q: seq<Item>, mi: int): seq<Item> {
    if q == [] then [] else [if q[0].instance == Some(mi) then GONE else q[0]] + Dereferenced(q[1..], mi)
  }

  /** What is left after taking out the first live item, and all before it. */
  function Rest(q: seq<Item>): (r: seq<Item>)
    ensures |r| <= |q|
  {
    if q == [] then [] else if q[0].instance.Some? then q[1..] else Rest(q[1..])
  }

  predicate AllValid(q: seq<Item>) {
    forall i :: 0 <= i < |q| ==> Full(q[i]) || q[i] == GONE
  }

  lemma {:induction false} LiveAppended(q: seq<Item>, item: Item)
    ensures Live(q + [item]) == Live(q) + (if item.instance.Some? then [item] else [])
  {
    if q == [] {
      assert q + [item] == [item] && [item][1..] == [];
    } else {
      LiveAppended(q[1..], item);
      assert (q + [item])[1..] == q[1..] + [item];
      assert Live(q + [item]) == (if q[0].instance.Some? then [q[0]] else []) + Live(q[1..] + [item]);
    }
  }

  lemma HeldNone(outside: multiset<int>)
    ensures Held([]) + outside == outside
  {
  }

  lemma HeldFirst(q: seq<Item>, outside: multiset<int>)
    requires q != [] && AllValid(q)
    ensures Held(q[1..]) + (outside + Reference(q[0])) == Held(q) + outside && AllValid(q[1..])
  {
  }

  lemma {:induction false} HeldAppended(q: seq<Item>, item: Item)
    ensures Held(q + [item]) == Held(q) + Reference(item)
  {
    if q == [] {
      assert q + [item] == [item] && [item][1..] == [];
    } else {
      HeldAppended(q[1..], item);
      assert (q + [item])[1..] == q[1..] + [item];
      assert Held(q + [item]) == Reference(q[0]) + Held(q[1..] + [item]);
    }
  }

  /** The rest is the rest of the live items, and no longer holds the first one. */
  lemma {:induction false} RestIsTail(q: seq<Item>)
    requires AllValid(q)
    ensures if Live(q) == [] then Rest(q) == [] && Held(q) == multiset{}
            else && Live(Rest(q)) == Live(q)[1..] && |Rest(q)| < |q|
                 && Held(q) == Reference(Live(q)[0]) + Held(Rest(q)) && Full(Live(q)[0])
    ensures AllValid(Rest(q))
  {
    if q != [] {
      if q[0].instance.Some? {
        assert Live(q)[1..] == Live(q[1..]);
      } else {
        RestIsTail(q[1..]);
        assert Live(q) == Live(q[1..]);
      }
    }
  }

  lemma ClearedIsValid(q: seq<Item>, i: nat)
    requires AllValid(q) && i < |q|
    ensures AllValid(q[i := GONE])
  {
  }

  /** A client's items go, all others stay in order. */
  function Others(live: seq<Item>, mi: int): seq<Item> {
    if live == [] then [] else (if live[0].instance == Some(mi) then [] else [live[0]]) + Others(live[1..], mi)
  }

  lemma {:induction false} DereferencedLive(q: seq<Item>, mi: int)
    requires AllValid(q)
    ensures Live(Dereferenced(q, mi)) == Others(Live(q), mi)
    ensures |Dereferenced(q, mi)| == |q| && AllValid(Dereferenced(q, mi))
  {
    if q != [] {
      DereferencedLive(q[1..], mi);
      var rest := Dereferenced(q[1..], mi);
      assert Dereferenced(q, mi)[1..] == rest;
      if q[0].instance.None? {
        assert Live(q) == Live(q[1..]) && Live(Dereferenced(q, mi)) == Live(rest);
      } else {
        assert Live(q)[1..] == Live(q[1..]);
        if q[0].instance == Some(mi) {
          assert Live(Dereferenced(q, mi)) == Live(rest);
        }
      }
    }
  }

  lemma {:induction false} DereferencedAt(q: seq<Item>, mi: int, r: seq<Item>)
    requires |r| == |q| && forall j :: 0 <= j < |q| ==> r[j] == if q[j].instance == Some(mi) then GONE else q[j]
    ensures r == Dereferenced(q, mi)
  {
    if q != [] {
      DereferencedAt(q[1..], mi, r[1..]);
      assert r == [r[0]] + r[1..];
    }
  }

  lemma {:induction false} HeldUpdated(q: seq<Item>, i: nat)
    requires i < |q|
    ensures Held(q) == Held(q[i := GONE]) + Reference(q[i])
  {
    if i == 0 {
      assert q[0 := GONE][1..] == q[1..];
    } else {
      HeldUpdated(q[1..], i - 1);
      assert q[i := GONE][1..] == q[1..][i - 1 := GONE];
    }
  }

  lemma HeldWithout(q: seq<Item>, i: nat, outside: multiset<int>)
    requires i < |q| && q[i].buffer.Some?
    ensures Held(q) + outside == Held(q[i := GONE]) + outside + multiset{q[i].buffer.value}
  {
    HeldUpdated(q, i);
  }

  // Reference counts

  /** A buffer exists exactly while someone holds it, and counts its holders. */
  ghost predicate Counted(refs: map<int, nat>, holders: multiset<int>) {
    forall b :: (b in refs <==> b in holders) && (b in refs ==> refs[b] == holders[b])
  }

  /** The counts after mbuf_free_buf: at zero the buffer is freed. */
  function Released(refs: map<int, nat>, b: int): map<int, nat>
    requires b in refs && refs[b] > 0
  {
    if refs[b] - 1 <= 0 then refs - {b} else refs[b := refs[b] - 1]
  }

  lemma ReleasedIsCounted(refs: map<int, nat>, holders: multiset<int>, b: int)
    requires Counted(refs, holders + multiset{b})
    ensures b in refs && refs[b] > 0 && Counted(Released(refs, b), holders)
  {
    assert (holders + multiset{b})[b] > 0;
  }

  lemma AddedIsCounted(refs: map<int, nat>, holders: multiset<int>, b: int)
    requires Counted(refs, holders)
    ensures b in holders ==> b in refs
    ensures Counted(refs[b := (if b in refs then refs[b] else 0) + 1], holders + multiset{b})
  {
  }

  /** MBUF_INDEX steps around the ring. */
  lemma IndexWraps(head: nat, offset: nat, log: nat)
    requires head < Pow2(log) && offset <= Pow2(log)
    ensures And(head + offset, Pow2(log) - 1) ==
            if head + offset < Pow2(log) then head + offset else head + offset - Pow2(log)
  {
    hide And, Pow2;
    AndLow(head + offset, log);
    if head + offset < Pow2(log) {
      RemainderUnique(head + offset, Pow2(log), 0, head + offset);
    } else {
      RemainderUnique(head + offset, Pow2(log), 1, head + offset - Pow2(log));
    }
  }

  /** The slots of a ring that are in use, in order. */
  function Ring<T>(slots: seq<T>, head: nat, len: nat): (q: seq<T>)
    requires head <= |slots| && len <= |slots|
    ensures |q| == len
  {
    if head + len <= |slots| then slots[head..head + len] else slots[head..] + slots[..head + len - |slots|]
  }

  function Slot(head: nat, offset: nat, capacity: nat): nat {
    if head + offset < capacity then head + offset else head + offset - capacity
  }

  lemma RingAt<T>(slots: seq<T>, head: nat, len: nat, i: nat)
    requires head < |slots| && i < len <= |slots|
    ensures Ring(slots, head, len)[i] == slots[Slot(head, i, |slots|)]
  {
  }

  lemma RingRest<T>(slots: seq<T>, head: nat, len: nat)
    requires head < |slots| && 0 < len <= |slots|
    ensures Ring(slots, Slot(head, 1, |slots|), len - 1) == Ring(slots, head, len)[1..]
  {
  }

  lemma RingMore<T>(slots: seq<T>, head: nat, len: nat, x: T)
    requires head < |slots| && len < |slots|
    ensures Ring(slots[Slot(head, len, |slots|) := x], head, len + 1) == Ring(slots, head, len) + [x]
  {
  }

  lemma RingUpdated<T>(slots: seq<T>, head: nat, len: nat, i: nat, x: T)
    requires head < |slots| && i < len <= |slots|
    ensures Ring(slots[Slot(head, i, |slots|) := x], head, len) == Ring(slots, head, len)[i := x]
  {
  }

  class MbufSet {
    var head: nat
    var len: nat
    const capacity: nat
    var maxQueued: nat
    const items: array<Item>
    var refcount: map<int, nat>       // of every buffer that has not been freed
    ghost const log: nat
    ghost var outside: multiset<int>  // references held outside this queue

    ghost function Queue(): (q: seq<Item>)
      requires head <= items.Length && len <= items.Length
      reads this`head, this`len, items
      ensures |q| == len
    {
      Ring(items[..], head, len)
    }

    ghost predicate RingValid()
      reads this`head, this`len
    {
      items.Length == capacity == Pow2(log) && head < capacity && len <= capacity
    }

    ghost predicate Valid()
      reads this, items
    {
      && RingValid()
      && AllValid(Queue()) && Counted(refcount, Held(Queue()) + outside)
    }

    /** mbuf_init; the size is rounded up to a power of two. */
    constructor (size: nat)
      ensures Valid() && Queue() == [] && refcount == map[] && outside == multiset{} && maxQueued == 0
      ensures capacity >= size && fresh(items)
    {
      var n := 1;
      ghost var l := 0;
      while n < size
        invariant n == Pow2(l)
        decreases size - n
      {
        n := n * 2;
        l := l + 1;
      }
      capacity, head, len, maxQueued, log := n, 0, 0, 0, l;
      items := new Item[n](_ => GONE);
      refcount, outside := map[], multiset{};
    }

    function Index(offset: nat): nat
      reads this
      requires capacity > 0
    {
      And(head + offset, capacity - 1)
    }

    lemma IndexIsSlot(offset: nat)
      requires RingValid() && offset <= capacity
      ensures Index(offset) == Slot(head, offset, capacity)
      ensures offset < len ==> Queue()[offset] == items[Index(offset)]
    {
      hide And, Pow2, Ring;
      IndexWraps(head, offset, log);
      if offset < len {
        RingAt(items[..], head, len, offset);
      }
    }

    /** Step over the first slot of the ring. */
    method Advance() returns (item: Item)
      requires RingValid() && len > 0
      modifies this`head, this`len
      ensures RingValid() && item == old(Queue())[0] && Queue() == old(Queue())[1..]
    {
      hide And, Pow2, Ring;
      IndexIsSlot(0);
      IndexIsSlot(1);
      RingRest(items[..], head, len);
      item := items[head];
      head := Index(1);
      len := len - 1;
    }

    /** Take the first slot off the ring. */
    method Pop() returns (item: Item)
      requires Valid() && len > 0
      modifies this`head, this`len, this`outside
      ensures Valid() && item == old(Queue())[0] && Queue() == old(Queue())[1..]
      ensures outside == old(outside) + Reference(item)
    {
      hide And, Pow2, Counted, Held, AllValid, Queue, Reference;
      HeldFirst(Queue(), outside);
      item := Advance();
      outside := outside + Reference(item);
    }

    /** Allocate a buffer at an address not in use, for the caller to hold. */
    method AllocBuf(b: int)
      requires Valid() && b !in refcount
      modifies this`refcount, this`outside
      ensures Valid() && refcount == old(refcount)[b := 1] && outside == old(outside) + multiset{b}
    {
      AddedIsCounted(refcount, Held(Queue()) + outside, b);
      refcount := refcount[b := 1];
      outside := outside + multiset{b};
      assert Held(Queue()) + outside == Held(Queue()) + old(outside) + multiset{b};
    }

    /** mbuf_free_buf, by a holder outside the queue. */
    method FreeBuf(buffer: Option<int>)
      requires Valid() && (buffer.Some? ==> buffer.value in outside)
      modifies this`refcount, this`outside
      ensures Valid() && outside == old(outside) - Reference(Item(buffer, None))
    {
      hide And, Pow2, Counted, Held, AllValid;
      if buffer.Some? {
        var b := buffer.value;
        ghost var others := outside - multiset{b};
        assert others + multiset{b} == outside;
        assert Held(Queue()) + outside == Held(Queue()) + others + multiset{b};
        ReleasedIsCounted(refcount, Held(Queue()) + others, b);
        Release(b);
        outside := others;
      }
    }

    method Release(b: int)
      requires b in refcount && refcount[b] > 0
      modifies this`refcount
      ensures refcount == Released(old(refcount), b)
    {
      refcount := refcount[b := refcount[b] - 1];
      if refcount[b] <= 0 {
        refcount := refcount - {b};
      }
    }

    /** mbuf_extract_item: the first live item, whose buffer the caller now holds. */
    method ExtractItem() returns (item: Option<Item>)
      requires Valid()
      modifies this`head, this`len, this`outside
      ensures Valid() && Queue() == Rest(old(Queue()))
      ensures item == if Live(old(Queue())) == [] then None else Some(Live(old(Queue()))[0])
      ensures outside == old(outside) + (if item.Some? then Reference(item.value) else multiset{})
    {
      while len > 0
        invariant Valid() && outside == old(outside)
        invariant Rest(Queue()) == Rest(old(Queue())) && Live(Queue()) == Live(old(Queue()))
        decreases len
      {
        ghost var q := Queue();
        var first := Pop();
        assert Live(q) == (if first.instance.Some? then [first] else []) + Live(q[1..]);
        if first.instance.Some? {
          return Some(first);
        }
      }
      item := None;
    }

    /** mbuf_peek */
    method Peek() returns (instance: Option<int>)
      requires Valid()
      ensures instance == if Live(Queue()) == [] then None else Live(Queue())[0].instance
    {
      var i := 0;
      while i < len
        invariant 0 <= i <= len && Live(Queue()) == Live(Queue()[i..])
      {
        IndexIsSlot(i);
        var item := items[Index(i)];
        assert Queue()[i..][0] == item && Queue()[i..][1..] == Queue()[i + 1..];
        if item.instance.Some? {
          return item.instance;
        }
        i := i + 1;
      }
      instance := None;
    }

    /** mbuf_add_item, for a buffer the caller holds.  A full ring loses its first live
        item; with none the assertion in the source ends the program. */
    method AddItem(item: Item) returns (ok: bool)
      requires Valid() && Full(item) && item.buffer.value in outside
      modifies this`head, this`len, this`maxQueued, this`refcount, this`outside, items
      ensures ok <==> !(old(len) == capacity && Live(old(Queue())) == [])
      ensures ok ==> Valid() && outside == old(outside)
      ensures ok ==> Queue() == (if old(len) == capacity then Rest(old(Queue())) else old(Queue())) + [item]
      ensures ok ==>
                Live(Queue()) == (if old(len) == capacity then Live(old(Queue()))[1..] else Live(old(Queue()))) + [item]
      ensures ok ==> maxQueued == if len > old(maxQueued) then len else old(maxQueued)
    {
      hide And, Pow2, Counted, Held, AllValid, Live, Rest;
      if len == capacity {
        var dropped := DropFirst();
        if !dropped {
          return false;
        }
      }
      LiveAppended(Queue(), item);
      PutCounted(item);
      ok := true;
    }

    /** Take out the first live item of a full ring and free its buffer. */
    method DropFirst() returns (ok: bool)
      requires Valid() && len > 0
      modifies this`head, this`len, this`refcount, this`outside
      ensures ok <==> Live(old(Queue())) != []
      ensures ok ==> Valid() && outside == old(outside) && Queue() == Rest(old(Queue())) && len < old(len)
      ensures ok ==> Live(Queue()) == Live(old(Queue()))[1..]
    {
      hide And, Pow2, Counted, Held, AllValid, Live, Rest, Queue;
      RestIsTail(Queue());
      var rm := ExtractItem();
      ok := rm.Some?;
      if ok {
        TakenAndGiven(old(outside), rm.value);
        FreeBuf(rm.value.buffer);
      }
    }

    /** Write an item behind the last one. */
    method Put(item: Item)
      requires RingValid() && len < capacity
      modifies this`len, this`maxQueued, items
      ensures RingValid() && Queue() == old(Queue()) + [item]
      ensures maxQueued == if len > old(maxQueued) then len else old(maxQueued)
    {
      hide And, Pow2, Ring;
      IndexIsSlot(len);
      RingMore(items[..], head, len, item);
      items[Index(len)] := item;
      assert items[..] == old(items[..])[Slot(head, len, capacity) := item];
      len := len + 1;
      if len > maxQueued {
        maxQueued := len;
      }
    }

    /** Queue an item and count the reference. */
    method PutCounted(item: Item)
      requires Valid() && Full(item) && item.buffer.value in outside && len < capacity
      modifies this`len, this`maxQueued, this`refcount, items
      ensures Valid() && Queue() == old(Queue()) + [item]
      ensures maxQueued == if len > old(maxQueued) then len else old(maxQueued)
    {
      hide And, Pow2, Counted, Held;
      ghost var q, b := Queue(), item.buffer.value;
      HeldAppended(q, item);
      AddedIsCounted(refcount, Held(q) + outside, b);
      assert Held(q) + outside + multiset{b} == Held(q + [item]) + outside;
      Put(item);
      refcount := refcount[item.buffer.value := refcount[item.buffer.value] + 1];
    }

    /** `item->buffer = NULL; item->instance = NULL` */
    method Clear(i: nat)
      requires RingValid() && i < len
      modifies items
      ensures RingValid() && Queue() == old(Queue())[i := GONE]
    {
      hide And, Pow2, Ring;
      IndexIsSlot(i);
      RingUpdated(items[..], head, len, i, GONE);
      items[Index(i)] := GONE;
      assert items[..] == old(items[..])[Slot(head, i, capacity) := GONE];
    }

    /** Free the buffer of a queued item and forget its client. */
    method Forget(i: nat)
      requires Valid() && i < len && Full(Queue()[i])
      modifies this`refcount, items
      ensures Valid() && Queue() == old(Queue())[i := GONE]
    {
      hide And, Pow2, Counted, Held, AllValid, Queue;
      ghost var q := Queue();
      ClearedIsValid(q, i);
      HeldWithout(q, i, outside);
      IndexIsSlot(i);
      var item := items[Index(i)];
      ReleasedIsCounted(refcount, Held(q[i := GONE]) + outside, item.buffer.value);
      Release(item.buffer.value);
      Clear(i);
    }

    /** An item that has a client has a buffer. */
    lemma FullAt(i: nat)
      requires Valid() && i < len && Queue()[i].instance.Some?
      ensures Full(Queue()[i])
    {
      assert Full(Queue()[i]) || Queue()[i] == GONE;
    }

    /** mbuf_dereference_instance: the buffers of a client's items are freed and the
        items stay behind, empty. */
    method DereferenceInstance(mi: int)
      requires Valid()
      modifies this`refcount, items
      ensures Valid() && Queue() == Dereferenced(old(Queue()), mi)
      ensures Live(Queue()) == Others(Live(old(Queue())), mi)
    {
      hide And, Pow2, Counted, Held, AllValid, Queue, Dereferenced, Live, Others;
      ghost var q := Queue();
      var i := 0;
      while i < len
        invariant 0 <= i <= len && Valid()
        invariant forall j :: 0 <= j < len ==> Queue()[j] == if j < i && q[j].instance == Some(mi) then GONE else q[j]
      {
        IndexIsSlot(i);
        if items[Index(i)].instance == Some(mi) {
          FullAt(i);
          Forget(i);
        }
        i := i + 1;
      }
      DereferencedAt(q, mi, Queue());
      DereferencedLive(q, mi);
    }

    /** mbuf_free: the queue gives up its buffers. */
    method Free()
      requires Valid()
      modifies this`refcount
      ensures Counted(refcount, outside)
    {
      hide And, Pow2, Counted, Held, Queue;
      ghost var q := Queue();
      var i := 0;
      while i < len
        invariant 0 <= i <= len && Counted(refcount, Held(q[i..]) + outside)
      {
        IndexIsSlot(i);
        var item := items[Index(i)];
        HeldFirst(q[i..], outside);
        assert q[i..][1..] == q[i + 1..];
        if item.buffer.Some? {
          ghost var others := Held(q[i + 1..]) + outside;
          assert Held(q[i..]) + outside == others + multiset{item.buffer.value};
          ReleasedIsCounted(refcount, others, item.buffer.value);
          Release(item.buffer.value);
        } else {
          assert outside + Reference(item) == outside;
        }
        i := i + 1;
      }
      assert q[i..] == [];
      HeldNone(outside);
    }
  }
}
