/** Whole runs of the packet queue: in which order items leave it, what is left in it,
    and when the assertion in mbuf_add_item fails. */
module MbufRuns {
  import opened Mbufs
  import opened Options
  import opened Sequences

  datatype Op = Add(item: Item) | Take | Forget(mi: int)

  /** The assertion in mbuf_add_item fails. */
  predicate Aborts(q: seq<Item>, capacity: nat, op: Op) {
    op.Add? && |q| == capacity && Live(q) == []
  }

  /** The queue after an operation, and the item that leaves it: taken, or dropped to
      make room. */
  function Step(q: seq<Item>, capacity: nat, op: Op): (seq<Item>, seq<Item>) {
    var first := if Live(q) == [] then [] else [Live(q)[0]];
    match op
    case Add(item) => if |q| == capacity then (Rest(q) + [item], first) else (q + [item], [])
    case Take => (Rest(q), first)
    case Forget(mi) => (Dereferenced(q, mi), [])
  }

  ghost predicate Run(queues: seq<seq<Item>>, left: seq<seq<Item>>, capacity: nat, ops: seq<Op>) {
    && |queues| == |ops| + 1 && |left| == |ops| && queues[0] == []
    && forall k :: 0 <= k < |ops| ==>
         && (ops[k].Add? ==> Full(ops[k].item)) && !Aborts(queues[k], capacity, ops[k])
         && (queues[k + 1], left[k]) == Step(queues[k], capacity, ops[k])
  }

  predicate Stays(item: Item, gone: set<int>) {
    item.instance.Some? && item.instance.value !in gone
  }

  /** The items of the clients that are not gone. */
  function Of(s: seq<Item>, gone: set<int>): seq<Item> {
    if s == [] then [] else (if Stays(s[0], gone) then [s[0]] else []) + Of(s[1..], gone)
  }

  lemma {:induction false} OfConcat(s: seq<Item>, t: seq<Item>, gone: set<int>)
    ensures Of(s + t, gone) == Of(s, gone) + Of(t, gone)
  {
    if s == [] {
      assert s + t == t;
    } else {
      hide Stays;
      OfConcat(s[1..], t, gone);
      assert (s + t)[0] == s[0] && (s + t)[1..] == s[1..] + t;
      var first := if Stays(s[0], gone) then [s[0]] else [];
      assert Of(s + t, gone) == first + (Of(s[1..], gone) + Of(t, gone));
      assert first + (Of(s[1..], gone) + Of(t, gone)) == first + Of(s[1..], gone) + Of(t, gone);
    }
  }

  lemma {:induction false} OfOthers(live: seq<Item>, gone: set<int>, other: int)
    requires other in gone
    ensures Of(Others(live, other), gone) == Of(live, gone)
  {
    if live != [] {
      OfOthers(live[1..], gone, other);
      if live[0].instance != Some(other) {
        assert Others(live, other)[1..] == Others(live[1..], other);
      } else {
        assert Others(live, other) == Others(live[1..], other);
        assert Of(live, gone) == Of(live[1..], gone);
      }
    }
  }

  function AddedBy(op: Op): seq<Item> {
    if op.Add? then [op.item] else []
  }

  /** Taking the first live item out keeps the order of the others. */
  lemma TakeKeepsOrder(q: seq<Item>, gone: set<int>)
    requires AllValid(q)
    ensures AllValid(Rest(q))
    ensures Of(if Live(q) == [] then [] else [Live(q)[0]], gone) + Of(Live(Rest(q)), gone) == Of(Live(q), gone)
  {
    hide Live, Rest, Of, Stays, Full, AllValid;
    RestIsTail(q);
    LiveNone();
    var live := Live(q);
    if live != [] {
      assert live == [live[0]] + live[1..];
      OfConcat([live[0]], live[1..], gone);
    } else {
      OfNone(gone);
      NothingBefore(Of(live, gone));
    }
  }

  /** Nor does adding an item to what is kept. */
  lemma AddKeepsOrder(kept: seq<Item>, item: Item, left: seq<Item>, before: seq<Item>, gone: set<int>)
    requires AllValid(kept) && Full(item) && Of(left, gone) + Of(Live(kept), gone) == before
    ensures AllValid(kept + [item])
    ensures Of(left, gone) + Of(Live(kept + [item]), gone) == before + Of([item], gone)
  {
    StaysValid(kept, item);
    hide Live, Of, AllValid;
    LiveAppended(kept, item);
    OfConcat(Live(kept), [item], gone);
    ConcatAssociates(Of(left, gone), Of(Live(kept), gone), Of([item], gone));
  }

  lemma StaysValid(q: seq<Item>, item: Item)
    requires AllValid(q) && Full(item)
    ensures AllValid(q + [item])
  {
  }

  lemma StepKeepsOrder(q: seq<Item>, capacity: nat, op: Op, gone: set<int>)
    requires AllValid(q) && |q| <= capacity && !Aborts(q, capacity, op) && (op.Add? ==> Full(op.item))
    requires op.Forget? ==> op.mi in gone
    ensures var (q', left) := Step(q, capacity, op);
            && AllValid(q') && |q'| <= capacity
            && Of(left, gone) + Of(Live(q'), gone) == Of(Live(q), gone) + Of(AddedBy(op), gone)
  {
    hide Live, Of, Rest, Dereferenced, Stays, Others, AllValid, Full;
    TakeKeepsOrder(q, gone);
    RestIsTail(q);
    OfNone(gone);
    var before, left := Of(Live(q), gone), Step(q, capacity, op).1;
    match op
    case Add(item) =>
      NothingBefore(before);
      AddKeepsOrder(if |q| == capacity then Rest(q) else q, item, left, before, gone);
    case Take =>
      NothingAfter(before);
    case Forget(other) =>
      DereferencedLive(q, other);
      OfOthers(Live(q), gone, other);
      NothingBefore(before);
      NothingAfter(before);
  }

  lemma LiveNone()
    ensures Live([]) == []
  {
  }

  lemma OfNone(gone: set<int>)
    ensures Of([], gone) == []
  {
  }

  /** Everything that left the queue in the first n steps, and was added to it. */
  function AllLeft(left: seq<seq<Item>>, n: nat): seq<Item>
    requires n <= |left|
  {
    if n == 0 then [] else AllLeft(left, n - 1) + left[n - 1]
  }

  function AllAdded(ops: seq<Op>, n: nat): seq<Item>
    requires n <= |ops|
  {
    if n == 0 then [] else AllAdded(ops, n - 1) + AddedBy(ops[n - 1])
  }

  /** First in, first out over every run: the items of all clients that are not
      dereferenced are taken or dropped in the one order in which they were added, and
      those still queued follow in that order. */
  lemma {:induction false} FirstInFirstOut(queues: seq<seq<Item>>, left: seq<seq<Item>>, capacity: nat, ops: seq<Op>,
                                           n: nat, gone: set<int>)
    requires Run(queues, left, capacity, ops) && n <= |ops|
    requires forall k :: 0 <= k < n && ops[k].Forget? ==> ops[k].mi in gone
    ensures AllValid(queues[n]) && |queues[n]| <= capacity
    ensures Of(AllLeft(left, n), gone) + Of(Live(queues[n]), gone) == Of(AllAdded(ops, n), gone)
  {
    hide Live, Of, Step, AddedBy, Aborts;
    if n == 0 {
      LiveNone();
      OfNone(gone);
    } else {
      FirstInFirstOut(queues, left, capacity, ops, n - 1, gone);
      StepKeepsOrder(queues[n - 1], capacity, ops[n - 1], gone);
      assert AllLeft(left, n) == AllLeft(left, n - 1) + left[n - 1];
      assert AllAdded(ops, n) == AllAdded(ops, n - 1) + AddedBy(ops[n - 1]);
      var before, now, added := Of(AllLeft(left, n - 1), gone), Of(left[n - 1], gone), Of(AddedBy(ops[n - 1]), gone);
      OfConcat(AllLeft(left, n - 1), left[n - 1], gone);
      OfConcat(AllAdded(ops, n - 1), AddedBy(ops[n - 1]), gone);
      calc {
        before + now + Of(Live(queues[n]), gone);
        before + (now + Of(Live(queues[n]), gone));
        before + (Of(Live(queues[n - 1]), gone) + added);
        before + Of(Live(queues[n - 1]), gone) + added;
      }
    }
  }

  // What is in the queue

  /** Steps before the n-th, at each of which something was added. */
  predicate AddSteps(ops: seq<Op>, steps: seq<nat>, n: nat)
    requires n <= |ops|
  {
    forall i :: 0 <= i < |steps| ==> steps[i] < n && ops[steps[i]].Add?
  }

  /** All of them in order. */
  function Adds(ops: seq<Op>, n: nat): (r: seq<nat>)
    requires n <= |ops|
    ensures AddSteps(ops, r, n)
  {
    if n == 0 then [] else Adds(ops, n - 1) + (if ops[n - 1].Add? then [n - 1] else [])
  }

  /** The client of the item added at step k has gone since. */
  ghost predicate ForgottenSince(ops: seq<Op>, k: nat, n: nat)
    requires k < n <= |ops| && ops[k].Add?
  {
    exists j :: k < j < n && ops[j].Forget? && ops[k].item.instance == Some(ops[j].mi)
  }

  /** What the item added at step k has become. */
  ghost function Now(ops: seq<Op>, k: nat, n: nat): Item
    requires k < n <= |ops| && ops[k].Add?
  {
    if ForgottenSince(ops, k, n) then GONE else ops[k].item
  }

  /** A queue holds what the last steps in adds have added. */
  ghost predicate LastAdded(q: seq<Item>, ops: seq<Op>, adds: seq<nat>, n: nat)
    requires n <= |ops| && AddSteps(ops, adds, n)
  {
    |q| <= |adds| && forall i :: 0 <= i < |q| ==> q[i] == Now(ops, adds[|adds| - |q| + i], n)
  }

  lemma {:induction false} RestIsSuffix(q: seq<Item>)
    ensures Rest(q) == q[|q| - |Rest(q)|..]
  {
    if q != [] && q[0].instance.None? {
      RestIsSuffix(q[1..]);
      assert q[1..][|q[1..]| - |Rest(q)|..] == q[|q| - |Rest(q)|..];
    }
  }

  lemma {:induction false} DereferencedIs(q: seq<Item>, mi: int)
    ensures |Dereferenced(q, mi)| == |q|
    ensures forall i :: 0 <= i < |q| ==> Dereferenced(q, mi)[i] == if q[i].instance == Some(mi) then GONE else q[i]
  {
    if q != [] {
      DereferencedIs(q[1..], mi);
    }
  }

  /** One more step makes an item gone exactly if it forgets the item's client. */
  lemma NowAfter(ops: seq<Op>, k: nat, n: nat)
    requires k < n < |ops| && ops[k].Add?
    ensures Now(ops, k, n + 1) ==
            if ops[n].Forget? && Now(ops, k, n).instance == Some(ops[n].mi) then GONE else Now(ops, k, n)
  {
    if ForgottenSince(ops, k, n + 1) {
      var j :| k < j < n + 1 && ops[j].Forget? && ops[k].item.instance == Some(ops[j].mi);
      assert j < n ==> ForgottenSince(ops, k, n);
    }
    if ForgottenSince(ops, k, n) {
      var j :| k < j < n && ops[j].Forget? && ops[k].item.instance == Some(ops[j].mi);
      assert ForgottenSince(ops, k, n + 1);
    }
  }

  lemma SuffixIsLastAdded(q: seq<Item>, d: nat, ops: seq<Op>, adds: seq<nat>, n: nat)
    requires n <= |ops| && AddSteps(ops, adds, n)
    requires LastAdded(q, ops, adds, n) && d <= |q|
    ensures LastAdded(q[d..], ops, adds, n)
  {
    hide Now;
  }

  lemma KeptIsLastAdded(q: seq<Item>, ops: seq<Op>, adds: seq<nat>, n: nat)
    requires n < |ops| && AddSteps(ops, adds, n) && !ops[n].Forget?
    requires LastAdded(q, ops, adds, n)
    ensures LastAdded(q, ops, adds, n + 1)
  {
    hide Now;
    forall i | 0 <= i < |q|
      ensures q[i] == Now(ops, adds[|adds| - |q| + i], n + 1)
    {
      NowAfter(ops, adds[|adds| - |q| + i], n);
    }
  }

  lemma DereferencedIsLastAdded(q: seq<Item>, ops: seq<Op>, adds: seq<nat>, n: nat)
    requires n < |ops| && AddSteps(ops, adds, n) && ops[n].Forget?
    requires LastAdded(q, ops, adds, n)
    ensures LastAdded(Dereferenced(q, ops[n].mi), ops, adds, n + 1)
  {
    hide Now, Dereferenced;
    DereferencedIs(q, ops[n].mi);
    forall i | 0 <= i < |q|
      ensures Dereferenced(q, ops[n].mi)[i] == Now(ops, adds[|adds| - |q| + i], n + 1)
    {
      NowAfter(ops, adds[|adds| - |q| + i], n);
    }
  }

  lemma AddedIsLastAdded(q: seq<Item>, ops: seq<Op>, adds: seq<nat>, n: nat)
    requires n < |ops| && AddSteps(ops, adds, n) && ops[n].Add?
    requires LastAdded(q, ops, adds, n + 1)
    ensures LastAdded(q + [ops[n].item], ops, adds + [n], n + 1)
  {
    assert Now(ops, n, n + 1) == ops[n].item;
    hide Now;
  }

  /** The queue holds, in order, the items added last, each of them empty if and only if
      its client has gone since. */
  lemma {:induction false} QueueIsLastAdded(queues: seq<seq<Item>>, left: seq<seq<Item>>, capacity: nat, ops: seq<Op>,
                                            n: nat)
    requires Run(queues, left, capacity, ops) && n <= |ops|
    ensures LastAdded(queues[n], ops, Adds(ops, n), n)
  {
    hide Now, LastAdded, Aborts, Rest, Dereferenced, Live;
    if n == 0 {
      NothingAdded(ops);
    } else {
      QueueIsLastAdded(queues, left, capacity, ops, n - 1);
      var q, adds := queues[n - 1], Adds(ops, n - 1);
      RestIsSuffix(q);
      SuffixIsLastAdded(q, |q| - |Rest(q)|, ops, adds, n - 1);
      match ops[n - 1]
      case Add(item) =>
        var kept := if |q| == capacity then Rest(q) else q;
        KeptIsLastAdded(kept, ops, adds, n - 1);
        AddedIsLastAdded(kept, ops, adds, n - 1);
      case Take =>
        KeptIsLastAdded(Rest(q), ops, adds, n - 1);
        assert Adds(ops, n) == adds;
      case Forget(mi) =>
        DereferencedIsLastAdded(q, ops, adds, n - 1);
        assert Adds(ops, n) == adds;
    }
  }

  lemma NothingAdded(ops: seq<Op>)
    ensures LastAdded([], ops, Adds(ops, 0), 0)
  {
  }

  lemma {:induction false} LiveNoneExactly(q: seq<Item>)
    ensures Live(q) == [] <==> forall i :: 0 <= i < |q| ==> q[i].instance.None?
  {
    if q != [] {
      LiveNoneExactly(q[1..]);
      if Live(q) == [] {
        assert forall i :: 1 <= i < |q| ==> q[i] == q[1..][i - 1];
      } else if q[0].instance.None? {
        var i :| 0 <= i < |q[1..]| && q[1..][i].instance.Some?;
        assert q[i + 1].instance.Some?;
      }
    }
  }

  /** In every run the assertion fails exactly when the ring is full and the clients of
      all packets in it, which are the last ones added, have gone since. */
  lemma AbortsExactly(queues: seq<seq<Item>>, left: seq<seq<Item>>, capacity: nat, ops: seq<Op>, n: nat, item: Item)
    requires Run(queues, left, capacity, ops) && n <= |ops|
    ensures var adds := Adds(ops, n);
            Aborts(queues[n], capacity, Add(item)) <==>
              && |queues[n]| == capacity <= |adds|
              && forall k :: k in adds[|adds| - capacity..] ==> ForgottenSince(ops, k, n)
  {
    hide Live, ForgottenSince, Adds;
    QueueIsLastAdded(queues, left, capacity, ops, n);
    var q, adds := queues[n], Adds(ops, n);
    LiveNoneExactly(q);
    if |q| == capacity {
      var last := adds[|adds| - capacity..];
      forall i | 0 <= i < capacity
        ensures q[i].instance.None? <==> ForgottenSince(ops, last[i], n)
      {
        AddedAreFull(queues, left, capacity, ops, last[i]);
      }
    }
  }

  lemma AddedAreFull(queues: seq<seq<Item>>, left: seq<seq<Item>>, capacity: nat, ops: seq<Op>, k: nat)
    requires Run(queues, left, capacity, ops) && k < |ops| && ops[k].Add?
    ensures Full(ops[k].item)
  {
  }

  /** The run that fills the ring with a client's packets and then forgets the client. */
  function Filling(items: seq<Item>, mi: int): (ops: seq<Op>)
    ensures |ops| == |items| + 1 && ops[|items|] == Forget(mi)
    ensures forall k :: 0 <= k < |items| ==> ops[k] == Add(items[k])
  {
    seq(|items|, i requires 0 <= i < |items| => Add(items[i])) + [Forget(mi)]
  }

  /** The assertion can fail in a run from an empty queue: a ring filled by one client
      that has then gone holds no live item, and the next packet for anyone ends the
      program. */
  lemma GoneClientFillsRing(items: seq<Item>, mi: int) returns (queues: seq<seq<Item>>, left: seq<seq<Item>>)
    requires forall i :: 0 <= i < |items| ==> Full(items[i]) && items[i].instance == Some(mi)
    ensures Run(queues, left, |items|, Filling(items, mi))
    ensures forall item :: Aborts(queues[|items| + 1], |items|, Add(item))
  {
    hide Live, Dereferenced, Filling;
    var n, ops := |items|, Filling(items, mi);
    queues := seq(n + 1, k requires 0 <= k <= n => items[..k]) + [Dereferenced(items, mi)];
    left := seq(n + 1, _ => []);
    forall k | 0 <= k < n
      ensures queues[k + 1] == queues[k] + [items[k]]
    {
    }
    assert queues[n] == items;
    DereferencedIs(items, mi);
    LiveNoneExactly(queues[n + 1]);
  }
}
