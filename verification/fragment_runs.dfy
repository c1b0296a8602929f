/** Whole runs of the receiver: any drops, duplicates, reordering and interleaving. */
module FragmentRuns {
  import opened Buffers
  import opened FragmentReassembly
  import opened FragmentReceive
  import opened FragmentSplit
  import opened FragmentWindow
  import opened Integers

  /** Every arriving fragment can be told apart from the numbers in the window
      when it arrives. */
  ghost predicate RunPossible(c: Collection, run: seq<Event>, sent: map<int, Sent>, room: int)
    requires AllValid(sent)
    decreases |run|
  {
    run == [] || (Possible(c, run[0], sent) && RunPossible(Collect(c, run[0], sent, room).0, run[1..], sent, room))
  }

  function RunSpec(c: Collection, run: seq<Event>, sent: map<int, Sent>, room: int): (r: (Collection, seq<Outcome>))
    requires AllValid(sent) && RunPossible(c, run, sent, room)
    ensures |r.1| == |run|
    decreases |run|
  {
    if run == [] then (c, [])
    else
      var (next, outcome) := Collect(c, run[0], sent, room);
      var (last, outcomes) := RunSpec(next, run[1..], sent, room);
      (last, [outcome] + outcomes)
  }

  ghost predicate FromSent(run: seq<Event>, sent: map<int, Sent>)
    requires AllValid(sent)
  {
    forall k | 0 <= k < |run| :: run[k].Fragment? ==> run[k].n in sent && run[k].i <= sent[run[k].n].Last()
  }

  function RunCode(w: Window, run: seq<Event>, sent: map<int, Sent>, headroom: int): (r: (Window, seq<Outcome>))
    requires AllValid(sent) && ValidSlots(w, headroom) && FromSent(run, sent)
    ensures |r.1| == |run|
    decreases |run|
  {
    if run == [] then (w, [])
    else
      var (next, outcome) := Step(w, run[0], sent, headroom);
      var (last, outcomes) := RunCode(next, run[1..], sent, headroom);
      (last, [outcome] + outcomes)
  }

  lemma {:induction false} PossibleIsFromSent(c: Collection, run: seq<Event>, sent: map<int, Sent>, room: int)
    requires AllValid(sent) && RunPossible(c, run, sent, room)
    ensures FromSent(run, sent)
    decreases |run|
  {
    if run != [] {
      PossibleIsFromSent(Collect(c, run[0], sent, room).0, run[1..], sent, room);
      assert forall k | 1 <= k < |run| :: run[k] == run[1..][k - 1];
    }
  }

  /** Over every run the window of slots behaves as the map of numbers: same
      outcome at every step. */
  lemma {:induction false} RunRefines(w: Window, c: Collection, run: seq<Event>, sent: map<int, Sent>,
            headroom: int, capacity: int)
    requires AllValid(sent) && Simulates(w, c, sent, headroom, capacity)
    requires RunPossible(c, run, sent, capacity - headroom)
    ensures FromSent(run, sent)
    ensures RunCode(w, run, sent, headroom).1 == RunSpec(c, run, sent, capacity - headroom).1
    ensures Simulates(RunCode(w, run, sent, headroom).0, RunSpec(c, run, sent, capacity - headroom).0, sent,
              headroom, capacity)
    decreases |run|
  {
    PossibleIsFromSent(c, run, sent, capacity - headroom);
    if run != [] {
      StepRefines(w, c, run[0], sent, headroom, capacity);
      var next := Step(w, run[0], sent, headroom).0;
      RunRefines(next, Collect(c, run[0], sent, capacity - headroom).0, run[1..], sent, headroom, capacity);
    }
  }

  /** A receiver just set up: all slots unused, window at id 0, which may stand
      for any multiple of 256. */
  predicate Initial(w: Window, headroom: int, capacity: int) {
    && ValidSlots(w, headroom) && headroom <= capacity
    && w.seqId == 0 && w.index == 0
    && forall k :: 0 <= k < N_FRAG_BUF ==> !w.slots[k].defined && |w.slots[k].buf.data| == capacity
  }

  lemma InitialSimulates(w: Window, head: int, sent: map<int, Sent>, headroom: int, capacity: int)
    requires AllValid(sent) && Initial(w, headroom, capacity) && head % N_SEQ_ID == 0
    ensures Simulates(w, Collection(head, map[]), sent, headroom, capacity)
  {
  }

  /** The datagram an event belongs to. */
  function Original(e: Event, sent: map<int, Sent>): seq<Byte>
    requires e.Fragment? ==> e.n in sent
  {
    match e
    case Whole(data) => data
    case Fragment(n, _, _) => sent[n].data
    case Expire(_) => []
  }

  lemma {:induction false} SpecDeliversOriginals(c: Collection, run: seq<Event>, sent: map<int, Sent>, room: int)
    requires AllValid(sent) && RunPossible(c, run, sent, room)
    ensures FromSent(run, sent)
    ensures forall k | 0 <= k < |run| :: RunSpec(c, run, sent, room).1[k].Deliver? ==>
              !run[k].Expire? && RunSpec(c, run, sent, room).1[k].content == Original(run[k], sent)
    decreases |run|
  {
    PossibleIsFromSent(c, run, sent, room);
    if run != [] {
      var next := Collect(c, run[0], sent, room).0;
      SpecDeliversOriginals(next, run[1..], sent, room);
      assert forall k | 1 <= k < |run| :: run[k] == run[1..][k - 1];
    }
  }

  /** Safety over whole runs: whatever the network does, every buffer the code
      delivers is byte for byte one datagram that was sent, namely the one the last
      arriving fragment belongs to. */
  lemma DeliversOnlyWhatWasSent(w: Window, head: int, run: seq<Event>, sent: map<int, Sent>,
                                headroom: int, capacity: int)
    requires AllValid(sent) && Initial(w, headroom, capacity) && head % N_SEQ_ID == 0
    requires RunPossible(Collection(head, map[]), run, sent, capacity - headroom)
    ensures FromSent(run, sent)
    ensures forall k | 0 <= k < |run| :: RunCode(w, run, sent, headroom).1[k].Deliver? ==>
              !run[k].Expire? && RunCode(w, run, sent, headroom).1[k].content == Original(run[k], sent)
  {
    hide RunCode, RunSpec, RunPossible;
    InitialSimulates(w, head, sent, headroom, capacity);
    RunRefines(w, Collection(head, map[]), run, sent, headroom, capacity);
    SpecDeliversOriginals(Collection(head, map[]), run, sent, capacity - headroom);
  }

  // Completeness

  /** The fragments of datagram n among the events of a run. */
  function Ids(run: seq<Event>, n: int): set<nat>
    decreases |run|
  {
    if run == [] then {}
    else (if run[0].Fragment? && run[0].n == n then {run[0].i} else {}) + Ids(run[1..], n)
  }

  /** The event does not make the receiver forget what it has of datagram n. */
  predicate Undisturbed(c: Collection, e: Event, n: int) {
    n in c.open ==>
      match e
      case Whole(_) => true
      case Expire(now) => c.open[n].stamp + FRAG_TTL_SEC > now
      case Fragment(m, _, _) => Abs(m - c.head) < N_FRAG_BUF && InWindow(NextHead(c.head, m), n)
  }

  ghost predicate RunUndisturbed(c: Collection, run: seq<Event>, sent: map<int, Sent>, room: int, n: int)
    requires AllValid(sent) && RunPossible(c, run, sent, room)
    decreases |run|
  {
    run == []
    || (Undisturbed(c, run[0], n) && RunUndisturbed(Collect(c, run[0], sent, room).0, run[1..], sent, room, n))
  }

  lemma OneMore(c: Collection, e: Event, sent: map<int, Sent>, room: int, n: int)
    requires AllValid(sent) && Possible(c, e, sent) && n in sent && |sent[n].data| <= room
    requires Undisturbed(c, e, n)
    ensures var (c', outcome) := Collect(c, e, sent, room);
            if e.Fragment? && e.n == n then
              var got := Got(c, n) + {e.i};
              if Complete(sent[n], got) then outcome == Deliver(sent[n].data)
              else outcome == Empty && Got(c', n) == got
            else Got(c', n) == Got(c, n)
  {
    if e.Fragment? && e.n == n {
      ChunkLength(sent[n], e.i);
      assert InWindow(NextHead(c.head, n), n);
    }
  }

  lemma MoreIsComplete(d: Sent, got: set<nat>, more: set<nat>)
    requires d.Valid() && got <= more && !Complete(d, more)
    ensures !Complete(d, got)
  {
  }

  /** While datagram n is incomplete the receiver delivers nothing of it and
      remembers every fragment that came. */
  lemma {:induction false} CollectsWhileIncomplete(c: Collection, run: seq<Event>, sent: map<int, Sent>,
                                                   room: int, n: int)
    requires AllValid(sent) && RunPossible(c, run, sent, room) && n in sent && |sent[n].data| <= room
    requires RunUndisturbed(c, run, sent, room, n)
    requires !Complete(sent[n], Got(c, n) + Ids(run, n))
    ensures Got(RunSpec(c, run, sent, room).0, n) == Got(c, n) + Ids(run, n)
    ensures forall k | 0 <= k < |run| :: run[k].Fragment? && run[k].n == n ==> RunSpec(c, run, sent, room).1[k] == Empty
    decreases |run|
  {
    hide Collect, Complete, Sent.Last;
    if run != [] {
      var next := Collect(c, run[0], sent, room).0;
      OneMore(c, run[0], sent, room, n);
      var got := Got(c, n) + (if run[0].Fragment? && run[0].n == n then {run[0].i} else {});
      assert got + Ids(run[1..], n) == Got(c, n) + Ids(run, n);
      MoreIsComplete(sent[n], got, Got(c, n) + Ids(run, n));
      assert Got(next, n) == got;
      CollectsWhileIncomplete(next, run[1..], sent, room, n);
      assert forall k | 1 <= k < |run| :: run[k] == run[1..][k - 1];
    }
  }

  lemma {:induction false} RunsCompose(c: Collection, run: seq<Event>, e: Event, sent: map<int, Sent>, room: int)
    requires AllValid(sent) && RunPossible(c, run, sent, room)
    requires Possible(RunSpec(c, run, sent, room).0, e, sent)
    ensures RunPossible(c, run + [e], sent, room)
    ensures RunSpec(c, run + [e], sent, room).1
         == RunSpec(c, run, sent, room).1 + [Collect(RunSpec(c, run, sent, room).0, e, sent, room).1]
    decreases |run|
  {
    if run == [] {
      assert [e][1..] == [];
    } else {
      assert (run + [e])[1..] == run[1..] + [e];
      RunsCompose(Collect(c, run[0], sent, room).0, run[1..], e, sent, room);
    }
  }

  /** Reassembly in any order, amid any other traffic: the fragments of n may come
      in any order with any duplicates; none of them delivers anything while one is
      still missing, and the one that completes the set delivers exactly the
      datagram. */
  lemma ReassemblesInAnyOrder(w: Window, c: Collection, run: seq<Event>, e: Event, n: int,
                              sent: map<int, Sent>, headroom: int, capacity: int)
    requires AllValid(sent) && Simulates(w, c, sent, headroom, capacity) && n in sent
    requires |sent[n].data| <= capacity - headroom
    requires Got(c, n) == {} && RunPossible(c, run, sent, capacity - headroom)
    requires RunUndisturbed(c, run, sent, capacity - headroom, n)
    requires var end := RunSpec(c, run, sent, capacity - headroom).0;
             Possible(end, e, sent) && Undisturbed(end, e, n)
    requires e.Fragment? && e.n == n
    requires !Complete(sent[n], Ids(run, n)) && Complete(sent[n], Ids(run, n) + {e.i})
    ensures FromSent(run + [e], sent)
    ensures var outcomes := RunCode(w, run + [e], sent, headroom).1;
            && outcomes[|run|] == Deliver(sent[n].data)
            && forall k | 0 <= k < |run| :: run[k].Fragment? && run[k].n == n ==> outcomes[k] == Empty
  {
    hide RunCode, RunPossible, RunUndisturbed, Simulates, Collect, Complete, Possible, Undisturbed;
    var room := capacity - headroom;
    assert Got(c, n) + Ids(run, n) == Ids(run, n);
    CollectsWhileIncomplete(c, run, sent, room, n);
    OneMore(RunSpec(c, run, sent, room).0, e, sent, room, n);
    RunsCompose(c, run, e, sent, room);
    RunRefines(w, c, run + [e], sent, headroom, capacity);
  }

  /** The fragments of one datagram arriving one after the other. */
  function Arrivals(n: int, ids: seq<nat>, now: int): (r: seq<Event>)
    ensures |r| == |ids|
  {
    if ids == [] then [] else [Fragment(n, ids[0], now)] + Arrivals(n, ids[1..], now)
  }

  function IdSet(ids: seq<nat>): set<nat> {
    set i | i in ids
  }

  lemma {:induction false} AloneIsPossible(c: Collection, n: int, d: Sent, ids: seq<nat>, now: int, room: int)
    requires d.Valid() && Distinguishable(c.head, n) && forall k :: 0 <= k < |ids| ==> ids[k] <= d.Last()
    ensures RunPossible(c, Arrivals(n, ids, now), map[n := d], room)
    decreases |ids|
  {
    hide Sent.Last, Complete;
    if ids != [] {
      var run := Arrivals(n, ids, now);
      assert run[1..] == Arrivals(n, ids[1..], now);
      AloneIsPossible(Collect(c, run[0], map[n := d], room).0, n, d, ids[1..], now, room);
    }
  }

  lemma FirstId(got: set<nat>, ids: seq<nat>, k: nat)
    requires 0 < k <= |ids|
    ensures got + IdSet(ids[..k]) == got + {ids[0]} + IdSet(ids[1..][..k - 1])
    ensures got + {ids[0]} <= got + IdSet(ids[..k])
  {
    assert ids[..k] == [ids[0]] + ids[1..][..k - 1];
  }

  lemma OneId(got: set<nat>, ids: seq<nat>)
    requires ids != []
    ensures got + IdSet(ids[..0]) == got && got + IdSet(ids[..1]) == got + {ids[0]}
  {
    assert ids[..0] == [] && IdSet(ids[..1]) == {ids[0]};
  }

  lemma FirstArrival(n: int, ids: seq<nat>, now: int)
    requires ids != []
    ensures Arrivals(n, ids, now)[0] == Fragment(n, ids[0], now)
    ensures Arrivals(n, ids, now)[1..] == Arrivals(n, ids[1..], now)
  {
  }

  /** One of them: it is recorded or completes the datagram, and n stays in the window. */
  lemma AloneStep(c: Collection, n: int, d: Sent, i: nat, now: int, room: int)
    requires d.Valid() && Distinguishable(c.head, n) && |d.data| <= room && i <= d.Last()
    requires n in c.open ==> InWindow(c.head, n)
    ensures var (next, outcome) := Collect(c, Fragment(n, i, now), map[n := d], room);
            && Distinguishable(next.head, n) && (n in next.open ==> InWindow(next.head, n))
            && if Complete(d, Got(c, n) + {i}) then outcome == Deliver(d.data)
               else outcome == Empty && Got(next, n) == Got(c, n) + {i}
  {
    hide Sent.Last, Complete;
    OneMore(c, Fragment(n, i, now), map[n := d], room, n);
  }

  /** What the specification does with them, until the datagram is complete. */
  lemma {:induction false} AloneIsCollected(c: Collection, n: int, d: Sent, ids: seq<nat>, k: nat, now: int, room: int)
    requires d.Valid() && Distinguishable(c.head, n) && |d.data| <= room && k < |ids|
    requires forall j :: 0 <= j < |ids| ==> ids[j] <= d.Last()
    requires n in c.open ==> InWindow(c.head, n)
    requires !Complete(d, Got(c, n) + IdSet(ids[..k]))
    ensures RunPossible(c, Arrivals(n, ids, now), map[n := d], room)
    ensures RunSpec(c, Arrivals(n, ids, now), map[n := d], room).1[k] ==
            if Complete(d, Got(c, n) + IdSet(ids[..k + 1])) then Deliver(d.data) else Empty
    decreases k
  {
    hide Sent.Last, Complete, Arrivals, Collect, Got, IdSet, InWindow, Distinguishable;
    AloneIsPossible(c, n, d, ids, now, room);
    FirstArrival(n, ids, now);
    AloneStep(c, n, d, ids[0], now, room);
    if k == 0 {
      OneId(Got(c, n), ids);
    } else {
      var next := Collect(c, Fragment(n, ids[0], now), map[n := d], room).0;
      FirstId(Got(c, n), ids, k);
      FirstId(Got(c, n), ids, k + 1);
      MoreIsComplete(d, Got(c, n) + {ids[0]}, Got(c, n) + IdSet(ids[..k]));
      AloneIsCollected(next, n, d, ids[1..], k - 1, now, room);
    }
  }

  /** A receiver just set up that gets the fragments of one datagram in any order, with
      any duplicates: as long as one is missing nothing is delivered, and the one that
      completes the set delivers exactly the datagram. */
  lemma ReassemblesAlone(w: Window, n: int, d: Sent, ids: seq<nat>, k: nat, headroom: int, capacity: int, now: int)
    requires Initial(w, headroom, capacity) && Distinguishable(0, n)
    requires d.Valid() && |d.data| <= capacity - headroom
    requires k < |ids| && forall j :: 0 <= j < |ids| ==> ids[j] <= d.Last()
    requires !Complete(d, IdSet(ids[..k]))
    ensures FromSent(Arrivals(n, ids, now), map[n := d])
    ensures RunCode(w, Arrivals(n, ids, now), map[n := d], headroom).1[k] ==
            if Complete(d, IdSet(ids[..k + 1])) then Deliver(d.data) else Empty
  {
    hide RunCode, RunSpec, RunPossible, Complete, Sent.Last;
    var c, room := Collection(0, map[]), capacity - headroom;
    InitialSimulates(w, 0, map[n := d], headroom, capacity);
    assert {} + IdSet(ids[..k]) == IdSet(ids[..k]) && {} + IdSet(ids[..k + 1]) == IdSet(ids[..k + 1]);
    AloneIsCollected(c, n, d, ids, k, now, room);
    RunRefines(w, c, Arrivals(n, ids, now), map[n := d], headroom, capacity);
  }
}
