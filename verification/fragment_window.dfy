/** The sliding window of partial datagrams: which slot belongs to which sequence id. */
module FragmentWindow {
  import opened Buffers
  import opened Integers

  const N_FRAG_BUF: int := 25
  const N_SEQ_ID: int := 256

  datatype Slot = Slot(defined: bool, maxFragSize: int, received: nat, timestamp: int, buf: Buf)

  datatype Window = Window(seqId: int, index: int, slots: seq<Slot>)

  predicate ValidWindow(w: Window) {
    0 <= w.seqId < N_SEQ_ID && 0 <= w.index < N_FRAG_BUF && |w.slots| == N_FRAG_BUF
  }

  function Clear(slots: seq<Slot>, i: int): (r: seq<Slot>)
    requires 0 <= i < |slots|
  {
    slots[i := slots[i].(defined := false)]
  }

  function ClearAll(slots: seq<Slot>): (r: seq<Slot>)
    ensures |r| == |slots|
    ensures forall i :: 0 <= i < |slots| ==> r[i] == slots[i].(defined := false)
  {
    seq(|slots|, i requires 0 <= i < |slots| => slots[i].(defined := false))
  }

  /** One turn of the loop that moves the window head forward. */
  function SlideOne(w: Window): (r: Window)
    requires ValidWindow(w)
    ensures ValidWindow(r)
  {
    var index := ModuloAdd(w.index, 1, N_FRAG_BUF);
    Window(ModuloAdd(w.seqId, 1, N_SEQ_ID), index, Clear(w.slots, index))
  }

  function Slide(w: Window, steps: nat): (r: Window)
    requires ValidWindow(w)
    ensures ValidWindow(r)
    decreases steps
  {
    if steps == 0 then w else Slide(SlideOne(w), steps - 1)
  }

  /** The window after a lookup of seqId, and the position of the slot found. */
  function GetBuf(w: Window, seqId: int): (r: (Window, int))
    requires ValidWindow(w) && 0 <= seqId < N_SEQ_ID
    ensures ValidWindow(r.0) && 0 <= r.1 < N_FRAG_BUF
  {
    var diff := ModuloSubtract(seqId, w.seqId, N_SEQ_ID);
    if Abs(diff) >= N_FRAG_BUF then
      (Window(seqId, 0, ClearAll(w.slots)), 0)
    else if diff > 0 then
      var slid := Slide(w, diff);
      (slid, slid.index)
    else
      (w, ModuloAdd(w.index, diff, N_FRAG_BUF))
  }

  // Numbers without wrap-around.  Datagrams are numbered by unbounded integers;
  // a sequence id is such a number modulo 256.

  predicate InWindow(head: int, n: int) {
    head - N_FRAG_BUF < n <= head
  }

  /** The window stands for the numbers head-24 to head. */
  predicate Stands(w: Window, head: int) {
    ValidWindow(w) && w.seqId == head % N_SEQ_ID
  }

  function SlotOf(w: Window, head: int, n: int): (k: int)
    requires ValidWindow(w) && InWindow(head, n)
    ensures 0 <= k < N_FRAG_BUF
  {
    ModuloAdd(w.index, n - head, N_FRAG_BUF)
  }

  /** Where the head is after datagram n is looked up. */
  function NextHead(head: int, n: int): int {
    if Abs(n - head) >= N_FRAG_BUF || n > head then n else head
  }

  /** n is near the head, or its id is far from the head's id: only then can
      eight bits tell n from the numbers in and just ahead of the window. */
  predicate Distinguishable(head: int, n: int) {
    Abs(n - head) < N_FRAG_BUF || N_FRAG_BUF <= (n - head) % N_SEQ_ID <= N_SEQ_ID - N_FRAG_BUF
  }

  lemma NearIsDistinguishable(head: int, n: int)
    requires Abs(n - head) <= 231
    ensures Distinguishable(head, n)
  {
  }

  /** Two's-complement style wrap: with n 232 ahead, or behind, the ids are 24 apart. */
  lemma DistinguishableBoundIsTight(head: int)
    ensures !Distinguishable(head, head + 232) && !Distinguishable(head, head - 232)
  {
  }

  /** The circular difference is taken for the true one exactly when the two
      numbers are distinguishable. */
  lemma ClassifiedCorrectly(head: int, n: int)
    ensures var d := ModuloSubtract(n % N_SEQ_ID, head % N_SEQ_ID, N_SEQ_ID);
            Distinguishable(head, n) <==> (Abs(d) < N_FRAG_BUF ==> d == n - head)
  {
    hide ModuloSubtract;
    var turns := ShortestPath(n, head, N_SEQ_ID);
    RemainderOf(n - head, ModuloSubtract(n % N_SEQ_ID, head % N_SEQ_ID, N_SEQ_ID), turns);
  }

  lemma RemainderOf(x: int, d: int, turns: int)
    requires x == d + turns * N_SEQ_ID && -N_SEQ_ID < d < N_SEQ_ID
    ensures x % N_SEQ_ID == if d < 0 then d + N_SEQ_ID else d
  {
  }

  lemma DistinguishableLookup(head: int, n: int)
    requires Distinguishable(head, n)
    ensures var d := ModuloSubtract(n % N_SEQ_ID, head % N_SEQ_ID, N_SEQ_ID);
            if Abs(n - head) < N_FRAG_BUF then d == n - head else Abs(d) >= N_FRAG_BUF
  {
    hide ModuloSubtract;
    ClassifiedCorrectly(head, n);
    var turns := ShortestPath(n, head, N_SEQ_ID);
    if Abs(n - head) < N_FRAG_BUF {
      assert turns == 0;
    }
  }

  /** Different numbers in the window have different slots. */
  lemma SlotsAreDistinct(w: Window, head: int, n: int, m: int)
    requires ValidWindow(w) && InWindow(head, n) && InWindow(head, m)
    ensures SlotOf(w, head, n) == SlotOf(w, head, m) <==> n == m
  {
  }

  /** One step gives the numbers that stay their old slots, and clears the new head's. */
  lemma SlideOneKeeps(w: Window, head: int, n: int)
    requires ValidWindow(w)
    ensures InWindow(head, n) && InWindow(head + 1, n) ==>
              SlotOf(SlideOne(w), head + 1, n) == SlotOf(w, head, n)
              && SlideOne(w).slots[SlotOf(w, head, n)] == w.slots[SlotOf(w, head, n)]
    ensures n == head + 1 ==> !SlideOne(w).slots[SlotOf(SlideOne(w), head + 1, n)].defined
  {
    var next := SlideOne(w);
    if InWindow(head, n) && InWindow(head + 1, n) {
      assert SlotOf(next, head + 1, n) == SlotOf(w, head, n) != next.index;
    }
    if n == head + 1 {
      assert SlotOf(next, head + 1, n) == next.index;
    }
  }

  lemma SlideOneStands(w: Window, head: int)
    requires Stands(w, head)
    ensures Stands(SlideOne(w), head + 1)
  {
  }

  lemma {:induction false} SlideKeepsOne(w: Window, head: int, steps: nat, n: int)
    requires Stands(w, head) && steps < N_FRAG_BUF
    ensures Stands(Slide(w, steps), head + steps)
    ensures InWindow(head, n) && InWindow(head + steps, n) ==>
              SlotOf(Slide(w, steps), head + steps, n) == SlotOf(w, head, n)
              && Slide(w, steps).slots[SlotOf(w, head, n)] == w.slots[SlotOf(w, head, n)]
    ensures InWindow(head + steps, n) && !InWindow(head, n) ==>
              !Slide(w, steps).slots[SlotOf(Slide(w, steps), head + steps, n)].defined
    decreases steps
  {
    hide SlideOne, SlotOf;
    if steps > 0 {
      SlideOneStands(w, head);
      SlideOneKeeps(w, head, n);
      SlideKeepsOne(SlideOne(w), head + 1, steps - 1, n);
    }
  }

  /** Sliding moves the head by one number at a time, gives every number that
      stays its old slot untouched, and clears the slot of every new number. */
  lemma SlideKeeps(w: Window, head: int, steps: nat)
    requires Stands(w, head) && steps < N_FRAG_BUF
    ensures Stands(Slide(w, steps), head + steps)
    ensures forall n :: InWindow(head, n) && InWindow(head + steps, n) ==>
              SlotOf(Slide(w, steps), head + steps, n) == SlotOf(w, head, n)
              && Slide(w, steps).slots[SlotOf(w, head, n)] == w.slots[SlotOf(w, head, n)]
    ensures forall n :: InWindow(head + steps, n) && !InWindow(head, n) ==>
              !Slide(w, steps).slots[SlotOf(Slide(w, steps), head + steps, n)].defined
  {
    hide Slide, SlotOf, InWindow;
    SlideKeepsOne(w, head, steps, head);
    forall n | InWindow(head + steps, n)
      ensures InWindow(head, n) ==>
                SlotOf(Slide(w, steps), head + steps, n) == SlotOf(w, head, n)
                && Slide(w, steps).slots[SlotOf(w, head, n)] == w.slots[SlotOf(w, head, n)]
      ensures !InWindow(head, n) ==>
                !Slide(w, steps).slots[SlotOf(Slide(w, steps), head + steps, n)].defined
    {
      SlideKeepsOne(w, head, steps, n);
    }
  }

  /** The window refines a map from the numbers head-24..head to slots: after a
      lookup of n the head has moved to NextHead, the slot returned is n's own,
      numbers that stay keep slot and contents, numbers that are new find their
      slot undefined. */
  lemma LookupRefinesMap(w: Window, head: int, n: int)
    requires Stands(w, head) && Distinguishable(head, n)
    ensures var (w', k) := GetBuf(w, n % N_SEQ_ID);
            var head' := NextHead(head, n);
            Stands(w', head') && InWindow(head', n) && k == SlotOf(w', head', n)
    ensures var (w', _) := GetBuf(w, n % N_SEQ_ID);
            var head' := NextHead(head, n);
            forall m :: InWindow(head', m) ==>
              if Abs(n - head) < N_FRAG_BUF && InWindow(head, m)
              then SlotOf(w', head', m) == SlotOf(w, head, m)
                   && w'.slots[SlotOf(w', head', m)] == w.slots[SlotOf(w, head, m)]
              else !w'.slots[SlotOf(w', head', m)].defined
  {
    DistinguishableLookup(head, n);
    if 0 < n - head < N_FRAG_BUF {
      SlideKeeps(w, head, n - head);
    }
  }
}
