/** The list of output buffers of buffer.c, whose first entries are joined before they
    are sent. */
module BufferLists {
  import opened Buffers
  import opened Sequences

  function Concat(es: seq<seq<Byte>>): seq<Byte> {
    if es == [] then [] else es[0] + Concat(es[1..])
  }

  /** How many entries buffer_list_aggregate takes: it goes on while the bytes counted
      so far are not more than max. */
  function Scan(es: seq<seq<Byte>>, size: nat, max: nat): (count: nat)
    ensures count <= |es|
    ensures size <= max && es != [] ==> count > 0
  {
    if es == [] || size > max then 0 else 1 + Scan(es[1..], size + |es[0]|, max)
  }

  lemma ScanMore(es: seq<seq<Byte>>, i: nat, size: nat, max: nat)
    requires i < |es| && size <= max
    ensures Scan(es[i..], size, max) == 1 + Scan(es[i + 1..], size + |es[i]|, max)
  {
    assert es[i..][0] == es[i] && es[i..][1..] == es[i + 1..];
  }

  lemma ScanEnd(es: seq<seq<Byte>>, i: nat, size: nat, max: nat)
    requires i <= |es| && (i == |es| || size > max)
    ensures Scan(es[i..], size, max) == 0
  {
  }

  /** buf_copy refuses what is not smaller than BUF_SIZE_MAX. */
  function Copied(es: seq<seq<Byte>>): (r: seq<Byte>)
    ensures |r| <= |Concat(es)|
  {
    if es == [] then [] else (if |es[0]| < BUF_SIZE_MAX then es[0] else []) + Copied(es[1..])
  }

  function Aggregated(es: seq<seq<Byte>>, max: nat): seq<seq<Byte>> {
    var count := Scan(es, 0, max);
    if count >= 2 then [Copied(es[..count])] + es[count..] else es
  }

  function Advanced(es: seq<seq<Byte>>, n: nat): seq<seq<Byte>>
    requires es != [] ==> n <= |es[0]|
  {
    if es == [] then es else if n == |es[0]| then es[1..] else es[0 := es[0][n..]]
  }

  lemma {:induction false} ConcatSplit(es: seq<seq<Byte>>, n: nat)
    requires n <= |es|
    ensures Concat(es) == Concat(es[..n]) + Concat(es[n..])
  {
    if n == 0 {
      assert es[n..] == es && es[..n] == [];
    } else {
      ConcatSplit(es[1..], n - 1);
      assert es[..n][1..] == es[1..][..n - 1] && es[1..][n - 1..] == es[n..];
    }
  }

  lemma ConcatMore(es: seq<seq<Byte>>, n: nat)
    requires n < |es|
    ensures Concat(es[..n + 1]) == Concat(es[..n]) + es[n]
  {
    var s := es[..n + 1];
    ConcatSplit(s, n);
    assert s[..n] == es[..n] && s[n..] == [es[n]];
    var last := [es[n]];
    assert last[1..] == [] && Concat(last) == es[n] + Concat([]) == es[n];
  }

  lemma ConcatPrefix(es: seq<seq<Byte>>, i: nat, n: nat)
    requires i <= n <= |es|
    ensures |Concat(es[..i])| <= |Concat(es[..n])|
  {
    ConcatSplit(es[..n], i);
    assert es[..n][..i] == es[..i];
  }

  lemma {:induction false} CopiedMore(es: seq<seq<Byte>>, n: nat)
    requires n < |es|
    ensures Copied(es[..n + 1]) == Copied(es[..n]) + (if |es[n]| < BUF_SIZE_MAX then es[n] else [])
  {
    if n == 0 {
      assert es[..1] == [es[0]] && es[..1][1..] == [] && es[..0] == [];
    } else {
      CopiedMore(es[1..], n - 1);
      var s, t, piece := es[..n + 1], es[..n], if |es[n]| < BUF_SIZE_MAX then es[n] else [];
      assert s[1..] == es[1..][..n] && t[1..] == es[1..][..n - 1];
      var first := if |es[0]| < BUF_SIZE_MAX then es[0] else [];
      ConcatAssociates(first, Copied(t[1..]), piece);
    }
  }

  lemma CopiedNone()
    ensures Copied([]) == []
  {
  }

  predicate Copyable(es: seq<seq<Byte>>) {
    forall i :: 0 <= i < |es| ==> |es[i]| < BUF_SIZE_MAX
  }

  lemma {:induction false} CopiedWhole(es: seq<seq<Byte>>)
    ensures Copied(es) == Concat(es) <==> Copyable(es)
    ensures |Copied(es)| == |Concat(es)| <==> Copyable(es)
  {
    if es != [] {
      CopiedWhole(es[1..]);
      assert Copyable(es) <==> |es[0]| < BUF_SIZE_MAX && Copyable(es[1..]) by {
        assert forall i :: 0 < i < |es| ==> es[i] == es[1..][i - 1];
      }
    }
  }

  /** Joining leaves the stream of bytes as it is, exactly when no entry that would be
      joined is too long to be copied. */
  lemma AggregateKeepsStream(es: seq<seq<Byte>>, max: nat)
    ensures var count := Scan(es, 0, max);
            Concat(Aggregated(es, max)) == Concat(es) <==> count < 2 || Copyable(es[..count])
  {
    var count := Scan(es, 0, max);
    if count >= 2 {
      var r := Aggregated(es, max);
      assert r[1..] == es[count..];
      ConcatSplit(es, count);
      CopiedWhole(es[..count]);
    }
  }

  lemma {:induction false} ScannedAreShort(es: seq<seq<Byte>>, size: nat, max: nat, i: nat)
    requires i + 1 < Scan(es, size, max)
    ensures size + |es[i]| <= max
  {
    if i > 0 {
      ScannedAreShort(es[1..], size + |es[0]|, max, i - 1);
    }
  }

  /** Entries behind the first are as they were pushed. */
  predicate TailCopyable(es: seq<seq<Byte>>) {
    forall i :: 1 <= i < |es| ==> |es[i]| < BUF_SIZE_MAX
  }

  lemma ShortLimitKeepsStream(es: seq<seq<Byte>>, max: nat)
    requires TailCopyable(es) && max < BUF_SIZE_MAX
    ensures Concat(Aggregated(es, max)) == Concat(es) && TailCopyable(Aggregated(es, max))
  {
    AggregateKeepsStream(es, max);
    var count := Scan(es, 0, max);
    if count >= 2 {
      ScannedAreShort(es, 0, max, 0);
    }
  }

  lemma {:induction false} ScanGathers(es: seq<seq<Byte>>, size: nat, max: nat)
    ensures var count := Scan(es, size, max);
            count == |es| || size + |Concat(es[..count])| > max
  {
    if es != [] && size <= max {
      var count := Scan(es, size, max);
      ScanGathers(es[1..], size + |es[0]|, max);
      assert es[..count][1..] == es[1..][..count - 1];
    }
  }

  lemma SmallestGathering(es: seq<seq<Byte>>, max: nat)
    ensures var count := Scan(es, 0, max);
            && (count == |es| || |Concat(es[..count])| > max)
            && (forall n: nat :: n < count ==> |Concat(es[..n])| <= max)
  {
    ScanGathers(es, 0, max);
    forall n: nat | n < Scan(es, 0, max)
      ensures |Concat(es[..n])| <= max
    {
      ScanWaits(es, 0, max, n);
    }
  }

  lemma {:induction false} ScanWaits(es: seq<seq<Byte>>, size: nat, max: nat, n: nat)
    requires n < Scan(es, size, max)
    ensures size + |Concat(es[..n])| <= max
  {
    if n > 0 {
      ScanWaits(es[1..], size + |es[0]|, max, n - 1);
      assert es[..n][1..] == es[1..][..n - 1];
    } else {
      assert es[..0] == [];
    }
  }

  /** What joining does, said without the loop: entries are joined to the first one until
      there are more than max bytes or no more entries, and no further. */
  lemma AggregateGathers(es: seq<seq<Byte>>, max: nat) returns (n: nat)
    requires TailCopyable(es) && max < BUF_SIZE_MAX && es != []
    ensures 0 < n <= |es| && Aggregated(es, max) == [Concat(es[..n])] + es[n..]
    ensures (n == |es| || |Concat(es[..n])| > max) && |Concat(es[..n - 1])| <= max
  {
    hide Scan;
    n := Scan(es, 0, max);
    SmallestGathering(es, max);
    ScanFirst(es, max);
    assert |Concat(es[..n - 1])| <= max;
    if n >= 2 {
      ScannedAreShort(es, 0, max, 0);
      CopiedWhole(es[..n]);
    } else {
      OneGathered(es);
    }
    assert Aggregated(es, max) == [Concat(es[..n])] + es[n..];
  }

  lemma ScanFirst(es: seq<seq<Byte>>, max: nat)
    requires es != []
    ensures 0 < Scan(es, 0, max) <= |es|
  {
  }

  lemma OneGathered(es: seq<seq<Byte>>)
    requires es != []
    ensures [Concat(es[..1])] + es[1..] == es
  {
    hide Concat;
    ConcatMore(es, 0);
    assert es[..0] == [];
    ConcatNone();
    NothingBefore(es[0]);
  }

  /** The first entry then holds all the bytes there are, or more than max. */
  lemma FrontGathers(es: seq<seq<Byte>>, max: nat)
    requires TailCopyable(es) && max < BUF_SIZE_MAX && es != []
    ensures var r := Aggregated(es, max);
            r != [] && (|r[0]| > max || |r[0]| == |Concat(es)|) && |r[0]| <= |Concat(es)|
  {
    hide Scan, Aggregated, Concat;
    var n := AggregateGathers(es, max);
    ConcatPrefix(es, n, |es|);
    assert es[..|es|] == es;
    assert Aggregated(es, max)[0] == Concat(es[..n]);
  }

  // Whole runs

  datatype Op = Push(bytes: seq<Byte>) | Aggregate(max: nat) | Advance(n: nat)

  /** The list after an operation, and the bytes advanced past.  alloc_buf ends the
      program for entries that are too long, and an assertion for going too far. */
  predicate Enabled(es: seq<seq<Byte>>, op: Op) {
    match op
    case Push(bytes) => |bytes| < BUF_SIZE_MAX
    case Aggregate(_) => true
    case Advance(n) => es != [] ==> n <= |es[0]|
  }

  function Step(es: seq<seq<Byte>>, op: Op): (seq<seq<Byte>>, seq<Byte>)
    requires Enabled(es, op)
  {
    match op
    case Push(bytes) => (es + [bytes], [])
    case Aggregate(max) => (Aggregated(es, max), [])
    case Advance(n) => (Advanced(es, n), if es == [] then [] else es[0][..n])
  }

  function PushedBy(op: Op): seq<Byte> {
    if op.Push? then op.bytes else []
  }

  ghost predicate Run(lists: seq<seq<seq<Byte>>>, sent: seq<seq<Byte>>, ops: seq<Op>) {
    && |lists| == |ops| + 1 && |sent| == |ops| && lists[0] == []
    && forall k :: 0 <= k < |ops| ==>
         Enabled(lists[k], ops[k]) && (lists[k + 1], sent[k]) == Step(lists[k], ops[k])
  }

  function AllSent(sent: seq<seq<Byte>>, n: nat): seq<Byte>
    requires n <= |sent|
  {
    if n == 0 then [] else AllSent(sent, n - 1) + sent[n - 1]
  }

  function AllPushed(ops: seq<Op>, n: nat): seq<Byte>
    requires n <= |ops|
  {
    if n == 0 then [] else AllPushed(ops, n - 1) + PushedBy(ops[n - 1])
  }

  lemma StepConserves(es: seq<seq<Byte>>, op: Op)
    requires Enabled(es, op) && TailCopyable(es) && (op.Aggregate? ==> op.max < BUF_SIZE_MAX)
    ensures var (es', sent) := Step(es, op);
            TailCopyable(es') && sent + Concat(es') == Concat(es) + PushedBy(op)
  {
    hide Concat, Aggregated, Advanced;
    NothingAfter(Concat(es));
    match op
    case Push(bytes) =>
      PushConserves(es, bytes);
      NothingBefore(Concat(es + [bytes]));
    case Aggregate(max) =>
      ShortLimitKeepsStream(es, max);
      NothingBefore(Concat(Aggregated(es, max)));
    case Advance(n) =>
      AdvanceConserves(es, n);
  }

  lemma PushConserves(es: seq<seq<Byte>>, bytes: seq<Byte>)
    ensures Concat(es + [bytes]) == Concat(es) + bytes
  {
    var longer := es + [bytes];
    ConcatMore(longer, |es|);
    assert longer[..|es| + 1] == longer && longer[..|es|] == es;
  }

  lemma AdvanceConserves(es: seq<seq<Byte>>, n: nat)
    requires TailCopyable(es) && (es != [] ==> n <= |es[0]|)
    ensures (if es == [] then [] else es[0][..n]) + Concat(Advanced(es, n)) == Concat(es)
    ensures TailCopyable(Advanced(es, n))
  {
    if es == [] {
      ConcatNone();
    } else {
      StreamAfter(es, n);
      assert Concat(es)[..n] == es[0][..n];
    }
  }

  /** Over every run whose limits are below BUF_SIZE_MAX (the management interface uses
      1024), what was advanced past, followed by what is queued, is what was pushed. */
  lemma {:induction false} StreamIsConserved(lists: seq<seq<seq<Byte>>>, sent: seq<seq<Byte>>, ops: seq<Op>, n: nat)
    requires Run(lists, sent, ops) && n <= |ops|
    requires forall k :: 0 <= k < n && ops[k].Aggregate? ==> ops[k].max < BUF_SIZE_MAX
    ensures TailCopyable(lists[n]) && AllSent(sent, n) + Concat(lists[n]) == AllPushed(ops, n)
  {
    hide Step, Concat;
    if n == 0 {
      ConcatNone();
    } else {
      StreamIsConserved(lists, sent, ops, n - 1);
      StepConserves(lists[n - 1], ops[n - 1]);
      var before, pushed := AllSent(sent, n - 1), PushedBy(ops[n - 1]);
      calc {
        before + sent[n - 1] + Concat(lists[n]);
        before + (sent[n - 1] + Concat(lists[n]));
        before + (Concat(lists[n - 1]) + pushed);
        before + Concat(lists[n - 1]) + pushed;
      }
    }
  }

  lemma ConcatNone()
    ensures Concat([]) == []
  {
  }

  /** A larger limit can lose bytes: a first entry that was itself joined may be too long
      to be copied when more is joined to it. */
  lemma LargeLimitLosesBytes(a: seq<Byte>, b: seq<Byte>, c: seq<Byte>)
    requires |a| == |b| == BUF_SIZE_MAX - 1 && |c| == 1
    ensures var joined := Aggregated([a, b], 2 * BUF_SIZE_MAX);
            && joined == [a + b]
            && Aggregated(joined + [c], 2 * BUF_SIZE_MAX) == [c]
  {
    TwoEntries(a, b, 2 * BUF_SIZE_MAX);
    TwoEntries(a + b, c, 2 * BUF_SIZE_MAX);
    assert [a + b] + [c] == [a + b, c];
  }

  lemma TwoEntries(a: seq<Byte>, b: seq<Byte>, max: nat)
    requires |a| <= max && |b| < BUF_SIZE_MAX
    ensures Aggregated([a, b], max) == [if |a| < BUF_SIZE_MAX then a + b else b]
  {
    var es := [a, b];
    assert es[1..] == [b] && [b][1..] == [] && es[..2] == es && es[2..] == [];
    assert Scan([b], |a|, max) == 1 && Scan(es, 0, max) == 2;
    assert Copied([b]) == b + Copied([]) == b;
    var joined := if |a| < BUF_SIZE_MAX then a + b else b;
    assert Copied(es) == (if |a| < BUF_SIZE_MAX then a else []) + b == joined;
    assert Aggregated(es, max) == [Copied(es[..2])] + es[2..];
  }

  /** What is left of the stream after going forward in the first entry. */
  lemma StreamAfter(es: seq<seq<Byte>>, n: nat)
    requires es != [] && n <= |es[0]| && TailCopyable(es)
    ensures n <= |Concat(es)| && Concat(Advanced(es, n)) == Concat(es)[n..] && TailCopyable(Advanced(es, n))
  {
    var es' := Advanced(es, n);
    assert n < |es[0]| ==> es'[1..] == es[1..];
  }

  const SIZE_HINT: nat := 1024

  lemma NothingQueued(es: seq<seq<Byte>>, max: nat)
    requires TailCopyable(es) && max < BUF_SIZE_MAX
    ensures es == [] ==> Concat(es) == [] && Aggregated(es, max) == []
    ensures es != [] ==> Aggregated(es, max) != [] && (Concat(es) == [] <==> Aggregated(es, max)[0] == [])
  {
    hide Scan, Concat;
    if es == [] {
      ConcatNone();
      ScanNone(max);
    } else {
      FrontGathers(es, max);
    }
  }

  lemma ScanNone(max: nat)
    ensures Scan([], 0, max) == 0
  {
  }

  lemma WholeBuffer(data: seq<Byte>)
    ensures Buf(data, 0, |data|).Valid() && Buf(data, 0, |data|).Content() == data
  {
  }

  // The linked list

  class BufferEntry {
    var buf: Buf
    var next: BufferEntry?

    constructor (buf: Buf)
      ensures this.buf == buf && next == null
    {
      this.buf, next := buf, null;
    }
  }

  class BufferList {
    var head: BufferEntry?
    var tail: BufferEntry?
    var size: int
    const maxSize: int
    ghost var entries: seq<BufferEntry>

    /** The entries hang together in order, and the tail is the last one. */
    ghost predicate Valid()
      reads this, entries
    {
      && (if entries == [] then head == tail == null
          else head == entries[0] && tail == entries[|entries| - 1] && entries[|entries| - 1].next == null)
      && (forall i :: 0 <= i < |entries| - 1 ==> entries[i].next == entries[i + 1])
      && (forall i, j :: 0 <= i < j < |entries| ==> entries[i] != entries[j])
      && (forall i :: 0 <= i < |entries| ==> entries[i].buf.Valid())
    }

    ghost function Contents(): (c: seq<seq<Byte>>)
      requires Valid()
      reads this, entries
      ensures |c| == |entries|
    {
      seq(|entries|, i requires 0 <= i < |entries| reads this, entries requires Valid() => entries[i].buf.Content())
    }

    /** Only entries of before, or new ones. */
    twostate predicate OldOrFresh(before: seq<BufferEntry>)
      reads this`entries
    {
      forall i :: 0 <= i < |entries| ==> entries[i] in before || fresh(entries[i])
    }

    constructor (maxSize: int)
      ensures Valid() && Contents() == [] && size == 0 && this.maxSize == maxSize && entries == []
    {
      head, tail, size, entries := null, null, 0, [];
      this.maxSize := maxSize;
    }

    /** buffer_list_push_data; alloc_buf ends the program for data that are too long. */
    method PushData(data: seq<Byte>) returns (pushed: bool)
      requires Valid() && |data| < BUF_SIZE_MAX
      modifies this, entries
      ensures Valid() && pushed == (maxSize == 0 || old(size) < maxSize)
      ensures Contents() == if pushed then old(Contents()) + [data] else old(Contents())
      ensures size == if pushed then old(size) + 1 else old(size)
      ensures OldOrFresh(old(entries))
    {
      pushed := maxSize == 0 || size < maxSize;
      if pushed {
        hide Buf.Content;
        WholeBuffer(data);
        var e := new BufferEntry(Buf(data, 0, |data|));
        size := size + 1;
        Append(e);
      }
    }

    /** Link an entry behind the last one. */
    method Append(e: BufferEntry)
      requires Valid() && e !in entries && e.next == null && e.buf.Valid()
      modifies this`head, this`tail, this`entries, entries`next
      ensures Valid() && entries == old(entries) + [e]
      ensures Contents() == old(Contents()) + [e.buf.Content()]
    {
      if tail != null {
        tail.next := e;
      } else {
        head := e;
      }
      tail := e;
      entries := entries + [e];
    }

    /** buffer_list_pop */
    method Pop()
      requires Valid()
      modifies this
      ensures Valid() && Contents() == if old(Contents()) == [] then [] else old(Contents())[1..]
      ensures entries == if old(entries) == [] then [] else old(entries)[1..]
      ensures size == if old(entries) == [] then old(size) else old(size) - 1
    {
      if head != null {
        head := head.next;
        size := size - 1;
        if head == null {
          tail := null;
        }
        entries := entries[1..];
      }
    }

    /** buffer_list_advance; the source asserts that there are n bytes. */
    method Advance(n: nat)
      requires Valid() && (entries != [] ==> n <= |Contents()[0]|)
      modifies this, head
      ensures Valid() && Contents() == Advanced(old(Contents()), n) && OldOrFresh(old(entries))
      ensures old(entries) != [] && n == |old(Contents()[0])| ==> entries == old(entries)[1..]
      ensures old(entries) == [] || n < |old(Contents()[0])| ==> entries == old(entries)
    {
      if head != null {
        ghost var es := Contents();
        head.buf := head.buf.Dropped(n);
        assert Contents() == es[0 := es[0][n..]];
        if head.buf.len == 0 {
          Pop();
        }
      }
    }

    /** The first loop of buffer_list_aggregate: how many entries to join, their bytes,
        and the entry behind them. */
    method CountEntries(max: nat) returns (count: nat, total: nat, more: BufferEntry?)
      requires Valid()
      ensures count == Scan(Contents(), 0, max)
      ensures total == |Concat(Contents()[..count])|
      ensures more == if count < |entries| then entries[count] else null
    {
      hide Scan, Concat;
      more, total, count := head, 0, 0;
      ghost var es := Contents();
      assert es[0..] == es && es[..0] == [];
      ConcatNone();
      while more != null && total <= max
        invariant count <= |entries| && more == if count < |entries| then entries[count] else null
        invariant total == |Concat(es[..count])|
        invariant Scan(es, 0, max) == count + Scan(es[count..], total, max)
        decreases |entries| - count
      {
        ConcatMore(es, count);
        ScanMore(es, count, total, max);
        total := total + more.buf.len;
        more := more.next;
        count := count + 1;
      }
      ScanEnd(es, count, total, max);
    }

    lemma NoneToCount(max: nat)
      ensures Scan([], 0, max) == 0
    {
    }

    /** buffer_list_aggregate; size is left as it was. */
    method Aggregate(max: nat)
      requires Valid()
      modifies this`head, this`tail, this`entries
      ensures Valid() && Contents() == Aggregated(old(Contents()), max)
      ensures (head == old(head) || (head != null && fresh(head))) && OldOrFresh(old(entries))
    {
      hide Scan, Copied, Concat;
      if head == null {
        NoneToCount(max);
        return;
      }
      var count, total, more := CountEntries(max);
      if count >= 2 {
        JoinFirst(count, total, more);
      }
    }

    /** The second part of buffer_list_aggregate. */
    method JoinFirst(count: nat, total: nat, more: BufferEntry?)
      requires Valid() && 0 < count <= |entries| && total == |Concat(Contents()[..count])|
      requires more == if count < |entries| then entries[count] else null
      modifies this`head, this`tail, this`entries
      ensures Valid() && head != null && fresh(head) && OldOrFresh(old(entries))
      ensures Contents() == [Copied(old(Contents())[..count])] + old(Contents())[count..]
    {
      hide Copied, Concat;
      var f := JoinEntries(count, total);
      Replace(f, count, more);
    }

    /** Put an entry in the place of the first ones. */
    method Replace(f: BufferEntry, ghost count: nat, more: BufferEntry?)
      requires Valid() && 0 < count <= |entries| && f !in entries && f.buf.Valid()
      requires more == if count < |entries| then entries[count] else null
      modifies this`head, this`tail, this`entries, f`next
      ensures Valid() && head == f && Contents() == [f.buf.Content()] + old(Contents())[count..]
      ensures entries == [f] + old(entries)[count..]
    {
      f.next := more;
      head := f;
      if more == null {
        tail := f;
      }
      entries := [f] + entries[count..];
      assert forall i :: 1 <= i < |entries| ==> entries[i] == old(entries)[count + i - 1];
      hide Buf.Content;
      assert Contents()[1..] == old(Contents())[count..];
    }

    /** A new entry with the bytes of the first ones. */
    method JoinEntries(count: nat, total: nat) returns (f: BufferEntry)
      requires Valid() && count <= |entries| && total == |Concat(Contents()[..count])|
      ensures fresh(f) && f.buf.Valid() && f.buf.Content() == Copied(Contents()[..count])
    {
      hide Copied, Concat, Buf.Appended, Buf.Content;
      ghost var es := Contents();
      assert es[..0] == [];
      CopiedNone();
      f := new BufferEntry(Buf(seq(total, _ => 0), 0, 0));
      var e := head;
      var i := 0;
      while i < count
        invariant 0 <= i <= count && fresh(f) && f.buf.Valid() && f.buf.offset == 0 && |f.buf.data| == total
        invariant e == if i < |entries| then entries[i] else null
        invariant f.buf.Content() == Copied(es[..i]) && f.buf.len <= |Concat(es[..i])|
      {
        ConcatMore(es, i);
        CopiedMore(es, i);
        ConcatPrefix(es, i + 1, count);
        var bytes := e.buf.Content();
        if |bytes| < BUF_SIZE_MAX && f.buf.offset + f.buf.len + |bytes| <= |f.buf.data| {
          f.buf := f.buf.Appended(bytes);
        }
        e := e.next;
        i := i + 1;
      }
    }

    /** man_write on the list of output; offered is what the socket would take, or a
        negative error.  What is sent comes off the front of the stream, and is as much
        as the socket takes of its first 1024 bytes. */
    method ManWrite(offered: int) returns (sent: int)
      requires Valid() && TailCopyable(Contents())
      modifies this, head
      ensures Valid() && TailCopyable(Contents()) && OldOrFresh(old(entries))
      ensures |old(Concat(Contents()))| == 0 ==> sent == 0
      ensures |old(Concat(Contents()))| > 0 ==>
                var n := |old(Concat(Contents()))|;
                sent <= offered && sent <= 1024 && sent <= n && (sent == offered || sent == 1024 || sent == n)
      ensures Concat(Contents()) == old(Concat(Contents()))[if sent < 0 then 0 else sent..]
    {
      hide Scan, Copied, Concat, Aggregated, TailCopyable;
      ghost var es := Contents();
      ShortLimitKeepsStream(es, SIZE_HINT);
      NothingQueued(es, SIZE_HINT);
      if es != [] {
        FrontGathers(es, SIZE_HINT);
      }
      Aggregate(SIZE_HINT);
      sent := SendFirst(offered);
    }

    /** What man_write does with the first entry. */
    method SendFirst(offered: int) returns (sent: int)
      requires Valid() && TailCopyable(Contents())
      modifies this, head
      ensures Valid() && TailCopyable(Contents()) && OldOrFresh(old(entries))
      ensures var first := if old(Contents()) == [] then 0 else |old(Contents())[0]|;
              sent == if first == 0 then 0 else if offered <= 1024 && offered <= first then offered
                      else if first < 1024 then first else 1024
      ensures sent <= |Concat(old(Contents()))|
      ensures Concat(Contents()) == old(Concat(Contents()))[if sent < 0 then 0 else sent..]
    {
      hide Scan, Copied, Concat, Aggregated;
      sent := 0;
      if head != null && head.buf.len > 0 {
        var len := if SIZE_HINT < head.buf.len then SIZE_HINT else head.buf.len;
        sent := if offered < len then offered else len;
        StreamAfter(Contents(), if sent < 0 then 0 else sent);
        if sent >= 0 {
          Advance(sent);
        }
      }
    }

    /** man_write whenever the socket takes something: the queue is empty after at most as
        many calls as there are bytes. */
    method WriteAll(offers: seq<int>)
      requires Valid() && TailCopyable(Contents())
      requires (forall i :: 0 <= i < |offers| ==> offers[i] > 0) && |offers| >= |Concat(Contents())|
      modifies this, entries
      ensures Valid() && Concat(Contents()) == []
    {
      hide Concat, TailCopyable;
      var i := 0;
      while i < |offers|
        invariant 0 <= i <= |offers| && Valid() && TailCopyable(Contents()) && |Concat(Contents())| <= |offers| - i
        invariant OldOrFresh(old(entries))
      {
        var _ := ManWrite(offers[i]);
        i := i + 1;
      }
    }
  }
}
