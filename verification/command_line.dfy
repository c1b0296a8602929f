/** Splitting the input of the management interface into lines: command_line_* of
    manage.c on the buffer operations of buffer.c. */
module CommandLines {
  import opened Buffers
  import opened Options
  import opened Sequences
  import Bits

  const NEWLINE: Byte := 10
  const CR: Byte := 13
  const NUL: Byte := 0

  predicate IsPrint(b: Byte) {
    32 <= b < 127
  }

  predicate Kept(b: Byte) {
    IsPrint(b) || b == NEWLINE
  }

  predicate Clean(s: seq<Byte>) {
    forall i :: 0 <= i < |s| ==> Kept(s[i])
  }

  function Filter(s: seq<Byte>): (r: seq<Byte>)
    ensures Clean(r)
  {
    if s == [] then [] else (if Kept(s[0]) then [s[0]] else []) + Filter(s[1..])
  }

  /** buf_substring_len: the length of the text up to and with a delimiter, or -1. */
  function SubstringLen(s: seq<Byte>, delim: Byte): (n: int)
    ensures n == -1 || 0 < n <= |s|
  {
    if s == [] then -1
    else if s[0] == delim then 1
    else if SubstringLen(s[1..], delim) < 0 then -1 else SubstringLen(s[1..], delim) + 1
  }

  lemma {:induction false} SubstringEnd(s: seq<Byte>, delim: Byte, n: nat)
    requires n < |s| && s[n] == delim && forall i :: 0 <= i < n ==> s[i] != delim
    ensures SubstringLen(s, delim) == n + 1
  {
    if n > 0 {
      SubstringEnd(s[1..], delim, n - 1);
    }
  }

  lemma {:induction false} NoSubstring(s: seq<Byte>, delim: Byte)
    ensures SubstringLen(s, delim) == -1 <==> delim !in s
  {
    if s != [] {
      NoSubstring(s[1..], delim);
    }
  }

  /** The complete lines of a text, and what is behind the last newline. */
  function Lines(s: seq<Byte>): seq<seq<Byte>>
    decreases |s|
  {
    var n := SubstringLen(s, NEWLINE);
    if n < 0 then [] else [s[..n - 1]] + Lines(s[n..])
  }

  function Rest(s: seq<Byte>): (r: seq<Byte>)
    ensures |r| <= |s|
    decreases |s|
  {
    var n := SubstringLen(s, NEWLINE);
    if n < 0 then s else Rest(s[n..])
  }

  function Unsplit(lines: seq<seq<Byte>>): seq<Byte> {
    if lines == [] then [] else lines[0] + [NEWLINE] + Unsplit(lines[1..])
  }

  lemma {:induction false} SubstringAt(s: seq<Byte>, delim: Byte)
    ensures var n := SubstringLen(s, delim);
            if n < 0 then delim !in s else s[n - 1] == delim && delim !in s[..n - 1]
  {
    NoSubstring(s, delim);
    if s != [] && s[0] != delim {
      SubstringAt(s[1..], delim);
      var n := SubstringLen(s, delim);
      if n >= 0 {
        assert s[..n - 1] == [s[0]] + s[1..][..n - 2];
      }
    }
  }

  lemma UnsplitNone()
    ensures Unsplit([]) == []
  {
  }

  lemma NoLine(s: seq<Byte>)
    requires SubstringLen(s, NEWLINE) < 0
    ensures Lines(s) == [] && Rest(s) == s
  {
  }

  lemma FirstLine(s: seq<Byte>)
    requires SubstringLen(s, NEWLINE) >= 0
    ensures var n := SubstringLen(s, NEWLINE);
            && Lines(s) == [s[..n - 1]] + Lines(s[n..]) && Rest(s) == Rest(s[n..])
            && Unsplit(Lines(s)) == s[..n - 1] + [NEWLINE] + Unsplit(Lines(s[n..]))
            && s[..n - 1] + [NEWLINE] + s[n..] == s
  {
    hide SubstringLen;
    var n := SubstringLen(s, NEWLINE);
    SubstringAt(s, NEWLINE);
    var first, rest := s[..n - 1], Lines(s[n..]);
    assert Lines(s) == [first] + rest && ([first] + rest)[1..] == rest;
  }

  /** The lines, each with its newline, and the rest are the text. */
  lemma {:induction false} LinesAreTheText(s: seq<Byte>)
    ensures Unsplit(Lines(s)) + Rest(s) == s
    decreases |s|
  {
    hide Lines, Rest, Unsplit, SubstringLen;
    var n := SubstringLen(s, NEWLINE);
    if n < 0 {
      NoLine(s);
      UnsplitNone();
      NothingBefore(s);
    } else {
      FirstLine(s);
      LinesAreTheText(s[n..]);
      ConcatAssociates(s[..n - 1] + [NEWLINE], Unsplit(Lines(s[n..])), Rest(s[n..]));
    }
  }

  /** None of them holds a newline. */
  lemma {:induction false} LinesHoldNoNewline(s: seq<Byte>)
    ensures forall i :: 0 <= i < |Lines(s)| ==> NEWLINE !in Lines(s)[i]
    ensures NEWLINE !in Rest(s)
    decreases |s|
  {
    hide SubstringLen;
    var n := SubstringLen(s, NEWLINE);
    SubstringAt(s, NEWLINE);
    if n >= 0 {
      LinesHoldNoNewline(s[n..]);
      assert Lines(s) == [s[..n - 1]] + Lines(s[n..]);
    }
  }

  // Splitting does not depend on the cuts

  lemma {:induction false} SubstringOfConcat(a: seq<Byte>, b: seq<Byte>)
    requires SubstringLen(a, NEWLINE) >= 0
    ensures SubstringLen(a + b, NEWLINE) == SubstringLen(a, NEWLINE)
  {
    assert (a + b)[0] == a[0];
    if a[0] != NEWLINE {
      assert (a + b)[1..] == a[1..] + b;
      SubstringOfConcat(a[1..], b);
    }
  }

  lemma {:induction false} LinesOfConcat(a: seq<Byte>, b: seq<Byte>)
    ensures Lines(a + b) == Lines(a) + Lines(Rest(a) + b)
    ensures Rest(a + b) == Rest(Rest(a) + b)
    decreases |a|
  {
    var n := SubstringLen(a, NEWLINE);
    if n >= 0 {
      SubstringOfConcat(a, b);
      assert (a + b)[..n - 1] == a[..n - 1] && (a + b)[n..] == a[n..] + b;
      LinesOfConcat(a[n..], b);
    }
  }

  lemma {:induction false} FilterConcat(a: seq<Byte>, b: seq<Byte>)
    ensures Filter(a + b) == Filter(a) + Filter(b)
  {
    if a == [] {
      assert a + b == b;
    } else {
      assert (a + b)[1..] == a[1..] + b;
      FilterConcat(a[1..], b);
    }
  }

  /** What is kept of the input is, in order, the newlines and the printable characters of
      ASCII. */
  lemma FilterIsExact(s: seq<Byte>, b: Byte)
    ensures Filter([]) == []
    ensures Filter(s + [b]) == Filter(s) + (if b == 10 || 32 <= b <= 126 then [b] else [])
  {
    FilterConcat(s, [b]);
    assert [b][1..] == [];
  }

  function AllOf(chunks: seq<seq<Byte>>, n: nat): seq<Byte>
    requires n <= |chunks|
  {
    if n == 0 then [] else AllOf(chunks, n - 1) + chunks[n - 1]
  }

  // What command_line_add does

  /** One byte: it is dropped, and all that is pending, when there is no room. */
  function AddByte(s: seq<Byte>, b: Byte, capacity: nat): (r: seq<Byte>)
    ensures |s| <= capacity ==> |r| <= capacity
    ensures Clean(s) ==> Clean(r)
  {
    if !Kept(b) then s else if |s| < capacity then s + [b] else []
  }

  function Added(s: seq<Byte>, bytes: seq<Byte>, capacity: nat): (r: seq<Byte>)
    ensures |s| <= capacity ==> |r| <= capacity
    ensures Clean(s) ==> Clean(r)
    decreases |bytes|
  {
    if bytes == [] then s else Added(AddByte(s, bytes[0], capacity), bytes[1..], capacity)
  }

  /** The largest multiple of m up to n. */
  function WholeTimes(n: nat, m: nat): (r: nat)
    requires m > 0
    ensures r <= n
  {
    n / m * m
  }

  /** Every time one byte more than fits has come, all of it is dropped; what is pending is
      what has come since. */
  lemma {:induction false} AddedExactly(s: seq<Byte>, bytes: seq<Byte>, capacity: nat)
    requires |s| <= capacity
    ensures var all := s + Filter(bytes);
            Added(s, bytes, capacity) == all[WholeTimes(|all|, capacity + 1)..]
    decreases |bytes|
  {
    hide Filter, Added, Kept, WholeTimes;
    var all := s + Filter(bytes);
    if bytes == [] {
      NothingAdded(s, capacity);
      Whole(all, capacity);
    } else {
      AddedFirst(s, bytes, capacity);
      AddedExactly(AddByte(s, bytes[0], capacity), bytes[1..], capacity);
      if Kept(bytes[0]) {
        ConcatAssociates(s, [bytes[0]], Filter(bytes[1..]));
        if |s| == capacity {
          NothingBefore(Filter(bytes[1..]));
          Overflow(all, s + [bytes[0]], Filter(bytes[1..]), capacity + 1);
        }
      }
    }
  }

  lemma NothingAdded(s: seq<Byte>, capacity: nat)
    ensures s + Filter([]) == s && Added(s, [], capacity) == s
  {
  }

  lemma Whole(s: seq<Byte>, capacity: nat)
    requires |s| <= capacity
    ensures s[WholeTimes(|s|, capacity + 1)..] == s
  {
    Quotient(|s|, capacity + 1, 0, |s|);
  }

  lemma AddedFirst(s: seq<Byte>, bytes: seq<Byte>, capacity: nat)
    requires bytes != []
    ensures Added(s, bytes, capacity) == Added(AddByte(s, bytes[0], capacity), bytes[1..], capacity)
    ensures Filter(bytes) == if Kept(bytes[0]) then [bytes[0]] + Filter(bytes[1..]) else Filter(bytes[1..])
  {
    NothingBefore(Filter(bytes[1..]));
  }

  lemma Overflow(all: seq<Byte>, front: seq<Byte>, rest: seq<Byte>, m: nat)
    requires all == front + rest && |front| == m > 0
    ensures all[WholeTimes(|all|, m)..] == rest[WholeTimes(|rest|, m)..]
  {
    var q, r := |rest| / m, |rest| % m;
    assert |rest| == q * m + r;
    assert |all| == (q + 1) * m + r;
    Quotient(|all|, m, q + 1, r);
    assert (q + 1) * m == q * m + m;
    assert all[m..] == rest;
    assert all[q * m + m..] == all[m..][q * m..];
  }

  lemma Quotient(x: nat, m: nat, q: nat, r: nat)
    requires m > 0 && x == q * m + r && r < m
    ensures x / m == q
  {
    Bits.RemainderUnique(x, m, q, r);
  }

  /** Exactly as long as it fits, everything kept is added. */
  lemma {:induction false} AddedWhole(s: seq<Byte>, bytes: seq<Byte>, capacity: nat)
    requires |s| <= capacity
    ensures Added(s, bytes, capacity) == s + Filter(bytes) <==> |s| + |Filter(bytes)| <= capacity
    decreases |bytes|
  {
    if bytes == [] {
      assert s + Filter(bytes) == s;
    } else if Kept(bytes[0]) {
      assert Filter(bytes) == [bytes[0]] + Filter(bytes[1..]);
      if |s| < capacity {
        AddedWhole(s + [bytes[0]], bytes[1..], capacity);
        assert s + Filter(bytes) == s + [bytes[0]] + Filter(bytes[1..]);
      } else {
        AddedFits([], bytes[1..], capacity);
      }
    } else {
      AddedWhole(s, bytes[1..], capacity);
      assert Filter(bytes) == Filter(bytes[1..]);
    }
  }

  lemma AddedFits(s: seq<Byte>, bytes: seq<Byte>, capacity: nat)
    requires |s| <= capacity
    ensures |Added(s, bytes, capacity)| <= capacity
  {
  }

  /** One more chunk, that fits behind what is pending. */
  lemma ChunkAdded(chunks: seq<seq<Byte>>, capacity: nat, n: nat)
    requires n < |chunks| && |Pending(chunks, capacity, n)| + |Filter(chunks[n])| <= capacity
    ensures var s := Pending(chunks, capacity, n) + Filter(chunks[n]);
            && Pending(chunks, capacity, n + 1) == Rest(s)
            && LinesRead(chunks, capacity, n + 1) == LinesRead(chunks, capacity, n) + Lines(s)
    ensures Filter(AllOf(chunks, n + 1)) == Filter(AllOf(chunks, n)) + Filter(chunks[n])
  {
    hide Lines, Rest, Filter, Added;
    AddedWhole(Pending(chunks, capacity, n), chunks[n], capacity);
    FilterConcat(AllOf(chunks, n), chunks[n]);
  }

  /** What is pending after n chunks, when every one is read to its last newline. */
  function Pending(chunks: seq<seq<Byte>>, capacity: nat, n: nat): (r: seq<Byte>)
    requires n <= |chunks|
    ensures |r| <= capacity
  {
    if n == 0 then [] else Rest(Added(Pending(chunks, capacity, n - 1), chunks[n - 1], capacity))
  }

  function LinesRead(chunks: seq<seq<Byte>>, capacity: nat, n: nat): seq<seq<Byte>>
    requires n <= |chunks|
  {
    if n == 0 then []
    else LinesRead(chunks, capacity, n - 1) + Lines(Added(Pending(chunks, capacity, n - 1), chunks[n - 1], capacity))
  }

  /** However the input is cut into chunks, as long as what is pending fits the buffer,
      the lines read are those of the whole filtered input. */
  lemma {:induction false} ChunksDoNotMatter(chunks: seq<seq<Byte>>, capacity: nat, n: nat)
    requires n <= |chunks|
    requires forall k: nat :: k < n ==> |Pending(chunks, capacity, k)| + |Filter(chunks[k])| <= capacity
    ensures LinesRead(chunks, capacity, n) == Lines(Filter(AllOf(chunks, n)))
    ensures Pending(chunks, capacity, n) == Rest(Filter(AllOf(chunks, n)))
  {
    hide Lines, Rest, Filter, Added, AllOf, Pending, LinesRead;
    if n == 0 {
      NothingRead(chunks, capacity);
    } else {
      ChunksDoNotMatter(chunks, capacity, n - 1);
      ChunkAdded(chunks, capacity, n - 1);
      LinesOfConcat(Filter(AllOf(chunks, n - 1)), Filter(chunks[n - 1]));
    }
  }

  lemma NothingRead(chunks: seq<seq<Byte>>, capacity: nat)
    ensures LinesRead(chunks, capacity, 0) == Lines(Filter(AllOf(chunks, 0)))
    ensures Pending(chunks, capacity, 0) == Rest(Filter(AllOf(chunks, 0)))
  {
  }

  // The buffers

  /** buf_clear */
  method Clear(b: Buffer)
    modifies b`len, b`offset, b.data
    ensures b.Valid() && b.len == 0 && b.offset == 0
  {
    forall i | 0 <= i < b.data.Length {
      b.data[i] := 0;
    }
    b.len := 0;
    b.offset := 0;
  }

  /** The content of a buffer that starts at the front of its allocation. */
  function Text(b: Buffer): (t: seq<Byte>)
    requires b.Valid()
    reads b, b.data
    ensures |t| == b.len
  {
    b.data[b.offset..b.offset + b.len]
  }

  lemma TextIsContent(b: Buffer)
    requires b.Valid()
    ensures Text(b) == b.Value().Content()
  {
  }

  lemma CutContent(b: Buf, n: nat)
    requires b.Valid() && n <= b.len
    ensures b.(len := n).Valid() && b.(len := n).Content() == b.Content()[..n]
  {
    SliceOfSlice(b.data, b.offset, b.len, 0, n);
  }

  /** buf_substring_len */
  method FindDelimiter(b: Buffer, delim: Byte) returns (n: int)
    requires b.Valid()
    ensures n == SubstringLen(Text(b), delim)
  {
    ghost var s := Text(b);
    var i := 0;
    while i < b.len
      invariant 0 <= i <= b.len && forall j :: 0 <= j < i ==> s[j] != delim
    {
      var c := b.data[b.offset + i];
      i := i + 1;
      if c == delim {
        SubstringEnd(s, delim, i - 1);
        return i;
      }
    }
    NoSubstring(s, delim);
    n := -1;
  }

  /** buf_copy_excess: cut src off after n bytes and append what was behind them to dest. */
  method CopyExcess(dest: Buffer, src: Buffer, n: nat) returns (ok: bool)
    requires dest.Valid() && src.Valid() && dest != src && dest.data != src.data && n <= src.len
    requires src.data.Length < BUF_SIZE_MAX
    modifies dest`len, dest.data, src`len
    ensures dest.Valid() && src.Valid() && Text(src) == old(Text(src))[..n]
    ensures ok <==> n == old(src.len) || dest.offset + old(dest.len) + old(src.len) - n <= dest.data.Length
    ensures Text(dest) == if ok then old(Text(dest)) + old(Text(src))[n..] else old(Text(dest))
  {
    hide Text;
    TextIsContent(dest);
    TextIsContent(src);
    CutContent(src.Value(), n);
    if src.len > n {
      ok := CopyBehind(dest, src, n);
      TextIsContent(dest);
      TextIsContent(src);
    } else {
      ok := true;
      assert Text(src)[n..] == [];
      NothingAfter(Text(dest));
    }
  }

  /** The branch that copies: through a second struct on the same allocation. */
  method CopyBehind(dest: Buffer, src: Buffer, n: nat) returns (ok: bool)
    requires dest.Valid() && src.Valid() && dest != src && dest.data != src.data && n <= src.len
    requires src.data.Length < BUF_SIZE_MAX
    modifies dest`len, dest.data, src`len
    ensures dest.Valid() && src.Valid() && src.Value() == old(src.Value()).(len := n)
    ensures ok <==> dest.offset + old(dest.len) + old(src.len) - n <= dest.data.Length
    ensures dest.Value() ==
            if ok then old(dest.Value()).Appended(old(src.Value()).Content()[n..]) else old(dest.Value())
  {
    var b := new Buffer(0);
    b.Assign(src);
    src.len := n;
    var _, _ := b.Read(n);
    ok := dest.Copy(b);
  }

  lemma {:induction false} CleanUntilNewline(s: seq<Byte>)
    requires Clean(s) && SubstringLen(s, NEWLINE) > 0
    ensures var n := SubstringLen(s, NEWLINE); Chomped(s[..n]) == s[..n - 1]
  {
    var n := SubstringLen(s, NEWLINE);
    SubstringAt(s, NEWLINE);
    var line := s[..n];
    assert line[..n - 1] == s[..n - 1];
    if n >= 2 {
      assert Kept(s[n - 2]) && s[..n - 1][n - 2] == s[n - 2];
    }
  }

  predicate Stripped(b: Byte) {
    b == CR || b == NEWLINE || b == NUL
  }

  function Chomped(s: seq<Byte>): (r: seq<Byte>)
    ensures |r| <= |s|
  {
    if s != [] && Stripped(s[|s| - 1]) then Chomped(s[..|s| - 1]) else s
  }

  /** Chomping takes off exactly the returns, newlines and nulls the text ends with. */
  lemma {:induction false} ChompedExactly(s: seq<Byte>)
    ensures var n := |Chomped(s)|;
            && n <= |s| && Chomped(s) == s[..n]
            && (forall i :: n <= i < |s| ==> s[i] == 13 || s[i] == 10 || s[i] == 0)
            && (n > 0 ==> s[n - 1] != 13 && s[n - 1] != 10 && s[n - 1] != 0)
  {
    if s != [] && Stripped(s[|s| - 1]) {
      var most := s[..|s| - 1];
      ChompedExactly(most);
      assert most[..|Chomped(most)|] == s[..|Chomped(most)|];
      assert forall i :: 0 <= i < |most| ==> most[i] == s[i];
    } else {
      assert s[..|s|] == s;
    }
  }

  /** A text with a final null, which takes the place of its last byte if need be. */
  function Terminated(s: seq<Byte>, room: nat): seq<Byte>
  {
    if s != [] && s[|s| - 1] == NUL then s
    else if |s| < room then s + [NUL]
    else if s != [] then s[..|s| - 1] + [NUL]
    else s
  }

  /** A text that has room for a byte at all then ends with a null, and has lost its last
      byte only if there was no room for one more. */
  lemma TerminatedExactly(s: seq<Byte>, room: nat)
    requires |s| <= room && room > 0
    ensures var t := Terminated(s, room);
            && 0 < |t| <= room && t[|t| - 1] == 0
            && t[..|t| - 1] == if (s != [] && s[|s| - 1] == 0) || |s| == room then s[..|s| - 1] else s
  {
  }

  lemma ChompedLess(s: seq<Byte>)
    requires s != [] && Stripped(s[|s| - 1])
    ensures Chomped(s) == Chomped(s[..|s| - 1])
  {
  }

  lemma ChompedAll(s: seq<Byte>)
    requires s == [] || !Stripped(s[|s| - 1])
    ensures Chomped(s) == s
  {
  }

  /** The loop of buf_chomp. */
  method StripEnd(b: Buffer)
    requires b.Valid()
    modifies b`len
    ensures b.Valid() && Text(b) == Chomped(old(Text(b)))
  {
    hide Chomped, Stripped;
    while b.len > 0 && Stripped(b.data[b.offset + b.len - 1])
      invariant b.Valid() && Chomped(Text(b)) == Chomped(old(Text(b)))
      decreases b.len
    {
      ChompedLess(Text(b));
      assert Text(b)[..b.len - 1] == b.data[b.offset..b.offset + b.len - 1];
      b.len := b.len - 1;
    }
    ChompedAll(Text(b));
  }

  /** buf_null_terminate */
  method NullTerminate(b: Buffer)
    requires b.Valid()
    modifies b`len, b.data
    ensures b.Valid() && Text(b) == Terminated(old(Text(b)), b.data.Length - b.offset)
  {
    TextIsContent(b);
    assert b.len > 0 ==> Text(b)[b.len - 1] == b.data[b.offset + b.len - 1];
    hide Text, Buf.Appended, Buf.Content;
    if b.len > 0 && b.data[b.offset + b.len - 1] == NUL {
      return;
    }
    if b.offset + b.len + 1 > b.data.Length && b.len > 0 {
      CutContent(b.Value(), b.len - 1);
      b.len := b.len - 1;
    }
    var _ := b.Write([NUL]);
    TextIsContent(b);
  }

  /** buf_chomp */
  method Chomp(b: Buffer)
    requires b.Valid()
    modifies b`len, b.data
    ensures b.Valid() && Text(b) == Terminated(Chomped(old(Text(b))), b.data.Length - b.offset)
  {
    hide Chomped, Terminated, Text;
    StripEnd(b);
    NullTerminate(b);
  }

  /** A clean line with its newline becomes the line with a null. */
  lemma LineIsEnded(s: seq<Byte>, room: nat)
    requires Clean(s) && SubstringLen(s, NEWLINE) > 0 && |s| <= room
    ensures var n := SubstringLen(s, NEWLINE); Terminated(Chomped(s[..n]), room) == s[..n - 1] + [NUL]
  {
    hide SubstringLen, Chomped;
    var n := SubstringLen(s, NEWLINE);
    CleanUntilNewline(s);
    assert n >= 2 ==> Kept(s[n - 2]);
  }

  class CommandLine {
    const buf: Buffer
    const residual: Buffer
    const capacity: nat

    ghost predicate Valid()
      reads this, buf, residual
    {
      && buf != residual && buf.data != residual.data && capacity < BUF_SIZE_MAX
      && buf.Valid() && buf.offset == 0 && buf.data.Length == capacity
      && residual.Valid() && residual.offset == 0 && residual.data.Length == capacity
    }

    /** Between lines: the residual is empty and what is pending is clean. */
    ghost predicate Ready()
      reads this, buf, residual, buf.data, residual.data
    {
      Valid() && Clean(Text(buf)) && residual.len == 0
    }

    /** command_line_new */
    constructor (bufLen: nat)
      requires bufLen < BUF_SIZE_MAX
      ensures Ready() && Text(buf) == [] && capacity == bufLen
      ensures fresh(buf) && fresh(residual) && fresh(buf.data) && fresh(residual.data)
    {
      buf := new Buffer(bufLen);
      residual := new Buffer(bufLen);
      capacity := bufLen;
    }

    /** command_line_add */
    method Add(bytes: seq<Byte>)
      requires Valid()
      modifies buf`len, buf`offset, buf.data
      ensures Valid() && Text(buf) == Added(old(Text(buf)), bytes, capacity)
    {
      var i := 0;
      assert bytes[0..] == bytes;
      while i < |bytes|
        invariant 0 <= i <= |bytes| && Valid()
        invariant Added(Text(buf), bytes[i..], capacity) == Added(old(Text(buf)), bytes, capacity)
      {
        assert bytes[i..][0] == bytes[i] && bytes[i..][1..] == bytes[i + 1..];
        AddOne(bytes[i]);
        i := i + 1;
      }
      assert bytes[i..] == [];
    }

    method AddOne(b: Byte)
      requires Valid()
      modifies buf`len, buf`offset, buf.data
      ensures Valid() && Text(buf) == AddByte(old(Text(buf)), b, capacity)
    {
      if Kept(b) {
        var ok := buf.Write([b]);
        if !ok {
          Clear(buf);
        }
      }
    }

    /** command_line_get: the first complete line, if there is one; what follows it is
        kept as the residual, and the line is ended by a null. */
    method Get() returns (ret: Option<seq<Byte>>)
      requires Ready()
      modifies buf`len, buf.data, residual`len, residual.data
      ensures Valid()
      ensures var s := old(Text(buf));
              var n := SubstringLen(s, NEWLINE);
              if n < 0 then ret == None && Ready() && Text(buf) == s
              else ret == Some(s[..n - 1]) && Text(buf) == s[..n - 1] + [NUL] && Text(residual) == s[n..]
    {
      hide SubstringLen, Chomped, Terminated, Text, Clean;
      ret := None;
      var i := FindDelimiter(buf, NEWLINE);
      if i >= 0 {
        ghost var s := Text(buf);
        LineIsEnded(s, capacity);
        var _ := CopyExcess(residual, buf, i);
        NothingBefore(s[i..]);
        Chomp(buf);
        var text := Text(buf);
        ret := Some(text[..|text| - 1]);
      }
    }

    /** command_line_next */
    method Next()
      requires Valid()
      modifies buf`len, buf`offset, buf.data, residual`len, residual`offset, residual.data
      ensures Valid() && residual.len == 0 && Text(buf) == old(Text(residual))
    {
      Clear(buf);
      var _ := buf.Copy(residual);
      Clear(residual);
    }

    /** The loop of man_read: a chunk is added and all complete lines are taken. */
    method ReadLines(chunk: seq<Byte>) returns (lines: seq<seq<Byte>>)
      requires Ready()
      modifies buf`len, buf`offset, buf.data, residual`len, residual`offset, residual.data
      ensures Ready()
      ensures var s := Added(old(Text(buf)), chunk, capacity);
              lines == Lines(s) && Text(buf) == Rest(s)
    {
      hide Lines, Rest, SubstringLen, Unsplit, Added, Text;
      Add(chunk);
      ghost var s := Text(buf);
      ghost var left := s;
      lines := [];
      var line := Get();
      while line.Some?
        invariant Valid() && Clean(left) && Lines(s) == lines + Lines(left) && Rest(s) == Rest(left)
        invariant var n := SubstringLen(left, NEWLINE);
                  if n < 0 then line == None && Ready() && Text(buf) == left
                  else line == Some(left[..n - 1]) && Text(residual) == left[n..]
        decreases |left|
      {
        FirstLine(left);
        ConcatAssociates(lines, [line.value], Lines(left[SubstringLen(left, NEWLINE)..]));
        lines := lines + [line.value];
        left := left[SubstringLen(left, NEWLINE)..];
        Next();
        line := Get();
      }
      NoLine(left);
    }
  }
}
