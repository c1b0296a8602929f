/** Reading static key files, and the round trip. */
module KeyFiles {
  import opened Buffers
  import opened KeyFileParser
  import opened KeyFilePrinter
  import opened Options
  import opened Sequences

  datatype Reason = TooLong | NonHex | Insufficient | NoFooter
  datatype Result = Keys(n: nat, keys: seq<Byte>) | Fatal(reason: Reason)

  const FILE_MAX: nat := 2048

  function Zeros(n: nat): seq<Byte> {
    seq(n, _ => 0)
  }

  /** What read_key_file makes of a file or of an inline text, which is read with the
      null character that ends it. */
  function ReadResult(text: string, isInline: bool, mustSucceed: bool): Result {
    if !isInline && |text| >= FILE_MAX then Fatal(TooLong)
    else
      match Feed(START, if isInline then text + [0 as char] else text)
      case None => Fatal(NonHex)
      case Some(p) =>
        var n := |p.out| / ONE_KEY_LEN;
        if mustSucceed && n == 0 then Fatal(Insufficient)
        else if mustSucceed && p.state != Finished then Fatal(NoFooter)
        else Keys(n, p.out + Zeros(if |p.out| <= KEYLEN then KEYLEN - |p.out| else 0))
  }

  lemma StartIsInv()
    ensures Inv(START)
  {
  }

  /** The part of the loop that looks for the header and the footer. */
  method CompareMarkers(state: State, lineIndex: nat, matched: nat, c: char,
            ghost p: Parser) returns (state': State, matched': nat)
    requires p.lineIndex == lineIndex && p.matched == matched
    ensures AfterMarkers(AtLineStart(state, lineIndex, c), p, c) == p.(state := state', matched := matched')
  {
    state', matched' := state, matched;
    if lineIndex == 0 {
      if state' == Head {
        state' := Data;
      }
      if (state' == Data || state' == DataComplete) && c == '-' {
        state' := Foot;
      }
    }
    if state' == Initial && lineIndex < |STATIC_KEY_HEAD| && c == STATIC_KEY_HEAD[lineIndex] {
      matched' := matched' + 1;
      if matched' == |STATIC_KEY_HEAD| {
        state' := Head;
      }
    }
    if state' == Foot && lineIndex < |STATIC_KEY_FOOT| && c == STATIC_KEY_FOOT[lineIndex] {
      matched' := matched' + 1;
      if matched' == |STATIC_KEY_FOOT| {
        state' := Finished;
      }
    }
  }

  /** Store a digit, and the byte when it is the second one. */
  method StoreDigit(c: char, hexByte: array<char>, hbIndex: nat, out: array<Byte>,
            count: nat) returns (hbIndex': nat, count': nat)
    requires hexByte.Length == 2 && hbIndex < 2 && out.Length == KEYLEN && count < KEYLEN
    requires IsXDigit(c) && (hbIndex == 1 ==> IsXDigit(hexByte[0]))
    modifies hexByte, out
    ensures hbIndex == 0 ==> hbIndex' == 1 && count' == count && hexByte[..1] == [c] && out[..] == old(out[..])
    ensures hbIndex == 1 ==> hbIndex' == 0 && count' == count + 1
                             && out[..count'] == old(out[..count]) + [ByteOf(old(hexByte[0]), c)]
                             && out[count'..] == old(out[count..])[1..]
  {
    hbIndex', count' := hbIndex, count;
    hexByte[hbIndex'] := c;
    hbIndex' := hbIndex' + 1;
    if hbIndex' == 2 {
      out[count'] := ByteOf(hexByte[0], hexByte[1]);
      hbIndex' := 0;
      count' := count' + 1;
    }
  }

  /** The loop of read_key_file, which writes the key bytes.  The source's assertions are
      the bounds on hbIndex and count. */
  method Parse(text: string, out: array<Byte>) returns (fatal: bool, state: State, count: nat)
    requires out.Length == KEYLEN && out[..] == Zeros(KEYLEN)
    modifies out
    ensures fatal <==> Feed(START, text) == None
    ensures !fatal ==> count <= KEYLEN && Feed(START, text).value.state == state
                       && Feed(START, text).value.out == out[..count] && out[count..] == Zeros(KEYLEN - count)
  {
    hide Inv, Feed, ByteOf, IsSpace;
    StartIsInv();
    var lineIndex: nat, matched: nat, hbIndex: nat := 0, 0, 0;
    fatal, state, count := false, Initial, 0;
    var hexByte := new char[2](_ => '0');
    var i := 0;
    ghost var p := START;
    assert text[0..] == text;
    while i < |text|
      invariant i <= |text| && hbIndex <= 1 && count <= KEYLEN
      invariant Inv(p) && p == Parser(state, lineIndex, matched, hexByte[..hbIndex], out[..count])
      invariant out[count..] == Zeros(KEYLEN - count)
      invariant ValidPending(p) && Feed(p, text[i..]) == Feed(START, text)
    {
      var c := text[i];
      FeedAt(p, text, i);
      ghost var next := Step(p, c);
      StepKeepsInv(p, c);
      if c == '\n' {
        lineIndex, matched := 0, 0;
      } else {
        state, matched := CompareMarkers(state, lineIndex, matched, c, p);
        if state == Data {
          if IsXDigit(c) {
            hbIndex, count := StoreDigit(c, hexByte, hbIndex, out, count);
            if hbIndex == 0 && count == KEYLEN {
              state := DataComplete;
            }
          } else if !IsSpace(c) {
            fatal := true;
            return;
          }
        }
        lineIndex := lineIndex + 1;
      }
      p := next.value;
      i := i + 1;
    }
    assert text[i..] == "";
    FeedNothing(p);
  }

  /** read_key_file; the source asserts that there are at most two keys. */
  method ReadKeyFile(file: string, isInline: bool, mustSucceed: bool) returns (r: Result)
    ensures r == ReadResult(file, isInline, mustSucceed)
    ensures r.Keys? ==> r.n <= 2 && |r.keys| == KEYLEN
  {
    hide Feed;
    if !isInline && |file| >= FILE_MAX {
      return Fatal(TooLong);
    }
    var out := new Byte[KEYLEN](_ => 0);
    assert out[..] == Zeros(KEYLEN);
    var fatal, state, count := Parse(if isInline then file + [0 as char] else file, out);
    if fatal {
      return Fatal(NonHex);
    }
    var n := count / ONE_KEY_LEN;
    if mustSucceed {
      if n == 0 {
        return Fatal(Insufficient);
      }
      if state != Finished {
        return Fatal(NoFooter);
      }
    }
    assert out[..] == out[..count] + out[count..];
    r := Keys(n, out[..]);
  }

  // The round trip

  /** Bytes as pairs of hex digits. */
  function Hex(b: seq<Byte>): (d: string)
    ensures |d| == 2 * |b|
    ensures forall i :: 0 <= i < |d| ==> IsXDigit(d[i])
  {
    if b == [] then "" else Hex(b[..|b| - 1]) + HexByte(b[|b| - 1])
  }

  lemma {:induction false} HexAt(b: seq<Byte>, i: nat)
    requires i < |b|
    ensures Hex(b)[2 * i] == HexByte(b[i])[0] && Hex(b)[2 * i + 1] == HexByte(b[i])[1]
  {
    if i < |b| - 1 {
      HexAt(b[..|b| - 1], i);
    }
  }

  lemma HexByteReadsBack(b: Byte)
    ensures ByteOf(HexByte(b)[0], HexByte(b)[1]) == b
  {
    hide DigitValue, IsXDigit;
  }

  lemma ByteIsRead(b: seq<Byte>, i: nat)
    requires i < |b| && i < KEYLEN
    ensures i < |Bytes(Cut(Hex(b)))| && Bytes(Cut(Hex(b)))[i] == b[i]
  {
    hide Hex, HexByte, ByteOf, IsXDigit;
    HexAt(b, i);
    HexByteReadsBack(b[i]);
    var d := Cut(Hex(b));
    assert d[2 * i] == Hex(b)[2 * i] && d[2 * i + 1] == Hex(b)[2 * i + 1];
  }

  /** Reading the digits gives the bytes back, as far as there is room for them. */
  lemma HexReadsBack(b: seq<Byte>)
    ensures Bytes(Cut(Hex(b))) == if |b| <= KEYLEN then b else b[..KEYLEN]
  {
    hide Hex, Bytes;
    forall i: nat | i < |b| && i < KEYLEN {
      ByteIsRead(b, i);
    }
  }

  lemma {:induction false} DigitsConcat(s: string, t: string)
    ensures Digits(s + t) == Digits(s) + Digits(t)
  {
    if s == "" {
      assert s + t == t;
    } else {
      DigitsConcat(s[1..], t);
      assert (s + t)[0] == s[0] && (s + t)[1..] == s[1..] + t;
      ConcatAssociates(if IsXDigit(s[0]) then [s[0]] else "", Digits(s[1..]), Digits(t));
    }
  }

  lemma TwoDigits(b: Byte)
    ensures Digits(HexByte(b)) == HexByte(b) && KeyText(HexByte(b))
  {
    var s := HexByte(b);
    assert s[1..] == [s[1]] && s[1..][1..] == "";
    assert Digits(s[1..]) == [s[1]];
  }

  lemma KeyTextConcat(s: string, t: string)
    requires KeyText(s) && KeyText(t)
    ensures KeyText(s + t)
  {
  }

  lemma SeparatorDigits(separator: string)
    requires separator == "" || separator == "\n"
    ensures Digits(separator) == "" && KeyText(separator)
  {
  }

  /** One more byte, printed in lines and plainly. */
  lemma OneByteMore(data: seq<Byte>, n: nat)
    requires 0 < n <= |data|
    ensures Hex(data[..n]) == Hex(data[..n - 1]) + HexByte(data[n - 1])
    ensures HexText(data, BYTES_PER_LINE, "\n", n) ==
            HexText(data, BYTES_PER_LINE, "\n", n - 1)
            + (if n > 1 && (n - 1) % BYTES_PER_LINE == 0 then "\n" else "") + HexByte(data[n - 1])
  {
    hide HexByte;
    assert data[..n][..n - 1] == data[..n - 1];
  }

  lemma NoHexText(data: seq<Byte>)
    ensures Digits(HexText(data, BYTES_PER_LINE, "\n", 0)) == Hex(data[..0])
    ensures KeyText(HexText(data, BYTES_PER_LINE, "\n", 0))
  {
    assert data[..0] == [];
  }

  lemma {:induction false} HexTextDigits(data: seq<Byte>, n: nat)
    requires n <= |data|
    ensures Digits(HexText(data, BYTES_PER_LINE, "\n", n)) == Hex(data[..n])
    ensures KeyText(HexText(data, BYTES_PER_LINE, "\n", n))
  {
    hide Digits, KeyText, HexByte, HexText, Hex;
    if n == 0 {
      NoHexText(data);
    } else {
      HexTextDigits(data, n - 1);
      var before := HexText(data, BYTES_PER_LINE, "\n", n - 1);
      var separator := if n > 1 && (n - 1) % BYTES_PER_LINE == 0 then "\n" else "";
      OneByteMore(data, n);
      TwoDigits(data[n - 1]);
      SeparatorDigits(separator);
      KeyTextConcat(before, separator);
      KeyTextConcat(before + separator, HexByte(data[n - 1]));
      DigitsConcat(before, separator);
      NothingAfter(Digits(before));
      DigitsConcat(before + separator, HexByte(data[n - 1]));
    }
  }

  function AllBytes(keys: seq<seq<Byte>>, n: nat): (b: seq<Byte>)
    requires n <= |keys| && ValidKeys(keys)
    ensures |b| == ONE_KEY_LEN * n
  {
    if n == 0 then [] else AllBytes(keys, n - 1) + keys[n - 1]
  }

  lemma {:induction false} HexConcat(a: seq<Byte>, b: seq<Byte>)
    ensures Hex(a + b) == Hex(a) + Hex(b)
  {
    if b == [] {
      assert a + b == a;
    } else {
      hide HexByte;
      var most, last := b[..|b| - 1], b[|b| - 1];
      HexConcat(a, most);
      assert (a + b)[..|a + b| - 1] == a + most && (a + b)[|a + b| - 1] == last;
      ConcatAssociates(Hex(a), Hex(most), HexByte(last));
    }
  }

  lemma BlockDigits(key: seq<Byte>)
    ensures Digits(KeyBlock(key)) == Hex(key) && KeyText(KeyBlock(key))
    ensures var s := KeyBlock(key); s != "" && s[|s| - 1] == '\n'
  {
    hide HexText, Hex;
    HexTextDigits(key, |key|);
    assert key[..|key|] == key;
    DigitsConcat(HexText(key, BYTES_PER_LINE, "\n", |key|), "\n");
    assert Digits("\n") == "";
  }

  lemma {:induction false} KeyLinesDigits(keys: seq<seq<Byte>>, n: nat)
    requires n <= |keys| && ValidKeys(keys)
    ensures Digits(KeyLines(keys, n)) == Hex(AllBytes(keys, n)) && KeyText(KeyLines(keys, n))
    ensures n > 0 ==> var s := KeyLines(keys, n); s != "" && s[|s| - 1] == '\n'
  {
    if n > 0 {
      hide Hex, Digits, KeyText, KeyBlock;
      KeyLinesDigits(keys, n - 1);
      var key := keys[n - 1];
      BlockDigits(key);
      KeyTextConcat(KeyLines(keys, n - 1), KeyBlock(key));
      DigitsConcat(KeyLines(keys, n - 1), KeyBlock(key));
      HexConcat(AllBytes(keys, n - 1), key);
    }
  }

  lemma {:induction false} DecimalIsOneLine(n: nat)
    ensures OneLine(Decimal(n))
  {
    if n >= 10 {
      DecimalIsOneLine(n / 10);
    }
  }

  lemma HeadLinesArePlain(nkeys: nat)
    ensures forall i :: 0 <= i < |HeadLines(nkeys)| ==> PlainLine(HeadLines(nkeys)[i])
  {
    DecimalIsOneLine(nkeys * ONE_KEY_LEN * 8);
    forall i | 0 <= i < 3
      ensures PlainLine(HeadLines(nkeys)[i])
    {
      var line := HeadLines(nkeys)[i];
      FirstDiffers(line, STATIC_KEY_HEAD, |line|);
    }
  }

  lemma Regroup(lines: string, head: string, keys: string, foot: string, newline: string, rest: string)
    ensures lines + (head + newline) + keys + foot + newline + rest ==
            lines + (head + "" + newline) + keys + foot + (newline + rest)
  {
    assert head + "" == head;
  }

  lemma TextLength(keys: seq<seq<Byte>>)
    requires ValidKeys(keys) && |keys| <= 7
    ensures |KeyFileText(keys)| < FILE_MAX
  {
    hide Lines, HeadLines, KeyLines, HeadText;
    KeyLinesLength(keys, |keys|);
    HeadFits(|keys|);
  }

  lemma TextIsRead(keys: seq<seq<Byte>>, rest: string)
    requires ValidKeys(keys) && |keys| >= 1
    ensures var p := Feed(START, KeyFileText(keys) + rest);
            p.Some? && p.value.state.Finished? && p.value.out == Bytes(Cut(Hex(AllBytes(keys, |keys|))))
  {
    hide Feed, Lines, HeadLines, KeyLines, Matches, Hex, Bytes, Digits;
    HeadLinesArePlain(|keys|);
    KeyLinesDigits(keys, |keys|);
    KeyFileIsRead(HeadLines(|keys|), "", KeyLines(keys, |keys|), "\n" + rest);
    Regroup(Lines(HeadLines(|keys|)), STATIC_KEY_HEAD, KeyLines(keys, |keys|), STATIC_KEY_FOOT, "\n", rest);
  }

  /** What is written is read: the same keys, up to two of them, from a file or from the
      same text inline. */
  lemma RoundTrip(keys: seq<seq<Byte>>, isInline: bool)
    requires ValidKeys(keys) && 1 <= |keys| <= 7
    ensures var n := if |keys| <= 2 then |keys| else 2;
            ReadResult(KeyFileText(keys), isInline, true) ==
            Keys(n, AllBytes(keys, |keys|)[..n * ONE_KEY_LEN] + Zeros(KEYLEN - n * ONE_KEY_LEN))
  {
    hide Feed, KeyFileText, Hex, Bytes, AllBytes, Cut;
    var rest := if isInline then [0 as char] else "";
    TextIsRead(keys, rest);
    assert KeyFileText(keys) + "" == KeyFileText(keys);
    HexReadsBack(AllBytes(keys, |keys|));
    TextLength(keys);
    var b := AllBytes(keys, |keys|);
    assert b[..|b|] == b;
  }

  lemma NoKeysAreRefused(isInline: bool)
    ensures ReadResult(KeyFileText([]), isInline, true) == Fatal(Insufficient)
  {
    hide Feed, Lines, HeadLines, Matches, Digits, Bytes;
    var keys: seq<seq<Byte>> := [];
    var rest := if isInline then [0 as char] else "";
    HeadLinesArePlain(0);
    KeyFileIsRead(HeadLines(0), "", "", "\n" + rest);
    Regroup(Lines(HeadLines(0)), STATIC_KEY_HEAD, "", STATIC_KEY_FOOT, "\n", rest);
    assert KeyFileText(keys) + "" == KeyFileText(keys);
    NoBytes();
    TextLength(keys);
  }

  lemma NoBytes()
    ensures Digits("") == "" && Bytes(Cut("")) == []
  {
  }

  /** A file of any number of keys can be read again exactly when it holds one to seven. */
  lemma WrittenIsReadExactly(keys: seq<seq<Byte>>)
    requires ValidKeys(keys)
    ensures ReadResult(WrittenText(keys), false, true).Keys? <==> 1 <= |keys| <= 7
  {
    hide ReadResult, WrittenText, KeyFileText, AllBytes, Zeros;
    if |keys| >= 8 {
      EightKeysAreTooMany(keys);
      LongFileIsRefused(WrittenText(keys));
    } else {
      SevenKeysFit(keys);
      if keys == [] {
        NoKeysAreRefused(false);
      } else {
        RoundTrip(keys, false);
      }
    }
  }

  lemma LongFileIsRefused(text: string)
    requires |text| >= FILE_MAX
    ensures ReadResult(text, false, true) == Fatal(TooLong)
  {
  }
}
