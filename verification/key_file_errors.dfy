/** Which files are refused, and for what; and how the bytes of a key are written. */
module KeyFileErrors {
  import opened Buffers
  import opened KeyFileParser
  import opened KeyFilePrinter
  import opened KeyFiles
  import opened Options
  import opened Sequences
  import Bits

  /** A byte is written as two lower-case hex digits, the high one first. */
  lemma HexByteIs(b: Byte)
    ensures HexByte(b) == ["0123456789abcdef"[b / 16], "0123456789abcdef"[b % 16]]
  {
  }

  /** The value of a hex digit by its number in ASCII: 48 is '0', 65 is 'A', 97 is 'a'. */
  function Ascii(c: char): int {
    c as int - (if c as int <= 57 then 48 else if c as int <= 70 then 55 else 87)
  }

  /** And read from two hex digits of either case, the high one first. */
  lemma ByteOfIs(high: char, low: char)
    requires IsXDigit(high) && IsXDigit(low)
    ensures ByteOf(high, low) == 16 * Ascii(high) + Ascii(low)
  {
  }

  /** Where format_hex_ex puts each byte and each separator. */
  lemma {:induction false} HexTextAt(data: seq<Byte>, p: nat, separator: string, n: nat, i: nat)
    requires i < n <= |data| && p > 0
    ensures var text, at := HexText(data, p, separator, n), 2 * i + i / p * |separator|;
            && 0 <= at && at + 2 <= |text| == 2 * n + (n - 1) / p * |separator|
            && text[at..at + 2] == HexByte(data[i])
            && (i > 0 && i % p == 0 ==> |separator| <= at && text[at - |separator|..at] == separator)
  {
    hide HexByte;
    var before := HexText(data, p, separator, n - 1);
    SeparatorsAre(n, p);
    HexLength(data, p, separator, n);
    HexLength(data, p, separator, n - 1);
    if i == n - 1 {
      SeparatorsMore(n, p, |separator|);
    } else {
      HexTextAt(data, p, separator, n - 1, i);
      PrefixStays(before, HexText(data, p, separator, n), i, p, |separator|);
    }
  }

  lemma PrefixStays(before: string, text: string, i: nat, p: nat, size: nat)
    requires p > 0 && before <= text
    requires 0 <= 2 * i + i / p * size && 2 * i + i / p * size + 2 <= |before|
    ensures var at := 2 * i + i / p * size;
            && text[at..at + 2] == before[at..at + 2]
            && (size <= at ==> text[at - size..at] == before[at - size..at])
  {
    assert before == text[..|before|];
  }

  lemma SeparatorsAre(n: nat, p: nat)
    requires n > 0 && p > 0
    ensures Separators(n, p) == (n - 1) / p
  {
    SeparatorsBound(n, p);
    Bits.RemainderUnique(n - 1, p, Separators(n, p), n - 1 - Separators(n, p) * p);
  }

  lemma SeparatorsMore(n: nat, p: nat, size: nat)
    requires n > 0 && p > 0
    ensures Separators(n, p) * size
         == Separators(n - 1, p) * size + if n > 1 && (n - 1) % p == 0 then size else 0
  {
    assert (Separators(n - 1, p) + 1) * size == Separators(n - 1, p) * size + size;
  }

  /** A file whose lines are none of them the header gives no key, and is refused when a
      key is needed. */
  lemma NoHeader(pre: seq<string>, mustSucceed: bool)
    requires (forall i :: 0 <= i < |pre| ==> PlainLine(pre[i])) && |Lines(pre)| < 2048
    ensures ReadResult(Lines(pre), false, mustSucceed) ==
            if mustSucceed then Fatal(Insufficient) else Keys(0, Zeros(256))
  {
    hide Feed, Lines, Matches;
    PreambleIsSkipped(pre);
    assert [] + Zeros(KEYLEN) == Zeros(KEYLEN);
  }

  /** The beginning of a file: plain lines, the header and key text. */
  ghost predicate Opening(pre: seq<string>, tail: string, body: string) {
    (forall i :: 0 <= i < |pre| ==> PlainLine(pre[i])) && OneLine(tail) && KeyText(body)
  }

  function OpeningText(pre: seq<string>, tail: string, body: string): string {
    Lines(pre) + (STATIC_KEY_HEAD + tail + "\n") + body
  }

  lemma OpeningIsRead(pre: seq<string>, tail: string, body: string) returns (p: Parser)
    requires Opening(pre, tail, body)
    ensures Feed(START, OpeningText(pre, tail, body)) == Some(p) && HasRead(p, Digits(body)) && ValidPending(p)
  {
    hide Step, Feed, Lines, Matches, Bytes, Digits;
    var head := STATIC_KEY_HEAD + tail + "\n";
    PreambleIsSkipped(pre);
    HeaderIsFound(tail);
    FeedConcat(START, Lines(pre), head);
    BodyIsRead(START.(state := Head), "", body);
    NothingBefore(Digits(body));
    FeedConcat(START, Lines(pre) + head, body);
    p := Feed(START.(state := Head), body).value;
  }

  /** A file that ends before the footer is refused, for the missing footer, or for the
      missing digits if there are fewer than one key has. */
  lemma NoFooterIsRefused(pre: seq<string>, tail: string, body: string)
    requires Opening(pre, tail, body) && |OpeningText(pre, tail, body)| < 2048
    ensures ReadResult(OpeningText(pre, tail, body), false, true) ==
            Fatal(if |Digits(body)| < 256 then Insufficient else NoFooter)
  {
    hide Feed, OpeningText, Bytes, Digits;
    var p := OpeningIsRead(pre, tail, body);
    ReadOut(p, Digits(body));
  }

  lemma ReadOut(p: Parser, d: string)
    requires HasRead(p, d)
    ensures |p.out| == (if |d| <= 512 then |d| / 2 else 256) && p.state != Finished
  {
  }

  /** A complete file gives as many keys as it has digits for, of 256 each and at most two,
      with zeros for what is missing; without one whole key it is refused. */
  lemma CompleteIsRead(pre: seq<string>, tail: string, body: string, rest: string)
    requires Opening(pre, tail, body) && (body != "" ==> body[|body| - 1] == '\n')
    requires |OpeningText(pre, tail, body) + STATIC_KEY_FOOT + rest| < 2048
    ensures var d := Digits(body);
            var n := if |d| < 256 then 0 else if |d| < 512 then 1 else 2;
            var r := ReadResult(OpeningText(pre, tail, body) + STATIC_KEY_FOOT + rest, false, true);
            if n == 0 then r == Fatal(Insufficient)
            else r.Keys? && r.n == n && r.keys == Bytes(Cut(d)) + Zeros(256 - |Bytes(Cut(d))|)
  {
    hide Feed, Lines, Bytes, Digits, Matches;
    KeyFileIsRead(pre, tail, body, rest);
  }

  /** Inside the key, any character that is neither a hex digit nor white space is fatal,
      unless it is a dash at the start of a line, where the footer may begin. */
  lemma NonHexIsFatal(pre: seq<string>, tail: string, body: string, c: char, rest: string, mustSucceed: bool)
    requires Opening(pre, tail, body) && |Digits(body)| < 512
    requires !IsXDigit(c) && c != ' ' && !('\t' <= c <= '\r')
    requires c == '-' ==> body != "" && body[|body| - 1] != '\n'
    requires |OpeningText(pre, tail, body) + [c] + rest| < 2048
    ensures ReadResult(OpeningText(pre, tail, body) + [c] + rest, false, mustSucceed) == Fatal(NonHex)
  {
    hide Feed, OpeningText, Bytes, Digits;
    var p := OpeningIsRead(pre, tail, body);
    var text := OpeningText(pre, tail, body);
    if c == '-' {
      LineStarts(pre, tail, body, p);
    }
    FatalStep(p, Digits(body), c);
    FeedOne(p, c);
    FeedConcat(START, text, [c]);
    FeedConcat(START, text + [c], rest);
  }

  lemma FeedOne(p: Parser, c: char)
    requires ValidPending(p)
    ensures Feed(p, [c]) == Step(p, c)
  {
    hide Step;
    assert [c][1..] == "";
  }

  lemma FatalStep(p: Parser, d: string, c: char)
    requires HasRead(p, d) && |d| < 512
    requires !IsXDigit(c) && c != ' ' && !('\t' <= c <= '\r') && (c == '-' ==> p.lineIndex > 0)
    ensures Step(p, c) == None
  {
    hide Bytes;
  }

  /** After key text that does not end a line the parser is inside a line. */
  lemma LineStarts(pre: seq<string>, tail: string, body: string, p: Parser)
    requires Opening(pre, tail, body) && body != "" && body[|body| - 1] != '\n'
    requires Feed(START, OpeningText(pre, tail, body)) == Some(p)
    ensures p.lineIndex > 0
  {
    hide Feed, Lines;
    var most, last := OpeningText(pre, tail, body[..|body| - 1]), body[|body| - 1];
    assert OpeningText(pre, tail, body) == most + [last];
    FeedConcat(START, most, [last]);
    FeedOne(Feed(START, most).value, last);
  }

  /** An inline text may be of any length, and the null that ends it is read with it: without
      the footer it is fatal inside the key. */
  lemma InlineNeedsFooter(pre: seq<string>, tail: string, body: string, mustSucceed: bool)
    requires Opening(pre, tail, body) && |Digits(body)| < 512
    ensures ReadResult(OpeningText(pre, tail, body), true, mustSucceed) == Fatal(NonHex)
  {
    hide Feed, OpeningText, Bytes, Digits;
    var p := OpeningIsRead(pre, tail, body);
    FatalStep(p, Digits(body), 0 as char);
    FeedOne(p, 0 as char);
    FeedConcat(START, OpeningText(pre, tail, body), [0 as char]);
  }
}
