/** The reader of static key files: the character loop of read_key_file. */
module KeyFileParser {
  import opened Buffers
  import opened Options

  const STATIC_KEY_HEAD := "-----BEGIN OpenVPN Static key V1-----"
  const STATIC_KEY_FOOT := "-----END OpenVPN Static key V1-----"
  const KEYLEN: nat := 256      // two keys
  const ONE_KEY_LEN: nat := 128 // struct key: 64 cipher and 64 HMAC bytes

  datatype State = Initial | Head | Data | DataComplete | Foot | Finished

  function Rank(s: State): nat {
    match s
    case Initial => 0
    case Head => 1
    case Data => 2
    case DataComplete => 3
    case Foot => 4
    case Finished => 5
  }

  predicate IsXDigit(c: char) {
    '0' <= c <= '9' || 'a' <= c <= 'f' || 'A' <= c <= 'F'
  }

  predicate IsSpace(c: char) {
    c == ' ' || c == '\t' || c == '\n' || c == '\U{0b}' || c == '\U{0c}' || c == '\r'
  }

  function DigitValue(c: char): (v: nat)
    requires IsXDigit(c)
    ensures v < 16
  {
    if c <= '9' then (c - '0') as nat else if c <= 'F' then (c - 'A') as nat + 10 else (c - 'a') as nat + 10
  }

  /** What sscanf reads from two hex digits. */
  function ByteOf(high: char, low: char): Byte
    requires IsXDigit(high) && IsXDigit(low)
  {
    16 * DigitValue(high) + DigitValue(low)
  }

  datatype Parser = Parser(state: State, lineIndex: nat, matched: nat, pending: string, out: seq<Byte>)

  const START := Parser(Initial, 0, 0, "", [])

  /** The state after looking at the first character of a line. */
  function AtLineStart(state: State, lineIndex: nat, c: char): State {
    if lineIndex != 0 then state
    else
      var s := if state == Head then Data else state;
      if (s == Data || s == DataComplete) && c == '-' then Foot else s
  }

  /** Comparing a character with a marker line. */
  predicate MatchesAt(marker: string, lineIndex: nat, c: char) {
    lineIndex < |marker| && c == marker[lineIndex]
  }

  function AfterMarkers(s: State, p: Parser, c: char): Parser {
    if s == Initial && MatchesAt(STATIC_KEY_HEAD, p.lineIndex, c) then
      p.(state := if p.matched + 1 == |STATIC_KEY_HEAD| then Head else s, matched := p.matched + 1)
    else if s == Foot && MatchesAt(STATIC_KEY_FOOT, p.lineIndex, c) then
      p.(state := if p.matched + 1 == |STATIC_KEY_FOOT| then Finished else s, matched := p.matched + 1)
    else p.(state := s)
  }

  predicate ValidPending(p: Parser) {
    |p.pending| <= 1 && forall i :: 0 <= i < |p.pending| ==> IsXDigit(p.pending[i])
  }

  /** One turn of the loop; None stands for the fatal message. */
  function Step(p: Parser, c: char): (r: Option<Parser>)
    requires ValidPending(p)
    ensures r.Some? ==> ValidPending(r.value)
  {
    if c == '\n' then Some(p.(lineIndex := 0, matched := 0))
    else
      var q := AfterMarkers(AtLineStart(p.state, p.lineIndex, c), p, c);
      if q.state != Data then Some(q.(lineIndex := p.lineIndex + 1))
      else if IsXDigit(c) then
        if q.pending == "" then Some(q.(pending := [c], lineIndex := p.lineIndex + 1))
        else
          Some(q.(pending := "", out := q.out + [ByteOf(q.pending[0], c)], lineIndex := p.lineIndex + 1,
                  state := if |q.out| + 1 == KEYLEN then DataComplete else Data))
      else if IsSpace(c) then Some(q.(lineIndex := p.lineIndex + 1))
      else None
  }

  function Feed(p: Parser, text: string): (r: Option<Parser>)
    requires ValidPending(p)
    ensures r.Some? ==> ValidPending(r.value)
    decreases |text|
  {
    if text == "" then Some(p)
    else
      match Step(p, text[0])
      case None => None
      case Some(q) => Feed(q, text[1..])
  }

  lemma FeedAt(p: Parser, text: string, i: nat)
    requires ValidPending(p) && i < |text|
    ensures Feed(p, text[i..]) == (match Step(p, text[i]) case None => None case Some(q) => Feed(q, text[i + 1..]))
  {
    assert text[i..][0] == text[i] && text[i..][1..] == text[i + 1..];
  }

  lemma FeedNothing(p: Parser)
    requires ValidPending(p)
    ensures Feed(p, "") == Some(p)
  {
  }

  // Every input

  ghost predicate Inv(p: Parser) {
    && ValidPending(p) && |p.out| <= KEYLEN
    && (p.state.Initial? || p.state.Head? ==> p.out == [] && p.pending == "")
    && (p.state.Data? ==> |p.out| < KEYLEN)
    && (p.state.DataComplete? ==> |p.out| == KEYLEN && p.pending == "")
  }

  lemma StepKeepsInv(p: Parser, c: char)
    requires Inv(p)
    ensures ValidPending(p)
    ensures AfterMarkers(AtLineStart(p.state, p.lineIndex, c), p, c).state == Data ==> |p.out| < KEYLEN
    ensures Step(p, c).Some? ==>
              var q := Step(p, c).value;
              Inv(q) && |q.out| <= KEYLEN && |q.pending| <= 1
  {
  }

  /** On every input that meets no fatal character, the state never goes back, what was
      read stays, at most one digit is pending and at most 256 bytes are written. */
  lemma {:induction false} ParserInvariant(p: Parser, text: string)
    requires Inv(p) && Feed(p, text).Some?
    ensures Inv(Feed(p, text).value)
    ensures Rank(p.state) <= Rank(Feed(p, text).value.state)
    ensures p.out <= Feed(p, text).value.out
    decreases |text|
  {
    if text != "" {
      var q := Step(p, text[0]).value;
      assert p.out <= q.out;
      ParserInvariant(q, text[1..]);
    }
  }

  lemma {:induction false} FeedConcat(p: Parser, a: string, b: string)
    requires ValidPending(p)
    ensures Feed(p, a + b) == (match Feed(p, a) case None => None case Some(q) => Feed(q, b))
    decreases |a|
  {
    if a == "" {
      assert a + b == b;
    } else {
      assert (a + b)[0] == a[0] && (a + b)[1..] == a[1..] + b;
      if Step(p, a[0]).Some? {
        FeedConcat(Step(p, a[0]).value, a[1..], b);
      }
    }
  }

  // What is read from a well-formed file

  /** How many of the first n characters of a line are those of a marker. */
  function Matches(line: string, marker: string, n: nat): (m: nat)
    requires n <= |line|
    ensures m <= n && m <= |marker|
  {
    if n == 0 then 0
    else
      var m := Matches(line, marker, n - 1);
      if n <= |marker| && line[n - 1] == marker[n - 1] then m + 1 else m
  }

  lemma {:induction false} AllMatch(line: string, marker: string, n: nat)
    requires n <= |line| && marker <= line
    ensures Matches(line, marker, n) == if n <= |marker| then n else |marker|
  {
    if n > 0 {
      AllMatch(line, marker, n - 1);
    }
  }

  lemma {:induction false} FirstDiffers(line: string, marker: string, n: nat)
    requires n <= |line| && |line| > 0 && |marker| > 0 && line[0] != marker[0]
    ensures Matches(line, marker, n) < |marker|
    ensures n > 0 ==> Matches(line, marker, n) < n
  {
    if n > 0 {
      FirstDiffers(line, marker, n - 1);
    }
  }

  predicate OneLine(s: string) {
    '\n' !in s
  }

  /** The rest of the header line. */
  lemma {:induction false} HeadIsInert(p: Parser, text: string)
    requires ValidPending(p) && p.state.Head? && p.lineIndex > 0 && OneLine(text)
    ensures Feed(p, text) == Some(p.(lineIndex := p.lineIndex + |text|))
    decreases |text|
  {
    if text != "" {
      HeadIsInert(p.(lineIndex := p.lineIndex + 1), text[1..]);
    }
  }

  lemma InitialStep(line: string, k: nat)
    requires OneLine(line) && k < |line| && Matches(line, STATIC_KEY_HEAD, k) < |STATIC_KEY_HEAD|
    ensures var m := Matches(line, STATIC_KEY_HEAD, k + 1);
            Step(Parser(Initial, k, Matches(line, STATIC_KEY_HEAD, k), "", []), line[k]) ==
            Some(Parser(if m == |STATIC_KEY_HEAD| then Head else Initial, k + 1, m, "", []))
  {
  }

  /** Before the header a line only counts its matching characters; the header is
      found when all of them match. */
  lemma {:induction false} InitialLine(line: string, k: nat)
    requires OneLine(line) && k <= |line| && Matches(line, STATIC_KEY_HEAD, k) < |STATIC_KEY_HEAD|
    ensures var m := Matches(line, STATIC_KEY_HEAD, |line|);
            Feed(Parser(Initial, k, Matches(line, STATIC_KEY_HEAD, k), "", []), line[k..]) ==
            Some(Parser(if m == |STATIC_KEY_HEAD| then Head else Initial, |line|, m, "", []))
    decreases |line| - k
  {
    hide Step, Matches;
    if k == |line| {
      assert line[k..] == "";
    } else {
      InitialStep(line, k);
      var m' := Matches(line, STATIC_KEY_HEAD, k + 1);
      assert line[k..][0] == line[k] && line[k..][1..] == line[k + 1..];
      if m' < |STATIC_KEY_HEAD| {
        InitialLine(line, k + 1);
      } else {
        HeadIsInert(Parser(Head, k + 1, m', "", []), line[k + 1..]);
        MatchedStays(line, STATIC_KEY_HEAD, k + 1, |line|);
      }
    }
  }

  lemma {:induction false} MatchedStays(line: string, marker: string, k: nat, n: nat)
    requires k <= n <= |line| && Matches(line, marker, k) == |marker|
    ensures Matches(line, marker, n) == |marker|
  {
    if k < n {
      MatchedStays(line, marker, k, n - 1);
    }
  }

  function Lines(ls: seq<string>): string {
    if ls == [] then "" else ls[0] + "\n" + Lines(ls[1..])
  }

  /** A line that is not the header. */
  predicate PlainLine(line: string) {
    OneLine(line) && Matches(line, STATIC_KEY_HEAD, |line|) < |STATIC_KEY_HEAD|
  }

  lemma NewlineResets(p: Parser)
    requires ValidPending(p)
    ensures Feed(p, "\n") == Some(p.(lineIndex := 0, matched := 0))
  {
    assert "\n"[1..] == "";
  }

  lemma {:induction false} PreambleIsSkipped(ls: seq<string>)
    requires forall i :: 0 <= i < |ls| ==> PlainLine(ls[i])
    ensures Feed(START, Lines(ls)) == Some(START)
  {
    if ls != [] {
      var p := Parser(Initial, |ls[0]|, Matches(ls[0], STATIC_KEY_HEAD, |ls[0]|), "", []);
      InitialLine(ls[0], 0);
      assert ls[0][0..] == ls[0];
      NewlineResets(p);
      FeedConcat(START, ls[0], "\n");
      FeedConcat(START, ls[0] + "\n", Lines(ls[1..]));
      PreambleIsSkipped(ls[1..]);
    }
  }

  lemma HeaderIsFound(tail: string)
    requires OneLine(tail)
    ensures Feed(START, STATIC_KEY_HEAD + tail + "\n") == Some(START.(state := Head))
  {
    var line := STATIC_KEY_HEAD + tail;
    AllMatch(line, STATIC_KEY_HEAD, |line|);
    InitialLine(line, 0);
    assert line[0..] == line;
    FeedConcat(START, line, "\n");
    NewlineResets(Parser(Head, |line|, |STATIC_KEY_HEAD|, "", []));
  }

  // The key bytes

  predicate KeyText(s: string) {
    forall i :: 0 <= i < |s| ==> IsXDigit(s[i]) || IsSpace(s[i])
  }

  function Digits(s: string): (d: string)
    ensures forall i :: 0 <= i < |d| ==> IsXDigit(d[i])
  {
    if s == "" then "" else (if IsXDigit(s[0]) then [s[0]] else "") + Digits(s[1..])
  }

  /** The bytes written as pairs of hex digits. */
  function Bytes(d: string): (b: seq<Byte>)
    requires forall i :: 0 <= i < |d| ==> IsXDigit(d[i])
    ensures |b| == |d| / 2
  {
    seq(|d| / 2, i requires 0 <= i < |d| / 2 => ByteOf(d[2 * i], d[2 * i + 1]))
  }

  function Cut(d: string): string {
    if |d| <= 2 * KEYLEN then d else d[..2 * KEYLEN]
  }

  /** The parser between header and footer has read these digits. */
  ghost predicate HasRead(p: Parser, d: string) {
    && (forall i :: 0 <= i < |d| ==> IsXDigit(d[i]))
    && p.matched == 0 && ValidPending(p)
    && (if |d| >= 2 * KEYLEN then p.state.DataComplete?
        else p.state.Data? || (p.state.Head? && d == "" && p.lineIndex == 0))
    && p.out == Bytes(Cut(d))
    && p.pending == if |d| < 2 * KEYLEN && |d| % 2 == 1 then d[|d| - 1..] else ""
  }

  lemma BytesMore(d: string, c: char)
    requires (forall i :: 0 <= i < |d| ==> IsXDigit(d[i])) && IsXDigit(c)
    ensures Bytes(d + [c]) == if |d| % 2 == 1 then Bytes(d) + [ByteOf(d[|d| - 1], c)] else Bytes(d)
  {
  }

  lemma DigitIsRead(p: Parser, d: string, c: char)
    requires HasRead(p, d) && (IsXDigit(c) || IsSpace(c))
    ensures Step(p, c).Some? && HasRead(Step(p, c).value, if IsXDigit(c) then d + [c] else d)
  {
    hide Bytes, ByteOf;
    if IsXDigit(c) {
      BytesMore(Cut(d), c);
      if |d| >= 2 * KEYLEN {
        assert Cut(d + [c]) == Cut(d);
      } else {
        assert Cut(d + [c]) == Cut(d) + [c];
      }
    }
  }

  lemma {:induction false} BodyIsRead(p: Parser, d: string, body: string)
    requires ValidPending(p) && HasRead(p, d) && KeyText(body)
    ensures Feed(p, body).Some? && HasRead(Feed(p, body).value, d + Digits(body))
    decreases |body|
  {
    hide HasRead, Step, Bytes, ValidPending, IsXDigit, IsSpace;
    if body == "" {
      assert d + "" == d;
    } else {
      DigitIsRead(p, d, body[0]);
      var d' := if IsXDigit(body[0]) then d + [body[0]] else d;
      BodyIsRead(Step(p, body[0]).value, d', body[1..]);
      assert d' + Digits(body[1..]) == d + Digits(body);
    }
  }

  // The footer

  lemma {:induction false} FinishedStays(p: Parser, rest: string)
    requires ValidPending(p) && p.state.Finished?
    ensures Feed(p, rest).Some? && Feed(p, rest).value.state.Finished? && Feed(p, rest).value.out == p.out
    decreases |rest|
  {
    if rest != "" {
      FinishedStays(Step(p, rest[0]).value, rest[1..]);
    }
  }

  /** One matching character of the footer. */
  lemma FooterStep(p: Parser, k: nat)
    requires ValidPending(p) && p.lineIndex == p.matched == k < |STATIC_KEY_FOOT|
    requires p.state.Foot? || (k == 0 && (p.state.Head? || p.state.Data? || p.state.DataComplete?))
    ensures Step(p, STATIC_KEY_FOOT[k]) ==
            Some(p.(state := if k + 1 == |STATIC_KEY_FOOT| then Finished else Foot,
                    lineIndex := k + 1, matched := k + 1))
  {
    assert STATIC_KEY_FOOT[0] == '-';
    assert STATIC_KEY_FOOT[k] != '\n';
  }

  lemma {:induction false} FooterIsFound(p: Parser, k: nat)
    requires ValidPending(p) && p.lineIndex == p.matched == k < |STATIC_KEY_FOOT|
    requires p.state.Foot? || (k == 0 && (p.state.Head? || p.state.Data? || p.state.DataComplete?))
    ensures Feed(p, STATIC_KEY_FOOT[k..]).Some?
    ensures var q := Feed(p, STATIC_KEY_FOOT[k..]).value; q.state.Finished? && q.out == p.out
    decreases |STATIC_KEY_FOOT| - k
  {
    hide Step;
    FooterStep(p, k);
    var text := STATIC_KEY_FOOT[k..];
    assert text[0] == STATIC_KEY_FOOT[k] && text[1..] == STATIC_KEY_FOOT[k + 1..];
    var q := Step(p, text[0]).value;
    if k + 1 < |STATIC_KEY_FOOT| {
      FooterIsFound(q, k + 1);
    } else {
      assert STATIC_KEY_FOOT[k + 1..] == "";
    }
  }

  /** Any lines that are not the header, the header line, hex digits and white space
      ending a line, and the footer: the bytes read are those of the digits, up to two
      keys, whatever follows. */
  lemma KeyFileIsRead(pre: seq<string>, tail: string, body: string, rest: string)
    requires (forall i :: 0 <= i < |pre| ==> PlainLine(pre[i])) && OneLine(tail)
    requires KeyText(body) && (body != "" ==> body[|body| - 1] == '\n')
    ensures var p := Feed(START, Lines(pre) + (STATIC_KEY_HEAD + tail + "\n") + body + STATIC_KEY_FOOT + rest);
            p.Some? && p.value.state.Finished? && p.value.out == Bytes(Cut(Digits(body)))
  {
    hide Step, Feed;
    var head := STATIC_KEY_HEAD + tail + "\n";
    PreambleIsSkipped(pre);
    HeaderIsFound(tail);
    FeedConcat(START, Lines(pre), head);
    var p := START.(state := Head);
    BodyIsRead(p, "", body);
    assert "" + Digits(body) == Digits(body);
    FeedConcat(START, Lines(pre) + head, body);
    var q := Feed(p, body).value;
    LineEnded(p, body);
    FooterIsFound(q, 0);
    assert STATIC_KEY_FOOT[0..] == STATIC_KEY_FOOT;
    FeedConcat(START, Lines(pre) + head + body, STATIC_KEY_FOOT);
    FeedConcat(START, Lines(pre) + head + body + STATIC_KEY_FOOT, rest);
    FinishedStays(Feed(q, STATIC_KEY_FOOT).value, rest);
  }

  lemma LineEnded(p: Parser, body: string)
    requires ValidPending(p) && p.lineIndex == 0 && (body != "" ==> body[|body| - 1] == '\n') && Feed(p, body).Some?
    ensures Feed(p, body).value.lineIndex == 0
  {
    if body != "" {
      var most := body[..|body| - 1];
      assert body == most + "\n";
      FeedConcat(p, most, "\n");
      NewlineResets(Feed(p, most).value);
    }
  }
}
