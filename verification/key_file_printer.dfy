/** Printing keys in hex, and the layout of a static key file. */
module KeyFilePrinter {
  import opened Bits
  import opened Buffers
  import opened KeyFileParser

  function HexDigit(v: nat): (c: char)
    requires v < 16
    ensures IsXDigit(c) && DigitValue(c) == v
  {
    "0123456789abcdef"[v]
  }

  /** "%02x" */
  function HexByte(b: Byte): (s: string)
    ensures |s| == 2
  {
    [HexDigit(b / 16), HexDigit(b % 16)]
  }

  /** The first n bytes in hex, with a separator before every spaceBreak-th one. */
  function HexText(data: seq<Byte>, spaceBreak: nat, separator: string, n: nat): string
    requires n <= |data| && spaceBreak > 0
  {
    if n == 0 then ""
    else
      HexText(data, spaceBreak, separator, n - 1) + (if n > 1 && (n - 1) % spaceBreak == 0 then separator else "")
      + HexByte(data[n - 1])
  }

  /** buf_printf into a buffer that has room for capacity characters, one of them the
      null character. */
  function Printed(out: string, capacity: nat, s: string): string {
    if |out| >= capacity then out
    else if |out| + |s| < capacity then out + s
    else out + s[..capacity - |out| - 1]
  }

  /** buf_catrunc */
  function CatTrunc(out: string, capacity: nat, s: string): string {
    if capacity <= |out| + 1 && |s| + 1 < capacity then out[..capacity - |s| - 1] + s else out
  }

  function Separators(n: nat, spaceBreak: nat): nat
    requires spaceBreak > 0
  {
    if n <= 1 then 0 else Separators(n - 1, spaceBreak) + if (n - 1) % spaceBreak == 0 then 1 else 0
  }

  /** The multiples of p are p apart. */
  lemma NextMultiple(i: nat, s: nat, p: nat)
    requires p > 0 && s * p < i <= s * p + p
    ensures i % p == 0 <==> i == s * p + p
    ensures (s + 1) * p == s * p + p
  {
    assert (s + 1) * p == s * p + p;
    if i == s * p + p {
      RemainderUnique(i, p, s + 1, 0);
    } else {
      RemainderUnique(i, p, s, i - s * p);
    }
  }

  lemma {:induction false} SeparatorsBound(n: nat, p: nat)
    requires n > 0 && p > 0
    ensures Separators(n, p) * p <= n - 1 < Separators(n, p) * p + p
  {
    if n > 1 {
      SeparatorsBound(n - 1, p);
      NextMultiple(n - 1, Separators(n - 1, p), p);
    }
  }

  lemma MultipleMonotone(j: nat, k: nat, p: nat)
    requires j <= k
    ensures j * p <= k * p
  {
    if j < k {
      MultiplesIncrease(j, k, p);
    }
  }

  lemma {:induction false} HexLength(data: seq<Byte>, spaceBreak: nat, separator: string, n: nat)
    requires n <= |data| && spaceBreak > 0
    ensures |HexText(data, spaceBreak, separator, n)| == 2 * n + Separators(n, spaceBreak) * |separator|
  {
    if n > 0 {
      HexLength(data, spaceBreak, separator, n - 1);
      MultiplesIncrease(Separators(n - 1, spaceBreak), Separators(n - 1, spaceBreak) + 1, |separator|);
    }
  }

  /** The buffer format_hex_ex allocates when no limit is given. */
  function HexCapacity(size: nat, spaceBreak: nat, separator: string): nat
    requires spaceBreak > 0
  {
    size * 2 + (size / spaceBreak) * |separator| + 2
  }

  lemma NoSeparators(p: nat)
    requires p > 0
    ensures Separators(0, p) == 0
  {
  }

  /** That is room for all of the text and two characters more. */
  lemma HexFits(data: seq<Byte>, spaceBreak: nat, separator: string, n: nat)
    requires n <= |data| && spaceBreak > 0
    ensures |HexText(data, spaceBreak, separator, n)| + 2 <= HexCapacity(|data|, spaceBreak, separator)
  {
    hide HexText, Separators;
    HexLength(data, spaceBreak, separator, n);
    if n == 0 {
      NoSeparators(spaceBreak);
    } else {
      SeparatorsBound(n, spaceBreak);
      var s, q := Separators(n, spaceBreak), |data| / spaceBreak;
      assert |data| == q * spaceBreak + |data| % spaceBreak;
      if q < s {
        MultiplesIncrease(q, s, spaceBreak);
      }
      MultipleMonotone(s, q, |separator|);
    }
  }

  /** What fits a buffer with room for capacity characters, the null included. */
  function Truncated(s: string, capacity: nat): string {
    if |s| < capacity || capacity == 0 then s else s[..capacity - 1]
  }

  /** Printing piece by piece truncates the whole. */
  lemma PrintedIsTruncated(a: string, capacity: nat, b: string)
    requires capacity > 0
    ensures Printed(Truncated(a, capacity), capacity, b) == Truncated(a + b, capacity)
  {
    if |a| >= capacity {
      assert (a + b)[..capacity - 1] == a[..capacity - 1] + b[..0];
    } else if |a| + |b| >= capacity {
      assert (a + b)[..capacity - 1] == a + b[..capacity - |a| - 1];
    }
  }

  /** The text, or its beginning with a marker if there is room for one. */
  function Marked(s: string, capacity: nat): string
    requires capacity > 0
  {
    if |s| + 1 < capacity then s
    else if capacity > |MORE| + 1 then s[..capacity - |MORE| - 1] + MORE
    else s[..capacity - 1]
  }

  const MORE := "[more...]"

  lemma TruncatedIsMarked(s: string, capacity: nat)
    requires capacity > 0
    ensures CatTrunc(Truncated(s, capacity), capacity, MORE) == Marked(s, capacity)
  {
    if |s| + 1 >= capacity {
      assert Truncated(s, capacity) == s[..capacity - 1];
      if capacity > |MORE| + 1 {
        assert s[..capacity - 1][..capacity - |MORE| - 1] == s[..capacity - |MORE| - 1];
      }
    }
  }

  /** format_hex_ex.  With a limit on the output the text is cut to it, and its end is
      overwritten by a marker, even where the text just fits; without a limit nothing
      is lost. */
  method FormatHexEx(data: seq<Byte>, maxoutput: nat, spaceBreak: nat, separator: string) returns (text: string)
    requires spaceBreak > 0
    ensures var whole := HexText(data, spaceBreak, separator, |data|);
            text == if maxoutput == 0 then whole else Marked(whole, maxoutput)
  {
    hide Printed, HexCapacity, HexByte, Truncated, CatTrunc;
    HexFits(data, spaceBreak, separator, 0);
    var capacity := if maxoutput > 0 then maxoutput else HexCapacity(|data|, spaceBreak, separator);
    var out := "";
    TruncatedShort("", capacity);
    for i := 0 to |data|
      invariant out == Truncated(HexText(data, spaceBreak, separator, i), capacity)
    {
      ghost var before := HexText(data, spaceBreak, separator, i);
      ghost var pause := if i != 0 && i % spaceBreak == 0 then separator else "";
      if i != 0 && i % spaceBreak == 0 {
        PrintedIsTruncated(before, capacity, separator);
        out := Printed(out, capacity, separator);
      } else {
        assert before + "" == before;
      }
      PrintedIsTruncated(before + pause, capacity, HexByte(data[i]));
      out := Printed(out, capacity, HexByte(data[i]));
    }
    HexFits(data, spaceBreak, separator, |data|);
    TruncatedIsMarked(HexText(data, spaceBreak, separator, |data|), capacity);
    text := CatTrunc(out, capacity, MORE);
  }

  lemma TruncatedShort(s: string, capacity: nat)
    requires |s| < capacity
    ensures Truncated(s, capacity) == s
  {
  }

  function Decimal(n: nat): string {
    if n < 10 then ["0123456789"[n]] else Decimal(n / 10) + ["0123456789"[n % 10]]
  }

  const BYTES_PER_LINE: nat := 16

  function KeyBlock(key: seq<Byte>): string {
    HexText(key, BYTES_PER_LINE, "\n", |key|) + "\n"
  }

  function KeyLines(keys: seq<seq<Byte>>, n: nat): string
    requires n <= |keys|
  {
    if n == 0 then "" else KeyLines(keys, n - 1) + KeyBlock(keys[n - 1])
  }

  function HeadLines(nkeys: nat): seq<string> {
    ["#", "# " + Decimal(nkeys * ONE_KEY_LEN * 8) + " bit OpenVPN static key", "#"]
  }

  /** The text of a key file. */
  function KeyFileText(keys: seq<seq<Byte>>): string {
    Lines(HeadLines(|keys|)) + (STATIC_KEY_HEAD + "\n") + KeyLines(keys, |keys|) + STATIC_KEY_FOOT + "\n"
  }

  predicate ValidKeys(keys: seq<seq<Byte>>) {
    forall i :: 0 <= i < |keys| ==> |keys[i]| == ONE_KEY_LEN
  }

  lemma KeyBlockLength(key: seq<Byte>)
    requires |key| == ONE_KEY_LEN
    ensures |KeyBlock(key)| == 264
  {
    hide HexText, Separators;
    SeparatorsBound(ONE_KEY_LEN, BYTES_PER_LINE);
    HexLength(key, BYTES_PER_LINE, "\n", ONE_KEY_LEN);
  }

  lemma {:induction false} KeyLinesLength(keys: seq<seq<Byte>>, n: nat)
    requires n <= |keys| && ValidKeys(keys)
    ensures |KeyLines(keys, n)| == 264 * n
  {
    hide KeyBlock;
    if n > 0 {
      KeyLinesLength(keys, n - 1);
      KeyBlockLength(keys[n - 1]);
    }
  }

  /** The comment at the head of the file. */
  function HeadText(nbits: nat): string {
    "#" + "\n" + ("# " + Decimal(nbits) + " bit OpenVPN static key") + "\n" + "#" + "\n"
  }

  lemma ThreeLines(a: string, b: string, c: string)
    ensures Lines([a, b, c]) == a + "\n" + b + "\n" + c + "\n"
  {
    assert [a, b, c][1..] == [b, c] && [b, c][1..] == [c] && [c][1..] == [];
    assert Lines([c]) == c + "\n" && Lines([b, c]) == b + "\n" + (c + "\n");
  }

  lemma DecimalLength(n: nat)
    requires n < 10000
    ensures |Decimal(n)| <= 4
  {
    assert |Decimal(n / 10 / 10 / 10)| == 1 && |Decimal(n / 10 / 10)| <= 2 && |Decimal(n / 10)| <= 3;
  }

  lemma HeadFits(nkeys: nat)
    requires nkeys <= 7
    ensures |HeadText(8 * ONE_KEY_LEN * nkeys)| < 40
    ensures HeadText(8 * ONE_KEY_LEN * nkeys) == Lines(HeadLines(nkeys))
  {
    hide Decimal, Lines;
    var bits := 8 * ONE_KEY_LEN * nkeys;
    DecimalLength(bits);
    ThreeLines("#", "# " + Decimal(bits) + " bit OpenVPN static key", "#");
  }

  /** The header and the first n keys. */
  function KeysText(keys: seq<seq<Byte>>, n: nat): string
    requires n <= |keys|
  {
    STATIC_KEY_HEAD + "\n" + KeyLines(keys, n)
  }

  /** The header and the keys, in the buffer of write_key_file. */
  method WriteKeys(keys: seq<seq<Byte>>, capacity: nat) returns (out: string, nbits: nat)
    requires ValidKeys(keys) && capacity == 2048
    ensures out == Truncated(KeysText(keys, |keys|), capacity)
    ensures nbits == 8 * ONE_KEY_LEN * |keys|
  {
    hide Printed, HexText, Truncated;
    nbits := 0;
    TruncatedShort("", capacity);
    PrintedIsTruncated("", capacity, STATIC_KEY_HEAD + "\n");
    assert "" + (STATIC_KEY_HEAD + "\n") == KeysText(keys, 0);
    out := Printed("", capacity, STATIC_KEY_HEAD + "\n");
    for i := 0 to |keys|
      invariant nbits == 8 * ONE_KEY_LEN * i
      invariant out == Truncated(KeysText(keys, i), capacity)
    {
      var fmt := FormatHexEx(keys[i], 0, BYTES_PER_LINE, "\n");
      nbits := nbits + |keys[i]| * 8;
      PrintedIsTruncated(KeysText(keys, i), capacity, fmt + "\n");
      assert KeysText(keys, i) + KeyBlock(keys[i]) == KeysText(keys, i + 1);
      out := Printed(out, capacity, fmt + "\n");
    }
  }

  const HEAD_CAPACITY: nat := 128
  const KEYS_CAPACITY: nat := 2048

  /** The text of a key file as far as the two buffers hold it. */
  function WrittenText(keys: seq<seq<Byte>>): string {
    Truncated(HeadText(8 * ONE_KEY_LEN * |keys|), HEAD_CAPACITY)
    + Truncated(KeysText(keys, |keys|) + (STATIC_KEY_FOOT + "\n"), KEYS_CAPACITY)
  }

  /** write_key_file; the keys are random. */
  method WriteKeyFile(keys: seq<seq<Byte>>) returns (text: string, nbits: nat)
    requires ValidKeys(keys)
    ensures text == WrittenText(keys)
    ensures nbits == 8 * ONE_KEY_LEN * |keys|
  {
    hide Printed, HeadText, KeysText, Truncated;
    var out;
    out, nbits := WriteKeys(keys, KEYS_CAPACITY);
    TruncatedShort("", HEAD_CAPACITY);
    PrintedIsTruncated("", HEAD_CAPACITY, HeadText(nbits));
    assert "" + HeadText(nbits) == HeadText(nbits);
    var head := Printed("", HEAD_CAPACITY, HeadText(nbits));
    PrintedIsTruncated(KeysText(keys, |keys|), KEYS_CAPACITY, STATIC_KEY_FOOT + "\n");
    out := Printed(out, KEYS_CAPACITY, STATIC_KEY_FOOT + "\n");
    text := head + out;
  }

  /** Up to seven keys are written whole. */
  lemma SevenKeysFit(keys: seq<seq<Byte>>)
    requires ValidKeys(keys) && |keys| <= 7
    ensures WrittenText(keys) == KeyFileText(keys)
  {
    hide HeadText, Lines, HeadLines, KeyLines;
    KeyLinesLength(keys, |keys|);
    HeadFits(|keys|);
    var lines, head, body := Lines(HeadLines(|keys|)), STATIC_KEY_HEAD + "\n", KeyLines(keys, |keys|);
    Regrouped(lines, head, body, STATIC_KEY_FOOT, "\n");
  }

  lemma Regrouped(a: string, b: string, c: string, d: string, e: string)
    ensures a + (b + c + (d + e)) == a + b + c + d + e
  {
  }

  /** More do not fit, and the file is then as large as the reader's buffer. */
  lemma EightKeysAreTooMany(keys: seq<seq<Byte>>)
    requires ValidKeys(keys) && |keys| >= 8
    ensures |WrittenText(keys)| >= 2048
  {
    hide Decimal, KeyLines;
    KeyLinesLength(keys, |keys|);
  }
}
