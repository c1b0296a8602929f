/** Choosing the size of the fragments of one datagram. */
module FragmentSize {
  import opened Bits
  import opened Integers
  import opened FragmentHeader

  /** How many fragments of size s a datagram of len bytes takes. */
  function Count(len: nat, s: nat): nat
    requires s > 0
  {
    (len + s - 1) / s
  }

  /** `x & ~FRAG_SIZE_ROUND_MASK` */
  function RoundDown(x: nat): (r: nat)
    ensures r % 4 == 0 && r <= x < r + 4
  {
    Powers();
    AndLow(x, 2);
    x - And(x, FRAG_SIZE_ROUND_MASK)
  }

  /** C's `/` and `%` on non-negative operands, with the bounds they promise. */
  function Quotient(x: nat, d: nat): (q: nat)
    requires d > 0
    ensures q * d <= x < q * d + d && q <= x
  {
    var q := x / d;
    assert q * d <= x < q * d + d;
    QuotientIsSmall(x, d, q);
    q
  }

  function Remainder(x: nat, d: nat): (r: nat)
    requires d > 0
    ensures r < d && x == Quotient(x, d) * d + r
  {
    x % d
  }

  lemma QuotientIsSmall(x: nat, d: nat, q: int)
    requires d > 0 && q * d <= x < q * d + d
    ensures 0 <= q <= x
  {
    if q < 0 {
      AtLeastOneMultiple(-q, d);
    } else {
      Monotone(1, d, q);
    }
  }

  function OptimalFragmentSize(len: nat, maxFragSize: nat): nat
    requires maxFragSize >= 4
  {
    var aligned := RoundDown(maxFragSize);
    var div, mod := Quotient(len, aligned), Remainder(len, aligned);
    if div > 0 && mod > 0 && mod < aligned * 3 / 4 then
      MinInt(aligned, RoundDown(maxFragSize - Quotient(maxFragSize - mod, div + 1) + FRAG_SIZE_ROUND_MASK))
    else
      aligned
  }

  lemma Monotone(x: int, y: int, d: nat)
    requires x <= y
    ensures x * d <= y * d && d * x <= d * y
  {
  }

  lemma CountIs(len: nat, s: nat, n: nat)
    requires s > 0 && n * s - s < len <= n * s
    ensures Count(len, s) == n
  {
    RemainderUnique(len + s - 1, s, n, len + s - 1 - n * s);
  }

  lemma CountBounds(len: nat, s: nat) returns (n: nat)
    requires s > 0
    ensures n == Count(len, s) && n * s - s < len <= n * s
  {
    n := Count(len, s);
    assert n * s <= len + s - 1 < n * s + s;
  }

  lemma CountAtMost(len: nat, s: nat, k: nat)
    requires s > 0
    ensures len <= s * k <==> Count(len, s) <= k
  {
    var n := CountBounds(len, s);
    if n <= k {
      Monotone(n, k, s);
    } else {
      Monotone(k + 1, n, s);
      assert (k + 1) * s == s * k + s;
    }
  }

  /** The size chosen when the remainder is small: div+1 fragments of it hold the
      datagram with at most 7*div+3 bytes to spare. */
  lemma Rebalanced(max: nat, aligned: nat, div: nat, mod: nat, share: nat, s: nat)
    requires aligned <= max <= aligned + 3 && 0 < mod < aligned && div > 0
    requires share * (div + 1) <= max - mod < share * (div + 1) + (div + 1)
    requires max - share <= s <= max - share + 3
    ensures aligned * div + mod <= s * (div + 1) <= aligned * div + mod + 7 * div + 3
  {
    var d := div + 1;
    assert (max - share) * d == max * div + max - share * d;
    assert (max - share + 3) * d == (max - share) * d + 3 * d;
    Monotone(max - share, s, d);
    Monotone(s, max - share + 3, d);
    Monotone(aligned, max, div);
    Monotone(max, aligned + 3, div);
    assert (aligned + 3) * div == aligned * div + 3 * div;
  }

  lemma SmallerOf(len: nat, aligned: nat, rounded: nat, div: nat, mod: nat)
    requires len == div * aligned + mod && 0 < mod < aligned
    requires len <= rounded * (div + 1) <= len + 7 * div + 3
    ensures var s := MinInt(aligned, rounded);
            s * div < len <= s * (div + 1) <= len + 7 * div + 3
  {
    var s := MinInt(aligned, rounded);
    assert aligned * (div + 1) == aligned * div + aligned;
    Monotone(s, aligned, div);
    Monotone(s, rounded, div + 1);
  }

  /** What the result is in the two branches. */
  lemma SizeCases(len: nat, max: nat, aligned: nat, div: nat, mod: nat, s: nat)
    requires max >= 4 && aligned == RoundDown(max) && s == OptimalFragmentSize(len, max)
    requires div == Quotient(len, aligned) && mod == Remainder(len, aligned)
    ensures !(div > 0 && 0 < mod < aligned * 3 / 4) ==> s == aligned
    ensures div > 0 && 0 < mod < aligned * 3 / 4 ==>
              s * div < len <= s * (div + 1) <= len + 7 * div + 3 && 0 < s <= aligned && s % 4 == 0
  {
    hide Quotient, Remainder, RoundDown;
    if div > 0 && 0 < mod < aligned * 3 / 4 {
      var share := Quotient(max - mod, div + 1);
      var rounded := RoundDown(max - share + FRAG_SIZE_ROUND_MASK);
      assert s == MinInt(aligned, rounded);
      Rebalanced(max, aligned, div, mod, share, rounded);
      SmallerOf(len, aligned, rounded, div, mod);
    }
  }

  /** The product of which the bounds speak in two forms. */
  lemma TimesOneMore(s: nat, n: nat)
    ensures (n + 1) * s == s * n + s == s * (n + 1) && s * n == n * s
  {
  }

  /** What is behind all but the last of n fragments. */
  lemma LastOf(len: nat, s: nat, n: nat)
    requires s > 0 && n * s - s < len <= n * s
    ensures Count(len, s) == n && len - s * (Count(len, s) - 1) == len - n * s + s
  {
    hide Count;
    CountIs(len, s, n);
    assert s * (n - 1) == n * s - s;
  }

  /** The size is a positive multiple of four, no larger than the rounded-down
      maximum, and taking it never changes the number of fragments; so the limit of
      32 fragments admits the same datagrams. */
  lemma SameCount(len: nat, maxFragSize: nat)
    requires maxFragSize >= 4
    ensures var aligned := RoundDown(maxFragSize);
            var s := OptimalFragmentSize(len, maxFragSize);
            && 0 < s <= aligned && s % 4 == 0
            && Count(len, s) == Count(len, aligned)
            && (len <= s * MAX_FRAGS <==> len <= aligned * MAX_FRAGS)
  {
    hide OptimalFragmentSize, Quotient, Remainder, Count, RoundDown;
    var aligned := RoundDown(maxFragSize);
    var s := OptimalFragmentSize(len, maxFragSize);
    var div, mod := Quotient(len, aligned), Remainder(len, aligned);
    SizeCases(len, maxFragSize, aligned, div, mod, s);
    CountAtMost(len, s, MAX_FRAGS);
    CountAtMost(len, aligned, MAX_FRAGS);
    if div > 0 && 0 < mod < aligned * 3 / 4 {
      TimesOneMore(aligned, div);
      TimesOneMore(s, div);
      CountIs(len, aligned, div + 1);
      CountIs(len, s, div + 1);
    }
  }

  /** Of two or more fragments the last is at most 7*div+3 bytes shorter than the
      others, or at least three quarters of the maximum. */
  lemma LastFragmentIsSimilar(len: nat, maxFragSize: nat)
    requires maxFragSize >= 4 && len > maxFragSize
    ensures var aligned := RoundDown(maxFragSize);
            var s := OptimalFragmentSize(len, maxFragSize);
            var last := len - s * (Count(len, s) - 1);
            last >= s - (7 * Quotient(len, aligned) + 3) || last >= aligned * 3 / 4
  {
    hide OptimalFragmentSize, Quotient, Remainder, Count, RoundDown;
    var aligned := RoundDown(maxFragSize);
    var s := OptimalFragmentSize(len, maxFragSize);
    var div, mod := Quotient(len, aligned), Remainder(len, aligned);
    SizeCases(len, maxFragSize, aligned, div, mod, s);
    if mod == 0 {
      LastOf(len, s, div);
    } else {
      TimesOneMore(s, div);
      LastOf(len, s, div + 1);
    }
  }
}
