/** Bitwise operations on unsigned numbers, one binary digit at a time, and the
    arithmetic they stand for when a mask is a run of ones. */
module Bits {

  function Pow2(n: nat): (p: nat)
    ensures p > 0
  {
    if n == 0 then 1 else 2 * Pow2(n - 1)
  }

  /** Binary digit i of x: `(x >> i) & 1`. */
  predicate Has(x: nat, i: nat) {
    if i == 0 then x % 2 == 1 else Has(x / 2, i - 1)
  }

  function Or(x: nat, y: nat): nat {
    if x == 0 then y else if y == 0 then x
    else 2 * Or(x / 2, y / 2) + (if x % 2 == 1 || y % 2 == 1 then 1 else 0)
  }

  function And(x: nat, y: nat): nat {
    if x == 0 || y == 0 then 0
    else 2 * And(x / 2, y / 2) + (if x % 2 == 1 && y % 2 == 1 then 1 else 0)
  }

  lemma {:induction false} ZeroHas(i: nat)
    ensures !Has(0, i)
  {
    if i > 0 {
      ZeroHas(i - 1);
    }
  }

  lemma {:induction false} OrHas(x: nat, y: nat, i: nat)
    ensures Has(Or(x, y), i) <==> Has(x, i) || Has(y, i)
  {
    if x == 0 || y == 0 {
      ZeroHas(i);
    } else if i > 0 {
      OrHas(x / 2, y / 2, i - 1);
    }
  }

  lemma {:induction false} AndHas(x: nat, y: nat, i: nat)
    ensures Has(And(x, y), i) <==> Has(x, i) && Has(y, i)
  {
    if x == 0 || y == 0 {
      ZeroHas(i);
    } else if i > 0 {
      AndHas(x / 2, y / 2, i - 1);
    }
  }

  lemma {:induction false} OrBelow(x: nat, y: nat, k: nat)
    requires x < Pow2(k) && y < Pow2(k)
    ensures Or(x, y) < Pow2(k)
  {
    if k > 0 {
      OrBelow(x / 2, y / 2, k - 1);
    }
  }

  /** A number below 2^k is settled by its first k digits. */
  lemma {:induction false} SameDigits(x: nat, y: nat, k: nat)
    requires x < Pow2(k) && y < Pow2(k)
    requires forall i: nat | i < k :: Has(x, i) <==> Has(y, i)
    ensures x == y
  {
    if k > 0 {
      forall i: nat | i < k - 1
        ensures Has(x / 2, i) <==> Has(y / 2, i)
      {
        assert Has(x, i + 1) <==> Has(y, i + 1);
      }
      SameDigits(x / 2, y / 2, k - 1);
      assert Has(x, 0) <==> Has(y, 0);
    }
  }

  lemma {:induction false} PowerIncreases(a: nat, b: nat)
    requires a <= b
    ensures Pow2(a) <= Pow2(b)
  {
    if a < b {
      PowerIncreases(a, b - 1);
    }
  }

  /** 2^k - 2^n has exactly the digits n to k-1. */
  lemma {:induction false} RunHas(n: nat, k: nat, i: nat)
    requires n <= k
    ensures Pow2(n) <= Pow2(k)
    ensures Has(Pow2(k) - Pow2(n), i) <==> n <= i < k
  {
    PowerIncreases(n, k);
    if n == k {
      ZeroHas(i);
    } else if n == 0 {
      if i > 0 {
        RunHas(0, k - 1, i - 1);
        assert (Pow2(k) - 1) / 2 == Pow2(k - 1) - 1;
      }
    } else if i > 0 {
      RunHas(n - 1, k - 1, i - 1);
    }
  }

  lemma {:induction false} PowerHas(n: nat, i: nat)
    ensures Has(Pow2(n), i) <==> i == n
  {
    if n == 0 {
      if i > 0 {
        ZeroHas(i - 1);
      }
    } else if i > 0 {
      PowerHas(n - 1, i - 1);
    }
  }

  /** Masking with a run of ones is the remainder modulo a power of two. */
  lemma {:induction false} AndLow(x: nat, k: nat)
    ensures And(x, Pow2(k) - 1) == x % Pow2(k)
    decreases k
  {
    if x != 0 && k > 0 {
      AndLow(x / 2, k - 1);
      assert (Pow2(k) - 1) / 2 == Pow2(k - 1) - 1;
      HalfRemainder(x, Pow2(k - 1));
    }
  }

  lemma HalfRemainder(x: nat, m: nat)
    requires m > 0
    ensures x % (2 * m) == 2 * ((x / 2) % m) + x % 2
  {
    var q, r := (x / 2) / m, (x / 2) % m;
    assert x / 2 == q * m + r;
    assert x == q * (2 * m) + (2 * r + x % 2);
    RemainderUnique(x, 2 * m, q, 2 * r + x % 2);
  }

  lemma AtLeastOneMultiple(d: int, m: int)
    requires d >= 1 && m > 0
    ensures d * m >= m
  {
  }

  lemma {:induction false} MultiplesIncrease(j: nat, k: nat, p: nat)
    requires j < k
    ensures j * p + p == (j + 1) * p <= k * p
    decreases k - j
  {
    if j + 1 < k {
      MultiplesIncrease(j + 1, k, p);
    }
  }

  lemma RemainderUnique(x: int, m: int, q: int, r: int)
    requires m > 0 && 0 <= r < m && x == q * m + r
    ensures x / m == q && x % m == r
  {
    var d := x / m - q;
    assert d * m == r - x % m by {
      assert d * m == (x / m) * m - q * m;
    }
    if d >= 1 {
      AtLeastOneMultiple(d, m);
    } else if d <= -1 {
      AtLeastOneMultiple(-d, m);
    }
  }

  /** Or-ing fields that do not overlap adds them. */
  lemma {:induction false} OrDisjoint(low: nat, high: nat, k: nat)
    requires low < Pow2(k)
    ensures Or(low, high * Pow2(k)) == low + high * Pow2(k)
  {
    if k > 0 && low != 0 {
      assert high * Pow2(k) == 2 * (high * Pow2(k - 1));
      OrDisjoint(low / 2, high, k - 1);
    }
  }

  /** 2^32 and the all-ones word, written out. */
  lemma WordSize()
    ensures Pow2(32) == 0x1_0000_0000 && Pow2(0) == 1
  {
    assert Pow2(4) == 16 && Pow2(6) == 64 && Pow2(8) == 0x100 && Pow2(10) == 0x400;
    assert Pow2(12) == 0x1000 && Pow2(14) == 0x4000 && Pow2(16) == 0x1_0000;
    assert Pow2(18) == 0x4_0000 && Pow2(20) == 0x10_0000 && Pow2(22) == 0x40_0000 && Pow2(24) == 0x100_0000;
    assert Pow2(26) == 0x400_0000 && Pow2(28) == 0x1000_0000 && Pow2(30) == 0x4000_0000;
  }

  /** In 32 bits, `0xffffffff << n` is 2^32 - 2^n. */
  lemma ShiftedOnes(n: nat)
    requires n <= 32
    ensures Pow2(n) <= Pow2(32)
    ensures 0xffff_ffff * Pow2(n) % Pow2(32) == Pow2(32) - Pow2(n)
  {
    WordSize();
    PowerIncreases(n, 32);
    var p := Pow2(n);
    assert 0xffff_ffff * p == (p - 1) * Pow2(32) + (Pow2(32) - p);
    RemainderUnique(0xffff_ffff * p, Pow2(32), p - 1, Pow2(32) - p);
  }

  lemma AndEven(x: nat, m: nat)
    ensures And(x, 2 * m) == 2 * And(x / 2, m)
  {
    var even := 2 * m;
    assert even / 2 == m && even % 2 == 0;
    if x != 0 && even != 0 {
      assert And(x, even) == 2 * And(x / 2, even / 2);
    }
  }

  /** Masking with 2^w - 2^k clears the low k of w digits. */
  lemma {:induction false} AndHigh(x: nat, k: nat, w: nat)
    requires k <= w && x < Pow2(w)
    ensures Pow2(k) <= Pow2(w)
    ensures And(x, Pow2(w) - Pow2(k)) == x - x % Pow2(k)
  {
    hide And;
    PowerIncreases(k, w);
    if k == 0 {
      AndLow(x, w);
      RemainderUnique(x, Pow2(w), 0, x);
    } else {
      AndHigh(x / 2, k - 1, w - 1);
      AndEven(x, Pow2(w - 1) - Pow2(k - 1));
      HalfRemainder(x, Pow2(k - 1));
    }
  }
}
