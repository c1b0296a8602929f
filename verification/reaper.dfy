/** The reaper of multi.c visits the buckets of the route table a few at a time. */
module Reapers {
  import opened Bits
  import Integers

  const REAP_DIVISOR: int := 256
  const REAP_MIN: int := 16
  const REAP_MAX: int := 1024

  /** reap_buckets_per_pass */
  function BucketsPerPass(nBuckets: nat): (p: int)
    ensures REAP_MIN <= p <= REAP_MAX
  {
    Integers.ConstrainInt(nBuckets / REAP_DIVISOR, REAP_MIN, REAP_MAX)
  }

  /** Where a pass starts when the last one stopped at base. */
  function Start(base: nat, nBuckets: nat): nat {
    if base >= nBuckets then 0 else base
  }

  /** How many of the next passes visit bucket b. */
  function Visits(base: nat, perPass: nat, nBuckets: nat, passes: nat, b: nat): nat
    decreases passes
  {
    if passes == 0 then 0
    else
      var start := Start(base, nBuckets);
      (if start <= b < start + perPass then 1 else 0) + Visits(start + perPass, perPass, nBuckets, passes - 1, b)
  }

  /** The number of passes over the table, and the pass that visits a bucket. */
  predicate IsQuotientUp(c: nat, n: nat, p: nat) {
    c > 0 && (c - 1) * p < n <= c * p
  }

  /** What is left of a round that began k passes ago. */
  lemma {:induction false} VisitsFrom(i: nat, c: nat, p: nat, n: nat, passes: nat, b: nat, t: nat)
    requires IsQuotientUp(c, n, p) && p > 0 && b < n && t * p <= b < t * p + p && i <= c && passes <= c
    ensures t < c
    ensures Visits(i * p, p, n, passes, b) ==
            if i == c then (if t < passes then 1 else 0)
            else if i <= t < i + passes || t + c < i + passes then 1 else 0
    decreases passes
  {
    Within(t, c, p, n, b);
    if passes > 0 {
      var j := if i == c then 0 else i;
      StartOf(i, c, p, n);
      assert Start(i * p, n) == j * p;
      MultiplesIncrease(j, j + 1, p);
      VisitsFrom(j + 1, c, p, n, passes - 1, b, t);
      OnlyOne(j, t, p, b);
    }
  }

  lemma Within(t: nat, c: nat, p: nat, n: nat, b: nat)
    requires IsQuotientUp(c, n, p) && b < n && t * p <= b
    ensures t < c
  {
    if c < t {
      MultiplesIncrease(c, t, p);
    }
  }

  lemma StartOf(i: nat, c: nat, p: nat, n: nat)
    requires IsQuotientUp(c, n, p) && i <= c
    ensures i * p >= 0
    ensures Start(i * p, n) == if i == c then 0 else i * p
  {
    if i < c - 1 {
      MultiplesIncrease(i, c - 1, p);
    }
  }

  lemma OnlyOne(j: nat, t: nat, p: nat, b: nat)
    requires t * p <= b < t * p + p
    ensures j * p <= b < j * p + p <==> j == t
  {
    if j < t {
      MultiplesIncrease(j, t, p);
    } else if t < j {
      MultiplesIncrease(t, j, p);
    }
  }

  /** Wherever the reaper stands, a round of ceil(n/p) passes visits every bucket
      exactly once. */
  lemma EveryBucketOnce(i: nat, c: nat, p: nat, n: nat, b: nat)
    requires IsQuotientUp(c, n, p) && p > 0 && b < n && i <= c
    ensures Visits(i * p, p, n, c, b) == 1
  {
    var t := b / p;
    assert t * p <= b < t * p + p by {
      assert b == t * p + b % p;
    }
    VisitsFrom(i, c, p, n, c, b, t);
  }

  /** The reaper, which starts at 0, only ever stands at such places. */
  lemma PassKeepsPlace(i: nat, c: nat, p: nat, n: nat) returns (k: nat)
    requires IsQuotientUp(c, n, p) && i <= c
    ensures k <= c && i * p >= 0 && Start(i * p, n) + p == k * p
  {
    StartOf(i, c, p, n);
    k := if i == c then 1 else i + 1;
    MultiplesIncrease(k - 1, k, p);
  }
}
