/** Whole runs of the lazy check beside the eager one, which looks at every timer in
    every check. */
module TimerRuns {
  import opened CoarseTimers

  datatype Event =
    | Checked(retries: seq<int>)   // check_coarse_timers, with a retry for each timer
    | Reset(i: nat)                // event_timeout_reset
    | Cleared(i: nat)              // event_timeout_clear
    | Modified(i: nat, n: int)     // event_timeout_modify_wakeup
    | Armed(i: nat, n: int, from: int)        // event_timeout_init, then reset_coarse_timers
    | ArmedAlone(i: nat, n: int, from: int)   // event_timeout_init

  predicate Fits(ts: seq<Timer>, e: Event) {
    if e.Checked? then |e.retries| == |ts| else e.i < |ts|
  }

  /** A timer after an event of its own. */
  function Touched(t: Timer, e: Event, now: int): Timer
    requires !e.Checked?
  {
    match e
    case Reset(_) => if t.defined then t.(last := now) else t
    case Cleared(_) => CLEAR
    case Modified(_, n) => if t.defined then t.(n := if n >= 0 then n else 0) else t
    case Armed(_, n, from) => Started(n, from)
    case ArmedAlone(_, n, from) => Started(n, from)
  }

  function Lazy(c: Context, e: Event, now: int): (r: Context)
    requires Fits(c.timers, e)
    ensures |r.timers| == |c.timers|
  {
    if e.Checked? then Check(c, now, e.retries)
    else Context(c.timers[e.i := Touched(c.timers[e.i], e, now)], if e.Armed? then 0 else c.wakeup)
  }

  function Eager(ts: seq<Timer>, e: Event, now: int): (r: seq<Timer>)
    requires Fits(ts, e)
    ensures |r| == |ts|
  {
    if e.Checked? then Pass(ts, now, e.retries) else ts[e.i := Touched(ts[e.i], e, now)]
  }

  ghost predicate LazyRun(cs: seq<Context>, es: seq<Event>, times: seq<int>) {
    && |cs| == |es| + 1 && |times| == |es| && cs[0].wakeup == 0
    && (forall i :: 0 <= i < |cs[0].timers| ==> cs[0].timers[i] == CLEAR)
    && forall k :: 0 <= k < |es| ==> Fits(cs[k].timers, es[k]) && cs[k + 1] == Lazy(cs[k], es[k], times[k])
  }

  ghost predicate EagerRun(tss: seq<seq<Timer>>, es: seq<Event>, times: seq<int>) {
    && |tss| == |es| + 1 && |times| == |es|
    && forall k :: 0 <= k < |es| ==> Fits(tss[k], es[k]) && tss[k + 1] == Eager(tss[k], es[k], times[k])
  }

  ghost predicate BothRun(cs: seq<Context>, tss: seq<seq<Timer>>, es: seq<Event>, times: seq<int>) {
    LazyRun(cs, es, times) && EagerRun(tss, es, times) && cs[0].timers == tss[0]
  }

  // Without any premise on the run

  ghost predicate FiresAlike(c: Context, ts: seq<Timer>, e: Event, now: int)
    requires Fits(c.timers, e) && Fits(ts, e)
  {
    e.Checked? ==> CheckFires(c, now, e.retries) == Fired(ts, now, e.retries)
  }

  ghost predicate Misses(c: Context, e: Event, now: int)
    requires Fits(c.timers, e)
  {
    e.Checked? && !MissesNothing(c, now, e.retries)
  }

  lemma {:induction false} TimersStayEqual(cs: seq<Context>, tss: seq<seq<Timer>>, es: seq<Event>, times: seq<int>,
                                           n: nat)
    requires BothRun(cs, tss, es, times) && n <= |es|
    requires forall k :: 0 <= k < n ==> FiresAlike(cs[k], tss[k], es[k], times[k]) || !Misses(cs[k], es[k], times[k])
    ensures cs[n].timers == tss[n]
  {
    if n > 0 {
      TimersStayEqual(cs, tss, es, times, n - 1);
      if es[n - 1].Checked? {
        CheckIsPassExactly(cs[n - 1], times[n - 1], es[n - 1].retries);
      }
    }
  }

  /** In any run, of any events with any retries and any clock, the lazy check fires the
      same timers in the same checks as the eager one exactly when no check is skipped
      while a timer is due that is not held back by a retry. */
  lemma LazyEqualsEagerExactly(cs: seq<Context>, tss: seq<seq<Timer>>, es: seq<Event>, times: seq<int>, n: nat)
    requires BothRun(cs, tss, es, times) && n <= |es|
    ensures (forall k :: 0 <= k < n ==> FiresAlike(cs[k], tss[k], es[k], times[k]))
       <==> (forall k :: 0 <= k < n ==> !Misses(cs[k], es[k], times[k]))
  {
    forall k |
      0 <= k < n
      && forall j :: 0 <= j < k ==> FiresAlike(cs[j], tss[j], es[j], times[j]) || !Misses(cs[j], es[j], times[j])
      ensures FiresAlike(cs[k], tss[k], es[k], times[k]) <==> !Misses(cs[k], es[k], times[k])
    {
      TimersStayEqual(cs, tss, es, times, k);
      if es[k].Checked? {
        CheckIsPassExactly(cs[k], times[k], es[k].retries);
      }
    }
  }

  // How late a timer can be

  /** A clock that starts at or after zero and does not go back. */
  ghost predicate Clock(times: seq<int>) {
    && (forall k :: 0 <= k < |times| ==> 0 <= times[k])
    && (forall j, k :: 0 <= j <= k < |times| ==> times[j] <= times[k])
  }

  /** No timer is armed from a future time, and a deadline brought forward without
      reset_coarse_timers is not brought before the next wake-up. */
  ghost predicate Announced(c: Context, e: Event, now: int)
    requires Fits(c.timers, e)
  {
    && (e.Armed? || e.ArmedAlone? ==> 0 <= e.from <= now)
    && (e.ArmedAlone? || e.Modified? ==>
          var t := Touched(c.timers[e.i], e, now);
          t.defined ==> c.wakeup <= t.Deadline() || c.wakeup <= now)
  }

  /** In this event a timer that is due is told to wait, no shorter than until then. */
  ghost predicate HeldBack(ts: seq<Timer>, e: Event, now: int, i: nat, until: int) {
    e.Checked? && i < |ts| == |e.retries| && ts[i].Due(now) && e.retries[i] >= 0 && until <= now + e.retries[i]
  }

  /** It was told so in one of the first n events. */
  ghost predicate WasHeldBack(cs: seq<Context>, es: seq<Event>, times: seq<int>, n: nat, i: nat, until: int)
    requires n <= |es| == |times| && n <= |cs|
  {
    exists j :: 0 <= j < n && HeldBack(cs[j].timers, es[j], times[j], i, until)
  }

  /** The next wake-up is not after a timer's deadline, unless the timer was held back
      until then or the wake-up time has come. */
  ghost predicate Accounted(t: Timer, wakeup: int, now: int, heldBack: bool) {
    t.defined ==> 0 <= t.last <= now && t.n >= 0 && (wakeup <= t.Deadline() || wakeup <= now || heldBack)
  }

  /** One event keeps this for one timer. */
  lemma AccountedNext(c: Context, e: Event, before: int, now: int, i: nat, held: bool, held': bool)
    requires Fits(c.timers, e) && Announced(c, e, now) && i < |c.timers| && before <= now && 0 <= now
    requires Accounted(c.timers[i], c.wakeup, before, held)
    requires held ==> held' || Lazy(c, e, now).wakeup != c.wakeup
    requires HeldBack(c.timers, e, now, i, Lazy(c, e, now).wakeup) ==> held'
    ensures Accounted(Lazy(c, e, now).timers[i], Lazy(c, e, now).wakeup, now, held')
  {
    if e.Checked? {
      LimitIsLeast(c.timers, now, e.retries, Timeval(BIG_TIMEOUT, 0), |c.timers|);
    }
  }

  ghost predicate AllAnnounced(cs: seq<Context>, es: seq<Event>, times: seq<int>)
    requires LazyRun(cs, es, times)
  {
    forall k :: 0 <= k < |es| ==> Announced(cs[k], es[k], times[k])
  }

  function LastTime(times: seq<int>, n: nat): int
    requires n <= |times|
  {
    if n == 0 then 0 else times[n - 1]
  }

  lemma {:induction false} AccountedInRun(cs: seq<Context>, es: seq<Event>, times: seq<int>, n: nat, i: nat)
    requires LazyRun(cs, es, times) && Clock(times) && AllAnnounced(cs, es, times)
    requires n <= |es| && i < |cs[n].timers|
    ensures Accounted(cs[n].timers[i], cs[n].wakeup, LastTime(times, n), WasHeldBack(cs, es, times, n, i, cs[n].wakeup))
  {
    if n > 0 {
      AccountedInRun(cs, es, times, n - 1, i);
      var c, c', held := cs[n - 1], cs[n], WasHeldBack(cs, es, times, n, i, cs[n].wakeup);
      AccountedNext(c, es[n - 1], LastTime(times, n - 1), times[n - 1], i,
                    WasHeldBack(cs, es, times, n - 1, i, c.wakeup), held);
    }
  }

  /** A timer that is due, is not held back and yet does not fire was held back before,
      by a retry that has not run out: with no retry no timer is late, and with one it is
      never later than the retry. */
  lemma LateOnlyByRetry(cs: seq<Context>, es: seq<Event>, times: seq<int>, k: nat, i: nat)
    requires LazyRun(cs, es, times) && Clock(times) && AllAnnounced(cs, es, times)
    requires k < |es| && es[k].Checked? && i < |cs[k].timers|
    requires Fires(cs[k].timers[i], times[k], es[k].retries[i]) && !CheckFires(cs[k], times[k], es[k].retries)[i]
    ensures WasHeldBack(cs, es, times, k, i, times[k] + 1)
  {
    AccountedInRun(cs, es, times, k, i);
    assert times[k] < cs[k].wakeup;
    var j :| 0 <= j < k && HeldBack(cs[j].timers, es[j], times[j], i, cs[k].wakeup);
    assert HeldBack(cs[j].timers, es[j], times[j], i, times[k] + 1);
  }

  // Runs in which no retry is withdrawn before it has run out

  /** As the eager form sees it: a timer that was held back is held back again whenever
      it is due before that retry has run out. */
  ghost predicate Steady(tss: seq<seq<Timer>>, es: seq<Event>, times: seq<int>)
    requires EagerRun(tss, es, times)
  {
    forall j, k, i: nat :: 0 <= j < k < |es| && HeldBack(tss[j], es[j], times[j], i, times[k] + 1) ==>
      (es[k].Checked? && i < |tss[k]| && tss[k][i].Due(times[k]) ==> es[k].retries[i] >= 0)
  }

  lemma {:induction false} NothingIsMissed(cs: seq<Context>, tss: seq<seq<Timer>>, es: seq<Event>, times: seq<int>,
                                           n: nat)
    requires BothRun(cs, tss, es, times) && Clock(times) && AllAnnounced(cs, es, times) && Steady(tss, es, times)
    requires n <= |es|
    ensures forall k :: 0 <= k < n ==> !Misses(cs[k], es[k], times[k])
  {
    if n > 0 {
      NothingIsMissed(cs, tss, es, times, n - 1);
      forall k | 0 <= k <= n - 1
        ensures cs[k].timers == tss[k]
      {
        TimersStayEqual(cs, tss, es, times, k);
      }
      var c, e, now := cs[n - 1], es[n - 1], times[n - 1];
      if e.Checked? && now < c.wakeup {
        forall i | 0 <= i < |c.timers| && c.timers[i].Due(now)
          ensures e.retries[i] >= 0
        {
          if Fires(c.timers[i], now, e.retries[i]) {
            LateOnlyByRetry(cs, es, times, n - 1, i);
          }
        }
      }
    }
  }

  /** Over every such run, the lazy check and the eager one have the same timers and fire
      the same ones in the same checks. */
  lemma LazyEqualsEager(cs: seq<Context>, tss: seq<seq<Timer>>, es: seq<Event>, times: seq<int>)
    requires BothRun(cs, tss, es, times) && Clock(times) && AllAnnounced(cs, es, times) && Steady(tss, es, times)
    ensures forall k :: 0 <= k <= |es| ==> cs[k].timers == tss[k]
    ensures forall k :: 0 <= k < |es| ==> FiresAlike(cs[k], tss[k], es[k], times[k])
  {
    NothingIsMissed(cs, tss, es, times, |es|);
    forall k | 0 <= k <= |es|
      ensures cs[k].timers == tss[k]
    {
      TimersStayEqual(cs, tss, es, times, k);
    }
    LazyEqualsEagerExactly(cs, tss, es, times, |es|);
  }

  /** Retries of zero, which the OCC timers use, and no retries need no premise. */
  lemma ZeroRetriesAreSteady(tss: seq<seq<Timer>>, es: seq<Event>, times: seq<int>)
    requires EagerRun(tss, es, times) && Clock(times)
    requires forall k, i :: 0 <= k < |es| && es[k].Checked? && 0 <= i < |es[k].retries| ==> es[k].retries[i] <= 0
    ensures Steady(tss, es, times)
  {
  }

  /** The main loop never sleeps past a deadline, except of a timer that was told to wait
      for as long, nor longer than it was told. */
  lemma NeverSleepsPastDeadline(cs: seq<Context>, es: seq<Event>, times: seq<int>, k: nat, i: nat, tv: Timeval)
    requires LazyRun(cs, es, times) && Clock(times) && AllAnnounced(cs, es, times)
    requires k < |es| && es[k].Checked? && i < |cs[k].timers| && cs[k + 1].timers[i].defined
    ensures var limit := CheckLimit(cs[k], times[k], es[k].retries, tv).sec;
            && limit <= tv.sec
            && (times[k] + limit <= cs[k + 1].timers[i].Deadline()
                || WasHeldBack(cs, es, times, k + 1, i, times[k] + limit))
  {
    var c, now, retries := cs[k], times[k], es[k].retries;
    var limit := CheckLimit(c, now, retries, tv).sec;
    AccountedInRun(cs, es, times, k, i);
    if now >= c.wakeup {
      LimitIsLeast(c.timers, now, retries, Timeval(BIG_TIMEOUT, 0), |c.timers|);
      assert limit <= Wakeup(c.timers[i], now, retries[i]);
      if c.timers[i].Due(now) && retries[i] >= 0 {
        assert HeldBack(c.timers, es[k], now, i, now + limit);
      }
    } else if c.timers[i].Deadline() < c.wakeup {
      var j :| 0 <= j < k && HeldBack(cs[j].timers, es[j], times[j], i, c.wakeup);
      assert HeldBack(cs[j].timers, es[j], times[j], i, now + limit);
    }
  }
}
