/** When a timer fires, said by the history of its events and not by its state. */
module TimerHistory {
  import opened CoarseTimers
  import opened Options
  import opened TimerRuns

  /** What each check of a run has fired. */
  ghost predicate Observed(tss: seq<seq<Timer>>, es: seq<Event>, times: seq<int>, fires: seq<seq<bool>>) {
    && |fires| == |es| == |times| && |tss| == |es| + 1
    && forall k :: 0 <= k < |es| ==> Fits(tss[k], es[k]) && |fires[k]| == |tss[k]|
                                     && (es[k].Checked? ==> fires[k] == Fired(tss[k], times[k], es[k].retries))
  }

  /** The interval timer i was last given in the first k events, unless it was cleared. */
  function Interval(es: seq<Event>, k: nat, i: nat): Option<int>
    requires k <= |es|
  {
    if k == 0 then None
    else
      var before := Interval(es, k - 1, i);
      match es[k - 1]
      case Armed(j, n, _) => if j == i then Some(if n < 0 then 0 else n) else before
      case ArmedAlone(j, n, _) => if j == i then Some(if n < 0 then 0 else n) else before
      case Cleared(j) => if j == i then None else before
      case Modified(j, n) => if j == i && before.Some? then Some(if n < 0 then 0 else n) else before
      case _ => before
  }

  /** The time it is counted from: of its arming, its last reset, or the last check that
      fired it, whichever came last. */
  function Since(es: seq<Event>, times: seq<int>, fires: seq<seq<bool>>, k: nat, i: nat): int
    requires k <= |es| == |times| == |fires|
  {
    if k == 0 then 0
    else
      var before := Since(es, times, fires, k - 1, i);
      match es[k - 1]
      case Armed(j, _, from) => if j == i then from else before
      case ArmedAlone(j, _, from) => if j == i then from else before
      case Reset(j) => if j == i then times[k - 1] else before
      case Checked(_) => if i < |fires[k - 1]| && fires[k - 1][i] then times[k - 1] else before
      case _ => before
  }

  /** What the timer is after the first k events. */
  lemma {:induction false} TimerByHistory(tss: seq<seq<Timer>>, es: seq<Event>, times: seq<int>, fires: seq<seq<bool>>,
                                          k: nat, i: nat)
    requires EagerRun(tss, es, times) && Observed(tss, es, times, fires) && k <= |es| && i < |tss[k]|
    requires forall j :: 0 <= j < |tss[0]| ==> !tss[0][j].defined
    ensures tss[k][i].defined <==> Interval(es, k, i).Some?
    ensures tss[k][i].defined ==>
              tss[k][i].n == Interval(es, k, i).value && tss[k][i].last == Since(es, times, fires, k, i)
  {
    if k > 0 {
      TimerByHistory(tss, es, times, fires, k - 1, i);
    }
  }

  /** In every run a timer fires in a check exactly when it is armed, is not told to wait,
      and its interval has passed since it was armed, reset or last fired: it goes on
      firing, once in each interval, until it is cleared. */
  lemma FiresByHistory(tss: seq<seq<Timer>>, es: seq<Event>, times: seq<int>, fires: seq<seq<bool>>, k: nat, i: nat)
    requires EagerRun(tss, es, times) && Observed(tss, es, times, fires) && k < |es| && i < |tss[k]|
    requires forall j :: 0 <= j < |tss[0]| ==> !tss[0][j].defined
    requires es[k].Checked?
    ensures fires[k][i] <==>
              && Interval(es, k, i).Some? && es[k].retries[i] < 0
              && times[k] >= Since(es, times, fires, k, i) + Interval(es, k, i).value
  {
    TimerByHistory(tss, es, times, fires, k, i);
  }

  /** So does the lazy check, in the runs in which it agrees with the eager one. */
  lemma LazyFiresByHistory(cs: seq<Context>, tss: seq<seq<Timer>>, es: seq<Event>, times: seq<int>,
                           fires: seq<seq<bool>>, k: nat, i: nat)
    requires BothRun(cs, tss, es, times) && Clock(times) && AllAnnounced(cs, es, times) && Steady(tss, es, times)
    requires |fires| == |es| && forall j :: 0 <= j < |es| ==>
               && |fires[j]| == |cs[j].timers|
               && (es[j].Checked? ==> fires[j] == CheckFires(cs[j], times[j], es[j].retries))
    requires k < |es| && es[k].Checked? && i < |cs[k].timers|
    ensures fires[k][i] <==>
              && Interval(es, k, i).Some? && es[k].retries[i] < 0
              && times[k] >= Since(es, times, fires, k, i) + Interval(es, k, i).value
  {
    LazyEqualsEager(cs, tss, es, times);
    assert forall j :: 0 <= j < |es| ==> FiresAlike(cs[j], tss[j], es[j], times[j]);
    FiresByHistory(tss, es, times, fires, k, i);
  }

  /** A periodic timer: armed with an interval from a time, and then with no event of its
      own, it fires in a check exactly when it is not told to wait and the interval has
      passed since the later of its arming and the last check that fired it. */
  lemma PeriodicTimer(tss: seq<seq<Timer>>, es: seq<Event>, times: seq<int>, fires: seq<seq<bool>>,
                      a: nat, k: nat, i: nat, n: nat, from: int)
    requires EagerRun(tss, es, times) && Observed(tss, es, times, fires) && a < k < |es| && i < |tss[k]|
    requires forall j :: 0 <= j < |tss[0]| ==> !tss[0][j].defined
    requires es[a] == Armed(i, n, from) || es[a] == ArmedAlone(i, n, from)
    requires (forall j :: a < j < k ==> es[j].Checked? || es[j].i != i) && es[k].Checked?
    ensures fires[k][i] <==> es[k].retries[i] < 0 && times[k] >= LastFired(es, times, fires, a + 1, k, i, from) + n
  {
    OnlyChecks(es, times, fires, a, k, i, n, from);
    FiresByHistory(tss, es, times, fires, k, i);
  }

  /** When timer i last fired in events a to k - 1, or else from. */
  function LastFired(es: seq<Event>, times: seq<int>, fires: seq<seq<bool>>, a: nat, k: nat, i: nat, from: int): int
    requires a <= k <= |es| == |times| == |fires|
  {
    if k == a then from
    else if es[k - 1].Checked? && i < |fires[k - 1]| && fires[k - 1][i] then times[k - 1]
    else LastFired(es, times, fires, a, k - 1, i, from)
  }

  lemma {:induction false} OnlyChecks(es: seq<Event>, times: seq<int>, fires: seq<seq<bool>>, a: nat, k: nat, i: nat,
                                      n: nat, from: int)
    requires a < k <= |es| == |times| == |fires|
    requires es[a] == Armed(i, n, from) || es[a] == ArmedAlone(i, n, from)
    requires forall j :: a < j < k ==> es[j].Checked? || es[j].i != i
    ensures Interval(es, k, i) == Some(n)
    ensures Since(es, times, fires, k, i) == LastFired(es, times, fires, a + 1, k, i, from)
  {
    if k > a + 1 {
      OnlyChecks(es, times, fires, a, k - 1, i, n, from);
    }
  }

  /** A check that is made lets the program sleep, and skips the checks that follow, until
      the time that SleepsUntilNextDeadline gives; one that is skipped changes nothing. */
  lemma ChecksWakeUp(c: Context, now: int, retries: seq<int>, tv: Timeval)
    requires |retries| == |c.timers|
    ensures now >= c.wakeup ==>
              var limit := Limit(c.timers, now, retries).sec;
              && Check(c, now, retries).wakeup == now + limit
              && CheckLimit(c, now, retries, tv).sec == (if limit > tv.sec then tv.sec else limit)
    ensures now < c.wakeup ==>
              && Check(c, now, retries) == c && (forall i :: 0 <= i < |c.timers| ==> !CheckFires(c, now, retries)[i])
              && CheckLimit(c, now, retries, tv).sec == if c.wakeup - now < tv.sec then c.wakeup - now else tv.sec
  {
  }

  /** The limit a check leaves is the time until the next deadline of any timer, as the
      check has left it, or until the end of the time it was told to wait; a week if
      there is none. */
  lemma SleepsUntilNextDeadline(ts: seq<Timer>, now: int, retries: seq<int>)
    requires |retries| == |ts|
    ensures var limit := Limit(ts, now, retries).sec;
            && limit <= 604800
            && (forall i :: 0 <= i < |ts| && ts[i].defined ==> limit <= Remaining(ts, now, retries, i))
            && (limit == 604800
                || exists i :: 0 <= i < |ts| && ts[i].defined && limit == Remaining(ts, now, retries, i))
  {
    LimitIsLeast(ts, now, retries, Timeval(BIG_TIMEOUT, 0), |ts|);
    var limit := Limit(ts, now, retries).sec;
    assert forall i :: 0 <= i < |ts| && ts[i].defined ==>
             Wakeup(ts[i], now, retries[i]) == Remaining(ts, now, retries, i);
  }

  /** Seconds until a timer should be looked at again. */
  function Remaining(ts: seq<Timer>, now: int, retries: seq<int>, i: nat): int
    requires i < |ts| == |retries|
  {
    var after := Pass(ts, now, retries)[i];
    if ts[i].last + ts[i].n <= now && retries[i] >= 0 then retries[i] else after.last + after.n - now
  }
}
