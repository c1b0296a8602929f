/** Coarse timers: interval.c, interval.h, and the check in forward.c that skips them
    until the earliest deadline. */
module CoarseTimers {
  const BIG_TIMEOUT: int := 60 * 60 * 24 * 7
  const ETT_DEFAULT: int := -1

  /** struct event_timeout */
  datatype Timer = Timer(defined: bool, n: int, last: int) {
    function Deadline(): int {
      last + n
    }

    predicate Due(now: int) {
      defined && Deadline() <= now
    }
  }

  datatype Timeval = Timeval(sec: int, usec: int)

  /** The timer after event_timeout_trigger. */
  function Rearmed(t: Timer, now: int, retry: int): Timer {
    if t.Due(now) && retry < 0 then t.(last := now) else t
  }

  /** Seconds until the timer should be looked at again. */
  function Wakeup(t: Timer, now: int, retry: int): int {
    if !t.Due(now) then t.Deadline() - now else if retry < 0 then t.n else retry
  }

  function Lowered(t: Timer, now: int, retry: int, tv: Timeval): Timeval {
    if t.defined && Wakeup(t, now, retry) < tv.sec then Timeval(Wakeup(t, now, retry), 0) else tv
  }

  /** event_timeout_trigger returns true. */
  predicate Fires(t: Timer, now: int, retry: int) {
    t.Due(now) && retry < 0
  }

  // One pass over all timers, each with its own retry

  function Pass(ts: seq<Timer>, now: int, retries: seq<int>): (r: seq<Timer>)
    requires |retries| == |ts|
    ensures |r| == |ts|
  {
    seq(|ts|, i requires 0 <= i < |ts| => Rearmed(ts[i], now, retries[i]))
  }

  /** Which timers a pass fires. */
  function Fired(ts: seq<Timer>, now: int, retries: seq<int>): (r: seq<bool>)
    requires |retries| == |ts|
    ensures |r| == |ts|
  {
    seq(|ts|, i requires 0 <= i < |ts| => Fires(ts[i], now, retries[i]))
  }

  /** The time limit after a pass over the first k timers. */
  function PassLimit(ts: seq<Timer>, now: int, retries: seq<int>, tv: Timeval, k: nat): Timeval
    requires k <= |ts| == |retries|
  {
    if k == 0 then tv else Lowered(ts[k - 1], now, retries[k - 1], PassLimit(ts, now, retries, tv, k - 1))
  }

  /** The limit of a pass is the least wake-up time, or the one it began with. */
  lemma {:induction false} LimitIsLeast(ts: seq<Timer>, now: int, retries: seq<int>, tv: Timeval, k: nat)
    requires k <= |ts| == |retries|
    ensures var limit := PassLimit(ts, now, retries, tv, k);
            && limit.sec <= tv.sec
            && (forall i :: 0 <= i < k && ts[i].defined ==> limit.sec <= Wakeup(ts[i], now, retries[i]))
            && (limit == tv || exists i :: 0 <= i < k && ts[i].defined && limit.sec == Wakeup(ts[i], now, retries[i]))
  {
    if k > 0 {
      LimitIsLeast(ts, now, retries, tv, k - 1);
    }
  }

  // The lazy check

  datatype Context = Context(timers: seq<Timer>, wakeup: int)

  function Limit(ts: seq<Timer>, now: int, retries: seq<int>): Timeval
    requires |retries| == |ts|
  {
    PassLimit(ts, now, retries, Timeval(BIG_TIMEOUT, 0), |ts|)
  }

  /** check_coarse_timers */
  function Check(c: Context, now: int, retries: seq<int>): (r: Context)
    requires |retries| == |c.timers|
    ensures |r.timers| == |c.timers|
  {
    if now >= c.wakeup then Context(Pass(c.timers, now, retries), now + Limit(c.timers, now, retries).sec) else c
  }

  /** What it fires. */
  function CheckFires(c: Context, now: int, retries: seq<int>): (r: seq<bool>)
    requires |retries| == |c.timers|
    ensures |r| == |c.timers|
  {
    if now >= c.wakeup then Fired(c.timers, now, retries) else seq(|c.timers|, _ => false)
  }

  /** The time the main loop may then sleep. */
  function CheckLimit(c: Context, now: int, retries: seq<int>, tv: Timeval): Timeval
    requires |retries| == |c.timers|
  {
    if now >= c.wakeup then
      var limit := Limit(c.timers, now, retries);
      if limit.sec > tv.sec then tv else limit
    else
      var sec := if c.wakeup - now < 0 then 0 else c.wakeup - now;
      if sec < tv.sec then Timeval(sec, 0) else tv
  }

  /** The check is made, or every timer that is due is held back by a retry anyway. */
  ghost predicate MissesNothing(c: Context, now: int, retries: seq<int>)
    requires |retries| == |c.timers|
  {
    now < c.wakeup ==> forall i :: 0 <= i < |c.timers| && c.timers[i].Due(now) ==> retries[i] >= 0
  }

  /** The lazy check fires what a pass would fire exactly when it misses nothing, and
      then it also leaves the timers as a pass would. */
  lemma CheckIsPassExactly(c: Context, now: int, retries: seq<int>)
    requires |retries| == |c.timers|
    ensures CheckFires(c, now, retries) == Fired(c.timers, now, retries) <==> MissesNothing(c, now, retries)
    ensures MissesNothing(c, now, retries) ==> Check(c, now, retries).timers == Pass(c.timers, now, retries)
  {
    if now < c.wakeup {
      var fires, fired := CheckFires(c, now, retries), Fired(c.timers, now, retries);
      if MissesNothing(c, now, retries) {
        assert forall i :: 0 <= i < |c.timers| ==> !Fires(c.timers[i], now, retries[i]);
        assert fires == fired;
        assert Pass(c.timers, now, retries) == c.timers;
      } else {
        var i :| 0 <= i < |c.timers| && c.timers[i].Due(now) && retries[i] < 0;
        assert fired[i] && !fires[i];
      }
    }
  }

  /** No deadline lies between now and the next wake-up. */
  ghost predicate Prompt(c: Context, now: int) {
    forall i :: 0 <= i < |c.timers| && c.timers[i].defined ==> c.wakeup <= c.timers[i].Deadline() || c.wakeup <= now
  }

  /** From now on the next check, whenever it comes and with whatever retries, fires
      what a pass would fire exactly when no deadline lies before the wake-up. */
  lemma PromptExactly(c: Context, now: int)
    ensures Prompt(c, now) <==>
            forall later: int, retries: seq<int> :: later >= now && |retries| == |c.timers| ==>
              CheckFires(c, later, retries) == Fired(c.timers, later, retries)
  {
    if Prompt(c, now) {
      forall later: int, retries: seq<int> | later >= now && |retries| == |c.timers|
        ensures CheckFires(c, later, retries) == Fired(c.timers, later, retries)
      {
        CheckIsPassExactly(c, later, retries);
      }
    } else {
      var i :| 0 <= i < |c.timers| && c.timers[i].defined && now < c.wakeup && c.timers[i].Deadline() < c.wakeup;
      var later := if c.timers[i].Deadline() < now then now else c.timers[i].Deadline();
      var retries := seq(|c.timers|, _ => ETT_DEFAULT);
      CheckIsPassExactly(c, later, retries);
      assert !MissesNothing(c, later, retries);
    }
  }

  /** A timer armed from a time, which is now or, for the first ping, zero. */
  function Started(n: int, from: int): Timer {
    Timer(true, if n >= 0 then n else 0, from)
  }

  const CLEAR := Timer(false, 0, 0)

  /** Arming a timer without reset_coarse_timers makes no later check miss anything
      exactly when the next wake-up is not after the new deadline, or has come. */
  lemma ArmedAloneExactly(c: Context, i: nat, n: int, from: int, now: int)
    requires Prompt(c, now) && i < |c.timers|
    ensures Prompt(c.(timers := c.timers[i := Started(n, from)]), now) <==>
            c.wakeup <= Started(n, from).Deadline() || c.wakeup <= now
  {
    var t := Started(n, from);
    var armed := c.timers[i := t];
    assert armed[i] == t && forall j :: 0 <= j < |armed| && j != i ==> armed[j] == c.timers[j];
  }

  /** Where the program does so: when the route timer fires and the interface is not up,
      it is armed anew for one second after the pass has taken its old interval into
      account.  That is in time exactly when the pass may sleep for a second at most. */
  lemma RoutesWaitExactly(ts: seq<Timer>, wakeup: int, now: int, retries: seq<int>, i: nat)
    requires |retries| == |ts| && i < |ts| && wakeup <= now
    requires Prompt(Check(Context(ts, wakeup), now, retries), now)
    ensures var c := Check(Context(ts, wakeup), now, retries);
            Prompt(c.(timers := c.timers[i := Started(1, now)]), now) <==> Limit(ts, now, retries).sec <= 1
  {
    ArmedAloneExactly(Check(Context(ts, wakeup), now, retries), i, 1, now, now);
  }

  /** So the wake-up comes too late if there is no other timer with an earlier one. */
  lemma RoutesWaitTooLong(n: nat, now: int)
    requires 1 < n < BIG_TIMEOUT
    ensures var fired := Timer(true, n, now - n);
            var c := Check(Context([fired], now), now, [ETT_DEFAULT]);
            && CheckFires(Context([fired], now), now, [ETT_DEFAULT]) == [true]
            && !Prompt(c.(timers := [Started(1, now)]), now)
  {
    var ts, retries := [Timer(true, n, now - n)], [ETT_DEFAULT];
    LimitIsLeast(ts, now, retries, Timeval(BIG_TIMEOUT, 0), 1);
    assert ts[0].defined && Wakeup(ts[0], now, retries[0]) == n;
    var c := Check(Context(ts, now), now, retries);
    assert c.wakeup == now + n;
    assert c.(timers := [Started(1, now)]).timers[0].defined;
  }

  /** A due timer that was to be retried is left as it is, and until the retry has run
      out the lazy check does not fire it, even where the eager one does. */
  lemma RetryIsLate(t: Timer, now: int, retry: nat, later: nat)
    requires t.Due(now) && later < retry < BIG_TIMEOUT
    ensures var c := Check(Context([t], now), now, [retry]);
            && c == Context([t], now + retry)
            && CheckFires(c, now + later, [ETT_DEFAULT]) == [false]
            && Fired(c.timers, now + later, [ETT_DEFAULT]) == [true]
  {
    LimitIsLeast([t], now, [retry], Timeval(BIG_TIMEOUT, 0), 1);
    assert Pass([t], now, [retry]) == [t];
    assert PassLimit([t], now, [retry], Timeval(BIG_TIMEOUT, 0), 0) == Timeval(BIG_TIMEOUT, 0);
  }
}
