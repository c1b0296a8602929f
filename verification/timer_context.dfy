/** The timers and the context that checks them, updated in place: interval.h,
    interval.c and forward.c. */
module TimerContexts {
  import opened CoarseTimers
  import opened TimerRuns

  class EventTimeout {
    var defined: bool
    var n: int
    var last: int

    function Value(): Timer
      reads this
    {
      Timer(defined, n, last)
    }

    constructor ()
      ensures Value() == CLEAR
    {
      defined, n, last := false, 0, 0;
    }

    /** event_timeout_clear */
    method Clear()
      modifies this
      ensures Value() == CLEAR
    {
      defined := false;
      n := 0;
      last := 0;
    }

    /** event_timeout_init */
    method Init(n: int, localNow: int)
      modifies this
      ensures Value() == Started(n, localNow)
    {
      defined := true;
      this.n := if n >= 0 then n else 0;
      last := localNow;
    }

    /** event_timeout_reset */
    method Reset(now: int)
      modifies this
      ensures Value() == if old(defined) then old(Value()).(last := now) else old(Value())
    {
      if defined {
        last := now;
      }
    }

    /** event_timeout_modify_wakeup */
    method ModifyWakeup(n: int)
      modifies this
      ensures Value() == if old(defined) then old(Value()).(n := if n >= 0 then n else 0) else old(Value())
    {
      if defined {
        this.n := if n >= 0 then n else 0;
      }
    }

    /** event_timeout_trigger */
    method Trigger(tv: Timeval, retry: int, now: int) returns (ret: bool, tv': Timeval)
      modifies this
      ensures Value() == Rearmed(old(Value()), now, retry)
      ensures ret <==> Fires(old(Value()), now, retry)
      ensures tv' == Lowered(old(Value()), now, retry, tv)
    {
      ret, tv' := false, tv;
      if defined {
        var wakeup := last + n - now;
        if wakeup <= 0 {
          if retry < 0 {
            last := now;
            wakeup := n;
            ret := true;
          } else {
            wakeup := retry;
          }
        }
        if wakeup < tv.sec {
          tv' := Timeval(wakeup, 0);
        }
      }
    }
  }

  class TimerContext {
    const timers: seq<EventTimeout>
    var coarseTimerWakeup: int
    var timeval: Timeval

    ghost predicate Valid() {
      forall i, j :: 0 <= i < j < |timers| ==> timers[i] != timers[j]
    }

    ghost function Values(): (r: seq<Timer>)
      reads timers
      ensures |r| == |timers|
    {
      seq(|timers|, i requires 0 <= i < |timers| reads timers => timers[i].Value())
    }

    ghost function State(): Context
      reads this, timers
    {
      Context(Values(), coarseTimerWakeup)
    }

    constructor (timers: seq<EventTimeout>)
      requires forall i, j :: 0 <= i < j < |timers| ==> timers[i] != timers[j]
      ensures Valid() && this.timers == timers && coarseTimerWakeup == 0
    {
      this.timers, coarseTimerWakeup, timeval := timers, 0, Timeval(0, 0);
    }

    /** event_timeout_trigger on one of the timers, with its time limit. */
    method TriggerAt(i: nat, retry: int, now: int) returns (ret: bool)
      requires Valid() && i < |timers|
      modifies this`timeval, timers
      ensures Values() == old(Values())[i := Rearmed(old(Values())[i], now, retry)]
      ensures ret <==> Fires(old(Values())[i], now, retry)
      ensures timeval == Lowered(old(Values())[i], now, retry, old(timeval))
    {
      hide Rearmed, Fires, Lowered;
      ret, timeval := timers[i].Trigger(timeval, retry, now);
    }

    /** process_coarse_timers, as far as the timers go; each is given a retry. */
    method ProcessCoarseTimers(now: int, retries: seq<int>) returns (fired: seq<bool>)
      requires Valid() && |retries| == |timers|
      modifies this`timeval, timers
      ensures Values() == Pass(old(Values()), now, retries) && fired == Fired(old(Values()), now, retries)
      ensures timeval == PassLimit(old(Values()), now, retries, old(timeval), |timers|)
    {
      hide Rearmed, Fires, Lowered, Values;
      ghost var before := Values();
      fired := [];
      for i := 0 to |timers|
        invariant |fired| == i && forall j :: 0 <= j < i ==> fired[j] == Fires(before[j], now, retries[j])
        invariant forall j :: 0 <= j < |timers| ==>
                    Values()[j] == if j < i then Rearmed(before[j], now, retries[j]) else before[j]
        invariant timeval == PassLimit(before, now, retries, old(timeval), i)
      {
        var ret := TriggerAt(i, retries[i], now);
        fired := fired + [ret];
      }
    }

    /** check_coarse_timers_dowork */
    method CheckDowork(now: int, retries: seq<int>) returns (fired: seq<bool>)
      requires Valid() && now >= coarseTimerWakeup && |retries| == |timers|
      modifies this, timers
      ensures State() == Check(old(State()), now, retries) && fired == CheckFires(old(State()), now, retries)
      ensures timeval == CheckLimit(old(State()), now, retries, old(timeval))
    {
      var save := timeval;
      timeval := Timeval(BIG_TIMEOUT, 0);
      fired := ProcessCoarseTimers(now, retries);
      coarseTimerWakeup := now + timeval.sec;
      if timeval.sec > save.sec {
        timeval := save;
      }
    }

    /** context_reschedule_sec */
    method RescheduleSec(sec: int)
      modifies this`timeval
      ensures var s := if sec < 0 then 0 else sec;
              timeval == if s < old(timeval).sec then Timeval(s, 0) else old(timeval)
    {
      var s := if sec < 0 then 0 else sec;
      if s < timeval.sec {
        timeval := Timeval(s, 0);
      }
    }

    /** check_coarse_timers: the event Checked of a run. */
    method CheckCoarseTimers(now: int, retries: seq<int>) returns (fired: seq<bool>)
      requires Valid() && |retries| == |timers|
      modifies this, timers
      ensures State() == Lazy(old(State()), Checked(retries), now)
      ensures fired == CheckFires(old(State()), now, retries)
      ensures timeval == CheckLimit(old(State()), now, retries, old(timeval))
    {
      if now >= coarseTimerWakeup {
        fired := CheckDowork(now, retries);
      } else {
        fired := seq(|timers|, _ => false);
        RescheduleSec(coarseTimerWakeup - now);
      }
    }

    // The other events of a run

    method ResetTimer(i: nat, now: int)
      requires Valid() && i < |timers|
      modifies timers[i]
      ensures State() == Lazy(old(State()), Event.Reset(i), now)
    {
      timers[i].Reset(now);
    }

    method ClearTimer(i: nat, now: int)
      requires Valid() && i < |timers|
      modifies timers[i]
      ensures State() == Lazy(old(State()), Cleared(i), now)
    {
      timers[i].Clear();
    }

    /** event_timeout_init alone. */
    method InitTimer(i: nat, n: int, from: int, now: int)
      requires Valid() && i < |timers|
      modifies timers[i]
      ensures State() == Lazy(old(State()), ArmedAlone(i, n, from), now)
    {
      timers[i].Init(n, from);
    }

    method ModifyTimer(i: nat, n: int, now: int)
      requires Valid() && i < |timers|
      modifies timers[i]
      ensures State() == Lazy(old(State()), Modified(i, n), now)
    {
      timers[i].ModifyWakeup(n);
    }

    /** reset_coarse_timers */
    method ResetCoarseTimers()
      modifies this`coarseTimerWakeup
      ensures coarseTimerWakeup == 0
    {
      coarseTimerWakeup := 0;
    }

    /** event_timeout_init, then reset_coarse_timers. */
    method ArmTimer(i: nat, n: int, from: int, now: int)
      requires Valid() && i < |timers|
      modifies timers[i], this`coarseTimerWakeup
      ensures State() == Lazy(old(State()), Armed(i, n, from), now)
    {
      timers[i].Init(n, from);
      ResetCoarseTimers();
    }
  }
}
