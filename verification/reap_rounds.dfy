/** What a round of reaper passes does to the table of routes. */
module ReapRounds {
  import opened Bits
  import opened Mroute
  import opened Multi
  import opened Reapers
  import opened Routing

  /** Consecutive calls of multi_reap_process_dowork with nothing between: the states and
      the bucket each pass stopped at, as `MultiContext.ReapProcess` gives them. */
  ghost predicate Passes(states: seq<Server>, bases: seq<nat>, hash: Key -> nat, mask: nat, perPass: nat,
                         nBuckets: nat) {
    && |states| == |bases| > 0
    && forall i :: 0 <= i < |states| - 1 ==> OnePass(states[i], states[i + 1], bases[i], bases[i + 1], hash, mask,
                                                     perPass, nBuckets)
  }

  ghost predicate OnePass(s: Server, s': Server, base: nat, base': nat, hash: Key -> nat, mask: nat, perPass: nat,
                          nBuckets: nat) {
    var start := Start(base, nBuckets);
    base' == start + perPass && s' == Reap(s, KeysBetween(s, hash, mask, start, start + perPass))
  }

  lemma PassesGoOn(states: seq<Server>, bases: seq<nat>, hash: Key -> nat, mask: nat, perPass: nat, nBuckets: nat)
    requires Passes(states, bases, hash, mask, perPass, nBuckets) && |states| > 1
    ensures OnePass(states[0], states[1], bases[0], bases[1], hash, mask, perPass, nBuckets)
    ensures Passes(states[1..], bases[1..], hash, mask, perPass, nBuckets)
  {
    hide OnePass;
  }

  /** A route that is not live goes in the first pass that visits its bucket; a live one
      stays as it is. */
  lemma {:induction false} VisitedAreReaped(states: seq<Server>, bases: seq<nat>, hash: Key -> nat, mask: nat,
                                            perPass: nat, nBuckets: nat, key: Key)
    requires |states| == |bases| > 0 && Passes(states, bases, hash, mask, perPass, nBuckets)
    ensures var first, last := states[0], states[|states| - 1];
            && last == first.(routes := last.routes)
            && (key in last.routes <==>
                  key in first.routes
                  && (Live(first, key)
                      || Visits(bases[0], perPass, nBuckets, |states| - 1, And(hash(key), mask)) == 0))
            && (key in last.routes ==> last.routes[key] == first.routes[key])
    decreases |states|
  {
    hide And, Passes;
    if |states| > 1 {
      PassesGoOn(states, bases, hash, mask, perPass, nBuckets);
      VisitedAreReaped(states[1..], bases[1..], hash, mask, perPass, nBuckets, key);
    }
  }

  /** After as many passes as it takes to go over the table once, from any place the reaper
      can stand, exactly the live routes are left. */
  lemma RoundLeavesTheLive(states: seq<Server>, bases: seq<nat>, hash: Key -> nat, mask: nat, perPass: nat,
                           nBuckets: nat, place: nat)
    requires |states| == |bases| > 0 && Passes(states, bases, hash, mask, perPass, nBuckets) && perPass > 0
    requires (forall key: Key :: And(hash(key), mask) < nBuckets) && bases[0] == place * perPass
    requires var c := |states| - 1; IsQuotientUp(c, nBuckets, perPass) && place <= c
    ensures var first, last := states[0], states[|states| - 1];
            && (forall key :: key in last.routes <==> Live(first, key))
            && (forall key :: key in last.routes ==> Live(last, key) && last.routes[key] == first.routes[key])
  {
    hide And, Passes, Visits;
    var first, last := states[0], states[|states| - 1];
    forall key: Key
      ensures key in last.routes <==> Live(first, key)
      ensures key in last.routes ==> Live(last, key) && last.routes[key] == first.routes[key]
    {
      VisitedAreReaped(states, bases, hash, mask, perPass, nBuckets, key);
      EveryBucketOnce(place, |states| - 1, perPass, nBuckets, And(hash(key), mask));
    }
  }
}
