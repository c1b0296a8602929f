/** The server's route table on its hash table, prefix index and reaper: multi.c. */
module Multi {
  import opened Bits
  import opened Buffers
  import opened Mroute
  import opened Routing
  import opened HashTables
  import opened HashIterators
  import opened Options
  import opened Reapers
  import opened RoutingRuns
  import opened Sequences

  /** A route as stored, with the 32 bits of its generation that there is room for. */
  function Narrow(r: Route): Route {
    r.(generation := r.generation % WORD)
  }

  /** multi_route_defined */
  predicate DefinedAt(r: Route, halted: set<int>, cacheGeneration: nat, ttl: int, now: int) {
    if r.owner in halted then false
    else if r.cached && r.generation != cacheGeneration then false
    else if r.ageable && r.lastReference + ttl < now then false
    else true
  }

  /** The routes the reaper is to remove. */
  ghost function Stale(halted: set<int>, cacheGeneration: nat, ttl: int, now: int): (Key, Route) -> bool {
    (key, r) => !DefinedAt(r, halted, cacheGeneration, ttl, now)
  }

  /** The stored routes are the ones of the abstract server. */
  ghost predicate Stores(stored: map<Key, Route>, routes: map<Key, Route>) {
    stored.Keys == routes.Keys && forall key :: key in routes ==> stored[key] == Narrow(routes[key])
  }

  lemma StoresOneMore(stored: map<Key, Route>, routes: map<Key, Route>, key: Key, r: Route)
    requires Stores(stored, routes)
    ensures Stores(stored[key := Narrow(r)], routes[key := r])
  {
  }

  /** The keys of the routes in a range of buckets. */
  ghost function KeysBetween(s: Server, hash: Key -> nat, mask: nat, start: int, end: int): set<Key> {
    set key | key in s.routes && start <= And(hash(key), mask) < end
  }

  /** Unlinking the stale routes of a range of buckets is reaping it. */
  lemma StaleIsReaped(stored: map<Key, Route>, left: map<Key, Route>, s: Server, cacheGeneration: nat,
                      hash: Key -> nat, mask: nat, start: int, end: int)
    requires Stores(stored, s.routes) && cacheGeneration == s.generation % WORD
    requires forall key :: key in left <==>
               key in stored && !(start <= And(hash(key), mask) < end &&
               Stale(s.halted, cacheGeneration, s.ttl, s.now)(key, stored[key]))
    requires forall key :: key in left ==> left[key] == stored[key]
    ensures Stores(left, Reap(s, KeysBetween(s, hash, mask, start, end)).routes)
    ensures var s' := Reap(s, KeysBetween(s, hash, mask, start, end));
            s' == s.(routes := s'.routes)
  {
    var visited := KeysBetween(s, hash, mask, start, end);
    forall key | key in s.routes
      ensures key in left <==> key !in visited || Live(s, key)
    {
      assert DefinedAt(stored[key], s.halted, cacheGeneration, s.ttl, s.now) <==> Defined(s, s.routes[key]);
    }
  }

  /** The first n turns of multi_add_iroutes. */
  function IroutesAdded(s: Server, mi: int, irs: seq<Iroute>, allowed: seq<bool>, n: nat): (r: Server)
    requires n <= |irs| == |allowed| && forall i :: 0 <= i < |irs| ==> irs[i].netbits < |s.refcount|
    ensures |r.refcount| == |s.refcount|
  {
    if n == 0 then s else AddIroute(IroutesAdded(s, mi, irs, allowed, n - 1), mi, irs[n - 1], allowed[n - 1])
  }

  /** The prefix lengths of a list of iroutes. */
  function NetLengths(irs: seq<Iroute>): (r: seq<nat>)
    ensures |r| <= |irs|
  {
    if irs == [] then []
    else (if irs[0].netbits >= 0 then [irs[0].netbits] else []) + NetLengths(irs[1..])
  }

  lemma NextLength(irs: seq<Iroute>, i: nat)
    requires i < |irs|
    ensures NetLengths(irs[i..]) == (if irs[i].netbits >= 0 then [irs[i].netbits] else []) + NetLengths(irs[i + 1..])
  {
    assert irs[i..][0] == irs[i] && irs[i..][1..] == irs[i + 1..];
  }

  lemma {:induction false} LengthsInRange(irs: seq<Iroute>, bound: nat)
    requires forall i :: 0 <= i < |irs| ==> irs[i].netbits < bound
    ensures forall i :: 0 <= i < |NetLengths(irs)| ==> NetLengths(irs)[i] < bound
  {
    if irs != [] {
      LengthsInRange(irs[1..], bound);
    }
  }

  // From connecting to closing: what multi_add_iroutes registers is the client's list

  lemma {:induction false} RegisteredAppended(active: seq<Hold>, h: Hold, mi: int)
    ensures Registered(active + [h], mi) == Registered(active, mi) + (if h.owner == mi then [h.netbits] else [])
  {
    var last := if h.owner == mi then [h.netbits] else [];
    if active == [] {
      assert active + [h] == [h] && [h][1..] == [];
    } else {
      RegisteredAppended(active[1..], h, mi);
      assert (active + [h])[0] == active[0] && (active + [h])[1..] == active[1..] + [h];
      var first := if active[0].owner == mi then [active[0].netbits] else [];
      ConcatAssociates(first, Registered(active[1..], mi), last);
    }
  }

  lemma {:induction false} LengthsAppended(irs: seq<Iroute>, n: nat)
    requires n < |irs|
    ensures NetLengths(irs[..n + 1]) == NetLengths(irs[..n]) + (if irs[n].netbits >= 0 then [irs[n].netbits] else [])
  {
    var last := if irs[n].netbits >= 0 then [irs[n].netbits] else [];
    if n == 0 {
      assert irs[..1] == [irs[0]] && irs[..1][1..] == [] && irs[..0] == [];
    } else {
      LengthsAppended(irs[1..], n - 1);
      assert irs[..n + 1][1..] == irs[1..][..n] && irs[..n][1..] == irs[1..][..n - 1];
      var first := if irs[0].netbits >= 0 then [irs[0].netbits] else [];
      ConcatAssociates(first, NetLengths(irs[1..][..n - 1]), last);
    }
  }

  lemma IrouteIsRegistered(s: Server, mi: int, ir: Iroute, allowed: bool)
    requires ir.netbits < |s.refcount|
    ensures Registered(AddIroute(s, mi, ir, allowed).active, mi) ==
            Registered(s.active, mi) + (if ir.netbits >= 0 then [ir.netbits] else [])
  {
    hide Registered;
    if ir.netbits >= 0 {
      RegisteredAppended(s.active, Hold(mi, ir.netbits), mi);
    } else {
      NothingAfter(Registered(s.active, mi));
    }
  }

  /** Adding a list of iroutes registers exactly their prefix lengths, in order. */
  lemma {:induction false} IroutesAreRegistered(s: Server, mi: int, irs: seq<Iroute>, allowed: seq<bool>, n: nat)
    requires n <= |irs| == |allowed| && forall i :: 0 <= i < |irs| ==> irs[i].netbits < |s.refcount|
    ensures Registered(IroutesAdded(s, mi, irs, allowed, n).active, mi) ==
            Registered(s.active, mi) + NetLengths(irs[..n])
  {
    hide Registered, NetLengths, AddIroute;
    if n == 0 {
      assert irs[..0] == [];
      NoLength();
      NothingAfter(Registered(s.active, mi));
    } else {
      IroutesAreRegistered(s, mi, irs, allowed, n - 1);
      var before, ir := IroutesAdded(s, mi, irs, allowed, n - 1), irs[n - 1];
      LengthsAppended(irs, n - 1);
      IrouteIsRegistered(before, mi, ir, allowed[n - 1]);
      ConcatAssociates(Registered(s.active, mi), NetLengths(irs[..n - 1]),
                       if ir.netbits >= 0 then [ir.netbits] else []);
    }
  }

  lemma NoLength()
    ensures NetLengths([]) == []
  {
  }

  lemma {:induction false} WithoutKeepsRegistered(active: seq<Hold>, other: int, mi: int)
    requires other != mi
    ensures Registered(Without(active, other), mi) == Registered(active, mi)
  {
    if active != [] {
      WithoutKeepsRegistered(active[1..], other, mi);
      var rest := Without(active[1..], other);
      if active[0].owner == other {
        assert Without(active, other) == rest;
      } else {
        assert Without(active, other)[0] == active[0] && Without(active, other)[1..] == rest;
      }
    }
  }

  /** Until the client closes, nothing else changes what it has registered: when it
      closes, its list is what is to be released. */
  lemma OthersKeepRegistered(s: Server, a: Action, mi: int)
    requires Enabled(s, a) && !(a.Iroutes? && a.mi == mi) && a != Disconnect(mi)
    ensures Registered(Next(s, a).active, mi) == Registered(s.active, mi)
  {
    hide Registered;
    if a.Iroutes? && a.ir.netbits >= 0 {
      RegisteredAppended(s.active, Hold(a.mi, a.ir.netbits), mi);
    } else if a.Disconnect? {
      WithoutKeepsRegistered(s.active, a.mi, mi);
    }
  }

  /** The iroutes added for a client in the first n actions of a run. */
  function IroutesOf(actions: seq<Action>, mi: int, n: nat): seq<Iroute>
    requires n <= |actions|
  {
    if n == 0 then []
    else
      var a := actions[n - 1];
      IroutesOf(actions, mi, n - 1) + (if a.Iroutes? && a.mi == mi then [a.ir] else [])
  }

  /** In every run a client that has not closed has registered exactly the lengths of the
      iroutes added for it, as CloseInstance asks. */
  lemma {:induction false} RegisteredInRun(states: seq<Server>, actions: seq<Action>, mi: int, n: nat)
    requires Behaviour(states, actions) && n <= |actions|
    requires forall k :: 0 <= k < n ==> actions[k] != Disconnect(mi)
    ensures Registered(states[n].active, mi) == NetLengths(IroutesOf(actions, mi, n))
  {
    hide Registered, NetLengths, Next;
    if n == 0 {
      NoLength();
      NoneRegistered(mi);
    } else {
      RegisteredInRun(states, actions, mi, n - 1);
      var a, irs := actions[n - 1], IroutesOf(actions, mi, n - 1);
      if a.Iroutes? && a.mi == mi {
        AddedIsRegistered(states[n - 1], a);
        var more := irs + [a.ir];
        LengthsAppended(more, |irs|);
        assert more[..|irs|] == irs && more[..|irs| + 1] == more;
      } else {
        OthersKeepRegistered(states[n - 1], a, mi);
        assert irs + [] == irs;
      }
    }
  }

  lemma AddedIsRegistered(s: Server, a: Action)
    requires Enabled(s, a) && a.Iroutes?
    ensures Registered(Next(s, a).active, a.mi) ==
            Registered(s.active, a.mi) + (if a.ir.netbits >= 0 then [a.ir.netbits] else [])
  {
    hide Registered;
    if a.ir.netbits >= 0 {
      RegisteredAppended(s.active, Hold(a.mi, a.ir.netbits), a.mi);
    }
  }

  lemma NoneRegistered(mi: int)
    ensures Registered([], mi) == []
  {
  }

  lemma NextWord(g: nat, c: nat)
    requires c == g % WORD
    ensures (c + 1) % WORD == (g + 1) % WORD
  {
  }

  /** The counts are at least what the lengths take away. */
  ghost predicate Covered(refcount: seq<int>, lengths: seq<nat>) {
    && (forall i :: 0 <= i < |lengths| ==> lengths[i] < |refcount|)
    && (forall n: nat :: n < |refcount| ==> refcount[n] >= CountIn(lengths, n))
  }

  lemma CoveredNext(refcount: seq<int>, lengths: seq<nat>)
    requires Covered(refcount, lengths) && lengths != []
    ensures refcount[lengths[0]] > 0 && Covered(refcount[lengths[0] := refcount[lengths[0]] - 1], lengths[1..])
  {
    var next := refcount[lengths[0] := refcount[lengths[0]] - 1];
    forall n: nat | n < |next|
      ensures next[n] >= CountIn(lengths[1..], n)
    {
      assert refcount[n] >= CountIn(lengths, n);
    }
  }

  /** multi_del_iroutes: no count is lowered below zero on the way. */
  method DelIroutes(rh: MrouteHelper, irs: seq<Iroute>, ghost generation: nat)
    requires rh.Valid() && (forall i :: 0 <= i < |irs| ==> irs[i].netbits < MR_HELPER_NET_LEN)
    requires Covered(rh.netLenRefcount[..], NetLengths(irs)) && rh.cacheGeneration == generation % WORD
    modifies rh, rh.netLen, rh.netLenRefcount
    ensures rh.Valid() && rh.cacheGeneration == (generation + |NetLengths(irs)|) % WORD
    ensures old(Covered(rh.netLenRefcount[..], NetLengths(irs)))
    ensures rh.netLenRefcount[..] == Released(old(rh.netLenRefcount[..]), NetLengths(irs))
  {
    hide Released, CountIn, AllLengths;
    ghost var left := NetLengths(irs);
    var i := 0;
    assert irs[0..] == irs;
    while i < |irs|
      invariant i <= |irs| && rh.Valid() && left == NetLengths(irs[i..]) && |left| <= |NetLengths(irs)|
      invariant Covered(rh.netLenRefcount[..], left)
      invariant Released(rh.netLenRefcount[..], left) == Released(old(rh.netLenRefcount[..]), NetLengths(irs))
      invariant rh.cacheGeneration == (generation + |NetLengths(irs)| - |left|) % WORD
    {
      NextLength(irs, i);
      if irs[i].netbits >= 0 {
        DelOne(rh, irs[i].netbits, left, generation + |NetLengths(irs)| - |left|);
        assert ([irs[i].netbits] + NetLengths(irs[i + 1..]))[1..] == NetLengths(irs[i + 1..]);
        left := left[1..];
      } else {
        rh.DelIroute(irs[i].netbits);
      }
      i := i + 1;
    }
    ReleasedNone(rh.netLenRefcount[..]);
  }

  lemma ReleasedNone(refcount: seq<int>)
    ensures Released(refcount, []) == refcount
  {
  }

  method DelOne(rh: MrouteHelper, netbits: nat, ghost left: seq<nat>, ghost generation: nat)
    requires rh.Valid() && Covered(rh.netLenRefcount[..], left) && left != [] && netbits == left[0]
    requires rh.cacheGeneration == generation % WORD
    modifies rh, rh.netLen, rh.netLenRefcount
    ensures rh.Valid() && rh.cacheGeneration == (generation + 1) % WORD
    ensures old(Covered(rh.netLenRefcount[..], left)) && Covered(rh.netLenRefcount[..], left[1..])
    ensures Released(rh.netLenRefcount[..], left[1..]) == Released(old(rh.netLenRefcount[..]), left)
  {
    hide AllLengths;
    CoveredNext(rh.netLenRefcount[..], left);
    NextWord(generation, rh.cacheGeneration);
    rh.DelIroute(netbits);
  }

  lemma SearchMore(s: Server, key: Key, lengths: seq<nat>, i: nat)
    requires IsHost(key) && i < |lengths|
    ensures Search(s, key, lengths[i..]) ==
            if Live(s, PrefixKey(key, lengths[i])) then Some(s.routes[PrefixKey(key, lengths[i])].owner)
            else Search(s, key, lengths[i + 1..])
  {
  }

  lemma SearchEnd(s: Server, key: Key, lengths: seq<nat>)
    requires IsHost(key)
    ensures Search(s, key, lengths[|lengths|..]) == None
  {
  }

  class MultiContext {
    const vhash: HashTable<Key, Route>
    const routeHelper: MrouteHelper
    const local: Key
    const ttl: int
    const bucketsPerPass: nat
    var bucketBase: nat
    var halted: set<int>
    var now: int
    ghost var state: Server

    ghost var Repr: set<object>

    ghost predicate Shape()
      reads this
    {
      && Repr == {vhash, vhash.buckets, routeHelper, routeHelper.netLen, routeHelper.netLenRefcount}
      && this !in Repr && (vhash as object) != routeHelper
      && (vhash.buckets as object) !in {routeHelper as object, routeHelper.netLen, routeHelper.netLenRefcount}
      && (vhash as object) !in {vhash.buckets as object, routeHelper.netLen, routeHelper.netLenRefcount}
      && (routeHelper as object) !in {routeHelper.netLen as object, routeHelper.netLenRefcount}
    }

    ghost predicate Valid()
      reads this, Repr
    {
      && Shape() && bucketsPerPass > 0 && vhash.Valid() && routeHelper.Valid()
      && Stores(vhash.contents, state.routes)
      && routeHelper.cacheGeneration == state.generation % WORD
      && routeHelper.netLenRefcount[..] == state.refcount
      && halted == state.halted && now == state.now && ttl == state.ttl && local == state.local
    }

    constructor (nBuckets: nat, hash: Key -> nat, local: Key, ttl: int, now: int)
      requires nBuckets > 0
      ensures Valid() && fresh(Repr) && Initial(state) && bucketBase == 0
    {
      hide HashTable.Valid, MrouteHelper.Valid, And;
      vhash := new HashTable(nBuckets, hash);
      routeHelper := new MrouteHelper();
      this.local, this.ttl, this.now, halted := local, ttl, now, {};
      state := Server(map[], {}, 0, seq(MR_HELPER_NET_LEN, _ => 0), [], now, ttl, local);
      bucketBase, bucketsPerPass := 0, BucketsPerPass(nBuckets);
      new;
      Repr := {vhash, vhash.buckets, routeHelper, routeHelper.netLen, routeHelper.netLenRefcount};
    }

    predicate RouteDefined(r: Route)
      reads this, routeHelper
    {
      DefinedAt(r, halted, routeHelper.cacheGeneration, ttl, now)
    }

    /** The test on what is stored is the test on the abstract route. */
    lemma DefinedAgrees(key: Key)
      requires Valid()
      ensures key in vhash.contents <==> key in state.routes
      ensures key in state.routes ==> (RouteDefined(vhash.contents[key]) <==> Defined(state, state.routes[key]))
      ensures key in state.routes ==> vhash.contents[key] == Narrow(state.routes[key])
    {
    }

    /** multi_learn_addr; allowed is the verdict of the route quota and the script. */
    method LearnAddr(mi: int, addr: Key, cache: bool, allowed: bool) returns (owner: Option<int>)
      requires Valid()
      modifies this`state, vhash, vhash.buckets
      ensures Valid() && (state, owner) == Learn(old(state), mi, addr, cache, allowed)
    {
      hide vhash.Valid, routeHelper.Valid, Stores, And, AllLengths;
      vhash.BucketInTable(addr);
      var hv, b := vhash.hash(addr), vhash.BucketOf(addr);
      var oldroute := vhash.LookupFast(b, addr, hv);
      owner := None;
      DefinedAgrees(addr);
      if oldroute.Some? {
        if RouteDefined(oldroute.value) {
          owner := Some(oldroute.value.owner);
        }
      }
      if owner != Some(mi) && Learnable(addr) && addr != local {
        var newroute := Route(mi, cache, cache, if cache then routeHelper.cacheGeneration else 0, now);
        if allowed {
          owner := Some(mi);
          ghost var learned := Route(mi, cache, cache, if cache then state.generation else 0, now);
          StoresOneMore(vhash.contents, state.routes, addr, learned);
          state := state.(routes := state.routes[addr := learned]);
          if oldroute.Some? {
            vhash.ReplaceFront(b, addr, newroute);
          } else {
            vhash.AddFast(b, addr, hv, newroute);
          }
        }
      }
    }

    /** `route->last_reference = now` for the route just looked up. */
    method Touch(addr: Key, route: Route)
      requires Valid() && addr in state.routes && vhash.contents[addr] == route
      modifies this`state, vhash, vhash.buckets
      ensures var touched := old(state.routes[addr]).(lastReference := now);
              Valid() && state == old(state).(routes := old(state.routes)[addr := touched])
    {
      hide vhash.Valid, routeHelper.Valid, Stores, And, AllLengths;
      vhash.BucketInTable(addr);
      var b := vhash.BucketOf(addr);
      var he := vhash.LookupFast(b, addr, vhash.hash(addr));
      DefinedAgrees(addr);
      ghost var touched := state.routes[addr].(lastReference := now);
      StoresOneMore(vhash.contents, state.routes, addr, touched);
      state := state.(routes := state.routes[addr := touched]);
      vhash.ReplaceFront(b, addr, route.(lastReference := now));
    }

    /** The route to an address, if there is one and it is defined. */
    method LiveRoute(addr: Key) returns (route: Option<Route>)
      requires Valid()
      modifies vhash.buckets
      ensures Valid()
      ensures route == if Live(state, addr) then Some(vhash.contents[addr]) else None
    {
      route := vhash.Lookup(addr);
      if route.Some? {
        DefinedAgrees(addr);
        if !RouteDefined(route.value) {
          route := None;
        }
      }
    }

    /** What the index of prefix lengths holds. */
    lemma LengthsIndexed()
      requires Valid()
      ensures var lengths := AllLengths(state.refcount);
              && routeHelper.nNetLen == |lengths| <= routeHelper.netLen.Length
              && forall i :: 0 <= i < |lengths| ==> routeHelper.netLen[i] == lengths[i]
    {
      hide AllLengths, vhash.Valid;
      var lengths := AllLengths(state.refcount);
      assert forall i :: 0 <= i < |lengths| ==> routeHelper.netLen[i] == routeHelper.netLen[..routeHelper.nNetLen][i];
    }

    /** The owner of a live route, as it is stored. */
    lemma OwnerIsStored(key: Key)
      requires Valid() && Live(state, key)
      ensures key in vhash.contents && vhash.contents[key].owner == state.routes[key].owner
    {
    }

    /** The loop over the prefix lengths in use. */
    method SearchPrefixes(addr: Key) returns (ret: Option<int>)
      requires Valid() && IsHost(addr)
      modifies vhash.buckets
      ensures Valid() && ret == Search(state, addr, AllLengths(state.refcount))
    {
      hide AllLengths, Search, Live, And, vhash.Valid, routeHelper.Valid, Stores;
      ghost var lengths := AllLengths(state.refcount);
      LengthsIndexed();
      ret := None;
      var i := 0;
      assert lengths[0..] == lengths;
      while i < routeHelper.nNetLen
        invariant Valid() && 0 <= i <= routeHelper.nNetLen && ret == None
        invariant routeHelper.nNetLen == |lengths| <= routeHelper.netLen.Length
        invariant forall j :: 0 <= j < |lengths| ==> routeHelper.netLen[j] == lengths[j]
        invariant Search(state, addr, lengths) == Search(state, addr, lengths[i..])
        decreases routeHelper.nNetLen - i
      {
        SearchMore(state, addr, lengths, i);
        var tryaddr := PrefixKey(addr, routeHelper.netLen[i]);
        var route := LiveRoute(tryaddr);
        if route.Some? {
          OwnerIsStored(tryaddr);
          return Some(route.value.owner);
        }
        i := i + 1;
      }
      SearchEnd(state, addr, lengths);
    }

    /** multi_get_instance_by_virtual_addr */
    method GetInstanceByVirtualAddr(addr: Key, cidrRouting: bool, allowed: bool) returns (ret: Option<int>)
      requires Valid() && (cidrRouting ==> IsHost(addr))
      modifies this`state, vhash, vhash.buckets
      ensures Valid() && (state, ret) == Lookup(old(state), addr, cidrRouting, allowed)
      ensures Inv(old(state)) && cidrRouting && addr != local && NoWrap(old(state), addr) ==>
                ret == BestMatch(old(state), addr) && (ret.Some? ==> ret.value !in halted)
    {
      hide Inv, BestMatch, NoWrap, vhash.Valid, routeHelper.Valid, AllLengths, And;
      if Inv(state) && cidrRouting && addr != local && NoWrap(state, addr) {
        LookupAgrees(state, addr, allowed);
      }
      if addr == local {
        return None;
      }
      var route := LiveRoute(addr);
      if route.Some? {
        ret := Some(route.value.owner);
        Touch(addr, route.value);
      } else if cidrRouting {
        ret := SearchPrefixes(addr);
        if ret.Some? {
          var _ := LearnAddr(ret.value, addr, true, allowed);
        }
      } else {
        ret := None;
      }
    }

    /** One turn of multi_add_iroutes. */
    method AddOneIroute(mi: int, ir: Iroute, allowed: bool)
      requires Valid() && ir.netbits < MR_HELPER_NET_LEN
      modifies this`state, vhash, vhash.buckets, routeHelper, routeHelper.netLen, routeHelper.netLenRefcount
      ensures Valid() && state == AddIroute(old(state), mi, ir, allowed)
    {
      hide vhash.Valid, routeHelper.Valid, Stores, Learn, AllLengths;
      NextWord(state.generation, routeHelper.cacheGeneration);
      routeHelper.AddIroute(ir.netbits);
      if ir.netbits >= 0 {
        state := state.(generation := state.generation + 1, active := state.active + [Hold(mi, ir.netbits)],
                        refcount := state.refcount[ir.netbits := state.refcount[ir.netbits] + 1]);
      }
      var _ := LearnAddr(mi, IrouteKey(ir), false, allowed);
    }

    /** multi_add_iroutes */
    method AddIroutes(mi: int, irs: seq<Iroute>, allowed: seq<bool>)
      requires Valid() && |irs| == |allowed| && forall i :: 0 <= i < |irs| ==> irs[i].netbits < MR_HELPER_NET_LEN
      modifies this`state, vhash, vhash.buckets, routeHelper, routeHelper.netLen, routeHelper.netLenRefcount
      ensures Valid() && |old(state).refcount| == MR_HELPER_NET_LEN
      ensures state == IroutesAdded(old(state), mi, irs, allowed, |irs|)
      ensures Registered(state.active, mi) == Registered(old(state).active, mi) + NetLengths(irs)
    {
      for i := 0 to |irs|
        invariant Valid() && |old(state).refcount| == MR_HELPER_NET_LEN
        invariant state == IroutesAdded(old(state), mi, irs, allowed, i)
      {
        AddOneIroute(mi, irs[i], allowed[i]);
      }
      IroutesAreRegistered(old(state), mi, irs, allowed, |irs|);
      assert irs[..|irs|] == irs;
    }

    /** The route side of multi_close_instance. */
    method CloseInstance(mi: int, irs: seq<Iroute>)
      requires Valid() && Inv(state) && mi !in halted
      requires NetLengths(irs) == Registered(state.active, mi)
      requires forall i :: 0 <= i < |irs| ==> irs[i].netbits < MR_HELPER_NET_LEN
      modifies this`state, this`halted, routeHelper, routeHelper.netLen, routeHelper.netLenRefcount
      ensures Valid() && Enabled(old(state), Disconnect(mi)) && state == Close(old(state), mi)
    {
      hide vhash.Valid, routeHelper.Valid, Stores, AllLengths, Released, RoutesAgree, Registered, NetLengths, Without;
      halted := halted + {mi};
      CloseKeepsInv(state, mi);
      DelIroutes(routeHelper, irs, state.generation);
      state := Close(state, mi);
    }

    /** The walk of multi_reap_range. */
    method MarkUndefined(hi: HashIterator<Key, Route>)
      requires hi.Valid() && hi.seen == hi.deleted == {} && hi.table == vhash
      requires {this, routeHelper} !! {hi, vhash, vhash.buckets}
      modifies hi, vhash`nElements, vhash`contents, vhash.buckets
      ensures hi.Valid()
      ensures hi.Walking(None, Stale(halted, routeHelper.cacheGeneration, ttl, now))
    {
      hide hi.TableValid, hi.PlaceValid, hi.SeenValid, hi.Unseen, Decided;
      ghost var doomed := Stale(halted, routeHelper.cacheGeneration, ttl, now);
      DecideNone(hi.snapshot, doomed);
      var he := hi.NextToDecide(doomed);
      while he.Some?
        invariant hi.Valid() && hi.Walking(he, doomed)
        decreases hi.Unseen(), he.Some?
      {
        Decide(hi.seen, hi.deleted, hi.snapshot, doomed, he.value.key.value);
        if !RouteDefined(he.value.value) {
          hi.DeleteElement();
        }
        he := hi.NextToDecide(doomed);
      }
    }

    /** multi_reap_range */
    method ReapRange(start: int, end: int)
      requires Valid() && (start >= 0 ==> start <= vhash.buckets.Length && start <= end)
      modifies this`state, vhash`nElements, vhash`contents, vhash.buckets
      ensures Valid()
      ensures var last := vhash.buckets.Length;
              state == Reap(old(state), if start < 0 then KeysBetween(old(state), vhash.hash, vhash.mask, 0, last)
                                        else KeysBetween(old(state), vhash.hash, vhash.mask, start, end))
    {
      hide vhash.Valid, routeHelper.Valid, Stores, AllLengths, KeysBetween, Reap;
      if start < 0 {
        ReapBuckets(0, vhash.buckets.Length);
      } else {
        ReapBuckets(start, end);
      }
    }

    method ReapBuckets(start: int, end: int)
      requires Valid() && 0 <= start <= vhash.buckets.Length && start <= end
      modifies this`state, vhash`nElements, vhash`contents, vhash.buckets
      ensures Valid() && state == Reap(old(state), KeysBetween(old(state), vhash.hash, vhash.mask, start, end))
    {
      hide vhash.Valid, routeHelper.Valid, Stores, AllLengths, Stale, Reap;
      RemoveStale(start, end);
      StaleIsReaped(old(vhash.contents), vhash.contents, state, routeHelper.cacheGeneration, vhash.hash,
                vhash.mask, start, end);
      state := Reap(state, KeysBetween(state, vhash.hash, vhash.mask, start, end));
    }

    method RemoveStale(start: int, end: int)
      requires Shape() && vhash.Valid() && 0 <= start <= vhash.buckets.Length && start <= end
      modifies vhash`nElements, vhash`contents, vhash.buckets
      ensures vhash.Valid()
      ensures forall key :: key in vhash.contents <==>
                key in old(vhash.contents) && !(start <= And(vhash.hash(key), vhash.mask) < end &&
                  Stale(halted, routeHelper.cacheGeneration, ttl, now)(key, old(vhash.contents)[key]))
      ensures forall key :: key in vhash.contents ==> vhash.contents[key] == old(vhash.contents)[key]
    {
      hide vhash.Valid, Stale, And, Decided, InChain, routeHelper.Valid, HashIterator.TableValid,
        HashIterator.PlaceValid, HashIterator.SeenValid, HashIterator.Walking;
      var hi := new HashIterator(vhash, start, end);
      MarkUndefined(hi);
      hi.WalkDecided(Stale(halted, routeHelper.cacheGeneration, ttl, now));
      hi.Free();
      forall key {
        vhash.BucketInTable(key);
      }
    }

    /** multi_reap_process_dowork */
    method ReapProcess()
      requires Valid()
      modifies this`state, this`bucketBase, vhash`nElements, vhash`contents, vhash.buckets
      ensures Valid()
      ensures var start := Start(old(bucketBase), vhash.buckets.Length);
              && bucketBase == start + bucketsPerPass
              && state == Reap(old(state),
                               KeysBetween(old(state), vhash.hash, vhash.mask, start, start + bucketsPerPass))
    {
      hide vhash.Valid, routeHelper.Valid, Stores, AllLengths, KeysBetween, Reap;
      if bucketBase >= vhash.buckets.Length {
        bucketBase := 0;
      }
      ReapRange(bucketBase, bucketBase + bucketsPerPass);
      bucketBase := bucketBase + bucketsPerPass;
    }
  }
}
