/** Every operation keeps the routing invariant, so the cached lookup agrees with
    the cache-free one in every state that can be reached. */
module RoutingRuns {
  import opened Bits
  import opened Mroute
  import opened Routing
  import opened Options

  /** Both states have the same live prefix routes. */
  ghost predicate SamePrefixes(s: Server, s': Server) {
    forall p: Key | IsPrefix(p) ::
      (Live(s, p) <==> Live(s', p)) && (Live(s, p) ==> s.routes[p].owner == s'.routes[p].owner)
  }

  lemma {:induction false} PrefixOwnerSame(s: Server, s': Server, key: Key, n: nat)
    requires SamePrefixes(s, s') && IsHost(key)
    ensures PrefixOwner(s, key, n) == PrefixOwner(s', key, n)
  {
    if n > 0 {
      NetKindIsPrefix();
      PrefixOwnerSame(s, s', key, n - 1);
      assert IsPrefix(PrefixKey(key, n - 1));
    }
  }

  /** An invariant route table stays one if its live prefix routes, client counts
      and generation stay, and every changed route fits. */
  lemma RoutesKeepAgreeing(s: Server, s': Server)
    requires Inv(s) && SamePrefixes(s, s')
    requires s'.refcount == s.refcount && s'.active == s.active && s'.halted == s.halted
    requires s'.generation == s.generation
    requires forall key | key in s'.routes ::
               key in s.routes && s'.routes[key].(lastReference := 0) == s.routes[key].(lastReference := 0)
    ensures Inv(s')
  {
    forall key | key in s'.routes && s'.routes[key].cached
      ensures CachedRoute(s', key)
    {
      assert CachedRoute(s, key);
      PrefixOwnerSame(s, s', key, MR_HELPER_NET_LEN);
    }
    forall key | key in s'.routes && IsPrefix(key)
      ensures PrefixRoute(s', key)
    {
      assert PrefixRoute(s, key);
    }
  }

  lemma TickKeepsInv(s: Server, now: int)
    requires Inv(s)
    ensures Inv(s.(now := now))
  {
    RoutesKeepAgreeing(s, s.(now := now));
  }

  lemma ReapKeepsInv(s: Server, visited: set<Key>)
    requires Inv(s)
    ensures Inv(Reap(s, visited))
    ensures forall key :: Live(Reap(s, visited), key) <==> Live(s, key)
  {
    RoutesKeepAgreeing(s, Reap(s, visited));
  }

  /** Learning a host route, cached or not, leaves the prefixes alone. */
  lemma LearnHostKeepsInv(s: Server, mi: int, key: Key, cache: bool, allowed: bool)
    requires Inv(s) && mi !in s.halted && !IsPrefix(key)
    requires cache ==> IsHost(key) && PrefixOwner(s, key, MR_HELPER_NET_LEN) == Some(mi)
    ensures Inv(Learn(s, mi, key, cache, allowed).0)
  {
    var s' := Learn(s, mi, key, cache, allowed).0;
    assert SamePrefixes(s, s');
    forall k | k in s'.routes && s'.routes[k].cached
      ensures CachedRoute(s', k)
    {
      if k != key {
        assert CachedRoute(s, k);
      } else if s' == s {
        assert CachedRoute(s, k);
      }
      PrefixOwnerSame(s, s', k, MR_HELPER_NET_LEN);
    }
    forall k | k in s'.routes && IsPrefix(k)
      ensures PrefixRoute(s', k)
    {
      assert PrefixRoute(s, k);
    }
  }

  /** Learning a prefix route is safe because the generation has just changed: no
      cached route is current. */
  lemma LearnPrefixKeepsInv(s: Server, mi: int, key: Key, allowed: bool)
    requires Inv(s) && mi !in s.halted
    requires key.kind == NetKind() && key.netbits < MR_HELPER_NET_LEN && IsNetwork(key.bytes, key.netbits)
    requires Hold(mi, key.netbits) in s.active
    requires forall k | k in s.routes && s.routes[k].cached :: s.routes[k].generation < s.generation
    ensures Inv(Learn(s, mi, key, false, allowed).0)
  {
    var s' := Learn(s, mi, key, false, allowed).0;
    NetKindIsPrefix();
    forall k | k in s'.routes && s'.routes[k].cached
      ensures CachedRoute(s', k)
    {
      assert CachedRoute(s, k);
    }
    forall k | k in s'.routes && IsPrefix(k)
      ensures PrefixRoute(s', k)
    {
      if k != key {
        assert PrefixRoute(s, k);
      }
    }
  }

  lemma {:induction false} TotalOfAppend(active: seq<Hold>, h: Hold, n: nat)
    ensures Total(active + [h], n) == Total(active, n) + (if h.netbits == n then 1 else 0)
  {
    if active == [] {
      assert active + [h] == [h] && [h][1..] == [];
    } else {
      TotalOfAppend(active[1..], h, n);
      assert (active + [h])[1..] == active[1..] + [h];
    }
  }

  /** A well-formed iroute: a network of its length, or a host address. */
  predicate ValidIroute(ir: Iroute) {
    ir.netbits < MR_HELPER_NET_LEN && |ir.network| == 4 && (ir.netbits >= 0 ==> IsNetwork(ir.network, ir.netbits))
  }

  lemma CountKeepsInv(s: Server, mi: int, n: nat)
    requires Inv(s) && mi !in s.halted && n < MR_HELPER_NET_LEN
    ensures var s' := s.(generation := s.generation + 1, active := s.active + [Hold(mi, n)],
                         refcount := s.refcount[n := s.refcount[n] + 1]);
            Inv(s') && Hold(mi, n) in s'.active
            && forall k | k in s'.routes && s'.routes[k].cached :: s'.routes[k].generation < s'.generation
  {
    var h := Hold(mi, n);
    var s' := s.(generation := s.generation + 1, active := s.active + [h],
                 refcount := s.refcount[n := s.refcount[n] + 1]);
    forall m: nat | m < MR_HELPER_NET_LEN
      ensures s'.refcount[m] == Total(s'.active, m)
    {
      TotalOfAppend(s.active, h, m);
    }
    assert s'.active[|s.active|] == h;
    forall k | k in s'.routes && IsPrefix(k)
      ensures PrefixRoute(s', k)
    {
      assert PrefixRoute(s, k);
    }
    forall k | k in s'.routes && s'.routes[k].cached
      ensures CachedRoute(s', k) && s'.routes[k].generation < s'.generation
    {
      assert CachedRoute(s, k);
    }
  }

  lemma AddIrouteKeepsInv(s: Server, mi: int, ir: Iroute, allowed: bool)
    requires Inv(s) && mi !in s.halted && ValidIroute(ir)
    ensures Inv(AddIroute(s, mi, ir, allowed))
  {
    hide Learn, Or, And;
    NetKindIsPrefix();
    if ir.netbits < 0 {
      LearnHostKeepsInv(s, mi, IrouteKey(ir), false, allowed);
    } else {
      CountKeepsInv(s, mi, ir.netbits);
      var counted := s.(generation := s.generation + 1, active := s.active + [Hold(mi, ir.netbits)],
                        refcount := s.refcount[ir.netbits := s.refcount[ir.netbits] + 1]);
      LearnPrefixKeepsInv(counted, mi, IrouteKey(ir), allowed);
    }
  }

  lemma LookupKeepsInv(s: Server, key: Key, cidr: bool, allowed: bool)
    requires Inv(s) && !IsPrefix(key) && (cidr ==> IsHost(key))
    ensures Inv(Lookup(s, key, cidr, allowed).0)
  {
    if key != s.local {
      if Live(s, key) {
        RoutesKeepAgreeing(s, Lookup(s, key, cidr, allowed).0);
      } else if cidr && Search(s, key, AllLengths(s.refcount)).Some? {
        SearchFindsLongest(s, key, MR_HELPER_NET_LEN);
        PrefixOwnerIsConnected(s, key, MR_HELPER_NET_LEN);
        LearnHostKeepsInv(s, Search(s, key, AllLengths(s.refcount)).value, key, true, allowed);
      }
    }
  }

  // Closing a client

  function CountIn(lengths: seq<nat>, n: nat): nat {
    if lengths == [] then 0 else (if lengths[0] == n then 1 else 0) + CountIn(lengths[1..], n)
  }

  lemma {:induction false} WithoutCounts(active: seq<Hold>, mi: int, n: nat)
    ensures Total(Without(active, mi), n) == Total(active, n) - CountIn(Registered(active, mi), n)
  {
    if active != [] {
      WithoutCounts(active[1..], mi, n);
      var rest := Registered(active[1..], mi);
      if active[0].owner == mi {
        assert Registered(active, mi)[1..] == rest;
        assert Without(active, mi) == Without(active[1..], mi);
      } else {
        assert Registered(active, mi) == rest;
        assert Without(active, mi)[1..] == Without(active[1..], mi);
      }
    }
  }

  lemma {:induction false} WithoutKeepsOthers(active: seq<Hold>, mi: int, h: Hold)
    ensures h in Without(active, mi) <==> h in active && h.owner != mi
  {
    if active != [] {
      WithoutKeepsOthers(active[1..], mi, h);
    }
  }

  lemma {:induction false} RegisteredInRange(active: seq<Hold>, mi: int, bound: nat)
    requires forall i :: 0 <= i < |active| ==> active[i].netbits < bound
    ensures forall i :: 0 <= i < |Registered(active, mi)| ==> Registered(active, mi)[i] < bound
  {
    if active != [] {
      RegisteredInRange(active[1..], mi, bound);
    }
  }

  /** Releasing lowers each count by the client's share, and no count on the way
      falls below zero, as the source asserts. */
  lemma {:induction false} ReleasedCounts(refcount: seq<int>, lengths: seq<nat>, n: nat)
    requires forall i :: 0 <= i < |lengths| ==> lengths[i] < |refcount|
    requires n < |refcount|
    ensures Released(refcount, lengths)[n] == refcount[n] - CountIn(lengths, n)
    decreases |lengths|
  {
    if lengths != [] {
      ReleasedCounts(refcount[lengths[0] := refcount[lengths[0]] - 1], lengths[1..], n);
    }
  }

  /** Disconnecting someone else cannot change the first live prefix found. */
  lemma {:induction false} CloseKeepsOthersPrefix(s: Server, s': Server, mi: int, key: Key, n: nat)
    requires IsHost(key) && s'.halted == s.halted + {mi} && s'.routes == s.routes && s'.now == s.now && s'.ttl == s.ttl
    requires RoutesAgree(s) && PrefixOwner(s, key, n).Some? && PrefixOwner(s, key, n).value != mi
    ensures PrefixOwner(s', key, n) == PrefixOwner(s, key, n)
  {
    if n > 0 {
      NetKindIsPrefix();
      assert IsPrefix(PrefixKey(key, n - 1));
      if !Live(s, PrefixKey(key, n - 1)) {
        CloseKeepsOthersPrefix(s, s', mi, key, n - 1);
      }
    }
  }

  lemma CloseKeepsInv(s: Server, mi: int)
    requires Inv(s)
    ensures forall i :: 0 <= i < |Registered(s.active, mi)| ==> Registered(s.active, mi)[i] < |s.refcount|
    ensures Inv(Close(s, mi))
    ensures forall n: nat | n < MR_HELPER_NET_LEN :: s.refcount[n] >= CountIn(Registered(s.active, mi), n)
  {
    RegisteredInRange(s.active, mi, MR_HELPER_NET_LEN);
    var s' := Close(s, mi);
    forall n: nat | n < MR_HELPER_NET_LEN
      ensures s'.refcount[n] == Total(s'.active, n) && s.refcount[n] >= CountIn(Registered(s.active, mi), n)
    {
      ReleasedCounts(s.refcount, Registered(s.active, mi), n);
      WithoutCounts(s.active, mi, n);
    }
    forall i | 0 <= i < |s'.active|
      ensures s'.active[i].netbits < MR_HELPER_NET_LEN && s'.active[i].owner !in s'.halted
    {
      WithoutKeepsOthers(s.active, mi, s'.active[i]);
    }
    forall k | k in s'.routes && IsPrefix(k)
      ensures PrefixRoute(s', k)
    {
      assert PrefixRoute(s, k);
      WithoutKeepsOthers(s.active, mi, Hold(s.routes[k].owner, k.netbits));
    }
    forall k | k in s'.routes && s'.routes[k].cached
      ensures CachedRoute(s', k)
    {
      assert CachedRoute(s, k);
      var r := s.routes[k];
      if r.generation == s'.generation && r.owner !in s'.halted {
        CloseKeepsOthersPrefix(s, s', mi, k, MR_HELPER_NET_LEN);
      }
    }
  }

  // Whole runs

  datatype Action =
    | Iroutes(mi: int, ir: Iroute, allowed: bool)           // one iroute of a connected client
    | LearnHost(mi: int, key: Key, allowed: bool)           // a host route of a connected client
    | LookUp(key: Key, cidr: bool, allowed: bool)
    | Disconnect(mi: int)
    | ReapPass(visited: set<Key>)
    | Clock(now: int)

  /** Only connected clients act.  The bounds on prefix lengths are asserted by the
      source; CloseKeepsInv shows that the second assertion always holds. */
  predicate Enabled(s: Server, a: Action) {
    match a
    case Iroutes(mi, ir, _) => mi !in s.halted && ValidIroute(ir) && ir.netbits < |s.refcount|
    case LearnHost(mi, key, _) => mi !in s.halted && !IsPrefix(key)
    case LookUp(key, cidr, _) => !IsPrefix(key) && (cidr ==> IsHost(key))
    case Disconnect(mi) =>
      var lengths := Registered(s.active, mi);
      mi !in s.halted && forall i :: 0 <= i < |lengths| ==> lengths[i] < |s.refcount|
    case _ => true
  }

  function Next(s: Server, a: Action): Server
    requires Enabled(s, a)
  {
    match a
    case Iroutes(mi, ir, allowed) => AddIroute(s, mi, ir, allowed)
    case LearnHost(mi, key, allowed) => Learn(s, mi, key, false, allowed).0
    case LookUp(key, cidr, allowed) => Lookup(s, key, cidr, allowed).0
    case Disconnect(mi) => Close(s, mi)
    case ReapPass(visited) => Reap(s, visited)
    case Clock(now) => s.(now := now)
  }

  lemma NextKeepsInv(s: Server, a: Action)
    requires Inv(s) && Enabled(s, a)
    ensures Inv(Next(s, a))
  {
    match a
    case Iroutes(mi, ir, allowed) => AddIrouteKeepsInv(s, mi, ir, allowed);
    case LearnHost(mi, key, allowed) => LearnHostKeepsInv(s, mi, key, false, allowed);
    case LookUp(key, cidr, allowed) => LookupKeepsInv(s, key, cidr, allowed);
    case Disconnect(mi) => CloseKeepsInv(s, mi);
    case ReapPass(visited) => ReapKeepsInv(s, visited);
    case Clock(now) => TickKeepsInv(s, now);
  }

  predicate Initial(s: Server) {
    s.routes == map[] && s.generation == 0 && s.active == [] && s.refcount == seq(MR_HELPER_NET_LEN, _ => 0)
  }

  ghost predicate Behaviour(states: seq<Server>, actions: seq<Action>) {
    && |states| == |actions| + 1 && Initial(states[0])
    && forall k | 0 <= k < |actions| :: Enabled(states[k], actions[k]) && states[k + 1] == Next(states[k], actions[k])
  }

  lemma {:induction false} BehaviourInv(states: seq<Server>, actions: seq<Action>, k: nat)
    requires Behaviour(states, actions) && k < |states|
    ensures Inv(states[k])
  {
    if k > 0 {
      BehaviourInv(states, actions, k - 1);
      NextKeepsInv(states[k - 1], actions[k - 1]);
    }
  }

  /** In every state reached by adding and deleting iroutes, learning, looking up,
      closing, reaping and the passing of time, the cached lookup returns the client
      of the cache-free search: a live host route that was not cached, or else the
      live route whose network shares the most leading bits with the address. */
  lemma CacheAgreesInEveryRun(states: seq<Server>, actions: seq<Action>, k: nat, key: Key, allowed: bool)
    requires Behaviour(states, actions) && k < |states|
    requires IsHost(key) && key != states[k].local && NoWrap(states[k], key)
    ensures Lookup(states[k], key, true, allowed).1 == BestMatch(states[k], key)
    ensures !(Live(states[k], key) && !states[k].routes[key].cached) ==>
              LongestMatch(states[k], key, Lookup(states[k], key, true, allowed).1)
  {
    BehaviourInv(states, actions, k);
    LookupAgrees(states[k], key, allowed);
    PrefixOwnerIsLongest(states[k], key, MR_HELPER_NET_LEN);
  }

  /** A live route to a network the address lies in. */
  ghost predicate Covers(s: Server, p: Key, key: Key)
    requires IsHost(key)
  {
    && Live(s, p) && IsPrefix(p) && p.netbits <= 32 && |p.bytes| == 4
    && SamePrefix(FragmentHeader.FromNetwork(key.bytes), FragmentHeader.FromNetwork(p.bytes), p.netbits)
  }

  /** Section 5.1 of RFC 4632: the owner of the most specific covering route. */
  ghost predicate LongestMatch(s: Server, key: Key, owner: Option<int>)
    requires IsHost(key)
  {
    match owner
    case None => forall p: Key :: !Covers(s, p, key)
    case Some(mi) =>
      exists best: Key | Covers(s, best, key) ::
        s.routes[best].owner == mi && forall p: Key | Covers(s, p, key) :: p.netbits <= best.netbits
  }

  lemma CoversIsPrefixKey(s: Server, p: Key, key: Key)
    requires Inv(s) && IsHost(key) && p in s.routes && IsPrefix(p)
    ensures p.netbits < MR_HELPER_NET_LEN
    ensures Covers(s, p, key) <==> Live(s, p) && p == PrefixKey(key, p.netbits)
  {
    assert PrefixRoute(s, p);
    MaskFindsNetwork(key.bytes, p.bytes, p.netbits);
  }

  lemma {:induction false} PrefixOwnerAt(s: Server, key: Key, n: nat) returns (best: nat)
    requires IsHost(key)
    ensures match PrefixOwner(s, key, n)
            case None => forall m: nat | m < n :: !Live(s, PrefixKey(key, m))
            case Some(mi) => best < n && Live(s, PrefixKey(key, best)) && s.routes[PrefixKey(key, best)].owner == mi
                             && forall m: nat | best < m < n :: !Live(s, PrefixKey(key, m))
  {
    best := 0;
    if n > 0 {
      if Live(s, PrefixKey(key, n - 1)) {
        best := n - 1;
      } else {
        best := PrefixOwnerAt(s, key, n - 1);
      }
    }
  }

  lemma PrefixOwnerIsLongest(s: Server, key: Key, n: nat)
    requires Inv(s) && IsHost(key) && n == MR_HELPER_NET_LEN
    ensures LongestMatch(s, key, PrefixOwner(s, key, n))
  {
    hide PrefixOwner, Or, MaskHostBits, SamePrefix;
    var best := PrefixOwnerAt(s, key, n);
    NetKindIsPrefix();
    forall p: Key | Covers(s, p, key)
      ensures p.netbits < n && p == PrefixKey(key, p.netbits)
    {
      CoversIsPrefixKey(s, p, key);
    }
    if PrefixOwner(s, key, n).Some? {
      CoversIsPrefixKey(s, PrefixKey(key, best), key);
    }
  }

  // Where the code falls short of its purpose

  /** Learning a host route for good installs it, except where a live cached route
      of the same client is already in its place: that one stays, and goes with the
      next change of iroutes. */
  lemma CachedRouteHidesHostRoute(s: Server, mi: int, key: Key)
    requires mi !in s.halted && Learnable(key) && key != s.local
    ensures var routes := Learn(s, mi, key, false, true).0.routes;
            key in routes && routes[key].owner == mi
            && (routes[key].cached <==> Live(s, key) && s.routes[key].owner == mi && s.routes[key].cached)
  {
  }
}
