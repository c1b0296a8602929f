/** The 32-bit generation of cached routes: when it cannot come round, and a run in
    which it does. */
module RoutingWrap {
  import opened Bits
  import opened Buffers
  import opened Mroute
  import opened Options
  import opened Routing
  import opened RoutingRuns

  // When it cannot

  /** Fewer than 2^32 iroute changes within any span of the time-to-live. */
  ghost predicate Calm(states: seq<Server>) {
    forall j, k :: 0 <= j <= k < |states| && states[k].now - states[j].now <= states[k].ttl ==>
      states[k].generation - states[j].generation < WORD
  }

  /** A cached route was current when it was last referred to. */
  ghost predicate WasCurrent(states: seq<Server>, n: nat, r: Route) {
    exists j :: 0 <= j <= n && j < |states| && states[j].now == r.lastReference && states[j].generation == r.generation
  }

  ghost predicate CachedWereCurrent(states: seq<Server>, n: nat)
    requires n < |states|
  {
    forall key :: key in states[n].routes && states[n].routes[key].cached ==>
      states[n].routes[key].ageable && WasCurrent(states, n, states[n].routes[key])
  }

  /** A live cached route is then exactly current. */
  lemma LiveIsCurrent(states: seq<Server>, n: nat, key: Key)
    requires n < |states| && Calm(states) && CachedWereCurrent(states, n) && Inv(states[n])
    ensures NoWrap(states[n], key)
  {
    var s := states[n];
    if Live(s, key) && s.routes[key].cached {
      var r := s.routes[key];
      assert CachedRoute(s, key);
      var j :| 0 <= j <= n && states[j].now == r.lastReference && states[j].generation == r.generation;
      SameRemainder(r.generation, s.generation);
    }
  }

  lemma SameRemainder(a: nat, b: nat)
    requires a <= b < a + WORD && a % WORD == b % WORD
    ensures a == b
  {
  }

  /** What one step does to a cached route: it is as before, or it has just been
      referred to and is as current as the state. */
  lemma CachedNext(s: Server, a: Action, key: Key)
    requires Enabled(s, a) && forall k :: NoWrap(s, k)
    requires forall k :: k in s.routes && s.routes[k].cached ==> s.routes[k].ageable
    ensures var s' := Next(s, a);
            key in s'.routes && s'.routes[key].cached ==>
              && s'.routes[key].ageable
              && ((key in s.routes && s'.routes[key] == s.routes[key])
                  || (s'.routes[key].lastReference == s.now && s'.routes[key].generation == s.generation))
  {
    hide Search, Or, And, MaskHostBits, Released, Learnable;
    assert NoWrap(s, key);
  }

  lemma {:induction false} CachedWereCurrentInRun(states: seq<Server>, actions: seq<Action>, n: nat)
    requires Behaviour(states, actions) && Calm(states) && n < |states|
    ensures CachedWereCurrent(states, n)
  {
    if n > 0 {
      CachedWereCurrentInRun(states, actions, n - 1);
      BehaviourInv(states, actions, n - 1);
      var s, s' := states[n - 1], states[n];
      forall key
        ensures NoWrap(s, key)
      {
        LiveIsCurrent(states, n - 1, key);
      }
      forall key | key in s'.routes && s'.routes[key].cached
        ensures s'.routes[key].ageable && WasCurrent(states, n, s'.routes[key])
      {
        CachedNext(s, actions[n - 1], key);
        if key in s.routes && s'.routes[key] == s.routes[key] {
          assert WasCurrent(states, n - 1, s.routes[key]);
        }
      }
    }
  }

  /** In a run with fewer than 2^32 iroute changes within any ttl seconds, the cached
      lookup returns the client of the cache-free search in every state. */
  lemma CacheAgreesInCalmRun(states: seq<Server>, actions: seq<Action>, k: nat, key: Key, allowed: bool)
    requires Behaviour(states, actions) && Calm(states) && k < |states| && IsHost(key) && key != states[k].local
    ensures Lookup(states[k], key, true, allowed).1 == BestMatch(states[k], key)
  {
    CachedWereCurrentInRun(states, actions, k);
    BehaviourInv(states, actions, k);
    LiveIsCurrent(states, k, key);
    CacheAgreesInEveryRun(states, actions, k, key, allowed);
  }

  // A run in which it does

  /** A host, and the n-bit network it lies in; both can be learned. */
  ghost predicate Hosted(host: Key, n: nat, local: Key) {
    && IsHost(host) && n < MR_HELPER_NET_LEN && Learnable(host) && Learnable(PrefixKey(host, n))
    && host != local && PrefixKey(host, n) != local
  }

  function NetworkOf(host: Key, n: nat): Iroute
    requires IsHost(host)
  {
    Iroute(MaskHostBits(host.bytes, n), n)
  }

  function Fresh(local: Key, now: int, ttl: int): Server {
    Server(map[], {}, 0, seq(MR_HELPER_NET_LEN, _ => 0), [], now, ttl, local)
  }

  /** The host is cached for client 1 at generation 1, and the network is now owned by
      client 2. */
  ghost predicate Outdated(s: Server, host: Key, n: nat, local: Key, now: int, ttl: int)
    requires IsHost(host)
  {
    && s.routes == map[host := Route(1, true, true, 1, now), PrefixKey(host, n) := Route(2, false, false, 0, now)]
    && s.halted == {} && |s.refcount| == MR_HELPER_NET_LEN && s.local == local && s.now == now && s.ttl == ttl
  }

  lemma IrouteIsEnabled(s: Server, mi: int, host: Key, n: nat, local: Key)
    requires Hosted(host, n, local) && s.halted == {} && |s.refcount| == MR_HELPER_NET_LEN
    ensures Enabled(s, Iroutes(mi, NetworkOf(host, n), true)) && IrouteKey(NetworkOf(host, n)) == PrefixKey(host, n)
  {
    MaskIsNetwork(host.bytes, n);
  }

  /** With the network of client 1 alone the lookup caches client 1 for the host. */
  lemma FirstLookup(s: Server, host: Key, n: nat, local: Key, now: int, ttl: nat)
    requires Hosted(host, n, local) && |s.refcount| == MR_HELPER_NET_LEN
    requires s.routes == map[PrefixKey(host, n) := Route(1, false, false, 0, now)] && s.halted == {}
    requires s.generation == 1 && s.local == local && s.now == now && s.ttl == ttl
    requires forall i :: 0 <= i < MR_HELPER_NET_LEN ==> s.refcount[i] == if i == n then 1 else 0
    ensures Lookup(s, host, true, true).0 == s.(routes := s.routes[host := Route(1, true, true, 1, now)])
  {
    hide Or, And, MaskHostBits, Learnable, Lengths;
    NetKindIsPrefix();
    OnlyLength(s.refcount, n, MR_HELPER_NET_LEN);
    assert Search(s, host, [n]) == Some(1);
  }

  /** Client 1 registers the network, the host is looked up, and client 2 registers the
      network too. */
  lemma FirstSteps(host: Key, n: nat, local: Key, now: int, ttl: nat)
    returns (states: seq<Server>, actions: seq<Action>)
    requires Hosted(host, n, local)
    ensures Behaviour(states, actions) && |states| == 4
    ensures Outdated(states[3], host, n, local, now, ttl) && states[3].generation == 2
  {
    hide Or, And, MaskHostBits, Learnable, Lookup, Lengths;
    var ir, p := NetworkOf(host, n), PrefixKey(host, n);
    NetKindIsPrefix();
    var s0 := Fresh(local, now, ttl);
    IrouteIsEnabled(s0, 1, host, n, local);
    var s1 := AddIroute(s0, 1, ir, true);
    assert s1.routes == map[p := Route(1, false, false, 0, now)] && s1.refcount == s0.refcount[n := 1];
    FirstLookup(s1, host, n, local, now, ttl);
    var s2 := Lookup(s1, host, true, true).0;
    IrouteIsEnabled(s2, 2, host, n, local);
    var s3 := AddIroute(s2, 2, ir, true);
    states := [s0, s1, s2, s3];
    actions := [Iroutes(1, ir, true), LookUp(host, true, true), Iroutes(2, ir, true)];
  }

  lemma {:induction false} OnlyLength(refcount: seq<int>, n: nat, k: nat)
    requires n < |refcount| && k <= |refcount|
    requires forall i :: 0 <= i < |refcount| ==> refcount[i] == if i == n then 1 else 0
    ensures Lengths(refcount, k) == if n < k then [n] else []
  {
    if k > 0 {
      OnlyLength(refcount, n, k - 1);
    }
  }

  lemma BehaviourGoesOn(states: seq<Server>, actions: seq<Action>, a: Action)
    requires Behaviour(states, actions) && Enabled(states[|states| - 1], a)
    ensures Behaviour(states + [Next(states[|states| - 1], a)], actions + [a])
  {
    hide Next, Initial, Enabled;
  }

  /** Every further registration by client 2 changes the generation and no route. */
  lemma {:induction false} Registrations(host: Key, n: nat, local: Key, now: int, ttl: nat, j: nat)
    returns (states: seq<Server>, actions: seq<Action>)
    requires Hosted(host, n, local)
    ensures Behaviour(states, actions) && |states| == 4 + j
    ensures Outdated(states[|states| - 1], host, n, local, now, ttl) && states[|states| - 1].generation == 2 + j
  {
    if j == 0 {
      states, actions := FirstSteps(host, n, local, now, ttl);
    } else {
      hide Or, And, MaskHostBits, Learnable, Next, Initial, Enabled, Outdated, Behaviour, Hosted;
      states, actions := Registrations(host, n, local, now, ttl, j - 1);
      var s, a := states[|states| - 1], Iroutes(2, NetworkOf(host, n), true);
      OneMoreRegistration(s, host, n, local, now, ttl);
      BehaviourGoesOn(states, actions, a);
      states, actions := states + [Next(s, a)], actions + [a];
    }
  }

  lemma OneMoreRegistration(s: Server, host: Key, n: nat, local: Key, now: int, ttl: nat)
    requires Hosted(host, n, local) && Outdated(s, host, n, local, now, ttl)
    ensures Enabled(s, Iroutes(2, NetworkOf(host, n), true))
    ensures var s' := Next(s, Iroutes(2, NetworkOf(host, n), true));
            Outdated(s', host, n, local, now, ttl) && s'.generation == s.generation + 1
  {
    hide Or, And, MaskHostBits, Learnable;
    IrouteIsEnabled(s, 2, host, n, local);
    NetKindIsPrefix();
  }

  /** The program can get there: after 2^32 changes of iroutes the route cached for
      client 1 is current again, and the lookup gives client 1 although client 2 owns
      the only network the host lies in. */
  lemma WrapIsReached(host: Key, n: nat, local: Key, now: int, ttl: nat, allowed: bool)
    returns (states: seq<Server>, actions: seq<Action>)
    requires Hosted(host, n, local)
    ensures Behaviour(states, actions) && |states| > 0
    ensures var s := states[|states| - 1];
            && !NoWrap(s, host)
            && Lookup(s, host, true, allowed).1 == Some(1) && BestMatch(s, host) == Some(2)
  {
    hide Or, And, MaskHostBits, Learnable;
    states, actions := Registrations(host, n, local, now, ttl, WORD - 1);
    var s := states[|states| - 1];
    NetKindIsPrefix();
    assert Live(s, host) && Live(s, PrefixKey(host, n));
    var best := PrefixOwnerAt(s, host, MR_HELPER_NET_LEN);
  }

  /** For one, 10.1.2.3 in the network 10.0.0.0/8. */
  lemma SomeHostIsHosted(local: Key) returns (host: Key)
    requires local.kind == MR_ADDR_IPV4 && local.bytes == [10, 0, 0, 1]
    ensures Hosted(host, 8, local)
  {
    host := Key(MR_ADDR_IPV4, 0, [10, 1, 2, 3]);
    var network: seq<Byte> := [10, 0, 0, 0];
    hide MaskHostBits;
    assert Pow2(24) == 0x100_0000 by {
      assert Pow2(4) == 16 && Pow2(8) == 0x100 && Pow2(12) == 0x1000 && Pow2(16) == 0x1_0000 && Pow2(20) == 0x10_0000;
    }
    MaskFindsNetwork(host.bytes, network, 8);
    NetKindIsPrefix();
    assert host.bytes[0] == 10 && network[0] == 10;
    assert And(10, MR_ADDR_MASK) == 2 && And(2, MR_ADDR_MASK) == 2;
  }
}
