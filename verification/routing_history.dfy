/** What the table of routes does for its users, said by the history of a run: who
    learned an address last, and who is still connected. */
module RoutingHistory {
  import opened Bits
  import opened Buffers
  import opened Mroute
  import opened Options
  import opened Routing
  import opened RoutingRuns

  // One call of multi_learn_addr

  /** The owner returned is the client whose live route is then in the table.  Refused, or
      for an address that cannot be learned, the call changes nothing; otherwise the route
      is the caller's, and no other address is touched. */
  lemma LearnExactly(s: Server, mi: int, key: Key, cache: bool, allowed: bool)
    requires mi !in s.halted && s.ttl >= 0
    ensures var (s', owner) := Learn(s, mi, key, cache, allowed);
            && owner == (if Live(s', key) then Some(s'.routes[key].owner) else None)
            && (!allowed || !Learnable(key) || key == s.local ==> s' == s)
            && (allowed && Learnable(key) && key != s.local ==> owner == Some(mi))
            && (Live(s, key) && s.routes[key].owner == mi ==> s' == s)
            && s' == s.(routes := s'.routes) && s'.routes - {key} == s.routes - {key}
  {
  }

  /** An iroute without netmask is a route to that host for good: packets for it go to the
      client from then on. */
  lemma HostIrouteIsInstalled(s: Server, mi: int, network: seq<Byte>, cidr: bool, allowed: bool)
    requires mi !in s.halted && |network| == 4
    requires var key := Key(MR_ADDR_IPV4, 0, network); Learnable(key) && key != s.local
    ensures var s' := AddIroute(s, mi, Iroute(network, -1), true);
            Lookup(s', Key(MR_ADDR_IPV4, 0, network), cidr, allowed).1 == Some(mi)
  {
  }

  /** One with a netmask takes the packets for a host in the network, if no host route and
      no longer prefix does. */
  lemma NetworkIrouteIsInstalled(s: Server, mi: int, host: Key, n: nat, allowed: bool)
    requires Inv(s) && mi !in s.halted && IsHost(host) && n < MR_HELPER_NET_LEN && host != s.local
    requires Learnable(PrefixKey(host, n)) && PrefixKey(host, n) != s.local
    requires !(Live(s, host) && !s.routes[host].cached)
    requires forall m: nat :: n < m < MR_HELPER_NET_LEN ==> !Live(s, PrefixKey(host, m))
    requires var s' := AddIroute(s, mi, Iroute(PrefixKey(host, n).bytes, n), true); NoWrap(s', host)
    ensures Lookup(AddIroute(s, mi, Iroute(PrefixKey(host, n).bytes, n), true), host, true, allowed).1 == Some(mi)
  {
    hide Or, And, MaskHostBits, Lookup;
    var ir := Iroute(PrefixKey(host, n).bytes, n);
    var s' := AddIroute(s, mi, ir, true);
    NetKindIsPrefix();
    MaskIsNetwork(host.bytes, n);
    AddIrouteKeepsInv(s, mi, ir, true);
    LookupAgrees(s', host, allowed);
    forall m: nat | n < m < MR_HELPER_NET_LEN
      ensures !Live(s', PrefixKey(host, m))
    {
      assert PrefixKey(host, m) != PrefixKey(host, n);
    }
    LongestIs(s', host, n, MR_HELPER_NET_LEN);
  }

  lemma {:induction false} LongestIs(s: Server, key: Key, n: nat, k: nat)
    requires IsHost(key) && n < k && Live(s, PrefixKey(key, n))
    requires forall m: nat :: n < m < k ==> !Live(s, PrefixKey(key, m))
    ensures PrefixOwner(s, key, k) == Some(s.routes[PrefixKey(key, n)].owner)
  {
    if n + 1 < k {
      LongestIs(s, key, n, k - 1);
    }
  }

  /** A client found by its prefix is cached for the host, so that the next lookup needs no
      search. */
  lemma LookupCaches(s: Server, key: Key, later: int, cidr: bool, allowed: bool)
    requires IsHost(key) && key != s.local && !Live(s, key) && Learnable(key)
    requires s.now <= later <= s.now + s.ttl && Lookup(s, key, true, true).1.Some?
    ensures var (s', found) := Lookup(s, key, true, true);
            && s'.routes - {key} == s.routes - {key}
            && Live(s'.(now := later), key) && s'.routes[key].cached
            && Lookup(s'.(now := later), key, cidr, allowed).1 == found
  {
    SearchedIsConnected(s, key, AllLengths(s.refcount));
  }

  lemma {:induction false} SearchedIsConnected(s: Server, key: Key, lengths: seq<nat>)
    requires IsHost(key)
    ensures Search(s, key, lengths).Some? ==> Search(s, key, lengths).value !in s.halted
  {
    if lengths != [] {
      SearchedIsConnected(s, key, lengths[1..]);
    }
  }

  /** A packet for an address keeps its cached route for ttl seconds more. */
  lemma LookupRefreshes(s: Server, key: Key, cidr: bool, allowed: bool, later: int)
    requires (cidr ==> IsHost(key)) && key != s.local && Live(s, key) && s.now <= later <= s.now + s.ttl
    ensures Live(Lookup(s, key, cidr, allowed).0.(now := later), key)
  {
  }

  // Whole runs

  /** The action makes a client the owner of an address for good: it is allowed to learn
      it and has no live cached route of its own there, which would stay. */
  predicate LearnsForGood(s: Server, a: Action, key: Key, mi: int) {
    && Learnable(key) && key != s.local
    && !(Live(s, key) && s.routes[key].cached && s.routes[key].owner == mi)
    && match a
       case LearnHost(client, address, allowed) => client == mi && address == key && allowed
       case Iroutes(client, ir, allowed) =>
         client == mi && allowed && ir.netbits < 0 && key == Key(MR_ADDR_IPV4, 0, ir.network)
       case _ => false
  }

  /** The client that learned an address for good last, while it is connected. */
  ghost function LastLearner(states: seq<Server>, actions: seq<Action>, key: Key, k: nat): Option<int>
    requires k <= |actions| && k <= |states|
  {
    if k == 0 then None
    else
      var s, a, before := states[k - 1], actions[k - 1], LastLearner(states, actions, key, k - 1);
      if a.LearnHost? && LearnsForGood(s, a, key, a.mi) then Some(a.mi)
      else if a.Iroutes? && LearnsForGood(s, a, key, a.mi) then Some(a.mi)
      else if a.Disconnect? && before == Some(a.mi) then None
      else before
  }

  /** The owner of a live route that is not cached. */
  function HostOwner(s: Server, key: Key): Option<int> {
    if Live(s, key) && !s.routes[key].cached then Some(s.routes[key].owner) else None
  }

  /** One action changes it exactly as the history says. */
  lemma HostOwnerNext(s: Server, a: Action, key: Key)
    requires Inv(s) && Enabled(s, a) && !IsPrefix(key)
    ensures HostOwner(Next(s, a), key) ==
            if (a.LearnHost? || a.Iroutes?) && LearnsForGood(s, a, key, a.mi) then Some(a.mi)
            else if a.Disconnect? && HostOwner(s, key) == Some(a.mi) then None
            else HostOwner(s, key)
  {
    hide Or, And, MaskHostBits, Learnable, Inv;
    CachedAges(s, key);
    match a
    case Iroutes(mi, ir, allowed) =>
      NetKindIsPrefix();
      if ir.netbits < 0 {
        assert IrouteKey(ir) == key ==> a == Iroutes(mi, Iroute(key.bytes, ir.netbits), allowed);
      }
    case LearnHost(mi, other, allowed) =>
    case LookUp(other, cidr, allowed) =>
    case Disconnect(mi) =>
    case ReapPass(visited) =>
    case Clock(now) =>
  }

  lemma CachedAges(s: Server, key: Key)
    requires Inv(s)
    ensures key in s.routes ==> s.routes[key].cached == s.routes[key].ageable
  {
  }

  lemma {:induction false} HostOwnerByHistory(states: seq<Server>, actions: seq<Action>, key: Key, k: nat)
    requires Behaviour(states, actions) && k < |states| && !IsPrefix(key)
    ensures HostOwner(states[k], key) == LastLearner(states, actions, key, k)
  {
    if k > 0 {
      HostOwnerByHistory(states, actions, key, k - 1);
      BehaviourInv(states, actions, k - 1);
      HostOwnerNext(states[k - 1], actions[k - 1], key);
    }
  }

  /** In every run, with or without cidr routing, the lookup of an address gives the client
      that learned it for good last, as long as that one is connected. */
  lemma LookupGivesLastLearner(states: seq<Server>, actions: seq<Action>, key: Key, k: nat, cidr: bool, allowed: bool)
    requires Behaviour(states, actions) && k < |states| && !IsPrefix(key) && (cidr ==> IsHost(key))
    requires key != states[k].local && LastLearner(states, actions, key, k).Some?
    ensures Lookup(states[k], key, cidr, allowed).1 == LastLearner(states, actions, key, k)
  {
    HostOwnerByHistory(states, actions, key, k);
  }

  /** The local address is nobody's, and without cidr routing an address with no live host
      route is not either; nothing is changed then. */
  lemma NobodyIsFound(s: Server, key: Key, cidr: bool, allowed: bool)
    requires cidr ==> IsHost(key)
    requires key == s.local || (!cidr && !Live(s, key))
    ensures Lookup(s, key, cidr, allowed) == (s, None)
  {
  }

  // Runs without cidr routing, as with a TAP device

  ghost predicate WithoutCidr(actions: seq<Action>) {
    forall k :: 0 <= k < |actions| && actions[k].LookUp? ==> !actions[k].cidr
  }

  ghost predicate NoneCached(s: Server) {
    forall key :: key in s.routes ==> !s.routes[key].cached
  }

  lemma NoneCachedNext(s: Server, a: Action)
    requires NoneCached(s) && Enabled(s, a) && (a.LookUp? ==> !a.cidr)
    ensures NoneCached(Next(s, a))
  {
    hide Or, And, MaskHostBits, Learnable, Registered, Without, Released;
    match a
    case Iroutes(_, _, _) =>
    case LearnHost(_, _, _) =>
    case LookUp(_, _, _) =>
    case Disconnect(_) =>
    case ReapPass(_) =>
    case Clock(_) =>
  }

  lemma NoneAtFirst(s: Server)
    requires Initial(s)
    ensures NoneCached(s)
  {
  }

  lemma {:induction false} NothingIsCached(states: seq<Server>, actions: seq<Action>, k: nat)
    requires Behaviour(states, actions) && k < |states| && WithoutCidr(actions)
    ensures NoneCached(states[k])
  {
    hide NoneCached, Next, Enabled;
    if k == 0 {
      NoneAtFirst(states[0]);
    } else {
      NothingIsCached(states, actions, k - 1);
      NoneCachedNext(states[k - 1], actions[k - 1]);
    }
  }

  /** Without cidr routing the lookup is exactly the history: the last learner while it is
      connected, and otherwise nobody, with the table left as it was. */
  lemma TapLookupIsHistory(states: seq<Server>, actions: seq<Action>, key: Key, k: nat, allowed: bool)
    requires Behaviour(states, actions) && k < |states| && !IsPrefix(key) && WithoutCidr(actions)
    ensures var (s', found) := Lookup(states[k], key, false, allowed);
            && found == (if key == states[k].local then None else LastLearner(states, actions, key, k))
            && (found == None ==> s' == states[k])
  {
    HostOwnerByHistory(states, actions, key, k);
    NothingIsCached(states, actions, k);
    assert key in states[k].routes ==> !states[k].routes[key].cached;
  }
}
