/** The table of routes to clients: host routes, prefix routes, and cached host
    routes that stand for the result of a prefix search. */
module Routing {
  import opened Bits
  import opened Buffers
  import opened Mroute
  import opened Options

  const WORD: nat := 0x1_0000_0000

  /** struct multi_route.  Instances are known by number; the generation is the
      count of iroute changes when the route was cached. */
  datatype Route = Route(owner: int, cached: bool, ageable: bool, generation: nat, lastReference: int)

  /** An iroute with a netmask that a connected client has registered. */
  datatype Hold = Hold(owner: int, netbits: nat)

  /** netbits is -1 for a host route. */
  datatype Iroute = Iroute(network: seq<Byte>, netbits: int)

  datatype Server = Server(
    routes: map<Key, Route>,
    halted: set<int>,
    generation: nat,        // iroute changes so far; the program keeps 32 bits of it
    refcount: seq<int>,     // of each prefix length
    active: seq<Hold>,
    now: int,
    ttl: int,
    local: Key)

  /** multi_route_defined */
  predicate Defined(s: Server, r: Route) {
    && r.owner !in s.halted
    && !(r.cached && r.generation % WORD != s.generation % WORD)
    && !(r.ageable && r.lastReference + s.ttl < s.now)
  }

  predicate Live(s: Server, key: Key) {
    key in s.routes && Defined(s, s.routes[key])
  }

  function NetKind(): nat {
    Or(MR_ADDR_IPV4, MR_WITH_NETBITS)
  }

  predicate IsPrefix(key: Key) {
    And(key.kind, MR_WITH_NETBITS) != 0
  }

  /** An IPv4 address as extracted from a packet. */
  predicate IsHost(key: Key) {
    key.kind == MR_ADDR_IPV4 && key.netbits == 0 && |key.bytes| == 4
  }

  /** The n-bit network an address lies in. */
  function PrefixKey(key: Key, n: nat): Key
    requires IsHost(key)
  {
    Key(NetKind(), n, MaskHostBits(key.bytes, n))
  }

  lemma NetKindIsPrefix()
    ensures NetKind() == 10 && And(NetKind(), MR_WITH_NETBITS) != 0 && And(MR_ADDR_IPV4, MR_WITH_NETBITS) == 0
  {
    assert Or(1, 4) == 5;
    assert And(5, 4) == 4 && And(1, 4) == 0;
  }

  // The operations

  /** multi_learn_addr; allowed is the verdict of the route quota and the script. */
  function Learn(s: Server, mi: int, key: Key, cache: bool, allowed: bool): (Server, Option<int>) {
    var owner := if Live(s, key) then Some(s.routes[key].owner) else None;
    if owner != Some(mi) && Learnable(key) && key != s.local && allowed then
      (s.(routes := s.routes[key := Route(mi, cache, cache, if cache then s.generation else 0, s.now)]), Some(mi))
    else (s, owner)
  }

  /** The loop over prefix lengths. */
  function Search(s: Server, key: Key, lengths: seq<nat>): Option<int>
    requires IsHost(key)
  {
    if lengths == [] then None
    else if Live(s, PrefixKey(key, lengths[0])) then Some(s.routes[PrefixKey(key, lengths[0])].owner)
    else Search(s, key, lengths[1..])
  }

  /** multi_get_instance_by_virtual_addr */
  function Lookup(s: Server, key: Key, cidr: bool, allowed: bool): (Server, Option<int>)
    requires cidr ==> IsHost(key)
  {
    if key == s.local then (s, None)
    else if Live(s, key) then
      (s.(routes := s.routes[key := s.routes[key].(lastReference := s.now)]), Some(s.routes[key].owner))
    else if cidr then
      match Search(s, key, AllLengths(s.refcount))
      case Some(mi) => (Learn(s, mi, key, true, allowed).0, Some(mi))
      case None => (s, None)
    else (s, None)
  }

  function IrouteKey(ir: Iroute): Key {
    if ir.netbits >= 0 then Key(NetKind(), ir.netbits, ir.network) else Key(MR_ADDR_IPV4, 0, ir.network)
  }

  /** One turn of multi_add_iroutes. */
  function AddIroute(s: Server, mi: int, ir: Iroute, allowed: bool): Server
    requires ir.netbits < |s.refcount|
  {
    var counted := if ir.netbits < 0 then s
                   else s.(generation := s.generation + 1, active := s.active + [Hold(mi, ir.netbits)],
                           refcount := s.refcount[ir.netbits := s.refcount[ir.netbits] + 1]);
    Learn(counted, mi, IrouteKey(ir), false, allowed).0
  }

  /** The lengths client mi has registered. */
  function Registered(active: seq<Hold>, mi: int): seq<nat> {
    if active == [] then []
    else (if active[0].owner == mi then [active[0].netbits] else []) + Registered(active[1..], mi)
  }

  function Without(active: seq<Hold>, mi: int): seq<Hold> {
    if active == [] then []
    else (if active[0].owner == mi then [] else [active[0]]) + Without(active[1..], mi)
  }

  /** The counts after multi_del_iroutes. */
  function Released(refcount: seq<int>, lengths: seq<nat>): (r: seq<int>)
    requires forall i :: 0 <= i < |lengths| ==> lengths[i] < |refcount|
    ensures |r| == |refcount|
    decreases |lengths|
  {
    if lengths == [] then refcount
    else Released(refcount[lengths[0] := refcount[lengths[0]] - 1], lengths[1..])
  }

  /** The route side of multi_close_instance. */
  function Close(s: Server, mi: int): Server
    requires forall i :: 0 <= i < |Registered(s.active, mi)| ==> Registered(s.active, mi)[i] < |s.refcount|
  {
    var lengths := Registered(s.active, mi);
    s.(halted := s.halted + {mi}, generation := s.generation + |lengths|,
       refcount := Released(s.refcount, lengths), active := Without(s.active, mi))
  }

  /** multi_reap_range, for the keys in the buckets visited. */
  function Reap(s: Server, visited: set<Key>): Server {
    s.(routes := map key | key in s.routes && (key !in visited || Live(s, key)) :: s.routes[key])
  }

  // The cache-free specification

  /** The owner of the longest live prefix route, among lengths below n. */
  function PrefixOwner(s: Server, key: Key, n: nat): Option<int>
    requires IsHost(key)
  {
    if n == 0 then None
    else if Live(s, PrefixKey(key, n - 1)) then Some(s.routes[PrefixKey(key, n - 1)].owner)
    else PrefixOwner(s, key, n - 1)
  }

  /** A live host route that was not cached, or else the longest live prefix. */
  function BestMatch(s: Server, key: Key): Option<int>
    requires IsHost(key)
  {
    if Live(s, key) && !s.routes[key].cached then Some(s.routes[key].owner)
    else PrefixOwner(s, key, MR_HELPER_NET_LEN)
  }

  // The invariant

  function Total(active: seq<Hold>, n: nat): nat {
    if active == [] then 0 else (if active[0].netbits == n then 1 else 0) + Total(active[1..], n)
  }

  ghost predicate CountsAgree(s: Server) {
    && |s.refcount| == MR_HELPER_NET_LEN
    && (forall n: nat :: n < MR_HELPER_NET_LEN ==> s.refcount[n] == Total(s.active, n))
    && (forall i :: 0 <= i < |s.active| ==> s.active[i].netbits < MR_HELPER_NET_LEN && s.active[i].owner !in s.halted)
  }

  /** Prefix routes are never cached, are networks, and while their owner is
      connected it has registered their length. */
  ghost predicate PrefixRoute(s: Server, key: Key)
    requires key in s.routes
  {
    var r := s.routes[key];
    && !r.cached && key.kind == NetKind() && key.netbits < MR_HELPER_NET_LEN && IsNetwork(key.bytes, key.netbits)
    && (r.owner !in s.halted ==> Hold(r.owner, key.netbits) in s.active)
  }

  /** A cached route of the current generation, if its owner is connected, gives the
      result of the prefix search. */
  ghost predicate CachedRoute(s: Server, key: Key)
    requires key in s.routes
  {
    var r := s.routes[key];
    && IsHost(key) && r.generation <= s.generation
    && (r.generation == s.generation && r.owner !in s.halted ==>
          PrefixOwner(s, key, MR_HELPER_NET_LEN) == Some(r.owner))
  }

  ghost predicate RoutesAgree(s: Server) {
    forall key | key in s.routes ::
      && s.routes[key].cached == s.routes[key].ageable
      && (IsPrefix(key) ==> PrefixRoute(s, key))
      && (s.routes[key].cached ==> CachedRoute(s, key))
  }

  ghost predicate Inv(s: Server) {
    CountsAgree(s) && RoutesAgree(s)
  }

  /** A route that is cached for an address and live is not so old that its 32-bit
      generation has come round again. */
  predicate NoWrap(s: Server, key: Key) {
    Live(s, key) && s.routes[key].cached ==> s.routes[key].generation == s.generation
  }

  lemma {:induction false} TotalPositive(active: seq<Hold>, h: Hold)
    requires h in active
    ensures Total(active, h.netbits) > 0
  {
    if active[0] != h {
      TotalPositive(active[1..], h);
    }
  }

  /** Searching the lengths in use, longest first, finds the longest live prefix of all. */
  lemma {:induction false} SearchFindsLongest(s: Server, key: Key, n: nat)
    requires Inv(s) && IsHost(key) && n <= MR_HELPER_NET_LEN
    ensures Search(s, key, Lengths(s.refcount, n)) == PrefixOwner(s, key, n)
  {
    hide Or, MaskHostBits;
    if n > 0 {
      SearchFindsLongest(s, key, n - 1);
      var p := PrefixKey(key, n - 1);
      NetKindIsPrefix();
      if Live(s, p) {
        TotalPositive(s.active, Hold(s.routes[p].owner, n - 1));
      }
      var rest := Lengths(s.refcount, n - 1);
      if s.refcount[n - 1] > 0 {
        assert Lengths(s.refcount, n) == [n - 1] + rest && ([n - 1] + rest)[1..] == rest;
        assert Search(s, key, [n - 1] + rest) == if Live(s, p) then Some(s.routes[p].owner) else Search(s, key, rest);
      } else {
        assert Lengths(s.refcount, n) == rest;
      }
    }
  }

  /** The cached lookup gives the client that the cache-free search gives, and it is
      a connected one. */
  lemma LookupAgrees(s: Server, key: Key, allowed: bool)
    requires Inv(s) && NoWrap(s, key) && IsHost(key) && key != s.local
    ensures Lookup(s, key, true, allowed).1 == BestMatch(s, key)
    ensures BestMatch(s, key).Some? ==> BestMatch(s, key).value !in s.halted
  {
    hide Or, MaskHostBits;
    SearchFindsLongest(s, key, MR_HELPER_NET_LEN);
    PrefixOwnerIsConnected(s, key, MR_HELPER_NET_LEN);
  }

  lemma {:induction false} PrefixOwnerIsConnected(s: Server, key: Key, n: nat)
    requires IsHost(key)
    ensures PrefixOwner(s, key, n).Some? ==> PrefixOwner(s, key, n).value !in s.halted
  {
    if n > 0 {
      PrefixOwnerIsConnected(s, key, n - 1);
    }
  }
}
