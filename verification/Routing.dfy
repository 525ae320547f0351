/**
 * The server's virtual routing table: multi_learn_addr, multi_get_instance_by_virtual_addr, the
 * life of a client instance (multi.c) and the CIDR length bookkeeping of mroute.c, for tun mode.
 * Instances are named by ids; a freed instance is an id that the instance table no longer has.
 */
module Routing {
  import opened Integers
  import opened Wrappers

  const MR_HELPER_NET_LEN := 32
  const MULTI_CACHE_ROUTE_TTL := 60

  type Id = nat

  /** An address without, or with, the MR_WITH_NETBITS mark. */
  datatype Key = Host(addr: Word32) | Net(addr: Word32, netbits: nat)

  /** netbits is -1 for a route to a single address. */
  datatype Iroute = Iroute(network: Word32, netbits: int)

  datatype Route = Route(instance: Id, cache: bool, ageable: bool, generation: nat, lastReference: int)

  datatype Profile = Profile(maxRoutes: int, established: bool, didIroutes: bool, iroutes: seq<Iroute>)

  datatype Instance = Instance(halt: bool, refcount: int, routeCount: int, profile: Profile)

  datatype Helper = Helper(generation: nat, netLen: seq<nat>, refcounts: seq<int>)

  datatype Server = Server(local: Word32, vhash: map<Key, Route>, instances: map<Id, Instance>, helper: Helper)

  // ----- addresses -----

  /** addr with its low bits cleared. */
  function ClearLow(addr: int, bits: nat): (r: int)
    requires 0 <= addr
    ensures 0 <= r <= addr
  {
    if bits == 0 then addr else 2 * ClearLow(addr / 2, bits - 1)
  }

  /** addr & netbits_to_netmask (netbits), as in mroute_addr_mask_host_bits. */
  function Mask(addr: Word32, netbits: int): Word32 {
    if 0 < netbits <= 32 then ClearLow(addr, 32 - netbits) else 0
  }

  /** Neither all zero bytes nor all 0xFF bytes. */
  predicate Learnable(k: Key) {
    k.addr != 0 && k.addr != WORD_LIMIT - 1
  }

  /** What option_iroute lets through: a network without host bits, or a single address. */
  predicate LegalIroute(ir: Iroute)
  {
    -1 <= ir.netbits < MR_HELPER_NET_LEN && (ir.netbits >= 0 ==> Mask(ir.network, ir.netbits) == ir.network)
  }

  predicate LegalIroutes(irs: seq<Iroute>) {
    forall j :: 0 <= j < |irs| ==> LegalIroute(irs[j])
  }

  function KeyOf(ir: Iroute): Key
    requires ir.netbits >= -1
  {
    if ir.netbits >= 0 then Net(ir.network, ir.netbits) else Host(ir.network)
  }

  // ----- the CIDR lengths in use -----

  /** The lengths below n that are in use, longest first. */
  function Lengths(refcounts: seq<int>, n: nat): seq<nat>
    requires n <= |refcounts|
  {
    if n == 0 then []
    else (if refcounts[n - 1] > 0 then [n - 1] else []) + Lengths(refcounts, n - 1)
  }

  predicate HelperShape(h: Helper) {
    |h.refcounts| == MR_HELPER_NET_LEN
  }

  function Regenerate(h: Helper): Helper
    requires HelperShape(h)
  {
    h.(netLen := Lengths(h.refcounts, MR_HELPER_NET_LEN))
  }

  function HelperAdd(h: Helper, ir: Iroute): (r: Helper)
    requires HelperShape(h) && ir.netbits < MR_HELPER_NET_LEN
    ensures HelperShape(r)
  {
    if ir.netbits >= 0 then
      var count := h.refcounts[ir.netbits] + 1;
      var g := h.(generation := h.generation + 1, refcounts := h.refcounts[ir.netbits := count]);
      if count == 1 then Regenerate(g) else g
    else h
  }

  function HelperDel(h: Helper, ir: Iroute): (r: Helper)
    requires HelperShape(h) && ir.netbits < MR_HELPER_NET_LEN
    ensures HelperShape(r)
  {
    if ir.netbits >= 0 then
      var count := h.refcounts[ir.netbits] - 1;
      var g := h.(generation := h.generation + 1, refcounts := h.refcounts[ir.netbits := count]);
      if count == 0 then Regenerate(g) else g
    else h
  }

  function HelperDelAll(h: Helper, irs: seq<Iroute>): (r: Helper)
    requires HelperShape(h) && LegalIroutes(irs)
    ensures HelperShape(r)
    decreases |irs|
  {
    if irs == [] then h
    else
      assert LegalIroute(irs[0]);
      HelperDelAll(HelperDel(h, irs[0]), irs[1..])
  }

  // ----- routes and instances -----

  ghost predicate Closed(s: Server) {
    HelperShape(s.helper) && forall k :: k in s.vhash ==> s.vhash[k].instance in s.instances
  }

  predicate Live(s: Server, id: Id) {
    id in s.instances && !s.instances[id].halt
  }

  /** multi_route_defined */
  predicate Defined(s: Server, r: Route, now: int) {
    && Live(s, r.instance)
    && (r.cache ==> r.generation == s.helper.generation)
    && (r.ageable ==> r.lastReference + MULTI_CACHE_ROUTE_TTL >= now)
  }

  /** multi_instance_dec_refcount: the last reference frees the instance. */
  function DecRef(instances: map<Id, Instance>, id: Id): map<Id, Instance>
    requires id in instances
  {
    var count := instances[id].refcount - 1;
    if count <= 0 then map i | i in instances && i != id :: instances[i]
    else instances[id := instances[id].(refcount := count)]
  }

  /** multi_route_del, for a route that names id. */
  function DropRoute(instances: map<Id, Instance>, id: Id): map<Id, Instance>
    requires id in instances
  {
    DecRef(instances[id := instances[id].(routeCount := instances[id].routeCount - 1)], id)
  }

  function GrabRoute(instances: map<Id, Instance>, id: Id): map<Id, Instance>
    requires id in instances
  {
    var mi := instances[id];
    instances[id := mi.(refcount := mi.refcount + 1, routeCount := mi.routeCount + 1)]
  }

  function Owner(s: Server, key: Key, now: int): Option<Id> {
    if key in s.vhash && Defined(s, s.vhash[key], now) then Some(s.vhash[key].instance) else None
  }

  /** Whether multi_learn_addr installs a new route; script is the verdict of the learn-address script. */
  predicate Installs(s: Server, mi: Id, key: Key, script: bool, now: int)
    requires mi in s.instances
  {
    && Owner(s, key, now) != Some(mi) && Learnable(key) && key != Host(s.local)
    && s.instances[mi].routeCount < s.instances[mi].profile.maxRoutes && script
  }

  function Learn(s: Server, mi: Id, key: Key, cached: bool, script: bool, now: int): (Server, Option<Id>)
    requires Closed(s) && mi in s.instances
  {
    if Installs(s, mi, key, script, now) then
      var fresh_ := Route(mi, cached, cached, if cached then s.helper.generation else 0, now);
      var grabbed := GrabRoute(s.instances, mi);
      var instances := if key in s.vhash then DropRoute(grabbed, s.vhash[key].instance) else grabbed;
      (s.(vhash := s.vhash[key := fresh_], instances := instances), Some(mi))
    else (s, Owner(s, key, now))
  }

  /** The cycle through the CIDR lengths, from position i. */
  function Scan(s: Server, addr: Word32, i: nat, now: int): (r: Option<Id>)
    ensures r.Some? ==> Live(s, r.value)
    decreases |s.helper.netLen| - i
  {
    if i >= |s.helper.netLen| then None
    else
      var key := Net(Mask(addr, s.helper.netLen[i]), s.helper.netLen[i]);
      if Owner(s, key, now).Some? then Owner(s, key, now) else Scan(s, addr, i + 1, now)
  }

  /** multi_get_instance_by_virtual_addr */
  function Lookup(s: Server, addr: Word32, cidrRouting: bool, script: bool, now: int): (Server, Option<Id>)
    requires Closed(s)
  {
    var key := Host(addr);
    if addr == s.local then (s, None)
    else if Owner(s, key, now).Some? then
      (s.(vhash := s.vhash[key := s.vhash[key].(lastReference := now)]), Owner(s, key, now))
    else if cidrRouting then
      var found := Scan(s, addr, 0, now);
      (if found.Some? then Learn(s, found.value, key, true, script, now).0 else s, found)
    else (s, None)
  }

  // ----- the life of an instance -----

  function Create(s: Server, id: Id, maxRoutes: int): Server {
    s.(instances := s.instances[id := Instance(false, 1, 0, Profile(maxRoutes, false, false, []))])
  }

  /** multi_close_instance, as far as routing goes; a shutdown does not touch the CIDR lengths. */
  function Close(s: Server, id: Id, shutdown: bool): Server
    requires Closed(s) && id in s.instances
    requires LegalIroutes(s.instances[id].profile.iroutes)
  {
    var mi := s.instances[id];
    var drops := !shutdown && mi.profile.didIroutes;
    var halted := mi.(halt := true, profile := mi.profile.(didIroutes := mi.profile.didIroutes && !drops));
    s.(helper := if drops then HelperDelAll(s.helper, mi.profile.iroutes) else s.helper,
       instances := DecRef(s.instances[id := halted], id))
  }

  // ----- reference counts -----

  ghost function Routes(vhash: map<Key, Route>, id: Id): set<Key> {
    set k | k in vhash && vhash[k].instance == id
  }

  /** Every instance is referenced by itself until it halts, and by each route that names it. */
  ghost predicate CountedOne(vhash: map<Key, Route>, id: Id, mi: Instance) {
    && mi.routeCount == |Routes(vhash, id)|
    && mi.refcount == mi.routeCount + (if mi.halt then 0 else 1)
    && mi.refcount > 0
  }

  /** The instances that have not halted. */
  ghost function LiveView(s: Server): map<Id, Profile> {
    map id | id in s.instances && !s.instances[id].halt :: s.instances[id].profile
  }

  ghost predicate Counted(s: Server) {
    && Closed(s)
    && forall id :: id in s.instances ==> CountedOne(s.vhash, id, s.instances[id])
  }

  lemma RoutesSplit(vhash: map<Key, Route>, key: Key, id: Id)
    ensures |Routes(vhash, id)|
         == |Routes(vhash, id) - {key}| + (if key in vhash && vhash[key].instance == id then 1 else 0)
  {
    if key in Routes(vhash, id) {
      assert Routes(vhash, id) == Routes(vhash, id) - {key} + {key};
    } else {
      assert Routes(vhash, id) == Routes(vhash, id) - {key};
    }
  }

  lemma RoutesElsewhere(vhash: map<Key, Route>, key: Key, r: Route, id: Id)
    ensures Routes(vhash[key := r], id) - {key} == Routes(vhash, id) - {key}
    ensures Routes(vhash - {key}, id) == Routes(vhash, id) - {key}
  {
  }

  lemma RoutesUpdate(vhash: map<Key, Route>, key: Key, r: Route, id: Id)
    ensures |Routes(vhash[key := r], id)|
         == |Routes(vhash, id)| + (if id == r.instance then 1 else 0)
            - (if key in vhash && vhash[key].instance == id then 1 else 0)
  {
    hide Routes;
    RoutesSplit(vhash, key, id);
    RoutesSplit(vhash[key := r], key, id);
    RoutesElsewhere(vhash, key, r, id);
  }

  lemma RoutesRemove(vhash: map<Key, Route>, key: Key, id: Id)
    requires key in vhash
    ensures |Routes(vhash - {key}, id)| == |Routes(vhash, id)| - (if vhash[key].instance == id then 1 else 0)
  {
    hide Routes;
    RoutesSplit(vhash, key, id);
    RoutesElsewhere(vhash, key, vhash[key], id);
  }

  lemma SetAtLeast(a: set<Key>, x: Key, y: Key)
    requires x in a && y in a && x != y
    ensures |a| >= 2
  {
    assert y in a - {x};
    assert |a| == |a - {x}| + 1;
  }

  lemma LearnCounts(s: Server, mi: Id, key: Key, cached: bool, script: bool, now: int, id: Id)
    requires Counted(s) && Live(s, mi) && Installs(s, mi, key, script, now)
    requires id in Learn(s, mi, key, cached, script, now).0.instances
    ensures var t := Learn(s, mi, key, cached, script, now).0; CountedOne(t.vhash, id, t.instances[id])
  {
    hide Installs, Routes;
    RoutesUpdate(s.vhash, key, Learn(s, mi, key, cached, script, now).0.vhash[key], id);
  }

  /** An instance that another key still names outlives the route it loses. */
  lemma LearnCloses(s: Server, mi: Id, key: Key, cached: bool, script: bool, now: int, k: Key)
    requires Counted(s) && Live(s, mi) && Installs(s, mi, key, script, now) && k != key && k in s.vhash
    ensures s.vhash[k].instance in Learn(s, mi, key, cached, script, now).0.instances
  {
    hide Installs;
    if key in s.vhash && s.vhash[key].instance == s.vhash[k].instance {
      SetAtLeast(Routes(s.vhash, s.vhash[key].instance), k, key);
    }
  }

  lemma LearnSpares(s: Server, mi: Id, key: Key, cached: bool, script: bool, now: int)
    requires Counted(s) && Live(s, mi) && Installs(s, mi, key, script, now)
    ensures
      var t := Learn(s, mi, key, cached, script, now).0;
      Live(t, mi) && LiveView(t) == LiveView(s)
  {
    hide Installs;
    if key in s.vhash {
      assert key in Routes(s.vhash, s.vhash[key].instance);
    }
  }

  /** Learning keeps the counts, and cannot free anyone who is still needed. */
  lemma LearnCounted(s: Server, mi: Id, key: Key, cached: bool, script: bool, now: int)
    requires Counted(s) && Live(s, mi)
    ensures Counted(Learn(s, mi, key, cached, script, now).0)
    ensures Live(Learn(s, mi, key, cached, script, now).0, mi)
    ensures LiveView(Learn(s, mi, key, cached, script, now).0) == LiveView(s)
  {
    hide CountedOne, GrabRoute, DropRoute, LiveView, Installs;
    var t := Learn(s, mi, key, cached, script, now).0;
    if Installs(s, mi, key, script, now) {
      LearnSpares(s, mi, key, cached, script, now);
      forall id | id in t.instances ensures CountedOne(t.vhash, id, t.instances[id]) {
        LearnCounts(s, mi, key, cached, script, now, id);
      }
      forall k | k in t.vhash ensures t.vhash[k].instance in t.instances {
        if k != key {
          LearnCloses(s, mi, key, cached, script, now, k);
        }
      }
    }
  }

  /** A halted instance lives on exactly as long as a route names it. */
  lemma CloseCounted(s: Server, id: Id, shutdown: bool)
    requires Counted(s) && Live(s, id)
    requires LegalIroutes(s.instances[id].profile.iroutes)
    ensures
      var t := Close(s, id, shutdown);
      && Counted(t) && t.vhash == s.vhash && !Live(t, id)
      && (id in t.instances <==> Routes(s.vhash, id) != {})
      && (shutdown ==> t.helper == s.helper)
  {
    var t := Close(s, id, shutdown);
    forall k | k in t.vhash ensures t.vhash[k].instance in t.instances {
      if t.vhash[k].instance == id {
        assert k in Routes(s.vhash, id);
      }
    }
  }

  lemma CreateCounted(s: Server, id: Id, maxRoutes: int)
    requires Counted(s) && id !in s.instances
    ensures Counted(Create(s, id, maxRoutes))
  {
    assert Routes(s.vhash, id) == {};
  }

  // ----- a client connects -----

  /** One iroute of multi_add_iroutes: the length is counted before the route is learned. */
  function AddIroute(s: Server, id: Id, ir: Iroute, script: bool, now: int): (Server, Option<Id>)
    requires Closed(s) && id in s.instances && LegalIroute(ir)
  {
    Learn(s.(helper := HelperAdd(s.helper, ir)), id, KeyOf(ir), false, script, now)
  }

  lemma AddIrouteCounted(s: Server, id: Id, ir: Iroute, script: bool, now: int)
    requires Counted(s) && Live(s, id) && LegalIroute(ir)
    ensures var t := AddIroute(s, id, ir, script, now).0; Counted(t) && Live(t, id)
  {
    LearnCounted(s.(helper := HelperAdd(s.helper, ir)), id, KeyOf(ir), false, script, now);
  }

  /** The loop of multi_add_iroutes, and the keys that id owns after it, with one script verdict per iroute. */
  ghost function AddIroutes(s: Server, id: Id, irs: seq<Iroute>, scripts: seq<bool>, now: int): (Server, seq<Key>)
    requires Counted(s) && Live(s, id) && LegalIroutes(irs) && |scripts| == |irs|
    decreases |irs|
  {
    if irs == [] then (s, [])
    else
      assert LegalIroute(irs[0]);
      AddIrouteCounted(s, id, irs[0], scripts[0], now);
      var (t, owner) := AddIroute(s, id, irs[0], scripts[0], now);
      var (u, keys) := AddIroutes(t, id, irs[1..], scripts[1..], now);
      (u, (if owner == Some(id) then [KeyOf(irs[0])] else []) + keys)
  }

  function Establish(s: Server, id: Id, irs: seq<Iroute>): Server
    requires id in s.instances
  {
    var mi := s.instances[id];
    s.(instances := s.instances[id := mi.(profile := Profile(mi.profile.maxRoutes, true, true, irs))])
  }

  /** The learns of multi_connection_established: the address pushed to the client, then its iroutes. */
  ghost function Connect(s: Server, id: Id, host: Option<Word32>, script: bool,
                         irs: seq<Iroute>, scripts: seq<bool>, now: int): (Server, seq<Key>)
    requires Counted(s) && Live(s, id) && LegalIroutes(irs) && |scripts| == |irs|
  {
    if host == None then AddIroutes(Establish(s, id, irs), id, irs, scripts, now)
    else
      var key := Host(host.value);
      LearnCounted(s, id, key, false, script, now);
      var (t, owner) := Learn(s, id, key, false, script, now);
      var (u, keys) := AddIroutes(Establish(t, id, irs), id, irs, scripts, now);
      (u, (if owner == Some(id) then [key] else []) + keys)
  }

  lemma {:induction false} AddIroutesCounted(s: Server, id: Id, irs: seq<Iroute>, scripts: seq<bool>, now: int)
    requires Counted(s) && Live(s, id) && LegalIroutes(irs) && |scripts| == |irs|
    ensures var t := AddIroutes(s, id, irs, scripts, now).0; Counted(t) && Live(t, id)
    decreases |irs|
  {
    if irs != [] {
      AddIrouteCounted(s, id, irs[0], scripts[0], now);
      AddIroutesCounted(AddIroute(s, id, irs[0], scripts[0], now).0, id, irs[1..], scripts[1..], now);
    }
  }

  // ----- the reaper -----

  /** multi_route_del and hash_iterator_delete_element on the entry of key. */
  function DropEntry(s: Server, key: Key): Server
    requires key in s.vhash && s.vhash[key].instance in s.instances
  {
    s.(vhash := s.vhash - {key}, instances := DropRoute(s.instances, s.vhash[key].instance))
  }

  lemma DropEntryCounted(s: Server, key: Key)
    requires Counted(s) && key in s.vhash
    ensures Counted(DropEntry(s, key)) && LiveView(DropEntry(s, key)) == LiveView(s)
  {
    var t := DropEntry(s, key);
    var old_ := s.vhash[key].instance;
    assert key in Routes(s.vhash, old_);
    forall id | id in t.instances ensures CountedOne(t.vhash, id, t.instances[id]) {
      RoutesRemove(s.vhash, key, id);
    }
    forall k | k in t.vhash ensures t.vhash[k].instance in t.instances {
      if s.vhash[k].instance == old_ {
        SetAtLeast(Routes(s.vhash, old_), k, key);
      }
    }
  }

  /** The reap loop over the entries of some buckets, in the order in which the iterator yields them. */
  ghost function ReapKeys(s: Server, keys: seq<Key>, now: int): Server
    requires Counted(s)
    decreases |keys|
  {
    if keys == [] then s
    else if keys[0] in s.vhash && !Defined(s, s.vhash[keys[0]], now) then
      DropEntryCounted(s, keys[0]);
      ReapKeys(DropEntry(s, keys[0]), keys[1..], now)
    else ReapKeys(s, keys[1..], now)
  }

  /** The reaper removes exactly the undefined routes among keys, and frees only halted instances. */
  lemma {:induction false} ReapRemovesUndefined(s: Server, keys: seq<Key>, now: int)
    requires Counted(s)
    ensures
      var t := ReapKeys(s, keys, now);
      && Counted(t) && t.local == s.local && t.helper == s.helper
      && LiveView(t) == LiveView(s)
      && t.vhash == map k | k in s.vhash && !(k in keys && !Defined(s, s.vhash[k], now)) :: s.vhash[k]
    decreases |keys|
  {
    if keys == [] {
      assert s.vhash == map k | k in s.vhash :: s.vhash[k];
    } else {
      hide CountedOne, DropRoute, DecRef;
      var u := s;
      if keys[0] in s.vhash && !Defined(s, s.vhash[keys[0]], now) {
        DropEntryCounted(s, keys[0]);
        u := DropEntry(s, keys[0]);
      }
      assert forall id :: Live(s, id) <==> id in LiveView(s);
      assert forall id :: Live(u, id) <==> id in LiveView(u);
      assert forall r: Route :: Defined(u, r, now) <==> Defined(s, r, now);
      ReapRemovesUndefined(u, keys[1..], now);
    }
  }
}
