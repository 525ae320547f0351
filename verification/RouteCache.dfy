/**
 * The host-route cache is transparent: over every run, a lookup returns the owner that plain
 * longest-prefix match (section 5.1 of RFC 4632) gives over the live routes that were learned
 * explicitly, whether it is answered from a cached host route or from the scan of CIDR lengths.
 */
module RouteCache {
  import opened Integers
  import opened Wrappers
  import opened Routing

  // ----- longest-prefix match -----

  predicate Covers(k: Key, addr: Word32) {
    match k
    case Host(a) => a == addr
    case Net(a, netbits) => Mask(a, netbits) == Mask(addr, netbits)
  }

  function PrefixLength(k: Key): nat {
    if k.Host? then 32 else k.netbits
  }

  ghost predicate LongestMatch(table: map<Key, Id>, addr: Word32, r: Option<Id>) {
    match r
    case None => forall k :: k in table ==> !Covers(k, addr)
    case Some(id) =>
      exists k :: k in table && Covers(k, addr) && table[k] == id
        && forall j :: j in table && Covers(j, addr) ==> PrefixLength(j) <= PrefixLength(k)
  }

  ghost predicate Masked(table: map<Key, Id>) {
    forall k :: k in table && k.Net? ==> k.netbits < MR_HELPER_NET_LEN && Mask(k.addr, k.netbits) == k.addr
  }

  /** Longest-prefix match has one answer. */
  lemma LongestMatchUnique(table: map<Key, Id>, addr: Word32, a: Option<Id>, b: Option<Id>)
    requires Masked(table) && LongestMatch(table, addr, a) && LongestMatch(table, addr, b)
    ensures a == b
  {
    if a.Some? && b.Some? {
      var k :| k in table && Covers(k, addr) && table[k] == a.value
        && forall j :: j in table && Covers(j, addr) ==> PrefixLength(j) <= PrefixLength(k);
      var l :| l in table && Covers(l, addr) && table[l] == b.value
        && forall j :: j in table && Covers(j, addr) ==> PrefixLength(j) <= PrefixLength(l);
      assert k == l;
    }
  }

  // ----- the explicit routes -----

  /** What the table says once the cache and the routes of halted instances are left out. */
  ghost function Explicit(s: Server): map<Key, Id> {
    map k | k in s.vhash && !s.vhash[k].cache && Live(s, s.vhash[k].instance) :: s.vhash[k].instance
  }

  ghost function Nets(s: Server): map<Key, Id> {
    map k | k in s.vhash && k.Net? && Live(s, s.vhash[k].instance) :: s.vhash[k].instance
  }

  function Best(lens: seq<nat>, nets: map<Key, Id>, addr: Word32): Option<Id> {
    if lens == [] then None
    else
      var key := Net(Mask(addr, lens[0]), lens[0]);
      if key in nets then Some(nets[key]) else Best(lens[1..], nets, addr)
  }

  // ----- the invariant -----

  ghost predicate Announces(p: Profile, k: Key) {
    k.Net? && p.didIroutes && exists j :: 0 <= j < |p.iroutes| && p.iroutes[j] == Iroute(k.addr, k.netbits as int)
  }

  ghost predicate RouteShape(s: Server, k: Key)
    requires k in s.vhash
  {
    var r := s.vhash[k];
    && r.cache == r.ageable && r.generation <= s.helper.generation && (r.cache ==> k.Host?)
    && (k.Net? ==> k.netbits < MR_HELPER_NET_LEN && Mask(k.addr, k.netbits) == k.addr)
    && (k.Net? && Live(s, r.instance) ==> Announces(s.instances[r.instance].profile, k))
  }

  ghost predicate Shape(s: Server) {
    && Counted(s)
    && (forall k :: k in s.vhash ==> RouteShape(s, k))
    && (forall id :: Live(s, id) ==> ProfileShape(s, id))
  }

  ghost predicate ProfileShape(s: Server, id: Id)
    requires id in s.instances
  {
    var p := s.instances[id].profile;
    && LegalIroutes(p.iroutes)
    && (p.established <==> p.didIroutes)
    && (!p.established ==> Routes(s.vhash, id) == {} && p.iroutes == [])
  }

  /** A cached route of the current generation, if its owner is live, agrees with the scan. */
  ghost predicate CachedRight(s: Server, addr: Word32, r: Route) {
    r.cache && r.generation == s.helper.generation && Live(s, r.instance)
    ==> Best(s.helper.netLen, Nets(s), addr) == Some(r.instance)
  }

  ghost predicate CacheOk(s: Server) {
    forall a :: Host(a) in s.vhash ==> CachedRight(s, a, s.vhash[Host(a)])
  }

  ghost function Pairs(view: map<Id, Profile>, len: int): set<(Id, int)> {
    set id, j | id in view && 0 <= j < |view[id].iroutes| && view[id].didIroutes && view[id].iroutes[j].netbits == len
      :: (id, j)
  }

  /** net_len is the descending list of the lengths that some live iroute uses, each counted exactly. */
  ghost predicate LengthsOk(h: Helper, view: map<Id, Profile>) {
    && HelperShape(h)
    && h.netLen == Lengths(h.refcounts, MR_HELPER_NET_LEN)
    && forall len :: 0 <= len < MR_HELPER_NET_LEN ==> h.refcounts[len] == |Pairs(view, len)|
  }

  ghost predicate Inv(s: Server) {
    Shape(s) && CacheOk(s) && LengthsOk(s.helper, LiveView(s))
  }

  // ----- the scan is longest-prefix match over the networks -----

  lemma {:induction false} LengthsSorted(rc: seq<int>, n: nat)
    requires n <= |rc|
    ensures forall len :: len in Lengths(rc, n) <==> 0 <= len < n && rc[len] > 0
    ensures forall i, j :: 0 <= i < j < |Lengths(rc, n)| ==> Lengths(rc, n)[i] > Lengths(rc, n)[j]
  {
    if n > 0 {
      LengthsSorted(rc, n - 1);
      var tail := Lengths(rc, n - 1);
      assert forall j :: 0 <= j < |tail| ==> tail[j] in tail;
    }
  }

  function NetAt(addr: Word32, len: nat): Key {
    Net(Mask(addr, len), len)
  }

  /** The first hit going down the lengths in use is the longest network around addr. */
  lemma {:induction false} BestIsLongest(rc: seq<int>, n: nat, nets: map<Key, Id>, addr: Word32)
    requires n <= |rc| && forall len: nat :: len < n && NetAt(addr, len) in nets ==> rc[len] > 0
    ensures
      match Best(Lengths(rc, n), nets, addr)
      case None => forall len: nat :: len < n ==> NetAt(addr, len) !in nets
      case Some(id) =>
        exists len: nat :: len < n && NetAt(addr, len) in nets && nets[NetAt(addr, len)] == id
          && forall m: nat :: len < m < n ==> NetAt(addr, m) !in nets
  {
    hide Mask;
    if n > 0 {
      BestIsLongest(rc, n - 1, nets, addr);
      if rc[n - 1] > 0 {
        assert Lengths(rc, n)[1..] == Lengths(rc, n - 1);
        if NetAt(addr, n - 1) in nets {
          assert Best(Lengths(rc, n), nets, addr) == Some(nets[NetAt(addr, n - 1)]);
        }
      } else {
        assert Lengths(rc, n) == Lengths(rc, n - 1);
      }
    }
  }

  /** A live network route keeps its length in use, so the scan cannot miss it. */
  lemma LiveNetCounted(s: Server, k: Key)
    requires Inv(s) && k in Nets(s)
    ensures k.netbits < MR_HELPER_NET_LEN && s.helper.refcounts[k.netbits] > 0
  {
    var id := s.vhash[k].instance;
    assert RouteShape(s, k);
    var p := s.instances[id].profile;
    var j :| 0 <= j < |p.iroutes| && p.iroutes[j] == Iroute(k.addr, k.netbits as int);
    assert (id, j) in Pairs(LiveView(s), k.netbits);
  }

  lemma {:induction false} ScanIsBest(s: Server, addr: Word32, i: nat, now: int)
    requires Shape(s) && i <= |s.helper.netLen|
    ensures Scan(s, addr, i, now) == Best(s.helper.netLen[i..], Nets(s), addr)
    decreases |s.helper.netLen| - i
  {
    if i < |s.helper.netLen| {
      var key := NetAt(addr, s.helper.netLen[i]);
      if key in s.vhash {
        assert RouteShape(s, key);
      }
      ScanIsBest(s, addr, i + 1, now);
      assert s.helper.netLen[i..][1..] == s.helper.netLen[i + 1..];
    }
  }

  lemma ExplicitOrNet(s: Server, k: Key)
    requires Shape(s)
    ensures k in Nets(s) ==> k in Explicit(s) && Explicit(s)[k] == Nets(s)[k]
    ensures
      k in Explicit(s) && k.Net? ==>
        k in Nets(s) && k.netbits < MR_HELPER_NET_LEN && Mask(k.addr, k.netbits) == k.addr
  {
    if k in s.vhash {
      assert RouteShape(s, k);
    }
  }

  /** Where no explicit host route is live, the scan is longest-prefix match over the explicit routes. */
  lemma BestIsMatch(s: Server, addr: Word32)
    requires Inv(s) && Host(addr) !in Explicit(s)
    ensures LongestMatch(Explicit(s), addr, Best(s.helper.netLen, Nets(s), addr))
  {
    forall len: nat | len < MR_HELPER_NET_LEN && NetAt(addr, len) in Nets(s) ensures s.helper.refcounts[len] > 0 {
      LiveNetCounted(s, NetAt(addr, len));
    }
    BestIsLongest(s.helper.refcounts, MR_HELPER_NET_LEN, Nets(s), addr);
    hide Explicit, Nets, Best, Lengths, Shape, CacheOk;
    forall k ensures k in Nets(s) ==> k in Explicit(s) && Explicit(s)[k] == Nets(s)[k] {
      ExplicitOrNet(s, k);
    }
    forall k | k in Explicit(s) && Covers(k, addr)
      ensures k.Net? && k.netbits < MR_HELPER_NET_LEN && k == NetAt(addr, k.netbits) && k in Nets(s)
    {
      ExplicitOrNet(s, k);
    }
    var r := Best(s.helper.netLen, Nets(s), addr);
    if r.Some? {
      var len: nat :| len < MR_HELPER_NET_LEN && NetAt(addr, len) in Nets(s) && Nets(s)[NetAt(addr, len)] == r.value
          && forall m: nat :: len < m < MR_HELPER_NET_LEN ==> NetAt(addr, m) !in Nets(s);
      NetAtCovers(addr, len);
      assert NetAt(addr, len) in Explicit(s);
    }
  }

  lemma {:induction false} ClearLowTwice(addr: nat, bits: nat)
    ensures ClearLow(ClearLow(addr, bits), bits) == ClearLow(addr, bits)
  {
    if bits > 0 {
      var half := ClearLow(addr / 2, bits - 1);
      ClearLowTwice(addr / 2, bits - 1);
      assert 2 * half / 2 == half;
    }
  }

  lemma NetAtCovers(addr: Word32, len: nat)
    ensures Covers(NetAt(addr, len), addr)
  {
    if 0 < len <= 32 {
      ClearLowTwice(addr, 32 - len);
    }
  }

  /** The answer of multi_get_instance_by_virtual_addr in any state that satisfies the invariant. */
  lemma LookupIsMatch(s: Server, addr: Word32, script: bool, now: int)
    requires Inv(s) && addr != s.local
    ensures LongestMatch(Explicit(s), addr, Lookup(s, addr, true, script, now).1)
  {
    var key := Host(addr);
    ScanIsBest(s, addr, 0, now);
    assert s.helper.netLen[0..] == s.helper.netLen;
    if key in s.vhash {
      assert RouteShape(s, key);
    }
    if key in Explicit(s) {
      assert Covers(key, addr);
      assert Masked(Explicit(s)) by { ExplicitMasked(s); }
    } else {
      BestIsMatch(s, addr);
    }
  }

  lemma ExplicitMasked(s: Server)
    requires Shape(s)
    ensures Masked(Explicit(s))
  {
    forall k | k in Explicit(s) && k.Net? ensures k.netbits < MR_HELPER_NET_LEN && Mask(k.addr, k.netbits) == k.addr {
      assert RouteShape(s, k);
    }
  }

  // ----- what one learn does -----

  ghost predicate SameInstances(s: Server, t: Server) {
    && t.local == s.local && LiveView(t) == LiveView(s)
    && (forall id :: Live(t, id) <==> Live(s, id))
    && (forall id :: Live(s, id) ==> t.instances[id].profile == s.instances[id].profile)
  }

  lemma LearnFacts(s: Server, mi: Id, key: Key, cached: bool, script: bool, now: int)
    requires Counted(s) && Live(s, mi)
    ensures
      var t := Learn(s, mi, key, cached, script, now).0;
      && Counted(t) && t.helper == s.helper && SameInstances(s, t)
      && (if Installs(s, mi, key, script, now)
          then t.vhash == s.vhash[key := Route(mi, cached, cached, if cached then s.helper.generation else 0, now)]
          else t == s)
  {
    LearnCounted(s, mi, key, cached, script, now);
    var t := Learn(s, mi, key, cached, script, now).0;
    SameViews(s, t);
  }

  lemma SameViews(s: Server, t: Server)
    requires t.local == s.local && LiveView(t) == LiveView(s)
    ensures SameInstances(s, t)
  {
    assert forall id :: Live(s, id) <==> id in LiveView(s);
    assert forall id :: Live(t, id) <==> id in LiveView(t);
    assert forall id :: Live(s, id) ==> LiveView(s)[id] == s.instances[id].profile;
    assert forall id :: Live(t, id) ==> LiveView(t)[id] == t.instances[id].profile;
  }

  ghost predicate HostUpdate(s: Server, t: Server, addr: Word32, r: Route) {
    && Closed(s) && Closed(t) && SameInstances(s, t) && t.helper == s.helper
    && t.vhash == s.vhash[Host(addr) := r]
  }

  lemma HostUpdateMaps(s: Server, t: Server, addr: Word32, r: Route)
    requires HostUpdate(s, t, addr, r)
    ensures Nets(t) == Nets(s)
    ensures Explicit(t) ==
      if !r.cache && Live(s, r.instance) then Explicit(s)[Host(addr) := r.instance] else Explicit(s) - {Host(addr)}
  {
    var key := Host(addr);
    forall k ensures k in Nets(t) <==> k in Nets(s) {
      if k.Net? {
        assert k in t.vhash <==> k in s.vhash;
      }
    }
    var e := if !r.cache && Live(s, r.instance) then Explicit(s)[key := r.instance] else Explicit(s) - {key};
    forall k ensures k in Explicit(t) <==> k in e {
      if k != key {
        assert k in t.vhash <==> k in s.vhash;
      }
    }
  }

  lemma HostUpdateShapes(s: Server, t: Server, addr: Word32, r: Route)
    requires HostUpdate(s, t, addr, r) && r.cache == r.ageable && r.generation <= s.helper.generation
    requires forall k :: k in s.vhash ==> RouteShape(s, k)
    ensures forall k :: k in t.vhash ==> RouteShape(t, k)
  {
    forall k | k in t.vhash ensures RouteShape(t, k) {
      if k != Host(addr) {
        assert RouteShape(s, k);
      }
    }
  }

  lemma HostUpdateCache(s: Server, t: Server, addr: Word32, r: Route)
    requires HostUpdate(s, t, addr, r) && CacheOk(s)
    requires CachedRight(s, addr, r)
    ensures CacheOk(t)
  {
    HostUpdateMaps(s, t, addr, r);
    forall a | Host(a) in t.vhash ensures CachedRight(t, a, t.vhash[Host(a)]) {
      if a != addr {
        assert CachedRight(s, a, s.vhash[Host(a)]);
      }
    }
  }

  /** A change of one host entry: what it does to the explicit routes, the networks and the shapes. */
  lemma HostEntry(s: Server, t: Server, addr: Word32, r: Route)
    requires HostUpdate(s, t, addr, r) && r.cache == r.ageable && r.generation <= s.helper.generation
    requires CacheOk(s) && forall k :: k in s.vhash ==> RouteShape(s, k)
    requires CachedRight(s, addr, r)
    ensures CacheOk(t) && forall k :: k in t.vhash ==> RouteShape(t, k)
    ensures Nets(t) == Nets(s)
    ensures Explicit(t) ==
      if !r.cache && Live(s, r.instance) then Explicit(s)[Host(addr) := r.instance] else Explicit(s) - {Host(addr)}
  {
    HostUpdateMaps(s, t, addr, r);
    HostUpdateShapes(s, t, addr, r);
    HostUpdateCache(s, t, addr, r);
  }

  lemma ProfilesKeep(s: Server, t: Server, key: Key, r: Route)
    requires SameInstances(s, t) && t.vhash == s.vhash[key := r]
    requires forall id :: Live(s, id) ==> ProfileShape(s, id)
    requires Live(s, r.instance) ==> s.instances[r.instance].profile.established
    ensures forall id :: Live(t, id) ==> ProfileShape(t, id)
  {
    forall id | Live(t, id) ensures ProfileShape(t, id) {
      assert ProfileShape(s, id);
      if !s.instances[id].profile.established {
        assert Routes(t.vhash, id) <= Routes(s.vhash, id);
      }
    }
  }

  /** Caching the answer of the scan as a host route changes no explicit route and keeps the invariant. */
  lemma CacheAnswer(s: Server, mi: Id, addr: Word32, script: bool, now: int)
    requires Inv(s) && Host(addr) !in Explicit(s) && Best(s.helper.netLen, Nets(s), addr) == Some(mi) && Live(s, mi)
    ensures
      var t := Learn(s, mi, Host(addr), true, script, now).0;
      Inv(t) && Explicit(t) == Explicit(s)
  {
    hide Explicit, CountedOne, Best, LengthsOk, CachedRight, RouteShape, Installs, Learn, LiveView, CacheOk, Nets;
    LearnFacts(s, mi, Host(addr), true, script, now);
    var t := Learn(s, mi, Host(addr), true, script, now).0;
    if Installs(s, mi, Host(addr), script, now) {
      var r := t.vhash[Host(addr)];
      OwnerEstablished(s, addr, mi);
      HostEntry(s, t, addr, r);
      ProfilesKeep(s, t, Host(addr), r);
    }
  }

  lemma {:induction false} BestIsNet(lens: seq<nat>, nets: map<Key, Id>, addr: Word32)
    ensures Best(lens, nets, addr).Some? ==> exists k :: k in nets && nets[k] == Best(lens, nets, addr).value
  {
    if lens != [] && NetAt(addr, lens[0]) !in nets {
      BestIsNet(lens[1..], nets, addr);
    }
  }

  lemma OwnerEstablished(s: Server, addr: Word32, mi: Id)
    requires Inv(s) && Best(s.helper.netLen, Nets(s), addr) == Some(mi) && Live(s, mi)
    ensures s.instances[mi].profile.established
  {
    BestIsNet(s.helper.netLen, Nets(s), addr);
    var k :| k in Nets(s) && Nets(s)[k] == mi;
    assert RouteShape(s, k);
    assert ProfileShape(s, mi);
  }

  lemma TouchCounted(s: Server, key: Key, now: int)
    requires Counted(s) && key in s.vhash
    ensures
      var t := s.(vhash := s.vhash[key := s.vhash[key].(lastReference := now)]);
      Counted(t) && SameInstances(s, t)
  {
    var t := s.(vhash := s.vhash[key := s.vhash[key].(lastReference := now)]);
    forall id ensures Routes(t.vhash, id) == Routes(s.vhash, id) {
    }
    SameViews(s, t);
  }

  lemma DefinedOwner(s: Server, addr: Word32, now: int)
    requires Inv(s) && Owner(s, Host(addr), now).Some?
    ensures
      var r := s.vhash[Host(addr)];
      && r.cache == r.ageable && r.generation <= s.helper.generation
      && Live(s, r.instance) && s.instances[r.instance].profile.established
      && CachedRight(s, addr, r)
      && (r.cache ==> Host(addr) !in Explicit(s)) && (!r.cache ==> Explicit(s)[Host(addr) := r.instance] == Explicit(s))
  {
    hide LengthsOk, Best, Nets, Counted;
    var r := s.vhash[Host(addr)];
    assert RouteShape(s, Host(addr));
    assert ProfileShape(s, r.instance) && Host(addr) in Routes(s.vhash, r.instance);
  }

  lemma TouchKeeps(s: Server, addr: Word32, now: int)
    requires Inv(s) && Owner(s, Host(addr), now).Some?
    ensures
      var t := s.(vhash := s.vhash[Host(addr) := s.vhash[Host(addr)].(lastReference := now)]);
      Inv(t) && Explicit(t) == Explicit(s)
  {
    hide Nets, Explicit, LengthsOk, Best, RouteShape, CountedOne, CacheOk, LiveView, Routes;
    var key := Host(addr);
    var r := s.vhash[key].(lastReference := now);
    var t := s.(vhash := s.vhash[key := r]);
    DefinedOwner(s, addr, now);
    TouchCounted(s, key, now);
    HostEntry(s, t, addr, r);
    ProfilesKeep(s, t, key, r);
    assert r.cache ==> Explicit(s) - {key} == Explicit(s);
  }

  /** Lookups refresh and cache host routes, but no explicit route changes. */
  lemma LookupKeeps(s: Server, addr: Word32, script: bool, now: int)
    requires Inv(s)
    ensures
      var t := Lookup(s, addr, true, script, now).0;
      Inv(t) && Explicit(t) == Explicit(s)
  {
    var key := Host(addr);
    ScanIsBest(s, addr, 0, now);
    assert s.helper.netLen[0..] == s.helper.netLen;
    if addr != s.local {
      if Owner(s, key, now).Some? {
        TouchKeeps(s, addr, now);
      } else if Scan(s, addr, 0, now).Some? {
        if key in s.vhash {
          assert RouteShape(s, key);
        }
        CacheAnswer(s, Scan(s, addr, 0, now).value, addr, script, now);
      }
    }
  }

  // ----- what a lookup leaves behind -----

  /** A lookup that is answered by a host route renews it: an ageable one lives for another minute. */
  lemma TouchRenews(s: Server, addr: Word32, cidrRouting: bool, script: bool, now: int)
    requires Closed(s) && addr != s.local && Owner(s, Host(addr), now).Some?
    ensures
      var (t, answer) := Lookup(s, addr, cidrRouting, script, now);
      && answer == Owner(s, Host(addr), now) && t.instances == s.instances && t.vhash.Keys == s.vhash.Keys
      && forall later ::
           Owner(t, Host(addr), later) == answer <==>
             !s.vhash[Host(addr)].ageable || later <= now + MULTI_CACHE_ROUTE_TTL
  {
  }

  /** A lookup that is answered by the scan leaves a host route that gives the same answer for a minute. */
  lemma ScanIsCached(s: Server, addr: Word32, now: int)
    requires Inv(s) && addr != s.local && addr != 0 && addr != WORD_LIMIT - 1
    requires Owner(s, Host(addr), now) == None && Scan(s, addr, 0, now).Some?
    requires
      var mi := Scan(s, addr, 0, now).value;
      mi in s.instances && s.instances[mi].routeCount < s.instances[mi].profile.maxRoutes
    ensures
      var (t, answer) := Lookup(s, addr, true, true, now);
      && answer == Scan(s, addr, 0, now) && t.helper == s.helper
      && forall later :: Owner(t, Host(addr), later) == answer <==> later <= now + MULTI_CACHE_ROUTE_TTL
  {
    LearnFacts(s, Scan(s, addr, 0, now).value, Host(addr), true, true, now);
  }

  /** Without CIDR routing only host routes answer, and nothing is learned. */
  lemma HostsOnly(s: Server, addr: Word32, script: bool, now: int)
    requires Closed(s)
    ensures
      var (t, answer) := Lookup(s, addr, false, script, now);
      && answer == (if addr == s.local then None else Owner(s, Host(addr), now))
      && t.vhash.Keys == s.vhash.Keys && t.instances == s.instances && (answer == None ==> t == s)
  {
  }
}
