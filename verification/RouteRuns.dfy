/** The invariant of RouteCache is kept by every operation, so its lookups are right in every run. */
module RouteRuns {
  import opened Integers
  import opened Wrappers
  import opened Routing
  import opened RouteCache

  // ----- while a client connects -----

  function AssignAll(table: map<Key, Id>, keys: seq<Key>, id: Id): map<Key, Id> {
    table + map k | k in keys :: id
  }

  /** The invariant between two learns of one client, whose own profile is being filled in. */
  ghost predicate Mid(s: Server, id: Id) {
    && Counted(s) && Live(s, id) && CacheOk(s)
    && s.helper.netLen == Lengths(s.helper.refcounts, MR_HELPER_NET_LEN)
    && (forall k :: k in s.vhash ==> RouteShape(s, k))
    && (forall i :: Live(s, i) && i != id ==> ProfileShape(s, i))
    && OnlyExplicit(s, id)
  }

  ghost predicate OnlyExplicit(s: Server, id: Id) {
    forall k :: k in s.vhash && s.vhash[k].instance == id ==> !s.vhash[k].cache
  }

  lemma InvIsMid(s: Server, id: Id)
    requires Inv(s) && Live(s, id) && !s.instances[id].profile.established
    ensures Mid(s, id)
  {
    assert ProfileShape(s, id);
    assert forall k :: k in s.vhash && s.vhash[k].instance == id ==> k in Routes(s.vhash, id);
  }

  lemma OthersKeep(s: Server, t: Server, id: Id, key: Key, r: Route)
    requires SameInstances(s, t) && t.vhash == s.vhash[key := r] && r.instance == id
    requires forall i :: Live(s, i) && i != id ==> ProfileShape(s, i)
    ensures forall i :: Live(t, i) && i != id ==> ProfileShape(t, i)
  {
    forall i | Live(t, i) && i != id ensures ProfileShape(t, i) {
      assert ProfileShape(s, i);
      assert Routes(t.vhash, i) <= Routes(s.vhash, i);
    }
  }

  lemma AssignOne(table: map<Key, Id>, key: Key, id: Id)
    ensures AssignAll(table, [key], id) == table[key := id]
    ensures key in table && table[key] == id ==> table[key := id] == table
    ensures AssignAll(table, [], id) == table
  {
  }

  lemma AssignTwice(table: map<Key, Id>, a: seq<Key>, b: seq<Key>, id: Id)
    ensures AssignAll(AssignAll(table, a, id), b, id) == AssignAll(table, a + b, id)
  {
  }

  lemma ExplicitUpdate(s: Server, t: Server, key: Key, r: Route)
    requires SameInstances(s, t) && t.vhash == s.vhash[key := r] && !r.cache && Live(s, r.instance)
    ensures Explicit(t) == Explicit(s)[key := r.instance]
  {
    forall k ensures k in Explicit(t) <==> k in Explicit(s)[key := r.instance] {
      if k != key {
        assert k in t.vhash <==> k in s.vhash;
      }
    }
  }

  /** An explicit learn adds exactly its key to the explicit routes, when id owns the key afterwards. */
  lemma ExplicitLearn(s: Server, id: Id, key: Key, script: bool, now: int)
    requires Counted(s) && Live(s, id) && OnlyExplicit(s, id)
    ensures
      var (t, owner) := Learn(s, id, key, false, script, now);
      Explicit(t) == AssignAll(Explicit(s), if owner == Some(id) then [key] else [], id)
  {
    LearnFacts(s, id, key, false, script, now);
    AssignOne(Explicit(s), key, id);
    var (t, owner) := Learn(s, id, key, false, script, now);
    if Installs(s, id, key, script, now) {
      ExplicitUpdate(s, t, key, t.vhash[key]);
    } else if owner == Some(id) {
      assert key in Explicit(s) && Explicit(s)[key] == id;
    }
  }

  lemma MidHost(s: Server, id: Id, addr: Word32, script: bool, now: int)
    requires Mid(s, id)
    ensures
      var t := Learn(s, id, Host(addr), false, script, now).0;
      Mid(t, id) && SameInstances(s, t) && t.helper == s.helper
  {
    LearnFacts(s, id, Host(addr), false, script, now);
    var t := Learn(s, id, Host(addr), false, script, now).0;
    if Installs(s, id, Host(addr), script, now) {
      var r := t.vhash[Host(addr)];
      HostEntry(s, t, addr, r);
      OthersKeep(s, t, id, Host(addr), r);
    }
  }

  ghost predicate NoneCurrent(s: Server) {
    forall k :: k in s.vhash && s.vhash[k].cache ==> s.vhash[k].generation < s.helper.generation
  }

  lemma MidNet(s: Server, id: Id, key: Key, script: bool, now: int)
    requires Mid(s, id) && NoneCurrent(s) && Announces(s.instances[id].profile, key)
    requires key.netbits < MR_HELPER_NET_LEN && Mask(key.addr, key.netbits) == key.addr
    ensures
      var t := Learn(s, id, key, false, script, now).0;
      Mid(t, id) && SameInstances(s, t) && t.helper == s.helper
  {
    LearnFacts(s, id, key, false, script, now);
    var t := Learn(s, id, key, false, script, now).0;
    if Installs(s, id, key, script, now) {
      forall k | k in t.vhash ensures RouteShape(t, k) {
        if k != key {
          assert RouteShape(s, k);
        }
      }
      OthersKeep(s, t, id, key, t.vhash[key]);
    }
  }

  lemma {:induction false} LengthsSame(a: seq<int>, b: seq<int>, n: nat)
    requires n <= |a| == |b| && forall i :: 0 <= i < n ==> (a[i] > 0 <==> b[i] > 0)
    ensures Lengths(a, n) == Lengths(b, n)
  {
    if n > 0 {
      LengthsSame(a, b, n - 1);
    }
  }

  /** Adding a length regenerates the list only on a first use, which is when it can change. */
  lemma HelperAddKeeps(h: Helper, ir: Iroute)
    requires HelperShape(h) && LegalIroute(ir) && h.netLen == Lengths(h.refcounts, MR_HELPER_NET_LEN)
    requires forall i :: 0 <= i < MR_HELPER_NET_LEN ==> h.refcounts[i] >= 0
    ensures
      var g := HelperAdd(h, ir);
      && g.netLen == Lengths(g.refcounts, MR_HELPER_NET_LEN)
      && g.generation == h.generation + (if ir.netbits >= 0 then 1 else 0)
      && forall i :: 0 <= i < MR_HELPER_NET_LEN ==>
        g.refcounts[i] == h.refcounts[i] + (if ir.netbits == i then 1 else 0)
  {
    var g := HelperAdd(h, ir);
    if ir.netbits >= 0 && h.refcounts[ir.netbits] > 0 {
      LengthsSame(h.refcounts, g.refcounts, MR_HELPER_NET_LEN);
    }
  }

  lemma HelperDelKeeps(h: Helper, ir: Iroute)
    requires HelperShape(h) && LegalIroute(ir) && h.netLen == Lengths(h.refcounts, MR_HELPER_NET_LEN)
    requires ir.netbits >= 0 ==> h.refcounts[ir.netbits] > 0
    ensures
      var g := HelperDel(h, ir);
      && g.netLen == Lengths(g.refcounts, MR_HELPER_NET_LEN)
      && g.generation == h.generation + (if ir.netbits >= 0 then 1 else 0)
      && forall i :: 0 <= i < MR_HELPER_NET_LEN ==>
        g.refcounts[i] == h.refcounts[i] - (if ir.netbits == i then 1 else 0)
  {
    var g := HelperDel(h, ir);
    if ir.netbits >= 0 && h.refcounts[ir.netbits] != 1 {
      LengthsSame(h.refcounts, g.refcounts, MR_HELPER_NET_LEN);
    }
  }

  /** How many of the iroutes have the given length. */
  function CountLen(irs: seq<Iroute>, len: int): nat {
    if irs == [] then 0 else (if irs[0].netbits == len then 1 else 0) + CountLen(irs[1..], len)
  }

  ghost predicate NotNegative(h: Helper) {
    HelperShape(h) && forall i :: 0 <= i < MR_HELPER_NET_LEN ==> h.refcounts[i] >= 0
  }

  /** Counting a length invalidates every cached route at once. */
  lemma BumpMid(s: Server, id: Id, ir: Iroute)
    requires Mid(s, id) && LegalIroute(ir) && NotNegative(s.helper)
    ensures
      var t := s.(helper := HelperAdd(s.helper, ir));
      && Mid(t, id) && SameInstances(s, t) && Explicit(t) == Explicit(s)
      && (ir.netbits >= 0 ==> NoneCurrent(t))
  {
    HelperAddKeeps(s.helper, ir);
    var t := s.(helper := HelperAdd(s.helper, ir));
    SameViews(s, t);
    assert Explicit(t) == Explicit(s);
    if ir.netbits >= 0 {
      forall k | k in t.vhash ensures RouteShape(t, k) {
        assert RouteShape(s, k);
      }
      forall i | Live(t, i) && i != id ensures ProfileShape(t, i) {
        assert ProfileShape(s, i);
      }
    }
  }

  lemma AddIrouteMid(s: Server, id: Id, ir: Iroute, script: bool, now: int)
    requires Mid(s, id) && LegalIroute(ir) && NotNegative(s.helper)
    requires s.instances[id].profile.didIroutes && ir in s.instances[id].profile.iroutes
    ensures
      var (t, owner) := AddIroute(s, id, ir, script, now);
      && Mid(t, id) && SameInstances(s, t) && t.helper == HelperAdd(s.helper, ir) && NotNegative(t.helper)
      && Explicit(t) == AssignAll(Explicit(s), if owner == Some(id) then [KeyOf(ir)] else [], id)
  {
    HelperAddKeeps(s.helper, ir);
    BumpMid(s, id, ir);
    var b := s.(helper := HelperAdd(s.helper, ir));
    ExplicitLearn(b, id, KeyOf(ir), script, now);
    if ir.netbits >= 0 {
      MidNet(b, id, KeyOf(ir), script, now);
    } else {
      MidHost(b, id, ir.network, script, now);
    }
  }

  lemma {:induction false} AddIroutesMid(s: Server, id: Id, irs: seq<Iroute>, scripts: seq<bool>, now: int)
    requires Mid(s, id) && LegalIroutes(irs) && |scripts| == |irs| && NotNegative(s.helper)
    requires s.instances[id].profile.didIroutes && forall ir :: ir in irs ==> ir in s.instances[id].profile.iroutes
    ensures
      var (t, keys) := AddIroutes(s, id, irs, scripts, now);
      && Mid(t, id) && SameInstances(s, t)
      && (forall i :: 0 <= i < MR_HELPER_NET_LEN ==> t.helper.refcounts[i] == s.helper.refcounts[i] + CountLen(irs, i))
      && Explicit(t) == AssignAll(Explicit(s), keys, id)
    decreases |irs|
  {
    if irs == [] {
      AssignOne(Explicit(s), Host(0), id);
    } else {
      assert LegalIroute(irs[0]);
      AddIrouteMid(s, id, irs[0], scripts[0], now);
      HelperAddKeeps(s.helper, irs[0]);
      var (t, owner) := AddIroute(s, id, irs[0], scripts[0], now);
      var first := if owner == Some(id) then [KeyOf(irs[0])] else [];
      var (u, keys) := AddIroutes(t, id, irs[1..], scripts[1..], now);
      assert AddIroutes(s, id, irs, scripts, now) == (u, first + keys);
      AssignTwice(Explicit(s), first, keys, id);
      AddIroutesMid(t, id, irs[1..], scripts[1..], now);
    }
  }

  // ----- counting the iroutes of the live instances -----

  ghost function Own(id: Id, irs: seq<Iroute>, from: nat, len: int): set<(Id, int)> {
    set j | from <= j < |irs| && irs[j].netbits == len :: (id, j)
  }

  lemma {:induction false} OwnCount(id: Id, irs: seq<Iroute>, from: nat, len: int)
    requires from <= |irs|
    ensures |Own(id, irs, from, len)| == CountLen(irs[from..], len)
    decreases |irs| - from
  {
    if from < |irs| {
      OwnCount(id, irs, from + 1, len);
      assert irs[from..][1..] == irs[from + 1..];
      assert Own(id, irs, from, len)
          == Own(id, irs, from + 1, len) + (if irs[from].netbits == len then {(id, from as int)} else {});
    } else {
      assert Own(id, irs, from, len) == {};
    }
  }

  lemma PairsSplit(view: map<Id, Profile>, id: Id, len: int)
    requires id in view && view[id].didIroutes
    ensures |Pairs(view, len)| == |Pairs(view - {id}, len)| + CountLen(view[id].iroutes, len)
  {
    var irs := view[id].iroutes;
    OwnCount(id, irs, 0, len);
    assert irs[0..] == irs;
    var rest, own := Pairs(view - {id}, len), Own(id, irs, 0, len);
    assert Pairs(view, len) == rest + own;
    assert rest !! own;
  }

  lemma PairsIgnore(view: map<Id, Profile>, id: Id, len: int)
    requires id in view ==> !view[id].didIroutes
    ensures Pairs(view, len) == Pairs(view - {id}, len)
  {
  }

  lemma LengthsNotNegative(s: Server)
    requires LengthsOk(s.helper, LiveView(s))
    ensures NotNegative(s.helper)
  {
  }

  // ----- connecting -----

  lemma EstablishMid(s: Server, id: Id, irs: seq<Iroute>)
    requires Mid(s, id) && !s.instances[id].profile.didIroutes && LegalIroutes(irs)
    ensures
      var t := Establish(s, id, irs);
      && Mid(t, id) && Explicit(t) == Explicit(s)
      && t.instances[id].profile.didIroutes && t.instances[id].profile.established
      && t.instances[id].profile.iroutes == irs
      && LiveView(t) - {id} == LiveView(s) - {id}
  {
    var t := Establish(s, id, irs);
    assert forall i :: Live(t, i) <==> Live(s, i);
    assert Nets(t) == Nets(s);
    assert Explicit(t) == Explicit(s);
    forall k | k in t.vhash ensures RouteShape(t, k) {
      assert RouteShape(s, k);
    }
    forall i | Live(t, i) && i != id ensures ProfileShape(t, i) {
      assert ProfileShape(s, i);
    }
    forall i | i in t.instances ensures CountedOne(t.vhash, i, t.instances[i]) {
      assert CountedOne(s.vhash, i, s.instances[i]);
    }
    forall a | Host(a) in t.vhash ensures CachedRight(t, a, t.vhash[Host(a)]) {
      assert CachedRight(s, a, s.vhash[Host(a)]);
    }
  }

  lemma LengthsAfter(s: Server, t: Server, id: Id, irs: seq<Iroute>)
    requires LengthsOk(s.helper, LiveView(s)) && Live(s, id) && !s.instances[id].profile.didIroutes
    requires Live(t, id) && t.instances[id].profile.didIroutes && t.instances[id].profile.iroutes == irs
    requires LiveView(t) - {id} == LiveView(s) - {id}
    requires HelperShape(t.helper) && t.helper.netLen == Lengths(t.helper.refcounts, MR_HELPER_NET_LEN)
    requires forall i :: 0 <= i < MR_HELPER_NET_LEN ==>
      t.helper.refcounts[i] == s.helper.refcounts[i] + CountLen(irs, i)
    ensures LengthsOk(t.helper, LiveView(t))
  {
    forall len | 0 <= len < MR_HELPER_NET_LEN ensures t.helper.refcounts[len] == |Pairs(LiveView(t), len)| {
      PairsSplit(LiveView(t), id, len);
      PairsIgnore(LiveView(s), id, len);
    }
  }

  lemma ConnectRest(s: Server, t: Server, id: Id, irs: seq<Iroute>, scripts: seq<bool>, now: int)
    requires Mid(t, id) && !t.instances[id].profile.didIroutes && LegalIroutes(irs) && |scripts| == |irs|
    requires LengthsOk(s.helper, LiveView(s)) && Live(s, id) && SameInstances(s, t) && t.helper == s.helper
    ensures Counted(Establish(t, id, irs)) && Live(Establish(t, id, irs), id)
    ensures
      var (u, keys) := AddIroutes(Establish(t, id, irs), id, irs, scripts, now);
      Inv(u) && Explicit(u) == AssignAll(Explicit(t), keys, id)
  {
    EstablishMid(t, id, irs);
    LengthsNotNegative(s);
    var e := Establish(t, id, irs);
    AddIroutesMid(e, id, irs, scripts, now);
    var (u, keys) := AddIroutes(e, id, irs, scripts, now);
    assert LiveView(u) - {id} == LiveView(s) - {id};
    LengthsAfter(s, u, id, irs);
    assert ProfileShape(u, id);
  }

  /** Connecting adds to the explicit routes exactly the keys that the client then owns. */
  lemma ConnectKeeps(s: Server, id: Id, host: Option<Word32>, script: bool,
                     irs: seq<Iroute>, scripts: seq<bool>, now: int)
    requires Inv(s) && Live(s, id) && !s.instances[id].profile.established
    requires LegalIroutes(irs) && |scripts| == |irs|
    ensures
      var (t, keys) := Connect(s, id, host, script, irs, scripts, now);
      Inv(t) && Explicit(t) == AssignAll(Explicit(s), keys, id)
  {
    InvIsMid(s, id);
    assert ProfileShape(s, id);
    if host == None {
      SameViews(s, s);
      ConnectRest(s, s, id, irs, scripts, now);
    } else {
      var key := Host(host.value);
      MidHost(s, id, host.value, script, now);
      ExplicitLearn(s, id, key, script, now);
      var (t, owner) := Learn(s, id, key, false, script, now);
      var first := if owner == Some(id) then [key] else [];
      ConnectRest(s, t, id, irs, scripts, now);
      AssignTwice(Explicit(s), first, AddIroutes(Establish(t, id, irs), id, irs, scripts, now).1, id);
    }
  }

  // ----- closing -----

  // ----- what a client learns -----

  /** The keys that multi_connection_established asks for, in order. */
  function KeysOf(irs: seq<Iroute>): (keys: seq<Key>)
    requires LegalIroutes(irs)
    ensures |keys| == |irs|
  {
    if irs == [] then []
    else
      assert LegalIroute(irs[0]);
      [KeyOf(irs[0])] + KeysOf(irs[1..])
  }

  function Learnables(local: Word32, keys: seq<Key>): seq<Key> {
    if keys == [] then []
    else (if Learnable(keys[0]) && keys[0] != Host(local) then [keys[0]] else []) + Learnables(local, keys[1..])
  }

  /** Room for n more routes, and no route so far that could not be learned. */
  ghost predicate MayLearn(s: Server, id: Id, n: nat) {
    && Counted(s) && Live(s, id) && s.instances[id].routeCount + n <= s.instances[id].profile.maxRoutes
    && forall k :: k in Routes(s.vhash, id) ==> Learnable(k) && k != Host(s.local)
  }

  lemma LearnAnswers(s: Server, id: Id, key: Key, now: int, n: nat)
    requires MayLearn(s, id, n + 1)
    ensures
      var (t, owner) := Learn(s, id, key, false, true, now);
      && MayLearn(t, id, n) && t.local == s.local
      && (owner == Some(id) <==> Learnable(key) && key != Host(s.local))
  {
    LearnCounted(s, id, key, false, true, now);
    assert Owner(s, key, now) == Some(id) ==> key in Routes(s.vhash, id);
    assert id in LiveView(s) && LiveView(s)[id] == s.instances[id].profile;
    var t := Learn(s, id, key, false, true, now).0;
    assert id in LiveView(t) && LiveView(t)[id] == t.instances[id].profile;
    if Installs(s, id, key, true, now) {
      RoutesUpdate(s.vhash, key, t.vhash[key], id);
    }
  }

  lemma {:induction false} AddIroutesLearn(s: Server, id: Id, irs: seq<Iroute>, scripts: seq<bool>, now: int)
    requires LegalIroutes(irs) && |scripts| == |irs| && MayLearn(s, id, |irs|)
    requires forall j :: 0 <= j < |irs| ==> scripts[j]
    ensures AddIroutes(s, id, irs, scripts, now).1 == Learnables(s.local, KeysOf(irs))
    decreases |irs|
  {
    if irs != [] {
      assert LegalIroute(irs[0]);
      var u := s.(helper := HelperAdd(s.helper, irs[0]));
      LearnAnswers(u, id, KeyOf(irs[0]), now, |irs| - 1);
      var t := AddIroute(s, id, irs[0], scripts[0], now).0;
      AddIroutesLearn(t, id, irs[1..], scripts[1..], now);
      assert KeysOf(irs)[1..] == KeysOf(irs[1..]);
    }
  }

  /** With scripts that agree and a quota that suffices, a client learns every key asked for that can be learned. */
  lemma ConnectLearns(s: Server, id: Id, host: Option<Word32>, irs: seq<Iroute>, scripts: seq<bool>, now: int)
    requires Inv(s) && Live(s, id) && !s.instances[id].profile.established
    requires LegalIroutes(irs) && |scripts| == |irs| && forall j :: 0 <= j < |irs| ==> scripts[j]
    requires s.instances[id].routeCount + 1 + |irs| <= s.instances[id].profile.maxRoutes
    ensures
      Connect(s, id, host, true, irs, scripts, now).1
      == Learnables(s.local, (if host.Some? then [Host(host.value)] else []) + KeysOf(irs))
  {
    assert ProfileShape(s, id);
    if host == None {
      EstablishMayLearn(s, id, irs);
      AddIroutesLearn(Establish(s, id, irs), id, irs, scripts, now);
      assert [] + KeysOf(irs) == KeysOf(irs);
    } else {
      var key := Host(host.value);
      LearnAnswers(s, id, key, now, |irs|);
      var t := Learn(s, id, key, false, true, now).0;
      EstablishMayLearn(t, id, irs);
      AddIroutesLearn(Establish(t, id, irs), id, irs, scripts, now);
      assert ([key] + KeysOf(irs))[1..] == KeysOf(irs);
    }
  }

  lemma EstablishMayLearn(s: Server, id: Id, irs: seq<Iroute>)
    requires MayLearn(s, id, |irs|)
    ensures MayLearn(Establish(s, id, irs), id, |irs|)
  {
  }

  lemma {:induction false} DelAllKeeps(h: Helper, irs: seq<Iroute>)
    requires HelperShape(h) && LegalIroutes(irs) && h.netLen == Lengths(h.refcounts, MR_HELPER_NET_LEN)
    requires forall i :: 0 <= i < MR_HELPER_NET_LEN ==> h.refcounts[i] >= CountLen(irs, i)
    ensures
      var g := HelperDelAll(h, irs);
      && g.netLen == Lengths(g.refcounts, MR_HELPER_NET_LEN)
      && (forall i :: 0 <= i < MR_HELPER_NET_LEN ==> g.refcounts[i] == h.refcounts[i] - CountLen(irs, i))
      && g.generation >= h.generation
      && (g.generation == h.generation ==> g == h && forall ir :: ir in irs ==> ir.netbits == -1)
    decreases |irs|
  {
    if irs != [] {
      assert LegalIroute(irs[0]);
      assert irs[0].netbits >= 0 ==> CountLen(irs, irs[0].netbits) > 0;
      HelperDelKeeps(h, irs[0]);
      DelAllKeeps(HelperDel(h, irs[0]), irs[1..]);
    }
  }

  ghost function WithoutOwner(table: map<Key, Id>, id: Id): map<Key, Id> {
    map k | k in table && table[k] != id :: table[k]
  }

  lemma CloseMaps(s: Server, t: Server, id: Id)
    requires t.vhash == s.vhash && (forall i :: Live(t, i) <==> Live(s, i) && i != id)
    ensures Explicit(t) == WithoutOwner(Explicit(s), id)
    ensures (forall k :: k in Nets(s) ==> Nets(s)[k] != id) ==> Nets(t) == Nets(s)
  {
  }

  lemma CloseLive(s: Server, id: Id)
    requires Counted(s) && Live(s, id) && LegalIroutes(s.instances[id].profile.iroutes)
    ensures
      var t := Close(s, id, false);
      && (forall i :: Live(t, i) <==> Live(s, i) && i != id)
      && (forall i :: Live(t, i) ==> t.instances[i].profile == s.instances[i].profile)
      && LiveView(t) == LiveView(s) - {id}
  {
    hide CountedOne;
  }

  /** An instance whose closing leaves the generation alone owned no network. */
  lemma QuietCloseOwnsNoNet(s: Server, id: Id)
    requires Inv(s) && Live(s, id) && LegalIroutes(s.instances[id].profile.iroutes)
    requires Close(s, id, false).helper.generation == s.helper.generation
    ensures forall k :: k in Nets(s) ==> Nets(s)[k] != id
  {
    CloseLengths(s, id);
    forall k | k in Nets(s) ensures Nets(s)[k] != id {
      assert RouteShape(s, k);
    }
  }

  lemma CloseShape(s: Server, id: Id)
    requires Inv(s) && Live(s, id)
    ensures LegalIroutes(s.instances[id].profile.iroutes)
    ensures
      var t := Close(s, id, false);
      && Counted(t) && t.vhash == s.vhash && t.helper.generation >= s.helper.generation
      && (forall i :: Live(t, i) <==> Live(s, i) && i != id)
      && (forall i :: Live(t, i) ==> t.instances[i].profile == s.instances[i].profile)
      && LengthsOk(t.helper, LiveView(t))
      && (t.helper.generation == s.helper.generation ==>
          t.helper == s.helper && forall k :: k in Nets(s) ==> Nets(s)[k] != id)
  {
    assert ProfileShape(s, id);
    CloseLive(s, id);
    CloseCounted(s, id, false);
    CloseLengths(s, id);
    if Close(s, id, false).helper.generation == s.helper.generation {
      QuietCloseOwnsNoNet(s, id);
    }
  }

  lemma CloseLengths(s: Server, id: Id)
    requires Inv(s) && Live(s, id) && LegalIroutes(s.instances[id].profile.iroutes)
    ensures
      var t := Close(s, id, false);
      var p := s.instances[id].profile;
      && LengthsOk(t.helper, LiveView(s) - {id}) && t.helper.generation >= s.helper.generation
      && (t.helper.generation == s.helper.generation ==>
          t.helper == s.helper && (p.didIroutes ==> forall ir :: ir in p.iroutes ==> ir.netbits == -1))
  {
    var view, p, t := LiveView(s), s.instances[id].profile, Close(s, id, false);
    assert view[id] == p;
    forall len | 0 <= len < MR_HELPER_NET_LEN
      ensures |Pairs(view - {id}, len)|
        == s.helper.refcounts[len] - (if p.didIroutes then CountLen(p.iroutes, len) else 0)
    {
      if p.didIroutes {
        PairsSplit(view, id, len);
      } else {
        PairsIgnore(view, id, len);
      }
    }
    if p.didIroutes {
      DelAllKeeps(s.helper, p.iroutes);
    }
  }

  /** Closing an instance removes its explicit routes and no others. */
  lemma CloseKeeps(s: Server, id: Id)
    requires Inv(s) && Live(s, id)
    ensures LegalIroutes(s.instances[id].profile.iroutes)
    ensures
      var t := Close(s, id, false);
      Inv(t) && Explicit(t) == WithoutOwner(Explicit(s), id)
  {
    CloseShape(s, id);
    var t := Close(s, id, false);
    CloseMaps(s, t, id);
    forall k | k in t.vhash ensures RouteShape(t, k) {
      assert RouteShape(s, k);
    }
    forall i | Live(t, i) ensures ProfileShape(t, i) {
      assert ProfileShape(s, i);
    }
    forall a | Host(a) in t.vhash ensures CachedRight(t, a, t.vhash[Host(a)]) {
      assert CachedRight(s, a, s.vhash[Host(a)]) && RouteShape(s, Host(a));
    }
  }

  // ----- creating and reaping -----

  /** Entries may go that no lookup can see; what is left reads as before. */
  ghost predicate Thinned(s: Server, t: Server) {
    && t.helper == s.helper
    && (forall k :: k in t.vhash ==> k in s.vhash && t.vhash[k] == s.vhash[k])
    && (forall k :: k in s.vhash && k !in t.vhash ==> s.vhash[k].cache || !Live(s, s.vhash[k].instance))
    && (forall k :: k in t.vhash ==> (Live(t, t.vhash[k].instance) <==> Live(s, t.vhash[k].instance)))
    && (forall k :: k in t.vhash && Live(t, t.vhash[k].instance) ==>
          t.instances[t.vhash[k].instance].profile == s.instances[t.vhash[k].instance].profile)
  }

  lemma ThinnedMaps(s: Server, t: Server)
    requires Thinned(s, t) && forall k :: k in s.vhash ==> RouteShape(s, k)
    ensures Nets(t) == Nets(s) && Explicit(t) == Explicit(s)
  {
    forall k ensures k in Nets(t) <==> k in Nets(s) {
      if k in s.vhash {
        assert RouteShape(s, k);
      }
    }
    forall k ensures k in Explicit(t) <==> k in Explicit(s) {
    }
  }

  lemma ThinnedKeeps(s: Server, t: Server)
    requires Thinned(s, t) && CacheOk(s) && forall k :: k in s.vhash ==> RouteShape(s, k)
    ensures Nets(t) == Nets(s) && Explicit(t) == Explicit(s)
    ensures CacheOk(t) && forall k :: k in t.vhash ==> RouteShape(t, k)
  {
    ThinnedMaps(s, t);
    forall k | k in t.vhash ensures RouteShape(t, k) {
      assert RouteShape(s, k);
    }
    forall a | Host(a) in t.vhash ensures CachedRight(t, a, t.vhash[Host(a)]) {
      assert CachedRight(s, a, s.vhash[Host(a)]);
    }
  }

  lemma CreateKeeps(s: Server, id: Id, maxRoutes: int)
    requires Inv(s) && id !in s.instances
    ensures Inv(Create(s, id, maxRoutes)) && Explicit(Create(s, id, maxRoutes)) == Explicit(s)
  {
    hide CacheOk, CountedOne, Explicit, Nets, Best;
    CreateCounted(s, id, maxRoutes);
    var t := Create(s, id, maxRoutes);
    ThinnedKeeps(s, t);
    forall i | Live(t, i) ensures ProfileShape(t, i) {
      if i != id {
        assert ProfileShape(s, i);
      } else {
        assert Routes(t.vhash, id) == {};
      }
    }
    assert LiveView(t) - {id} == LiveView(s) - {id};
    forall len | 0 <= len < MR_HELPER_NET_LEN ensures t.helper.refcounts[len] == |Pairs(LiveView(t), len)| {
      PairsIgnore(LiveView(t), id, len);
      PairsIgnore(LiveView(s), id, len);
    }
  }

  /** The reaper only removes what no lookup can see. */
  lemma ReapKeeps(s: Server, keys: seq<Key>, now: int)
    requires Inv(s)
    ensures Inv(ReapKeys(s, keys, now)) && Explicit(ReapKeys(s, keys, now)) == Explicit(s)
  {
    ReapRemovesUndefined(s, keys, now);
    var t := ReapKeys(s, keys, now);
    SameViews(s, t);
    forall k | k in s.vhash && k !in t.vhash ensures s.vhash[k].cache || !Live(s, s.vhash[k].instance) {
      assert RouteShape(s, k);
    }
    ThinnedKeeps(s, t);
    forall i | Live(t, i) ensures ProfileShape(t, i) {
      assert ProfileShape(s, i);
      assert Routes(t.vhash, i) <= Routes(s.vhash, i);
    }
  }

  // ----- whole runs -----

  datatype Event =
    | CreateClient(id: Id, maxRoutes: int)
    | ConnectClient(id: Id, host: Option<Word32>, script: bool, irs: seq<Iroute>, scripts: seq<bool>, now: int)
    | CloseClient(id: Id)
    | LookUp(addr: Word32, verdict: bool, now: int)
    | ReapSome(keys: seq<Key>, now: int)

  /** A client is created on fresh memory, connects at most once and is closed at most once. */
  ghost predicate Legal(s: Server, e: Event) {
    match e
    case CreateClient(id, maxRoutes) => id !in s.instances
    case ConnectClient(id, host, script, irs, scripts, now) =>
      Live(s, id) && !s.instances[id].profile.established && LegalIroutes(irs) && |scripts| == |irs|
    case CloseClient(id) => Live(s, id)
    case LookUp(addr, verdict, now) => true
    case ReapSome(keys, now) => true
  }

  ghost function Step(s: Server, e: Event): Server
    requires Inv(s) && Legal(s, e)
  {
    match e
    case CreateClient(id, maxRoutes) => Create(s, id, maxRoutes)
    case ConnectClient(id, host, script, irs, scripts, now) => Connect(s, id, host, script, irs, scripts, now).0
    case CloseClient(id) => CloseKeeps(s, id); Close(s, id, false)
    case LookUp(addr, verdict, now) => Lookup(s, addr, true, verdict, now).0
    case ReapSome(keys, now) => ReapKeys(s, keys, now)
  }

  /** How the plain routing table, which knows nothing of caches, follows the same event. */
  ghost function TableStep(table: map<Key, Id>, s: Server, e: Event): map<Key, Id>
    requires Inv(s) && Legal(s, e)
  {
    match e
    case ConnectClient(id, host, script, irs, scripts, now) =>
      AssignAll(table, Connect(s, id, host, script, irs, scripts, now).1, id)
    case CloseClient(id) => WithoutOwner(table, id)
    case _ => table
  }

  lemma StepKeeps(s: Server, e: Event)
    requires Inv(s) && Legal(s, e)
    ensures Inv(Step(s, e)) && Explicit(Step(s, e)) == TableStep(Explicit(s), s, e) && Step(s, e).local == s.local
  {
    match e
    case CreateClient(id, maxRoutes) => CreateKeeps(s, id, maxRoutes);
    case ConnectClient(id, host, script, irs, scripts, now) =>
      ConnectKeeps(s, id, host, script, irs, scripts, now);
      ConnectLocal(s, id, host, script, irs, scripts, now);
    case CloseClient(id) => CloseKeeps(s, id);
    case LookUp(addr, verdict, now) => LookupKeeps(s, addr, verdict, now);
    case ReapSome(keys, now) =>
      ReapKeeps(s, keys, now);
      ReapRemovesUndefined(s, keys, now);
  }

  lemma {:induction false} AddIroutesLocal(s: Server, id: Id, irs: seq<Iroute>, scripts: seq<bool>, now: int)
    requires Counted(s) && Live(s, id) && LegalIroutes(irs) && |scripts| == |irs|
    ensures AddIroutes(s, id, irs, scripts, now).0.local == s.local
    decreases |irs|
  {
    if irs != [] {
      assert LegalIroute(irs[0]);
      AddIrouteCounted(s, id, irs[0], scripts[0], now);
      AddIroutesLocal(AddIroute(s, id, irs[0], scripts[0], now).0, id, irs[1..], scripts[1..], now);
    }
  }

  lemma ConnectLocal(s: Server, id: Id, host: Option<Word32>, script: bool,
                     irs: seq<Iroute>, scripts: seq<bool>, now: int)
    requires Counted(s) && Live(s, id) && LegalIroutes(irs) && |scripts| == |irs|
    ensures Connect(s, id, host, script, irs, scripts, now).0.local == s.local
  {
    var t := s;
    if host != None {
      LearnCounted(s, id, Host(host.value), false, script, now);
      t := Learn(s, id, Host(host.value), false, script, now).0;
    }
    AddIroutesLocal(Establish(t, id, irs), id, irs, scripts, now);
  }

  ghost predicate LegalRun(s: Server, es: seq<Event>)
    requires Inv(s)
    decreases |es|
  {
    es == [] || (Legal(s, es[0]) && (StepKeeps(s, es[0]); LegalRun(Step(s, es[0]), es[1..])))
  }

  ghost function Run(s: Server, es: seq<Event>): (t: Server)
    requires Inv(s) && LegalRun(s, es)
    ensures Inv(t)
    decreases |es|
  {
    if es == [] then s else StepKeeps(s, es[0]); Run(Step(s, es[0]), es[1..])
  }

  ghost function TableRun(table: map<Key, Id>, s: Server, es: seq<Event>): map<Key, Id>
    requires Inv(s) && LegalRun(s, es)
    decreases |es|
  {
    if es == [] then table
    else StepKeeps(s, es[0]); TableRun(TableStep(table, s, es[0]), Step(s, es[0]), es[1..])
  }

  ghost function Boot(local: Word32): (s: Server)
    ensures Inv(s) && s.local == local && s.vhash == map[] && s.instances == map[]
  {
    var s := Server(local, map[], map[], Helper(0, [], seq(MR_HELPER_NET_LEN, _ => 0)));
    EmptyInv(s);
    s
  }

  lemma EmptyInv(s: Server)
    requires s.vhash == map[] && s.instances == map[] && s.helper == Helper(0, [], seq(MR_HELPER_NET_LEN, _ => 0))
    ensures Inv(s)
  {
    NoLengths(s.helper.refcounts, MR_HELPER_NET_LEN);
    forall len | 0 <= len < MR_HELPER_NET_LEN ensures s.helper.refcounts[len] == |Pairs(LiveView(s), len)| {
      assert Pairs(LiveView(s), len) == {};
    }
  }

  lemma {:induction false} NoLengths(rc: seq<int>, n: nat)
    requires n <= |rc| && forall i :: 0 <= i < n ==> rc[i] == 0
    ensures Lengths(rc, n) == []
  {
    if n > 0 {
      NoLengths(rc, n - 1);
    }
  }

  lemma {:induction false} RunKeeps(s: Server, es: seq<Event>, table: map<Key, Id>)
    requires Inv(s) && LegalRun(s, es) && table == Explicit(s)
    ensures Inv(Run(s, es)) && Explicit(Run(s, es)) == TableRun(table, s, es) && Run(s, es).local == s.local
    decreases |es|
  {
    if es != [] {
      StepKeeps(s, es[0]);
      RunKeeps(Step(s, es[0]), es[1..], TableStep(table, s, es[0]));
    }
  }

  /**
   * After every run of clients coming and going, packets being routed and the reaper passing, at
   * whatever times: a lookup of any address but the server's own returns exactly the owner that
   * longest-prefix match gives over the plain table of explicitly learned routes.
   */
  lemma LookupsAreTransparent(local: Word32, es: seq<Event>, addr: Word32, verdict: bool, now: int)
    requires LegalRun(Boot(local), es) && addr != local
    ensures
      var table := TableRun(map[], Boot(local), es);
      var answer := Lookup(Run(Boot(local), es), addr, true, verdict, now).1;
      && LongestMatch(table, addr, answer)
      && (forall r :: LongestMatch(table, addr, r) ==> r == answer)
  {
    assert Explicit(Boot(local)) == map[];
    RunKeeps(Boot(local), es, map[]);
    var s := Run(Boot(local), es);
    LookupIsMatch(s, addr, verdict, now);
    ExplicitMasked(s);
    forall r | LongestMatch(Explicit(s), addr, r) ensures r == Lookup(s, addr, true, verdict, now).1 {
      LongestMatchUnique(Explicit(s), addr, r, Lookup(s, addr, true, verdict, now).1);
    }
  }

  /**
   * Reference conservation: after every run each instance still in memory is referenced once for
   * itself until it halts and once by each route that names it, and no route names a freed one.
   */
  lemma ReferencesConserved(local: Word32, es: seq<Event>, id: Id)
    requires LegalRun(Boot(local), es)
    ensures
      var s := Run(Boot(local), es);
      && (id in s.instances ==>
            && s.instances[id].routeCount == |Routes(s.vhash, id)|
            && s.instances[id].refcount == |Routes(s.vhash, id)| + (if s.instances[id].halt then 0 else 1)
            && s.instances[id].refcount > 0)
      && forall k :: k in s.vhash ==> s.vhash[k].instance in s.instances
  {
    RunKeeps(Boot(local), es, Explicit(Boot(local)));
  }
}
