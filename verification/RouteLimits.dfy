/**
 * What keeps clients from taking routes: the verdict of the learn-address script and the quota of the
 * client. A refused learn changes nothing, no client owns a key that was not granted to it, and no
 * client ever has more routes than its quota allows.
 */
module RouteLimits {
  import opened Integers
  import opened Wrappers
  import opened Routing
  import opened RouteCache
  import opened RouteRuns

  // ----- one learn -----

  /** A learn that the script or the quota forbids, or whose address is none to learn, leaves table and owner alone. */
  lemma RefusedLearn(s: Server, mi: Id, key: Key, cached: bool, script: bool, now: int)
    requires Closed(s) && mi in s.instances
    requires !script || s.instances[mi].routeCount >= s.instances[mi].profile.maxRoutes
          || key == Host(s.local) || key.addr == 0 || key.addr == WORD_LIMIT - 1
    ensures Learn(s, mi, key, cached, script, now) == (s, Owner(s, key, now))
  {
  }

  /** Any other learn makes the instance the owner, by a route that is current and, when cached, ages from now on. */
  lemma GrantedLearn(s: Server, mi: Id, key: Key, cached: bool, now: int)
    requires Counted(s) && Live(s, mi)
    requires s.instances[mi].routeCount < s.instances[mi].profile.maxRoutes
    requires key != Host(s.local) && key.addr != 0 && key.addr != WORD_LIMIT - 1
    ensures
      var (t, owner) := Learn(s, mi, key, cached, true, now);
      && owner == Some(mi) && Owner(t, key, now) == Some(mi)
      && (Owner(s, key, now) != Some(mi) ==>
            forall later :: Owner(t, key, later) == Some(mi) <==> !cached || later <= now + MULTI_CACHE_ROUTE_TTL)
  {
    LearnFacts(s, mi, key, cached, true, now);
  }

  // ----- a client owns only what was granted to it -----

  /** The iroutes that the script let through. */
  ghost function Granted(irs: seq<Iroute>, scripts: seq<bool>): set<Key>
    requires LegalIroutes(irs) && |scripts| == |irs|
  {
    set j | 0 <= j < |irs| && scripts[j] && LegalIroute(irs[j]) :: KeyOf(irs[j])
  }

  lemma LearnGrants(s: Server, id: Id, key: Key, script: bool, now: int, granted: set<Key>)
    requires Counted(s) && Live(s, id) && Routes(s.vhash, id) <= granted && (script ==> key in granted)
    ensures
      var (t, owner) := Learn(s, id, key, false, script, now);
      Counted(t) && Live(t, id) && Routes(t.vhash, id) <= granted && (owner == Some(id) ==> key in granted)
  {
    LearnFacts(s, id, key, false, script, now);
    var t := Learn(s, id, key, false, script, now).0;
    assert Owner(s, key, now) == Some(id) ==> key in Routes(s.vhash, id);
    forall k | k in Routes(t.vhash, id) ensures k in granted {
      assert k != key ==> k in Routes(s.vhash, id);
    }
  }

  lemma {:induction false} AddIroutesGrants(s: Server, id: Id, irs: seq<Iroute>, scripts: seq<bool>, now: int,
                                            granted: set<Key>)
    requires Counted(s) && Live(s, id) && LegalIroutes(irs) && |scripts| == |irs|
    requires Routes(s.vhash, id) <= granted && Granted(irs, scripts) <= granted
    ensures
      var (t, keys) := AddIroutes(s, id, irs, scripts, now);
      Routes(t.vhash, id) <= granted && forall k :: k in keys ==> k in granted
    decreases |irs|
  {
    if irs != [] {
      assert LegalIroute(irs[0]);
      assert scripts[0] ==> KeyOf(irs[0]) in Granted(irs, scripts);
      forall k | k in Granted(irs[1..], scripts[1..]) ensures k in granted {
        var j :| 0 <= j < |irs[1..]| && scripts[1..][j] && KeyOf(irs[1..][j]) == k;
        assert LegalIroute(irs[j + 1]) && scripts[j + 1] && KeyOf(irs[j + 1]) in Granted(irs, scripts);
      }
      var u := s.(helper := HelperAdd(s.helper, irs[0]));
      assert Counted(u) && Live(u, id);
      LearnGrants(u, id, KeyOf(irs[0]), scripts[0], now, granted);
      AddIroutesGrants(AddIroute(s, id, irs[0], scripts[0], now).0, id, irs[1..], scripts[1..], now, granted);
    }
  }

  /** Whatever the scripts say, a connecting client gains only keys for which a verdict was true. */
  lemma ConnectGrants(s: Server, id: Id, host: Option<Word32>, script: bool,
                      irs: seq<Iroute>, scripts: seq<bool>, now: int)
    requires Inv(s) && Live(s, id) && !s.instances[id].profile.established
    requires LegalIroutes(irs) && |scripts| == |irs|
    ensures
      var (t, keys) := Connect(s, id, host, script, irs, scripts, now);
      var granted := Granted(irs, scripts) + if script && host.Some? then {Host(host.value)} else {};
      Routes(t.vhash, id) <= granted && forall k :: k in keys ==> k in granted
  {
    hide LengthsOk;
    var granted := Granted(irs, scripts) + if script && host.Some? then {Host(host.value)} else {};
    assert ProfileShape(s, id);
    var t := s;
    if host.Some? {
      LearnGrants(s, id, Host(host.value), script, now, granted);
      t := Learn(s, id, Host(host.value), false, script, now).0;
    }
    AddIroutesGrants(Establish(t, id, irs), id, irs, scripts, now, granted);
  }

  // ----- no client exceeds its quota -----

  /** Each instance has the quota it was created with, and no more routes than that. */
  ghost predicate WithinQuota(instances: map<Id, Instance>, quotas: map<Id, int>) {
    forall id :: id in instances ==>
      id in quotas && instances[id].profile.maxRoutes == quotas[id] && instances[id].routeCount <= Max(quotas[id], 0)
  }

  lemma LearnWithin(s: Server, mi: Id, key: Key, cached: bool, script: bool, now: int,
                    quotas: map<Id, int>)
    requires Closed(s) && mi in s.instances && WithinQuota(s.instances, quotas)
    ensures WithinQuota(Learn(s, mi, key, cached, script, now).0.instances, quotas)
  {
    if script && s.instances[mi].routeCount < s.instances[mi].profile.maxRoutes {
      assert WithinQuota(GrabRoute(s.instances, mi), quotas);
    } else {
      RefusedLearn(s, mi, key, cached, script, now);
    }
  }

  lemma {:induction false} AddIroutesWithin(s: Server, id: Id, irs: seq<Iroute>, scripts: seq<bool>, now: int,
                                            quotas: map<Id, int>)
    requires Counted(s) && Live(s, id) && LegalIroutes(irs) && |scripts| == |irs| && WithinQuota(s.instances, quotas)
    ensures WithinQuota(AddIroutes(s, id, irs, scripts, now).0.instances, quotas)
    decreases |irs|
  {
    if irs != [] {
      assert LegalIroute(irs[0]);
      LearnWithin(s.(helper := HelperAdd(s.helper, irs[0])), id, KeyOf(irs[0]), false, scripts[0], now, quotas);
      AddIrouteCounted(s, id, irs[0], scripts[0], now);
      AddIroutesWithin(AddIroute(s, id, irs[0], scripts[0], now).0, id, irs[1..], scripts[1..], now, quotas);
    }
  }

  lemma ConnectWithin(s: Server, id: Id, host: Option<Word32>, script: bool,
                      irs: seq<Iroute>, scripts: seq<bool>, now: int, quotas: map<Id, int>)
    requires Counted(s) && Live(s, id) && LegalIroutes(irs) && |scripts| == |irs| && WithinQuota(s.instances, quotas)
    ensures WithinQuota(Connect(s, id, host, script, irs, scripts, now).0.instances, quotas)
  {
    var t := s;
    if host.Some? {
      LearnWithin(s, id, Host(host.value), false, script, now, quotas);
      LearnCounted(s, id, Host(host.value), false, script, now);
      t := Learn(s, id, Host(host.value), false, script, now).0;
    }
    AddIroutesWithin(Establish(t, id, irs), id, irs, scripts, now, quotas);
  }

  lemma {:induction false} ReapWithin(s: Server, keys: seq<Key>, now: int, quotas: map<Id, int>)
    requires Counted(s) && WithinQuota(s.instances, quotas)
    ensures WithinQuota(ReapKeys(s, keys, now).instances, quotas)
    decreases |keys|
  {
    if keys != [] {
      var u := s;
      if keys[0] in s.vhash && !Defined(s, s.vhash[keys[0]], now) {
        DropEntryCounted(s, keys[0]);
        u := DropEntry(s, keys[0]);
      }
      ReapWithin(u, keys[1..], now, quotas);
    }
  }

  function NextQuotas(e: Event, quotas: map<Id, int>): map<Id, int> {
    if e.CreateClient? then quotas[e.id := e.maxRoutes] else quotas
  }

  /** The quota that each client was last created with. */
  function Quotas(es: seq<Event>, quotas: map<Id, int>): map<Id, int> {
    if es == [] then quotas else Quotas(es[1..], NextQuotas(es[0], quotas))
  }

  lemma StepWithin(s: Server, e: Event, quotas: map<Id, int>)
    requires Inv(s) && Legal(s, e) && WithinQuota(s.instances, quotas)
    ensures WithinQuota(Step(s, e).instances, NextQuotas(e, quotas))
  {
    match e
    case CreateClient(id, maxRoutes) =>
    case ConnectClient(id, host, script, irs, scripts, now) =>
      ConnectWithin(s, id, host, script, irs, scripts, now, quotas);
    case CloseClient(id) => CloseKeeps(s, id);
    case LookUp(addr, verdict, now) =>
      var found := Scan(s, addr, 0, now);
      if found.Some? {
        LearnWithin(s, found.value, Host(addr), true, verdict, now, quotas);
      }
    case ReapSome(keys, now) => ReapWithin(s, keys, now, quotas);
  }

  lemma {:induction false} RunWithin(s: Server, es: seq<Event>, quotas: map<Id, int>)
    requires Inv(s) && LegalRun(s, es) && WithinQuota(s.instances, quotas)
    ensures WithinQuota(Run(s, es).instances, Quotas(es, quotas))
    decreases |es|
  {
    hide Step, Inv, Legal, WithinQuota, NextQuotas;
    if es != [] {
      StepKeeps(s, es[0]);
      StepWithin(s, es[0], quotas);
      RunWithin(Step(s, es[0]), es[1..], NextQuotas(es[0], quotas));
    }
  }

  /** After every run, cached routes included, no instance has more routes than the quota it was created with. */
  lemma QuotaKept(local: Word32, es: seq<Event>, id: Id)
    requires LegalRun(Boot(local), es) && id in Run(Boot(local), es).instances
    ensures
      && id in Quotas(es, map[])
      && |Routes(Run(Boot(local), es).vhash, id)| <= Max(Quotas(es, map[])[id], 0)
  {
    RunWithin(Boot(local), es, map[]);
    ReferencesConserved(local, es, id);
  }
}
