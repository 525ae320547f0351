/** The routing operations of multi.c and mroute.c step by step, each equal to its function in Routing. */
module MultiContexts {
  import opened Bytes
  import opened Integers
  import opened Wrappers
  import opened Routing
  import opened Sequences

  lemma LengthsStep(refcounts: seq<int>, i: nat, done: seq<nat>)
    requires i < |refcounts|
    ensures
      done + Lengths(refcounts, i + 1)
      == (if refcounts[i] > 0 then done + [i] else done) + Lengths(refcounts, i)
  {
    Assoc(done, [i], Lengths(refcounts, i));
    WithEmpty(Lengths(refcounts, i));
  }

  lemma AddIroutesStep(s: Server, id: Id, irs: seq<Iroute>, scripts: seq<bool>, i: nat, now: int)
    requires Counted(s) && Live(s, id) && LegalIroutes(irs) && |scripts| == |irs| && i < |irs|
    requires LegalIroutes(irs[i..]) && LegalIroutes(irs[i + 1..])
    ensures
      var (t, owner) := AddIroute(s, id, irs[i], scripts[i], now);
      && Counted(t) && Closed(t) && Live(t, id)
      && var all, rest := AddIroutes(s, id, irs[i..], scripts[i..], now),
                          AddIroutes(t, id, irs[i + 1..], scripts[i + 1..], now);
      && all.0 == rest.0
      && all.1 == (if owner == Some(id) then [KeyOf(irs[i])] else []) + rest.1
  {
    hide AddIroute, Closed, CountedOne, Live;
    AddIrouteCounted(s, id, irs[i], scripts[i], now);
    assert irs[i..][1..] == irs[i + 1..] && scripts[i..][1..] == scripts[i + 1..];
  }

  lemma AddLengthKeeps(s: Server, ir: Iroute, id: Id)
    requires Counted(s) && Live(s, id) && LegalIroute(ir)
    ensures var t := s.(helper := HelperAdd(s.helper, ir)); Counted(t) && Live(t, id) && Closed(t) && id in t.instances
    ensures Closed(s)
  {
  }

  /** struct mroute_helper */
  class RouteHelper {
    var cacheGeneration: nat
    var nNetLen: nat
    const netLen: array<nat>
    const netLenRefcount: array<int>

    ghost predicate Valid()
      reads this, netLen, netLenRefcount
    {
      && netLen != netLenRefcount as object && netLen.Length == MR_HELPER_NET_LEN == netLenRefcount.Length
      && nNetLen <= MR_HELPER_NET_LEN
    }

    ghost function Value(): Helper
      requires Valid()
      reads this, netLen, netLenRefcount
    {
      Helper(cacheGeneration, netLen[..nNetLen], netLenRefcount[..])
    }

    constructor ()
      ensures Valid() && fresh(netLen) && fresh(netLenRefcount)
      ensures Value() == Helper(0, [], seq(MR_HELPER_NET_LEN, _ => 0))
    {
      cacheGeneration, nNetLen := 0, 0;
      netLen := new nat[MR_HELPER_NET_LEN];
      netLenRefcount := new int[MR_HELPER_NET_LEN](_ => 0);
    }

    /** mroute_helper_regenerate */
    method Rebuild()
      requires Valid()
      modifies this`nNetLen, netLen
      ensures Valid() && Value() == Regenerate(old(Value()))
    {
      var i, j := MR_HELPER_NET_LEN, 0;
      ghost var rc, done := netLenRefcount[..], [];
      while i > 0
        invariant 0 <= i <= MR_HELPER_NET_LEN && 0 <= j <= MR_HELPER_NET_LEN - i
        invariant netLenRefcount[..] == rc && netLen[..j] == done
        invariant done + Lengths(rc, i) == Lengths(rc, MR_HELPER_NET_LEN)
      {
        i := i - 1;
        LengthsStep(rc, i, done);
        if netLenRefcount[i] > 0 {
          netLen[j] := i;
          j := j + 1;
          done := done + [i];
        }
      }
      nNetLen := j;
      WithEmpty(done);
    }

    method AddLength(ir: Iroute)
      requires Valid() && ir.netbits < MR_HELPER_NET_LEN
      modifies this, netLen, netLenRefcount
      ensures Valid() && Value() == HelperAdd(old(Value()), ir)
    {
      if ir.netbits >= 0 {
        cacheGeneration := cacheGeneration + 1;
        netLenRefcount[ir.netbits] := netLenRefcount[ir.netbits] + 1;
        if netLenRefcount[ir.netbits] == 1 {
          Rebuild();
        }
      }
    }

    method DeleteLength(ir: Iroute)
      requires Valid() && ir.netbits < MR_HELPER_NET_LEN
      modifies this, netLen, netLenRefcount
      ensures Valid() && Value() == HelperDel(old(Value()), ir)
    {
      if ir.netbits >= 0 {
        cacheGeneration := cacheGeneration + 1;
        netLenRefcount[ir.netbits] := netLenRefcount[ir.netbits] - 1;
        if netLenRefcount[ir.netbits] == 0 {
          Rebuild();
        }
      }
    }
  }

  /** The bytes of an address are all zero, or all 0xFF, exactly when the address is the lowest or the highest. */
  lemma LearnableBytes(addr: Word32)
    ensures
      var b := ToNetwork(addr);
      Learnable(Host(addr)) <==>
        (exists i :: 0 <= i < |b| && b[i] != 0x00) && (exists i :: 0 <= i < |b| && b[i] != 0xFF)
  {
    NetworkRoundTrip(addr);
    var b := ToNetwork(addr);
    if forall i :: 0 <= i < |b| ==> b[i] == 0x00 {
      assert b[0] == 0 && b[1] == 0 && b[2] == 0 && b[3] == 0;
    }
    if forall i :: 0 <= i < |b| ==> b[i] == 0xFF {
      assert b[0] == 0xFF && b[1] == 0xFF && b[2] == 0xFF && b[3] == 0xFF;
    }
    assert addr == 0 ==> b == [0, 0, 0, 0];
    assert addr == WORD_LIMIT - 1 ==> b == [0xFF, 0xFF, 0xFF, 0xFF];
  }

  /** The loop of mroute_learnable_address over the bytes of an address. */
  method LearnableAddress(bytes: seq<Byte>) returns (ok: bool)
    ensures ok <==>
      (exists i :: 0 <= i < |bytes| && bytes[i] != 0x00) && (exists i :: 0 <= i < |bytes| && bytes[i] != 0xFF)
  {
    var notAllZeros, notAllOnes := false, false;
    for i := 0 to |bytes|
      invariant notAllZeros <==> exists j :: 0 <= j < i && bytes[j] != 0x00
      invariant notAllOnes <==> exists j :: 0 <= j < i && bytes[j] != 0xFF
    {
      if bytes[i] != 0x00 {
        notAllZeros := true;
      }
      if bytes[i] != 0xFF {
        notAllOnes := true;
      }
    }
    ok := notAllZeros && notAllOnes;
  }

  class MultiContext {
    const local: Word32
    const helper: RouteHelper
    var vhash: map<Key, Route>
    var instances: map<Id, Instance>

    ghost function Value(): Server
      requires helper.Valid()
      reads this, helper, helper.netLen, helper.netLenRefcount
    {
      Server(local, vhash, instances, helper.Value())
    }

    ghost predicate Valid()
      reads this, helper, helper.netLen, helper.netLenRefcount
    {
      helper.Valid() && Closed(Value())
    }

    constructor (local: Word32)
      ensures Valid() && fresh(helper) && fresh(helper.netLen) && fresh(helper.netLenRefcount)
      ensures Value() == Server(local, map[], map[], Helper(0, [], seq(MR_HELPER_NET_LEN, _ => 0)))
    {
      this.local := local;
      var h := new RouteHelper();
      helper := h;
      vhash, instances := map[], map[];
    }

    method RouteDefined(r: Route, now: int) returns (ok: bool)
      requires Valid() && r.instance in instances
      ensures ok <==> Defined(Value(), r, now)
    {
      if instances[r.instance].halt {
        return false;
      } else if r.cache && r.generation != helper.cacheGeneration {
        return false;
      } else if r.ageable && r.lastReference + MULTI_CACHE_ROUTE_TTL < now {
        return false;
      }
      return true;
    }

    method DecRefcount(id: Id)
      requires id in instances
      modifies this`instances
      ensures instances == DecRef(old(instances), id)
    {
      var mi := instances[id];
      mi := mi.(refcount := mi.refcount - 1);
      instances := instances[id := mi];
      if mi.refcount <= 0 {
        instances := map i | i in instances && i != id :: instances[i];
      }
    }

    method DeleteRoute(r: Route)
      requires r.instance in instances
      modifies this`instances
      ensures instances == DropRoute(old(instances), r.instance)
    {
      var mi := instances[r.instance];
      instances := instances[r.instance := mi.(routeCount := mi.routeCount - 1)];
      DecRefcount(r.instance);
    }

    method LearnAddr(id: Id, addr: Key, cached: bool, script: bool, now: int) returns (owner: Option<Id>)
      requires Valid() && id in instances
      modifies this
      ensures helper.Valid() && (Value(), owner) == Learn(old(Value()), id, addr, cached, script, now)
    {
      owner := None;
      var oldroute := if addr in vhash then Some(vhash[addr]) else None;
      if oldroute.Some? {
        var ok := RouteDefined(oldroute.value, now);
        if ok {
          owner := Some(oldroute.value.instance);
        }
      }
      LearnableBytes(addr.addr);
      var learnable := LearnableAddress(ToNetwork(addr.addr));
      if owner != Some(id) && learnable && addr != Host(local) {
        var newroute := Route(id, cached, cached, 0, now);
        if cached {
          newroute := newroute.(generation := helper.cacheGeneration);
        }
        if instances[id].routeCount < instances[id].profile.maxRoutes && script {
          owner := Some(id);
          var mi := instances[id];
          instances := instances[id := mi.(refcount := mi.refcount + 1, routeCount := mi.routeCount + 1)];
          if oldroute.Some? {
            DeleteRoute(oldroute.value);
          }
          vhash := vhash[addr := newroute];
        }
      }
    }

    method GetInstanceByVirtualAddr(addr: Word32, cidrRouting: bool, script: bool, now: int) returns (ret: Option<Id>)
      requires Valid()
      modifies this
      ensures helper.Valid() && (Value(), ret) == Lookup(old(Value()), addr, cidrRouting, script, now)
    {
      ret := None;
      if addr == local {
        return;
      }
      var hit := false;
      if Host(addr) in vhash {
        hit := RouteDefined(vhash[Host(addr)], now);
      }
      if hit {
        var route := vhash[Host(addr)];
        vhash := vhash[Host(addr) := route.(lastReference := now)];
        ret := Some(route.instance);
      } else if cidrRouting {
        ret := ScanLengths(addr, now);
        if ret.Some? {
          var _ := LearnAddr(ret.value, Host(addr), true, script, now);
        }
      }
    }

    /** The cycle through each CIDR length; the host route is cached after it rather than inside it. */
    method ScanLengths(addr: Word32, now: int) returns (ret: Option<Id>)
      requires Valid()
      ensures ret == Scan(Value(), addr, 0, now)
    {
      ret := None;
      var i := 0;
      while i < helper.nNetLen
        invariant 0 <= i <= helper.nNetLen
        invariant Scan(Value(), addr, 0, now) == Scan(Value(), addr, i, now)
      {
        var tryaddr := Net(Mask(addr, helper.netLen[i]), helper.netLen[i]);
        if tryaddr in vhash {
          var ok := RouteDefined(vhash[tryaddr], now);
          if ok {
            return Some(vhash[tryaddr].instance);
          }
        }
        i := i + 1;
      }
    }

    /** multi_del_iroutes */
    method DelIroutes(irs: seq<Iroute>)
      requires Valid() && LegalIroutes(irs)
      modifies helper, helper.netLen, helper.netLenRefcount
      ensures helper.Valid() && helper.Value() == HelperDelAll(old(helper.Value()), irs)
    {
      var i := 0;
      while i < |irs|
        invariant 0 <= i <= |irs| && helper.Valid()
        invariant HelperDelAll(helper.Value(), irs[i..]) == HelperDelAll(old(helper.Value()), irs)
      {
        assert LegalIroute(irs[i]) && irs[i..][0] == irs[i] && irs[i..][1..] == irs[i + 1..];
        helper.DeleteLength(irs[i]);
        i := i + 1;
      }
    }

    method CloseInstance(id: Id, shutdown: bool)
      requires Valid() && Live(Value(), id) && LegalIroutes(instances[id].profile.iroutes)
      modifies this, helper, helper.netLen, helper.netLenRefcount
      ensures helper.Valid() && Value() == Close(old(Value()), id, shutdown)
    {
      var mi := instances[id].(halt := true);
      if !shutdown && mi.profile.didIroutes {
        DelIroutes(mi.profile.iroutes);
        mi := mi.(profile := mi.profile.(didIroutes := false));
      }
      instances := instances[id := mi];
      DecRefcount(id);
    }

    /** multi_add_iroutes, with one script verdict per iroute. */
    method AddIroutesLoop(id: Id, irs: seq<Iroute>, scripts: seq<bool>, now: int) returns (ghost keys: seq<Key>)
      requires Valid() && Counted(Value()) && Live(Value(), id) && LegalIroutes(irs) && |scripts| == |irs|
      modifies this, helper, helper.netLen, helper.netLenRefcount
      ensures Valid() && (Value(), keys) == AddIroutes(old(Value()), id, irs, scripts, now)
    {
      hide Learn, Owner, HelperAdd, Counted, Closed, Live;
      keys := [];
      ghost var goal := AddIroutes(Value(), id, irs, scripts, now);
      var i := 0;
      while i < |irs|
        invariant 0 <= i <= |irs| && Valid() && Counted(Value()) && Live(Value(), id)
        invariant LegalIroutes(irs[i..])
        invariant AddIroutes(Value(), id, irs[i..], scripts[i..], now).0 == goal.0
        invariant keys + AddIroutes(Value(), id, irs[i..], scripts[i..], now).1 == goal.1
      {
        ghost var s, add := Value(), [];
        AddIroutesStep(s, id, irs, scripts, i, now);
        helper.AddLength(irs[i]);
        AddLengthKeeps(s, irs[i], id);
        var owner := LearnAddr(id, KeyOf(irs[i]), false, scripts[i], now);
        if owner == Some(id) {
          add := [KeyOf(irs[i])];
        }
        Assoc(keys, add, AddIroutes(Value(), id, irs[i + 1..], scripts[i + 1..], now).1);
        keys := keys + add;
        i := i + 1;
      }
      WithEmpty(keys);
    }

    /** multi_reap_range, over the entries that the iterator yields. */
    method ReapEntries(keys: seq<Key>, now: int)
      requires Valid() && Counted(Value())
      modifies this
      ensures Valid() && Value() == ReapKeys(old(Value()), keys, now)
    {
      var i := 0;
      while i < |keys|
        invariant 0 <= i <= |keys| && Valid() && Counted(Value())
        invariant ReapKeys(Value(), keys[i..], now) == ReapKeys(old(Value()), keys, now)
      {
        assert keys[i..][1..] == keys[i + 1..];
        if keys[i] in vhash {
          var ok := RouteDefined(vhash[keys[i]], now);
          if !ok {
            DropEntryCounted(Value(), keys[i]);
            DeleteRoute(vhash[keys[i]]);
            vhash := vhash - {keys[i]};
          }
        }
        i := i + 1;
      }
    }
  }
}
