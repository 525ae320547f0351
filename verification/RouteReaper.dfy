/** Shutting down frees everything, and the reaper covers the whole table without being noticed. */
module RouteReaper {
  import opened Integers
  import opened Routing
  import opened RouteCache
  import opened RouteRuns

  // ----- shutdown -----

  ghost predicate Closable(s: Server) {
    Counted(s) && forall i :: Live(s, i) ==> LegalIroutes(s.instances[i].profile.iroutes)
  }

  lemma InvClosable(s: Server)
    requires Inv(s)
    ensures Closable(s)
  {
    forall i | Live(s, i) ensures LegalIroutes(s.instances[i].profile.iroutes) {
      assert ProfileShape(s, i);
    }
  }

  lemma CloseClosable(s: Server, id: Id)
    requires Closable(s) && Live(s, id)
    ensures
      var u := Close(s, id, true);
      Closable(u) && u.vhash == s.vhash && forall i :: Live(u, i) <==> Live(s, i) && i != id
  {
    CloseCounted(s, id, true);
    var u := Close(s, id, true);
    assert forall i :: Live(u, i) ==> u.instances[i].profile == s.instances[i].profile;
  }

  /** The loop of multi_uninit that closes every instance, in the order of the iteration table. */
  ghost function CloseAll(s: Server, ids: seq<Id>): (t: Server)
    requires Closable(s)
    requires forall i :: 0 <= i < |ids| ==> Live(s, ids[i])
    requires forall i, j :: 0 <= i < j < |ids| ==> ids[i] != ids[j]
    ensures Closable(t) && t.vhash == s.vhash && forall i :: Live(t, i) <==> Live(s, i) && i !in ids
    decreases |ids|
  {
    if ids == [] then s
    else
      CloseClosable(s, ids[0]);
      CloseAll(Close(s, ids[0], true), ids[1..])
  }

  /** Once every live instance is closed and the whole table is reaped, nothing is left in memory. */
  lemma ShutdownFreesAll(s: Server, ids: seq<Id>, keys: seq<Key>, now: int)
    requires Inv(s)
    requires forall i :: 0 <= i < |ids| ==> Live(s, ids[i])
    requires forall i, j :: 0 <= i < j < |ids| ==> ids[i] != ids[j]
    requires forall id :: Live(s, id) ==> id in ids
    requires forall k :: k in s.vhash ==> k in keys
    ensures Closable(s)
    ensures
      var t := ReapKeys(CloseAll(s, ids), keys, now);
      t.vhash == map[] && t.instances == map[]
  {
    InvClosable(s);
    var u := CloseAll(s, ids);
    ReapRemovesUndefined(u, keys, now);
    var t := ReapKeys(u, keys, now);
    SameViews(u, t);
    assert t.vhash == map[];
    assert forall id :: Routes(t.vhash, id) == {};
  }

  // ----- the reaper covers the whole table -----

  /** The bucket at which a pass starts, and the base it leaves behind (multi_reap_process_dowork). */
  function PassStart(base: nat, nBuckets: nat): nat {
    if base >= nBuckets then 0 else base
  }

  function BaseAfter(base: nat, perPass: nat, nBuckets: nat, passes: nat): nat {
    if passes == 0 then base else PassStart(BaseAfter(base, perPass, nBuckets, passes - 1), nBuckets) + perPass
  }

  ghost predicate Cycle(perPass: nat, nBuckets: nat, cycle: nat) {
    perPass > 0 && cycle > 0 && (cycle - 1) * perPass < nBuckets <= cycle * perPass
  }

  lemma StretchStart(turn: nat, perPass: nat, nBuckets: nat, cycle: nat)
    requires Cycle(perPass, nBuckets, cycle) && turn <= cycle
    ensures PassStart(turn * perPass, nBuckets) == if turn == cycle then 0 else turn * perPass
  {
    Ordered(turn, cycle - 1, perPass);
  }

  /** Starting at the q-th stretch of the table, pass i works on stretch q + i, round and round. */
  lemma {:induction false} PassStarts(q: nat, perPass: nat, nBuckets: nat, cycle: nat, i: nat)
    requires Cycle(perPass, nBuckets, cycle) && q <= cycle && i < cycle
    ensures
      var at := (if q == cycle then 0 else q) + i;
      var turn := if at < cycle then at else at - cycle;
      PassStart(BaseAfter(q * perPass, perPass, nBuckets, i), nBuckets) == turn * perPass
  {
    hide PassStart, Cycle;
    if i == 0 {
      StretchStart(q, perPass, nBuckets, cycle);
    } else {
      PassStarts(q, perPass, nBuckets, cycle, i - 1);
      var at := (if q == cycle then 0 else q) + i - 1;
      var back := if at < cycle then at else at - cycle;
      assert (back + 1) * perPass == back * perPass + perPass;
      StretchStart(back + 1, perPass, nBuckets, cycle);
    }
  }

  /** The stretch a bucket lies in. */
  lemma {:induction false} Stretch(bucket: nat, perPass: nat) returns (turn: nat)
    requires perPass > 0
    ensures turn * perPass <= bucket < turn * perPass + perPass
  {
    if bucket < perPass {
      turn := 0;
    } else {
      turn := Stretch(bucket - perPass, perPass);
      assert (turn + 1) * perPass == turn * perPass + perPass;
      turn := turn + 1;
    }
  }

  /** Any full cycle of consecutive passes visits every bucket. */
  lemma ReaperVisits(q: nat, perPass: nat, nBuckets: nat, cycle: nat, bucket: nat) returns (i: nat)
    requires Cycle(perPass, nBuckets, cycle) && q <= cycle && bucket < nBuckets
    ensures i < cycle
    ensures
      var start := PassStart(BaseAfter(q * perPass, perPass, nBuckets, i), nBuckets);
      start <= bucket < start + perPass
  {
    var turn := Stretch(bucket, perPass);
    if turn >= cycle {
      Ordered(cycle, turn, perPass);
    }
    var from := if q == cycle then 0 else q;
    i := if turn >= from then turn - from else turn + cycle - from;
    PassStarts(q, perPass, nBuckets, cycle, i);
  }

  /**
   * A cycle of passes with other events between them: pass i takes the table from befores[i] to what
   * After gives, and the run between[i] leads from there to befores[i + 1].
   */
  datatype Round = Round(befores: seq<Server>, orders: seq<seq<Key>>, nows: seq<int>, between: seq<seq<Event>>)

  ghost function After(r: Round, i: nat): (t: Server)
    requires i < |r.befores| && i < |r.orders| == |r.nows| && Inv(r.befores[i])
    ensures Inv(t) && Explicit(t) == Explicit(r.befores[i])
  {
    ReapKeeps(r.befores[i], r.orders[i], r.nows[i]);
    ReapKeys(r.befores[i], r.orders[i], r.nows[i])
  }

  ghost predicate Interleaved(r: Round, cycle: nat) {
    && |r.befores| == cycle + 1 && |r.orders| == |r.nows| == |r.between| == cycle
    && (forall i :: 0 <= i <= cycle ==> Inv(r.befores[i]))
    && (forall i :: 0 <= i < cycle ==>
          LegalRun(After(r, i), r.between[i]) && r.befores[i + 1] == Run(After(r, i), r.between[i]))
  }

  /**
   * Pass i meets key k if k is in the table and its bucket is one of those of the pass; the cycle
   * begins at stretch q.
   */
  ghost predicate Meets(r: Round, k: Key, bucket: nat, q: nat, perPass: nat, nBuckets: nat) {
    forall i :: 0 <= i < |r.orders| && i < |r.befores| && k in r.befores[i].vhash ==>
      (k in r.orders[i] <==> 0 <= bucket - PassStart(BaseAfter(q * perPass, perPass, nBuckets, i), nBuckets) < perPass)
  }

  /** The entry of k at the beginning of pass i is defined. */
  ghost predicate DefinedAt(r: Round, k: Key, i: nat)
    requires i < |r.befores| && i < |r.nows| && k in r.befores[i].vhash
  {
    Defined(r.befores[i], r.befores[i].vhash[k], r.nows[i])
  }

  lemma PassDecides(r: Round, cycle: nat, k: Key, i: nat)
    requires Interleaved(r, cycle) && i < cycle && k in r.befores[i].vhash
    ensures k in After(r, i).vhash <==> k !in r.orders[i] || DefinedAt(r, k, i)
    ensures k in After(r, i).vhash ==> After(r, i).vhash[k] == r.befores[i].vhash[k]
  {
    ReapRemovesUndefined(r.befores[i], r.orders[i], r.nows[i]);
  }

  /**
   * Whatever clients, packets and closings come between the passes of a full cycle, wherever it begins:
   * an entry that is undefined whenever a pass begins is removed by some pass of the cycle.
   */
  lemma ReaperCoverage(r: Round, k: Key, bucket: nat, q: nat, perPass: nat, nBuckets: nat, cycle: nat) returns (i: nat)
    requires Cycle(perPass, nBuckets, cycle) && q <= cycle && bucket < nBuckets
    requires Interleaved(r, cycle) && Meets(r, k, bucket, q, perPass, nBuckets)
    requires forall i :: 0 <= i < cycle ==> k in r.befores[i].vhash && !DefinedAt(r, k, i)
    ensures i < cycle && k in r.befores[i].vhash && k !in After(r, i).vhash
  {
    i := ReaperVisits(q, perPass, nBuckets, cycle, bucket);
    PassDecides(r, cycle, k, i);
  }

  lemma PassAddsNothing(r: Round, cycle: nat, k: Key, i: nat)
    requires Interleaved(r, cycle) && i < cycle && k !in r.befores[i].vhash
    ensures k !in After(r, i).vhash
  {
    ReapRemovesUndefined(r.befores[i], r.orders[i], r.nows[i]);
  }

  /** If nothing brings the key back between the passes, it is gone at the end of the cycle. */
  lemma {:induction false} StaysRemoved(r: Round, cycle: nat, k: Key, i: nat, j: nat)
    requires Interleaved(r, cycle) && i < j <= cycle
    requires k !in After(r, i).vhash
    requires forall n :: i <= n < cycle && k !in After(r, n).vhash ==> k !in r.befores[n + 1].vhash
    ensures k !in r.befores[j].vhash
    decreases j
  {
    hide After, Inv;
    if i + 1 < j {
      StaysRemoved(r, cycle, k, i, j - 1);
      PassAddsNothing(r, cycle, k, j - 1);
    }
    assert k !in After(r, j - 1).vhash;
  }

  lemma ReaperCleans(r: Round, k: Key, bucket: nat, q: nat, perPass: nat, nBuckets: nat, cycle: nat)
    requires Cycle(perPass, nBuckets, cycle) && q <= cycle && bucket < nBuckets
    requires Interleaved(r, cycle) && Meets(r, k, bucket, q, perPass, nBuckets)
    requires forall i :: 0 <= i < cycle && k in r.befores[i].vhash ==> !DefinedAt(r, k, i)
    requires forall i :: 0 <= i < cycle && k !in After(r, i).vhash ==> k !in r.befores[i + 1].vhash
    ensures k !in r.befores[cycle].vhash
  {
    var i := ReaperVisits(q, perPass, nBuckets, cycle, bucket);
    if k in r.befores[i].vhash {
      PassDecides(r, cycle, k, i);
    } else {
      PassAddsNothing(r, cycle, k, i);
    }
    StaysRemoved(r, cycle, k, i, cycle);
  }

  /** An entry that is defined when a pass begins is left as it is by that pass, so by all of the cycle. */
  lemma ReaperSpares(r: Round, cycle: nat, k: Key)
    requires Interleaved(r, cycle)
    requires forall i :: 0 <= i < cycle ==> k in r.befores[i].vhash && DefinedAt(r, k, i)
    ensures forall i :: 0 <= i < cycle ==> k in After(r, i).vhash && After(r, i).vhash[k] == r.befores[i].vhash[k]
  {
    forall i | 0 <= i < cycle ensures k in After(r, i).vhash && After(r, i).vhash[k] == r.befores[i].vhash[k] {
      PassDecides(r, cycle, k, i);
    }
  }

  /** Lookups at the time of a pass answer the same before and after it. */
  lemma ReapInvisible(s: Server, keys: seq<Key>, addr: Word32, verdict: bool, now: int)
    requires Counted(s)
    ensures Counted(ReapKeys(s, keys, now))
    ensures Lookup(ReapKeys(s, keys, now), addr, true, verdict, now).1 == Lookup(s, addr, true, verdict, now).1
  {
    ReapRemovesUndefined(s, keys, now);
    var t := ReapKeys(s, keys, now);
    SameViews(s, t);
    assert forall k :: Owner(t, k, now) == Owner(s, k, now);
    ScanSame(s, t, addr, 0, now);
  }

  lemma {:induction false} ScanSame(s: Server, t: Server, addr: Word32, i: nat, now: int)
    requires t.helper == s.helper && forall k :: Owner(t, k, now) == Owner(s, k, now)
    ensures Scan(t, addr, i, now) == Scan(s, addr, i, now)
    decreases |s.helper.netLen| - i
  {
    if i < |s.helper.netLen| {
      ScanSame(s, t, addr, i + 1, now);
    }
  }
}
