/** The pool of client addresses (pool.c): who gets which entry, and which addresses an entry stands for. */
module AddressPool {
  import opened Integers
  import opened Wrappers

  const IFCONFIG_POOL_MAX := 65536

  type Name = nat

  datatype Entry = Entry(inUse: bool, commonName: Option<Name>, lastRelease: int, fixed: bool)

  // ----- which entry an acquisition takes -----

  /** A free entry from an earlier session of this client. */
  predicate Mine(e: Entry, cn: Option<Name>) {
    !e.inUse && cn.Some? && e.commonName == cn
  }

  predicate Open(e: Entry) {
    !e.inUse && !e.fixed
  }

  ghost predicate FirstFree(list: seq<Entry>, r: int) {
    if r == -1 then forall i :: 0 <= i < |list| ==> list[i].inUse
    else 0 <= r < |list| && !list[r].inUse && forall i :: 0 <= i < r ==> list[i].inUse
  }

  ghost predicate FirstMine(list: seq<Entry>, cn: Option<Name>, r: int) {
    if r == -1 then forall i :: 0 <= i < |list| ==> !Mine(list[i], cn)
    else 0 <= r < |list| && Mine(list[r], cn) && forall i :: 0 <= i < r ==> !Mine(list[i], cn)
  }

  /** The open entry that was released before all others, the first one of several. */
  ghost predicate Earliest(list: seq<Entry>, r: int) {
    if r == -1 then forall i :: 0 <= i < |list| ==> !Open(list[i])
    else
      && 0 <= r < |list| && Open(list[r])
      && (forall i :: 0 <= i < |list| && Open(list[i]) ==> list[r].lastRelease <= list[i].lastRelease)
      && (forall i :: 0 <= i < r && Open(list[i]) ==> list[r].lastRelease < list[i].lastRelease)
  }

  /** What ifconfig_pool_find promises: -1 stands for no entry. */
  ghost predicate IsChoice(list: seq<Entry>, duplicateCn: bool, cn: Option<Name>, r: int) {
    if duplicateCn then FirstFree(list, r)
    else if exists i :: 0 <= i < |list| && Mine(list[i], cn) then r >= 0 && FirstMine(list, cn, r)
    else Earliest(list, r)
  }

  lemma ChoiceUnique(list: seq<Entry>, duplicateCn: bool, cn: Option<Name>, r: int, s: int)
    requires IsChoice(list, duplicateCn, cn, r) && IsChoice(list, duplicateCn, cn, s)
    ensures r == s
  {
  }

  /** Without duplicate_cn a fixed entry goes only to the client whose name it bears. */
  lemma FixedForItsName(list: seq<Entry>, cn: Option<Name>, r: int)
    requires IsChoice(list, false, cn, r) && r >= 0 && list[r].fixed
    ensures cn.Some? && list[r].commonName == cn
  {
  }

  /** With duplicate_cn it may go to anybody. */
  lemma FixedForAnyone(owner: Name, other: Name)
    requires owner != other
    ensures IsChoice([Entry(false, Some(owner), 0, true)], true, Some(other), 0)
  {
  }

  function Acquired(e: Entry, cn: Option<Name>): Entry {
    Entry(true, cn, 0, e.fixed)
  }

  /** ifconfig_pool_entry_free */
  function Freed(e: Entry, hard: bool, now: int): Entry {
    Entry(false, if hard then None else e.commonName, if hard then 0 else now, e.fixed)
  }

  // ----- handles and addresses -----

  datatype Kind = Net30 | Indiv

  function Width(kind: Kind): nat {
    if kind == Net30 then 4 else 1
  }

  ghost predicate Fits(kind: Kind, base: Word32, size: nat) {
    size <= IFCONFIG_POOL_MAX && base + Width(kind) * size <= WORD_LIMIT && (kind == Net30 ==> base % 4 == 0)
  }

  /** ifconfig_pool_handle_to_ip_base */
  function HandleToIpBase(kind: Kind, base: Word32, size: nat, h: int): Word32 {
    if 0 <= h < size then (base + Width(kind) * h) % WORD_LIMIT else 0
  }

  /** ifconfig_pool_ip_base_to_handle: the difference wraps, and is read as a signed number. */
  function IpBaseToHandle(kind: Kind, base: Word32, size: nat, addr: Word32): int {
    var d := (addr - base) % WORD_LIMIT;
    var ret := if kind == Net30 then d / 4 else if d >= 0x8000_0000 then d - WORD_LIMIT else d;
    if ret < 0 || ret >= size then -1 else ret
  }

  /** The addresses that the holder of a handle uses. */
  ghost function Addresses(kind: Kind, base: Word32, h: nat): set<int> {
    if kind == Net30 then {base + 4 * h + 1, base + 4 * h + 2} else {base + h}
  }

  lemma HandleRoundTrip(kind: Kind, base: Word32, size: nat, h: nat)
    requires Fits(kind, base, size) && h < size
    ensures IpBaseToHandle(kind, base, size, HandleToIpBase(kind, base, size, h)) == h
  {
    MulMonotone(Width(kind), h + 1, size);
  }

  lemma BlockOf(x: nat)
    ensures x - x % 4 == 4 * (x / 4) && x < 4 * (x / 4) + 4
  {
  }

  ghost predicate RoundTrips(kind: Kind, base: Word32, size: nat, addr: Word32) {
    var h := IpBaseToHandle(kind, base, size, addr);
    && (h >= 0 <==> base <= addr < base + Width(kind) * size)
    && (h >= 0 ==> HandleToIpBase(kind, base, size, h) == addr - addr % Width(kind))
  }

  lemma BlockRoundTrips(base: Word32, size: nat, addr: Word32)
    requires Fits(Net30, base, size)
    ensures RoundTrips(Net30, base, size, addr)
  {
    var d := (addr - base) % WORD_LIMIT;
    Wraps(addr - base);
    BlockOf(d);
    BlockOf(addr);
    BlockOf(base);
    if d / 4 < size {
      assert base + 4 * (d / 4) == addr - addr % 4 < WORD_LIMIT;
      Wraps(base + 4 * (d / 4));
    }
  }

  lemma SingleRoundTrips(base: Word32, size: nat, addr: Word32)
    requires Fits(Indiv, base, size)
    ensures RoundTrips(Indiv, base, size, addr)
  {
    Wraps(addr - base);
    Wraps(addr);
  }

  /** An address has a handle exactly when it lies in the pool; the way back leads to the base of its block. */
  lemma AddressRoundTrip(kind: Kind, base: Word32, size: nat, addr: Word32)
    requires Fits(kind, base, size)
    ensures IpBaseToHandle(kind, base, size, addr) >= 0 <==> base <= addr < base + Width(kind) * size
    ensures IpBaseToHandle(kind, base, size, addr) >= 0 ==>
      HandleToIpBase(kind, base, size, IpBaseToHandle(kind, base, size, addr)) == addr - addr % Width(kind)
  {
    hide IpBaseToHandle, HandleToIpBase, Fits;
    match kind
    case Net30 => BlockRoundTrips(base, size, addr);
    case Indiv => SingleRoundTrips(base, size, addr);
  }

  lemma HoldersAreApart(kind: Kind, base: Word32, size: nat, h: nat, k: nat)
    requires Fits(kind, base, size) && h < size && k < size && h != k
    ensures Addresses(kind, base, h) !! Addresses(kind, base, k)
    ensures forall a :: a in Addresses(kind, base, h) ==> base <= a < base + Width(kind) * size
  {
  }

  /** start & ~3 for blocks of four. */
  function FirstBase(kind: Kind, start: Word32): Word32 {
    if kind == Net30 then start - start % 4 else start
  }

  /** The size that ifconfig_pool_init computes, in 32-bit arithmetic: (end | 3) + 1 may wrap to zero. */
  function PoolSize(kind: Kind, start: Word32, end: Word32): nat {
    if kind == Net30 then ((end - end % 4 + 3 + 1) % WORD_LIMIT - FirstBase(kind, start)) % WORD_LIMIT / 4
    else (end - start + 1) % WORD_LIMIT
  }

  /** The blocks from p to q, counted in words that wrap. */
  lemma WrappedBlocks(p: nat, q: nat)
    requires p <= q && 4 * (q + 1) <= WORD_LIMIT && q - p < IFCONFIG_POOL_MAX
    ensures (4 * (q + 1) % WORD_LIMIT - 4 * p) % WORD_LIMIT == 4 * (q + 1 - p)
  {
    var top := 4 * (q + 1) % WORD_LIMIT;
    Wraps(4 * (q + 1));
    Wraps(top - 4 * p);
  }

  lemma PoolRange(kind: Kind, start: Word32, end: Word32)
    requires start <= end && end - start < IFCONFIG_POOL_MAX
    ensures
      var base, size := FirstBase(kind, start), PoolSize(kind, start, end);
      && Fits(kind, base, size)
      && base <= start < base + Width(kind) && end < base + Width(kind) * size <= end + Width(kind)
  {
    if kind == Net30 {
      BlockOf(start);
      BlockOf(end);
      WrappedBlocks(start / 4, end / 4);
      assert PoolSize(kind, start, end) == end / 4 + 1 - start / 4;
    } else {
      Wraps(end - start + 1);
    }
  }

  class IfconfigPool {
    const kind: Kind
    const base: Word32
    const duplicateCn: bool
    const list: array<Entry>

    ghost predicate Valid()
      reads this
    {
      Fits(kind, base, list.Length)
    }

    /** ifconfig_pool_init: the blocks from the one of start to the one of end. */
    constructor (kind: Kind, start: Word32, end: Word32, duplicateCn: bool)
      requires start <= end && end - start < IFCONFIG_POOL_MAX
      ensures Valid() && this.kind == kind && this.duplicateCn == duplicateCn && fresh(list)
      ensures base <= start < base + Width(kind) && end < base + Width(kind) * list.Length <= end + Width(kind)
      ensures forall i :: 0 <= i < list.Length ==> list[i] == Entry(false, None, 0, false)
    {
      PoolRange(kind, start, end);
      this.kind, this.base, this.duplicateCn := kind, FirstBase(kind, start), duplicateCn;
      list := new Entry[PoolSize(kind, start, end)](i => Entry(false, None, 0, false));
    }

    /** ifconfig_pool_find */
    method Find(cn: Option<Name>) returns (r: int)
      ensures IsChoice(list[..], duplicateCn, cn, r)
    {
      var i, earliestRelease, previousUsage, newUsage := 0, 0, -1, -1;
      while i < list.Length
        invariant 0 <= i <= list.Length
        invariant duplicateCn ==> previousUsage == -1 && newUsage == -1 && FirstFree(list[..i], -1)
        invariant !duplicateCn ==> Earliest(list[..i], newUsage) && FirstMine(list[..i], cn, previousUsage)
        invariant newUsage >= 0 ==> earliestRelease == list[newUsage].lastRelease
      {
        var ipe := list[i];
        assert list[..i + 1] == list[..i] + [ipe];
        if !ipe.inUse {
          if duplicateCn {
            newUsage := i;
            assert FirstFree(list[..], newUsage);
            break;
          }
          if (newUsage == -1 || ipe.lastRelease < earliestRelease) && !ipe.fixed {
            earliestRelease := ipe.lastRelease;
            newUsage := i;
          }
          if previousUsage < 0 && cn.Some? && cn == ipe.commonName {
            previousUsage := i;
          }
        }
        i := i + 1;
      }
      assert i == list.Length ==> list[..i] == list[..];
      if previousUsage >= 0 {
        return previousUsage;
      }
      if newUsage >= 0 {
        return newUsage;
      }
      return -1;
    }

    /** ifconfig_pool_acquire */
    method Acquire(cn: Option<Name>) returns (i: int, local: Word32, remote: Word32)
      requires Valid()
      modifies list
      ensures Valid() && IsChoice(old(list[..]), duplicateCn, cn, i)
      ensures i < 0 ==> list[..] == old(list[..])
      ensures i >= 0 ==>
        && i < list.Length && list[..] == old(list[..])[i := Acquired(old(list[i]), cn)]
        && (if kind == Net30 then local == base + 4 * i + 1 && remote == base + 4 * i + 2
            else local == 0 && remote == base + i)
        && Addresses(kind, base, i) == (if kind == Net30 then {local, remote} else {remote})
    {
      i := Find(cn);
      local, remote := 0, 0;
      if i >= 0 {
        var ipe := Freed(list[i], true, 0);
        list[i] := ipe.(inUse := true, commonName := cn);
        match kind {
          case Net30 =>
            var b := base + 4 * i;
            local, remote := (b + 1) % WORD_LIMIT, (b + 2) % WORD_LIMIT;
          case Indiv =>
            remote := (base + i) % WORD_LIMIT;
        }
      }
    }

    /** ifconfig_pool_release */
    method Release(hand: int, hard: bool, now: int) returns (ret: bool)
      modifies list
      ensures ret <==> 0 <= hand < list.Length
      ensures list[..] == if ret then old(list[..])[hand := Freed(old(list[hand]), hard, now)] else old(list[..])
    {
      ret := false;
      if 0 <= hand < list.Length {
        list[hand] := Freed(list[hand], hard, now);
        ret := true;
      }
    }

    /** ifconfig_pool_set: the entry of the address is given a name to wait for. */
    method Set(cn: Name, addr: Word32, fixed: bool, now: int)
      requires Valid()
      modifies list
      ensures var h := IpBaseToHandle(kind, base, list.Length, addr);
              list[..] == if h >= 0 then old(list[..])[h := Entry(false, Some(cn), now, fixed)] else old(list[..])
    {
      var h := IpBaseToHandle(kind, base, list.Length, addr);
      if h >= 0 {
        list[h] := Freed(list[h], true, now).(commonName := Some(cn), lastRelease := now, fixed := fixed);
      }
    }
  }

  // ----- whole runs -----

  datatype Event = Take(cn: Option<Name>) | GiveBack(hand: int, hard: bool, now: int)

  /** The entry ifconfig_pool_find takes, as the one number that meets its promise. */
  ghost function Choice(list: seq<Entry>, duplicateCn: bool, cn: Option<Name>): (r: int)
    ensures IsChoice(list, duplicateCn, cn, r) && -1 <= r < |list|
  {
    if duplicateCn then FreeUpTo(list, |list|)
    else if MineUpTo(list, cn, |list|) >= 0 then MineUpTo(list, cn, |list|)
    else EarliestUpTo(list, |list|)
  }

  ghost function FreeUpTo(list: seq<Entry>, n: nat): (r: int)
    requires n <= |list|
    ensures -1 <= r < n && (if r == -1 then forall i :: 0 <= i < n ==> list[i].inUse else FirstFree(list, r))
  {
    if n == 0 then -1
    else if FreeUpTo(list, n - 1) >= 0 then FreeUpTo(list, n - 1)
    else if list[n - 1].inUse then -1 else n - 1
  }

  ghost function MineUpTo(list: seq<Entry>, cn: Option<Name>, n: nat): (r: int)
    requires n <= |list|
    ensures -1 <= r < n && (if r == -1 then forall i :: 0 <= i < n ==> !Mine(list[i], cn) else FirstMine(list, cn, r))
  {
    if n == 0 then -1
    else if MineUpTo(list, cn, n - 1) >= 0 then MineUpTo(list, cn, n - 1)
    else if Mine(list[n - 1], cn) then n - 1 else -1
  }

  ghost function EarliestUpTo(list: seq<Entry>, n: nat): (r: int)
    requires n <= |list|
    ensures -1 <= r < n && Earliest(list[..n], r)
  {
    if n == 0 then -1
    else
      var m := EarliestUpTo(list, n - 1);
      assert list[..n] == list[..n - 1] + [list[n - 1]];
      if Open(list[n - 1]) && (m == -1 || list[n - 1].lastRelease < list[m].lastRelease) then n - 1 else m
  }

  /** The pool with the handles that are given out, each as often as it is. */
  datatype Leases = Leases(list: seq<Entry>, held: multiset<int>)

  ghost function Step(s: Leases, duplicateCn: bool, e: Event): (t: Leases)
    ensures |t.list| == |s.list|
  {
    match e
    case Take(cn) =>
      var i := Choice(s.list, duplicateCn, cn);
      if i < 0 then s else Leases(s.list[i := Acquired(s.list[i], cn)], s.held + multiset{i})
    case GiveBack(h, hard, now) =>
      if 0 <= h < |s.list| then Leases(s.list[h := Freed(s.list[h], hard, now)], s.held[h := 0]) else s
  }

  ghost function Run(s: Leases, duplicateCn: bool, es: seq<Event>): (t: Leases)
    ensures |t.list| == |s.list|
    decreases |es|
  {
    if es == [] then s else Run(Step(s, duplicateCn, es[0]), duplicateCn, es[1..])
  }

  /** An entry is in use exactly when its handle is given out, once. */
  ghost predicate Exclusive(s: Leases) {
    forall h :: s.held[h] == if 0 <= h < |s.list| && s.list[h].inUse then 1 else 0
  }

  /** In every run from an exclusive pool no handle is ever given out twice at a time. */
  lemma {:induction false} RunExclusive(s: Leases, duplicateCn: bool, es: seq<Event>)
    requires Exclusive(s)
    ensures Exclusive(Run(s, duplicateCn, es))
    decreases |es|
  {
    if es != [] {
      var t := Step(s, duplicateCn, es[0]);
      assert Exclusive(t) by {
        if es[0].Take? {
          var i := Choice(s.list, duplicateCn, es[0].cn);
          assert i >= 0 ==> !s.list[i].inUse;
        }
      }
      RunExclusive(t, duplicateCn, es[1..]);
    }
  }

  /** So two handles given out stand for different addresses, all in the pool. */
  lemma LeasesAreDisjoint(kind: Kind, base: Word32, s: Leases, duplicateCn: bool, es: seq<Event>, h: int, k: int)
    requires Exclusive(s) && Fits(kind, base, |s.list|)
    requires var t := Run(s, duplicateCn, es); h in t.held && k in t.held && multiset{h, k} <= t.held
    ensures 0 <= h < |s.list| && 0 <= k < |s.list| && h != k
    ensures Addresses(kind, base, h) !! Addresses(kind, base, k)
    ensures forall a :: a in Addresses(kind, base, h) ==> base <= a < base + Width(kind) * |s.list|
  {
    RunExclusive(s, duplicateCn, es);
    var t := Run(s, duplicateCn, es);
    assert t.held[h] == 1 && t.held[k] == 1;
    assert multiset{h, k}[h] == if h == k then 2 else 1;
    HoldersAreApart(kind, base, |s.list|, h, k);
  }

  /**
   * Without duplicate_cn a fixed entry is, throughout every run, either in nobody's use or in that of
   * the client it was fixed for; once it was hard-released it has lost its name and is lost to everybody.
   */
  lemma {:induction false} FixedStays(s: Leases, es: seq<Event>, h: nat, owner: Name)
    requires h < |s.list| && s.list[h].fixed && s.list[h].commonName in {None, Some(owner)}
    ensures
      var e := Run(s, false, es).list[h];
      && e.fixed && e.commonName in {None, Some(owner)}
      && (s.list[h].commonName == None && !s.list[h].inUse ==> e.commonName == None && !e.inUse)
    decreases |es|
  {
    if es != [] {
      var t := Step(s, false, es[0]);
      if es[0].Take? && Choice(s.list, false, es[0].cn) == h {
        FixedForItsName(s.list, es[0].cn, h);
      }
      FixedStays(t, es[1..], h, owner);
    }
  }

  /** A client that comes back while an entry bears its name gets such an entry back. */
  lemma ReturningClient(s: Leases, cn: Name, h: nat)
    requires h < |s.list| && Mine(s.list[h], Some(cn))
    ensures
      var i := Choice(s.list, false, Some(cn));
      && 0 <= i <= h && s.list[i].commonName == Some(cn)
      && (i == h || Mine(s.list[i], Some(cn)))
      && Step(s, false, Take(Some(cn))).list[i] == Entry(true, Some(cn), 0, s.list[i].fixed)
  {
  }

  predicate Sooner(list: seq<Entry>, j: nat, h: nat)
    requires j < |list| && h < |list|
  {
    && Open(list[j])
    && (list[j].lastRelease < list[h].lastRelease || (list[j].lastRelease == list[h].lastRelease && j < h))
  }

  /** A free entry that something else goes before, when the client cn comes: a table that a caller could look at. */
  ghost predicate Passed(list: seq<Entry>, duplicateCn: bool, cn: Option<Name>, h: nat)
    requires h < |list|
  {
    if duplicateCn then exists j :: 0 <= j < h && !list[j].inUse
    else if Mine(list[h], cn) then exists j :: 0 <= j < h && Mine(list[j], cn)
    else
      || list[h].fixed
      || (exists j :: 0 <= j < |list| && Mine(list[j], cn))
      || (exists j :: 0 <= j < |list| && Sooner(list, j, h))
  }

  /** The search leaves a free entry exactly when something goes before it. */
  lemma ChoiceLeaves(list: seq<Entry>, duplicateCn: bool, cn: Option<Name>, h: nat)
    requires h < |list| && !list[h].inUse
    ensures Choice(list, duplicateCn, cn) != h <==> Passed(list, duplicateCn, cn, h)
  {
    var r := Choice(list, duplicateCn, cn);
    if r != h && !duplicateCn && !Mine(list[h], cn) && !list[h].fixed
       && !(exists j :: 0 <= j < |list| && Mine(list[j], cn)) {
      assert Open(list[h]) && Open(list[r]) && Sooner(list, r, h);
    }
  }

  /** Every client that comes while h is free finds something better, and nobody gives h back again. */
  ghost predicate PassedAlong(s: Leases, duplicateCn: bool, es: seq<Event>, h: nat)
    requires h < |s.list|
    decreases |es|
  {
    es == [] || (
      && (match es[0]
          case Take(cn) => Passed(s.list, duplicateCn, cn, h)
          case GiveBack(k, hard, _) => k != h)
      && PassedAlong(Step(s, duplicateCn, es[0]), duplicateCn, es[1..], h))
  }

  lemma {:induction false} WaitsForReturn(s: Leases, duplicateCn: bool, es: seq<Event>, h: nat)
    requires h < |s.list| && !s.list[h].inUse && PassedAlong(s, duplicateCn, es, h)
    ensures Run(s, duplicateCn, es).list[h] == s.list[h]
    decreases |es|
  {
    if es != [] {
      if es[0].Take? {
        ChoiceLeaves(s.list, duplicateCn, es[0].cn, h);
      }
      WaitsForReturn(Step(s, duplicateCn, es[0]), duplicateCn, es[1..], h);
    }
  }

  /** After such a run the client whose name h bears gets h back, if no earlier entry waits for it too. */
  lemma GetsItsEntryBack(s: Leases, es: seq<Event>, cn: Name, h: nat)
    requires h < |s.list| && Mine(s.list[h], Some(cn)) && PassedAlong(s, false, es, h)
    ensures
      var list := Run(s, false, es).list;
      Choice(list, false, Some(cn)) == h <==> forall j :: 0 <= j < h ==> !Mine(list[j], Some(cn))
  {
    WaitsForReturn(s, false, es, h);
    ChoiceLeaves(Run(s, false, es).list, false, Some(cn), h);
  }

  // ----- an entry and its story -----

  /** What has happened to one entry: who holds it, who left it and when, or that it was wiped. */
  datatype Past = Never | Held(cn: Option<Name>) | Left(cn: Option<Name>, at: int) | Wiped

  /** The name that the entry has kept. */
  function KeptName(p: Past): Option<Name> {
    if p.Held? || p.Left? then p.cn else None
  }

  function NextPast(p: Past, e: Event, chosen: bool, h: nat): Past {
    match e
    case Take(cn) => if chosen then Held(cn) else p
    case GiveBack(k, hard, now) => if k != h then p else if hard then Wiped else Left(KeptName(p), now)
  }

  ghost function Story(s: Leases, duplicateCn: bool, es: seq<Event>, h: nat, p: Past): Past
    decreases |es|
  {
    if es == [] then p
    else
      var chosen := es[0].Take? && Choice(s.list, duplicateCn, es[0].cn) == h;
      Story(Step(s, duplicateCn, es[0]), duplicateCn, es[1..], h, NextPast(p, es[0], chosen, h))
  }

  /** A client holds the entry under its own name; a soft release keeps the name and the time, a hard one nothing. */
  ghost predicate Tells(e: Entry, p: Past) {
    match p
    case Never => e == Entry(false, None, 0, e.fixed)
    case Held(cn) => e.inUse && e.commonName == cn
    case Left(cn, at) => !e.inUse && e.commonName == cn && e.lastRelease == at
    case Wiped => !e.inUse && e.commonName == None && e.lastRelease == 0
  }

  /** After every run each entry is what its story says. */
  lemma {:induction false} EntriesTellTheirStory(s: Leases, duplicateCn: bool, es: seq<Event>, h: nat, p: Past)
    requires h < |s.list| && Tells(s.list[h], p)
    ensures Tells(Run(s, duplicateCn, es).list[h], Story(s, duplicateCn, es, h, p))
    decreases |es|
  {
    if es != [] {
      var chosen := es[0].Take? && Choice(s.list, duplicateCn, es[0].cn) == h;
      EntriesTellTheirStory(Step(s, duplicateCn, es[0]), duplicateCn, es[1..], h, NextPast(p, es[0], chosen, h));
    }
  }

  /**
   * A client that leaves softly and finds its entry passed along meanwhile gets it back, if no earlier one
   * waits for it too; one whose entry is released hard is as any stranger to it.
   */
  lemma SoftReleaseIsRemembered(s: Leases, es: seq<Event>, cn: Name, h: nat, hard: bool, now: int)
    requires h < |s.list| && s.list[h].inUse && s.list[h].commonName == Some(cn)
    requires PassedAlong(Step(s, false, GiveBack(h, hard, now)), false, es, h)
    ensures
      var list := Run(Step(s, false, GiveBack(h, hard, now)), false, es).list;
      && !list[h].inUse && list[h].lastRelease == (if hard then 0 else now)
      && if hard then !Mine(list[h], Some(cn))
         else Choice(list, false, Some(cn)) == h <==> forall j :: 0 <= j < h ==> !Mine(list[j], Some(cn))
  {
    var t := Step(s, false, GiveBack(h, hard, now));
    WaitsForReturn(t, false, es, h);
    if !hard {
      GetsItsEntryBack(t, es, cn, h);
    }
  }
}
