/**
 * The anti-replay window of packet_id.c. Rec is what one receiver remembers, with the circular
 * list read as a plain sequence, newest id first; the class below runs the same steps on the ring.
 */
module PacketIds {
  import opened Integers
  import opened CircLists
  import opened Sequences

  const SEQ_UNSEEN := 0
  const SEQ_EXPIRED := 1
  const MAX_SEQ_BACKTRACK := 65536
  const MAX_TIME_BACKTRACK := 600
  const SEQ_REAP_INTERVAL := 5

  datatype Pin = Pin(time: int, id: Word32)

  datatype Rec = Rec(lastReap: int, time: int, id: Word32,
                     seqBacktrack: nat, timeBacktrack: nat, window: seq<int>)

  predicate LegalBacktrack(seqBacktrack: nat, timeBacktrack: nat) {
    seqBacktrack <= MAX_SEQ_BACKTRACK && timeBacktrack <= MAX_TIME_BACKTRACK
  }

  function Init(seqBacktrack: nat, timeBacktrack: nat): Rec
    requires LegalBacktrack(seqBacktrack, timeBacktrack)
  {
    Rec(0, 0, 0, seqBacktrack, if seqBacktrack == 0 then 0 else timeBacktrack, [])
  }

  predicate Test(r: Rec, pin: Pin) {
    if pin.id == 0 then false
    else if r.seqBacktrack > 0 then
      if pin.time == r.time then
        pin.id > r.id || (r.id - pin.id < |r.window| && r.window[r.id - pin.id] == SEQ_UNSEEN)
      else pin.time > r.time
    else
      if pin.time == r.time then pin.id == (r.id + 1) % WORD_LIMIT
      else pin.time > r.time && pin.id == 1
  }

  /** The cases in which an accepted id makes the receiver forget its window. */
  predicate StartsOver(r: Rec, pin: Pin) {
    || |r.window| == 0
    || pin.time > r.time
    || (pin.id >= r.seqBacktrack && pin.id - r.seqBacktrack > r.id)
  }

  function Zeros(n: nat): (s: seq<int>)
    ensures |s| == n && forall k :: 0 <= k < n ==> s[k] == SEQ_UNSEEN
  {
    seq(n, _ => SEQ_UNSEEN)
  }

  function Base(r: Rec, pin: Pin): Rec {
    if StartsOver(r, pin) then
      r.(time := pin.time, id := Max(pin.id - r.seqBacktrack, 0), window := [])
    else r
  }

  /** The window after n unseen slots have entered at the front of a list of the given capacity. */
  function Slide(window: seq<int>, n: nat, capacity: nat): seq<int> {
    (Zeros(n) + window)[..Min(n + |window|, capacity)]
  }

  lemma SlideNone(window: seq<int>, capacity: nat)
    requires |window| <= capacity
    ensures Slide(window, 0, capacity) == window
  {
  }

  lemma SlideOne(window: seq<int>, n: nat, capacity: nat)
    requires |window| <= capacity
    ensures
      var s := Slide(window, n, capacity);
      Slide(window, n + 1, capacity) == ([SEQ_UNSEEN] + s)[..Min(|s| + 1, capacity)]
  {
  }

  function Add(r: Rec, pin: Pin, now: int): Rec {
    if r.seqBacktrack == 0 then r.(time := pin.time, id := pin.id)
    else
      var b := Base(r, pin);
      var top := Max(b.id, pin.id);
      var w := Slide(b.window, top - b.id, r.seqBacktrack);
      var diff := top - pin.id;
      b.(id := top, window := if diff < |w| && now > SEQ_EXPIRED then w[diff := now] else w)
  }

  /** The reap loop from one slot on; expire tells whether an older slot has already timed out. */
  function ReapTail(w: seq<int>, timeBacktrack: int, now: int, expire: bool): (s: seq<int>)
    ensures |s| == |w|
  {
    if w == [] || w[0] == SEQ_EXPIRED then w
    else
      var x := expire || (w[0] != SEQ_UNSEEN && w[0] + timeBacktrack < now);
      [if x then SEQ_EXPIRED else w[0]] + ReapTail(w[1..], timeBacktrack, now, x)
  }

  lemma ReapStops(w: seq<int>, i: nat, timeBacktrack: int, now: int, expire: bool)
    requires i < |w| && w[i] == SEQ_EXPIRED
    ensures w[..i] + ReapTail(w[i..], timeBacktrack, now, expire) == w
  {
    Join(w, 0, i);
    assert w[0..] == w && w[0..i] == w[..i];
  }

  lemma ReapStep(w: seq<int>, i: nat, timeBacktrack: int, now: int, expire: bool)
    requires i < |w| && w[i] != SEQ_EXPIRED
    ensures
      var x := expire || (w[i] != SEQ_UNSEEN && w[i] + timeBacktrack < now);
      var v := if x then w[i := SEQ_EXPIRED] else w;
      w[..i] + ReapTail(w[i..], timeBacktrack, now, expire) == v[..i + 1] + ReapTail(v[i + 1..], timeBacktrack, now, x)
  {
    var x := expire || (w[i] != SEQ_UNSEEN && w[i] + timeBacktrack < now);
    var v := if x then w[i := SEQ_EXPIRED] else w;
    assert w[i..][0] == w[i] && w[i..][1..] == v[i + 1..];
    assert v[..i + 1] == w[..i] + [v[i]];
  }

  function Reap(r: Rec, now: int): Rec {
    r.(lastReap := now,
       window := if r.timeBacktrack != 0 then ReapTail(r.window, r.timeBacktrack, now, false) else r.window)
  }

  function ReapTest(r: Rec, now: int): Rec {
    if r.lastReap + SEQ_REAP_INTERVAL <= now then Reap(r, now) else r
  }

  class PacketIdRec {
    var lastReap: int
    var time: int
    var id: Word32
    var seqBacktrack: nat
    var timeBacktrack: nat
    var seqList: CircList?<int>

    ghost function Repr(): set<object>
      reads this
    {
      if seqList == null then {this} else {this, seqList, seqList.list}
    }

    ghost predicate Valid()
      reads this, if seqList == null then {} else {seqList, seqList.list}
    {
      && (seqList == null <==> seqBacktrack == 0)
      && (seqList == null ==> timeBacktrack == 0)
      && (seqList != null ==> seqList.Valid() && seqList.list.Length == seqBacktrack <= MAX_SEQ_BACKTRACK)
    }

    ghost function Value(): Rec
      requires Valid()
      reads this, if seqList == null then {} else {seqList, seqList.list}
    {
      Rec(lastReap, time, id, seqBacktrack, timeBacktrack, if seqList == null then [] else seqList.Contents())
    }

    constructor (seqBacktrack: nat, timeBacktrack: nat)
      requires LegalBacktrack(seqBacktrack, timeBacktrack)
      ensures Valid() && fresh(Repr())
      ensures Value() == Init(seqBacktrack, timeBacktrack)
    {
      lastReap, time, id := 0, 0, 0;
      this.seqBacktrack := seqBacktrack;
      if seqBacktrack > 0 {
        var list := new CircList<int>(seqBacktrack);
        seqList := list;
        this.timeBacktrack := timeBacktrack;
      } else {
        seqList := null;
        this.timeBacktrack := 0;
      }
    }

    method TestPin(pin: Pin) returns (ok: bool)
      requires Valid()
      ensures ok == Test(Value(), pin)
    {
      if pin.id == 0 {
        return false;
      }
      if seqBacktrack > 0 {
        if pin.time == time {
          if pin.id > id {
            return true;
          }
          var diff := id - pin.id;
          if diff >= seqList.size {
            return false;
          }
          var t := seqList.Item(diff);
          return t == SEQ_UNSEEN;
        }
        return pin.time > time;
      }
      if pin.time == time {
        return pin.id == (id + 1) % WORD_LIMIT;
      }
      return pin.time > time && pin.id == 1;
    }

    method AddPin(pin: Pin, now: int)
      requires Valid()
      modifies Repr()
      ensures Valid() && Repr() == old(Repr())
      ensures Value() == Add(old(Value()), pin, now)
    {
      if seqList == null {
        time, id := pin.time, pin.id;
        return;
      }
      hide Slide, Base;
      ghost var base := Base(Value(), pin);
      Rebase(pin);
      PushUnseen(pin.id, base);
      var diff := id - pin.id;
      if diff < seqList.size && now > SEQ_EXPIRED {
        seqList.SetItem(diff, now);
      }
    }

    /** The first step of packet_id_add: a newer timestamp or a far jump empties the window. */
    method Rebase(pin: Pin)
      requires Valid() && seqList != null
      modifies this`time, this`id, seqList
      ensures Valid() && Value() == Base(old(Value()), pin)
    {
      if seqList.size == 0 || pin.time > time || (pin.id >= seqBacktrack && pin.id - seqBacktrack > id) {
        time := pin.time;
        id := 0;
        if pin.id > seqBacktrack {
          id := pin.id - seqBacktrack;
        }
        seqList.Reset();
      }
    }

    /** The push loop of packet_id_add. */
    method PushUnseen(target: Word32, ghost base: Rec)
      requires Valid() && seqList != null && Value() == base
      modifies this`id, seqList, seqList.list
      ensures Valid()
      ensures id == Max(base.id, target)
      ensures seqList.Contents() == Slide(base.window, id - base.id, seqBacktrack)
    {
      hide Slide;
      SlideNone(base.window, seqBacktrack);
      while id < target
        invariant Valid()
        invariant base.id <= id <= Max(base.id, target)
        invariant seqList.Contents() == Slide(base.window, id - base.id, seqBacktrack)
      {
        SlideOne(base.window, id - base.id, seqBacktrack);
        seqList.Push(SEQ_UNSEEN);
        id := id + 1;
      }
    }

    method ReapWindow(now: int)
      requires Valid()
      modifies Repr()
      ensures Valid() && Repr() == old(Repr())
      ensures Value() == Reap(old(Value()), now)
    {
      if timeBacktrack != 0 {
        ExpireTail(now);
      }
      lastReap := now;
    }

    /** The loop of packet_id_reap, with its early exit at the first expired slot. */
    method ExpireTail(now: int)
      requires Valid() && seqList != null
      modifies seqList.list
      ensures Valid()
      ensures seqList.Contents() == ReapTail(old(seqList.Contents()), timeBacktrack, now, false)
    {
      hide ReapTail;
      ghost var goal := ReapTail(seqList.Contents(), timeBacktrack, now, false);
      WithEmpty(goal);
      var i, expire := 0, false;
      while i < seqList.size
        invariant Valid()
        invariant 0 <= i <= seqList.size
        invariant goal == seqList.Contents()[..i] + ReapTail(seqList.Contents()[i..], timeBacktrack, now, expire)
      {
        ghost var w := seqList.Contents();
        var t := seqList.Item(i);
        if t == SEQ_EXPIRED {
          ReapStops(w, i, timeBacktrack, now, expire);
          return;
        }
        ghost var was := expire;
        if !expire && t != SEQ_UNSEEN && t + timeBacktrack < now {
          expire := true;
        }
        if expire {
          seqList.SetItem(i, SEQ_EXPIRED);
        }
        ReapStep(w, i, timeBacktrack, now, was);
        i := i + 1;
      }
    }

    method ReapWindowTest(now: int)
      requires Valid()
      modifies Repr()
      ensures Valid() && Repr() == old(Repr())
      ensures Value() == ReapTest(old(Value()), now)
    {
      if lastReap + SEQ_REAP_INTERVAL <= now {
        ReapWindow(now);
      }
    }
  }
}
