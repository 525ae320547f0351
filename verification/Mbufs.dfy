/** The reference-counted broadcast ring of mbuf.c, and its users multi_bcast and multi_get_queue (multi.c). */
module Mbufs {
  import opened Bits
  import opened Integers
  import opened MbufQueue
  import opened Wrappers

  /** struct mbuf_buffer; it is freed when its count falls to zero. */
  class MbufBuffer {
    const data: seq<int>
    const unicast: bool
    var refcount: int

    /** mbuf_alloc_buf: the one who allocates holds the first reference. */
    constructor (data: seq<int>, unicast: bool)
      ensures this.data == data && this.unicast == unicast && refcount == 1
    {
      this.data, this.unicast, refcount := data, unicast, 1;
    }

    /** mbuf_free_buf */
    method Free() returns (gone: bool)
      modifies this`refcount
      ensures refcount == old(refcount) - 1 && (gone <==> refcount <= 0)
    {
      refcount := refcount - 1;
      gone := refcount <= 0;
    }
  }

  type Slot = Item<MbufBuffer>

  /** How many slots of q refer to b. */
  ghost function Slots(q: seq<Slot>, b: MbufBuffer): nat {
    if q == [] then 0 else (if q[0].Item? && q[0].buffer == b then 1 else 0) + Slots(q[1..], b)
  }

  ghost function Buffers(q: seq<Slot>): set<MbufBuffer> {
    set i | 0 <= i < |q| && q[i].Item? :: q[i].buffer
  }

  lemma {:induction false} SlotsConcat(p: seq<Slot>, q: seq<Slot>, b: MbufBuffer)
    ensures Slots(p + q, b) == Slots(p, b) + Slots(q, b)
  {
    if p == [] {
      assert p + q == q;
    } else {
      assert (p + q)[1..] == p[1..] + q;
      SlotsConcat(p[1..], q, b);
    }
  }

  lemma {:induction false} SlotsSkip(q: seq<Slot>, b: MbufBuffer)
    ensures Slots(Skip(q), b) == Slots(q, b)
  {
    if q != [] && q[0] == Nothing {
      SlotsSkip(q[1..], b);
    }
  }

  /** What is extracted, and what stays, was in the ring. */
  lemma {:induction false} ExtractFrom(q: seq<Slot>)
    ensures Extract(q).0.Some? ==> Extract(q).0.value.buffer in Buffers(q)
    ensures forall x :: x in Extract(q).1 ==> x in q
    ensures forall b :: b in Buffers(Extract(q).1) ==> b in Buffers(q)
  {
    if q != [] && q[0] == Nothing {
      ExtractFrom(q[1..]);
      assert forall i :: 0 <= i < |q| - 1 ==> q[1..][i] == q[i + 1];
    }
  }

  /** struct mbuf_set */
  class MbufSet {
    const slots: array<Slot>
    var head: nat
    var len: nat
    var maxQueued: nat

    ghost predicate Valid()
      reads this
    {
      PowerOfTwo(slots.Length) && head < slots.Length && len <= slots.Length
    }

    ghost function At(i: nat): (j: nat)
      requires head < slots.Length && i <= slots.Length
      reads this
      ensures j < slots.Length
    {
      if head + i < slots.Length then head + i else head + i - slots.Length
    }

    /** The slots from the oldest on. */
    ghost function Contents(): (q: seq<Slot>)
      requires head < slots.Length && len <= slots.Length
      reads this, slots
      ensures |q| == len
    {
      seq(len, i requires 0 <= i < len <= slots.Length && head < slots.Length reads this, slots => slots[At(i)])
    }

    /** MBUF_INDEX */
    function MbufIndex(i: nat): (j: nat)
      requires Valid() && i <= slots.Length
      reads this
      ensures j == At(i)
    {
      Masked(head + i, slots.Length);
      var x := head + i;
      assert x >= slots.Length ==> Remainder(x, slots.Length) == Remainder(x - slots.Length, slots.Length);
      And(x, slots.Length - 1)
    }

    /** mbuf_init */
    constructor (size: Word32)
      requires size <= 0x8000_0000
      ensures Valid() && fresh(slots) && slots.Length >= size && Contents() == []
    {
      var n := AdjustPowerOf2(size);
      slots := new Slot[n.value];
      head, len, maxQueued := 0, 0, 0;
    }

    /** mbuf_extract_item: the oldest live item, and None on a ring without one. */
    method ExtractItem() returns (item: Option<Slot>)
      requires Valid()
      modifies this`head, this`len
      ensures Valid() && (item, Contents()) == Extract(old(Contents()))
    {
      while len != 0
        invariant Valid() && Skip(Contents()) == Skip(old(Contents()))
        decreases len
      {
        ghost var q := Contents();
        var slot := slots[head];
        head := MbufIndex(1);
        len := len - 1;
        assert slot == q[0] && Contents() == q[1..];
        if slot.Item? {
          return Some(slot);
        }
      }
      return None;
    }

    /** mbuf_peek_dowork: the instance of the item that would be extracted next. */
    method Peek() returns (mi: Option<Id>)
      requires Valid()
      ensures mi == match Extract(Contents()).0 { case Some(item) => Some(item.instance) case None => None }
    {
      var i := 0;
      while i < len
        invariant i <= len && Skip(Contents()) == Skip(Contents()[i..])
      {
        var slot := slots[MbufIndex(i)];
        assert slot == Contents()[i] == Contents()[i..][0] && Contents()[i..][1..] == Contents()[i + 1..];
        if slot.Item? {
          return Some(slot.instance);
        }
        i := i + 1;
      }
      return None;
    }

    /** The references to b that are not in the ring. */
    ghost function Holders(b: MbufBuffer): int
      requires Valid()
      reads this, slots, b
    {
      b.refcount - Slots(Contents(), b)
    }

    /** The store of mbuf_add_item, with room in the ring. */
    method Append(item: Slot)
      requires Valid() && len < slots.Length && item.Item?
      modifies this, slots, item.buffer`refcount
      ensures Valid() && Contents() == old(Contents()) + [item]
      ensures item.buffer.refcount == old(item.buffer.refcount) + 1 && maxQueued == Max(old(maxQueued), len)
    {
      slots[MbufIndex(len)] := item;
      len := len + 1;
      maxQueued := if len > maxQueued then len else maxQueued;
      item.buffer.refcount := item.buffer.refcount + 1;
      assert Contents()[..len - 1] == old(Contents());
    }

    /** mbuf_add_item; false stands for the failed assertion. */
    method AddItem(item: Slot, ghost known: set<MbufBuffer>) returns (ok: bool)
      requires Valid() && item.Item? && Buffers(Contents()) <= known && item.buffer in known
      modifies this, slots, known`refcount
      ensures Valid() && (ok <==> Add(old(Contents()), slots.Length, item).Some?)
      ensures ok ==> Some(Contents()) == Add(old(Contents()), slots.Length, item)
      ensures Buffers(Contents()) <= known
      ensures ok ==> maxQueued == Max(old(maxQueued), len)
      ensures ok ==> forall b :: b in known ==> Holders(b) == old(Holders(b))
    {
      ghost var q := Contents();
      ExtractFrom(q);
      if len == slots.Length {
        var rm := ExtractItem();
        if rm == None {
          return false;
        }
        var gone := rm.value.buffer.Free();
      }
      ghost var p := Contents();
      Append(item);
      AddSlots(q, p, item, slots.Length);
      return true;
    }

    method ClearSlot(i: nat, mi: Id, ghost known: set<MbufBuffer>)
      requires Valid() && i < len && Buffers([Contents()[i]]) <= known
      modifies slots, known`refcount
      ensures Contents() == old(Contents())[i := Cleared(old(Contents())[i], mi)]
      ensures forall b :: b in known ==>
        b.refcount == old(b.refcount) - if old(Contents())[i] == Item(b, mi) then 1 else 0
    {
      ghost var q := Contents();
      var j := MbufIndex(i);
      assert slots[j] == q[i] == [q[i]][0];
      if slots[j].Item? && slots[j].instance == mi {
        assert slots[j].buffer in Buffers([q[i]]);
        var gone := slots[j].buffer.Free();
        slots[j] := Nothing;
      }
      assert Contents() == q[i := Cleared(q[i], mi)];
    }

    /** mbuf_dereference_instance */
    method DereferenceInstance(mi: Id, ghost known: set<MbufBuffer>)
      requires Valid() && Buffers(Contents()) <= known
      modifies slots, known`refcount
      ensures Valid() && Contents() == Dereference(old(Contents()), mi)
      ensures Buffers(Contents()) <= known
      ensures forall b :: b in known ==> Holders(b) == old(Holders(b))
    {
      ghost var q := Contents();
      for i := 0 to len
        invariant Contents() == Dereference(q[..i], mi) + q[i..]
        invariant forall b :: b in known ==> Holders(b) == old(Holders(b))
      {
        ghost var now := Contents();
        assert now[i] == q[i] && Buffers([q[i]]) <= Buffers(q);
        DereferenceNext(q, i, mi, now);
        ClearSlot(i, mi, known);
      }
      assert q[..len] == q;
      DereferenceFrom(q, mi);
    }

    /** mbuf_free: the references of the ring are given back. */
    method Free(ghost known: set<MbufBuffer>)
      requires Valid() && Buffers(Contents()) <= known
      modifies known`refcount
      ensures forall b :: b in known ==> b.refcount == old(Holders(b))
    {
      ghost var q := Contents();
      for i := 0 to len
        invariant forall b :: b in known ==> b.refcount == old(Holders(b)) + Slots(q[i..], b)
      {
        var slot := slots[MbufIndex(i)];
        assert slot == q[i] == q[i..][0] && q[i..][1..] == q[i + 1..];
        if slot.Item? {
          assert slot.buffer in Buffers(q);
          var gone := slot.buffer.Free();
        }
      }
    }

    /** multi_get_queue: the data of the next item goes to its instance, and the reference of the slot is dropped. */
    method GetQueue(ghost known: set<MbufBuffer>) returns (mi: Option<Id>, data: seq<int>, mssfix: bool)
      requires Valid() && Buffers(Contents()) <= known
      modifies this`head, this`len, known`refcount
      ensures Valid() && Contents() == Extract(old(Contents())).1 && Buffers(Contents()) <= known
      ensures match Extract(old(Contents())).0
              case None => mi == None
              case Some(item) => mi == Some(item.instance) && data == item.buffer.data && mssfix == item.buffer.unicast
      ensures forall b :: b in known ==> Holders(b) == old(Holders(b))
    {
      ghost var q := Contents();
      ExtractFrom(q);
      var item := ExtractItem();
      forall b: MbufBuffer ensures Slots(Skip(q), b) == Slots(q, b) {
        SlotsSkip(q, b);
      }
      if item == None {
        return None, [], false;
      }
      var gone := item.value.buffer.Free();
      return Some(item.value.instance), item.value.buffer.data, item.value.buffer.unicast;
    }
  }

  lemma AddSlots(q: seq<Slot>, p: seq<Slot>, item: Slot, capacity: nat)
    requires item.Item? && (if |q| < capacity then p == q else Skip(q) != [] && p == Skip(q)[1..])
    ensures forall b: MbufBuffer ::
      Slots(p + [item], b)
      == Slots(q, b) + (if b == item.buffer then 1 else 0)
         - (if |q| >= capacity && b == Skip(q)[0].buffer then 1 else 0)
    ensures Buffers(p + [item]) <= Buffers(q) + {item.buffer}
  {
    ExtractFrom(q);
    forall b: MbufBuffer
      ensures Slots(p + [item], b) ==
        Slots(q, b) + (if b == item.buffer then 1 else 0) - (if |q| >= capacity && b == Skip(q)[0].buffer then 1 else 0)
    {
      SlotsConcat(p, [item], b);
      SlotsSkip(q, b);
    }
    assert forall b :: b in Buffers(p + [item]) ==> b in Buffers(p) || b == item.buffer;
  }

  /** One turn of the loop of mbuf_dereference_instance. */
  lemma DereferenceNext(q: seq<Slot>, i: nat, mi: Id, now: seq<Slot>)
    requires i < |q| && now == Dereference(q[..i], mi) + q[i..]
    ensures now[i := Cleared(q[i], mi)] == Dereference(q[..i + 1], mi) + q[i + 1..]
    ensures forall b: MbufBuffer ::
      Slots(now[i := Cleared(q[i], mi)], b)
      == Slots(now, b) - if q[i] == Item(b, mi) then 1 else 0
  {
    var a := Dereference(q[..i], mi);
    var c := Cleared(q[i], mi);
    DereferenceLast(q[..i], q[i], mi);
    assert q[..i + 1] == q[..i] + [q[i]] && now == a + [q[i]] + q[i + 1..];
    assert now[i := c] == a + [c] + q[i + 1..];
    forall b: MbufBuffer
      ensures Slots(now[i := c], b) == Slots(now, b) - if q[i] == Item(b, mi) then 1 else 0
    {
      SlotsConcat(a + [q[i]], q[i + 1..], b);
      SlotsConcat(a + [c], q[i + 1..], b);
      SlotsConcat(a, [q[i]], b);
      SlotsConcat(a, [c], b);
    }
  }

  lemma {:induction false} DereferenceLast(q: seq<Slot>, x: Slot, mi: Id)
    ensures Dereference(q + [x], mi) == Dereference(q, mi) + [Cleared(x, mi)]
  {
    if q != [] {
      assert (q + [x])[1..] == q[1..] + [x];
      DereferenceLast(q[1..], x, mi);
    } else {
      assert (q + [x])[1..] == [];
    }
  }

  lemma {:induction false} DereferenceFrom(q: seq<Slot>, mi: Id)
    ensures forall i :: 0 <= i < |q| ==> Dereference(q, mi)[i] == Cleared(q[i], mi)
    ensures Buffers(Dereference(q, mi)) <= Buffers(q)
  {
    if q != [] {
      DereferenceFrom(q[1..], mi);
      assert Dereference(q, mi) == [Cleared(q[0], mi)] + Dereference(q[1..], mi);
    }
  }

  // ----- broadcast -----

  /** A client in the table of instances: deferred is the length of its TCP output queue, if it has one. */
  datatype Client = Client(instance: Id, halt: bool, deferred: Option<nat>)

  predicate Wanted(c: Client, omit: Option<Id>, limit: int) {
    Some(c.instance) != omit && !c.halt && OutputQueueReady(c.deferred, limit)
  }

  /** The queue after an item for each wanted client in turn; None once an add fails. */
  ghost function Spread(q: seq<Slot>, capacity: nat, b: MbufBuffer, cs: seq<Client>, omit: Option<Id>, limit: int)
    : Option<seq<Slot>>
    decreases |cs|
  {
    if cs == [] then Some(q)
    else if !Wanted(cs[0], omit, limit) then Spread(q, capacity, b, cs[1..], omit, limit)
    else
      match Add(q, capacity, Item(b, cs[0].instance))
      case None => None
      case Some(p) => Spread(p, capacity, b, cs[1..], omit, limit)
  }

  /**
   * With room for all, the item of a client is queued behind what is there iff the client is neither the
   * one to omit nor halted nor, over TCP, behind by more packets than the limit.
   */
  lemma {:induction false} SpreadReaches(q: seq<Slot>, capacity: nat, b: MbufBuffer, cs: seq<Client>,
                                         omit: Option<Id>, limit: int, to: Id)
    requires |q| + |cs| <= capacity
    ensures
      var r := Spread(q, capacity, b, cs, omit, limit);
      && r.Some? && q <= r.value && |r.value| <= |q| + |cs|
      && (Item(b, to) in r.value[|q|..] <==>
            exists i :: 0 <= i < |cs| && cs[i].instance == to && Some(to) != omit && !cs[i].halt
              && !(cs[i].deferred.Some? && cs[i].deferred.value > limit))
    decreases |cs|
  {
    if cs != [] {
      var first := if Wanted(cs[0], omit, limit) then [Item(b, cs[0].instance)] else [];
      assert Wanted(cs[0], omit, limit) ==> Add(q, capacity, Item(b, cs[0].instance)) == Some(q + first);
      assert q + [] == q;
      SpreadReaches(q + first, capacity, b, cs[1..], omit, limit, to);
      var r := Spread(q, capacity, b, cs, omit, limit);
      assert r.value[|q|..] == first + r.value[|q + first|..];
      assert forall i :: 1 <= i < |cs| ==> cs[i] == cs[1..][i - 1];
    }
  }

  /** multi_bcast: one buffer, shared by all the items; the broadcaster's own reference is gone at the end. */
  method Bcast(ms: MbufSet, data: seq<int>, clients: seq<Client>, omit: Option<Id>, limit: int,
               ghost known: set<MbufBuffer>)
    returns (ok: bool, ghost mb: Option<MbufBuffer>)
    requires ms.Valid() && Buffers(ms.Contents()) <= known
    modifies ms, ms.slots, known`refcount
    ensures ms.Valid() && (mb.Some? <==> data != [])
    ensures data == [] ==> ok && ms.Contents() == old(ms.Contents())
    ensures data != [] ==>
      && fresh(mb.value) && mb.value.data == data && !mb.value.unicast
      && Buffers(ms.Contents()) <= known + {mb.value}
      && (ok <==> Spread(old(ms.Contents()), ms.slots.Length, mb.value, clients, omit, limit).Some?)
      && (ok ==> Some(ms.Contents()) == Spread(old(ms.Contents()), ms.slots.Length, mb.value, clients, omit, limit))
      && (ok ==> ms.Holders(mb.value) == 0)
    ensures ok ==> forall b :: b in known ==> ms.Holders(b) == old(ms.Holders(b))
  {
    if data == [] {
      return true, None;
    }
    var buffer := new MbufBuffer(data, false);
    mb := Some(buffer);
    NoSlots(ms.Contents(), buffer);
    for i := 0 to |clients|
      invariant ms.Valid() && Buffers(ms.Contents()) <= known + {buffer}
      invariant Spread(old(ms.Contents()), ms.slots.Length, buffer, clients, omit, limit)
             == Spread(ms.Contents(), ms.slots.Length, buffer, clients[i..], omit, limit)
      invariant ms.Holders(buffer) == 1
      invariant forall b :: b in known ==> ms.Holders(b) == old(ms.Holders(b))
    {
      var c := clients[i];
      assert clients[i..][0] == c && clients[i..][1..] == clients[i + 1..];
      if Wanted(c, omit, limit) {
        ok := ms.AddItem(Item(buffer, c.instance), known + {buffer});
        if !ok {
          return;
        }
      }
    }
    var gone := buffer.Free();
    ok := true;
  }

  lemma {:induction false} NoSlots(q: seq<Slot>, b: MbufBuffer)
    requires b !in Buffers(q)
    ensures Slots(q, b) == 0
  {
    if q != [] {
      assert forall i :: 0 <= i < |q| - 1 ==> q[1..][i] == q[i + 1];
      NoSlots(q[1..], b);
    }
  }
}
