/**
 * Reassembly is faithful. Datagrams carry unbounded numbers; the wire carries them modulo 256. An
 * Ideal receiver works on the unbounded numbers and keeps, for each datagram under assembly, the
 * set of fragments it has. The 25-slot window answers exactly like it as long as no fragment is
 * more than 231 numbers away from where the window stands.
 */
module Reassembly {
  import opened Integers
  import opened Bytes
  import opened Fragments
  import opened Sending

  const REACH := N_SEQ_ID - N_FRAG_BUF

  // ----- the ideal receiver -----

  datatype Partial = Partial(got: set<nat>, stamp: int)

  datatype Ideal = Ideal(top: int, pending: map<int, Partial>)

  function Got(s: Ideal, u: int): set<nat> {
    if u in s.pending then s.pending[u].got else {}
  }

  ghost predicate Complete(got: set<nat>, count: nat) {
    forall i: nat :: i < count ==> i in got
  }

  /** The window moves to u: a far jump forgets everything, a step forward only what falls out behind. */
  function MoveTo(s: Ideal, u: int): Ideal {
    if Abs(u - s.top) >= N_FRAG_BUF then Ideal(u, map[])
    else if u > s.top then Ideal(u, map v | v in s.pending && v > u - N_FRAG_BUF :: s.pending[v])
    else s
  }

  ghost function Arrive(s: Ideal, u: int, sent: Sent, n: nat, now: int, room: nat): (Ideal, seq<Byte>)
    requires sent.Valid() && n < sent.count
  {
    var m := MoveTo(s, u);
    var got := Got(m, u) + {n};
    if sent.End(n) > room then (m, [])
    else if Complete(got, sent.count) then (m.(pending := m.pending - {u}), sent.data)
    else (m.(pending := m.pending[u := Partial(got, now)]), [])
  }

  function Expire(s: Ideal, now: int): Ideal {
    s.(pending := map u | u in s.pending && s.pending[u].stamp + FRAG_TTL_SEC > now :: s.pending[u])
  }

  // ----- the window against the ideal -----

  /** The slot of the datagram back numbers behind the top of the window. */
  function Place(index: int, back: int): (j: int)
    requires 0 <= index < N_FRAG_BUF && 0 <= back < N_FRAG_BUF
    ensures 0 <= j < N_FRAG_BUF
  {
    ModuloAdd(index, -back, N_FRAG_BUF)
  }

  ghost predicate Holds(slot: Slot, sent: Sent, got: set<nat>)
  {
    && sent.Valid() && slot.defined && slot.maxFragSize == sent.fragSize
    && |slot.received| == MAX_FRAGS && slot.len <= |slot.mem|
    && (forall i :: i in got ==> i < sent.count && sent.End(i) <= slot.len)
    && !Complete(got, sent.count)
    && slot.len <= |sent.data|
    && (forall i :: 0 <= i < MAX_FRAGS ==>
          (slot.received[i] <==> i in got || (sent.count - 1 in got && i >= sent.count)))
    && (forall n, p :: n in got && sent.Begin(n) <= p < sent.End(n) ==> slot.mem[p] == sent.data[p])
  }

  /** What the slot of datagram u looks like when the ideal has, or has not, fragments of u. */
  ghost predicate SlotMatches(slot: Slot, s: Ideal, u: int, sents: map<int, Sent>) {
    if u in s.pending then
      u in sents && Holds(slot, sents[u], s.pending[u].got) && slot.timestamp == s.pending[u].stamp
    else
      slot.defined ==> u in sents && Holds(slot, sents[u], {})
  }

  /** A number that goes over the wire as this sequence id. */
  ghost predicate Congruent(u: int, seqId: int) {
    (u - seqId) % N_SEQ_ID == 0
  }

  ghost predicate Matches(w: Window, s: Ideal, sents: map<int, Sent>, room: nat) {
    && w.Valid(room)
    && Congruent(s.top, w.seqId)
    && (forall u :: u in s.pending ==> s.top - N_FRAG_BUF < u <= s.top)
    && (forall back :: 0 <= back < N_FRAG_BUF ==>
          SlotMatches(w.slots[Place(w.index, back)], s, s.top - back, sents))
  }

  // ----- the sliding window -----

  /** Within the window, distinct sequence ids have distinct slots. */
  lemma PlacesDistinct(index: int, a: int, b: int)
    requires 0 <= index < N_FRAG_BUF && 0 <= a < N_FRAG_BUF && 0 <= b < N_FRAG_BUF && a != b
    ensures Place(index, a) != Place(index, b)
  {
  }

  lemma Distance(r: int, seqId: int, e: int, q: int)
    requires 0 <= r < N_SEQ_ID && 0 <= seqId < N_SEQ_ID && r - seqId == e + N_SEQ_ID * q && Abs(e) <= REACH
    ensures
      var d := ModuloSubtract(r, seqId, N_SEQ_ID);
      && (Abs(e) < N_FRAG_BUF ==> d == e)
      && (Abs(e) >= N_FRAG_BUF ==> Abs(d) >= N_FRAG_BUF)
  {
    if q == 0 {
      assert r - seqId == e;
    } else if q > 0 {
      assert q == 1 && r - seqId == e + N_SEQ_ID;
    } else {
      assert q == -1 && r - seqId == e - N_SEQ_ID;
    }
  }

  lemma Residues(u: int, top: int, seqId: int)
    requires Congruent(top, seqId) && 0 <= seqId < N_SEQ_ID && Abs(u - top) <= REACH
    ensures
      var d := ModuloSubtract(u % N_SEQ_ID, seqId, N_SEQ_ID);
      && (Abs(u - top) < N_FRAG_BUF ==> d == u - top)
      && (Abs(u - top) >= N_FRAG_BUF ==> Abs(d) >= N_FRAG_BUF)
  {
    hide Abs, ModuloSubtract;
    var k, m := (top - seqId) / N_SEQ_ID, u / N_SEQ_ID;
    assert u == N_SEQ_ID * m + u % N_SEQ_ID && top == N_SEQ_ID * k + seqId;
    Distance(u % N_SEQ_ID, seqId, u - top, k - m);
  }

  lemma Turns(u: int)
    ensures (u - u % N_SEQ_ID) % N_SEQ_ID == 0
    ensures (u + N_SEQ_ID) % N_SEQ_ID == u % N_SEQ_ID == (u - N_SEQ_ID) % N_SEQ_ID
  {
  }

  /**
   * What one call of fragment_list_get_buf should do: the slots of the numbers that enter the window are
   * cleared and every other slot keeps its number and its contents.
   */
  ghost predicate Slides(w: Window, room: nat, top: int, u: int)
    requires w.Valid(room)
  {
    var (v, i) := GetBuf(w, room, u % N_SEQ_ID);
    var newTop := if Abs(u - top) >= N_FRAG_BUF then u else Max(u, top);
    && Congruent(newTop, v.seqId)
    && 0 <= newTop - u < N_FRAG_BUF && i == Place(v.index, newTop - u)
    && (forall back :: 0 <= back < N_FRAG_BUF ==>
          v.slots[Place(v.index, back)] ==
            if newTop - back > top || Abs(u - top) >= N_FRAG_BUF
            then Undefine(v.slots[Place(v.index, back)])
            else w.slots[Place(w.index, back - (newTop - top))])
  }

  lemma SlidesTop(w: Window, room: nat, top: int, u: int)
    requires w.Valid(room) && Slides(w, room, top, u)
    ensures
      var (v, i) := GetBuf(w, room, u % N_SEQ_ID);
      var newTop := if Abs(u - top) >= N_FRAG_BUF then u else Max(u, top);
      Congruent(newTop, v.seqId) && 0 <= newTop - u < N_FRAG_BUF && i == Place(v.index, newTop - u)
  {
  }

  lemma GetBufSlides(w: Window, room: nat, top: int, u: int)
    requires w.Valid(room) && Congruent(top, w.seqId) && Abs(u - top) <= REACH
    ensures Slides(w, room, top, u)
  {
    hide ModuloAdd;
    Residues(u, top, w.seqId);
    Turns(u);
  }

  /** From 232 on ahead the window stands still and hands out a slot inside it. */
  lemma BeyondAhead(w: Window, room: nat, top: int, u: int)
    requires w.Valid(room) && Congruent(top, w.seqId) && REACH < u - top < N_SEQ_ID
    ensures GetBuf(w, room, u % N_SEQ_ID) == (w, Place(w.index, N_SEQ_ID - (u - top)))
  {
    Turns(u);
    Residues(u - N_SEQ_ID, top, w.seqId);
  }

  /** From 232 on behind it takes a few steps forward instead of forgetting everything. */
  lemma BeyondBehind(w: Window, room: nat, top: int, u: int)
    requires w.Valid(room) && Congruent(top, w.seqId) && REACH < top - u < N_SEQ_ID
    ensures
      var step := N_SEQ_ID - (top - u);
      var index := ModuloAdd(w.index, step, N_FRAG_BUF);
      GetBuf(w, room, u % N_SEQ_ID) == (Window(u % N_SEQ_ID, index, Advance(w.slots, w.index, step)), index)
  {
    Turns(u);
    Residues(u + N_SEQ_ID, top, w.seqId);
  }

  /**
   * 231 is exact: up to a distance of 255 the window does what it should just when the distance is at most
   * 231, or when it steps forward for a number far behind and has nothing left that it should have forgotten.
   */
  lemma ReachIsExact(w: Window, room: nat, top: int, u: int)
    requires w.Valid(room) && Congruent(top, w.seqId) && Abs(u - top) < N_SEQ_ID
    ensures Slides(w, room, top, u) <==>
      || Abs(u - top) <= REACH
      || (u < top
          && forall back :: 0 <= back < top - u - REACH ==> !w.slots[Place(w.index, back)].defined)
  {
    if Abs(u - top) <= REACH {
      GetBufSlides(w, room, top, u);
    } else if u > top {
      BeyondAhead(w, room, top, u);
      assert !Slides(w, room, top, u) by {
        assert u - top != 0 && (u - w.seqId) - (top - w.seqId) == u - top;
      }
    } else {
      BeyondBehind(w, room, top, u);
      StepsKeep(w, room, top, u);
    }
  }

  lemma StepsKeep(w: Window, room: nat, top: int, u: int)
    requires w.Valid(room) && Congruent(top, w.seqId) && REACH < top - u < N_SEQ_ID
    ensures
      Slides(w, room, top, u) <==>
        forall back :: 0 <= back < top - u - REACH ==> !w.slots[Place(w.index, back)].defined
  {
    BeyondBehind(w, room, top, u);
    var step := N_SEQ_ID - (top - u);
    var (v, i) := GetBuf(w, room, u % N_SEQ_ID);
    Turns(u);
    forall back | 0 <= back < N_FRAG_BUF
      ensures v.slots[Place(v.index, back)] ==
        if back < step then Undefine(w.slots[Place(v.index, back)]) else w.slots[Place(w.index, back - step)]
    {
    }
    if Slides(w, room, top, u) {
      forall back | 0 <= back < top - u - REACH ensures !w.slots[Place(w.index, back)].defined {
        assert v.slots[Place(v.index, back + step)] == Undefine(v.slots[Place(v.index, back + step)]);
      }
    }
  }

  lemma MovesSlot(w: Window, s: Ideal, sents: map<int, Sent>, room: nat, u: int, back: nat)
    requires Matches(w, s, sents, room) && Slides(w, room, s.top, u) && back < N_FRAG_BUF
    ensures
      var (v, m) := (GetBuf(w, room, u % N_SEQ_ID).0, MoveTo(s, u));
      SlotMatches(v.slots[Place(v.index, back)], m, m.top - back, sents)
  {
    hide GetBuf, Holds, Place;
    var (v, m) := (GetBuf(w, room, u % N_SEQ_ID).0, MoveTo(s, u));
    var slot := v.slots[Place(v.index, back)];
    if Abs(u - s.top) >= N_FRAG_BUF || m.top - back > s.top {
      assert slot == Undefine(slot);
    } else {
      var was := back - (m.top - s.top);
      assert slot == w.slots[Place(w.index, was)];
      assert SlotMatches(w.slots[Place(w.index, was)], s, s.top - was, sents);
    }
  }

  lemma MovesTop(s: Ideal, u: int)
    requires forall v :: v in s.pending ==> s.top - N_FRAG_BUF < v <= s.top
    ensures
      var m := MoveTo(s, u);
      && m.top == (if Abs(u - s.top) >= N_FRAG_BUF then u else Max(u, s.top))
      && (forall v :: v in m.pending ==> m.top - N_FRAG_BUF < v <= m.top)
  {
  }

  lemma Moves(w: Window, s: Ideal, sents: map<int, Sent>, room: nat, u: int)
    requires Matches(w, s, sents, room) && Abs(u - s.top) <= REACH
    ensures
      var (v, i) := GetBuf(w, room, u % N_SEQ_ID);
      var m := MoveTo(s, u);
      && Matches(v, m, sents, room)
      && 0 <= m.top - u < N_FRAG_BUF && i == Place(v.index, m.top - u)
  {
    hide GetBuf, SlotMatches, MoveTo, Place, Congruent, Slides;
    GetBufSlides(w, room, s.top, u);
    SlidesTop(w, room, s.top, u);
    MovesTop(s, u);
    var (v, i) := GetBuf(w, room, u % N_SEQ_ID);
    var m := MoveTo(s, u);
    forall back | 0 <= back < N_FRAG_BUF ensures SlotMatches(v.slots[Place(v.index, back)], m, m.top - back, sents) {
      MovesSlot(w, s, sents, room, u, back);
    }
  }

  // ----- one fragment in its slot -----

  lemma DivBounds(p: nat, r: nat, count: nat)
    requires 0 < r && p < count * r
    ensures 0 <= p / r < count && p / r * r <= p < (p / r + 1) * r
  {
    if p / r >= count {
      Ordered(count, p / r, r);
    }
  }

  /** Once every fragment is there, the slot holds the datagram. */
  lemma CompleteIsDatagram(sent: Sent, mem: seq<Byte>, len: nat)
    requires sent.Valid() && len == |sent.data| <= |mem|
    requires forall n: nat, p :: n < sent.count && sent.Begin(n) <= p < sent.End(n) ==> mem[p] == sent.data[p]
    ensures mem[..len] == sent.data
  {
    forall p | 0 <= p < len ensures mem[p] == sent.data[p] {
      DivBounds(p, sent.fragSize, sent.count);
      var n := p / sent.fragSize;
      assert p < sent.End(n);
    }
  }

  lemma LastEnd(sent: Sent, n: nat)
    requires sent.Valid() && n < sent.count
    ensures sent.Begin(n) == n * sent.fragSize <= sent.End(n) <= |sent.data|
    ensures sent.End(n) == |sent.data| <==> n == sent.count - 1
    ensures sent.End(n) == sent.Begin(n) + |sent.Slice(n)|
  {
    Ordered(n, sent.count - 1, sent.fragSize);
    Ordered(n + 1, sent.count - 1, sent.fragSize);
  }

  ghost predicate CopiesOf(mem: seq<Byte>, sent: Sent, got: set<nat>) {
    && (forall i :: i in got ==> i < sent.count && sent.End(i) <= |mem|)
    && (forall i, p :: i in got && sent.Begin(i) <= p < sent.End(i) ==> p < |sent.data| && mem[p] == sent.data[p])
  }

  lemma SliceAt(sent: Sent, n: nat)
    requires sent.Valid() && n < sent.count
    ensures 0 <= sent.Begin(n) <= sent.End(n) <= |sent.data|
    ensures forall p :: sent.Begin(n) <= p < sent.End(n) ==> sent.Slice(n)[p - sent.Begin(n)] == sent.data[p]
  {
    Ordered(n, sent.count - 1, sent.fragSize);
  }

  /** Writing one more slice disturbs no other: where they overlap they agree. */
  lemma WriteSlice(mem: seq<Byte>, sent: Sent, got: set<nat>, n: nat)
    requires sent.Valid() && n < sent.count && sent.End(n) <= |mem| && CopiesOf(mem, sent, got)
    requires sent.Begin(n) <= sent.End(n) && sent.End(n) == sent.Begin(n) + |sent.Slice(n)|
    ensures CopiesOf(mem[..sent.Begin(n)] + sent.Slice(n) + mem[sent.End(n)..], sent, got + {n})
  {
    var at, end := sent.Begin(n), sent.End(n);
    var next := mem[..at] + sent.Slice(n) + mem[end..];
    SliceAt(sent, n);
    hide Sent.Slice, Sent.Valid, Sent.Begin, Sent.End;
    forall i, p | i in got + {n} && sent.Begin(i) <= p < sent.End(i)
      ensures p < |sent.data| && next[p] == sent.data[p]
    {
      if at <= p < end {
        assert next[p] == sent.Slice(n)[p - at];
      } else {
        assert next[p] == mem[p];
      }
    }
  }

  /** A fragment put into the slot of its datagram, on a slot already set up for it. */
  lemma PutNext(s: Slot, sent: Sent, got: set<nat>, n: nat, now: int)
    requires Holds(s, sent, got) && n < sent.count && sent.End(n) <= |s.mem|
    ensures
      var (t, out) := PutFragment(s, n, n == sent.count - 1, sent.fragSize, sent.Slice(n), now);
      if Complete(got + {n}, sent.count) then out == sent.data && !t.defined
      else out == [] && Holds(t, sent, got + {n}) && t.timestamp == now
  {
    LastEnd(sent, n);
    var (t, out) := PutFragment(s, n, n == sent.count - 1, sent.fragSize, sent.Slice(n), now);
    var all := got + {n};
    WriteSlice(s.mem, sent, got, n);
    MarkMeans(s.received, sent.count, got, n);
    assert t.received == Mark(s.received, n, n == sent.count - 1);
    assert CopiesOf(t.mem, sent, all);
    hide Sent.Slice, Sent.Begin, Sent.End, CopiesOf;
    if Complete(all, sent.count) {
      assert sent.count - 1 in all;
      LastEnd(sent, sent.count - 1);
      CompleteIsDatagram(sent, t.mem, t.len);
    }
  }

  lemma PutRefines(slot: Slot, sent: Sent, got: set<nat>, n: nat, now: int)
    requires sent.Valid() && n < sent.count
    requires slot.len <= |slot.mem| && |slot.received| == MAX_FRAGS
    requires if slot.defined then Holds(slot, sent, got) else got == {}
    ensures
      var (t, out) := PutFragment(slot, n, n == sent.count - 1, sent.fragSize, sent.Slice(n), now);
      if sent.End(n) > |slot.mem| then out == [] && Holds(t, sent, got) && (slot.defined ==> t == slot)
      else if Complete(got + {n}, sent.count) then out == sent.data && !t.defined
      else out == [] && Holds(t, sent, got + {n}) && t.timestamp == now
  {
    LastEnd(sent, n);
    var s := if slot.defined then slot
      else slot.(defined := true, maxFragSize := sent.fragSize, received := Word(false), len := 0);
    var none: set<nat> := {};
    assert !Complete(none, sent.count) by {
      assert (0 as nat) !in none;
    }
    assert Holds(s, sent, got);
    assert PutFragment(slot, n, n == sent.count - 1, sent.fragSize, sent.Slice(n), now)
        == PutFragment(s, n, n == sent.count - 1, sent.fragSize, sent.Slice(n), now);
    if sent.End(n) <= |slot.mem| {
      PutNext(s, sent, got, n, now);
    }
  }

  /** The 32-bit map is full exactly when every fragment has been received. */
  lemma MarkMeans(bits: seq<bool>, count: nat, got: set<nat>, n: nat)
    requires |bits| == MAX_FRAGS && n < count <= MAX_FRAGS
    requires forall i :: 0 <= i < MAX_FRAGS ==> (bits[i] <==> i in got || (count - 1 in got && i >= count))
    ensures
      var r, all := Mark(bits, n, n == count - 1), got + {n};
      && (forall i :: 0 <= i < MAX_FRAGS ==> (r[i] <==> i in all || (count - 1 in all && i >= count)))
      && (r == Word(true) <==> Complete(all, count))
  {
    var r, all := Mark(bits, n, n == count - 1), got + {n};
    if Complete(all, count) {
      forall i | 0 <= i < MAX_FRAGS ensures r[i] {
        assert i < count ==> i in all;
        assert count - 1 in all;
      }
      assert r == Word(true);
    }
    if r == Word(true) {
      forall i: nat | i < count ensures i in all {
        assert r[i];
      }
    }
  }

  // ----- whole runs -----

  datatype Event = Fragment(u: int, n: nat, now: int) | Whole(data: seq<Byte>) | Reap(now: int)

  ghost predicate Legal(sents: map<int, Sent>, e: Event) {
    e.Fragment? ==> e.u in sents && sents[e.u].Valid() && e.n < sents[e.u].count
  }

  ghost function Step(w: Window, room: nat, sents: map<int, Sent>, e: Event): (r: (Window, seq<Byte>))
    requires w.Valid(room) && Legal(sents, e)
    ensures r.0.Valid(room)
  {
    match e
    case Fragment(u, n, now) => Incoming(w, room, sents[u].Packet(u % N_SEQ_ID, n), now)
    case Whole(data) => Incoming(w, room, ToNetwork(Header(FRAG_WHOLE, 0, 0, 0)) + data, 0)
    case Reap(now) => (TtlReap(w, now), [])
  }

  ghost function IdealStep(s: Ideal, room: nat, sents: map<int, Sent>, e: Event): (Ideal, seq<Byte>)
    requires Legal(sents, e)
  {
    match e
    case Fragment(u, n, now) => Arrive(s, u, sents[u], n, now, room)
    case Whole(data) => (s, data)
    case Reap(now) => (Expire(s, now), [])
  }

  lemma PacketReadsBack(sent: Sent, seqId: nat, n: nat)
    requires sent.Valid() && n < sent.count && seqId < N_SEQ_ID
    ensures
      var packet := sent.Packet(seqId, n);
      var h := FromNetwork(packet[..4]);
      && packet[4..] == sent.Slice(n)
      && HeaderKind(h) == (if n == sent.count - 1 then FRAG_YES_LAST else FRAG_YES_NOTLAST)
      && HeaderSeqId(h) == seqId && HeaderFragId(h) == n
      && (if n == sent.count - 1 then HeaderSize(h) else |packet[4..]|) == sent.fragSize
  {
    var kind := if n == sent.count - 1 then FRAG_YES_LAST else FRAG_YES_NOTLAST;
    var h := Header(kind, seqId, n, sent.fragSize);
    NetworkRoundTrip(h);
    HeaderRoundTrip(kind, seqId, n, sent.fragSize);
    assert sent.Packet(seqId, n)[..4] == ToNetwork(h);
  }

  lemma IncomingIs(w: Window, room: nat, sent: Sent, seqId: nat, n: nat, now: int)
    requires w.Valid(room) && sent.Valid() && n < sent.count && seqId < N_SEQ_ID
    ensures
      var (v, i) := GetBuf(w, room, seqId);
      var (frag, out) := PutFragment(v.slots[i], n, n == sent.count - 1, sent.fragSize, sent.Slice(n), now);
      Incoming(w, room, sent.Packet(seqId, n), now) == (v.(slots := v.slots[i := frag]), out)
  {
    PacketReadsBack(sent, seqId, n);
  }

  /** Storing the fragment touches the slot of u and no other. */
  lemma StoreRefines(v: Window, m: Ideal, t: Ideal, sents: map<int, Sent>, room: nat, u: int, frag: Slot)
    requires Matches(v, m, sents, room) && 0 <= m.top - u < N_FRAG_BUF && t.top == m.top
    requires forall q :: q != u ==>
      (q in t.pending <==> q in m.pending) && (q in m.pending ==> t.pending[q] == m.pending[q])
    requires SlotMatches(frag, t, u, sents)
    requires |frag.mem| == room && frag.len <= room && |frag.received| == MAX_FRAGS
    ensures Matches(v.(slots := v.slots[Place(v.index, m.top - u) := frag]), t, sents, room)
  {
    var slots := v.slots[Place(v.index, m.top - u) := frag];
    forall back | 0 <= back < N_FRAG_BUF
      ensures SlotMatches(slots[Place(v.index, back)], t, t.top - back, sents)
    {
      assert SlotMatches(v.slots[Place(v.index, back)], m, m.top - back, sents);
      if back != m.top - u {
        PlacesDistinct(v.index, back, m.top - u);
      }
    }
  }

  lemma ArriveRefines(w: Window, s: Ideal, sents: map<int, Sent>, room: nat, u: int, n: nat, now: int)
    requires Matches(w, s, sents, room) && Legal(sents, Fragment(u, n, now)) && Abs(u - s.top) <= REACH
    ensures
      var (v, out) := Incoming(w, room, sents[u].Packet(u % N_SEQ_ID, n), now);
      var (t, want) := Arrive(s, u, sents[u], n, now, room);
      out == want && Matches(v, t, sents, room)
  {
    hide PutFragment, GetBuf, Complete, Sent.Packet, Sent.Slice;
    var sent, m := sents[u], MoveTo(s, u);
    IncomingIs(w, room, sent, u % N_SEQ_ID, n, now);
    Moves(w, s, sents, room, u);
    var (v, i) := GetBuf(w, room, u % N_SEQ_ID);
    assert SlotMatches(v.slots[i], m, m.top - (m.top - u), sents);
    PutRefines(v.slots[i], sent, Got(m, u), n, now);
    var (frag, out) := PutFragment(v.slots[i], n, n == sent.count - 1, sent.fragSize, sent.Slice(n), now);
    StoreRefines(v, m, Arrive(s, u, sent, n, now, room).0, sents, room, u, frag);
  }

  lemma ReapRefines(w: Window, s: Ideal, sents: map<int, Sent>, room: nat, now: int)
    requires Matches(w, s, sents, room)
    ensures Matches(TtlReap(w, now), Expire(s, now), sents, room)
  {
    forall back | 0 <= back < N_FRAG_BUF
      ensures SlotMatches(TtlReap(w, now).slots[Place(w.index, back)], Expire(s, now), s.top - back, sents)
    {
      assert SlotMatches(w.slots[Place(w.index, back)], s, s.top - back, sents);
    }
  }

  /** Every fragment in a run comes within reach of where the window then stands. */
  ghost predicate InReach(s: Ideal, room: nat, sents: map<int, Sent>, es: seq<Event>)
    decreases |es|
  {
    es == [] ||
    (&& Legal(sents, es[0])
     && (es[0].Fragment? ==> Abs(es[0].u - s.top) <= REACH)
     && InReach(IdealStep(s, room, sents, es[0]).0, room, sents, es[1..]))
  }

  ghost function IdealRun(s: Ideal, room: nat, sents: map<int, Sent>, es: seq<Event>): Ideal
    requires InReach(s, room, sents, es)
    decreases |es|
  {
    if es == [] then s else IdealRun(IdealStep(s, room, sents, es[0]).0, room, sents, es[1..])
  }

  ghost function IdealOutputs(s: Ideal, room: nat, sents: map<int, Sent>, es: seq<Event>): seq<seq<Byte>>
    requires InReach(s, room, sents, es)
    decreases |es|
  {
    if es == [] then []
    else
      var (t, out) := IdealStep(s, room, sents, es[0]);
      [out] + IdealOutputs(t, room, sents, es[1..])
  }

  ghost predicate AllLegal(sents: map<int, Sent>, es: seq<Event>) {
    forall e :: e in es ==> Legal(sents, e)
  }

  lemma {:induction false} ReachIsLegal(s: Ideal, room: nat, sents: map<int, Sent>, es: seq<Event>)
    requires InReach(s, room, sents, es)
    ensures AllLegal(sents, es)
    decreases |es|
  {
    if es != [] {
      ReachIsLegal(IdealStep(s, room, sents, es[0]).0, room, sents, es[1..]);
    }
  }

  ghost function Outputs(w: Window, room: nat, sents: map<int, Sent>, es: seq<Event>): seq<seq<Byte>>
    requires w.Valid(room) && AllLegal(sents, es)
    decreases |es|
  {
    if es == [] then []
    else
      var (v, out) := Step(w, room, sents, es[0]);
      [out] + Outputs(v, room, sents, es[1..])
  }

  lemma StepRefines(w: Window, s: Ideal, sents: map<int, Sent>, room: nat, e: Event)
    requires Matches(w, s, sents, room) && Legal(sents, e) && (e.Fragment? ==> Abs(e.u - s.top) <= REACH)
    ensures
      var (v, out) := Step(w, room, sents, e);
      var (t, want) := IdealStep(s, room, sents, e);
      out == want && Matches(v, t, sents, room)
  {
    match e
    case Fragment(u, n, now) => ArriveRefines(w, s, sents, room, u, n, now);
    case Reap(now) => ReapRefines(w, s, sents, room, now);
    case Whole(data) =>
      var packet := ToNetwork(Header(FRAG_WHOLE, 0, 0, 0)) + data;
      assert packet[..4] == ToNetwork(0) && packet[4..] == data;
      NetworkRoundTrip(0);
  }

  /** The window and the ideal receiver deliver the same datagrams at the same moments. */
  lemma {:induction false} RunRefines(w: Window, s: Ideal, sents: map<int, Sent>, room: nat, es: seq<Event>)
    requires Matches(w, s, sents, room) && InReach(s, room, sents, es) && AllLegal(sents, es)
    ensures Outputs(w, room, sents, es) == IdealOutputs(s, room, sents, es)
    decreases |es|
  {
    if es != [] {
      StepRefines(w, s, sents, room, es[0]);
      RunRefines(Step(w, room, sents, es[0]).0, IdealStep(s, room, sents, es[0]).0, sents, room, es[1..]);
    }
  }

  lemma {:induction false} IdealIsFaithful(s: Ideal, room: nat, sents: map<int, Sent>, es: seq<Event>, k: nat)
    requires InReach(s, room, sents, es) && k < |es|
    ensures |IdealOutputs(s, room, sents, es)| == |es|
    ensures
      var out := IdealOutputs(s, room, sents, es)[k];
      || out == []
      || (es[k].Fragment? && es[k].u in sents && out == sents[es[k].u].data)
      || (es[k].Whole? && out == es[k].data)
    decreases |es|
  {
    var t := IdealStep(s, room, sents, es[0]).0;
    if k > 0 {
      IdealIsFaithful(t, room, sents, es[1..], k - 1);
    } else if |es| > 1 {
      IdealIsFaithful(t, room, sents, es[1..], 0);
    }
  }

  ghost predicate Empty(w: Window, room: nat) {
    w.Valid(room) && w.seqId == 0 && w.index == 0 && forall j :: 0 <= j < N_FRAG_BUF ==> !w.slots[j].defined
  }

  /**
   * From an empty window, standing at any number that is 0 modulo 256, and for every interleaving,
   * loss, duplication and reordering within reach: whatever comes out at an event is the very
   * datagram that the event's packet was cut from.
   */
  lemma Faithful(w: Window, room: nat, top: int, sents: map<int, Sent>, es: seq<Event>, k: nat)
    requires Empty(w, room) && top % N_SEQ_ID == 0 && k < |es|
    requires InReach(Ideal(top, map[]), room, sents, es) && AllLegal(sents, es)
    ensures |Outputs(w, room, sents, es)| == |es|
    ensures
      var out := Outputs(w, room, sents, es)[k];
      || out == []
      || (es[k].Fragment? && es[k].u in sents && out == sents[es[k].u].data)
      || (es[k].Whole? && out == es[k].data)
  {
    RunRefines(w, Ideal(top, map[]), sents, room, es);
    IdealIsFaithful(Ideal(top, map[]), room, sents, es, k);
  }

  // ----- a datagram left alone is delivered when its last fragment arrives -----

  function Arrived(es: seq<Event>, u: int): set<nat> {
    if es == [] then {}
    else (if es[0].Fragment? && es[0].u == u then {es[0].n} else {}) + Arrived(es[1..], u)
  }

  /** The step neither resets the slot of u, nor slides the window past it, nor times it out. */
  ghost predicate Spares(s: Ideal, e: Event, u: int) {
    u in s.pending ==>
      match e
      case Fragment(v, n, now) => Abs(v - s.top) < N_FRAG_BUF && u > Max(v, s.top) - N_FRAG_BUF
      case Reap(now) => s.pending[u].stamp + FRAG_TTL_SEC > now
      case Whole(data) => true
  }

  ghost predicate AllSpare(s: Ideal, room: nat, sents: map<int, Sent>, es: seq<Event>, u: int)
    requires InReach(s, room, sents, es)
    decreases |es|
  {
    es == [] ||
    (Spares(s, es[0], u) && AllSpare(IdealStep(s, room, sents, es[0]).0, room, sents, es[1..], u))
  }

  lemma {:induction false} Accumulates(s: Ideal, room: nat, sents: map<int, Sent>, es: seq<Event>, u: int)
    requires InReach(s, room, sents, es) && AllSpare(s, room, sents, es, u)
    requires u in sents && sents[u].Valid() && |sents[u].data| <= room
    requires !Complete(Got(s, u) + Arrived(es, u), sents[u].count)
    ensures Got(IdealRun(s, room, sents, es), u) == Got(s, u) + Arrived(es, u)
    decreases |es|
  {
    if es != [] {
      var t := IdealStep(s, room, sents, es[0]).0;
      var first := if es[0].Fragment? && es[0].u == u then {es[0].n} else {};
      assert Got(s, u) + Arrived(es, u) == Got(s, u) + first + Arrived(es[1..], u);
      var missing: nat :| missing < sents[u].count && missing !in Got(s, u) + Arrived(es, u);
      assert missing !in Got(s, u) + first;
      if es[0].Fragment? {
        LastEnd(sents[es[0].u], es[0].n);
        assert Got(MoveTo(s, es[0].u), u) == Got(s, u);
      }
      assert Got(t, u) == Got(s, u) + first;
      assert Got(s, u) + Arrived(es, u) == Got(t, u) + Arrived(es[1..], u);
      Accumulates(t, room, sents, es[1..], u);
    }
  }

  /**
   * After any run that leaves datagram u alone and has not yet brought all of it, the next fragment
   * of u makes the window deliver u if and only if it was the last one missing.
   */
  lemma DeliveredWhenComplete(w: Window, s: Ideal, sents: map<int, Sent>, room: nat, es: seq<Event>, last: Event)
    requires Matches(w, s, sents, room) && InReach(s, room, sents, es + [last]) && AllLegal(sents, es + [last])
    requires last.Fragment? && InReach(s, room, sents, es) && AllSpare(s, room, sents, es, last.u)
    requires last.u in sents && sents[last.u].Valid() && |sents[last.u].data| <= room
    requires Spares(IdealRun(s, room, sents, es), last, last.u)
    requires !Complete(Got(s, last.u) + Arrived(es, last.u), sents[last.u].count)
    ensures |Outputs(w, room, sents, es + [last])| == |es| + 1
    ensures Outputs(w, room, sents, es + [last])[|es|] ==
      if Complete(Got(s, last.u) + Arrived(es, last.u) + {last.n}, sents[last.u].count)
      then sents[last.u].data else []
  {
    RunRefines(w, s, sents, room, es + [last]);
    Accumulates(s, room, sents, es, last.u);
    LastOutput(s, room, sents, es, last);
    var t := IdealRun(s, room, sents, es);
    LastEnd(sents[last.u], last.n);
    assert Got(MoveTo(t, last.u), last.u) == Got(t, last.u);
  }

  lemma {:induction false} LastOutput(s: Ideal, room: nat, sents: map<int, Sent>, es: seq<Event>, last: Event)
    requires InReach(s, room, sents, es + [last]) && InReach(s, room, sents, es)
    ensures Legal(sents, last)
    ensures |IdealOutputs(s, room, sents, es + [last])| == |es| + 1
    ensures IdealOutputs(s, room, sents, es + [last])[|es|]
         == IdealStep(IdealRun(s, room, sents, es), room, sents, last).1
    decreases |es|
  {
    if es == [] {
      assert es + [last] == [last];
    } else {
      assert (es + [last])[1..] == es[1..] + [last];
      LastOutput(IdealStep(s, room, sents, es[0]).0, room, sents, es[1..], last);
    }
  }

  // ----- out of reach the wrong datagram may be delivered -----

  /** Eight equal bytes, cut in two. */
  function Eight(b: Byte): (s: Sent)
    ensures s.Valid() && s.count == 2 && s.Slice(0) == [b, b, b, b] == s.Slice(1)
  {
    Sent([b, b, b, b, b, b, b, b], 4, 2)
  }

  const MIXED: seq<Byte> := [0, 0, 0, 0, 1, 1, 1, 1]

  /** The slot holds the first half of eight bytes b, and nothing else. */
  ghost predicate HalfOf(slot: Slot, b: Byte) {
    && slot.defined && slot.maxFragSize == 4 && slot.len == 4 && |slot.mem| >= 8 && slot.mem[..4] == [b, b, b, b]
    && slot.received == Mark(Word(false), 0, false)
  }

  /** A first half is kept; a second half completes whatever half is there. */
  lemma Halves(slot: Slot, b: Byte, now: int)
    requires slot.len <= |slot.mem| && |slot.received| == MAX_FRAGS && |slot.mem| >= 8
    ensures !slot.defined ==>
      var (s, out) := PutFragment(slot, 0, false, 4, Eight(b).Slice(0), now);
      HalfOf(s, b) && out == []
    ensures forall a: Byte :: HalfOf(slot, a) ==>
      PutFragment(slot, 1, true, 4, Eight(b).Slice(1), now).1 == [a, a, a, a, b, b, b, b]
  {
    if !slot.defined {
      var s := PutFragment(slot, 0, false, 4, Eight(b).Slice(0), now).0;
      assert s.received[1] == false;
    }
    forall a: Byte | HalfOf(slot, a)
      ensures PutFragment(slot, 1, true, 4, Eight(b).Slice(1), now).1 == [a, a, a, a, b, b, b, b]
    {
      assert Mark(slot.received, 1, true) == Word(true);
      var mem := slot.mem[..4] + [b, b, b, b] + slot.mem[8..];
      assert mem[..8] == [a, a, a, a, b, b, b, b];
    }
  }

  /** A window that has only moved forward from 0 so far gives sequence id q the slot q. */
  lemma Lands(w: Window, room: nat, p: nat, q: nat)
    requires w.Valid(room) && w.seqId == w.index == p < N_FRAG_BUF && q < N_FRAG_BUF
    ensures
      var (v, i) := GetBuf(w, room, q);
      && v.seqId == v.index == Max(p, q) && i == q && (forall j :: p < j <= q ==> !v.slots[j].defined)
      && (forall j :: 0 <= j <= p ==> v.slots[j] == w.slots[j])
  {
  }

  /** One fragment of eight bytes in its slot. */
  lemma HalfArrives(w: Window, room: nat, sents: map<int, Sent>, u: int, b: Byte, n: nat, p: nat, q: nat)
    requires w.Valid(room) && room >= 8 && n < 2 && u in sents && sents[u] == Eight(b)
    requires w.seqId == w.index == p < N_FRAG_BUF && u % N_SEQ_ID == q < N_FRAG_BUF
    ensures
      var (x, out) := Step(w, room, sents, Fragment(u, n, 0));
      && x.seqId == x.index == Max(p, q)
      && (forall j :: 0 <= j <= p && j != q ==> x.slots[j] == w.slots[j])
      && (forall j :: p < j < q ==> !x.slots[j].defined)
      && (n == 0 && (q > p || !w.slots[q].defined) ==> HalfOf(x.slots[q], b))
      && (forall a: Byte :: n == 1 && q <= p && HalfOf(w.slots[q], a) ==> out == [a, a, a, a, b, b, b, b])
  {
    hide GetBuf, PutFragment, HalfOf, Eight, Incoming;
    IncomingIs(w, room, Eight(b), q, n, 0);
    Lands(w, room, p, q);
    Halves(GetBuf(w, room, q).0.slots[q], b, 0);
  }

  /** Three fragments: the last one is a second half and finds the first half of something else in its slot. */
  lemma MixedOutput(w: Window, room: nat, sents: map<int, Sent>, es: seq<Event>, q0: nat, q1: nat, q2: nat)
    requires Empty(w, room) && room >= 8
    requires |es| == 3 && Legal(sents, es[0]) && Legal(sents, es[1]) && Legal(sents, es[2])
    requires es[0].Fragment? && es[0].n == 0 && es[0].now == 0 && es[0].u % N_SEQ_ID == q0 < N_FRAG_BUF
    requires es[1].Fragment? && es[1].n == 0 && es[1].now == 0 && es[1].u % N_SEQ_ID == q1 < N_FRAG_BUF
    requires es[2].Fragment? && es[2].n == 1 && es[2].now == 0 && es[2].u % N_SEQ_ID == q2 < N_FRAG_BUF
    requires es[2].u in sents && sents[es[2].u] == Eight(1) && es[0].u in sents && es[1].u in sents
    requires if q1 < q0 then q2 == q1 && sents[es[0].u] == Eight(2) && sents[es[1].u] == Eight(0)
             else q2 == q0 < q1 && sents[es[0].u] == Eight(0) && sents[es[1].u] == Eight(2)
    ensures AllLegal(sents, es) && |Outputs(w, room, sents, es)| == 3 && Outputs(w, room, sents, es)[2] == MIXED
  {
    hide Step, HalfOf, Eight, Outputs;
    ThreeOutputs(w, room, sents, es);
    var b0: Byte := if q1 < q0 then 2 else 0;
    HalfArrives(w, room, sents, es[0].u, b0, 0, 0, q0);
    var w1 := Step(w, room, sents, es[0]).0;
    HalfArrives(w1, room, sents, es[1].u, 2 - b0, 0, q0, q1);
    var w2 := Step(w1, room, sents, es[1]).0;
    HalfArrives(w2, room, sents, es[2].u, 1, 1, Max(q0, q1), q2);
  }

  /**
   * Ahead: after two fragments within reach, the third comes a distance d past the 231, and what comes
   * out is half of one datagram and half of another.
   */
  lemma MixesAhead(w: Window, room: nat, d: int) returns (sents: map<int, Sent>, es: seq<Event>)
    requires Empty(w, room) && room >= 8 && REACH < d < N_SEQ_ID
    ensures |es| == 3 && AllLegal(sents, es) && InReach(Ideal(0, map[]), room, sents, es[..2])
    ensures es[2].Fragment? && es[2].u - IdealRun(Ideal(0, map[]), room, sents, es[..2]).top == d
    ensures |Outputs(w, room, sents, es)| == 3 && Outputs(w, room, sents, es)[2] == MIXED
    ensures forall u :: u in sents ==> sents[u].data != MIXED
  {
    EightBytes();
    hide Step, IdealStep, HalfOf, Eight, InReach, IdealRun, Outputs;
    var top, x := N_FRAG_BUF - 1, d - REACH - 1;
    sents := map[top := Eight(2), x := Eight(0), x + N_SEQ_ID := Eight(1)];
    es := [Fragment(top, 0, 0), Fragment(x, 0, 0), Fragment(x + N_SEQ_ID, 1, 0)];
    Turns(x);
    MixedOutput(w, room, sents, es, top, x, x);
    TwoInReach(room, sents, es);
  }

  /** Behind: the second fragment comes a distance d behind, and the third, within reach, is mixed up. */
  lemma MixesBehind(w: Window, room: nat, d: int) returns (sents: map<int, Sent>, es: seq<Event>)
    requires Empty(w, room) && room >= 8 && REACH < d < N_SEQ_ID
    ensures |es| == 3 && AllLegal(sents, es) && InReach(Ideal(0, map[]), room, sents, es[..1])
    ensures es[1].Fragment? && IdealRun(Ideal(0, map[]), room, sents, es[..1]).top - es[1].u == d
    ensures es[2].Fragment? && Abs(es[2].u - es[1].u) <= REACH
    ensures |Outputs(w, room, sents, es)| == 3 && Outputs(w, room, sents, es)[2] == MIXED
    ensures forall u :: u in sents ==> sents[u].data != MIXED
  {
    EightBytes();
    hide Step, IdealStep, HalfOf, Eight, InReach, IdealRun, Outputs;
    sents := map[0 := Eight(0), -d := Eight(2), -N_SEQ_ID := Eight(1)];
    es := [Fragment(0, 0, 0), Fragment(-d, 0, 0), Fragment(-N_SEQ_ID, 1, 0)];
    Turns(-d);
    MixedOutput(w, room, sents, es, 0, N_SEQ_ID - d, 0);
    OneInReach(room, sents, es);
  }

  lemma EightBytes()
    ensures forall b: Byte :: Eight(b).data != MIXED && |Eight(b).data| == 8
  {
    assert MIXED[0] != MIXED[4];
    forall b: Byte ensures Eight(b).data != MIXED {
      assert Eight(b).data[0] == Eight(b).data[4];
    }
  }

  lemma ThreeOutputs(w: Window, room: nat, sents: map<int, Sent>, es: seq<Event>)
    requires w.Valid(room) && |es| == 3 && Legal(sents, es[0]) && Legal(sents, es[1]) && Legal(sents, es[2])
    ensures AllLegal(sents, es) && |Outputs(w, room, sents, es)| == 3
    ensures
      var w1 := Step(w, room, sents, es[0]).0;
      var w2 := Step(w1, room, sents, es[1]).0;
      Outputs(w, room, sents, es)[2] == Step(w2, room, sents, es[2]).1
  {
    hide Step;
    var w1 := Step(w, room, sents, es[0]).0;
    var w2 := Step(w1, room, sents, es[1]).0;
    assert es[1..][1..] == [es[2]] && [es[2]][1..] == [];
    assert Outputs(w2, room, sents, [es[2]]) == [Step(w2, room, sents, es[2]).1] + [];
  }

  lemma OneInReach(room: nat, sents: map<int, Sent>, es: seq<Event>)
    requires es != [] && Legal(sents, es[0]) && es[0].Fragment? && 0 <= es[0].u < N_FRAG_BUF
    ensures InReach(Ideal(0, map[]), room, sents, es[..1])
    ensures IdealRun(Ideal(0, map[]), room, sents, es[..1]).top == es[0].u
  {
    ArriveTop(Ideal(0, map[]), es[0].u, sents[es[0].u], es[0].n, es[0].now, room);
    assert es[..1][1..] == [];
  }

  lemma ArriveTop(s: Ideal, u: int, sent: Sent, n: nat, now: int, room: nat)
    requires sent.Valid() && n < sent.count && Abs(u - s.top) < N_FRAG_BUF
    ensures Arrive(s, u, sent, n, now, room).0.top == Max(u, s.top)
  {
  }

  lemma TwoInReach(room: nat, sents: map<int, Sent>, es: seq<Event>)
    requires |es| >= 2 && Legal(sents, es[0]) && es[0].Fragment? && Legal(sents, es[1]) && es[1].Fragment?
    requires 0 <= es[1].u <= es[0].u < N_FRAG_BUF
    ensures InReach(Ideal(0, map[]), room, sents, es[..2])
    ensures IdealRun(Ideal(0, map[]), room, sents, es[..2]).top == es[0].u
  {
    hide Arrive;
    ArriveTop(Ideal(0, map[]), es[0].u, sents[es[0].u], es[0].n, es[0].now, room);
    var s := IdealStep(Ideal(0, map[]), room, sents, es[0]).0;
    ArriveTop(s, es[1].u, sents[es[1].u], es[1].n, es[1].now, room);
    assert es[..2][1..] == [es[1]] && [es[1]][1..] == [];
    assert InReach(IdealStep(s, room, sents, es[1]).0, room, sents, []);
    assert InReach(s, room, sents, [es[1]]);
    assert IdealRun(s, room, sents, [es[1]]).top == es[0].u;
  }
}
