/**
 * Sender and receiver of datagrams together: what fragment_outgoing and fragment_ready_to_send put on
 * the wire, lost, repeated and reordered, and what fragment_incoming makes of it.
 */
module Delivery {
  import opened Bytes
  import opened Integers
  import opened Fragments
  import opened Reassembly
  import opened Sending
  import opened Sequences

  // ----- a datagram that needs no fragmenting -----

  /** It leaves the sender as it was, and the receiver hands it on at once whatever the state of its window. */
  lemma WholeIsHandedOn(o: Out, buf: seq<Byte>, payloadSize: int, w: Window, room: nat, now: int)
    requires o.Valid() && 4 <= payloadSize && 0 < |buf| <= payloadSize && w.Valid(room)
    ensures
      var (p, packet) := FragmentOutgoing(o, buf, payloadSize);
      p == o && |packet| == |buf| + 4 && Incoming(w, room, packet, now) == (w, buf)
  {
    var packet := FragmentOutgoing(o, buf, payloadSize).1;
    NetworkRoundTrip(0);
    assert packet[..4] == ToNetwork(0) && packet[4..] == buf;
  }

  // ----- packets that no sender makes -----

  /** Without a whole header, of an unknown type, or whole with a number in its header: dropped without a trace. */
  lemma StrangeIsDropped(w: Window, room: nat, packet: seq<Byte>, now: int)
    requires w.Valid(room)
    ensures |packet| < 4 ==> Incoming(w, room, packet, now) == (w, [])
    ensures |packet| >= 4 ==>
      var h := FromNetwork(packet[..4]);
      h % 4 == 3 || (h % 4 == 0 && h % 256 != 0) ==> Incoming(w, room, packet, now) == (w, [])
  {
  }

  /**
   * A fragment of an odd size, or one that goes beyond the buffer, is not put together with others: no slot has
   * a fragment more than before, and nothing is handed on.
   */
  lemma UnfitIsDropped(w: Window, room: nat, packet: seq<Byte>, now: int)
    requires w.Valid(room) && |packet| >= 4
    requires
      var h, len := FromNetwork(packet[..4]), |packet| - 4;
      var size := if h % 4 == FRAG_YES_LAST then HeaderSize(h) else len;
      && (h % 4 == FRAG_YES_NOTLAST || h % 4 == FRAG_YES_LAST)
      && (size % 4 != 0 || HeaderFragId(h) * size + len > room)
    ensures
      var (v, out) := Incoming(w, room, packet, now);
      && out == []
      && forall j :: 0 <= j < N_FRAG_BUF ==>
           || v.slots[j] == w.slots[j] || v.slots[j] == Undefine(w.slots[j])
           || v.slots[j].received == Word(false)
  {
  }

  /** A fragment of another size than those before it makes its slot begin again with this fragment alone. */
  lemma OtherSizeRestarts(w: Window, room: nat, packet: seq<Byte>, now: int)
    requires w.Valid(room) && |packet| >= 4
    requires
      var h, len := FromNetwork(packet[..4]), |packet| - 4;
      var size := if h % 4 == FRAG_YES_LAST then HeaderSize(h) else len;
      var (v, i) := GetBuf(w, room, HeaderSeqId(h));
      && (h % 4 == FRAG_YES_NOTLAST || h % 4 == FRAG_YES_LAST)
      && size % 4 == 0 && HeaderFragId(h) * size + len <= room
      && v.slots[i].defined && v.slots[i].maxFragSize != size
    ensures
      var h := FromNetwork(packet[..4]);
      var i := GetBuf(w, room, HeaderSeqId(h)).1;
      var s := Incoming(w, room, packet, now).0.slots[i];
      forall j :: 0 <= j < MAX_FRAGS ==>
        (s.received[j] <==> if h % 4 == FRAG_YES_LAST then j >= HeaderFragId(h) else j == HeaderFragId(h))
  {
    hide GetBuf, HeaderSeqId, HeaderSize, FromNetwork;
  }

  // ----- the packets of one datagram -----

  /** The datagram is cut, as it is too long for one packet and not too long for 32. */
  predicate Cut(buf: seq<Byte>, payloadSize: int)
    requires payloadSize >= 4
  {
    |buf| > payloadSize && |buf| <= OptimalFragmentSize(|buf|, payloadSize) * MAX_FRAGS
  }

  predicate Whole(buf: seq<Byte>, payloadSize: int) {
    0 < |buf| <= payloadSize
  }

  /** How many fragments of a size a length makes. */
  function Pieces(len: nat, size: nat): nat
    requires size > 0
  {
    if len == 0 then 0
    else
      DivMod(len - 1, size);
      (len - 1) / size + 1
  }

  function SentOf(buf: seq<Byte>, payloadSize: int): Sent
    requires payloadSize >= 4
  {
    var size := OptimalFragmentSize(|buf|, payloadSize);
    Sent(buf, size, Pieces(|buf|, size))
  }

  lemma CountIs(len: nat, size: nat, count: nat)
    requires 0 < len && 0 < count && (count - 1) * size < len <= count * size
    ensures size > 0 && Pieces(len, size) == count
  {
    var r := len - 1 - (count - 1) * size;
    assert count * size == (count - 1) * size + size;
    Quotient(count - 1, size, r);
  }

  lemma Quotient(q: nat, d: nat, r: nat)
    requires r < d
    ensures (q * d + r) / d == q
  {
    var x := q * d + r;
    DivMod(x, d);
    if x / d < q {
      Ordered(x / d, q, d);
    } else if x / d > q {
      Ordered(q, x / d, d);
    }
  }

  /** The sender once it has nothing left. */
  function Drained(o: Out): (p: Out)
    requires o.Valid()
    ensures p.Valid() && p.buf == [] && p.seqId == o.seqId
    decreases |o.buf|
  {
    if o.buf == [] then o else Drained(ReadyToSend(o).0)
  }

  /** All the packets of one datagram, and the sender after them. */
  function Emit(o: Out, buf: seq<Byte>, payloadSize: int): (Out, seq<seq<Byte>>)
    requires o.Valid() && payloadSize >= 4
  {
    var (p, first) := FragmentOutgoing(o, buf, payloadSize);
    assert p.Valid() by { OutgoingValid(o, buf, payloadSize); }
    (Drained(p), (if first == [] then [] else [first]) + Drain(p))
  }

  lemma OutgoingValid(o: Out, buf: seq<Byte>, payloadSize: int)
    requires o.Valid() && payloadSize >= 4
    ensures FragmentOutgoing(o, buf, payloadSize).0.Valid()
  {
  }

  lemma EmitCut(o: Out, buf: seq<Byte>, payloadSize: int)
    requires o.Valid() && 4 <= payloadSize < MAX_FRAG_PKT_SIZE && Cut(buf, payloadSize)
    ensures
      var (p, packets) := Emit(o, buf, payloadSize);
      var s := SentOf(buf, payloadSize);
      && p.Valid() && p.buf == [] && p.seqId == ModuloAdd(o.seqId, 1, N_SEQ_ID)
      && s.Valid() && s.data == buf && packets == Packets(s, p.seqId, 0)
  {
    var s := OutgoingSendsAll(o, buf, payloadSize);
    CountIs(|buf|, s.fragSize, s.count);
    var (p, first) := FragmentOutgoing(o, buf, payloadSize);
    assert first == (Packets(s, p.seqId, 0))[0];
  }

  lemma EmitWhole(o: Out, buf: seq<Byte>, payloadSize: int)
    requires o.Valid() && o.buf == [] && payloadSize >= 4 && !Cut(buf, payloadSize)
    ensures
      var (p, packets) := Emit(o, buf, payloadSize);
      && p.Valid() && p.buf == [] && p.seqId == o.seqId
      && if Whole(buf, payloadSize) then packets == [FragmentOutgoing(o, buf, payloadSize).1] else packets == []
  {
  }

  // ----- the packets of many -----

  function EmitAll(o: Out, datagrams: seq<seq<Byte>>, payloadSize: int): (r: seq<seq<seq<Byte>>>)
    requires o.Valid() && payloadSize >= 4
    ensures |r| == |datagrams|
    decreases |datagrams|
  {
    if datagrams == [] then []
    else
      var (p, packets) := Emit(o, datagrams[0], payloadSize);
      [packets] + EmitAll(p, datagrams[1..], payloadSize)
  }

  /** The number of datagram k, where last is the number of the one cut before all of them. */
  function NumberOf(datagrams: seq<seq<Byte>>, payloadSize: int, last: int, k: nat): (u: int)
    requires k < |datagrams| && payloadSize >= 4
    ensures Cut(datagrams[k], payloadSize) ==> u > last
    decreases k
  {
    var u := if Cut(datagrams[0], payloadSize) then last + 1 else last;
    if k == 0 then u else NumberOf(datagrams[1..], payloadSize, u, k - 1)
  }

  /** What was cut, by number. */
  function Sents(datagrams: seq<seq<Byte>>, payloadSize: int, last: int): (sents: map<int, Sent>)
    requires payloadSize >= 4
    ensures forall u :: u in sents ==> u > last
    decreases |datagrams|
  {
    if datagrams == [] then map[]
    else if Cut(datagrams[0], payloadSize) then
      Sents(datagrams[1..], payloadSize, last + 1)[last + 1 := SentOf(datagrams[0], payloadSize)]
    else Sents(datagrams[1..], payloadSize, last)
  }

  lemma {:induction false} SentsAt(datagrams: seq<seq<Byte>>, payloadSize: int, last: int, k: nat)
    requires k < |datagrams| && payloadSize >= 4 && Cut(datagrams[k], payloadSize)
    ensures
      var sents, u := Sents(datagrams, payloadSize, last), NumberOf(datagrams, payloadSize, last, k);
      u in sents && sents[u] == SentOf(datagrams[k], payloadSize)
    decreases k
  {
    if k > 0 {
      SentsAt(datagrams[1..], payloadSize, if Cut(datagrams[0], payloadSize) then last + 1 else last, k - 1);
    }
  }

  lemma NextNumber(last: int, seqId: int)
    requires 0 <= seqId < N_SEQ_ID && last % N_SEQ_ID == seqId
    ensures (last + 1) % N_SEQ_ID == ModuloAdd(seqId, 1, N_SEQ_ID)
  {
  }

  /** The packets of datagram k are those of its number, modulo 256. */
  lemma {:induction false} EmitAllAt(o: Out, datagrams: seq<seq<Byte>>, payloadSize: int, last: int, k: nat)
    requires o.Valid() && o.buf == [] && 4 <= payloadSize < MAX_FRAG_PKT_SIZE
    requires k < |datagrams| && last % N_SEQ_ID == o.seqId
    ensures
      var packets, d := EmitAll(o, datagrams, payloadSize)[k], datagrams[k];
      if Cut(d, payloadSize) then
        && SentOf(d, payloadSize).Valid()
        && packets == Packets(SentOf(d, payloadSize), NumberOf(datagrams, payloadSize, last, k) % N_SEQ_ID, 0)
      else if Whole(d, payloadSize) then
        |packets| == 1 && forall w: Window, room, now :: w.Valid(room) ==> Incoming(w, room, packets[0], now) == (w, d)
      else packets == []
    decreases k
  {
    hide Emit, Packets, SentOf, FragmentOutgoing, Incoming, Cut;
    var d := datagrams[0];
    var (p, packets) := Emit(o, d, payloadSize);
    if Cut(d, payloadSize) {
      EmitCut(o, d, payloadSize);
      NextNumber(last, o.seqId);
    } else {
      EmitWhole(o, d, payloadSize);
    }
    if k > 0 {
      EmitAllAt(p, datagrams[1..], payloadSize, if Cut(d, payloadSize) then last + 1 else last, k - 1);
    } else if !Cut(d, payloadSize) && Whole(d, payloadSize) {
      forall w: Window, room, now | w.Valid(room) ensures Incoming(w, room, packets[0], now) == (w, d) {
        WholeIsHandedOn(o, d, payloadSize, w, room, now);
      }
    }
  }

  // ----- the receiver at the other end -----

  /** Packet j of datagram k arrives, for the first time or again, or the timer goes off. */
  datatype Arrival = Packet(k: nat, j: nat, now: int) | Timer(now: int)

  ghost predicate Sane(sent: seq<seq<seq<Byte>>>, a: Arrival) {
    a.Packet? ==> a.k < |sent| && a.j < |sent[a.k]|
  }

  ghost predicate AllSane(sent: seq<seq<seq<Byte>>>, arrivals: seq<Arrival>) {
    forall i :: 0 <= i < |arrivals| ==> Sane(sent, arrivals[i])
  }

  /** The packet goes to fragment_incoming; the timer reaps. */
  function Handle(w: Window, room: nat, sent: seq<seq<seq<Byte>>>, a: Arrival): (r: (Window, seq<Byte>))
    requires w.Valid(room) && Sane(sent, a)
    ensures r.0.Valid(room)
  {
    match a
    case Packet(k, j, now) => Incoming(w, room, sent[k][j], now)
    case Timer(now) => (TtlReap(w, now), [])
  }

  /** What the receiver hands on at each arrival. */
  function Receive(w: Window, room: nat, sent: seq<seq<seq<Byte>>>, arrivals: seq<Arrival>): (r: seq<seq<Byte>>)
    requires w.Valid(room) && AllSane(sent, arrivals)
    ensures |r| == |arrivals|
    decreases |arrivals|
  {
    if arrivals == [] then []
    else
      assert Sane(sent, arrivals[0]);
      var (v, out) := Handle(w, room, sent, arrivals[0]);
      [out] + Receive(v, room, sent, arrivals[1..])
  }

  /** The arrival as an event of the receiver that knows the numbers. */
  function EventOf(datagrams: seq<seq<Byte>>, payloadSize: int, last: int, a: Arrival): Event
    requires payloadSize >= 4 && (a.Packet? ==> a.k < |datagrams|)
  {
    match a
    case Timer(now) => Event.Reap(now)
    case Packet(k, j, now) =>
      if Cut(datagrams[k], payloadSize) then Event.Fragment(NumberOf(datagrams, payloadSize, last, k), j, now)
      else Event.Whole(datagrams[k])
  }

  function EventsOf(datagrams: seq<seq<Byte>>, payloadSize: int, last: int, arrivals: seq<Arrival>): (es: seq<Event>)
    requires payloadSize >= 4
    requires forall i :: 0 <= i < |arrivals| && arrivals[i].Packet? ==> arrivals[i].k < |datagrams|
    ensures |es| == |arrivals|
  {
    seq(|arrivals|, i requires 0 <= i < |arrivals| => EventOf(datagrams, payloadSize, last, arrivals[i]))
  }

  lemma PacketAt(o: Out, datagrams: seq<seq<Byte>>, payloadSize: int, last: int, k: nat, j: nat)
    requires o.Valid() && o.buf == [] && 4 <= payloadSize < MAX_FRAG_PKT_SIZE && last % N_SEQ_ID == o.seqId
    requires k < |datagrams| && j < |EmitAll(o, datagrams, payloadSize)[k]| && Cut(datagrams[k], payloadSize)
    ensures
      var sents, u := Sents(datagrams, payloadSize, last), NumberOf(datagrams, payloadSize, last, k);
      && u in sents && sents[u].Valid() && j < sents[u].count && sents[u].data == datagrams[k]
      && EmitAll(o, datagrams, payloadSize)[k][j] == sents[u].Packet(u % N_SEQ_ID, j)
  {
    EmitAllAt(o, datagrams, payloadSize, last, k);
    SentsAt(datagrams, payloadSize, last, k);
  }

  /** Each arrival is a legal event. */
  lemma ArrivalIsLegal(o: Out, datagrams: seq<seq<Byte>>, payloadSize: int, last: int, a: Arrival)
    requires o.Valid() && o.buf == [] && 4 <= payloadSize < MAX_FRAG_PKT_SIZE && last % N_SEQ_ID == o.seqId
    requires Sane(EmitAll(o, datagrams, payloadSize), a)
    ensures Legal(Sents(datagrams, payloadSize, last), EventOf(datagrams, payloadSize, last, a))
  {
    if a.Packet? && Cut(datagrams[a.k], payloadSize) {
      PacketAt(o, datagrams, payloadSize, last, a.k, a.j);
    }
  }

  lemma WholeStep(data: seq<Byte>, w: Window, room: nat, sents: map<int, Sent>)
    requires w.Valid(room)
    ensures Step(w, room, sents, Event.Whole(data)) == (w, data)
  {
    var packet := ToNetwork(Header(FRAG_WHOLE, 0, 0, 0)) + data;
    NetworkRoundTrip(0);
    assert packet[..4] == ToNetwork(0) && packet[4..] == data;
  }

  /** ... and does to the window what that event does. */
  lemma ArrivalIsStep(o: Out, datagrams: seq<seq<Byte>>, payloadSize: int, last: int, w: Window, room: nat, a: Arrival)
    requires o.Valid() && o.buf == [] && 4 <= payloadSize < MAX_FRAG_PKT_SIZE && last % N_SEQ_ID == o.seqId
    requires w.Valid(room) && Sane(EmitAll(o, datagrams, payloadSize), a)
    requires Legal(Sents(datagrams, payloadSize, last), EventOf(datagrams, payloadSize, last, a))
    ensures
      Step(w, room, Sents(datagrams, payloadSize, last), EventOf(datagrams, payloadSize, last, a))
      == Handle(w, room, EmitAll(o, datagrams, payloadSize), a)
  {
    hide EmitAll, NumberOf, Sents, Packets, Incoming, SentOf, Cut;
    if a.Packet? {
      EmitAllAt(o, datagrams, payloadSize, last, a.k);
      if Cut(datagrams[a.k], payloadSize) {
        PacketAt(o, datagrams, payloadSize, last, a.k, a.j);
      } else {
        WholeStep(datagrams[a.k], w, room, Sents(datagrams, payloadSize, last));
      }
    }
  }

  lemma {:induction false} ReceiveIsOutputs(o: Out, datagrams: seq<seq<Byte>>, payloadSize: int, last: int,
                                            w: Window, room: nat, arrivals: seq<Arrival>)
    requires o.Valid() && o.buf == [] && 4 <= payloadSize < MAX_FRAG_PKT_SIZE && last % N_SEQ_ID == o.seqId
    requires w.Valid(room) && AllSane(EmitAll(o, datagrams, payloadSize), arrivals)
    ensures
      var sents, es := Sents(datagrams, payloadSize, last), EventsOf(datagrams, payloadSize, last, arrivals);
      && AllLegal(sents, es)
      && Outputs(w, room, sents, es) == Receive(w, room, EmitAll(o, datagrams, payloadSize), arrivals)
    decreases |arrivals|
  {
    hide EmitAll, Sents, EventOf, Handle, Step, Legal;
    var sents, es := Sents(datagrams, payloadSize, last), EventsOf(datagrams, payloadSize, last, arrivals);
    if arrivals != [] {
      assert Sane(EmitAll(o, datagrams, payloadSize), arrivals[0]);
      ArrivalIsLegal(o, datagrams, payloadSize, last, arrivals[0]);
      ArrivalIsStep(o, datagrams, payloadSize, last, w, room, arrivals[0]);
      assert AllSane(EmitAll(o, datagrams, payloadSize), arrivals[1..]);
      assert es[1..] == EventsOf(datagrams, payloadSize, last, arrivals[1..]);
      ReceiveIsOutputs(o, datagrams, payloadSize, last, Step(w, room, sents, es[0]).0, room, arrivals[1..]);
      assert AllLegal(sents, es) by {
        forall e | e in es ensures Legal(sents, e) {
          assert e == es[0] || e in es[1..];
        }
      }
    }
  }

  /**
   * End to end: datagrams of any lengths go out, their packets are lost, repeated and reordered within
   * reach of the window, and whatever comes in at a packet is the datagram that the packet is of. One that
   * was not cut comes in with its packet, each time.
   */
  lemma EndToEnd(o: Out, datagrams: seq<seq<Byte>>, payloadSize: int, last: int,
                 w: Window, room: nat, top: int, arrivals: seq<Arrival>, i: nat)
    requires o.Valid() && o.buf == [] && 4 <= payloadSize < MAX_FRAG_PKT_SIZE && last % N_SEQ_ID == o.seqId
    requires Empty(w, room) && top % N_SEQ_ID == 0
    requires AllSane(EmitAll(o, datagrams, payloadSize), arrivals) && i < |arrivals|
    requires InReach(Ideal(top, map[]), room, Sents(datagrams, payloadSize, last),
                     EventsOf(datagrams, payloadSize, last, arrivals))
    ensures
      var out := Receive(w, room, EmitAll(o, datagrams, payloadSize), arrivals)[i];
      if arrivals[i].Timer? then out == []
      else
        && arrivals[i].k < |datagrams| && (out == [] || out == datagrams[arrivals[i].k])
        && (Whole(datagrams[arrivals[i].k], payloadSize) ==> out == datagrams[arrivals[i].k])
  {
    hide EmitAll, Sents, Step, InReach, Receive, Outputs;
    var sents, es := Sents(datagrams, payloadSize, last), EventsOf(datagrams, payloadSize, last, arrivals);
    ReceiveIsOutputs(o, datagrams, payloadSize, last, w, room, arrivals);
    Faithful(w, room, top, sents, es, i);
    OutputOf(w, room, top, sents, es, i);
    assert Sane(EmitAll(o, datagrams, payloadSize), arrivals[i]);
    if arrivals[i].Packet? && Cut(datagrams[arrivals[i].k], payloadSize) {
      PacketAt(o, datagrams, payloadSize, last, arrivals[i].k, arrivals[i].j);
    }
  }

  /** A timer hands nothing on, a whole datagram is handed on. */
  lemma OutputOf(w: Window, room: nat, top: int, sents: map<int, Sent>, es: seq<Event>, i: nat)
    requires Empty(w, room) && top % N_SEQ_ID == 0 && i < |es|
    requires InReach(Ideal(top, map[]), room, sents, es) && AllLegal(sents, es)
    ensures |Outputs(w, room, sents, es)| == |es|
    ensures es[i].Reap? ==> Outputs(w, room, sents, es)[i] == []
    ensures es[i].Whole? ==> Outputs(w, room, sents, es)[i] == es[i].data
  {
    RunRefines(w, Ideal(top, map[]), sents, room, es);
    IdealOutputOf(Ideal(top, map[]), room, sents, es, i);
  }

  lemma {:induction false} IdealOutputOf(s: Ideal, room: nat, sents: map<int, Sent>, es: seq<Event>, i: nat)
    requires InReach(s, room, sents, es) && i < |es|
    ensures |IdealOutputs(s, room, sents, es)| == |es|
    ensures es[i].Reap? ==> IdealOutputs(s, room, sents, es)[i] == []
    ensures es[i].Whole? ==> IdealOutputs(s, room, sents, es)[i] == es[i].data
    decreases |es|
  {
    IdealIsFaithful(s, room, sents, es, i);
    if i > 0 {
      IdealOutputOf(IdealStep(s, room, sents, es[0]).0, room, sents, es[1..], i - 1);
    }
  }

  // ----- nothing lost, nothing reordered -----

  /** What the receiver hands on while packets come in one after the other, and its window after them. */
  function Deliver(w: Window, room: nat, packets: seq<seq<Byte>>, now: int): (r: (Window, seq<seq<Byte>>))
    requires w.Valid(room)
    ensures r.0.Valid(room)
    decreases |packets|
  {
    if packets == [] then (w, [])
    else
      var (v, out) := Incoming(w, room, packets[0], now);
      var (x, more) := Deliver(v, room, packets[1..], now);
      (x, (if out == [] then [] else [out]) + more)
  }

  function DeliverAll(w: Window, room: nat, sent: seq<seq<seq<Byte>>>, now: int): seq<seq<Byte>>
    requires w.Valid(room)
    decreases |sent|
  {
    if sent == [] then []
    else
      var (v, out) := Deliver(w, room, sent[0], now);
      out + DeliverAll(v, room, sent[1..], now)
  }

  /** The datagrams that go out at all. */
  function Passable(datagrams: seq<seq<Byte>>, payloadSize: int): seq<seq<Byte>>
    requires payloadSize >= 4
  {
    if datagrams == [] then []
    else
      (if Whole(datagrams[0], payloadSize) || Cut(datagrams[0], payloadSize) then [datagrams[0]] else [])
      + Passable(datagrams[1..], payloadSize)
  }

  ghost function Below(n: nat): (r: set<nat>)
    ensures forall i: nat :: i in r <==> i < n
  {
    if n == 0 then {} else Below(n - 1) + {n - 1}
  }

  lemma BelowComplete(n: nat, count: nat)
    ensures Complete(Below(n), count) <==> count <= n
  {
    if n < count {
      assert n !in Below(n);
    }
  }

  /** The receiver is about to get packet n of datagram u, and has got those before it and nothing else. */
  ghost predicate Awaits(s: Ideal, u: int, n: nat) {
    if n == 0 then s.pending == map[] && Abs(u - s.top) <= REACH
    else s.pending.Keys == {u} && Got(s, u) == Below(n) && 0 <= s.top - u < N_FRAG_BUF
  }

  lemma ArriveInOrder(s: Ideal, u: int, sent: Sent, n: nat, now: int, room: nat)
    requires sent.Valid() && |sent.data| <= room && n < sent.count && Awaits(s, u, n)
    ensures
      var (t, out) := Arrive(s, u, sent, n, now, room);
      if n + 1 < sent.count then out == [] && Awaits(t, u, n + 1)
      else out == sent.data && Awaits(t, u + 1, 0)
    ensures Abs(u - s.top) <= REACH
  {
    LastEnd(sent, n);
    assert Got(MoveTo(s, u), u) + {n} == Below(n + 1);
    BelowComplete(n + 1, sent.count);
    hide Complete, Below;
  }

  lemma PacketsFirst(sent: Sent, seqId: nat, n: nat)
    requires sent.Valid() && n < sent.count
    ensures
      var packets := Packets(sent, seqId, n);
      && packets != [] && packets[0] == sent.Packet(seqId, n) && packets[1..] == Packets(sent, seqId, n + 1)
      && (n + 1 == sent.count ==> packets[1..] == [])
  {
    hide Sent.Packet, Sent.Valid;
  }

  /** The packets of datagram u from number n on, when those before it have come. */
  lemma {:induction false} TrainDelivers(w: Window, s: Ideal, sents: map<int, Sent>, room: nat,
                                         u: int, n: nat, now: int) returns (t: Ideal)
    requires Matches(w, s, sents, room) && u in sents && sents[u].Valid() && |sents[u].data| <= room
    requires n < sents[u].count && Awaits(s, u, n)
    ensures
      var (v, out) := Deliver(w, room, Packets(sents[u], u % N_SEQ_ID, n), now);
      out == [sents[u].data] && Matches(v, t, sents, room)
    ensures Awaits(t, u + 1, 0)
    decreases sents[u].count - n
  {
    assert w.Valid(room);
    hide Matches, Incoming, Sent.Packet, Sent.Slice, Arrive, Awaits, Packets;
    var sent, id := sents[u], u % N_SEQ_ID;
    ArriveInOrder(s, u, sent, n, now, room);
    ArriveRefines(w, s, sents, room, u, n, now);
    PacketsFirst(sent, id, n);
    var packets := Packets(sent, id, n);
    var v := Incoming(w, room, packets[0], now).0;
    t := Arrive(s, u, sent, n, now, room).0;
    if n + 1 < sent.count {
      t := TrainDelivers(v, t, sents, room, u, n + 1, now);
    }
  }

  /** One datagram, with the number of the last one cut and the receiver after it. */
  lemma OneDelivered(o: Out, d: seq<Byte>, payloadSize: int, last: int,
                     w: Window, s: Ideal, sents: map<int, Sent>, room: nat, now: int) returns (t: Ideal)
    requires o.Valid() && o.buf == [] && 4 <= payloadSize < MAX_FRAG_PKT_SIZE && last % N_SEQ_ID == o.seqId
    requires Matches(w, s, sents, room) && w.Valid(room) && Awaits(s, last + 1, 0) && |d| <= room
    requires Cut(d, payloadSize) ==> last + 1 in sents && sents[last + 1] == SentOf(d, payloadSize)
    ensures
      var (p, packets) := Emit(o, d, payloadSize);
      var (v, out) := Deliver(w, room, packets, now);
      var number := if Cut(d, payloadSize) then last + 1 else last;
      && out == (if Whole(d, payloadSize) || Cut(d, payloadSize) then [d] else [])
      && Matches(v, t, sents, room) && Awaits(t, number + 1, 0)
      && p.Valid() && p.buf == [] && p.seqId == number % N_SEQ_ID
  {
    hide Matches, Awaits, Emit, Packets, SentOf, FragmentOutgoing, Incoming, Cut;
    if Cut(d, payloadSize) {
      EmitCut(o, d, payloadSize);
      NextNumber(last, o.seqId);
      t := TrainDelivers(w, s, sents, room, last + 1, 0, now);
    } else {
      t := s;
      EmitWhole(o, d, payloadSize);
      if Whole(d, payloadSize) {
        WholeIsHandedOn(o, d, payloadSize, w, room, now);
      }
    }
  }

  lemma {:induction false} AllDelivered(o: Out, datagrams: seq<seq<Byte>>, payloadSize: int, last: int,
                                        w: Window, s: Ideal, sents: map<int, Sent>, room: nat, now: int)
    requires o.Valid() && o.buf == [] && 4 <= payloadSize < MAX_FRAG_PKT_SIZE && last % N_SEQ_ID == o.seqId
    requires Matches(w, s, sents, room) && w.Valid(room) && Awaits(s, last + 1, 0)
    requires forall u :: u in Sents(datagrams, payloadSize, last) ==>
      u in sents && sents[u] == Sents(datagrams, payloadSize, last)[u]
    requires forall i :: 0 <= i < |datagrams| ==> |datagrams[i]| <= room
    ensures DeliverAll(w, room, EmitAll(o, datagrams, payloadSize), now) == Passable(datagrams, payloadSize)
    decreases |datagrams|
  {
    hide Matches, Awaits, Emit, Deliver, SentOf, Cut, Whole;
    if datagrams != [] {
      var d := datagrams[0];
      var (p, packets) := Emit(o, d, payloadSize);
      var number := if Cut(d, payloadSize) then last + 1 else last;
      if Cut(d, payloadSize) {
        assert last + 1 in Sents(datagrams, payloadSize, last);
      }
      var t := OneDelivered(o, d, payloadSize, last, w, s, sents, room, now);
      AllDelivered(p, datagrams[1..], payloadSize, number, Deliver(w, room, packets, now).0, t, sents, room, now);
    }
  }

  /** Without loss and reordering every datagram that is not refused comes in, once, in order and unchanged. */
  lemma InOrder(o: Out, datagrams: seq<seq<Byte>>, payloadSize: int, w: Window, room: nat, now: int)
    requires o.Valid() && o.buf == [] && 4 <= payloadSize < MAX_FRAG_PKT_SIZE && Empty(w, room)
    requires forall i :: 0 <= i < |datagrams| ==> |datagrams[i]| <= room
    ensures DeliverAll(w, room, EmitAll(o, datagrams, payloadSize), now) == Passable(datagrams, payloadSize)
  {
    var last := if o.seqId >= N_SEQ_ID / 2 then o.seqId - N_SEQ_ID else o.seqId;
    AllDelivered(o, datagrams, payloadSize, last, w, Ideal(0, map[]), Sents(datagrams, payloadSize, last), room, now);
  }
}
