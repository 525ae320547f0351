/**
 * Datagram fragmentation (fragment.c). Out is the sending half of struct fragment_master, Window
 * the receiving half: 25 slots, one for each of the latest 8-bit sequence ids.
 */
module Fragments {
  import opened Integers
  import opened Bytes

  const N_FRAG_BUF := 25
  const FRAG_TTL_SEC := 10
  const MAX_FRAGS := 32
  const N_SEQ_ID := 256
  const MAX_FRAG_PKT_SIZE := 65536

  const FRAG_WHOLE := 0
  const FRAG_YES_NOTLAST := 1
  const FRAG_YES_LAST := 2

  // ----- the header word: 2 bits type, 8 bits sequence id, 5 bits fragment id, 14 bits size / 4 -----

  function Header(kind: nat, seqId: nat, fragId: nat, fragSize: nat): Word32 {
    var sizeField := if kind == FRAG_WHOLE || kind == FRAG_YES_NOTLAST then 0 else fragSize / 4 % 16384;
    kind % 4 + 4 * (seqId % 256 + 256 * (fragId % 32 + 32 * sizeField))
  }

  function HeaderKind(h: Word32): nat { h % 4 }

  function HeaderSeqId(h: Word32): nat { h / 4 % 256 }

  function HeaderFragId(h: Word32): nat { h / 4 / 256 % 32 }

  function HeaderSize(h: Word32): nat { h / 4 / 256 / 32 % 16384 * 4 }

  /** The receiver reads back every field the sender packed. */
  lemma HeaderRoundTrip(kind: nat, seqId: nat, fragId: nat, fragSize: nat)
    requires kind < 4 && seqId < N_SEQ_ID && fragId < MAX_FRAGS
    requires fragSize < MAX_FRAG_PKT_SIZE && fragSize % 4 == 0
    ensures
      var h := Header(kind, seqId, fragId, fragSize);
      && HeaderKind(h) == kind && HeaderSeqId(h) == seqId && HeaderFragId(h) == fragId
      && (kind >= FRAG_YES_LAST ==> HeaderSize(h) == fragSize)
  {
    var sizeField := if kind == FRAG_WHOLE || kind == FRAG_YES_NOTLAST then 0 else fragSize / 4;
    var upper := fragId + 32 * sizeField;
    HeaderIs(kind, seqId, fragId, fragSize, sizeField);
    hide Header;
    Field(kind, 4, seqId + 256 * upper);
    Field(seqId, 256, upper);
    Field(fragId, 32, sizeField);
  }

  lemma HeaderIs(kind: nat, seqId: nat, fragId: nat, fragSize: nat, sizeField: nat)
    requires kind < 4 && seqId < N_SEQ_ID && fragId < MAX_FRAGS && fragSize < MAX_FRAG_PKT_SIZE
    requires sizeField == if kind == FRAG_WHOLE || kind == FRAG_YES_NOTLAST then 0 else fragSize / 4
    ensures Header(kind, seqId, fragId, fragSize) == kind + 4 * (seqId + 256 * (fragId + 32 * sizeField))
  {
  }

  lemma Field(low: nat, size: nat, high: nat)
    requires low < size && (size == 4 || size == 256 || size == 32)
    ensures (low + size * high) % size == low && (low + size * high) / size == high
  {
  }

  // ----- sending -----

  lemma QuotientBound(x: int, d: int)
    requires 0 <= x && 2 <= d
    ensures 0 <= x / d && 2 * (x / d) <= x && x / d * d <= x
  {
    assert x / d * d >= x / d * 2;
  }

  /** The smaller size for div full fragments and a rest of mod bytes. */
  function EvenSize(aligned: int, maxFragSize: int, div: int, mod: int): (r: int)
    requires 4 <= aligned <= maxFragSize < aligned + 4 && aligned % 4 == 0
    requires 0 < div && 0 < mod < aligned
    ensures 0 < r <= aligned && r % 4 == 0
  {
    QuotientBound(maxFragSize - mod, div + 1);
    var up := maxFragSize - (maxFragSize - mod) / (div + 1) + 3;
    Min(aligned, up - up % 4)
  }

  function OptimalFragmentSize(len: int, maxFragSize: int): (r: int)
    requires len >= 0 && maxFragSize >= 4
    ensures 0 < r <= maxFragSize && r % 4 == 0
  {
    var aligned := maxFragSize - maxFragSize % 4;
    var div, mod := len / aligned, len % aligned;
    if div > 0 && mod > 0 && mod < aligned * 3 / 4 then EvenSize(aligned, maxFragSize, div, mod) else aligned
  }

  datatype Out = Out(buf: seq<Byte>, seqId: int, fragId: nat, fragSize: int) {
    predicate Valid() {
      0 <= seqId < N_SEQ_ID && (buf != [] ==> fragSize > 0)
    }
  }

  /** fragment_ready_to_send; the packet is empty when there is nothing to send. */
  function ReadyToSend(o: Out): (Out, seq<Byte>)
    requires o.Valid()
  {
    if o.buf == [] then (o, [])
    else
      var last := |o.buf| <= o.fragSize;
      var size := if last then |o.buf| else o.fragSize;
      var kind := if last then FRAG_YES_LAST else FRAG_YES_NOTLAST;
      (o.(buf := o.buf[size..], fragId := o.fragId + 1),
       ToNetwork(Header(kind, o.seqId, o.fragId, o.fragSize)) + o.buf[..size])
  }

  function FragmentOutgoing(o: Out, buf: seq<Byte>, payloadSize: int): (Out, seq<Byte>)
    requires o.Valid() && payloadSize >= 4
  {
    if buf == [] then (o, [])
    else if |buf| > payloadSize then
      var size := OptimalFragmentSize(|buf|, payloadSize);
      if |buf| > size * MAX_FRAGS then (o.(fragSize := size), [])
      else ReadyToSend(Out(buf, ModuloAdd(o.seqId, 1, N_SEQ_ID), 0, size))
    else (o, ToNetwork(Header(FRAG_WHOLE, 0, 0, 0)) + buf)
  }

  // ----- receiving -----

  /** One datagram under assembly; received is the 32-bit map of the fragments received, bit by bit. */
  datatype Slot = Slot(defined: bool, maxFragSize: int, received: seq<bool>, timestamp: int, mem: seq<Byte>, len: nat)

  datatype Window = Window(seqId: int, index: int, slots: seq<Slot>) {
    predicate Valid(room: nat) {
      && 0 <= seqId < N_SEQ_ID && 0 <= index < N_FRAG_BUF && |slots| == N_FRAG_BUF
      && forall j :: 0 <= j < N_FRAG_BUF ==>
           |slots[j].mem| == room && slots[j].len <= room && |slots[j].received| == MAX_FRAGS
    }
  }

  /** A word of 32 equal bits. */
  function Word(bit: bool): (r: seq<bool>)
    ensures |r| == MAX_FRAGS && forall i :: 0 <= i < MAX_FRAGS ==> r[i] == bit
  {
    seq(MAX_FRAGS, _ => bit)
  }

  /** The bits after fragment n: the last fragment also sets every bit above its own. */
  function Mark(bits: seq<bool>, n: nat, last: bool): (r: seq<bool>)
    ensures |r| == |bits|
  {
    seq(|bits|, i requires 0 <= i < |bits| => bits[i] || (if last then i >= n else i == n))
  }

  function Undefine(s: Slot): Slot { s.(defined := false) }

  /** How many steps round the ring lead from index to j, counting a full turn as 25. */
  function Ahead(j: int, index: int): int {
    if j > index then j - index else j - index + N_FRAG_BUF
  }

  /** The slots after count steps of the window: the ones stepped onto are cleared. */
  function Advance(slots: seq<Slot>, index: int, count: int): (r: seq<Slot>)
    ensures |r| == |slots|
  {
    seq(|slots|, j requires 0 <= j < |slots| => if Ahead(j, index) <= count then Undefine(slots[j]) else slots[j])
  }

  /** fragment_list_get_buf: the window after it has made room for seqId, and the slot of seqId. */
  function GetBuf(w: Window, room: nat, seqId: int): (r: (Window, int))
    requires w.Valid(room) && 0 <= seqId < N_SEQ_ID
    ensures r.0.Valid(room) && 0 <= r.1 < N_FRAG_BUF
  {
    var diff := ModuloSubtract(seqId, w.seqId, N_SEQ_ID);
    if Abs(diff) >= N_FRAG_BUF then
      (Window(seqId, 0, Advance(w.slots, 0, N_FRAG_BUF)), 0)
    else if diff > 0 then
      var index := ModuloAdd(w.index, diff, N_FRAG_BUF);
      (Window(seqId, index, Advance(w.slots, w.index, diff)), index)
    else (w, ModuloAdd(w.index, diff, N_FRAG_BUF))
  }

  /** A fragment put into its slot, and the datagram it completes or nothing. */
  function PutFragment(slot: Slot, n: nat, last: bool, size: nat, payload: seq<Byte>, now: int): (r: (Slot, seq<Byte>))
    requires slot.len <= |slot.mem| && |slot.received| == MAX_FRAGS
    ensures |r.0.mem| == |slot.mem| && r.0.len <= |slot.mem| && |r.0.received| == MAX_FRAGS
  {
    var s := if !slot.defined || slot.maxFragSize != size
      then slot.(defined := true, maxFragSize := size, received := Word(false), len := 0) else slot;
    var end := n * size + |payload|;
    if end > |s.mem| then (s, [])
    else
      var mem := s.mem[..n * size] + payload + s.mem[end..];
      var len := Max(s.len, end);
      var received := Mark(s.received, n, last);
      var done := received == Word(true);
      (s.(defined := !done, received := received, timestamp := now, mem := mem, len := len),
       if done then mem[..len] else [])
  }

  /** fragment_incoming; an empty result means that the packet is not passed on. */
  function Incoming(w: Window, room: nat, packet: seq<Byte>, now: int): (r: (Window, seq<Byte>))
    requires w.Valid(room)
    ensures r.0.Valid(room)
  {
    if |packet| < 4 then (w, [])
    else
      var h, payload := FromNetwork(packet[..4]), packet[4..];
      var kind := HeaderKind(h);
      if kind == FRAG_WHOLE then (w, if h % 256 != 0 then [] else payload)
      else if kind == FRAG_YES_NOTLAST || kind == FRAG_YES_LAST then
        var last := kind == FRAG_YES_LAST;
        var size := if last then HeaderSize(h) else |payload|;
        var (v, i) := GetBuf(w, room, HeaderSeqId(h));
        if size % 4 != 0 then (v, [])
        else
          var (s, out) := PutFragment(v.slots[i], HeaderFragId(h), last, size, payload, now);
          (v.(slots := v.slots[i := s]), out)
      else (w, [])
  }

  function TtlReap(w: Window, now: int): Window {
    w.(slots := seq(|w.slots|, j requires 0 <= j < |w.slots| =>
      if w.slots[j].defined && w.slots[j].timestamp + FRAG_TTL_SEC <= now then Undefine(w.slots[j]) else w.slots[j]))
  }

  // ----- the same steps on the mutable structures -----

  class FragmentList {
    var seqId: int
    var index: int
    const fragments: array<Slot>
    const room: nat

    ghost function Value(): Window
      reads this, fragments
    {
      Window(seqId, index, fragments[..])
    }

    ghost predicate Valid()
      reads this, fragments
    {
      fragments.Length == N_FRAG_BUF && Value().Valid(room)
    }

    constructor (room: nat)
      ensures Valid() && fresh(fragments) && this.room == room
      ensures seqId == 0 && index == 0 && forall j :: 0 <= j < N_FRAG_BUF ==> !fragments[j].defined
    {
      this.room := room;
      seqId, index := 0, 0;
      fragments := new Slot[N_FRAG_BUF](_ => Slot(false, 0, Word(false), 0, seq(room, _ => 0), 0));
    }

    /** The loop that clears every slot. */
    method ClearAll()
      requires Valid()
      modifies fragments
      ensures Valid() && fragments[..] == Advance(old(fragments[..]), 0, N_FRAG_BUF)
    {
      for i := 0 to N_FRAG_BUF
        invariant forall j :: 0 <= j < N_FRAG_BUF ==>
          fragments[j] == if j < i then Undefine(old(fragments[j])) else old(fragments[j])
      {
        fragments[i] := Undefine(fragments[i]);
      }
    }

    /** The loop that moves the window forward one sequence id at a time. */
    method StepForward(count: int)
      requires Valid() && 0 <= count < N_FRAG_BUF
      modifies this, fragments
      ensures Valid() && seqId == ModuloAdd(old(seqId), count, N_SEQ_ID)
        && index == ModuloAdd(old(index), count, N_FRAG_BUF)
      ensures fragments[..] == Advance(old(fragments[..]), old(index), count)
    {
      var diff := count;
      while diff > 0
        invariant 0 <= diff <= count
        invariant seqId == ModuloAdd(old(seqId), count - diff, N_SEQ_ID)
        invariant index == ModuloAdd(old(index), count - diff, N_FRAG_BUF)
        invariant forall j :: 0 <= j < N_FRAG_BUF ==>
          fragments[j] ==
            if Ahead(j, old(index)) <= count - diff then Undefine(old(fragments[j])) else old(fragments[j])
      {
        index := ModuloAdd(index, 1, N_FRAG_BUF);
        fragments[index] := Undefine(fragments[index]);
        seqId := ModuloAdd(seqId, 1, N_SEQ_ID);
        diff := diff - 1;
      }
    }

    method FindSlot(target: int) returns (slot: int)
      requires Valid() && 0 <= target < N_SEQ_ID
      modifies this, fragments
      ensures Valid() && (Value(), slot) == GetBuf(old(Value()), room, target)
    {
      var diff := ModuloSubtract(target, seqId, N_SEQ_ID);
      if Abs(diff) >= N_FRAG_BUF {
        ClearAll();
        index, seqId := 0, target;
        diff := 0;
      } else if diff > 0 {
        StepForward(diff);
        diff := 0;
      }
      slot := ModuloAdd(index, diff, N_FRAG_BUF);
    }

    method Assemble(slot: Slot, n: nat, last: bool, size: nat, payload: seq<Byte>, now: int)
      returns (frag: Slot, out: seq<Byte>)
      requires slot.len <= |slot.mem| && |slot.received| == MAX_FRAGS
      ensures (frag, out) == PutFragment(slot, n, last, size, payload, now)
    {
      frag, out := slot, [];
      if !frag.defined || frag.maxFragSize != size {
        frag := frag.(defined := true, maxFragSize := size, received := Word(false), len := 0);
      }
      if n * size + |payload| > |frag.mem| {
        return;
      }
      frag := frag.(mem := frag.mem[..n * size] + payload + frag.mem[n * size + |payload|..]);
      if n * size + |payload| > frag.len {
        frag := frag.(len := n * size + |payload|);
      }
      frag := frag.(received := Mark(frag.received, n, last), timestamp := now);
      if frag.received == Word(true) {
        frag := frag.(defined := false);
        out := frag.mem[..frag.len];
      }
    }

    method Receive(packet: seq<Byte>, now: int) returns (out: seq<Byte>)
      requires Valid()
      modifies this, fragments
      ensures Valid() && (Value(), out) == Incoming(old(Value()), room, packet, now)
    {
      if |packet| < 4 {
        return [];
      }
      var h, payload := FromNetwork(packet[..4]), packet[4..];
      var kind := HeaderKind(h);
      if kind == FRAG_WHOLE {
        return if h % 256 != 0 then [] else payload;
      }
      if kind != FRAG_YES_NOTLAST && kind != FRAG_YES_LAST {
        return [];
      }
      var last, n := kind == FRAG_YES_LAST, HeaderFragId(h);
      var size := if last then HeaderSize(h) else |payload|;
      var i := FindSlot(HeaderSeqId(h));
      if size % 4 != 0 {
        return [];
      }
      ghost var v := Value();
      var frag;
      frag, out := Assemble(fragments[i], n, last, size, payload, now);
      fragments[i] := frag;
      assert fragments[..] == v.slots[i := frag];
    }

    method ReapOld(now: int)
      requires Valid()
      modifies fragments
      ensures Valid() && Value() == TtlReap(old(Value()), now)
    {
      ghost var start := Value();
      for i := 0 to N_FRAG_BUF
        invariant forall j :: 0 <= j < N_FRAG_BUF ==>
          fragments[j] == if j < i then TtlReap(start, now).slots[j] else start.slots[j]
      {
        if fragments[i].defined && fragments[i].timestamp + FRAG_TTL_SEC <= now {
          fragments[i] := Undefine(fragments[i]);
        }
      }
      assert fragments[..] == TtlReap(start, now).slots;
    }
  }

  class FragmentSender {
    var outgoing: seq<Byte>
    var outgoingSeqId: int
    var outgoingFragId: nat
    var outgoingFragSize: int

    ghost function Value(): Out
      reads this
    {
      Out(outgoing, outgoingSeqId, outgoingFragId, outgoingFragSize)
    }

    constructor (random: nat)
      ensures Value() == Out([], random % N_SEQ_ID, 0, 0)
    {
      outgoing, outgoingSeqId, outgoingFragId, outgoingFragSize := [], random % N_SEQ_ID, 0, 0;
    }

    method Outgoing(buf: seq<Byte>, payloadSize: int) returns (packet: seq<Byte>)
      requires Value().Valid() && payloadSize >= 4
      modifies this
      ensures (Value(), packet) == FragmentOutgoing(old(Value()), buf, payloadSize) && Value().Valid()
    {
      if buf == [] {
        return [];
      }
      if |buf| > payloadSize {
        outgoingFragSize := OptimalFragmentSize(|buf|, payloadSize);
        if |buf| > outgoingFragSize * MAX_FRAGS {
          return [];
        }
        outgoing := buf;
        outgoingSeqId := ModuloAdd(outgoingSeqId, 1, N_SEQ_ID);
        outgoingFragId := 0;
        packet := Ready();
      } else {
        packet := ToNetwork(Header(FRAG_WHOLE, 0, 0, 0)) + buf;
      }
    }

    method Ready() returns (packet: seq<Byte>)
      requires Value().Valid()
      modifies this
      ensures (Value(), packet) == ReadyToSend(old(Value())) && Value().Valid()
    {
      if outgoing == [] {
        return [];
      }
      var size, last := outgoingFragSize, false;
      if |outgoing| <= size {
        size, last := |outgoing|, true;
      }
      packet := outgoing[..size];
      outgoing := outgoing[size..];
      packet := ToNetwork(Header(if last then FRAG_YES_LAST else FRAG_YES_NOTLAST,
                                 outgoingSeqId, outgoingFragId, outgoingFragSize)) + packet;
      outgoingFragId := outgoingFragId + 1;
    }
  }
}
