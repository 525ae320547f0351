/** What the sending half puts on the wire: a datagram cut into equal slices, each with its header. */
module Sending {
  import opened Integers
  import opened Bytes
  import opened Fragments
  import opened Sequences

  /** A datagram, the size it is cut at and the number of pieces that makes. */
  datatype Sent = Sent(data: seq<Byte>, fragSize: nat, count: nat) {
    predicate Valid() {
      && 0 < fragSize < MAX_FRAG_PKT_SIZE && fragSize % 4 == 0
      && 0 < count <= MAX_FRAGS && (count - 1) * fragSize < |data| <= count * fragSize
    }

    function Begin(n: nat): nat {
      n * fragSize
    }

    function End(n: nat): int {
      Min((n + 1) * fragSize, |data|)
    }

    function Slice(n: nat): (r: seq<Byte>)
      requires Valid() && n < count
      ensures |r| == End(n) - Begin(n) && (n < count - 1 ==> |r| == fragSize)
    {
      Ordered(n, count - 1, fragSize);
      Ordered(n + 1, count, fragSize);
      assert (n + 1) * fragSize == n * fragSize + fragSize;
      data[Begin(n)..End(n)]
    }

    function Packet(seqId: nat, n: nat): seq<Byte>
      requires Valid() && n < count
    {
      ToNetwork(Header(if n == count - 1 then FRAG_YES_LAST else FRAG_YES_NOTLAST, seqId, n, fragSize)) + Slice(n)
    }
  }

  // ----- the fragment size -----

  lemma DivMod(x: int, d: int)
    requires 0 <= x && 0 < d
    ensures x == x / d * d + x % d && 0 <= x % d < d && 0 <= x / d
  {
  }

  ghost predicate Needs(len: int, size: int, count: int) {
    (count - 1) * size < len <= count * size
  }

  lemma NeedsUnique(len: int, size: nat, a: nat, b: nat)
    requires Needs(len, size, a) && Needs(len, size, b)
    ensures a == b
  {
    if a < b {
      Ordered(a, b - 1, size);
    } else if b < a {
      Ordered(b, a - 1, size);
    }
  }

  lemma EvenSizeFits(aligned: int, maxFragSize: int, div: int, mod: int)
    requires 4 <= aligned <= maxFragSize < aligned + 4 && aligned % 4 == 0
    requires 0 < div && 0 < mod < aligned
    ensures Needs(div * aligned + mod, EvenSize(aligned, maxFragSize, div, mod), div + 1)
  {
    var r := EvenSize(aligned, maxFragSize, div, mod);
    var q := (maxFragSize - mod) / (div + 1);
    EvenSizeIs(aligned, maxFragSize, div, mod);
    QuotientBound(maxFragSize - mod, div + 1);
    hide EvenSize;
    Fits(aligned, maxFragSize, div, mod, r, q);
  }

  lemma EvenSizeIs(aligned: int, maxFragSize: int, div: int, mod: int)
    requires 4 <= aligned <= maxFragSize < aligned + 4 && aligned % 4 == 0
    requires 0 < div && 0 < mod < aligned
    ensures
      var r := EvenSize(aligned, maxFragSize, div, mod);
      r == aligned || maxFragSize - (maxFragSize - mod) / (div + 1) <= r
  {
  }

  lemma Fits(aligned: int, maxFragSize: int, div: int, mod: int, r: int, q: int)
    requires 0 < r <= aligned <= maxFragSize && 0 < div && 0 < mod < aligned
    requires 0 <= q && q * (div + 1) <= maxFragSize - mod && (r == aligned || maxFragSize - q <= r)
    ensures div * r < div * aligned + mod <= (div + 1) * r
  {
    MulMonotone(div, r, aligned);
    MulMonotone(div, aligned, maxFragSize);
    if r == aligned {
      assert (div + 1) * r == div * aligned + aligned;
    } else {
      MulMonotone(div + 1, maxFragSize - q, r);
      assert (div + 1) * (maxFragSize - q) == div * maxFragSize + maxFragSize - q * (div + 1);
    }
  }

  /** The smaller size never costs a fragment: a count fits it exactly when it fits the aligned maximum. */
  lemma SameCounts(len: int, maxFragSize: int, c: nat)
    requires len > 0 && maxFragSize >= 4
    ensures Needs(len, OptimalFragmentSize(len, maxFragSize), c) <==> Needs(len, maxFragSize - maxFragSize % 4, c)
  {
    var count := SameFragmentCount(len, maxFragSize);
    var size, aligned := OptimalFragmentSize(len, maxFragSize), maxFragSize - maxFragSize % 4;
    if Needs(len, size, c) {
      NeedsUnique(len, size, c, count);
    }
    if Needs(len, aligned, c) {
      NeedsUnique(len, aligned, c, count);
    }
  }

  lemma SameFragmentCount(len: int, maxFragSize: int) returns (count: nat)
    requires len > 0 && maxFragSize >= 4
    ensures Needs(len, OptimalFragmentSize(len, maxFragSize), count)
    ensures Needs(len, maxFragSize - maxFragSize % 4, count)
  {
    var aligned := maxFragSize - maxFragSize % 4;
    var div, mod := len / aligned, len % aligned;
    DivMod(len, aligned);
    if mod == 0 {
      count := div;
      assert (div - 1) * aligned == div * aligned - aligned;
    } else {
      count := div + 1;
      assert (div + 1) * aligned == div * aligned + aligned;
      if div > 0 {
        EvenSizeFits(aligned, maxFragSize, div, mod);
      }
    }
  }

  lemma EvenSizeAtMost(aligned: int, maxFragSize: int, div: int, mod: int)
    requires 4 <= aligned <= maxFragSize < aligned + 4 && aligned % 4 == 0
    requires 0 < div && 0 < mod < aligned
    ensures EvenSize(aligned, maxFragSize, div, mod) <= maxFragSize - (maxFragSize - mod) / (div + 1) + 3
  {
  }

  lemma Spread(c: nat, m: int, q: int)
    ensures c * (m - q + 3) == c * m - q * c + 3 * c
  {
  }

  lemma OneMore(d: int, m: int)
    ensures (d + 1) * m == d * m + m && (d - 1) * m == d * m - m
  {
  }

  lemma EvenSizeSlack(aligned: int, maxFragSize: int, div: int, mod: int)
    requires 4 <= aligned <= maxFragSize < aligned + 4 && aligned % 4 == 0
    requires 0 < div && 0 < mod < aligned
    ensures (div + 1) * EvenSize(aligned, maxFragSize, div, mod) < div * aligned + mod + 7 * (div + 1)
  {
    var r, count := EvenSize(aligned, maxFragSize, div, mod), div + 1;
    EvenSizeAtMost(aligned, maxFragSize, div, mod);
    var q, rest := (maxFragSize - mod) / count, (maxFragSize - mod) % count;
    DivMod(maxFragSize - mod, count);
    Slack(aligned, maxFragSize, div, mod, r, q, rest);
  }

  lemma Slack(aligned: int, maxFragSize: int, div: int, mod: int, r: int, q: int, rest: int)
    requires 0 < div && maxFragSize <= aligned + 3 && r <= maxFragSize - q + 3
    requires maxFragSize - mod == q * (div + 1) + rest && rest <= div
    ensures (div + 1) * r < div * aligned + mod + 7 * (div + 1)
  {
    MulMonotone(div + 1, r, maxFragSize - q + 3);
    Spread(div + 1, maxFragSize, q);
    OneMore(div, maxFragSize);
    MulMonotone(div, maxFragSize, aligned + 3);
    Spread(div, aligned, 0);
  }

  lemma Positive(x: int, d: int)
    requires 0 < d <= x
    ensures x / d > 0
  {
  }

  /** The last of count fragments is at least three quarters as long as the others, or shorter by few bytes. */
  ghost predicate Similar(len: int, size: int, count: int) {
    var last := len - (count - 1) * size;
    4 * last >= 3 * size || size - last < 7 * count
  }

  lemma AlignedLast(len: int, aligned: nat, div: nat, mod: nat, count: nat)
    requires len == div * aligned + mod && mod < aligned && Needs(len, aligned, count)
    requires if mod == 0 then div > 0 else 4 * mod >= 3 * aligned
    ensures Similar(len, aligned, count)
  {
    var pieces := if mod == 0 then div else div + 1;
    OneMore(div, aligned);
    NeedsUnique(len, aligned, count, pieces);
  }

  lemma EvenLast(len: int, aligned: int, maxFragSize: int, div: int, mod: int, count: nat)
    requires 4 <= aligned <= maxFragSize < aligned + 4 && aligned % 4 == 0
    requires 0 < div && 0 < mod < aligned && len == div * aligned + mod
    requires Needs(len, EvenSize(aligned, maxFragSize, div, mod), count)
    ensures Similar(len, EvenSize(aligned, maxFragSize, div, mod), count)
  {
    var size := EvenSize(aligned, maxFragSize, div, mod);
    EvenSizeFits(aligned, maxFragSize, div, mod);
    EvenSizeSlack(aligned, maxFragSize, div, mod);
    hide EvenSize;
    NeedsUnique(len, size, count, div + 1);
    OneMore(div, size);
  }

  lemma OptimalCases(len: int, maxFragSize: int) returns (aligned: int, div: int, mod: int, even: bool)
    requires maxFragSize >= 4 && len >= maxFragSize - maxFragSize % 4
    ensures 4 <= aligned <= maxFragSize < aligned + 4 && aligned % 4 == 0
    ensures len == div * aligned + mod && 0 <= mod < aligned && div > 0
    ensures if even then mod > 0 && OptimalFragmentSize(len, maxFragSize) == EvenSize(aligned, maxFragSize, div, mod)
            else (mod == 0 || 4 * mod >= 3 * aligned) && OptimalFragmentSize(len, maxFragSize) == aligned
  {
    hide EvenSize;
    aligned := maxFragSize - maxFragSize % 4;
    div, mod := len / aligned, len % aligned;
    DivMod(len, aligned);
    Positive(len, aligned);
    even := mod > 0 && mod < aligned * 3 / 4;
  }

  /** The last fragment is of similar size as the others, short by less than seven bytes for each of them. */
  lemma SimilarSizes(len: int, maxFragSize: int, count: nat)
    requires maxFragSize >= 4 && len >= maxFragSize - maxFragSize % 4
    requires Needs(len, OptimalFragmentSize(len, maxFragSize), count)
    ensures Similar(len, OptimalFragmentSize(len, maxFragSize), count)
  {
    hide Needs, EvenSize, Similar, OptimalFragmentSize;
    var aligned, div, mod, even := OptimalCases(len, maxFragSize);
    if even {
      EvenLast(len, aligned, maxFragSize, div, mod, count);
    } else {
      AlignedLast(len, aligned, div, mod, count);
    }
  }

  // ----- the packets of one datagram -----

  /** The packets of all the calls to fragment_ready_to_send until it has nothing left. */
  function Drain(o: Out): seq<seq<Byte>>
    requires o.Valid()
    decreases |o.buf|
  {
    if o.buf == [] then [] else [ReadyToSend(o).1] + Drain(ReadyToSend(o).0)
  }

  function Packets(s: Sent, seqId: nat, from: nat): seq<seq<Byte>>
    requires s.Valid() && from <= s.count
  {
    seq(s.count - from, i requires 0 <= i < s.count - from => s.Packet(seqId, from + i))
  }

  /** Where a slice lies; only the last one reaches the end. */
  lemma SliceEnds(s: Sent, n: nat)
    requires s.Valid() && n < s.count
    ensures
      var at := s.Begin(n);
      if n + 1 < s.count then s.End(n) == s.Begin(n + 1) == at + s.fragSize < |s.data|
      else at < s.End(n) == |s.data| <= at + s.fragSize
  {
    var size := s.fragSize;
    assert s.Begin(n + 1) == s.Begin(n) + size;
    Ordered(n + 1, s.count - 1, size);
  }

  lemma NextPacket(o: Out, s: Sent, n: nat)
    requires o.Valid() && s.Valid() && n < s.count && o.fragSize == s.fragSize && o.fragId == n
    requires s.Begin(n) <= |s.data| && o.buf == s.data[s.Begin(n)..]
    ensures
      var (p, packet) := ReadyToSend(o);
      && packet == s.Packet(o.seqId, n) && p.Valid()
      && (if n + 1 < s.count
          then s.Begin(n + 1) <= |s.data| && p == Out(s.data[s.Begin(n + 1)..], o.seqId, n + 1, s.fragSize)
          else p.buf == [])
  {
    SliceEnds(s, n);
    hide Header, ToNetwork, Sent.Begin, Sent.End;
    var at, end := s.Begin(n), s.End(n);
    Between(s.data, at, end);
  }

  lemma {:induction false} DrainFrom(o: Out, s: Sent, n: nat)
    requires o.Valid() && s.Valid() && n < s.count && o.fragSize == s.fragSize && o.fragId == n
    requires s.Begin(n) <= |s.data| && o.buf == s.data[s.Begin(n)..]
    ensures Drain(o) == Packets(s, o.seqId, n)
    decreases |o.buf|
  {
    NextPacket(o, s, n);
    hide ReadyToSend, Sent.Packet, Sent.Begin;
    var (p, packet) := ReadyToSend(o);
    assert Packets(s, o.seqId, n) == [packet] + Packets(s, o.seqId, n + 1);
    if n + 1 < s.count {
      DrainFrom(p, s, n + 1);
    }
  }

  /**
   * An oversized datagram that is not refused leaves as the packets of one Sent: fragment ids count
   * up from 0, the sequence id is the next one and the slices are consecutive.
   */
  lemma OutgoingSendsAll(o: Out, buf: seq<Byte>, payloadSize: int) returns (s: Sent)
    requires o.Valid() && 4 <= payloadSize < |buf| && payloadSize < MAX_FRAG_PKT_SIZE
    requires |buf| <= OptimalFragmentSize(|buf|, payloadSize) * MAX_FRAGS
    ensures s.Valid() && s.data == buf && s.count >= 2 && s.fragSize == OptimalFragmentSize(|buf|, payloadSize)
    ensures
      var (p, first) := FragmentOutgoing(o, buf, payloadSize);
      && p.seqId == ModuloAdd(o.seqId, 1, N_SEQ_ID)
      && [first] + Drain(p) == Packets(s, p.seqId, 0)
  {
    var size := OptimalFragmentSize(|buf|, payloadSize);
    var count := SameFragmentCount(|buf|, payloadSize);
    if count > MAX_FRAGS {
      Ordered(MAX_FRAGS, count - 1, size);
    }
    s := Sent(buf, size, count);
    var start := Out(buf, ModuloAdd(o.seqId, 1, N_SEQ_ID), 0, size);
    assert buf == s.data[s.Begin(0)..];
    DrainFrom(start, s, 0);
  }

  function Concat(parts: seq<seq<Byte>>): seq<Byte> {
    if parts == [] then [] else parts[0] + Concat(parts[1..])
  }

  function Slices(s: Sent, from: nat): seq<seq<Byte>>
    requires s.Valid() && from <= s.count
  {
    seq(s.count - from, i requires 0 <= i < s.count - from => s.Slice(from + i))
  }

  function Start(s: Sent, n: nat): (r: int)
    ensures 0 <= r <= |s.data|
  {
    Min(n * s.fragSize, |s.data|)
  }

  lemma SliceBetween(s: Sent, n: nat)
    requires s.Valid() && n < s.count
    ensures Start(s, n) <= Start(s, n + 1)
    ensures s.Slice(n) == s.data[Start(s, n)..Start(s, n + 1)]
  {
    Ordered(n, n + 1, s.fragSize);
    Ordered(n, s.count - 1, s.fragSize);
  }

  lemma {:induction false} SlicesConcatFrom(s: Sent, n: nat)
    requires s.Valid() && n <= s.count
    ensures Concat(Slices(s, n)) == s.data[Start(s, n)..]
    decreases s.count - n
  {
    if n < s.count {
      hide Start, Sent.Slice, Sent.Valid;
      SlicesConcatFrom(s, n + 1);
      SliceBetween(s, n);
      assert Slices(s, n)[1..] == Slices(s, n + 1);
      Join(s.data, Start(s, n), Start(s, n + 1));
    }
  }

  /** Put end to end, the slices are the datagram. */
  lemma SlicesConcat(s: Sent)
    requires s.Valid()
    ensures Concat(Slices(s, 0)) == s.data
  {
    SlicesConcatFrom(s, 0);
  }
}
