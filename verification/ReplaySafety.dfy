/**
 * What the anti-replay window is for. An Ideal receiver keeps only the newest timestamp, the
 * highest id, the ids accepted under that timestamp, the highest id that has timed out and the time of
 * its last expiry; the window of PacketIds answers exactly like it over every run, and so never accepts a pair twice.
 */
module ReplaySafety {
  import opened Integers
  import opened PacketIds

  // ----- the ideal receiver -----

  datatype Ideal = Ideal(time: int, top: nat, floor: nat, seen: map<nat, int>, reaped: int)

  const Fresh := Ideal(0, 0, 0, map[], 0)

  /** In the window, or above it, and not timed out. */
  predicate Timely(s: Ideal, seqBacktrack: nat, pin: Pin) {
    || pin.time > s.time
    || (pin.time == s.time && (pin.id > s.top || (s.top - pin.id < seqBacktrack && pin.id > s.floor)))
  }

  /** Already accepted, or from a timestamp that has been left behind. */
  predicate Used(s: Ideal, pin: Pin) {
    pin.time < s.time || (pin.time == s.time && pin.id in s.seen)
  }

  predicate Accepts(s: Ideal, seqBacktrack: nat, pin: Pin) {
    pin.id != 0 && Timely(s, seqBacktrack, pin) && !Used(s, pin)
  }

  function Record(s: Ideal, pin: Pin, now: int): Ideal {
    var b := if pin.time > s.time then Ideal(pin.time, 0, 0, map[], s.reaped) else s;
    b.(top := Max(b.top, pin.id), seen := b.seen[pin.id := now])
  }

  /** The highest of the n ids from j down that was accepted too long ago, and floor if there is none. */
  function HighestStale(seen: map<nat, int>, floor: nat, j: nat, n: nat, timeBacktrack: int, now: int): (f: nat)
    ensures floor <= f <= Max(floor, j)
    ensures f > floor ==> f in seen && seen[f] + timeBacktrack < now && j - f < n
    ensures forall i :: f < i <= j && j - i < n && i in seen ==> seen[i] + timeBacktrack >= now
  {
    if n == 0 || j <= floor then floor
    else if j in seen && seen[j] + timeBacktrack < now then j
    else HighestStale(seen, floor, j - 1, n - 1, timeBacktrack, now)
  }

  function Expire(s: Ideal, seqBacktrack: nat, timeBacktrack: nat, now: int): Ideal {
    s.(reaped := now,
       floor := if timeBacktrack == 0 then s.floor
                else HighestStale(s.seen, s.floor, s.top, Min(s.top, seqBacktrack), timeBacktrack, now))
  }

  // ----- the window against the ideal -----

  function Slot(seen: map<nat, int>, floor: nat, id: nat): int {
    if id <= floor then SEQ_EXPIRED else if id in seen then seen[id] else SEQ_UNSEEN
  }

  ghost predicate Matches(r: Rec, s: Ideal) {
    && r.seqBacktrack > 0 && r.time == s.time && r.id == s.top && s.floor <= s.top && r.lastReap == s.reaped
    && |r.window| == Min(r.id, r.seqBacktrack)
    && (forall i :: i in s.seen ==> 1 <= i <= s.top && s.seen[i] > SEQ_EXPIRED)
    && (forall k :: 0 <= k < |r.window| ==> r.window[k] == Slot(s.seen, s.floor, r.id - k))
  }

  /** packet_id_test accepts exactly the timely ids that have not been accepted before. */
  lemma TestRefines(r: Rec, s: Ideal, pin: Pin)
    requires Matches(r, s)
    ensures Test(r, pin) <==> Accepts(s, r.seqBacktrack, pin)
  {
    if pin.id != 0 && pin.time == r.time && pin.id <= r.id && r.id - pin.id < |r.window| {
      assert r.window[r.id - pin.id] == Slot(s.seen, s.floor, pin.id);
    }
  }

  /** Far jumps and resets of the list are invisible: they only drop slots below the new window. */
  lemma AddRefines(r: Rec, s: Ideal, pin: Pin, now: int)
    requires Matches(r, s) && Test(r, pin) && now > SEQ_EXPIRED
    ensures Matches(Add(r, pin, now), Record(s, pin, now))
  {
    if StartsOver(r, pin) {
      AddStartsOver(r, s, pin, now);
    } else {
      AddSlides(r, s, pin, now);
    }
  }

  /** A newer timestamp or a far jump: all of the window is either gone or behind it. */
  lemma AddStartsOver(r: Rec, s: Ideal, pin: Pin, now: int)
    requires Matches(r, s) && Test(r, pin) && now > SEQ_EXPIRED && StartsOver(r, pin)
    ensures Matches(Add(r, pin, now), Record(s, pin, now))
  {
    var q, t := Add(r, pin, now), Record(s, pin, now);
    forall k | 0 <= k < |q.window| ensures q.window[k] == Slot(t.seen, t.floor, q.id - k) {
    }
  }

  /** The slots that enter above the window are those of ids not seen yet. */
  lemma SlideMatches(r: Rec, s: Ideal, n: nat, k: nat)
    requires Matches(r, s) && k < Min(n + |r.window|, r.seqBacktrack)
    ensures
      var w := Slide(r.window, n, r.seqBacktrack);
      k < |w| && w[k] == Slot(s.seen, s.floor, r.id + n - k)
  {
    SlideIs(r.window, n, r.seqBacktrack);
    hide Slide;
    if k >= n {
      assert r.window[k - n] == Slot(s.seen, s.floor, r.id - (k - n));
    }
  }

  lemma AddIs(r: Rec, s: Ideal, pin: Pin, now: int)
    requires Matches(r, s) && Test(r, pin) && now > SEQ_EXPIRED && !StartsOver(r, pin)
    ensures
      var top := Max(r.id, pin.id);
      var w := Slide(r.window, top - r.id, r.seqBacktrack);
      && pin.id > 0 && top - pin.id < |w|
      && Add(r, pin, now) == r.(id := top, window := w[top - pin.id := now])
      && Record(s, pin, now) == s.(top := top, seen := s.seen[pin.id := now])
      && |w| == Min(top, r.seqBacktrack)
      && pin.id > s.floor
  {
    SlideIs(r.window, Max(r.id, pin.id) - r.id, r.seqBacktrack);
    hide Slide;
    TestRefines(r, s, pin);
  }

  lemma SlotAdded(r: Rec, s: Ideal, pin: Pin, now: int, k: nat)
    requires Matches(r, s) && Test(r, pin) && now > SEQ_EXPIRED && !StartsOver(r, pin)
    requires k < |Add(r, pin, now).window|
    ensures
      var q, t := Add(r, pin, now), Record(s, pin, now);
      k <= q.id && q.window[k] == Slot(t.seen, t.floor, q.id - k)
  {
    AddIs(r, s, pin, now);
    hide Slide, Add, Record, Test, StartsOver;
    SlideMatches(r, s, Max(r.id, pin.id) - r.id, k);
  }

  lemma AddSlides(r: Rec, s: Ideal, pin: Pin, now: int)
    requires Matches(r, s) && Test(r, pin) && now > SEQ_EXPIRED && !StartsOver(r, pin)
    ensures Matches(Add(r, pin, now), Record(s, pin, now))
  {
    AddIs(r, s, pin, now);
    hide Slide, Slot, Add, Record, Test, StartsOver;
    forall k: nat | k < |Add(r, pin, now).window|
      ensures
        var q, t := Add(r, pin, now), Record(s, pin, now);
        k <= q.id && q.window[k] == Slot(t.seen, t.floor, q.id - k)
    {
      SlotAdded(r, s, pin, now, k);
    }
  }

  lemma SlideIs(window: seq<int>, n: nat, capacity: nat)
    ensures |Slide(window, n, capacity)| == Min(n + |window|, capacity)
    ensures forall k :: 0 <= k < |Slide(window, n, capacity)| ==>
      Slide(window, n, capacity)[k] == if k < n then SEQ_UNSEEN else window[k - n]
  {
  }

  /** One pass from the slot of id j down, in step with the search for the highest stale id. */
  lemma {:induction false} ReapTailRefines(w: seq<int>, seen: map<nat, int>, floor: nat, j: nat,
                                           timeBacktrack: int, now: int, expire: bool)
    requires |w| <= j && forall i :: i in seen ==> seen[i] > SEQ_EXPIRED
    requires forall k :: 0 <= k < |w| ==> w[k] == Slot(seen, floor, j - k)
    ensures
      var f := if expire then Max(j, floor) else HighestStale(seen, floor, j, |w|, timeBacktrack, now);
      forall k :: 0 <= k < |w| ==> ReapTail(w, timeBacktrack, now, expire)[k] == Slot(seen, f, j - k)
  {
    hide HighestStale;
    if w == [] || w[0] == SEQ_EXPIRED {
      if w != [] {
        assert w[0] == Slot(seen, floor, j);
      }
    } else {
      assert w[0] == Slot(seen, floor, j);
      var x := expire || (w[0] != SEQ_UNSEEN && w[0] + timeBacktrack < now);
      forall k | 0 <= k < |w| - 1 ensures w[1..][k] == Slot(seen, floor, j - 1 - k) {
        assert w[1..][k] == w[k + 1];
      }
      ReapTailRefines(w[1..], seen, floor, j - 1, timeBacktrack, now, x);
    }
  }

  /** Expired slots form a suffix of the window, so stopping at the first of them loses nothing. */
  lemma ReapRefines(r: Rec, s: Ideal, now: int)
    requires Matches(r, s)
    ensures Matches(Reap(r, now), Expire(s, r.seqBacktrack, r.timeBacktrack, now))
  {
    if r.timeBacktrack != 0 {
      ReapTailRefines(r.window, s.seen, s.floor, s.top, r.timeBacktrack, now, false);
    }
  }

  lemma ExpiredSuffix(r: Rec, s: Ideal, j: nat, k: nat)
    requires Matches(r, s) && j <= k < |r.window|
    ensures r.window[j] == SEQ_EXPIRED ==> r.window[k] == SEQ_EXPIRED
  {
    assert r.window[j] == Slot(s.seen, s.floor, r.id - j);
    assert r.window[k] == Slot(s.seen, s.floor, r.id - k);
  }

  // ----- whole runs -----

  datatype Event = Tick(now: int) | Offer(pin: Pin, now: int)

  /** Tick is packet_id_reap_test; Offer is packet_id_test, then packet_id_add when it accepts. */
  function Step(r: Rec, e: Event): Rec {
    match e
    case Tick(now) => ReapTest(r, now)
    case Offer(pin, now) => if Test(r, pin) then Add(r, pin, now) else r
  }

  function IdealStep(s: Ideal, seqBacktrack: nat, timeBacktrack: nat, e: Event): Ideal {
    match e
    case Tick(now) =>
      if s.reaped + SEQ_REAP_INTERVAL <= now then Expire(s, seqBacktrack, timeBacktrack, now) else s
    case Offer(pin, now) =>
      if Accepts(s, seqBacktrack, pin) then Record(s, pin, now) else s
  }

  ghost predicate ClockRuns(es: seq<Event>) {
    forall e :: e in es ==> e.now > SEQ_EXPIRED
  }

  function Run(r: Rec, es: seq<Event>): Rec
    decreases |es|
  {
    if es == [] then r else Run(Step(r, es[0]), es[1..])
  }

  function IdealRun(s: Ideal, seqBacktrack: nat, timeBacktrack: nat, es: seq<Event>): Ideal
    decreases |es|
  {
    if es == [] then s
    else IdealRun(IdealStep(s, seqBacktrack, timeBacktrack, es[0]), seqBacktrack, timeBacktrack, es[1..])
  }

  function AcceptedNow(r: Rec, e: Event): seq<Pin> {
    if e.Offer? && Test(r, e.pin) then [e.pin] else []
  }

  /** The pins accepted in a run, in order. */
  function Accepted(r: Rec, es: seq<Event>): seq<Pin>
    decreases |es|
  {
    if es == [] then []
    else AcceptedNow(r, es[0]) + Accepted(Step(r, es[0]), es[1..])
  }

  function Offers(es: seq<Event>): seq<Pin> {
    if es == [] then [] else (if es[0].Offer? then [es[0].pin] else []) + Offers(es[1..])
  }

  lemma StepRefines(r: Rec, s: Ideal, e: Event)
    requires Matches(r, s) && e.now > SEQ_EXPIRED
    ensures Matches(Step(r, e), IdealStep(s, r.seqBacktrack, r.timeBacktrack, e))
    ensures Step(r, e).seqBacktrack == r.seqBacktrack && Step(r, e).timeBacktrack == r.timeBacktrack
  {
    match e
    case Tick(now) => ReapRefines(r, s, now);
    case Offer(pin, now) =>
      TestRefines(r, s, pin);
      if Test(r, pin) {
        AddRefines(r, s, pin, now);
      }
  }

  lemma {:induction false} RunRefines(r: Rec, s: Ideal, es: seq<Event>)
    requires Matches(r, s) && ClockRuns(es)
    ensures Matches(Run(r, es), IdealRun(s, r.seqBacktrack, r.timeBacktrack, es))
    decreases |es|
  {
    if es != [] {
      StepRefines(r, s, es[0]);
      RunRefines(Step(r, es[0]), IdealStep(s, r.seqBacktrack, r.timeBacktrack, es[0]), es[1..]);
    }
  }

  ghost predicate Distinct(pins: seq<Pin>) {
    forall i, j :: 0 <= i < j < |pins| ==> pins[i] != pins[j]
  }

  lemma {:induction false} AcceptedAreNew(r: Rec, s: Ideal, es: seq<Event>)
    requires Matches(r, s) && ClockRuns(es)
    ensures Distinct(Accepted(r, es))
    ensures forall p :: p in Accepted(r, es) ==> !Used(s, p)
    decreases |es|
  {
    if es != [] {
      var t := IdealStep(s, r.seqBacktrack, r.timeBacktrack, es[0]);
      StepRefines(r, s, es[0]);
      AcceptedAreNew(Step(r, es[0]), t, es[1..]);
      assert forall p :: Used(s, p) ==> Used(t, p);
      if es[0].Offer? {
        TestRefines(r, s, es[0].pin);
      }
      var rest := Accepted(Step(r, es[0]), es[1..]);
      if es[0].Offer? && Test(r, es[0].pin) {
        assert Accepted(r, es) == [es[0].pin] + rest && es[0].pin !in rest;
      } else {
        assert Accepted(r, es) == rest;
      }
    }
  }

  // ----- non-backtrack mode -----

  /** Each pin either follows the one before it or starts a newer timestamp at 1. */
  ghost predicate InSeries(last: Pin, pins: seq<Pin>)
    decreases |pins|
  {
    pins == [] ||
    (&& (if pins[0].time == last.time then pins[0].id == last.id + 1 else pins[0].time > last.time && pins[0].id == 1)
     && InSeries(pins[0], pins[1..]))
  }

  lemma {:induction false} SeriesIsNew(last: Pin, pins: seq<Pin>)
    requires InSeries(last, pins)
    ensures Distinct(pins)
    ensures forall p :: p in pins ==> p.time > last.time || (p.time == last.time && p.id > last.id)
    decreases |pins|
  {
    if pins != [] {
      SeriesIsNew(pins[0], pins[1..]);
    }
  }

  /** Without a window, what is accepted under each timestamp is 1, 2, 3, ... in order. */
  lemma {:induction false} StrictModeInSeries(r: Rec, es: seq<Event>)
    requires r.seqBacktrack == 0
    ensures InSeries(Pin(r.time, r.id), Accepted(r, es))
    decreases |es|
  {
    hide Slide, Base;
    if es != [] {
      StrictModeInSeries(Step(r, es[0]), es[1..]);
      var rest := Accepted(Step(r, es[0]), es[1..]);
      if es[0].Offer? && Test(r, es[0].pin) {
        assert ([es[0].pin] + rest)[1..] == rest;
      } else {
        assert [] + rest == rest;
      }
    }
  }

  /** ... and whatever arrives in that order is accepted in full. */
  lemma {:induction false} StrictModeAcceptsSeries(r: Rec, es: seq<Event>)
    requires r.seqBacktrack == 0 && InSeries(Pin(r.time, r.id), Offers(es))
    ensures Accepted(r, es) == Offers(es)
    decreases |es|
  {
    if es != [] {
      if es[0].Offer? {
        assert Offers(es)[1..] == Offers(es[1..]);
      } else {
        assert Offers(es) == Offers(es[1..]);
      }
      StrictModeAcceptsSeries(Step(r, es[0]), es[1..]);
    }
  }

  // ----- the main results -----

  /** No (time, id) pair is ever accepted twice, whatever is offered and whenever the list is reaped. */
  lemma NoReplay(seqBacktrack: nat, timeBacktrack: nat, es: seq<Event>)
    requires LegalBacktrack(seqBacktrack, timeBacktrack) && ClockRuns(es)
    ensures Distinct(Accepted(Init(seqBacktrack, timeBacktrack), es))
  {
    var r := Init(seqBacktrack, timeBacktrack);
    if seqBacktrack == 0 {
      StrictModeInSeries(r, es);
      SeriesIsNew(Pin(0, 0), Accepted(r, es));
    } else {
      AcceptedAreNew(r, Fresh, es);
    }
  }

  /** The ideal's fields are facts about the pins accepted so far. */
  ghost predicate Remembers(s: Ideal, accepted: seq<Pin>) {
    && (forall p :: p in accepted ==> p.time <= s.time)
    && (forall i: Word32 :: i in s.seen <==> Pin(s.time, i) in accepted)
    && (forall i :: i in s.seen ==> i <= s.top < WORD_LIMIT)
    && (s.top > 0 ==> s.top in s.seen)
    && (s.floor > 0 ==> s.floor in s.seen)
    && s.floor <= s.top
    && (s.top > 0 || s.(reaped := 0) == Fresh)
  }

  lemma RecordRemembers(s: Ideal, pin: Pin, now: int, accepted: seq<Pin>)
    requires Remembers(s, accepted) && pin.id != 0 && pin.time >= s.time
    ensures Remembers(Record(s, pin, now), accepted + [pin])
  {
    var t := Record(s, pin, now);
    forall i: Word32 ensures i in t.seen <==> Pin(t.time, i) in accepted + [pin] {
      if pin.time > s.time {
        assert Pin(t.time, i) !in accepted;
      }
    }
  }

  lemma StepRemembers(r: Rec, s: Ideal, e: Event, before: seq<Pin>)
    requires Matches(r, s) && Remembers(s, before)
    ensures Remembers(IdealStep(s, r.seqBacktrack, r.timeBacktrack, e), before + AcceptedNow(r, e))
  {
    if e.Offer? {
      TestRefines(r, s, e.pin);
    }
    if AcceptedNow(r, e) != [] {
      RecordRemembers(s, e.pin, e.now, before);
    } else {
      assert before + AcceptedNow(r, e) == before;
    }
  }

  lemma {:induction false} RunRemembers(r: Rec, s: Ideal, es: seq<Event>, before: seq<Pin>,
                                        end: Ideal, all: seq<Pin>)
    requires Matches(r, s) && ClockRuns(es) && Remembers(s, before)
    requires end == IdealRun(s, r.seqBacktrack, r.timeBacktrack, es) && all == before + Accepted(r, es)
    ensures Remembers(end, all)
    decreases |es|
  {
    if es == [] {
      assert all == before;
    } else {
      var e, tail := es[0], es[1..];
      assert ClockRuns(tail);
      var q, t, now := Step(r, e), IdealStep(s, r.seqBacktrack, r.timeBacktrack, e), before + AcceptedNow(r, e);
      assert end == IdealRun(t, r.seqBacktrack, r.timeBacktrack, tail);
      assert all == now + Accepted(q, tail);
      StepRefines(r, s, e);
      StepRemembers(r, s, e, before);
      RunRemembers(q, t, tail, now, end, all);
    }
  }

  /**
   * The verdict on any pin after any run, in terms of the run: a pin is accepted iff it is nonzero,
   * timely and not among the pins accepted so far.
   */
  lemma VerdictAfterRun(seqBacktrack: nat, timeBacktrack: nat, es: seq<Event>, pin: Pin)
    requires LegalBacktrack(seqBacktrack, timeBacktrack) && ClockRuns(es) && seqBacktrack > 0
    ensures
      var r := Init(seqBacktrack, timeBacktrack);
      var s := IdealRun(Fresh, seqBacktrack, timeBacktrack, es);
      && Remembers(s, Accepted(r, es))
      && |Run(r, es).window| == Min(s.top, seqBacktrack)
      && (Test(Run(r, es), pin) <==> pin.id != 0 && Timely(s, seqBacktrack, pin) && pin !in Accepted(r, es))
  {
    var r := Init(seqBacktrack, timeBacktrack);
    RunRefines(r, Fresh, es);
    assert Accepted(r, es) == [] + Accepted(r, es);
    var s := IdealRun(Fresh, seqBacktrack, timeBacktrack, es);
    RunRemembers(r, Fresh, es, [], s, Accepted(r, es));
    RunKeepsParameters(r, es);
    TestRefines(Run(r, es), s, pin);
  }

  lemma {:induction false} RunKeepsParameters(r: Rec, es: seq<Event>)
    ensures Run(r, es).seqBacktrack == r.seqBacktrack && Run(r, es).timeBacktrack == r.timeBacktrack
    decreases |es|
  {
    if es != [] {
      RunKeepsParameters(Step(r, es[0]), es[1..]);
    }
  }

  // ----- sender and receiver together -----

  datatype Send = Send(id: Word32, time: int)

  /** packet_id_alloc_outgoing; the wrap of a short-form id is the assertion in the source. */
  function AllocOutgoing(p: Send, longForm: bool, now: int): (Send, Pin)
    requires longForm || p.id + 1 < WORD_LIMIT
  {
    var time := if p.time == 0 then now else p.time;
    if p.id + 1 < WORD_LIMIT then (Send(p.id + 1, time), Pin(time, p.id + 1))
    else (Send(1, now), Pin(now, 1))
  }

  /** The pins of successive allocations, one clock reading each. */
  function Allocated(p: Send, longForm: bool, clocks: seq<int>): seq<Pin>
    requires longForm || p.id + |clocks| < WORD_LIMIT
    decreases |clocks|
  {
    if clocks == [] then []
    else
      var (q, pin) := AllocOutgoing(p, longForm, clocks[0]);
      [pin] + Allocated(q, longForm, clocks[1..])
  }

  lemma {:induction false} AllocatedStamped(p: Send, longForm: bool, clocks: seq<int>)
    requires p.id + |clocks| < WORD_LIMIT && p.time != 0
    ensures |Allocated(p, longForm, clocks)| == |clocks|
    ensures forall i :: 0 <= i < |clocks| ==> Allocated(p, longForm, clocks)[i] == Pin(p.time, p.id + 1 + i)
    decreases |clocks|
  {
    if clocks != [] {
      AllocatedStamped(AllocOutgoing(p, longForm, clocks[0]).0, longForm, clocks[1..]);
    }
  }

  /** Until the id wraps, the ids count up from 1 under the clock reading of the first allocation. */
  lemma AllocatedCountUp(longForm: bool, clocks: seq<int>)
    requires |clocks| < WORD_LIMIT && (clocks != [] ==> clocks[0] != 0)
    ensures |Allocated(Send(0, 0), longForm, clocks)| == |clocks|
    ensures forall i :: 0 <= i < |clocks| ==> Allocated(Send(0, 0), longForm, clocks)[i] == Pin(clocks[0], i + 1)
  {
    if clocks != [] {
      AllocatedStamped(AllocOutgoing(Send(0, 0), longForm, clocks[0]).0, longForm, clocks[1..]);
    }
  }

  /** When the id wraps, the clock has moved on since the timestamp was taken. */
  ghost predicate WrapsLater(p: Send, longForm: bool, clocks: seq<int>)
    requires longForm || p.id + |clocks| < WORD_LIMIT
    decreases |clocks|
  {
    clocks == [] ||
    (&& (p.id + 1 < WORD_LIMIT || clocks[0] > p.time)
     && WrapsLater(AllocOutgoing(p, longForm, clocks[0]).0, longForm, clocks[1..]))
  }

  /** From then on too each pin follows the one before it, exactly as long as no wrap meets the old timestamp. */
  lemma {:induction false} AllocatedInSeries(p: Send, longForm: bool, clocks: seq<int>)
    requires longForm || p.id + |clocks| < WORD_LIMIT
    requires p.time != 0 && forall i :: 0 <= i < |clocks| ==> clocks[i] != 0
    ensures InSeries(Pin(p.time, p.id), Allocated(p, longForm, clocks)) <==> WrapsLater(p, longForm, clocks)
    decreases |clocks|
  {
    if clocks != [] {
      var (q, pin) := AllocOutgoing(p, longForm, clocks[0]);
      AllocatedInSeries(q, longForm, clocks[1..]);
      assert Allocated(p, longForm, clocks)[1..] == Allocated(q, longForm, clocks[1..]);
    }
  }

  /** Every pin is timely the first time it arrives; arrived holds the pins that came before. */
  ghost predicate FirstArrivalsTimely(s: Ideal, seqBacktrack: nat, timeBacktrack: nat, es: seq<Event>,
                                      arrived: set<Pin>)
    decreases |es|
  {
    es == [] ||
    (&& (es[0].Offer? && es[0].pin !in arrived ==> Timely(s, seqBacktrack, es[0].pin))
     && FirstArrivalsTimely(IdealStep(s, seqBacktrack, timeBacktrack, es[0]), seqBacktrack, timeBacktrack, es[1..],
                            if es[0].Offer? then arrived + {es[0].pin} else arrived))
  }

  lemma {:induction false} TimelyAcceptedOnce(s: Ideal, r: Rec, es: seq<Event>, arrived: set<Pin>, time: int, p: Pin)
    requires Matches(r, s) && ClockRuns(es) && FirstArrivalsTimely(s, r.seqBacktrack, r.timeBacktrack, es, arrived)
    requires forall q :: q in Offers(es) ==> q.time == time && q.id != 0
    requires s.time <= time && (s.time < time ==> arrived == {})
    requires s.time == time ==> forall q: Pin :: q.time == time ==> (q.id in s.seen <==> q in arrived)
    ensures multiset(Accepted(r, es))[p] == if p in Offers(es) && p !in arrived then 1 else 0
    decreases |es|
  {
    if es != [] {
      var e, t := es[0], IdealStep(s, r.seqBacktrack, r.timeBacktrack, es[0]);
      StepRefines(r, s, e);
      if e.Offer? {
        TestRefines(r, s, e.pin);
        assert e.pin in Offers(es);
      }
      TimelyAcceptedOnce(t, Step(r, e), es[1..], if e.Offer? then arrived + {e.pin} else arrived, time, p);
    }
  }

  /**
   * A sender allocates pins under one timestamp; they arrive in any order and any number of times.
   * When each is timely at its first arrival, each that arrives is accepted exactly once.
   */
  lemma SentThenAcceptedOnce(longForm: bool, clocks: seq<int>, seqBacktrack: nat, timeBacktrack: nat,
                             es: seq<Event>, p: Pin)
    requires |clocks| < WORD_LIMIT && (clocks != [] ==> clocks[0] > SEQ_EXPIRED)
    requires LegalBacktrack(seqBacktrack, timeBacktrack) && seqBacktrack > 0 && ClockRuns(es)
    requires forall q :: q in Offers(es) ==> q in Allocated(Send(0, 0), longForm, clocks)
    requires FirstArrivalsTimely(Fresh, seqBacktrack, timeBacktrack, es, {})
    ensures multiset(Accepted(Init(seqBacktrack, timeBacktrack), es))[p] == if p in Offers(es) then 1 else 0
  {
    AllocatedCountUp(longForm, clocks);
    TimelyAcceptedOnce(Fresh, Init(seqBacktrack, timeBacktrack), es, {}, if clocks == [] then 0 else clocks[0], p);
  }
}
