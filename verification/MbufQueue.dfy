/**
 * What the ring of mbuf.c promises, on the sequence of its slots: live items leave in the order in
 * which they came, and one is lost only as the oldest when an add finds no room or with its instance.
 */
module MbufQueue {
  import opened Sequences
  import opened Wrappers

  type Id = nat

  /** struct mbuf_item; dereferencing an instance leaves Nothing behind. */
  datatype Item<B> = Nothing | Item(buffer: B, instance: Id)

  function Live<B>(q: seq<Item<B>>): seq<Item<B>> {
    if q == [] then [] else (if q[0].Item? then [q[0]] else []) + Live(q[1..])
  }

  /** The slots from the first live one on. */
  function Skip<B>(q: seq<Item<B>>): (r: seq<Item<B>>)
    ensures r != [] ==> r[0].Item?
    ensures |r| <= |q|
  {
    if q == [] || q[0].Item? then q else Skip(q[1..])
  }

  function Extract<B>(q: seq<Item<B>>): (Option<Item<B>>, seq<Item<B>>) {
    var s := Skip(q);
    if s == [] then (None, []) else (Some(s[0]), s[1..])
  }

  /** mbuf_add_item; None when the ring is full of nothing and the assertion fails. */
  function Add<B>(q: seq<Item<B>>, capacity: nat, item: Item<B>): Option<seq<Item<B>>> {
    if |q| < capacity then Some(q + [item])
    else if Skip(q) == [] then None
    else Some(Skip(q)[1..] + [item])
  }

  function Cleared<B>(item: Item<B>, mi: Id): Item<B> {
    if item.Item? && item.instance == mi then Nothing else item
  }

  function Dereference<B>(q: seq<Item<B>>, mi: Id): (r: seq<Item<B>>)
    ensures |r| == |q|
  {
    if q == [] then [] else [Cleared(q[0], mi)] + Dereference(q[1..], mi)
  }

  function NotOf<B>(q: seq<Item<B>>, mi: Id): seq<Item<B>> {
    if q == [] then [] else (if q[0].Item? && q[0].instance == mi then [] else [q[0]]) + NotOf(q[1..], mi)
  }

  function Of<B>(q: seq<Item<B>>, mi: Id): seq<Item<B>> {
    if q == [] then [] else (if q[0].Item? && q[0].instance == mi then [q[0]] else []) + Of(q[1..], mi)
  }

  // ----- each operation on the live items -----

  lemma {:induction false} LiveConcat<B>(a: seq<Item<B>>, b: seq<Item<B>>)
    ensures Live(a + b) == Live(a) + Live(b)
  {
    if a == [] {
      WithEmpty(b);
      WithEmpty(Live(b));
    } else {
      var first, rest := (if a[0].Item? then [a[0]] else []), a[1..];
      Tail(a, b);
      LiveConcat(rest, b);
      assert Live(a + b) == first + Live(rest + b);
      assert Live(a) == first + Live(rest);
      Assoc(first, Live(rest), Live(b));
    }
  }

  /** The item that leaves is the oldest live one, and no other live item goes with it. */
  lemma {:induction false} ExtractIsOldest<B>(q: seq<Item<B>>)
    ensures Extract(q).0 == (if Live(q) == [] then None else Some(Live(q)[0]))
    ensures Live(Extract(q).1) == (if Live(q) == [] then [] else Live(q)[1..])
  {
    if q != [] {
      if q[0].Item? {
        assert Live(q) == [q[0]] + Live(q[1..]);
      } else {
        assert Live(q) == Live(q[1..]);
        ExtractIsOldest(q[1..]);
      }
    }
  }

  /** An add loses nothing while there is room, the oldest live item otherwise, and fails on a ring full of nothing. */
  lemma AddDropsOldest<B>(q: seq<Item<B>>, capacity: nat, item: Item<B>)
    requires item.Item? && |q| <= capacity
    ensures Add(q, capacity, item) == None <==> |q| == capacity && Live(q) == []
    ensures Add(q, capacity, item).Some? ==>
      Live(Add(q, capacity, item).value) == (if |q| == capacity then Live(q)[1..] else Live(q)) + [item]
  {
    ExtractIsOldest(q);
    LiveConcat(q, [item]);
    LiveConcat(Extract(q).1, [item]);
    assert Live([item]) == [item] + Live([item][1..]);
  }

  lemma LiveFirst<B>(q: seq<Item<B>>)
    requires q != []
    ensures Live(q) == (if q[0].Item? then [q[0]] + Live(q[1..]) else Live(q[1..]))
  {
    WithEmpty(Live(q[1..]));
  }

  lemma DereferenceFirst<B>(q: seq<Item<B>>, mi: Id)
    requires q != []
    ensures
      var r := Dereference(q, mi);
      r != [] && r[0] == Cleared(q[0], mi) && r[1..] == Dereference(q[1..], mi)
  {
    Tail([Cleared(q[0], mi)], Dereference(q[1..], mi));
  }

  /** One more item belongs to the instance or does not. */
  lemma SplitFirst<B>(x: Item<B>, l: seq<Item<B>>, mi: Id)
    requires x.Item?
    ensures NotOf([x] + l, mi) == (if x.instance == mi then NotOf(l, mi) else [x] + NotOf(l, mi))
    ensures Of([x] + l, mi) == (if x.instance == mi then [x] + Of(l, mi) else Of(l, mi))
  {
    Tail([x], l);
    WithEmpty(NotOf(l, mi));
    WithEmpty(Of(l, mi));
  }

  lemma {:induction false} DereferenceDetaches<B>(q: seq<Item<B>>, mi: Id)
    ensures Live(Dereference(q, mi)) == NotOf(Live(q), mi)
    ensures multiset(Live(q)) == multiset(NotOf(Live(q), mi)) + multiset(Of(Live(q), mi))
  {
    if q != [] {
      var x, rest := q[0], q[1..];
      DereferenceDetaches(rest, mi);
      LiveFirst(q);
      DereferenceFirst(q, mi);
      LiveFirst(Dereference(q, mi));
      if x.Item? {
        SplitFirst(x, Live(rest), mi);
      }
    }
  }

  /** A ring whose only instance went away before it was served: the next add fails. */
  lemma AddCanFail<B>(b: B, mi: Id, mj: Id)
    ensures
      var q := Dereference([Item(b, mi)], mi);
      Add(q, 1, Item(b, mj)) == None
  {
    var q := Dereference([Item(b, mi)], mi);
    assert q == [Nothing];
    assert Skip(q) == Skip(q[1..]) == [];
  }

  // ----- whole runs -----

  datatype Event<B> = Queue(item: Item<B>) | Take | Detach(instance: Id)

  /** The ring, and what became of the items that left it. */
  datatype Outcome<B> = Outcome(q: seq<Item<B>>, delivered: seq<Item<B>>, dropped: seq<Item<B>>, detached: seq<Item<B>>)

  function Step<B>(o: Outcome<B>, capacity: nat, e: Event<B>): Option<Outcome<B>> {
    match e
    case Queue(item) =>
      (match Add(o.q, capacity, item)
       case None => None
       case Some(q) => Some(o.(q := q, dropped := if |o.q| < capacity then o.dropped else o.dropped + [Skip(o.q)[0]])))
    case Take =>
      var (got, q) := Extract(o.q);
      Some(o.(q := q, delivered := o.delivered + (if got.Some? then [got.value] else [])))
    case Detach(mi) =>
      Some(o.(q := Dereference(o.q, mi), detached := o.detached + Of(Live(o.q), mi)))
  }

  function Run<B>(o: Outcome<B>, capacity: nat, es: seq<Event<B>>): Option<Outcome<B>>
    decreases |es|
  {
    if es == [] then Some(o)
    else
      match Step(o, capacity, es[0])
      case None => None
      case Some(p) => Run(p, capacity, es[1..])
  }

  function Queued<B>(es: seq<Event<B>>): seq<Item<B>> {
    if es == [] then [] else (if es[0].Queue? then [es[0].item] else []) + Queued(es[1..])
  }

  ghost predicate Proper<B>(es: seq<Event<B>>) {
    forall i :: 0 <= i < |es| && es[i].Queue? ==> es[i].item.Item?
  }

  /** a is b with some items left out. */
  ghost predicate Subsequence<A>(a: seq<A>, b: seq<A>) {
    a == [] || (b != [] && ((a[0] == b[0] && Subsequence(a[1..], b[1..])) || Subsequence(a, b[1..])))
  }

  lemma {:induction false} SubsequenceTail<A>(a: seq<A>, b: seq<A>)
    requires a != [] && Subsequence(a, b)
    ensures Subsequence(a[1..], b)
  {
    if !(a[0] == b[0] && Subsequence(a[1..], b[1..])) {
      SubsequenceTail(a, b[1..]);
    }
  }

  /** Leaving out one more item. */
  lemma {:induction false} SubsequenceWithout<A>(a: seq<A>, x: A, c: seq<A>, b: seq<A>)
    requires Subsequence(a + [x] + c, b)
    ensures Subsequence(a + c, b)
    decreases |b|
  {
    var s := a + [x] + c;
    if a == [] {
      assert s[1..] == c && a + c == c;
      SubsequenceTail(s, b);
    } else {
      assert s[1..] == a[1..] + [x] + c && (a + c)[1..] == a[1..] + c;
      if s[0] == b[0] && Subsequence(s[1..], b[1..]) {
        SubsequenceWithout(a[1..], x, c, b[1..]);
      } else {
        SubsequenceWithout(a, x, c, b[1..]);
      }
    }
  }

  lemma {:induction false} SubsequenceNotOf<B>(a: seq<Item<B>>, q: seq<Item<B>>, mi: Id, b: seq<Item<B>>)
    requires Subsequence(a + q, b)
    ensures Subsequence(a + NotOf(q, mi), b)
    decreases |q|
  {
    if q != [] {
      assert a + q == a + [q[0]] + q[1..];
      if q[0].Item? && q[0].instance == mi {
        SubsequenceWithout(a, q[0], q[1..], b);
        SubsequenceNotOf(a, q[1..], mi, b);
        assert NotOf(q, mi) == NotOf(q[1..], mi);
      } else {
        SubsequenceNotOf(a + [q[0]], q[1..], mi, b);
        assert a + NotOf(q, mi) == a + [q[0]] + NotOf(q[1..], mi);
      }
    }
  }

  lemma {:induction false} SubsequenceAppend<A>(a: seq<A>, b: seq<A>, x: A)
    requires Subsequence(a, b)
    ensures Subsequence(a + [x], b + [x])
    decreases |b|
  {
    if b == [] {
      assert (a + [x])[1..] == [];
    } else {
      assert (b + [x])[1..] == b[1..] + [x];
      if a == [] {
        SubsequenceAppend(a, b[1..], x);
      } else if a[0] == b[0] && Subsequence(a[1..], b[1..]) {
        assert (a + [x])[1..] == a[1..] + [x];
        SubsequenceAppend(a[1..], b[1..], x);
      } else {
        SubsequenceAppend(a, b[1..], x);
      }
    }
  }

  ghost predicate Balanced<A>(delivered: seq<A>, dropped: seq<A>, detached: seq<A>, live: seq<A>, came: seq<A>) {
    multiset(came) == multiset(delivered) + multiset(dropped) + multiset(detached) + multiset(live)
  }

  ghost predicate Accounts<B>(o: Outcome<B>, came: seq<Item<B>>) {
    Subsequence(o.delivered + Live(o.q), came) && Balanced(o.delivered, o.dropped, o.detached, Live(o.q), came)
  }

  lemma First<A>(s: seq<A>)
    requires s != []
    ensures s == [s[0]] + s[1..] && multiset(s) == multiset{s[0]} + multiset(s[1..])
  {
    assert s == [s[0]] + s[1..];
  }

  lemma Appended<A>(d: seq<A>, l: seq<A>, came: seq<A>, x: A)
    requires Subsequence(d + l, came)
    ensures Subsequence(d + (l + [x]), came + [x])
  {
    SubsequenceAppend(d + l, came, x);
    assert d + l + [x] == d + (l + [x]);
  }

  lemma FirstOmitted<A>(d: seq<A>, l: seq<A>, came: seq<A>)
    requires Subsequence(d + l, came) && l != []
    ensures Subsequence(d + l[1..], came)
  {
    assert d + l == d + [l[0]] + l[1..];
    SubsequenceWithout(d, l[0], l[1..], came);
  }

  lemma QueueAccounts<B>(o: Outcome<B>, capacity: nat, item: Item<B>, came: seq<Item<B>>)
    requires Accounts(o, came) && |o.q| <= capacity && item.Item? && Step(o, capacity, Queue(item)).Some?
    ensures Accounts(Step(o, capacity, Queue(item)).value, came + [item])
  {
    var l, d := Live(o.q), o.delivered;
    AddDropsOldest(o.q, capacity, item);
    if |o.q| < capacity {
      Appended(d, l, came, item);
    } else {
      ExtractIsOldest(o.q);
      QueueWhenFull(o, l, item, came, Step(o, capacity, Queue(item)).value);
    }
  }

  lemma QueueWhenFull<B>(o: Outcome<B>, l: seq<Item<B>>, item: Item<B>, came: seq<Item<B>>, p: Outcome<B>)
    requires Accounts(o, came) && l == Live(o.q) && l != [] && p.delivered == o.delivered && p.detached == o.detached
    requires p.dropped == o.dropped + [l[0]] && Live(p.q) == l[1..] + [item]
    ensures Accounts(p, came + [item])
  {
    hide Subsequence, Live;
    First(l);
    FirstOmitted(o.delivered, l, came);
    Appended(o.delivered, l[1..], came, item);
  }

  lemma TakeAccounts<B>(o: Outcome<B>, capacity: nat, came: seq<Item<B>>)
    requires Accounts(o, came)
    ensures Accounts(Step(o, capacity, Take).value, came)
  {
    var l := Live(o.q);
    ExtractIsOldest(o.q);
    if l != [] {
      TakeWhenLive(o, l, came, Step(o, capacity, Take).value);
    } else {
      assert o.delivered + [] == o.delivered;
    }
  }

  lemma TakeWhenLive<B>(o: Outcome<B>, l: seq<Item<B>>, came: seq<Item<B>>, p: Outcome<B>)
    requires Accounts(o, came) && l == Live(o.q) && l != [] && p.dropped == o.dropped && p.detached == o.detached
    requires p.delivered == o.delivered + [l[0]] && Live(p.q) == l[1..]
    ensures Accounts(p, came)
  {
    hide Subsequence, Live;
    First(l);
    assert o.delivered + l == o.delivered + [l[0]] + l[1..];
  }

  lemma DetachAccounts<B>(o: Outcome<B>, capacity: nat, mi: Id, came: seq<Item<B>>)
    requires Accounts(o, came)
    ensures Accounts(Step(o, capacity, Detach(mi)).value, came)
  {
    DereferenceDetaches(o.q, mi);
    SubsequenceNotOf(o.delivered, Live(o.q), mi, came);
  }

  lemma StepAccounts<B>(o: Outcome<B>, capacity: nat, e: Event<B>, came: seq<Item<B>>)
    requires Accounts(o, came) && |o.q| <= capacity && (e.Queue? ==> e.item.Item?)
    ensures Step(o, capacity, e) == None <==> e.Queue? && |o.q| == capacity && Live(o.q) == []
    ensures Step(o, capacity, e).Some? ==>
      && |Step(o, capacity, e).value.q| <= capacity
      && Accounts(Step(o, capacity, e).value, came + if e.Queue? then [e.item] else [])
  {
    hide Accounts;
    match e
    case Queue(item) =>
      AddDropsOldest(o.q, capacity, item);
      if Step(o, capacity, e).Some? {
        QueueAccounts(o, capacity, item, came);
      }
    case Take =>
      TakeAccounts(o, capacity, came);
      assert came + [] == came;
    case Detach(mi) =>
      DetachAccounts(o, capacity, mi, came);
      assert came + [] == came;
  }

  lemma QueuedFirst<B>(came: seq<Item<B>>, es: seq<Event<B>>)
    ensures es == [] ==> came + Queued(es) == came
    ensures es != [] ==> came + (if es[0].Queue? then [es[0].item] else []) + Queued(es[1..]) == came + Queued(es)
  {
    if es != [] {
      Assoc(came, if es[0].Queue? then [es[0].item] else [], Queued(es[1..]));
    } else {
      WithEmpty(came);
    }
  }

  /**
   * Over any run, what was delivered and what still waits is, in order, part of what was queued; and
   * every item queued was delivered, dropped as the oldest, detached with its instance, or still waits.
   */
  lemma {:induction false} RunAccounts<B>(o: Outcome<B>, capacity: nat, es: seq<Event<B>>, came: seq<Item<B>>)
    requires Accounts(o, came) && |o.q| <= capacity && Proper(es)
    ensures Run(o, capacity, es).Some? ==> Accounts(Run(o, capacity, es).value, came + Queued(es))
    decreases |es|
  {
    hide Accounts, Step, Queued;
    if es == [] {
      QueuedFirst(came, es);
    } else {
      var e, rest := es[0], es[1..];
      var came1 := if e.Queue? then [e.item] else [];
      StepAccounts(o, capacity, e, came);
      if Step(o, capacity, e).Some? {
        RunAccounts(Step(o, capacity, e).value, capacity, rest, came + came1);
        QueuedFirst(came, es);
      }
    }
  }

  /** The drops are exactly the adds that found no room. */
  lemma {:induction false} DropsAreFullAdds<B>(o: Outcome<B>, capacity: nat, es: seq<Event<B>>)
    requires Run(o, capacity, es).Some?
    ensures |Run(o, capacity, es).value.dropped| == |o.dropped| + FullAdds(o, capacity, es)
    decreases |es|
  {
    if es != [] {
      var p := Step(o, capacity, es[0]).value;
      DropsAreFullAdds(p, capacity, es[1..]);
    }
  }

  function FullAdds<B>(o: Outcome<B>, capacity: nat, es: seq<Event<B>>): nat
    requires Run(o, capacity, es).Some?
    decreases |es|
  {
    if es == [] then 0
    else
      (if es[0].Queue? && |o.q| >= capacity then 1 else 0)
      + FullAdds(Step(o, capacity, es[0]).value, capacity, es[1..])
  }

  // ----- the output queue limit -----

  /** multi_output_queue_ready; mbuf_len gives the whole length, as bool is int in this code base. */
  predicate OutputQueueReady(deferred: Option<nat>, limit: int) {
    match deferred
    case None => true
    case Some(len) => len <= limit
  }
}
