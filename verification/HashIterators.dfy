/** Iteration over a range of buckets (list.c): every element comes once, and marked ones are swept behind it. */
module HashIterators {
  import opened Bits
  import opened HashTables

  /** The chains from bucket `from` up to bucket `to`, one after the other. */
  function Flat<T>(plan: seq<seq<T>>, from: nat, to: nat): seq<T>
    requires to <= |plan|
    decreases if from < to then to - from else 0
  {
    if from >= to then [] else plan[from] + Flat(plan, from + 1, to)
  }

  /** Adjacent ranges yield together what one range over both yields. */
  lemma {:induction false} FlatSplits<T>(plan: seq<seq<T>>, a: nat, b: nat, c: nat)
    requires a <= b <= c <= |plan|
    ensures Flat(plan, a, b) + Flat(plan, b, c) == Flat(plan, a, c)
    decreases b - a
  {
    if a < b {
      FlatSplits(plan, a + 1, b, c);
    }
  }

  ghost predicate NoDuplicates<T>(s: seq<T>) {
    forall i, j :: 0 <= i < j < |s| ==> s[i] != s[j]
  }

  lemma NoDuplicatesConcat<T>(a: seq<T>, b: seq<T>)
    requires NoDuplicates(a) && NoDuplicates(b) && forall x :: x in a ==> x !in b
    ensures NoDuplicates(a + b)
  {
    forall i, j | 0 <= i < j < |a + b| ensures (a + b)[i] != (a + b)[j] {
      if i < |a| <= j {
        assert a[i] in a && b[j - |a|] in b;
      }
    }
  }

  /** The buckets of a range hold each of its elements exactly once. */
  lemma {:induction false} FlatOnce(hash: HashTable, from: nat, to: nat)
    requires hash.Valid() && to <= |hash.buckets|
    ensures NoDuplicates(Flat(Chains(hash), from, to))
    ensures forall i :: 0 <= i < |Flat(Chains(hash), from, to)| ==>
      Flat(Chains(hash), from, to)[i] in hash.book.nodes
      && from <= Remainder(Flat(Chains(hash), from, to)[i].hashValue, |hash.buckets|) < to
    ensures forall x :: x in hash.book.nodes && from <= Remainder(x.hashValue, |hash.buckets|) < to ==>
      x in Flat(Chains(hash), from, to)
    decreases if from < to then to - from else 0
  {
    if from < to {
      FlatOnce(hash, from + 1, to);
      assert hash.buckets[from].Valid();
      var c := hash.buckets[from].chain;
      assert forall x :: x in c <==> x in Elements(c);
      assert forall x :: x in c ==> Remainder(x.hashValue, |hash.buckets|) == from;
      NoDuplicatesConcat(c, Flat(Chains(hash), from + 1, to));
    }
  }

  /** struct hash_iterator: a value that its caller owns, given to each call and returned by it. */
  datatype Cursor = Cursor(end: nat, bucketIndex: int, bucket: int,
                           elem: HashElement?, last: HashElement?, bucketMarked: bool)

  /** The chains the walk set out on, the place of elem in its chain and all the elements still to come. */
  datatype Walk = Walk(plan: seq<seq<HashElement>>, pos: nat, todo: seq<HashElement>)

  /** What the elements still to come are, in terms of the chains and of the cursor. */
  ghost predicate Ahead(chains: seq<seq<HashElement>>, at: Cursor, w: Walk)
  {
    && |w.plan| == |chains| && at.end <= |w.plan| && -1 <= at.bucketIndex
    && (forall c :: at.bucketIndex < c < at.end ==> chains[c] == w.plan[c])
    && (if at.elem == null then w.todo == Flat(w.plan, at.bucketIndex + 1, at.end)
        else
          && 0 <= at.bucket == at.bucketIndex < at.end && chains[at.bucket] == w.plan[at.bucket]
          && w.pos < |w.plan[at.bucket]| && at.elem == w.plan[at.bucket][w.pos]
          && w.todo == w.plan[at.bucket][w.pos..] + Flat(w.plan, at.bucketIndex + 1, at.end))
  }

  /** Only the locked bucket, which is behind or at the cursor, holds marked elements; none is still to come. */
  ghost predicate Clean(chains: seq<seq<HashElement>>, book: Book, at: Cursor, w: Walk) {
    && NoDuplicates(w.todo) && at.last !in w.todo
    && (forall i :: 0 <= i < |w.todo| ==> w.todo[i] in book.nodes && w.todo[i] !in book.marked)
    && (at.bucket == -1 || 0 <= at.bucket <= at.bucketIndex) && at.bucket < |chains|
    && (at.last != null ==> at.bucket >= 0 && at.last in chains[at.bucket])
    && (if at.bucketMarked && at.bucket >= 0 then book.marked <= Elements(chains[at.bucket]) else book.marked == {})
  }

  /** The table and the walk are in order: an equation, which is proved and used as one fact. */
  ghost predicate Going(hash: HashTable, at: Cursor, w: Walk)
    reads hash, hash.buckets, hash.book.nodes
  {
    (hash.Valid() && Ahead(Chains(hash), at, w) && Clean(Chains(hash), hash.book, at, w)) == true
  }

  /** hash_iterator_init_range, on a table without marked elements. */
  method InitRange(hash: HashTable, start: nat, stop: nat) returns (at: Cursor, ghost w: Walk)
    requires hash.Valid() && hash.book.marked == {} && start <= stop && start <= |hash.buckets|
    ensures Going(hash, at, w)
    ensures at.end == (if stop > |hash.buckets| then |hash.buckets| else stop)
    ensures w.todo == Flat(Chains(hash), start, at.end)
  {
    hide Keyed, HashTable.Valid;
    var end := if stop > |hash.buckets| then |hash.buckets| else stop;
    ghost var todo := Flat(Chains(hash), start, end);
    FlatOnce(hash, start, end);
    at := Cursor(end, start - 1, -1, null, null, false);
    w := Walk(Chains(hash), 0, todo);
  }

  lemma Released(before: seq<seq<HashElement>>, after: seq<seq<HashElement>>, book: Book, at: Cursor, w: Walk)
    requires Ahead(before, at, w) && Clean(before, book, at, w) && at.elem == null && |after| == |before|
    requires forall c :: 0 <= c < |before| && c != at.bucket ==> after[c] == before[c]
    ensures
      var next := at.(bucket := -1, last := null, bucketMarked := false);
      Ahead(after, next, w) && Clean(after, Swept(book), next, w)
  {
  }

  /** The sweep of one bucket leaves the other chains as they are. */
  method SweepAt(hash: HashTable, b: nat)
    requires hash.Valid() && b < |hash.buckets| && hash.book.marked <= Elements(Chains(hash)[b])
    modifies hash, hash.buckets[b], hash.book.nodes`next
    ensures hash.Valid() && hash.book == Swept(old(hash.book))
    ensures forall c :: 0 <= c < |hash.buckets| && c != b ==> Chains(hash)[c] == old(Chains(hash))[c]
  {
    hide Keyed, HashTable.Chained, HashTable.Housed;
    hash.Look(b);
    hash.SweepBucket(b);
  }

  /** hash_iterator_unlock */
  method Unlock(hash: HashTable, at: Cursor, ghost w: Walk) returns (next: Cursor)
    requires Going(hash, at, w) && at.elem == null
    modifies hash, hash.buckets, hash.book.nodes`next
    ensures hash.book == Swept(old(hash.book))
    ensures next == at.(bucket := -1, last := null, bucketMarked := false)
    ensures Going(hash, next, w)
  {
    ghost var chains, book := Chains(hash), hash.book;
    next := at.(bucket := -1, last := null, bucketMarked := false);
    if at.bucket >= 0 && at.bucketMarked {
      SweepAt(hash, at.bucket);
    } else {
      assert hash.book.nodes - {} == hash.book.nodes;
    }
    Released(chains, Chains(hash), book, at, w);
  }

  lemma WalkStep<T>(chain: seq<T>, pos: nat, tail: seq<T>)
    requires pos < |chain| && NoDuplicates(chain[pos..] + tail)
    ensures
      var todo := chain[pos..] + tail;
      && todo[0] == chain[pos] && todo[0] !in todo[1..] && NoDuplicates(todo[1..])
      && todo[1..] == (if pos + 1 < |chain| then chain[pos + 1..] + tail else tail)
  {
  }

  /** The part of hash_iterator_next that stays in its bucket. */
  method Advance(hash: HashTable, at: Cursor, ghost w: Walk) returns (ret: HashElement, next: Cursor, ghost v: Walk)
    requires Going(hash, at, w) && at.elem != null
    ensures v == Walk(w.plan, w.pos + 1, w.todo[1..]) && w.todo != [] && ret == w.todo[0]
    ensures next == at.(last := ret, elem := ret.next)
    ensures Going(hash, next, v)
  {
    hash.buckets[at.bucket].NextOf(w.pos);
    ret := at.elem;
    next := at.(last := ret, elem := ret.next);
    v := Walk(w.plan, w.pos + 1, w.todo[1..]);
    Stepped(Chains(hash), hash.book, at, next, w, v);
  }

  lemma Stepped(chains: seq<seq<HashElement>>, book: Book, at: Cursor, next: Cursor, w: Walk, v: Walk)
    requires Ahead(chains, at, w) && Clean(chains, book, at, w) && at.elem != null && w.todo != []
    requires next == at.(last := at.elem, elem := next.elem) && v == Walk(w.plan, w.pos + 1, w.todo[1..])
    requires var chain := w.plan[at.bucket]; next.elem == if w.pos + 1 < |chain| then chain[w.pos + 1] else null
    ensures at.elem == w.todo[0] && Ahead(chains, next, v) && Clean(chains, book, next, v)
  {
    WalkStep(w.plan[at.bucket], w.pos, Flat(w.plan, at.bucketIndex + 1, at.end));
  }

  lemma Entered(chains: seq<seq<HashElement>>, book: Book, at: Cursor, next: Cursor, w: Walk)
    requires Ahead(chains, at, w) && Clean(chains, book, at, w) && at.elem == null && at.bucketIndex + 1 < at.end
    requires at.bucket == -1 && at.last == null && !at.bucketMarked
    requires
      var b := at.bucketIndex + 1;
      && (next.elem == if chains[b] == [] then null else chains[b][0])
      && next == at.(bucketIndex := b, bucket := if next.elem != null then b else -1, elem := next.elem)
    ensures Ahead(chains, next, w.(pos := 0)) && Clean(chains, book, next, w.(pos := 0))
  {
  }

  /** One turn of the loop that looks for a bucket with elements in it. */
  method TryBucket(hash: HashTable, at: Cursor, ghost w: Walk) returns (next: Cursor, ghost v: Walk)
    requires Going(hash, at, w) && at.elem == null && at.bucketIndex + 1 < at.end
    modifies hash, hash.buckets, hash.book.nodes`next
    ensures Going(hash, next, v)
    ensures hash.book == Swept(old(hash.book)) && v == w.(pos := 0)
    ensures next.end == at.end && next.bucketIndex == at.bucketIndex + 1
  {
    hide Keyed, HashTable.Chained, HashTable.Housed;
    var free := Unlock(hash, at, w);
    var b := free.bucketIndex + 1;
    hash.Look(b);
    var head := hash.buckets[b].list;
    next := free.(bucketIndex := b, bucket := if head != null then b else -1, elem := head);
    v := w.(pos := 0);
    Entered(Chains(hash), hash.book, free, next, w);
  }

  lemma Exhausted(hash: HashTable, at: Cursor, w: Walk)
    requires Going(hash, at, w) && at.elem == null && at.bucketIndex + 1 >= at.end
    ensures w.todo == [] && Going(hash, at.(bucketIndex := at.bucketIndex + 1), w)
  {
  }

  lemma Unmarked(hash: HashTable, at: Cursor, w: Walk)
    requires Going(hash, at, w) && w.todo != []
    ensures w.todo[0] in hash.book.nodes && w.todo[0] !in hash.book.marked
  {
  }

  lemma SweptTwice(b: Book)
    ensures Swept(Swept(b)) == Swept(b) && Swept(b).nodes <= b.nodes
    ensures Swept(b).nodes == b.nodes - b.marked && Swept(b).marked == {}
  {
  }

  /** hash_iterator_next: the next element still to come, or NULL after the last. */
  method Next(hash: HashTable, at: Cursor, ghost w: Walk) returns (ret: HashElement?, next: Cursor, ghost v: Walk)
    requires Going(hash, at, w)
    modifies hash, hash.buckets, hash.book.nodes`next
    ensures Going(hash, next, v)
    ensures hash.book == old(hash.book) || hash.book == Swept(old(hash.book))
    ensures ret == null <==> w.todo == []
    ensures ret == null ==> v.todo == [] && next.elem == null
    ensures ret != null ==> ret == w.todo[0] && v.todo == w.todo[1..] && next.last == ret
    ensures ret != null ==> ret in hash.book.nodes && ret !in hash.book.marked
  {
    hide *;
    if w.todo != [] {
      Unmarked(hash, at, w);
    }
    next, v := at, w;
    while next.elem == null
      invariant Going(hash, next, v)
      invariant v.todo == w.todo && next.end == at.end
      invariant hash.book == old(hash.book) || hash.book == Swept(old(hash.book))
      invariant hash.book.nodes <= old(hash.book.nodes)
      invariant w.todo != [] ==> w.todo[0] in hash.book.nodes && w.todo[0] !in hash.book.marked
      decreases at.end - next.bucketIndex, next.elem == null
    {
      SweptTwice(old(hash.book));
      if next.bucketIndex + 1 >= next.end {
        Exhausted(hash, next, v);
        next, ret := next.(bucketIndex := next.bucketIndex + 1), null;
        return;
      }
      next, v := TryBucket(hash, next, v);
    }
    ret, next, v := Advance(hash, next, v);
  }

  /** hash_iterator_delete_element, on the element that was returned last. */
  method DeleteElement(hash: HashTable, at: Cursor, ghost w: Walk) returns (next: Cursor)
    requires Going(hash, at, w)
    requires at.last != null && at.last in hash.book.nodes && at.last.key.Some?
    modifies hash, at.last`key
    ensures next == at.(bucketMarked := true)
    ensures Going(hash, next, w)
    ensures hash.book == Mark(old(hash.book), at.last, old(at.last.key.value))
  {
    hide Keyed, HashTable.Chained, HashTable.Housed;
    ghost var chains, book := Chains(hash), hash.book;
    next := at.(bucketMarked := true);
    MarkKeeps(chains, book, at, w, at.last.key.value);
    hash.MarkElement(at.last);
    assert Chains(hash) == chains;
  }

  lemma MarkKeeps(chains: seq<seq<HashElement>>, book: Book, at: Cursor, w: Walk, k: Key)
    requires Ahead(chains, at, w) && Clean(chains, book, at, w) && at.last != null
    ensures Ahead(chains, at.(bucketMarked := true), w)
      && Clean(chains, Mark(book, at.last, k), at.(bucketMarked := true), w)
  {
  }

  // ----- hash_remove_by_value -----

  /** The entries of m whose value is another one. */
  function Others(m: map<Key, int>, value: int): map<Key, int> {
    map k | k in m && m[k] != value :: m[k]
  }

  /** What is left of the book b0 once the elements with this value are gone, but for those still to come. */
  ghost predicate Filtering(b0: Book, b: Book, todo: seq<HashElement>, value: int)
    requires b0.model.Keys == b0.elems.Keys
  {
    && b.model.Keys == b.elems.Keys <= b0.elems.Keys
    && (forall k :: k in b.elems ==> b.elems[k] == b0.elems[k] && b.model[k] == b0.model[k])
    && (forall k :: k in b0.elems ==> (k in b.elems <==> b0.elems[k] in todo || b0.model[k] != value))
    && (forall k, l :: k in b0.elems && l in b0.elems && b0.elems[k] == b0.elems[l] ==> k == l)
  }

  lemma FilterStep(b0: Book, b: Book, todo: seq<HashElement>, value: int, k: Key)
    requires b0.model.Keys == b0.elems.Keys && Filtering(b0, b, todo, value)
    requires todo != [] && todo[0] !in todo[1..] && k in b.elems && b.elems[k] == todo[0]
    ensures b.model[k] == value ==> Filtering(b0, Mark(b, todo[0], k), todo[1..], value)
    ensures b.model[k] != value ==> Filtering(b0, b, todo[1..], value)
    ensures Mark(b, todo[0], k).nodes == b.nodes
  {
    forall l | l in b0.elems ensures b0.elems[l] in todo <==> b0.elems[l] in todo[1..] || l == k {
      assert todo == [todo[0]] + todo[1..];
    }
  }

  /** What an unmarked element says about the book. */
  lemma Live(hash: HashTable, he: HashElement)
    requires hash.Valid() && he in hash.book.nodes && he !in hash.book.marked
    ensures he.key.Some? && he.key.value in hash.book.elems && hash.book.elems[he.key.value] == he
    ensures he.key.value in hash.book.model && hash.book.model[he.key.value] == he.value
  {
  }

  /** Before the first step all the elements are still to come. */
  lemma FilterStart(hash: HashTable, value: int)
    requires hash.Valid()
    ensures hash.book.model.Keys == hash.book.elems.Keys
    ensures Filtering(hash.book, hash.book, Flat(Chains(hash), 0, |hash.buckets|), value)
  {
    FlatOnce(hash, 0, |hash.buckets|);
  }

  lemma Opened(hash: HashTable, at: Cursor, w: Walk)
    requires Going(hash, at, w)
    ensures hash.Valid() && (w.todo != [] ==> w.todo[0] !in w.todo[1..])
  {
  }

  lemma FilterDone(b0: Book, b: Book, value: int)
    requires b0.model.Keys == b0.elems.Keys && Filtering(b0, b, [], value)
    ensures Swept(b).marked == {} && Swept(b).model == Others(b0.model, value)
  {
  }

  lemma FilterSwept(b0: Book, b: Book, todo: seq<HashElement>, value: int)
    requires b0.model.Keys == b0.elems.Keys && Filtering(b0, b, todo, value)
    ensures Filtering(b0, Swept(b), todo, value) && Swept(b).nodes <= b.nodes
  {
  }

  /** hash_remove_by_value: the entries with another value stay, and nothing waits for a sweep. */
  method RemoveByValue(hash: HashTable, value: int)
    requires hash.Valid() && hash.book.marked == {}
    modifies hash, hash.buckets, hash.book.nodes
    ensures hash.Valid() && hash.book.marked == {}
    ensures hash.book.model == Others(old(hash.book.model), value)
  {
    hide *;
    ghost var b0 := hash.book;
    FilterStart(hash, value);
    var at;
    ghost var w;
    at, w := InitRange(hash, 0, |hash.buckets|);
    ghost var todo := w.todo;
    Opened(hash, at, w);
    FilterSwept(b0, b0, todo, value);
    var he;
    he, at, w := Next(hash, at, w);
    while he != null
      invariant Going(hash, at, w) && hash.book.nodes <= b0.nodes
      invariant he == null ==> todo == [] && at.elem == null
      invariant he != null ==> todo != [] && he == todo[0] == at.last && w.todo == todo[1..] && he !in w.todo
      invariant he != null ==> he in hash.book.nodes && he !in hash.book.marked
      invariant Filtering(b0, hash.book, todo, value)
      decreases |todo|
    {
      Opened(hash, at, w);
      Live(hash, he);
      FilterStep(b0, hash.book, todo, value, he.key.value);
      if he.value == value {
        at := DeleteElement(hash, at, w);
      }
      todo := w.todo;
      Opened(hash, at, w);
      FilterSwept(b0, hash.book, todo, value);
      he, at, w := Next(hash, at, w);
    }
    FilterDone(b0, hash.book, value);
    at := Unlock(hash, at, w);
    Opened(hash, at, w);
  }
}
