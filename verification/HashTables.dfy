/**
 * The chained hash table of list.c, with its pointer chains: lookups move the element they find to
 * the front, and iteration marks elements for a later sweep.
 */
module HashTables {
  import opened Bits
  import opened Integers
  import opened Wrappers

  /** A key together with its value under the hash function of the table. */
  datatype Key = Key(id: int, hv: nat)

  class HashElement {
    var value: int
    var key: Option<Key>
    const hashValue: nat
    var next: HashElement?

    constructor (value: int, key: Key, hashValue: nat, next: HashElement?)
      ensures this.value == value && this.key == Some(key) && this.hashValue == hashValue && this.next == next
    {
      this.value, this.key, this.hashValue, this.next := value, Some(key), hashValue, next;
    }

    predicate Is(k: Key, hv: nat)
      reads this`key
    {
      hashValue == hv && key == Some(k)
    }
  }

  /** The chain with element i taken out. */
  function Without<T>(s: seq<T>, i: nat): (r: seq<T>)
    requires i < |s|
    ensures |r| == |s| - 1
  {
    s[..i] + s[i + 1..]
  }

  ghost function Elements<T>(s: seq<T>): set<T> {
    set x | x in s
  }

  lemma ElementsWithout<T>(s: seq<T>, i: nat)
    requires i < |s| && forall j, k :: 0 <= j < k < |s| ==> s[j] != s[k]
    ensures Elements(Without(s, i)) == Elements(s) - {s[i]}
    ensures Elements([s[i]] + Without(s, i)) == Elements(s)
  {
    forall x | x in s && x != s[i] ensures x in Without(s, i) {
      var j :| 0 <= j < |s| && s[j] == x;
      assert x == Without(s, i)[if j < i then j else j - 1];
    }
  }

  lemma ElementsFront<T>(x: T, s: seq<T>)
    ensures Elements([x] + s) == {x} + Elements(s)
  {
  }

  /** struct hash_bucket; chain lists its elements in the order of their next pointers. */
  class HashBucket {
    var list: HashElement?
    ghost var chain: seq<HashElement>
    ghost var members: set<HashElement>

    ghost predicate Valid()
      reads this, members`next
    {
      && members == Elements(chain)
      && list == (if chain == [] then null else chain[0])
      && (forall i {:trigger chain[i].next} :: 0 <= i < |chain| - 1 ==> chain[i].next == chain[i + 1])
      && (chain != [] ==> chain[|chain| - 1].next == null)
      && (forall i, j :: 0 <= i < j < |chain| ==> chain[i] != chain[j])
    }

    constructor ()
      ensures Valid() && chain == [] && members == {}
    {
      list, chain, members := null, [], {};
    }

    lemma NextOf(i: nat)
      requires Valid() && i < |chain|
      ensures chain[i].next == if i + 1 < |chain| then chain[i + 1] else null
    {
    }

    /** The search loop of hash_lookup_fast and hash_remove_fast. */
    method Find(key: Key, hv: nat) returns (prev: HashElement?, he: HashElement?, ghost i: nat)
      requires Valid()
      ensures i <= |chain| && he == (if i < |chain| then chain[i] else null)
      ensures prev == (if i == 0 then null else chain[i - 1])
      ensures forall j :: 0 <= j < i ==> !chain[j].Is(key, hv)
      ensures he != null ==> he in members && he.Is(key, hv)
      ensures prev != null ==> prev in members
      ensures he == null ==> forall x :: x in members ==> !x.Is(key, hv)
    {
      prev, he, i := null, list, 0;
      while he != null
        invariant i <= |chain| && he == (if i < |chain| then chain[i] else null)
        invariant prev == (if i == 0 then null else chain[i - 1])
        invariant forall j :: 0 <= j < i ==> !chain[j].Is(key, hv)
        decreases |chain| - i
      {
        if hv == he.hashValue && he.key == Some(key) {
          return;
        }
        prev, he, i := he, he.next, i + 1;
      }
    }

    method MoveToFront(prev: HashElement, he: HashElement, ghost i: nat)
      requires Valid() && 0 < i < |chain| && he == chain[i] && prev == chain[i - 1]
      modifies this, prev`next, he`next
      ensures Valid() && chain == [he] + Without(old(chain), i)
      ensures members == old(members)
    {
      ElementsWithout(chain, i);
      prev.next := he.next;
      he.next := list;
      list := he;
      chain := [he] + Without(chain, i);
    }

    method Unlink(prev: HashElement?, he: HashElement, ghost i: nat)
      requires Valid() && i < |chain| && he == chain[i] && prev == (if i == 0 then null else chain[i - 1])
      modifies this, (if prev == null then {} else {prev})`next
      ensures Valid() && chain == Without(old(chain), i)
      ensures members == old(members) - {he}
    {
      ElementsWithout(chain, i);
      if prev != null {
        prev.next := he.next;
      } else {
        list := he.next;
      }
      chain, members := Without(chain, i), members - {he};
    }

    method Push(he: HashElement)
      requires Valid() && he !in members && he.next == list
      modifies this
      ensures Valid() && chain == [he] + old(chain) && members == old(members) + {he}
    {
      ElementsFront(he, chain);
      list := he;
      chain, members := [he] + chain, members + {he};
    }

    /** The element at a place of the chain and the one before it are members. */
    lemma Placed(i: nat)
      requires Valid() && i < |chain|
      ensures chain[i] in members && chain[i].next == (if i + 1 < |chain| then chain[i + 1] else null)
      ensures i > 0 ==> chain[i - 1] in members
    {
      NextOf(i);
      assert chain[i] in Elements(chain) && (i > 0 ==> chain[i - 1] in Elements(chain));
    }

    lemma Listed(marked: set<HashElement>)
      requires Valid() && forall j :: 0 <= j < |chain| ==> chain[j] !in marked
      ensures members !! marked
    {
      forall x | x in members ensures x !in marked {
        assert x in Elements(chain);
      }
    }

    /** hash_remove_marked */
    method Sweep(ghost marked: set<HashElement>) returns (removed: nat)
      requires Valid() && marked == set x | x in members && x.key == None
      modifies this, members`next
      ensures Valid() && removed == |marked| && members == old(members) - marked
    {
      var prev: HashElement?, he := null, list;
      ghost var i, gone := 0, {};
      removed := 0;
      while he != null
        invariant i <= |chain| && he == (if i < |chain| then chain[i] else null)
        invariant prev == (if i == 0 then null else chain[i - 1])
        invariant Valid() && removed == |gone| && gone <= marked
        invariant members == old(members) - gone
        invariant forall j :: 0 <= j < i ==> chain[j] !in marked
        decreases |chain| - i
      {
        hide HashBucket.Valid, Elements;
        Placed(i);
        if he.key == None {
          var newhe := he.next;
          Unlink(prev, he, i);
          gone := gone + {he};
          removed := removed + 1;
          he := newhe;
        } else {
          prev, he, i := he, he.next, i + 1;
        }
      }
      Listed(marked);
      assert gone == marked;
    }
  }

  /**
   * What a table stands for: the elements in memory, the marked ones among them, the element of
   * each key and the finite map from keys to values.
   */
  datatype Book = Book(nodes: set<HashElement>, marked: set<HashElement>,
                       elems: map<Key, HashElement>, model: map<Key, int>)

  /** The unmarked elements carry the keys of the map, each under its own hash value. */
  ghost predicate Keyed(b: Book)
    reads b.nodes`key, b.nodes`value
  {
    && (forall x :: x in b.nodes && x.key.Some? ==>
          x.hashValue == x.key.value.hv && x.key.value in b.elems && b.elems[x.key.value] == x)
    && (forall k :: k in b.elems ==> b.elems[k] in b.nodes && b.elems[k].key == Some(k))
    && b.model.Keys == b.elems.Keys && (forall k :: k in b.elems ==> b.model[k] == b.elems[k].value)
    && b.marked <= b.nodes && (forall x :: x in b.nodes ==> (x in b.marked <==> x.key == None))
  }

  function Drop(b: Book, he: HashElement, k: Key): Book {
    Book(b.nodes - {he}, b.marked, b.elems - {k}, b.model - {k})
  }

  function Put(b: Book, he: HashElement, k: Key, value: int): Book {
    Book(b.nodes + {he}, b.marked, b.elems[k := he], b.model[k := value])
  }

  function Swept(b: Book): Book {
    Book(b.nodes - b.marked, {}, b.elems, b.model)
  }

  function Mark(b: Book, he: HashElement, k: Key): Book {
    Book(b.nodes, b.marked + {he}, b.elems - {k}, b.model - {k})
  }

  lemma KeyedDrop(b: Book, he: HashElement)
    requires Keyed(b) && he in b.nodes && he.key.Some?
    ensures Keyed(Drop(b, he, he.key.value))
  {
  }

  lemma KeyedPut(b: Book, he: HashElement, k: Key)
    requires Keyed(b) && he !in b.nodes && he.key == Some(k) && he.hashValue == k.hv && k !in b.model
    ensures Keyed(Put(b, he, k, he.value))
  {
  }

  lemma KeyedSwept(b: Book)
    requires Keyed(b)
    ensures Keyed(Swept(b))
  {
  }

  /** The store of a new value, and what it does to the book. */
  method StoreValue(he: HashElement, value: int, ghost b: Book)
    requires Keyed(b) && he in b.nodes && he.key.Some?
    modifies he`value
    ensures Keyed(b.(model := b.model[he.key.value := value]))
  {
    he.value := value;
  }

  /** The store that marks an element, and what it does to the book. */
  method StoreMark(he: HashElement, ghost b: Book)
    requires Keyed(b) && he in b.nodes && he.key.Some?
    modifies he`key
    ensures he.key == None && Keyed(Mark(b, he, old(he.key.value)))
  {
    he.key := None;
  }

  method MakeBuckets(n: nat) returns (buckets: seq<HashBucket>)
    ensures |buckets| == n && fresh(buckets)
    ensures forall b :: 0 <= b < n ==> buckets[b].Valid() && buckets[b].chain == []
    ensures forall b, c :: 0 <= b < c < n ==> buckets[b] != buckets[c]
  {
    buckets := [];
    for i := 0 to n
      invariant |buckets| == i && fresh(buckets)
      invariant forall b :: 0 <= b < i ==> buckets[b].Valid() && buckets[b].chain == []
      invariant forall b, c :: 0 <= b < c < i ==> buckets[b] != buckets[c]
    {
      var bucket := new HashBucket();
      buckets := buckets + [bucket];
    }
  }

  /** struct hash */
  class HashTable {
    const buckets: seq<HashBucket>
    var nElements: int
    ghost var book: Book

    ghost predicate Distinct() {
      |buckets| > 0 && forall b, c :: 0 <= b < c < |buckets| ==> buckets[b] != buckets[c]
    }

    /** Each bucket is a proper list of elements whose hash values belong there. */
    ghost predicate Chained(nodes: set<HashElement>)
      requires Distinct()
      reads buckets, nodes`next
    {
      forall b :: 0 <= b < |buckets| ==>
        && (forall x :: x in buckets[b].members ==> x in nodes && Remainder(x.hashValue, |buckets|) == b)
        && buckets[b].Valid()
    }

    /** Each element is in the bucket of its hash value. */
    ghost predicate Housed(nodes: set<HashElement>)
      requires Distinct()
      reads buckets
    {
      forall x :: x in nodes ==> x in buckets[Remainder(x.hashValue, |buckets|)].members
    }

    ghost predicate Valid()
      reads this, buckets, book.nodes
    {
      Distinct() && Chained(book.nodes) && Housed(book.nodes) && Keyed(book) && nElements == |book.nodes|
    }

    ghost function BucketOf(key: Key): nat
      requires Distinct()
      reads {}
    {
      Remainder(key.hv, |buckets|)
    }

    /** The code finds the bucket by masking. */
    lemma BucketByMask(key: Key)
      requires Distinct() && PowerOfTwo(|buckets|)
      ensures And(key.hv, |buckets| - 1) == BucketOf(key)
    {
      Masked(key.hv, |buckets|);
    }

    /** hash_init; its power of two is what the masking relies on. */
    constructor (nBuckets: Word32)
      requires 0 < nBuckets <= 0x4000_0000
      ensures Valid() && book == Book({}, {}, map[], map[]) && fresh(buckets)
      ensures PowerOfTwo(|buckets|) && |buckets| >= nBuckets
    {
      var n := AdjustPowerOf2(nBuckets);
      var made := MakeBuckets(n.value);
      buckets := made;
      nElements, book := 0, Book({}, {}, map[], map[]);
    }

    /** The search in the bucket of key. */
    method Search(key: Key) returns (prev: HashElement?, he: HashElement?, ghost i: nat)
      requires Valid()
      ensures he == null <==> key !in book.model
      ensures he != null ==>
        var b := BucketOf(key);
        && key in book.elems && he == book.elems[key] && he in book.nodes && he in buckets[b].members
        && i < |buckets[b].chain| && he == buckets[b].chain[i]
        && prev == (if i == 0 then null else buckets[b].chain[i - 1])
        && (if prev == null then he == buckets[b].list else prev in buckets[b].members && prev in book.nodes)
    {
      prev, he, i := buckets[Remainder(key.hv, |buckets|)].Find(key, key.hv);
    }

    // ----- one bucket relinked: no element is chained in two buckets, so the others are not disturbed -----

    method FrontIn(b: nat, prev: HashElement, he: HashElement, ghost i: nat, ghost nodes: set<HashElement>,
                   ghost known: Book)
      requires Distinct() && Chained(nodes) && Housed(nodes) && Keyed(known) && b < |buckets|
        && 0 < i < |buckets[b].chain|
      requires he == buckets[b].chain[i] && prev == buckets[b].chain[i - 1]
      requires he in buckets[b].members && prev in buckets[b].members
      modifies buckets[b], prev`next, he`next
      ensures Chained(nodes) && Housed(nodes) && Keyed(known) && buckets[b].list == he
    {
      buckets[b].MoveToFront(prev, he, i);
      forall c | 0 <= c < |buckets|
        ensures (forall x :: x in buckets[c].members ==> x in nodes && Remainder(x.hashValue, |buckets|) == c)
          && buckets[c].Valid()
      {
        if c != b {
          assert buckets[c] != buckets[b] && old(buckets[c].Valid());
          assert forall x :: x in buckets[c].members ==> x !in old(buckets[b].members);
        }
      }
    }

    method UnlinkIn(b: nat, prev: HashElement?, he: HashElement, ghost i: nat, ghost nodes: set<HashElement>,
                    ghost known: Book)
      requires Distinct() && Chained(nodes) && Housed(nodes) && Keyed(known) && b < |buckets| && i < |buckets[b].chain|
      requires he == buckets[b].chain[i] && prev == (if i == 0 then null else buckets[b].chain[i - 1])
      requires he in buckets[b].members && (prev != null ==> prev in buckets[b].members)
      modifies buckets[b], (if prev == null then {} else {prev})`next
      ensures Chained(nodes - {he}) && Housed(nodes - {he}) && Keyed(known)
    {
      buckets[b].Unlink(prev, he, i);
      forall c | 0 <= c < |buckets|
        ensures (forall x :: x in buckets[c].members ==> x in nodes - {he} && Remainder(x.hashValue, |buckets|) == c)
          && buckets[c].Valid()
      {
        if c != b {
          assert buckets[c] != buckets[b] && old(buckets[c].Valid());
          assert forall x :: x in buckets[c].members ==> x !in old(buckets[b].members);
        }
      }
    }

    method PushIn(b: nat, he: HashElement, ghost nodes: set<HashElement>, ghost known: Book)
      requires Distinct() && Chained(nodes) && Housed(nodes) && Keyed(known) && b < |buckets|
      requires he !in nodes && Remainder(he.hashValue, |buckets|) == b && he.next == buckets[b].list
      modifies buckets[b]
      ensures Chained(nodes + {he}) && Housed(nodes + {he}) && Keyed(known)
    {
      buckets[b].Push(he);
      forall c | 0 <= c < |buckets|
        ensures (forall x :: x in buckets[c].members ==> x in nodes + {he} && Remainder(x.hashValue, |buckets|) == c)
          && buckets[c].Valid()
      {
        if c != b {
          assert buckets[c] != buckets[b] && old(buckets[c].Valid());
          assert forall x :: x in buckets[c].members ==> x !in old(buckets[b].members);
        }
      }
    }

    method SweepIn(b: nat, ghost nodes: set<HashElement>, ghost marked: set<HashElement>, ghost known: Book)
      returns (removed: nat)
      requires Distinct() && Chained(nodes) && Housed(nodes) && Keyed(known) && b < |buckets|
      requires marked == set x | x in buckets[b].members && x.key == None
      modifies buckets[b], buckets[b].members`next
      ensures Chained(nodes - marked) && Housed(nodes - marked) && Keyed(known) && removed == |marked|
    {
      removed := buckets[b].Sweep(marked);
      forall c | 0 <= c < |buckets|
        ensures (forall x :: x in buckets[c].members ==> x in nodes - marked && Remainder(x.hashValue, |buckets|) == c)
          && buckets[c].Valid()
      {
        if c != b {
          assert buckets[c] != buckets[b] && old(buckets[c].Valid());
          assert forall x :: x in buckets[c].members ==> x !in old(buckets[b].members);
        }
      }
    }

    /** hash_lookup_fast: the element is found exactly when its key is in the map, and is first in its bucket. */
    method LookupFast(key: Key) returns (he: HashElement?)
      requires Valid()
      modifies buckets, book.nodes`next
      ensures Valid()
      ensures he == null <==> key !in book.model
      ensures he != null ==> key in book.elems && he == book.elems[key] && he == buckets[BucketOf(key)].list
    {
      hide Keyed, HashTable.Chained, HashTable.Housed;
      var prev;
      ghost var i;
      prev, he, i := Search(key);
      if he != null && prev != null {
        FrontIn(Remainder(key.hv, |buckets|), prev, he, i, book.nodes, book);
      }
    }

    /** hash_remove_fast */
    method RemoveFast(key: Key) returns (ok: bool)
      requires Valid()
      modifies this, buckets, book.nodes`next
      ensures Valid() && book.marked == old(book.marked) && book.model == old(book.model) - {key}
      ensures ok <==> key in old(book.model)
    {
      var prev, he;
      ghost var i;
      prev, he, i := Search(key);
      ok := he != null;
      if he != null {
        Detach(Remainder(key.hv, |buckets|), prev, he, key, i);
      }
    }

    /** The counters and the book brought up to date with the chains. */
    method Commit(ghost next: Book, count: int)
      requires Distinct() && Chained(next.nodes) && Housed(next.nodes) && Keyed(next) && count == |next.nodes|
      modifies this
      ensures Valid() && book == next
    {
      nElements := count;
      book := next;
    }

    method Detach(b: nat, prev: HashElement?, he: HashElement, key: Key, ghost i: nat)
      requires Valid() && b < |buckets| && i < |buckets[b].chain| && he == buckets[b].chain[i] && he.key == Some(key)
      requires prev == (if i == 0 then null else buckets[b].chain[i - 1])
      requires he in book.nodes && he in buckets[b].members && (prev != null ==> prev in buckets[b].members)
      modifies this, buckets[b], (if prev == null then {} else {prev})`next
      ensures Valid() && book == Drop(old(book), he, key)
    {
      hide HashTable.Chained, HashTable.Housed;
      UnlinkIn(b, prev, he, i, book.nodes, book);
      KeyedDrop(book, he);
      Commit(Drop(book, he, key), nElements - 1);
    }

    /** hash_add_fast: the caller knows that the key is new. */
    method AddFast(key: Key, value: int)
      requires Valid() && key !in book.model
      modifies this, buckets[Remainder(key.hv, |buckets|)]
      ensures Valid() && book.marked == old(book.marked) && book.model == old(book.model)[key := value]
      ensures fresh(book.nodes - old(book.nodes))
    {
      hide Keyed, HashTable.Chained, HashTable.Housed;
      var b := Remainder(key.hv, |buckets|);
      var he := new HashElement(value, key, key.hv, buckets[b].list);
      PushIn(b, he, book.nodes, book);
      KeyedPut(book, he, key);
      Commit(Put(book, he, key, value), nElements + 1);
    }

    /** hash_add: an existing entry is kept unless replace is set. */
    method Add(key: Key, value: int, replace: bool) returns (ok: bool)
      requires Valid()
      modifies this, buckets, book.nodes
      ensures Valid() && book.marked == old(book.marked) && fresh(book.nodes - old(book.nodes))
      ensures ok <==> replace || key !in old(book.model)
      ensures book.model == if ok then old(book.model)[key := value] else old(book.model)
    {
      hide HashTable.Chained, HashTable.Housed;
      var he := LookupFast(key);
      if he != null {
        if replace {
          SetValue(he, key, value);
        }
        return replace;
      }
      AddFast(key, value);
      return true;
    }

    method SetValue(he: HashElement, key: Key, value: int)
      requires Valid() && key in book.elems && he == book.elems[key]
      modifies this, he`value
      ensures Valid() && book == old(book).(model := old(book.model)[key := value])
    {
      hide HashTable.Chained, HashTable.Housed;
      StoreValue(he, value, book);
      Commit(book.(model := book.model[key := value]), nElements);
    }

    /** The sweep of a bucket that holds every marked element. */
    method SweepBucket(b: nat)
      requires Valid() && b < |buckets| && book.marked <= buckets[b].members
      modifies this, buckets[b], buckets[b].members`next
      ensures Valid() && book == Swept(old(book))
    {
      var removed := SweepIn(b, book.nodes, book.marked, book);
      KeyedSwept(book);
      Commit(Swept(book), nElements - removed);
    }

    /** hash_iterator_delete_element: the element leaves the map at once, and memory at the next sweep. */
    method MarkElement(he: HashElement)
      requires Valid() && he in book.nodes && he.key.Some?
      modifies this, he`key
      ensures Valid() && book == Mark(old(book), he, old(he.key.value))
    {
      hide Keyed, HashTable.Chained, HashTable.Housed;
      ghost var k := he.key.value;
      StoreMark(he, book);
      Commit(Mark(book, he, k), nElements);
    }

    /** What one bucket of a proper table holds. */
    lemma Look(b: nat)
      requires Valid() && b < |buckets|
      ensures
        var c := buckets[b].chain;
        && buckets[b].members == Elements(c) && buckets[b].members <= book.nodes
        && buckets[b].list == if c == [] then null else c[0]
    {
    }

    /** With nothing waiting for a sweep, n_elements is the size of the map. */
    lemma SizeIsElements()
      requires Valid() && book.marked == {}
      ensures nElements == |book.model|
    {
      OnePerKey(book.nodes, book.elems);
      assert book.model.Keys == book.elems.Keys;
    }
  }

  ghost function Chains(hash: HashTable): seq<seq<HashElement>>
    reads hash.buckets
  {
    seq(|hash.buckets|, (b: int) requires 0 <= b < |hash.buckets| reads hash.buckets => hash.buckets[b].chain)
  }

  lemma {:induction false} OnePerKey(nodes: set<HashElement>, elems: map<Key, HashElement>)
    requires forall x :: x in nodes ==> x.key.Some? && x.key.value in elems && elems[x.key.value] == x
    requires forall k :: k in elems ==> elems[k] in nodes && elems[k].key == Some(k)
    ensures |nodes| == |elems|
    decreases nodes
  {
    if nodes == {} {
      assert elems.Keys == {};
    } else {
      var x :| x in nodes;
      OnePerKey(nodes - {x}, elems - {x.key.value});
      assert (elems - {x.key.value}).Keys == elems.Keys - {x.key.value};
    }
  }
}
