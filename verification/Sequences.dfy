/** Facts about concatenation that proofs by recursion need again and again. */
module Sequences {
  lemma Assoc<T>(a: seq<T>, b: seq<T>, c: seq<T>)
    ensures a + b + c == a + (b + c)
  {
  }

  lemma WithEmpty<T>(a: seq<T>)
    ensures a + [] == a == [] + a
  {
  }

  lemma Tail<T>(a: seq<T>, b: seq<T>)
    requires a != []
    ensures (a + b)[0] == a[0] && (a + b)[1..] == a[1..] + b
  {
  }

  /** A sequence cut after its i-th element, in a longer one. */
  lemma Cut<T>(a: seq<T>, b: seq<T>, i: nat)
    requires i < |a|
    ensures (a + b)[..i] == a[..i] && (a + b)[i + 1..] == a[i + 1..] + b
  {
  }

  lemma Between<T>(a: seq<T>, i: nat, j: nat)
    requires i <= j <= |a|
    ensures a[i..][..j - i] == a[i..j] && a[i..][j - i..] == a[j..]
  {
  }

  lemma Join<T>(a: seq<T>, i: nat, j: nat)
    requires i <= j <= |a|
    ensures a[i..j] + a[j..] == a[i..]
  {
  }
}
