/** Facts about sequences and their multisets shared by the other modules. */
module SeqFacts {

  /** Removing the element at j from a sequence removes one copy of it from its multiset. */
  lemma MultisetRemoveAt<T>(a: seq<T>, j: nat)
    requires j < |a|
    ensures a == a[..j] + [a[j]] + a[j + 1..]
    ensures multiset(a[..j] + a[j + 1..]) == multiset(a) - multiset{a[j]}
  {
    assert a == a[..j] + [a[j]] + a[j + 1..];
  }

  /** An element of the multiset of a sequence sits at some index of it. */
  lemma IndexOfMember<T>(a: seq<T>, x: T) returns (j: nat)
    requires x in multiset(a)
    ensures j < |a| && a[j] == x
  {
    assert x in a;
    j :| 0 <= j < |a| && a[j] == x;
  }
}
