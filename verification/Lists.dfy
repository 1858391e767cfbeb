/** The members of a list, and a list in two parts. */
module Lists {
  ghost function Members<T>(q: seq<T>): set<T> {
    set x | x in q
  }

  lemma Split<T>(q: seq<T>, i: nat)
    requires i <= |q|
    ensures Members(q) == Members(q[..i]) + Members(q[i..])
  {
    assert q == q[..i] + q[i..];
  }

  /** Inserting an element, and erasing one that occurs once. */
  lemma InsertedMembers<T>(q: seq<T>, i: nat, x: T)
    requires i <= |q|
    ensures Members(q[..i] + [x] + q[i..]) == Members(q) + {x}
  {
    Split(q, i);
  }

  lemma ErasedMembers<T>(q: seq<T>, i: nat)
    requires i < |q| && forall k :: 0 <= k < |q| && k != i ==> q[k] != q[i]
    ensures Members(q[..i] + q[i + 1..]) == Members(q) - {q[i]}
  {
    assert q == q[..i] + [q[i]] + q[i + 1..];
  }
}
