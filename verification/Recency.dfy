/**
  Recency orders: lists of distinct numbers with the most recently used one first.
  The part cache keeps one of slots, and a run of it one of indices.
 */
module Recency {

  ghost predicate Distinct(q: seq<nat>) {
    forall a, b :: 0 <= a < b < |q| ==> q[a] != q[b]
  }

  /** The position of the first `x` in `q`. */
  function IndexOf(q: seq<nat>, x: nat): (k: nat)
    requires x in q
    ensures k < |q| && q[k] == x && x !in q[..k]
  {
    if q[0] == x then 0 else
      var k := 1 + IndexOf(q[1..], x);
      assert q[..k] == [q[0]] + q[1..][..k - 1];
      k
  }

  /** `q` without its k-th member. */
  function Dropped(q: seq<nat>, k: nat): seq<nat>
    requires k < |q|
  {
    q[..k] + q[k + 1..]
  }

  /** `q` with its first `x` unlinked, as `std::list::erase` does. */
  function Without(q: seq<nat>, x: nat): seq<nat> {
    if x in q then Dropped(q, IndexOf(q, x)) else q
  }

  /** `x` moved, or added, to the front. */
  function Promote(q: seq<nat>, x: nat): seq<nat> {
    [x] + Without(q, x)
  }

  lemma DroppedMembers(q: seq<nat>, k: nat)
    requires Distinct(q) && k < |q|
    ensures Distinct(Dropped(q, k))
    ensures forall y :: y in Dropped(q, k) <==> y in q && y != q[k]
  {
    var w := Dropped(q, k);
    forall y ensures y in w <==> y in q && y != q[k] {
      if y in q && y != q[k] {
        var j := IndexOf(q, y);
        assert w[if j < k then j else j - 1] == y;
      }
      if y in w {
        var j := IndexOf(w, y);
        assert q[if j < k then j else j + 1] == y;
      }
    }
  }

  /** In a list without repetitions the position of a member is unique. */
  lemma WithoutAt(q: seq<nat>, k: nat)
    requires Distinct(q) && k < |q|
    ensures Without(q, q[k]) == Dropped(q, k)
  {
    assert IndexOf(q, q[k]) == k;
  }

  lemma WithoutAbsent(q: seq<nat>, x: nat)
    requires x !in q
    ensures Without(q, x) == q
  {
  }

  lemma WithoutMembers(q: seq<nat>, x: nat)
    requires Distinct(q)
    ensures Distinct(Without(q, x))
    ensures forall y :: y in Without(q, x) <==> y in q && y != x
    ensures |Without(q, x)| == if x in q then |q| - 1 else |q|
  {
    if x in q {
      var k := IndexOf(q, x);
      DroppedMembers(q, k);
    }
  }

  lemma PromoteMembers(q: seq<nat>, x: nat)
    requires Distinct(q)
    ensures Distinct(Promote(q, x))
    ensures forall y :: y in Promote(q, x) <==> y == x || y in q
    ensures |Promote(q, x)| == if x in q then |q| else |q| + 1
  {
    hide Without;
    WithoutMembers(q, x);
  }

  /** A list of distinct numbers below `n` has at most `n` of them, and `n` of them only if all occur. */
  lemma {:induction false} Pigeonhole(q: seq<nat>, n: nat)
    requires Distinct(q) && forall y :: y in q ==> y < n
    ensures |q| <= n
    ensures |q| == n ==> forall y: nat :: y < n ==> y in q
    decreases n
  {
    if q != [] {
      assert q[0] in q;
      var w := Without(q, n - 1);
      WithoutMembers(q, n - 1);
      Pigeonhole(w, n - 1);
    }
  }
}
