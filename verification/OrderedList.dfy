/** `COrderedList<int>`: a list kept in increasing order without repetitions. */
module OrderedLists {
  import opened Lists

  ghost predicate Sorted(list: seq<int>) {
    forall i, j :: 0 <= i < j < |list| ==> list[i] < list[j]
  }

  /** The set determines the list. */
  lemma {:induction false} SortedUnique(a: seq<int>, b: seq<int>)
    requires Sorted(a) && Sorted(b) && Members(a) == Members(b)
    ensures a == b
  {
    if a != [] && b != [] {
      assert a[0] in Members(b) && b[0] in Members(a);
      assert a[0] == b[0];
      assert Members(a[1..]) == Members(a) - {a[0]} by { RestMembers(a); }
      assert Members(b[1..]) == Members(b) - {b[0]} by { RestMembers(b); }
      SortedUnique(a[1..], b[1..]);
    } else if a != [] {
      HasMember(a);
    } else if b != [] {
      HasMember(b);
    }
  }

  lemma HasMember(a: seq<int>)
    requires a != []
    ensures Members(a) != {}
  {
    assert a[0] in Members(a);
  }

  lemma RestMembers(a: seq<int>)
    requires Sorted(a) && a != []
    ensures Members(a[1..]) == Members(a) - {a[0]}
  {
    assert a == [a[0]] + a[1..];
  }

  class OrderedList {
    var list: seq<int>

    constructor ()
      ensures list == []
    {
      list := [];
    }

    /** Inserts in front of the first greater element, unless an equal one comes before that. */
    method Add(data: int) returns (added: bool)
      requires Sorted(list)
      modifies this
      ensures Sorted(list) && Members(list) == old(Members(list)) + {data}
      ensures added <==> data !in old(list)
    {
      var i := 0;
      while i < |list|
        invariant i <= |list| && list == old(list)
        invariant forall k :: 0 <= k < i ==> list[k] < data
      {
        if list[i] > data {
          list := list[..i] + [data] + list[i..];
          InsertedMembers(old(list), i, data);
          return true;
        }
        if list[i] == data {
          return false;
        }
        i := i + 1;
      }
      list := list + [data];
      return true;
    }

    /** Stops at the first greater element: the rest of the list need not be looked at. */
    method Remove(data: int) returns (removed: bool)
      requires Sorted(list)
      modifies this
      ensures Sorted(list) && Members(list) == old(Members(list)) - {data}
      ensures removed <==> data in old(list)
    {
      var i := 0;
      while i < |list|
        invariant i <= |list| && list == old(list)
        invariant forall k :: 0 <= k < i ==> list[k] < data
      {
        if list[i] == data {
          list := list[..i] + list[i + 1..];
          ErasedMembers(old(list), i);
          return true;
        }
        if list[i] > data {
          return false;
        }
        i := i + 1;
      }
      return false;
    }

    /**
      `operator -=`: one pass over both lists. Where the right list is the left one itself, both
      iterators are past a node before it is erased, so that walking a copy comes to the same.
     */
    method Subtract(listSub: OrderedList)
      requires Sorted(list) && Sorted(listSub.list)
      modifies this
      ensures Sorted(list) && Members(list) == old(Members(list)) - old(Members(listSub.list))
    {
      hide Members; hide Sorted;
      var sub, i, j := listSub.list, 0, 0;
      NothingBefore(list, sub);
      while i < |list| && j < |sub|
        invariant i <= |list| && j <= |sub| && Sorted(list) && Sorted(sub)
        invariant Members(list) == old(Members(list)) - Members(sub[..j])
        invariant Passed(list, i, sub, j)
        decreases |list| - i + |sub| - j
      {
        OneMore(sub, j);
        if list[i] == sub[j] {
          EraseAt(list, i);
          PassBoth(list, i, sub, j);
          list := list[..i] + list[i + 1..];
          j := j + 1;
        } else if list[i] < sub[j] {
          PassLeft(list, i, sub, j);
          i := i + 1;
        } else {
          Between(list, i, sub, j);
          j := j + 1;
        }
      }
      RestIsApart(list, i, sub, j);
    }
  }

  /** What the left iterator has passed is below the rest of the right list. */
  ghost predicate Passed(list: seq<int>, i: nat, sub: seq<int>, j: nat)
    requires i <= |list|
  {
    forall k, l :: 0 <= k < i && j <= l < |sub| ==> list[k] < sub[l]
  }

  lemma NothingBefore(list: seq<int>, sub: seq<int>)
    ensures Members(sub[..0]) == {} && Passed(list, 0, sub, 0)
  {
  }

  lemma OneMore(sub: seq<int>, j: nat)
    requires j < |sub|
    ensures Members(sub[..j + 1]) == Members(sub[..j]) + {sub[j]}
  {
    assert sub[..j + 1] == sub[..j] + [sub[j]];
  }

  lemma EraseAt(list: seq<int>, i: nat)
    requires Sorted(list) && i < |list|
    ensures Sorted(list[..i] + list[i + 1..])
    ensures Members(list[..i] + list[i + 1..]) == Members(list) - {list[i]}
  {
    ErasedMembers(list, i);
  }

  lemma PassBoth(list: seq<int>, i: nat, sub: seq<int>, j: nat)
    requires Sorted(sub) && i < |list| && j < |sub| && Passed(list, i, sub, j)
    ensures Passed(list[..i] + list[i + 1..], i, sub, j + 1)
  {
  }

  lemma PassLeft(list: seq<int>, i: nat, sub: seq<int>, j: nat)
    requires Sorted(sub) && i < |list| && j < |sub| && Passed(list, i, sub, j) && list[i] < sub[j]
    ensures Passed(list, i + 1, sub, j)
  {
  }

  /** A right element below the left one lies between two left elements. */
  lemma Between(list: seq<int>, i: nat, sub: seq<int>, j: nat)
    requires Sorted(list) && i < |list| && j < |sub| && sub[j] < list[i] && Passed(list, i, sub, j)
    ensures sub[j] !in Members(list) && Passed(list, i, sub, j + 1)
  {
    forall k | 0 <= k < |list| ensures list[k] != sub[j] {
      if k > i { assert list[i] < list[k]; }
    }
  }

  /** When one of the lists is used up, the rest of the right one has nothing in common with the left. */
  lemma RestIsApart(list: seq<int>, i: nat, sub: seq<int>, j: nat)
    requires i <= |list| && j <= |sub| && Passed(list, i, sub, j) && (i == |list| || j == |sub|)
    ensures Members(sub) == Members(sub[..j]) + Members(sub[j..])
    ensures Members(list) * Members(sub[j..]) == {}
  {
    Split(sub, j);
  }
}
