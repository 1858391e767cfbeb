/**
  Least-recently-used replacement on its own: what a cache of a given capacity holds is a
  function of the trace of uses alone.
 */
module Lru {
  import opened Lists
  import opened Recency

  /** The distinct numbers of `trace`, the last used one first. */
  ghost function MruOrder(trace: seq<nat>): (q: seq<nat>)
    ensures Distinct(q)
  {
    if trace == [] then [] else
      var q := MruOrder(trace[..|trace| - 1]);
      PromoteMembers(q, trace[|trace| - 1]);
      Promote(q, trace[|trace| - 1])
  }

  /** The time of the last use of `x`. */
  ghost function LastUse(trace: seq<nat>, x: nat): (k: nat)
    requires x in trace
    ensures k < |trace| && trace[k] == x && x !in trace[k + 1..]
  {
    var n := |trace| - 1;
    if trace[n] == x then n else
      var k := LastUse(trace[..n], x);
      assert trace[k + 1..] == trace[..n][k + 1..] + [trace[n]];
      k
  }

  /** Later uses come first in `q`. */
  ghost predicate LatestFirst(q: seq<nat>, trace: seq<nat>) {
    && (forall a :: 0 <= a < |q| ==> q[a] in trace)
    && forall a, b {:trigger LastUse(trace, q[a]), LastUse(trace, q[b])} ::
         0 <= a < b < |q| ==> LastUse(trace, q[a]) > LastUse(trace, q[b])
  }

  lemma LastUseLater(trace: seq<nat>, x: nat, y: nat)
    requires y == x || y in trace
    ensures LastUse(trace + [x], y) == if y == x then |trace| else LastUse(trace, y)
  {
    assert (trace + [x])[..|trace|] == trace;
  }

  lemma LatestFirstDropped(q: seq<nat>, trace: seq<nat>, k: nat)
    requires LatestFirst(q, trace) && k < |q|
    ensures LatestFirst(Dropped(q, k), trace)
  {
  }

  lemma LatestFirstWithout(q: seq<nat>, trace: seq<nat>, x: nat)
    requires Distinct(q) && LatestFirst(q, trace)
    ensures LatestFirst(Without(q, x), trace) && x !in Without(q, x)
  {
    hide LatestFirst; hide Distinct;
    WithoutMembers(q, x);
    if x in q {
      LatestFirstDropped(q, trace, IndexOf(q, x));
    }
  }

  lemma LatestFirstStep(q: seq<nat>, trace: seq<nat>, x: nat)
    requires Distinct(q) && LatestFirst(q, trace)
    ensures LatestFirst(Promote(q, x), trace + [x])
  {
    var w, t := Without(q, x), trace + [x];
    LatestFirstWithout(q, trace, x);
    hide Without; hide Distinct;
    LastUseLater(trace, x, x);
    forall a | 0 <= a < |w| ensures w[a] in t && LastUse(t, w[a]) == LastUse(trace, w[a]) {
      assert w[a] in w;
      LastUseLater(trace, x, w[a]);
    }
  }

  lemma EmptyLatestFirst()
    ensures LatestFirst([], [])
  {
  }

  /** `MruOrder` is what its name says: exactly the numbers used, later uses first. */
  lemma {:induction false} MruOrderMeaning(trace: seq<nat>)
    ensures forall x: nat :: x in MruOrder(trace) <==> x in trace
    ensures LatestFirst(MruOrder(trace), trace)
  {
    hide Without; hide Distinct; hide LatestFirst;
    if trace == [] {
      assert LatestFirst([], []) by { EmptyLatestFirst(); }
    } else {
      var prefix, x := trace[..|trace| - 1], trace[|trace| - 1];
      MruOrderMeaning(prefix);
      PromoteMembers(MruOrder(prefix), x);
      LatestFirstStep(MruOrder(prefix), prefix, x);
      assert trace == prefix + [x];
    }
  }

  /** One use in a cache of capacity `cap` that holds `q`. */
  ghost function Use(q: seq<nat>, x: nat, cap: nat): seq<nat>
    requires cap > 0
  {
    if x in q then Promote(q, x)
    else [x] + if |q| < cap then q else q[..cap - 1]
  }

  ghost function Take(q: seq<nat>, n: nat): seq<nat> {
    if |q| <= n then q else q[..n]
  }

  lemma PromoteInTake(m: seq<nat>, k: nat, cap: nat)
    requires Distinct(m) && k < |m| && k < cap
    ensures Promote(Take(m, cap), m[k]) == Take(Promote(m, m[k]), cap)
  {
    assert Distinct(Take(m, cap));
    hide Without; hide Distinct;
    WithoutAt(m, k);
    WithoutAt(Take(m, cap), k);
  }

  lemma UseTakes(m: seq<nat>, x: nat, cap: nat)
    requires Distinct(m) && cap > 0
    ensures Use(Take(m, cap), x, cap) == Take(Promote(m, x), cap)
  {
    if x in m {
      var k := IndexOf(m, x);
      if k < cap {
        assert Take(m, cap)[k] == x;
        PromoteInTake(m, k, cap);
      } else {
        assert m[..cap] <= m[..k];
        WithoutAt(m, k);
      }
    }
  }

  /** A cache that holds the `cap` most recently used distinct numbers still does after a use. */
  lemma UseHoldsMostRecent(trace: seq<nat>, x: nat, cap: nat)
    requires cap > 0
    ensures Use(Take(MruOrder(trace), cap), x, cap) == Take(MruOrder(trace + [x]), cap)
  {
    assert (trace + [x])[..|trace|] == trace;
    UseTakes(MruOrder(trace), x, cap);
  }

  /** Of those it holds, the last one in the list is the one used the longest ago. */
  lemma LastIsOldest(trace: seq<nat>, cap: nat, x: nat)
    requires var q := Take(MruOrder(trace), cap); x in q && x != q[|q| - 1]
    ensures var y := Take(MruOrder(trace), cap)[|Take(MruOrder(trace), cap)| - 1];
      x in trace && y in trace && LastUse(trace, y) < LastUse(trace, x)
  {
    hide LatestFirst; hide MruOrder; hide LastUse;
    MruOrderMeaning(trace);
    var q := Take(MruOrder(trace), cap);
    var k := IndexOf(q, x);
    assert MruOrder(trace)[k] == x && MruOrder(trace)[|q| - 1] == q[|q| - 1];
    LaterFirst(MruOrder(trace), trace, k, |q| - 1);
  }

  lemma LaterFirst(q: seq<nat>, trace: seq<nat>, a: nat, b: nat)
    requires LatestFirst(q, trace) && a < b < |q|
    ensures q[a] in trace && q[b] in trace && LastUse(trace, q[b]) < LastUse(trace, q[a])
  {
  }

  // ---------------------------------------------------------------- two capacities

  /** The members of `q` that lie in `s`, in order. */
  ghost function Keep(q: seq<nat>, s: set<nat>): seq<nat> {
    if q == [] then [] else
      Keep(q[..|q| - 1], s) + if q[|q| - 1] in s then [q[|q| - 1]] else []
  }

  lemma {:induction false} KeepConcat(p: seq<nat>, q: seq<nat>, s: set<nat>)
    ensures Keep(p + q, s) == Keep(p, s) + Keep(q, s)
  {
    if q == [] {
      assert p + q == p;
    } else {
      assert (p + q)[..|p + q| - 1] == p + q[..|q| - 1];
      KeepConcat(p, q[..|q| - 1], s);
    }
  }

  /** `Keep` looks at `s` only for the members of `q`. */
  lemma {:induction false} KeepSame(q: seq<nat>, s: set<nat>, t: set<nat>)
    requires forall x :: x in q ==> (x in s <==> x in t)
    ensures Keep(q, s) == Keep(q, t)
    ensures forall x :: x in Keep(q, s) ==> x in q && x in s
  {
    if q != [] {
      KeepSame(q[..|q| - 1], s, t);
      assert q[|q| - 1] in q;
    }
  }

  lemma LastMember(q: seq<nat>)
    requires q != []
    ensures forall x :: x in q[..|q| - 1] ==> (x in Members(q) <==> x in Members(q[..|q| - 1]))
    ensures q[|q| - 1] in Members(q)
  {
    assert q[|q| - 1] in q;
  }

  lemma {:induction false} KeepAll(q: seq<nat>)
    ensures Keep(q, Members(q)) == q
  {
    if q != [] {
      var init := q[..|q| - 1];
      LastMember(q);
      KeepSame(init, Members(q), Members(init));
      KeepAll(init);
      hide Members;
      assert q == init + [q[|q| - 1]];
    }
  }

  /** What is kept when the last kept member `y` is no longer wanted. */
  lemma {:induction false} KeepLess(q: seq<nat>, s: set<nat>, y: nat)
    requires Distinct(q) && Keep(q, s) != [] && Keep(q, s)[|Keep(q, s)| - 1] == y
    ensures Keep(q, s) == Keep(q, s - {y}) + [y]
    ensures q[|q| - 1] in s ==> q[|q| - 1] == y
  {
    var init := q[..|q| - 1];
    if q[|q| - 1] in s {
      KeepSame(init, s, s - {y});
    } else {
      KeepLess(init, s, y);
    }
  }

  lemma KeepAround(p: seq<nat>, x: nat, q: seq<nat>, s: set<nat>)
    ensures Keep(p + [x] + q, s) == Keep(p, s) + (if x in s then [x] else []) + Keep(q, s)
  {
    KeepConcat(p, [x], s);
    KeepConcat(p + [x], q, s);
    assert [x][..0] == [];
  }

  lemma KeepCons(x: nat, q: seq<nat>, s: set<nat>)
    ensures Keep([x] + q, s) == (if x in s then [x] else []) + Keep(q, s)
  {
    KeepAround([], x, q, s);
    assert [] + [x] + q == [x] + q;
  }

  lemma KeepWithout(q: seq<nat>, k: nat, s: set<nat>)
    requires Distinct(q) && Distinct(Keep(q, s)) && k < |q|
    ensures Keep(Without(q, q[k]), s) == Without(Keep(q, s), q[k])
  {
    var x, p, r := q[k], q[..k], q[k + 1..];
    WithoutAt(q, k);
    assert q == p + [x] + r;
    KeepAround(p, x, r, s);
    KeepConcat(p, r, s);
    if x in s {
      assert Keep(q, s)[|Keep(p, s)|] == x;
      WithoutAt(Keep(q, s), |Keep(p, s)|);
    } else {
      KeepSame(q, s, s);
    }
  }

  /**
    `small` is what a cache of capacity `cap` holds while a larger one holds `big`: the same
    order less what only the larger one still has, and full unless nothing was ever evicted.
   */
  ghost predicate Included(small: seq<nat>, big: seq<nat>, cap: nat) {
    && Distinct(small) && Distinct(big)
    && small == Keep(big, Members(small))
    && (|small| == cap || (|small| < cap && small == big))
  }

  /** A step of a cache that serves `x` from what it holds, and otherwise only if `ok`. */
  ghost function Serve(q: seq<nat>, x: nat, ok: bool, cap: nat): seq<nat>
    requires cap > 0
  {
    if x in q || ok then Use(q, x, cap) else q
  }

  lemma IncludedHit(small: seq<nat>, big: seq<nat>, x: nat, cap: nat)
    requires Included(small, big, cap) && x in small
    ensures x in big && Included(Promote(small, x), Promote(big, x), cap)
  {
    hide Without; hide Distinct; hide IndexOf; hide Keep;
    KeepSame(big, Members(small), Members(small));
    var k := IndexOf(big, x);
    KeepWithout(big, k, Members(small));
    PromoteMembers(small, x);
    PromoteMembers(big, x);
    assert Members(Promote(small, x)) == Members(small);
    KeepCons(x, Without(big, x), Members(small));
  }

  ghost function Trim(q: seq<nat>): seq<nat>
    requires q != []
  {
    q[..|q| - 1]
  }

  /** The smaller cache gives up its last member; so may the larger one, of its own. */
  lemma KeepTrim(small: seq<nat>, big: seq<nat>)
    requires Distinct(small) && Distinct(big) && small == Keep(big, Members(small)) && small != []
    ensures Distinct(Trim(small)) && Trim(small) == Keep(big, Members(Trim(small)))
    ensures big != [] && Trim(small) == Keep(Trim(big), Members(Trim(small)))
  {
    hide Keep;
    var y := small[|small| - 1];
    KeptOfNone(Members(small));
    TrimMembers(small);
    KeepLess(big, Members(small), y);
    KeepSplit(big, Members(small));
    KeepSplit(big, Members(Trim(small)));
    hide Distinct; hide Members;
  }

  lemma KeptOfNone(s: set<nat>)
    ensures Keep([], s) == []
  {
  }

  lemma TrimMembers(small: seq<nat>)
    requires Distinct(small) && small != []
    ensures Distinct(Trim(small)) && Members(Trim(small)) == Members(small) - {small[|small| - 1]}
  {
    assert small == Trim(small) + [small[|small| - 1]];
  }

  lemma KeepSplit(q: seq<nat>, s: set<nat>)
    requires q != []
    ensures Keep(q, s) == Keep(Trim(q), s) + if q[|q| - 1] in s then [q[|q| - 1]] else []
  {
  }

  /** A number that neither cache holds goes to the front of both. */
  lemma KeepFront(small: seq<nat>, big: seq<nat>, x: nat)
    requires small == Keep(big, Members(small)) && x !in big
    ensures [x] + small == Keep([x] + big, Members([x] + small))
  {
    assert Members([x] + small) == Members(small) + {x};
    KeepCons(x, big, Members([x] + small));
    KeepSame(big, Members(small), Members([x] + small));
  }

  lemma IncludedFront(small: seq<nat>, big: seq<nat>, x: nat, cap: nat)
    requires Distinct(small) && Distinct(big) && x !in big && x !in small
    requires small == Keep(big, Members(small))
    requires |small| + 1 == cap || (|small| + 1 < cap && small == big)
    ensures Included([x] + small, [x] + big, cap)
  {
    KeepFront(small, big, x);
  }

  lemma IncludedOnlyInBig(small: seq<nat>, big: seq<nat>, x: nat, ok: bool, cap: nat)
    requires Included(small, big, cap) && x in big && x !in small && cap > 0
    ensures Included(Serve(small, x, ok, cap), Promote(big, x), cap)
  {
    hide Without; hide Distinct; hide IndexOf; hide Keep;
    var rest, s := Without(big, x), Members(small);
    var k := IndexOf(big, x);
    KeepWithout(big, k, s);
    WithoutMembers(big, x);
    PromoteMembers(big, x);
    WithoutAbsent(small, x);
    assert small == Keep(rest, s);
    if ok {
      KeepTrim(small, rest);
      assert x !in Trim(small);
      IncludedFront(Trim(small), rest, x, cap);
    } else {
      KeepCons(x, rest, s);
    }
  }

  lemma IncludedMiss(small: seq<nat>, big: seq<nat>, x: nat, cap: nat, cap': nat)
    requires Included(small, big, cap) && x !in big && x !in small && 0 < cap <= cap' && |big| <= cap'
    ensures Included(Use(small, x, cap), Use(big, x, cap'), cap)
  {
    var big0 := if |big| < cap' then big else Trim(big);
    assert Use(big, x, cap') == [x] + big0;
    if |small| == cap {
      KeepTrim(small, big);
      assert Distinct(Trim(small)) && Distinct(big0);
      IncludedFront(Trim(small), big0, x, cap);
    } else {
      IncludedFront(small, big0, x, cap);
    }
  }

  /** Serving one more number keeps the inclusion, whether or not an absent one can be served. */
  lemma ServeIncluded(small: seq<nat>, big: seq<nat>, x: nat, ok: bool, cap: nat, cap': nat)
    requires Included(small, big, cap) && 0 < cap <= cap' && |big| <= cap'
    ensures Included(Serve(small, x, ok, cap), Serve(big, x, ok, cap'), cap)
    ensures |Serve(big, x, ok, cap')| <= cap'
  {
    KeepSame(big, Members(small), Members(small));
    PromoteMembers(big, x);
    if x in small {
      IncludedHit(small, big, x, cap);
    } else if x in big {
      IncludedOnlyInBig(small, big, x, ok, cap);
    } else if ok {
      IncludedMiss(small, big, x, cap, cap');
    }
  }

  lemma IncludedSubset(small: seq<nat>, big: seq<nat>, cap: nat)
    requires Included(small, big, cap)
    ensures Members(small) <= Members(big)
  {
    KeepSame(big, Members(small), Members(small));
  }
}
