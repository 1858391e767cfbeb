/**
  A run of calls from `Init` after which the list and the time stamps of a part cache disagree: the
  renormalisation in its last call breaks the order.
 */
module PartBreakingRun {
  import opened Recency
  import opened PartCache
  import opened PartStamps

  function LookUps(index: nat, n: nat): (ops: seq<Op<()>>)
    ensures |ops| == n
  {
    seq(n, _ => GetOp(index))
  }

  lemma LookUpFront(c: Parts<()>, index: nat)
    requires Inv(c) && c.Resident(index) && c.used > 0 && c.lru[0] == c.partIndex[index]
    requires c.counter + 1 < COUNTER_LIMIT
    ensures Get(c, index) == c.(lastTime := c.lastTime[c.partIndex[index] := c.counter], counter := c.counter + 1)
  {
    assert c.lru[0] in c.lru;
    FrontStays(c.lru, c.lru[0]);
  }

  /** Looking up the most recently used index again and again only moves its stamp and the counter. */
  lemma {:induction false} LookUpsAgain(c: Parts<()>, index: nat, n: nat)
    requires Inv(c) && c.Resident(index) && c.used > 0 && c.lru[0] == c.partIndex[index]
    requires n > 0 && c.counter + n < COUNTER_LIMIT
    ensures |c.parentIndex| > 0 && InRange(c, LookUps(index, n))
    ensures Run(c, LookUps(index, n))
         == c.(lastTime := c.lastTime[c.partIndex[index] := c.counter + n - 1], counter := c.counter + n)
    decreases n
  {
    hide Get; hide Inv; hide Run;
    var s, ops := c.partIndex[index], LookUps(index, n - 1);
    SlotInUse(c, index);
    assert LookUps(index, n) == ops + [GetOp(index)];
    RunMore(c, ops, GetOp(index));
    if n == 1 {
      assert ops == [];
      RunNone(c);
      LookUpFront(c, index);
    } else {
      LookUpsAgain(c, index, n - 1);
      LookUpFront(Run(c, ops), index);
      assert c.lastTime[s := c.counter + n - 2][s := c.counter + n - 1] == c.lastTime[s := c.counter + n - 1];
    }
  }

  lemma RunNone<D>(c: Parts<D>)
    requires Inv(c) && |c.parentIndex| > 0
    ensures Run(c, []) == c
  {
  }

  lemma SlotInUse<D>(c: Parts<D>, index: nat)
    requires Inv(c) && c.Resident(index)
    ensures c.partIndex[index] < |c.lastTime| == |c.parentIndex|
  {
  }

  /** Indices 0, 1, 2 in slots 0, 1, 2. */
  function Three(t: seq<nat>, q: seq<nat>, now: nat): Parts<()> {
    Parts([0, 1, 2], [0, 1, 2], [(), (), ()], t, q, 3, now)
  }

  ghost predicate ThreeOk(t: seq<nat>, q: seq<nat>, now: nat) {
    && |t| == 3 && (forall s :: 0 <= s < 3 ==> t[s] < DWORD_SIZE) && now < COUNTER_LIMIT
    && q in {[0, 2, 1], [1, 0, 2], [2, 1, 0]}
  }

  lemma ThreeInv(t: seq<nat>, q: seq<nat>, now: nat)
    requires ThreeOk(t, q, now)
    ensures Inv(Three(t, q, now)) && Three(t, q, now).Resident(q[2])
  {
  }

  lemma LastToFront(q: seq<nat>)
    requires q in {[0, 2, 1], [1, 0, 2], [2, 1, 0]}
    ensures Promote(q, q[2]) == [q[2], q[0], q[1]]
  {
    assert Distinct(q);
    WithoutAt(q, 2);
  }

  /** A look-up of the index whose slot is last in the list. */
  lemma LookUpLast(t: seq<nat>, q: seq<nat>, now: nat)
    requires ThreeOk(t, q, now)
    ensures Inv(Three(t, q, now)) && q[2] < 3
    ensures Get(Three(t, q, now), q[2]) == Renormalised(Three(t[q[2] := now], [q[2], q[0], q[1]], now + 1))
  {
    ThreeInv(t, q, now);
    LastToFront(q);
  }

  /** The cache with three slots when `used` of the indices 0, 1, 2 have been stored. */
  function Stored(used: nat): Parts<()> {
    if used == 0 then Parts([NONE, NONE, NONE], [NONE, NONE, NONE], [(), (), ()], [0, 0, 0], [], 0, 0)
    else if used == 1 then Parts([0, NONE, NONE], [0, NONE, NONE], [(), (), ()], [0, 0, 0], [0], 1, 1)
    else if used == 2 then Parts([0, 1, NONE], [0, 1, NONE], [(), (), ()], [0, 1, 0], [1, 0], 2, 2)
    else Three([0, 1, 2], [2, 1, 0], 3)
  }

  lemma StoredNext(used: nat)
    requires used < 3 && Inv(Stored(used))
    ensures Set(Stored(used), used, ()) == Stored(used + 1)
  {
    hide Inv;
    WithoutAbsent(Stored(used).lru, used);
  }

  lemma {:induction false} StoredInv(used: nat)
    requires used <= 3
    ensures Inv(Stored(used))
  {
    hide Inv; hide Set;
    if used == 0 {
      FreshInv<()>(3, 3, ());
      assert Fresh<()>(3, 3, ()) == Stored(0);
    } else {
      StoredInv(used - 1);
      StoredNext(used - 1);
      SetInv(Stored(used - 1), used - 1, ());
    }
  }

  function Stores(n: nat): (ops: seq<Op<()>>)
    ensures |ops| == n
  {
    seq(n, i requires 0 <= i < n => SetOp(i, ()))
  }

  lemma {:induction false} StoresInOrder(n: nat)
    requires n <= 3
    ensures Inv(Stored(0)) && InRange(Stored(0), Stores(n))
    ensures Run(Stored(0), Stores(n)) == Stored(n)
  {
    hide Set; hide Inv;
    StoredInv(0);
    if n > 0 {
      StoresInOrder(n - 1);
      StoredInv(n - 1);
      StoredNext(n - 1);
      assert Stores(n) == Stores(n - 1) + [SetOp(n - 1, ())];
      RunMore(Stored(0), Stores(n - 1), SetOp(n - 1, ()));
    }
  }

  /** Index 0 is used most, and last of all; of the other two, 2 is used after 1. */
  function BreakingRun(): (ops: seq<Op<()>>)
    ensures |ops| == COUNTER_LIMIT
    ensures forall o :: o in ops ==> o.index < 3
  {
    Stores(3) + [GetOp(0)] + LookUps(0, 0xFFFF_FFF8) + [GetOp(1)] + [GetOp(2)] + [GetOp(0)]
  }

  /** One more call of a run that starts with `Stored(0)`. */
  lemma RunNext(ops: seq<Op<()>>, t: seq<nat>, q: seq<nat>, now: nat)
    requires ThreeOk(t, q, now) && Inv(Stored(0)) && InRange(Stored(0), ops)
    requires Run(Stored(0), ops) == Three(t, q, now)
    ensures q[2] < 3 && Run(Stored(0), ops + [GetOp(q[2])])
         == Renormalised(Three(t[q[2] := now], [q[2], q[0], q[1]], now + 1))
  {
    LookUpLast(t, q, now);
    hide Inv; hide Get; hide Renormalised;
    RunMore(Stored(0), ops, GetOp(q[2]));
  }

  lemma NotYet(t: seq<nat>, q: seq<nat>, now: nat)
    requires |t| > 0 && now < COUNTER_LIMIT
    ensures Renormalised(Three(t, q, now)) == Three(t, q, now)
  {
  }

  /** Index 0 stored first and then looked up again and again. */
  lemma BusyStart(n: nat)
    requires 0 < n && 4 + n < COUNTER_LIMIT
    ensures Inv(Stored(0)) && |Stored(0).partIndex| == |Stored(0).parentIndex| == 3
    ensures var ops := Stores(3) + [GetOp(0)] + LookUps(0, n);
      && InRange(Stored(0), ops)
      && Run(Stored(0), ops) == Three([3 + n, 1, 2], [0, 2, 1], 4 + n)
  {
    hide Inv; hide Run; hide Promote; hide Renormalised;
    StoresInOrder(3);
    RunNext(Stores(3), [0, 1, 2], [2, 1, 0], 3);
    NotYet([3, 1, 2], [0, 2, 1], 4);
    assert [0, 1, 2][0 := 3] == [3, 1, 2];
    ThreeInv([3, 1, 2], [0, 2, 1], 4);
    LookUpsAgain(Three([3, 1, 2], [0, 2, 1], 4), 0, n);
    RunConcat(Stored(0), Stores(3) + [GetOp(0)], LookUps(0, n));
    assert [3, 1, 2][0 := 3 + n] == [3 + n, 1, 2];
  }

  lemma FreshIsStored()
    ensures Fresh<()>(3, 3, ()) == Stored(0)
  {
  }

  /**
    From `Init`: 0xFFFFFFFF calls, each of which stamps a slot, are enough to break the order, so that
    the bound of `FastFormRefinesSlowForm` is the best possible.
   */
  lemma BreaksFromInit()
    ensures !Ordered(RunFromInit(3, 3, (), BreakingRun()))
    ensures UsesFromInit(3, 3, (), BreakingRun()) == COUNTER_LIMIT
  {
    hide Inv; hide Run; hide Renormalised; hide Ordered; hide Stored; hide Promote; hide Uses;
    BusyStart(0xFFFF_FFF8);
    var busy := Stores(3) + [GetOp(0)] + LookUps(0, 0xFFFF_FFF8);
    var t := [0xFFFF_FFFB, 1, 2];
    RunNext(busy, t, [0, 2, 1], 0xFFFF_FFFC);
    NotYet(t[1 := 0xFFFF_FFFC], [1, 0, 2], 0xFFFF_FFFD);
    RunNext(busy + [GetOp(1)], t[1 := 0xFFFF_FFFC], [1, 0, 2], 0xFFFF_FFFD);
    NotYet(t[1 := 0xFFFF_FFFC][2 := 0xFFFF_FFFD], [2, 1, 0], 0xFFFF_FFFE);
    RunNext(busy + [GetOp(1)] + [GetOp(2)], t[1 := 0xFFFF_FFFC][2 := 0xFFFF_FFFD], [2, 1, 0], 0xFFFF_FFFE);
    assert t[1 := 0xFFFF_FFFC][2 := 0xFFFF_FFFD][0 := 0xFFFF_FFFE] == [0xFFFF_FFFE, 0xFFFF_FFFC, 0xFFFF_FFFD];
    RenormalisationCanBreakOrder(Three([0xFFFF_FFFE, 0xFFFF_FFFC, 0xFFFF_FFFD], [0, 2, 1], COUNTER_LIMIT));
    FreshIsStored();
    if UsesFromInit(3, 3, (), BreakingRun()) < COUNTER_LIMIT {
      FastFormRefinesSlowForm(3, 3, (), BreakingRun());
    }
  }

  /** From `Init` to the limit by a store, and two look-ups more: the order is lost without a renormalisation. */
  function MissingRun(): (ops: seq<Op<()>>)
    ensures forall o :: o in ops ==> o.index < 3
  {
    Stores(3) + [GetOp(0)] + LookUps(0, 0xFFFF_FFFA) + [SetOp(1, ())] + [GetOp(1)] + [GetOp(1)]
  }

  lemma StoreAtLimit(c: Parts<()>)
    requires c == Three([0xFFFF_FFFD, 1, 2], [0, 2, 1], 0xFFFF_FFFE)
    ensures Inv(c)
    ensures Step(c, SetOp(1, ())).Resident(1) && Step(c, SetOp(1, ())).used == 3
  {
    ThreeInv(c.lastTime, c.lru, c.counter);
  }

  lemma StaysResident<D>(c: Parts<D>, i: nat)
    requires Inv(c) && |c.parentIndex| > 0 && c.Resident(i)
    ensures Step(c, GetOp(i)).Resident(i)
  {
    GetKeepsTables(c, i);
  }

  lemma MissesFromInit()
    ensures !Ordered(RunFromInit(3, 3, (), MissingRun()))
  {
    hide Inv; hide Run; hide Ordered; hide Stored; hide Step;
    BusyStart(0xFFFF_FFFA);
    var busy := Stores(3) + [GetOp(0)] + LookUps(0, 0xFFFF_FFFA);
    var c := Run(Stored(0), busy);
    StoreAtLimit(c);
    RunMore(Stored(0), busy, SetOp(1, ()));
    RunMore(Stored(0), busy + [SetOp(1, ())], GetOp(1));
    RunMore(Stored(0), busy + [SetOp(1, ())] + [GetOp(1)], GetOp(1));
    StaysResident(Step(c, SetOp(1, ())), 1);
    SetMissesTheLimit(c, 1, (), GetOp(1), GetOp(1));
    FreshIsStored();
  }
}
