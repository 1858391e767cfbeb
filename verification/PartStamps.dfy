/**
  The time stamps of a part cache and the list that replaced them: for how long do they agree?
 */
module PartStamps {
  import opened Recency
  import opened PartCache

  datatype Op<D> = SetOp(index: nat, d: D) | GetOp(index: nat)

  ghost predicate InRange<D>(c: Parts<D>, ops: seq<Op<D>>) {
    forall o :: o in ops ==> o.index < |c.partIndex|
  }

  ghost function Step<D>(c: Parts<D>, o: Op<D>): (c': Parts<D>)
    requires Inv(c) && |c.parentIndex| > 0 && o.index < |c.partIndex|
    ensures Inv(c') && |c'.partIndex| == |c.partIndex| && |c'.parentIndex| == |c.parentIndex|
  {
    match o
    case SetOp(i, d) => SetInv(c, i, d); Set(c, i, d)
    case GetOp(i) => GetInv(c, i); Get(c, i)
  }

  /** Any run, resident indices set again included, keeps the structure of the cache. */
  ghost function Run<D>(c: Parts<D>, ops: seq<Op<D>>): (c': Parts<D>)
    requires Inv(c) && |c.parentIndex| > 0 && InRange(c, ops)
    ensures Inv(c') && |c'.partIndex| == |c.partIndex| && |c'.parentIndex| == |c.parentIndex|
  {
    if ops == [] then c else
      assert ops[|ops| - 1] in ops;
      Step(Run(c, ops[..|ops| - 1]), ops[|ops| - 1])
  }

  lemma {:induction false} RunConcat<D>(c: Parts<D>, a: seq<Op<D>>, b: seq<Op<D>>)
    requires Inv(c) && |c.parentIndex| > 0 && InRange(c, a) && InRange(c, b)
    ensures Run(c, a + b) == Run(Run(c, a), b)
  {
    hide Inv; hide Step;
    if b == [] {
      assert a + b == a;
    } else {
      var n := |b| - 1;
      assert (a + b)[..|a + b| - 1] == a + b[..n];
      RunConcat(c, a, b[..n]);
    }
  }

  lemma RunMore<D>(c: Parts<D>, ops: seq<Op<D>>, o: Op<D>)
    requires Inv(c) && |c.parentIndex| > 0 && InRange(c, ops) && o.index < |c.partIndex|
    ensures Run(c, ops + [o]) == Step(Run(c, ops), o)
  {
    hide Inv; hide Step;
    assert (ops + [o])[..|ops|] == ops;
  }

  /** The stamps `t` fall strictly along the list `q` of slots. */
  ghost predicate Falling(q: seq<nat>, t: seq<nat>) {
    && (forall a :: 0 <= a < |q| ==> q[a] < |t|)
    && forall a, b {:trigger t[q[a]], t[q[b]]} :: 0 <= a < b < |q| ==> t[q[a]] > t[q[b]]
  }

  ghost predicate Ordered<D>(c: Parts<D>) {
    Falling(c.lru, c.lastTime)
  }

  /** Moreover the counter is ahead of every stamp, and slots never used have stamp 0. */
  ghost predicate StampedAs(q: seq<nat>, t: seq<nat>, used: nat, now: nat) {
    && Falling(q, t)
    && (forall a :: 0 <= a < |q| ==> t[q[a]] < now)
    && forall s :: used <= s < |t| ==> t[s] == 0
  }

  ghost predicate Stamped<D>(c: Parts<D>) {
    StampedAs(c.lru, c.lastTime, c.used, c.counter)
  }

  lemma DroppedStamped(q: seq<nat>, t: seq<nat>, used: nat, now: nat, k: nat)
    requires StampedAs(q, t, used, now) && k < |q|
    ensures StampedAs(Dropped(q, k), t, used, now)
  {
  }

  lemma WithoutStamped(q: seq<nat>, t: seq<nat>, used: nat, s: nat, now: nat)
    requires Distinct(q) && StampedAs(q, t, used, now)
    ensures StampedAs(Without(q, s), t, used, now) && s !in Without(q, s)
  {
    WithoutMembers(q, s);
    hide StampedAs; hide Distinct;
    if s in q {
      DroppedStamped(q, t, used, now, IndexOf(q, s));
    }
  }

  lemma PromoteStamped(q: seq<nat>, t: seq<nat>, used: nat, s: nat, now: nat)
    requires Distinct(q) && StampedAs(q, t, used, now) && s < |t|
    ensures StampedAs(Promote(q, s), t[s := now], if s < used then used else s + 1, now + 1)
  {
    hide Without; hide Distinct; hide IndexOf;
    WithoutStamped(q, t, used, s, now);
    var w := Without(q, s);
    assert forall a :: 0 <= a < |w| ==> w[a] in w;
  }

  lemma SetStamped<D>(c: Parts<D>, index: nat, d: D)
    requires Inv(c) && |c.parentIndex| > 0 && index < |c.partIndex|
    requires Stamped(c) && c.counter + 1 < DWORD_SIZE
    ensures Stamped(Set(c, index, d))
  {
    PromoteStamped(c.lru, c.lastTime, c.used, GetLru(c), c.counter);
  }

  lemma GetStamped<D>(c: Parts<D>, index: nat)
    requires Inv(c) && index < |c.partIndex| && c.partIndex[index] != NONE
    requires Stamped(c) && c.counter + 1 < COUNTER_LIMIT
    ensures Stamped(Get(c, index))
  {
    PromoteStamped(c.lru, c.lastTime, c.used, c.partIndex[index], c.counter);
  }

  /** The operation stamps a slot: a store always does, a look-up if it finds something. */
  ghost predicate Stamps<D>(c: Parts<D>, o: Op<D>) {
    o.SetOp? || c.Resident(o.index)
  }

  /** How many operations of a run stamp a slot; a look-up that finds nothing does not. */
  ghost function Uses<D>(c: Parts<D>, ops: seq<Op<D>>): (n: nat)
    requires Inv(c) && |c.parentIndex| > 0 && InRange(c, ops)
    ensures n <= |ops|
  {
    if ops == [] then 0 else
      var init, o := ops[..|ops| - 1], ops[|ops| - 1];
      Uses(c, init) + if Stamps(Run(c, init), o) then 1 else 0
  }

  /** As long as the counter has not reached its limit the list and the stamps agree. */
  lemma {:induction false} RunStamped<D>(c: Parts<D>, ops: seq<Op<D>>)
    requires Inv(c) && |c.parentIndex| > 0 && InRange(c, ops)
    requires Stamped(c) && c.counter + Uses(c, ops) < COUNTER_LIMIT
    ensures Stamped(Run(c, ops)) && Run(c, ops).counter == c.counter + Uses(c, ops)
  {
    hide Inv; hide Set; hide Get; hide Stamped;
    if ops != [] {
      var prefix, o := ops[..|ops| - 1], ops[|ops| - 1];
      assert o in ops;
      RunStamped(c, prefix);
      StepStamped(Run(c, prefix), o);
    }
  }

  lemma StepStamped<D>(c: Parts<D>, o: Op<D>)
    requires Inv(c) && |c.parentIndex| > 0 && o.index < |c.partIndex| && Stamped(c)
    requires c.counter + (if Stamps(c, o) then 1 else 0) < COUNTER_LIMIT
    ensures Stamped(Step(c, o)) && Step(c, o).counter == c.counter + if Stamps(c, o) then 1 else 0
  {
    match o {
      case SetOp(i, d) => SetStamped(c, i, d);
      case GetOp(i) => if c.Resident(i) { GetStamped(c, i); }
    }
  }

  /** The back of the list is then the unique slot with the least stamp. */
  lemma LruIsOldest<D>(c: Parts<D>, s: nat)
    requires Inv(c) && Stamped(c) && 0 < c.used == |c.parentIndex|
    requires s < c.used && s != GetLru(c)
    ensures c.lastTime[GetLru(c)] < c.lastTime[s]
  {
    assert s in c.lru;
  }

  ghost function RunFromInit<D>(maxIndex: nat, maxPart: nat, none: D, ops: seq<Op<D>>): (c: Parts<D>)
    requires 0 < maxIndex <= NONE && 0 < maxPart && forall o :: o in ops ==> o.index < maxIndex
    ensures Inv(c)
  {
    FreshInv(maxIndex, maxPart, none);
    Run(Fresh(maxIndex, maxPart, none), ops)
  }

  ghost function UsesFromInit<D>(maxIndex: nat, maxPart: nat, none: D, ops: seq<Op<D>>): (n: nat)
    requires 0 < maxIndex <= NONE && 0 < maxPart && forall o :: o in ops ==> o.index < maxIndex
    ensures n <= |ops|
  {
    FreshInv(maxIndex, maxPart, none);
    Uses(Fresh(maxIndex, maxPart, none), ops)
  }

  /**
    Fast form and slow form: as long as fewer than 0xFFFFFFFF calls have stamped a slot, which is what
    the counter then counts, the slot that `GetLRU` takes from a full cache has a smaller stamp than
    every other one.
   */
  lemma FastFormRefinesSlowForm<D>(maxIndex: nat, maxPart: nat, none: D, ops: seq<Op<D>>)
    requires 0 < maxIndex <= NONE && 0 < maxPart && forall o :: o in ops ==> o.index < maxIndex
    requires UsesFromInit(maxIndex, maxPart, none, ops) < COUNTER_LIMIT
    ensures var c := RunFromInit(maxIndex, maxPart, none, ops);
      && Ordered(c) && c.counter == UsesFromInit(maxIndex, maxPart, none, ops)
      && (0 < c.used == |c.parentIndex| ==>
            forall s :: 0 <= s < c.used && s != GetLru(c) ==> c.lastTime[GetLru(c)] < c.lastTime[s])
  {
    FreshInv(maxIndex, maxPart, none);
    RunStamped(Fresh(maxIndex, maxPart, none), ops);
    var c := RunFromInit(maxIndex, maxPart, none, ops);
    if 0 < c.used == |c.parentIndex| {
      forall s | 0 <= s < c.used && s != GetLru(c) ensures c.lastTime[GetLru(c)] < c.lastTime[s] {
        LruIsOldest(c, s);
      }
    }
  }

  // ---------------------------------------------------------------- renormalisation

  /** No slot before the least one is newer than a slot behind it by no more than the least stamp. */
  ghost predicate Spread(t: seq<nat>)
    requires t != []
  {
    var least := FirstLeast(t, |t|);
    forall i, j :: 0 <= i < least < j < |t| && t[i] > t[j] ==> t[i] - t[j] > t[least]
  }

  lemma LoweredPair(t: seq<nat>, x: nat, y: nat)
    requires x < |t| && y < |t| && t[x] > t[y]
    ensures var least := FirstLeast(t, |t|);
      Lowered(t)[x] > Lowered(t)[y] <==> (x < least < y ==> t[x] - t[y] > t[least])
  {
    var least := FirstLeast(t, |t|);
    assert t[least] <= t[y];
    assert Lowered(t)[x] == if x <= least then t[x] - t[least] else t[x];
    assert Lowered(t)[y] == if y <= least then t[y] - t[least] else t[y];
  }

  lemma LoweredFalling(q: seq<nat>, t: seq<nat>)
    requires t != [] && Falling(q, t)
    ensures Spread(t) ==> Falling(q, Lowered(t))
    ensures Falling(q, Lowered(t)) && (forall s: nat :: s < |t| ==> s in q) ==> Spread(t)
  {
    var least := FirstLeast(t, |t|);
    if Spread(t) {
      forall a, b | 0 <= a < b < |q| ensures Lowered(t)[q[a]] > Lowered(t)[q[b]] {
        LoweredPair(t, q[a], q[b]);
      }
    }
    if Falling(q, Lowered(t)) && forall s: nat :: s < |t| ==> s in q {
      forall i, j | 0 <= i < least < j < |t| && t[i] > t[j] ensures t[i] - t[j] > t[least] {
        LoweredPair(t, i, j);
        var a, b := IndexOf(q, i), IndexOf(q, j);
        assert t[q[a]] > t[q[b]];
      }
    }
  }

  /**
    The renormalisation of `GetData` zeroes the least stamp before it has subtracted it from the
    slots behind it. On a full cache it keeps the order exactly when the stamps are spread.
   */
  lemma RenormalisationKeepsOrder<D>(c: Parts<D>)
    requires Inv(c) && Stamped(c) && c.counter == COUNTER_LIMIT
    requires 0 < c.used == |c.parentIndex|
    ensures Ordered(Renormalised(c)) <==> Spread(c.lastTime)
  {
    LoweredFalling(c.lru, c.lastTime);
  }

  /** A cache that is not full has a least stamp of 0 and is left as it is. */
  lemma RenormalisationOfPartlyUsed<D>(c: Parts<D>)
    requires Inv(c) && Stamped(c) && c.used < |c.parentIndex|
    ensures Lowered(c.lastTime) == c.lastTime
  {
    assert c.lastTime[c.used] == 0;
  }

  /** The stamps of three slots last used in the order 1, 2, 0. */
  lemma ThreeStamps(q: seq<nat>, t: seq<nat>)
    requires q == [0, 2, 1] && t == [0xFFFF_FFFE, 0xFFFF_FFFC, 0xFFFF_FFFD]
    ensures StampedAs(q, t, 3, COUNTER_LIMIT) && !Falling(q, Lowered(t))
  {
    assert FirstLeast(t, 2) == 1;
    assert FirstLeast(t, 3) == 1;
    LoweredPair(t, 0, 2);
    assert Lowered(t)[q[0]] <= Lowered(t)[q[1]];
  }

  /** Slot 0, the newest, ends up older than slot 2. */
  lemma RenormalisationCanBreakOrder(c: Parts<()>)
    requires c == Parts([0, 1, 2], [0, 1, 2], [(), (), ()],
                        [0xFFFF_FFFE, 0xFFFF_FFFC, 0xFFFF_FFFD], [0, 2, 1], 3, COUNTER_LIMIT)
    ensures Inv(c) && Stamped(c) && !Ordered(Renormalised(c))
  {
    ThreeStamps(c.lru, c.lastTime);
    hide StampedAs; hide Falling; hide Lowered; hide FirstGreatest;
  }

  lemma RenormalisedCounter<D>(c: Parts<D>)
    requires Inv(c) && Stamped(c) && c.counter == COUNTER_LIMIT && c.used > 0
    ensures Renormalised(c).lastTime[c.lru[0]] == Renormalised(c).counter
  {
    var t, g := c.lastTime, FirstGreatest(c.lastTime, |c.lastTime|);
    if g < c.used {
      assert g in c.lru;
      assert g == c.lru[0];
    }
  }

  lemma FrontStays(q: seq<nat>, s: nat)
    requires Distinct(q) && s in q
    ensures q[0] == s ==> Promote(q, s) == q
    ensures q[0] != s ==> |Promote(q, s)| > 1 && Promote(q, s)[1] == q[0]
  {
    hide Without; hide Distinct; hide IndexOf;
    WithoutAt(q, IndexOf(q, s));
    WithoutAt(q, 0);
  }

  // ---------------------------------------------------------------- the limit that only GetData looks for

  lemma PromotedFront(q: seq<nat>, s: nat)
    ensures Promote(q, s) != [] && Promote(q, s)[0] == s
  {
  }

  /** A use at counter 0 puts stamp 0 in front of the list, where only nothing may follow it. */
  lemma ZeroInFront<D>(c: Parts<D>, s: nat)
    requires Inv(c) && c.counter == 0 && s < |c.lastTime|
    ensures Ordered(Touch(c, s)) <==> |Promote(c.lru, s)| == 1
    ensures Touch(c, s).counter == 1
  {
    PromotedFront(c.lru, s);
    PromoteMembers(c.lru, s);
    hide Promote; hide Distinct; hide Parented; hide Forward;
    var q, t := Promote(c.lru, s), c.lastTime[s := 0];
    forall a | 0 <= a < |q| ensures q[a] < |t| {
      assert q[a] in q;
    }
    if |q| > 1 {
      assert t[q[0]] == 0 <= t[q[1]];
    }
  }

  /** What the operations do to the list and the counter when there is nothing to renormalise. */
  lemma StepTouches<D>(c: Parts<D>, o: Op<D>) returns (s: nat)
    requires Inv(c) && |c.parentIndex| > 0 && o.index < |c.partIndex|
    requires Stamps(c, o) && Tick(c.counter) != COUNTER_LIMIT
    ensures s < |c.lastTime| && Inv(Step(c, o))
    ensures Step(c, o).lru == Touch(c, s).lru && Step(c, o).lastTime == Touch(c, s).lastTime
    ensures Step(c, o).counter == Tick(c.counter)
  {
    match o
    case SetOp(i, d) => s := GetLru(c);
    case GetOp(i) => s := c.partIndex[i];
  }

  lemma SetUsed<D>(c: Parts<D>, o: Op<D>)
    requires Inv(c) && |c.parentIndex| > 0 && o.index < |c.partIndex|
    ensures Inv(Step(c, o)) && |Step(c, o).lru| == Step(c, o).used
    ensures o.GetOp? ==> Step(c, o).used == c.used
  {
  }

  lemma ZeroStep<D>(c: Parts<D>, o: Op<D>)
    requires Inv(c) && |c.parentIndex| > 0 && o.index < |c.partIndex|
    requires Stamps(c, o) && c.counter == 0
    ensures Ordered(Step(c, o)) <==> Step(c, o).used == 1
  {
    hide Touch; hide Inv; hide Step; hide Stamps;
    var s := StepTouches(c, o);
    ZeroInFront(c, s);
    SetUsed(c, o);
    TouchPromotes(c, s);
  }

  lemma TouchPromotes<D>(c: Parts<D>, s: nat)
    requires s < |c.lastTime|
    ensures Touch(c, s).lru == Promote(c.lru, s)
  {
  }

  /** A use at the limit still keeps the order; but the counter wraps. */
  lemma LimitStep<D>(c: Parts<D>, o: Op<D>)
    requires Inv(c) && |c.parentIndex| > 0 && o.index < |c.partIndex|
    requires Stamps(c, o) && c.counter == COUNTER_LIMIT
    ensures Step(c, o).counter == 0
    ensures Stamped(c) ==> Ordered(Step(c, o))
  {
    hide Inv; hide Step; hide Stamps; hide StampedAs; hide Distinct;
    var s := StepTouches(c, o);
    if Stamped(c) {
      ListDistinct(c);
      PromoteStamped(c.lru, c.lastTime, c.used, s, c.counter);
      StampedFalls(Promote(c.lru, s), c.lastTime[s := c.counter], if s < c.used then c.used else s + 1, c.counter + 1);
    }
  }

  lemma ListDistinct<D>(c: Parts<D>)
    requires Inv(c)
    ensures Distinct(c.lru)
  {
  }

  lemma StampedFalls(q: seq<nat>, t: seq<nat>, used: nat, now: nat)
    requires StampedAs(q, t, used, now)
    ensures Falling(q, t)
  {
  }

  /**
    Only `GetData` looks for the limit. If it is `SetData` that reaches it there is no
    renormalisation: the use that follows makes the counter wrap to 0, and the use after that, be it
    of the same slot, a store or a look-up, keeps the order exactly if a single slot is in use.
   */
  lemma SetMissesTheLimit<D>(c: Parts<D>, index: nat, d: D, o: Op<D>, o': Op<D>)
    requires Inv(c) && |c.parentIndex| > 0 && index < |c.partIndex| && c.counter + 1 == COUNTER_LIMIT
    requires o.index < |c.partIndex| && o'.index < |c.partIndex|
    requires Stamps(Step(c, SetOp(index, d)), o) && Stamps(Step(Step(c, SetOp(index, d)), o), o')
    ensures var c1 := Step(c, SetOp(index, d));
      var c2 := Step(c1, o);
      var c3 := Step(c2, o');
      && c1.counter == COUNTER_LIMIT && c2.counter == 0
      && (Stamped(c) ==> Ordered(c1) && Ordered(c2))
      && (Ordered(c3) <==> c3.used == 1)
      && (o.GetOp? && o'.GetOp? ==> c3.used == c1.used)
  {
    hide Stamped; hide Ordered; hide Inv; hide Stamps;
    StoreBelowLimit(c, index, d);
    hide Step;
    var c1 := Step(c, SetOp(index, d));
    LimitStep(c1, o);
    ZeroStep(Step(c1, o), o');
    SetUsed(c1, o);
    SetUsed(Step(c1, o), o');
  }

  lemma StoreBelowLimit<D>(c: Parts<D>, index: nat, d: D)
    requires Inv(c) && |c.parentIndex| > 0 && index < |c.partIndex| && c.counter + 1 == COUNTER_LIMIT
    ensures Step(c, SetOp(index, d)).counter == COUNTER_LIMIT
    ensures Stamped(c) ==> Stamped(Step(c, SetOp(index, d))) && Ordered(Step(c, SetOp(index, d)))
  {
    if Stamped(c) {
      SetStamped(c, index, d);
    }
  }

  /** The new counter repeats the newest stamp, so the next use of another slot makes a tie. */
  lemma RenormalisationTies<D>(c: Parts<D>, s: nat)
    requires Inv(c) && Stamped(c) && c.counter == COUNTER_LIMIT && s < c.used
    requires Ordered(Renormalised(c))
    ensures Ordered(Touch(Renormalised(c), s)) <==> s == c.lru[0]
  {
    assert s in c.lru;
    RenormalisedCounter(c);
    FrontStays(c.lru, s);
    var r := Renormalised(c);
    var q, t := Promote(c.lru, s), r.lastTime[s := r.counter];
    if s == c.lru[0] {
      assert t == r.lastTime;
    } else {
      assert t[q[0]] == t[q[1]];
    }
  }
}
