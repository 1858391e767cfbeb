/**
  The value of a `CPartManager`: a table from indices to slots, the slots themselves, the
  list of slots in use with the most recently used one first, and the time stamps the list
  replaced.
 */
module PartCache {
  import opened Recency

  /** `m_IndexNULL` and `m_PartIndexNULL` once cut to a WORD. */
  const NONE: nat := 0xFFFF
  const DWORD_SIZE: nat := 0x1_0000_0000
  /** The counter value at which `GetData` renormalises the time stamps. */
  const COUNTER_LIMIT: nat := 0xFFFF_FFFF

  datatype Parts<D> = Parts(
    partIndex: seq<nat>,     // index -> slot, or NONE
    parentIndex: seq<nat>,   // slot -> index, or NONE
    data: seq<D>,            // slot -> data
    lastTime: seq<nat>,      // slot -> counter at its last use
    lru: seq<nat>,           // slots in use, most recently used first
    used: nat,
    counter: nat)
  {
    predicate Resident(index: nat) {
      index < |partIndex| && partIndex[index] != NONE
    }
  }

  function Fresh<D>(maxIndex: nat, maxPart: nat, none: D): Parts<D> {
    var n := if maxPart > maxIndex then maxIndex else maxPart;
    Parts(seq(maxIndex, _ => NONE), seq(n, _ => NONE), seq(n, _ => none), seq(n, _ => 0), [], 0, 0)
  }

  // ---------------------------------------------------------------- invariants

  ghost predicate Sized<D>(c: Parts<D>) {
    && |c.parentIndex| == |c.data| == |c.lastTime| <= |c.partIndex| <= NONE
    && c.used <= |c.parentIndex|
    && c.counter < DWORD_SIZE
    && forall s :: 0 <= s < |c.lastTime| ==> c.lastTime[s] < DWORD_SIZE
  }

  /** The list holds the slots in use, each once. */
  ghost predicate Listed<D>(c: Parts<D>) {
    ListedAs(c.lru, c.used)
  }

  ghost predicate ListedAs(q: seq<nat>, used: nat) {
    && Distinct(q)
    && |q| == used
    && (forall a :: 0 <= a < |q| ==> q[a] < used)
    && forall s: nat :: s in q <==> s < used
  }

  /** The slots in use are those with a parent. */
  ghost predicate Parented<D>(c: Parts<D>) {
    forall s :: 0 <= s < |c.parentIndex| ==>
      if s < c.used then c.parentIndex[s] < |c.partIndex| else c.parentIndex[s] == NONE
  }

  /** The forward table is inverted by the reverse table. */
  ghost predicate Forward<D>(c: Parts<D>) {
    forall i :: 0 <= i < |c.partIndex| && c.partIndex[i] != NONE ==>
      c.partIndex[i] < |c.parentIndex| && c.parentIndex[c.partIndex[i]] == i
  }

  /** What every run of `SetData` and `GetData` keeps. */
  ghost predicate Inv<D>(c: Parts<D>) {
    Sized(c) && Listed(c) && Parented(c) && Forward(c)
  }

  /** The reverse table is inverted by the forward table: there is no orphaned slot. */
  ghost predicate Exact<D>(c: Parts<D>) {
    && c.used <= |c.parentIndex|
    && forall s :: 0 <= s < c.used ==>
         c.parentIndex[s] < |c.partIndex| && c.partIndex[c.parentIndex[s]] == s
  }

  // ---------------------------------------------------------------- operations

  function GetLru<D>(c: Parts<D>): (s: nat)
    requires Inv(c) && |c.parentIndex| > 0
    ensures s < |c.parentIndex|
    ensures s in c.lru <==> c.used == |c.parentIndex|
  {
    if c.used < |c.parentIndex| then c.used else
      assert c.lru[|c.lru| - 1] in c.lru;
      c.lru[|c.lru| - 1]
  }

  /** `m_Counter++` on a DWORD. */
  function Tick(counter: nat): nat {
    if counter + 1 == DWORD_SIZE then 0 else counter + 1
  }

  /** Slot `s` is stamped and moved to the front of the list. */
  function Touch<D>(c: Parts<D>, s: nat): Parts<D>
    requires s < |c.lastTime|
  {
    c.(lastTime := c.lastTime[s := c.counter], lru := Promote(c.lru, s),
       counter := Tick(c.counter))
  }

  function Set<D>(c: Parts<D>, index: nat, d: D): Parts<D>
    requires Inv(c) && index < |c.partIndex| && |c.parentIndex| > 0
  {
    var s := GetLru(c);
    var parent := c.parentIndex[s];
    var unmapped := if parent != NONE then c.partIndex[parent := NONE] else c.partIndex;
    Touch(c.(partIndex := unmapped[index := s],
             parentIndex := c.parentIndex[s := index],
             data := c.data[s := d],
             used := if c.used < |c.parentIndex| then c.used + 1 else c.used), s)
  }

  /** The index whose slot `Set` takes, and what was in the slot. */
  function Evicted<D>(c: Parts<D>): nat
    requires Inv(c) && |c.parentIndex| > 0
  {
    c.parentIndex[GetLru(c)]
  }

  function Get<D>(c: Parts<D>, index: nat): Parts<D>
    requires Inv(c) && index < |c.partIndex|
  {
    if c.partIndex[index] == NONE then c
    else Renormalised(Touch(c, c.partIndex[index]))
  }

  // The first position of a least, and of a greatest, of the first n time stamps.

  function FirstLeast(t: seq<nat>, n: nat): (k: nat)
    requires 0 < n <= |t|
    ensures k < n && (forall i :: 0 <= i < n ==> t[k] <= t[i])
    ensures forall i :: 0 <= i < k ==> t[k] < t[i]
  {
    if n == 1 then 0 else
      var k := FirstLeast(t, n - 1);
      if t[n - 1] < t[k] then n - 1 else k
  }

  function FirstGreatest(t: seq<nat>, n: nat): (k: nat)
    requires 0 < n <= |t|
    ensures k < n && (forall i :: 0 <= i < n ==> t[i] <= t[k])
    ensures forall i :: 0 <= i < k ==> t[i] < t[k]
  {
    if n == 1 then 0 else
      var k := FirstGreatest(t, n - 1);
      if t[n - 1] > t[k] then n - 1 else k
  }

  lemma ExtremesStep(t: seq<nat>, n: nat)
    requires 0 < n < |t|
    ensures FirstLeast(t, 1) == FirstGreatest(t, 1) == 0
    ensures FirstLeast(t, n + 1) == if t[n] < t[FirstLeast(t, n)] then n else FirstLeast(t, n)
    ensures FirstGreatest(t, n + 1) == if t[n] > t[FirstGreatest(t, n)] then n else FirstGreatest(t, n)
  {
  }

  /** The subtraction loop: it zeroes the least stamp itself, so what follows it stays as it was. */
  function Lowered(t: seq<nat>): (r: seq<nat>)
    requires t != []
    ensures |r| == |t|
  {
    var least := FirstLeast(t, |t|);
    seq(|t|, i requires 0 <= i < |t| => if i <= least then t[i] - t[least] else t[i])
  }

  function Renormalised<D>(c: Parts<D>): Parts<D>
    requires c.lastTime != []
  {
    if c.counter != COUNTER_LIMIT then c else
      var t := Lowered(c.lastTime);
      c.(lastTime := t, counter := t[FirstGreatest(c.lastTime, |c.lastTime|)])
  }

  // ---------------------------------------------------------------- every step keeps the invariants

  lemma InvSizes<D>(c: Parts<D>)
    requires Inv(c)
    ensures |c.parentIndex| <= |c.partIndex| <= NONE
  {
  }

  lemma FreshInv<D>(maxIndex: nat, maxPart: nat, none: D)
    requires maxIndex <= NONE
    ensures Inv(Fresh(maxIndex, maxPart, none)) && Exact(Fresh(maxIndex, maxPart, none))
  {
  }

  /** `SetData` keeps the structure even when `index` already has a slot. */
  lemma SetInv<D>(c: Parts<D>, index: nat, d: D)
    requires Inv(c) && index < |c.partIndex| && |c.parentIndex| > 0
    ensures Inv(Set(c, index, d))
    ensures Set(c, index, d).Resident(index)
  {
    SetListed(c);
    SetTabled(c, index, d);
    hide Listed; hide Parented; hide Forward; hide Promote;
  }

  lemma SetTabled<D>(c: Parts<D>, index: nat, d: D)
    requires Inv(c) && index < |c.partIndex| && |c.parentIndex| > 0
    ensures Parented(Set(c, index, d)) && Forward(Set(c, index, d))
  {
    hide Promote; hide Distinct;
  }

  lemma SetListed<D>(c: Parts<D>)
    requires Inv(c) && |c.parentIndex| > 0
    ensures ListedAs(Promote(c.lru, GetLru(c)), if c.used < |c.parentIndex| then c.used + 1 else c.used)
  {
    var s := GetLru(c);
    PromoteMembers(c.lru, s);
    hide Promote; hide Distinct; hide Parented; hide Forward;
    var q := Promote(c.lru, s);
    assert forall a :: 0 <= a < |q| ==> q[a] in q;
  }

  /** With callers that set only absent indices no slot is ever orphaned. */
  lemma SetExact<D>(c: Parts<D>, index: nat, d: D)
    requires Inv(c) && Exact(c) && index < |c.partIndex| && |c.parentIndex| > 0
    requires !c.Resident(index)
    ensures Exact(Set(c, index, d))
  {
    SetKeepsExact(c, index, d);
  }

  /**
    An index that is set while it is resident leaves its old slot orphaned, with a parent that no
    longer points back, unless the slot to be taken happens to be its own.
   */
  lemma SetExactIff<D>(c: Parts<D>, index: nat, d: D)
    requires Inv(c) && Exact(c) && index < |c.partIndex| && |c.parentIndex| > 0
    ensures Exact(Set(c, index, d)) <==> (c.Resident(index) ==> c.partIndex[index] == GetLru(c))
  {
    if c.Resident(index) && c.partIndex[index] != GetLru(c) {
      SetOrphans(c, index, d);
    } else {
      SetKeepsExact(c, index, d);
    }
  }

  lemma SetOrphans<D>(c: Parts<D>, index: nat, d: D)
    requires Inv(c) && index < |c.partIndex| && |c.parentIndex| > 0
    requires c.Resident(index) && c.partIndex[index] != GetLru(c)
    ensures !Exact(Set(c, index, d))
  {
    assert Set(c, index, d).parentIndex[c.partIndex[index]] == index;
  }

  lemma SetKeepsExact<D>(c: Parts<D>, index: nat, d: D)
    requires Inv(c) && Exact(c) && index < |c.partIndex| && |c.parentIndex| > 0
    requires c.Resident(index) ==> c.partIndex[index] == GetLru(c)
    ensures Exact(Set(c, index, d))
  {
    hide Listed;
    assert forall s :: 0 <= s < c.used ==> c.partIndex[c.parentIndex[s]] == s;
  }

  /** What `SetData` does to the indices: one is stored, one is evicted, and all others keep their data. */
  lemma SetStores<D>(c: Parts<D>, index: nat, d: D, j: nat)
    requires Inv(c) && index < |c.partIndex| && |c.parentIndex| > 0 && j < |c.partIndex|
    ensures var c' := Set(c, index, d);
      && (c'.Resident(j) <==> j == index || (c.Resident(j) && j != Evicted(c)))
      && (c'.Resident(j) ==>
            && c'.partIndex[j] < |c'.data|
            && c'.data[c'.partIndex[j]] == if j == index then d else c.data[c.partIndex[j]])
  {
  }

  /** `SetData` makes `i` absent although its data stay in a slot in use that still names it. */
  ghost predicate LosesLiveData<D>(c: Parts<D>, index: nat, d: D, i: nat)
    requires Inv(c) && index < |c.partIndex| && |c.parentIndex| > 0
  {
    var c' := Set(c, index, d);
    && c.Resident(i) && !c'.Resident(i)
    && c.partIndex[i] in c'.lru && c.partIndex[i] < |c'.parentIndex| && c'.parentIndex[c.partIndex[i]] == i
  }

  /** That happens to an index exactly when an orphaned slot of its own is taken for another one. */
  lemma OrphanUnmaps<D>(c: Parts<D>, index: nat, d: D, i: nat)
    requires Inv(c) && index < |c.partIndex| && |c.parentIndex| > 0
    ensures LosesLiveData(c, index, d, i) <==>
      i == Evicted(c) && i != index && c.Resident(i) && c.partIndex[i] != GetLru(c)
  {
    SetStores(c, index, d, if i < |c.partIndex| then i else index);
    PromoteMembers(c.lru, GetLru(c));
    if c.Resident(i) {
      assert c.partIndex[i] in c.lru;
    }
  }

  /** The tables do not depend on the order of the list, nor on the stamps. */
  lemma Relisted<D>(c: Parts<D>, q: seq<nat>, t: seq<nat>, now: nat)
    requires Inv(c) && ListedAs(q, c.used)
    requires |t| == |c.lastTime| && now < DWORD_SIZE && forall s :: 0 <= s < |t| ==> t[s] < DWORD_SIZE
    ensures Inv(c.(lru := q, lastTime := t, counter := now))
  {
    hide ListedAs;
  }

  lemma TouchInv<D>(c: Parts<D>, s: nat)
    requires Inv(c) && s < c.used
    ensures Inv(Touch(c, s))
  {
    assert s in c.lru;
    PromoteMembers(c.lru, s);
    var q := Promote(c.lru, s);
    assert forall a :: 0 <= a < |q| ==> q[a] in q;
    Relisted(c, q, c.lastTime[s := c.counter], Tick(c.counter));
    hide Promote; hide Distinct; hide Parented; hide Forward;
  }

  lemma RenormalisedInv<D>(c: Parts<D>)
    requires Inv(c) && c.lastTime != []
    ensures Inv(Renormalised(c))
  {
    var r := Renormalised(c);
    hide Listed; hide Parented; hide Forward;
    Relisted(c, r.lru, r.lastTime, r.counter);
  }

  /** A look-up changes neither what is resident nor any data. */
  lemma GetKeepsTables<D>(c: Parts<D>, index: nat)
    requires Inv(c) && index < |c.partIndex|
    ensures var c' := Get(c, index);
      c'.partIndex == c.partIndex && c'.parentIndex == c.parentIndex && c'.data == c.data && c'.used == c.used
  {
  }

  lemma GetInv<D>(c: Parts<D>, index: nat)
    requires Inv(c) && index < |c.partIndex|
    ensures Inv(Get(c, index))
    ensures Exact(c) ==> Exact(Get(c, index))
  {
    if c.partIndex[index] != NONE {
      TouchInv(c, c.partIndex[index]);
      RenormalisedInv(Touch(c, c.partIndex[index]));
    }
    GetKeepsTables(c, index);
    hide Inv; hide Touch; hide Renormalised;
  }
}
