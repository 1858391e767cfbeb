/**
  `CMessageArray`: a ring of messages. A message is a C string, cut to the length of a slot; logging
  to a file, formatting and locking are left out.
 */
module MessageArrays {
  /** What a slot keeps of a message. */
  function Cut(s: string, length: nat): string {
    if |s| >= length then s[..length] else s
  }

  /** The slot that holds the `j`-th most recent message: j + 1 slots back, around the ring. */
  function SlotOf(current: int, max: nat, j: int): int {
    if j < current then current - 1 - j else current - 1 - j + max
  }

  /** `operator []`: `gap` is a BYTE. */
  function SlotAt(current: int, max: nat, i: int): int {
    var gap := (max - i) % 256;
    if gap > current then current + max - gap else current - gap
  }

  /** One index: right below the 256th most recent one, and for the oldest of a multiple of 256. */
  lemma OneIndexRightIff(current: int, max: nat, j: int)
    requires 0 < max && 0 <= current < max && 0 <= j < max
    ensures SlotAt(current, max, max - 1 - j) == SlotOf(current, max, j) <==>
      j < 255 || (j == max - 1 && max % 256 == 0)
  {
    var gap := (j + 1) % 256;
    assert gap <= j + 1 && (gap == j + 1 <==> j < 255);
  }

  /** Which message an index gives: that 256 or a multiple of it more recent, or else the oldest one. */
  lemma WhichMessage(current: int, max: nat, j: int)
    requires 0 < max && 0 <= current < max && 0 <= j < max
    ensures SlotAt(current, max, max - 1 - j)
         == if j % 256 == 255 then current else SlotOf(current, max, j % 256)
  {
    assert (j + 1) % 256 == if j % 256 == 255 then 0 else j % 256 + 1;
  }

  /** The ring can be read through `operator []` exactly if it has at most 256 slots. */
  lemma IndexRightIff(current: int, max: nat)
    requires 0 < max && 0 <= current < max
    ensures (forall j :: 0 <= j < max ==> SlotAt(current, max, max - 1 - j) == SlotOf(current, max, j)) <==> max <= 256
  {
    forall j | 0 <= j < max
      ensures SlotAt(current, max, max - 1 - j) == SlotOf(current, max, j) <==>
        j < 255 || (j == max - 1 && max % 256 == 0)
    {
      OneIndexRightIff(current, max, j);
    }
    if max > 256 {
      assert SlotAt(current, max, max - 1 - 255) != SlotOf(current, max, 255);
    }
  }

  /** The slots show the last `n` of the messages added since the ring was last cleared. */
  ghost predicate Shows(slots: seq<string>, current: int, length: nat, history: seq<string>, n: nat) {
    && 0 <= current < |slots| && n <= |slots|
    && forall j :: 0 <= j < n ==>
         slots[SlotOf(current, |slots|, j)]
         == if j < |history| then Cut(history[|history| - 1 - j], length) else ""
  }

  /** Whatever the current slot holds, the oldest message, is overwritten. */
  lemma AddShows(slots: seq<string>, current: int, length: nat, history: seq<string>, s: string)
    requires slots != [] && Shows(slots, current, length, history, |slots| - 1)
    ensures var next := if current + 1 == |slots| then 0 else current + 1;
      Shows(slots[current := Cut(s, length)], next, length, history + [s], |slots|)
  {
    var next, slots' := if current + 1 == |slots| then 0 else current + 1, slots[current := Cut(s, length)];
    forall j | 0 <= j < |slots|
      ensures slots'[SlotOf(next, |slots|, j)]
           == if j < |history| + 1 then Cut((history + [s])[|history| - j], length) else ""
    {
      if j > 0 {
        assert SlotOf(next, |slots|, j) == SlotOf(current, |slots|, j - 1);
      }
    }
  }

  class MessageArray {
    const length: nat
    var messages: array<string>
    var current: nat
    ghost var history: seq<string>

    ghost predicate Valid()
      reads this, messages
    {
      messages.Length > 0 && Shows(messages[..], current, length, history, messages.Length)
    }

    /** As `Valid`, but the current slot may have been filled through `GetCurrent`. */
    ghost predicate ValidButCurrent()
      reads this, messages
    {
      && messages.Length > 0 && Shows(messages[..], current, length, history, messages.Length - 1)
      && |messages[current]| <= length
    }

    /** `Init`: all slots are empty. */
    constructor (max: nat, length: nat)
      requires max > 0
      ensures Valid() && fresh(messages) && messages.Length == max && history == []
      ensures this.length == length
    {
      this.length := length;
      current, history := 0, [];
      var m := new string[max];
      for i := 0 to max
        invariant forall j :: 0 <= j < i ==> m[j] == ""
      {
        m[i] := "";
      }
      messages := m;
    }

    /** A message that does not fit is copied character by character up to the length of a slot. */
    method Add(str: string)
      requires Valid()
      modifies this, messages
      ensures Valid() && history == old(history) + [str] && messages == old(messages)
      ensures messages[old(current)] == if |str| >= length then str[..length] else str
    {
      AddShows(messages[..], current, length, history, str);
      ghost var next := messages[..][current := Cut(str, length)];
      if |str| >= length {
        var copied := "";
        for i := 0 to length
          invariant copied == str[..i]
        {
          copied := copied + [str[i]];
        }
        messages[current] := copied;
      } else {
        messages[current] := str;
      }
      assert messages[..] == next;
      current := current + 1;
      if current == messages.Length {
        current := 0;
      }
      history := history + [str];
    }

    /** `[max - 1 - j]` is the j-th most recent message for all j below 255, and for the last if 256 divides max. */
    method At(i: nat) returns (message: string)
      requires Valid() && i < messages.Length
      ensures 0 <= SlotAt(current, messages.Length, i) < messages.Length
      ensures message == messages[SlotAt(current, messages.Length, i)]
      ensures var j := messages.Length - 1 - i;
        j < 255 || (i == 0 && messages.Length % 256 == 0) ==>
          if j >= |history| then message == ""
          else if |history[|history| - 1 - j]| >= length then message == history[|history| - 1 - j][..length]
          else message == history[|history| - 1 - j]
    {
      OneIndexRightIff(current, messages.Length, messages.Length - 1 - i);
      assert messages[..][SlotAt(current, messages.Length, i)] == messages[SlotAt(current, messages.Length, i)];
      var gap := (messages.Length - i) % 256;
      if gap > current {
        return messages[current + messages.Length - gap];
      }
      message := messages[current - gap];
    }

    /** What was put into the current slot becomes the most recent message. */
    method Next()
      requires ValidButCurrent()
      modifies this
      ensures Valid() && messages == old(messages) && history == old(history + [messages[current]])
    {
      AddShows(messages[..], current, length, history, messages[current]);
      assert Cut(messages[current], length) == messages[current];
      assert messages[..][current := Cut(messages[current], length)] == messages[..];
      history := history + [messages[current]];
      current := current + 1;
      if current == messages.Length {
        current := 0;
      }
    }

    method Clear()
      requires Valid()
      modifies `history, messages
      ensures Valid() && history == []
    {
      for i := 0 to messages.Length
        invariant forall j :: 0 <= j < i ==> messages[j] == ""
      {
        messages[i] := "";
      }
      history := [];
    }
  }
}
