/** Open addressing with linear probing, as the string map and the pointer map of
    src/base/intern.c and the lazy name set of src/code/core.c use it.  Where an item
    starts is an arbitrary function, so nothing depends on the quality of a hash. */
module Probe {

  datatype Slot<T> = Empty | Full(item: T)

  /** (i + 1) & (cap - 1): the slot after `i`, round to the first. */
  function Next(i: nat, cap: nat): (j: nat)
    requires i < cap
    ensures j < cap
  {
    if i + 1 == cap then 0 else i + 1
  }

  /** The `d`-th slot visited from `start`. */
  function At(start: nat, d: nat, cap: nat): (i: nat)
    requires cap > 0
    ensures i < cap
  {
    if d == 0 then start % cap else Next(At(start, d - 1, cap), cap)
  }

  /** The first `d` slots visited from `start` are taken. */
  ghost predicate Taken<T>(slots: seq<Slot<T>>, start: nat, d: nat) {
    |slots| > 0 && forall k :: 0 <= k < d ==> slots[At(start, k, |slots|)].Full?
  }

  /** Slot `i` is met when probing for its item. */
  ghost predicate Reached<T>(slots: seq<Slot<T>>, start: nat, i: nat) {
    |slots| > 0 && exists d: nat :: At(start, d, |slots|) == i && Taken(slots, start, d)
  }

  ghost predicate Valid<T(!new)>(slots: seq<Slot<T>>, home: T -> nat) {
    && |slots| > 0
    && forall i {:trigger Reached(slots, home(slots[i].item), i)} ::
         0 <= i < |slots| && slots[i].Full? ==> Reached(slots, home(slots[i].item), i)
  }

  ghost function Items<T>(slots: seq<Slot<T>>): set<T> {
    set i | 0 <= i < |slots| && slots[i].Full? :: slots[i].item
  }

  ghost function FullSlots<T>(slots: seq<Slot<T>>): set<nat> {
    set i: nat | i < |slots| && slots[i].Full?
  }

  function Blank<T>(cap: nat): seq<Slot<T>> {
    seq(cap, _ => Empty)
  }

  lemma BlankIsEmpty<T(!new)>(cap: nat, home: T -> nat)
    requires cap > 0
    ensures Valid(Blank<T>(cap), home) && Items(Blank<T>(cap)) == {} && FullSlots(Blank<T>(cap)) == {}
  {
  }

  // ---------------------------------------------------------- an empty slot is met

  lemma {:induction false} AtLinear(start: nat, d: nat, cap: nat)
    requires cap > 0 && d < cap
    ensures var r := start % cap; At(start, d, cap) == if r + d < cap then r + d else r + d - cap
    decreases d
  {
    if d > 0 {
      AtLinear(start, d - 1, cap);
    }
  }

  /** A table with fewer taken slots than slots has an empty one. */
  lemma HasEmpty<T>(slots: seq<Slot<T>>)
    requires |FullSlots(slots)| < |slots|
    ensures exists i :: 0 <= i < |slots| && slots[i].Empty?
  {
    if forall i :: 0 <= i < |slots| ==> slots[i].Full? {
      AllFull(slots);
      assert false;
    }
  }

  lemma {:induction false} AllFull<T>(slots: seq<Slot<T>>)
    requires forall i :: 0 <= i < |slots| ==> slots[i].Full?
    ensures |FullSlots(slots)| == |slots|
    decreases |slots|
  {
    if slots != [] {
      var n := |slots| - 1;
      AllFull(slots[..n]);
      assert FullSlots(slots) == FullSlots(slots[..n]) + {n};
    }
  }

  /** Probing from anywhere ends within one round. */
  lemma EmptyWithinReach<T>(slots: seq<Slot<T>>, start: nat) returns (d: nat)
    requires |FullSlots(slots)| < |slots|
    ensures d < |slots| && slots[At(start, d, |slots|)].Empty?
  {
    HasEmpty(slots);
    var i: nat :| i < |slots| && slots[i].Empty?;
    var r := start % |slots|;
    d := if i >= r then i - r else i + |slots| - r;
    AtLinear(start, d, |slots|);
  }

  // ------------------------------------------------------------------------ search

  /** How many slots are taken from `start` before the first empty one. */
  ghost predicate GapAt<T>(slots: seq<Slot<T>>, start: nat, d: nat) {
    |slots| > 0 && slots[At(start, d, |slots|)].Empty? && Taken(slots, start, d)
  }

  /** An item met by probing lies before the first empty slot. */
  lemma BeforeGap<T(!new)>(slots: seq<Slot<T>>, home: T -> nat, x: T, gap: nat)
    requires Valid(slots, home) && x in Items(slots) && GapAt(slots, home(x), gap)
    ensures exists k: nat :: k < gap && slots[At(home(x), k, |slots|)] == Full(x)
  {
    var i :| 0 <= i < |slots| && slots[i] == Full(x);
    assert Reached(slots, home(slots[i].item), i);
    var k: nat :| At(home(x), k, |slots|) == i && Taken(slots, home(x), k);
    assert k < gap;
  }

  // ------------------------------------------------------------------------ insert

  /** Filling the first empty slot from the item's home keeps the table valid. */
  lemma InsertValid<T(!new)>(slots: seq<Slot<T>>, home: T -> nat, x: T, gap: nat)
    requires Valid(slots, home) && GapAt(slots, home(x), gap)
    ensures var t := slots[At(home(x), gap, |slots|) := Full(x)];
            Valid(t, home) && Items(t) == Items(slots) + {x} && |FullSlots(t)| == |FullSlots(slots)| + 1
  {
    var at := At(home(x), gap, |slots|);
    var t := slots[at := Full(x)];
    forall i | 0 <= i < |t| && t[i].Full?
      ensures Reached(t, home(t[i].item), i)
    {
      var y := t[i].item;
      if i == at {
        assert At(home(y), gap, |t|) == i && Taken(t, home(y), gap);
      } else {
        assert Reached(slots, home(slots[i].item), i);
        var d: nat :| At(home(y), d, |slots|) == i && Taken(slots, home(y), d);
        assert At(home(y), d, |t|) == i && Taken(t, home(y), d);
      }
    }
    assert FullSlots(t) == FullSlots(slots) + {at};
    assert Items(t) == Items(slots) + {x} by {
      assert t[at] == Full(x);
      forall i | 0 <= i < |slots| && slots[i].Full?
        ensures slots[i].item in Items(t)
      {
        assert t[i] == slots[i];
      }
    }
  }

  /** The insertion loop: on to the first empty slot. */
  method FindEmpty<T(!new)>(slots: seq<Slot<T>>, start: nat) returns (idx: nat, ghost gap: nat)
    requires |FullSlots(slots)| < |slots|
    ensures idx < |slots| && idx == At(start, gap, |slots|) && GapAt(slots, start, gap)
  {
    ghost var e := EmptyWithinReach(slots, start);
    idx := start % |slots|;
    gap := 0;
    while slots[idx].Full?
      invariant idx == At(start, gap, |slots|) && Taken(slots, start, gap) && gap <= e
      decreases e - gap
    {
      idx := Next(idx, |slots|);
      gap := gap + 1;
    }
  }

  lemma FullSlotsExtend<T>(slots: seq<Slot<T>>, n: nat)
    requires n < |slots|
    ensures FullSlots(slots[..n + 1]) == FullSlots(slots[..n]) + (if slots[n].Full? then {n} else {})
    ensures Items(slots[..n + 1]) == Items(slots[..n]) + (if slots[n].Full? then {slots[n].item} else {})
  {
    var a, b := slots[..n], slots[..n + 1];
    assert b[n] == slots[n];
    forall i | 0 <= i < |a| && a[i].Full?
      ensures a[i].item in Items(b)
    {
      assert b[i] == a[i];
    }
  }

  lemma FullSlotsPrefix<T>(slots: seq<Slot<T>>, n: nat)
    requires n <= |slots|
    ensures |FullSlots(slots[..n])| <= |FullSlots(slots)|
    decreases |slots| - n
  {
    if n < |slots| {
      FullSlotsExtend(slots, n);
      FullSlotsPrefix(slots, n + 1);
    } else {
      assert slots[..n] == slots;
    }
  }

  /** An item that is known to be new, at the first empty slot from its home. */
  method Insert<T(!new)>(slots: seq<Slot<T>>, home: T -> nat, x: T) returns (r: seq<Slot<T>>)
    requires Valid(slots, home) && |FullSlots(slots)| < |slots|
    ensures |r| == |slots| && Valid(r, home)
    ensures Items(r) == Items(slots) + {x} && |FullSlots(r)| == |FullSlots(slots)| + 1
  {
    var idx, gap := FindEmpty(slots, home(x));
    InsertValid(slots, home, x, gap);
    r := slots[idx := Full(x)];
  }

  /** Growth: every item moves to a bigger table. */
  method Rehash<T(!new)>(before: seq<Slot<T>>, home: T -> nat, cap: nat) returns (slots: seq<Slot<T>>)
    requires |FullSlots(before)| < cap
    ensures |slots| == cap && Valid(slots, home)
    ensures Items(slots) == Items(before) && |FullSlots(slots)| == |FullSlots(before)|
  {
    slots := Blank<T>(cap);
    BlankIsEmpty<T>(cap, home);
    var i := 0;
    while i < |before|
      invariant 0 <= i <= |before| && |slots| == cap && Valid(slots, home)
      invariant Items(slots) == Items(before[..i]) && |FullSlots(slots)| == |FullSlots(before[..i])|
    {
      FullSlotsExtend(before, i);
      FullSlotsPrefix(before, i);
      if before[i].Full? {
        slots := Insert(slots, home, before[i].item);
      }
      i := i + 1;
    }
    assert before[..|before|] == before;
  }
}
