/**
 * The pool of decode surfaces that both VAAPI engines keep: which surface a
 * picture may go into, and what export and release do to one.
 */
module Surfaces {
  import opened Wrappers
  import opened Counting

  /** A surface; `exported` means its dma-buf exists. */
  datatype Slot = Slot(isReference: bool, checkedOut: bool, exported: bool)

  function NewPool(size: nat): (slots: seq<Slot>)
    ensures |slots| == size && forall i :: 0 <= i < size ==> slots[i] == Slot(false, false, false)
  {
    seq(size, _ => Slot(false, false, false))
  }

  function Cleared(slots: seq<Slot>, gone: set<nat>): (r: seq<Slot>)
    ensures |r| == |slots|
    ensures forall i :: 0 <= i < |r| ==> r[i] == if i in gone then slots[i].(isReference := false) else slots[i]
  {
    seq(|slots|, i requires 0 <= i < |slots| => if i in gone then slots[i].(isReference := false) else slots[i])
  }

  /** Neither a reference, nor with the consumer, nor parked for it. */
  predicate Free(slots: seq<Slot>, haveReady: bool, readySlot: nat, i: nat)
    requires i < |slots|
  {
    !slots[i].isReference && !slots[i].checkedOut && !(haveReady && i == readySlot)
  }

  /** The first free surface. */
  function FreeSlot(slots: seq<Slot>, haveReady: bool, readySlot: nat, from: nat): (r: Option<nat>)
    requires from <= |slots|
    ensures r.Some? ==> from <= r.value < |slots| && Free(slots, haveReady, readySlot, r.value)
    ensures r.Some? ==> forall i :: from <= i < r.value ==> !Free(slots, haveReady, readySlot, i)
    ensures r.None? <==> forall i :: from <= i < |slots| ==> !Free(slots, haveReady, readySlot, i)
    decreases |slots| - from
  {
    if from == |slots| then None
    else if Free(slots, haveReady, readySlot, from) then Some(from)
    else FreeSlot(slots, haveReady, readySlot, from + 1)
  }

  method PickFreeSlot(slots: seq<Slot>, haveReady: bool, readySlot: nat) returns (slot: Option<nat>)
    ensures slot == FreeSlot(slots, haveReady, readySlot, 0)
  {
    for i := 0 to |slots|
      invariant FreeSlot(slots, haveReady, readySlot, 0) == FreeSlot(slots, haveReady, readySlot, i)
    {
      if !slots[i].isReference && !slots[i].checkedOut && !(haveReady && i == readySlot) {
        return Some(i);
      }
    }
    return None;
  }

  /** The parked surface goes to the consumer if its dma-buf exists or can be made. */
  function HandedOut(slots: seq<Slot>, slot: nat, exports: bool): (r: seq<Slot>)
    requires slot < |slots|
    ensures |r| == |slots|
  {
    var exported := slots[slot].exported || exports;
    slots[slot := slots[slot].(exported := exported, checkedOut := slots[slot].checkedOut || exported)]
  }

  function Released(slots: seq<Slot>, slot: nat): (r: seq<Slot>)
    ensures |r| == |slots|
  {
    if slot >= |slots| then slots else slots[slot := slots[slot].(checkedOut := false)]
  }

  function CheckedOut(slots: seq<Slot>): set<nat> {
    set i | 0 <= i < |slots| && slots[i].checkedOut
  }

  /** A surface is free whenever the pool exceeds references, surfaces out and the parked one. */
  lemma FreeSlotExists(slots: seq<Slot>, haveReady: bool, readySlot: nat, references: set<nat>)
    requires forall i :: 0 <= i < |slots| && slots[i].isReference ==> i in references
    requires |slots| > |references| + |CheckedOut(slots)| + 1
    ensures FreeSlot(slots, haveReady, readySlot, 0).Some?
  {
    if FreeSlot(slots, haveReady, readySlot, 0).None? {
      var c, r := CheckedOut(slots), {readySlot};
      forall i | i in Indices(|slots|)
        ensures i in references + c + r
      {
        assert !Free(slots, haveReady, readySlot, i);
      }
      SubsetBound(Indices(|slots|), references + c + r);
      UnionBound(references + c, r);
      UnionBound(references, c);
    }
  }

  lemma ClearNothing(slots: seq<Slot>)
    ensures slots == Cleared(slots, {})
  {
  }

  lemma ClearedStep(slots: seq<Slot>, gone: set<nat>, b: nat)
    requires b < |slots|
    ensures var before := Cleared(slots, gone);
      before[b := before[b].(isReference := false)] == Cleared(slots, gone + {b})
  {
  }

  // ----- The consumer's side, told by the calls alone

  /** What the calls so far say: the parked surface, those once exported, those handed out and not released. */
  datatype Told = Told(parked: Option<nat>, exported: set<nat>, held: set<nat>)

  /** Nothing out, nothing parked, nothing exported. */
  const NOTHING: Told := Told(None, {}, {})

  /** Acquire takes what is parked; it hands it out if its dma-buf exists or can be made. */
  function ToldAcquire(t: Told, exports: bool): Told {
    if t.parked == None then t
    else
      var s := t.parked.value;
      if exports || s in t.exported then Told(None, t.exported + {s}, t.held + {s}) else t.(parked := None)
  }

  /** An engine's own fields say what the calls say. */
  ghost predicate Tells(slots: seq<Slot>, haveReady: bool, readySlot: nat, t: Told) {
    && t.parked == (if haveReady then Some(readySlot) else None)
    && (forall i: nat :: i in t.held <==> i < |slots| && slots[i].checkedOut)
    && (forall i: nat :: i in t.exported <==> i < |slots| && slots[i].exported)
  }
}
