/** The min-heap of deadlines in shared/src/MRD_heap.cpp. Every item knows the entry it belongs to
    and keeps that entry's `heap_idx` equal to the item's own position, by the moving-hole technique:
    the item on the move is held aside while others are shifted into its place. */
module Heaps {
  import opened Entries

  datatype HeapItem = HeapItem(val: nat, ref: Entry)

  function Parent(pos: nat): nat
    requires pos > 0
  {
    (pos + 1) / 2 - 1
  }

  function Left(pos: nat): nat { pos * 2 + 1 }

  function Right(pos: nat): nat { pos * 2 + 2 }

  lemma Children(pos: nat)
    ensures Parent(Left(pos)) == Parent(Right(pos)) == pos
    ensures forall i: nat :: i > 0 && Parent(i) == pos ==> i == Left(pos) || i == Right(pos)
  {
  }

  /** Every item is at least its parent, except where the hole is involved. */
  ghost predicate OrderedOff(a: seq<HeapItem>, hole: int) {
    forall i: nat :: 0 < i < |a| && i != hole && Parent(i) != hole ==> a[Parent(i)].val <= a[i].val
  }

  ghost predicate Ordered(a: seq<HeapItem>) {
    forall i: nat :: 0 < i < |a| ==> a[Parent(i)].val <= a[i].val
  }

  /** The items below the hole are at least the item above it. */
  ghost predicate SpansHole(a: seq<HeapItem>, hole: nat) {
    0 < hole < |a| ==>
      forall i: nat :: 0 < i < |a| && Parent(i) == hole ==> a[Parent(hole)].val <= a[i].val
  }

  /** The items below the hole are at least `v`. */
  ghost predicate Below(a: seq<HeapItem>, hole: nat, v: nat) {
    forall i: nat :: 0 < i < |a| && Parent(i) == hole ==> v <= a[i].val
  }

  /** The items other than the one in the hole are those of `d` other than `held`, each entry
      knowing its item's position. */
  ghost predicate Linked(a: seq<HeapItem>, d: map<Entry, nat>, hole: int, held: Entry?)
    reads d.Keys`heap_idx
  {
    && (forall i :: 0 <= i < |a| && i != hole ==>
          a[i].ref in d && d[a[i].ref] == a[i].val && a[i].ref != held && a[i].ref.heap_idx == i)
    && (forall e :: e in d && e != held ==>
          0 <= e.heap_idx < |a| && e.heap_idx != hole && a[e.heap_idx].ref == e)
  }

  // ---------------------------------------------------------------- order, with a hole

  /** Shifting the parent of the hole down into it moves the hole up. */
  lemma ShiftDownFromParent(a: seq<HeapItem>, hole: nat, v: nat)
    requires 0 < hole < |a| && OrderedOff(a, hole) && SpansHole(a, hole)
    requires a[Parent(hole)].val > v
    ensures var a', hole' := a[hole := a[Parent(hole)]], Parent(hole);
            OrderedOff(a', hole') && SpansHole(a', hole') && Below(a', hole', v)
  {
  }

  /** Shifting the smaller child of the hole up into it moves the hole down. */
  lemma ShiftUpFromChild(a: seq<HeapItem>, hole: nat, child: nat)
    requires hole < |a| && OrderedOff(a, hole)
    requires 0 < child < |a| && Parent(child) == hole && Below(a, hole, a[child].val)
    requires SpansHole(a, hole)
    ensures var a' := a[hole := a[child]];
            OrderedOff(a', child) && SpansHole(a', child)
  {
    Children(hole);
  }

  /** An item that is at least its parent and at most its children may be put into the hole. */
  lemma Fill(a: seq<HeapItem>, hole: nat, t: HeapItem)
    requires hole < |a| && OrderedOff(a, hole) && Below(a, hole, t.val)
    requires hole > 0 ==> a[Parent(hole)].val <= t.val
    ensures Ordered(a[hole := t])
  {
  }

  /** The first item of an ordered heap is a least one. */
  lemma {:induction false} FirstIsLeast(a: seq<HeapItem>, i: nat)
    requires Ordered(a) && i < |a|
    ensures a[0].val <= a[i].val
  {
    if i > 0 {
      FirstIsLeast(a, Parent(i));
    }
  }

  class Heap {
    var items: seq<HeapItem>
    /** The deadline of every entry that has one. */
    ghost var deadlines: map<Entry, nat>

    ghost predicate Valid()
      reads this, deadlines.Keys`heap_idx
    {
      Ordered(items) && Linked(items, deadlines, -1, null)
    }

    /** All is well except at `pos`, where the item of one entry of `deadlines` is out of order and
        not yet known to its entry. */
    ghost predicate Disturbed(pos: nat)
      reads this, deadlines.Keys`heap_idx
    {
      && pos < |items| && OrderedOff(items, pos) && SpansHole(items, pos)
      && Held(items[pos]) && Linked(items, deadlines, pos, items[pos].ref)
    }

    ghost predicate Held(t: HeapItem)
      reads this`deadlines
    {
      t.ref in deadlines && deadlines[t.ref] == t.val
    }

    constructor ()
      ensures Valid() && deadlines == map[]
    {
      items, deadlines := [], map[];
    }

    /** One turn of a moving-hole loop: the item at `src` moves into the hole. */
    method Shift(src: nat, hole: nat, ghost held: Entry)
      requires src < |items| && hole < |items| && src != hole && held in deadlines
      requires Linked(items, deadlines, hole, held)
      modifies this`items, deadlines.Keys`heap_idx
      ensures items == old(items)[hole := old(items)[src]] && Linked(items, deadlines, src, held)
    {
      items := items[hole := items[src]];
      items[hole].ref.heap_idx := hole;
    }

    /** The end of a moving-hole loop: the item held aside settles in the hole. */
    method Settle(hole: nat, t: HeapItem)
      requires hole < |items| && Held(t) && Linked(items, deadlines, hole, t.ref)
      modifies this`items, deadlines.Keys`heap_idx
      ensures items == old(items)[hole := t] && Linked(items, deadlines, -1, null)
    {
      items := items[hole := t];
      items[hole].ref.heap_idx := hole;
    }

    method Up(start: nat)
      requires Disturbed(start) && Below(items, start, items[start].val)
      modifies this`items, deadlines.Keys`heap_idx
      ensures Valid() && |items| == old(|items|)
    {
      hide OrderedOff;
      hide Ordered;
      hide SpansHole;
      hide Below;
      hide Linked;
      var pos: nat := start;
      var t := items[pos];
      while pos > 0 && items[Parent(pos)].val > t.val
        invariant pos < |items| == old(|items|)
        invariant OrderedOff(items, pos) && SpansHole(items, pos) && Below(items, pos, t.val)
        invariant Held(t) && Linked(items, deadlines, pos, t.ref)
      {
        ShiftDownFromParent(items, pos, t.val);
        Shift(Parent(pos), pos, t.ref);
        pos := Parent(pos);
      }
      Fill(items, pos, t);
      Settle(pos, t);
    }

    method Down(start: nat)
      requires Disturbed(start) && (start > 0 ==> items[Parent(start)].val <= items[start].val)
      modifies this`items, deadlines.Keys`heap_idx
      ensures Valid() && |items| == old(|items|)
    {
      hide OrderedOff;
      hide Ordered;
      hide SpansHole;
      hide Below;
      hide Linked;
      var pos: nat := start;
      var t := items[pos];
      while true
        invariant pos < |items| == old(|items|)
        invariant OrderedOff(items, pos) && SpansHole(items, pos)
        invariant pos > 0 ==> items[Parent(pos)].val <= t.val
        invariant Held(t) && Linked(items, deadlines, pos, t.ref)
        decreases |items| - pos
      {
        var l, r := Left(pos), Right(pos);
        var minPos, minVal := pos, t.val;
        if l < |items| && items[l].val < minVal {
          minPos, minVal := l, items[l].val;
        }
        if r < |items| && items[r].val < minVal {
          minPos, minVal := r, items[r].val;
        }
        Children(pos);
        BelowLeast(items, pos, minVal);
        if minPos == pos {
          break;
        }
        ShiftUpFromChild(items, pos, minPos);
        Shift(minPos, pos, t.ref);
        pos := minPos;
      }
      Fill(items, pos, t);
      Settle(pos, t);
    }

    method Update(pos: nat)
      requires Disturbed(pos)
      modifies this`items, deadlines.Keys`heap_idx
      ensures Valid() && |items| == old(|items|)
    {
      if pos > 0 && items[Parent(pos)].val > items[pos].val {
        Up(pos);
      } else {
        Down(pos);
      }
    }

    /** Removes the item at `pos`: the last item takes its place and finds its own. */
    method Erase(pos: nat)
      requires Valid() && pos < |items|
      modifies this`items, this`deadlines, deadlines.Keys`heap_idx
      ensures Valid() && deadlines == old(deadlines) - {old(items[pos].ref)}
      ensures |items| == old(|items|) - 1
    {
      hide Ordered;
      hide OrderedOff;
      hide SpansHole;
      hide Linked;
      Unlinked(items, deadlines, pos);
      ghost var a, erased := items, items[pos].ref;
      var last := items[|items| - 1];
      items := items[pos := last];
      items := items[..|items| - 1];
      deadlines := deadlines - {erased};
      Reorder(a, pos, last);
      if pos < |items| {
        Update(pos);
      }
    }

    /** Gives an entry the deadline of `t`: in the slot it has, or in a new one at the end. */
    method Upsert(slot: int, t: HeapItem)
      requires Valid()
      requires if 0 <= slot < |items| then items[slot].ref == t.ref else t.ref !in deadlines
      modifies this`items, this`deadlines, (deadlines.Keys + {t.ref})`heap_idx
      ensures Valid() && deadlines == old(deadlines)[t.ref := t.val]
      ensures |items| == if 0 <= slot < old(|items|) then old(|items|) else old(|items|) + 1
    {
      hide Ordered;
      hide OrderedOff;
      hide SpansHole;
      ghost var a := items;
      var pos := slot;
      if 0 <= pos < |items| {
        items := items[pos := t];
        Replaced(a, pos, t);
      } else {
        pos := |items|;
        items := items + [t];
        Pushed(a, t);
      }
      deadlines := deadlines[t.ref := t.val];
      Update(pos);
    }
  }

  /** Without the item at `pos`, the last one is in its place, not yet known to its entry there. */
  lemma Unlinked(a: seq<HeapItem>, d: map<Entry, nat>, pos: nat)
    requires Linked(a, d, -1, null) && pos < |a|
    ensures var last := a[|a| - 1];
            var a', d' := a[pos := last][..|a| - 1], d - {a[pos].ref};
            if pos < |a'| then Linked(a', d', pos, last.ref) && last.ref in d' && d'[last.ref] == last.val
            else Linked(a', d', -1, null)
  {
  }

  lemma BelowLeast(a: seq<HeapItem>, hole: nat, v: nat)
    requires Left(hole) < |a| ==> v <= a[Left(hole)].val
    requires Right(hole) < |a| ==> v <= a[Right(hole)].val
    ensures Below(a, hole, v)
  {
    Children(hole);
  }

  lemma {:induction false} GrandParent(a: seq<HeapItem>, hole: nat)
    requires Ordered(a)
    ensures SpansHole(a, hole)
  {
    if 0 < hole < |a| {
      forall i: nat | 0 < i < |a| && Parent(i) == hole ensures a[Parent(hole)].val <= a[i].val {
        assert a[Parent(hole)].val <= a[hole].val <= a[i].val;
      }
    }
  }

  lemma Replaced(a: seq<HeapItem>, pos: nat, t: HeapItem)
    requires Ordered(a) && pos < |a|
    ensures OrderedOff(a[pos := t], pos) && SpansHole(a[pos := t], pos)
  {
    GrandParent(a, pos);
  }

  lemma Pushed(a: seq<HeapItem>, t: HeapItem)
    requires Ordered(a)
    ensures OrderedOff(a + [t], |a|) && SpansHole(a + [t], |a|)
  {
  }

  lemma Reorder(a: seq<HeapItem>, pos: nat, t: HeapItem)
    requires Ordered(a) && pos < |a|
    ensures var a' := a[pos := t][..|a| - 1];
            if pos < |a'| then OrderedOff(a', pos) && SpansHole(a', pos) else Ordered(a')
  {
    GrandParent(a, pos);
  }
}
