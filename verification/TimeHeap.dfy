/** The time event heap of hrp3_wo_tecs/kernel/time_event.c: an array heap of time event blocks
    in which each block knows its slot, so that any block can be deleted. Event times are 32-bit
    and wrap; they are compared by their distance from a boundary time. */
module TimeHeap {

  const TWO32: int := 0x1_0000_0000

  /** EVTTIM: an unsigned 32-bit time. */
  type EvtTim = t: int | 0 <= t < TWO32 witness 0

  function Wrap(t: int): EvtTim {
    t % TWO32
  }

  /** EVTTIM_ADVANCE: how far a time lies past the boundary, in 32-bit arithmetic. */
  function Advance(t: int, boundary: int): EvtTim {
    (t - boundary) % TWO32
  }

  /** TMEVTB. The ghost fields remember the unbounded time behind the wrapped one, and when and
      for how long the event was registered. */
  class Block {
    var evttim: EvtTim
    var node: nat
    ghost var due: int
    ghost var regHrt: int
    ghost var regAdjust: int
    ghost var reltim: int

    constructor () {
      evttim, node := 0, 0;
    }
  }

  class Heap {
    /** Slot 0 is not used for a block; blocks live in slots 1 to last. */
    const nodes: array<Block?>
    var last: nat
    /** The registered blocks. */
    ghost var blocks: set<Block>

    constructor (capacity: nat)
      ensures Valid() && blocks == {} && last == 0 && fresh(nodes) && nodes.Length == capacity + 1
    {
      nodes := new Block?[capacity + 1](_ => null);
      last := 0;
      blocks := {};
    }

    /** Every registered block sits in exactly one slot, and that slot is the one it names. */
    ghost predicate Valid()
      reads this, nodes, blocks
    {
      last < nodes.Length && Filled(0)
    }

    /** The same while the slot called hole is free. Slot 0 as the hole means there is none. */
    ghost predicate Filled(hole: nat)
      requires last < nodes.Length
      reads this, nodes, blocks
    {
      && (forall i :: 1 <= i <= last && i != hole ==>
            nodes[i] != null && nodes[i] in blocks && nodes[i].node == i)
      && (forall b {:trigger b in blocks} :: b in blocks ==> 1 <= b.node <= last && b.node != hole && nodes[b.node] == b)
    }

    /** The comparison keys of the slots with respect to a boundary. The keys of slot 0 and of the
        hole mean nothing. */
    ghost function Keys(hole: nat, boundary: int): (k: seq<int>)
      requires last < nodes.Length && Filled(hole)
      reads this, nodes, blocks
      ensures Reflects(k, hole, boundary)
    {
      KeysTo(last + 1, hole, boundary)
    }

    ghost function KeysTo(n: nat, hole: nat, boundary: int): (k: seq<int>)
      requires n <= last + 1 <= nodes.Length && Filled(hole)
      reads this, nodes, blocks
      ensures |k| == n
      ensures forall i :: 1 <= i < n && i != hole ==> k[i] == Advance(nodes[i].evttim, boundary)
    {
      if n == 0 then [] else
      KeysTo(n - 1, hole, boundary)
        + [if n == 1 || n - 1 == hole then 0 else Advance(nodes[n - 1].evttim, boundary)]
    }

    ghost predicate Reflects(k: seq<int>, hole: nat, boundary: int)
      requires last < nodes.Length && Filled(hole)
      reads this, nodes, blocks
    {
      && |k| == last + 1
      && forall i :: 1 <= i <= last && i != hole ==> k[i] == Advance(nodes[i].evttim, boundary)
    }

    lemma KeyForEachSlot(k: seq<int>, hole: nat, boundary: int)
      requires last < nodes.Length && Filled(hole) && Reflects(k, hole, boundary)
      ensures |k| == last + 1
    {
    }

    /** The heap order with respect to a boundary: no block is due after its children. */
    ghost predicate Ordered(boundary: int)
      requires Valid()
      reads this, nodes, blocks
    {
      IsHeap(Keys(0, boundary))
    }

    /** tmevt_up: moves the hole toward the top until a block due at evttim fits. */
    method Up(start: nat, evttim: EvtTim, boundary: int, ghost k0: seq<int>)
      returns (hole: nat, ghost k: seq<int>)
      requires last < nodes.Length && 1 <= start <= last && Filled(start) && Reflects(k0, start, boundary)
      requires HeapAround(k0, start) && FitsAbove(k0, start, Advance(evttim, boundary))
      modifies nodes, blocks`node
      ensures 1 <= hole <= start && Filled(hole) && Reflects(k, hole, boundary)
      ensures HeapAround(k, hole) && Fits(k, hole, Advance(evttim, boundary))
      ensures forall i :: start < i < nodes.Length ==> nodes[i] == old(nodes[i])
      ensures hole > 1 ==> nodes[1] == old(nodes[1])
      ensures start > 1 && k0[1] <= Advance(evttim, boundary) ==> hole > 1
    {
      hole, k := start, k0;
      while hole > 1
        invariant 1 <= hole <= start && Filled(hole) && Reflects(k, hole, boundary)
        invariant HeapAround(k, hole) && FitsAbove(k, hole, Advance(evttim, boundary))
        invariant forall i :: start < i < nodes.Length ==> nodes[i] == old(nodes[i])
        invariant hole > 1 ==> nodes[1] == old(nodes[1]) && k[1] == k0[1]
        invariant start > 1 && k0[1] <= Advance(evttim, boundary) ==> hole > 1
      {
        var parent := hole / 2;
        if Advance(nodes[parent].evttim, boundary) <= Advance(evttim, boundary) {
          break;
        }
        HoleUp(k, hole, Advance(evttim, boundary));
        Move(hole, parent, boundary, k);
        k := k[hole := k[parent]];
        hole := parent;
      }
    }

    /** tmevt_down: moves the hole toward the leaves until a block due at evttim fits. */
    method Down(start: nat, evttim: EvtTim, boundary: int, ghost k0: seq<int>)
      returns (hole: nat, ghost k: seq<int>)
      requires last < nodes.Length && 1 <= start <= last + 1 && Filled(start) && Reflects(k0, start, boundary)
      requires HeapAround(k0, start) && FitsBelow(k0, start, Advance(evttim, boundary))
      modifies nodes, blocks`node
      ensures start <= hole && (hole <= last || hole == start) && Filled(hole) && Reflects(k, hole, boundary)
      ensures HeapAround(k, hole) && Fits(k, hole, Advance(evttim, boundary))
      ensures forall i :: 0 <= i < start || last < i < nodes.Length ==> nodes[i] == old(nodes[i])
    {
      hide FitsAbove, FitsBelow, HeapAround, Filled, Reflects, Advance;
      KeyForEachSlot(k0, start, boundary);
      hole, k := start, k0;
      while 2 * hole <= last
        invariant start <= hole && (hole <= last || hole == start) && Filled(hole) && Reflects(k, hole, boundary)
        invariant |k| == last + 1 && HeapAround(k, hole) && FitsBelow(k, hole, Advance(evttim, boundary))
        invariant forall i :: 0 <= i < start || last < i < nodes.Length ==> nodes[i] == old(nodes[i])
      {
        var child := EarlierChild(hole, boundary, k);
        if Advance(evttim, boundary) <= Advance(nodes[child].evttim, boundary) {
          AboveLess(k, hole, Advance(evttim, boundary), k[child]);
          break;
        }
        HoleDown(k, hole, child, Advance(evttim, boundary));
        Move(hole, child, boundary, k);
        k := k[hole := k[child]];
        hole := child;
      }
      if 2 * hole > last {
        AboveLeaf(k, hole, Advance(evttim, boundary));
      }
    }

    /** The child of the hole that is due first. */
    method EarlierChild(hole: nat, boundary: int, ghost k: seq<int>) returns (child: nat)
      requires last < nodes.Length && 1 <= hole && 2 * hole <= last && Filled(hole) && Reflects(k, hole, boundary)
      ensures |k| == last + 1 && hole < child <= last && child / 2 == hole && FitsAbove(k, hole, k[child])
      ensures nodes[child] != null && Advance(nodes[child].evttim, boundary) == k[child]
    {
      child := 2 * hole;
      if child + 1 <= last
         && Advance(nodes[child + 1].evttim, boundary) < Advance(nodes[child].evttim, boundary) {
        child := child + 1;
      }
    }

    /** tmevtb_insert: registers a block. The top block changes only if the new one becomes it. */
    method Insert(b: Block, boundary: int)
      requires Valid() && Ordered(boundary) && b !in blocks && last + 1 < nodes.Length
      modifies this, nodes, blocks`node, b`node
      ensures Valid() && Ordered(boundary)
      ensures blocks == old(blocks) + {b} && last == old(last) + 1
      ensures b.node != 1 ==> old(last) >= 1 && nodes[1] == old(nodes[1])
    {
      ghost var k := Keys(0, boundary);
      last := last + 1;
      AddLast(k, Advance(b.evttim, boundary));
      var hole;
      hole, k := Up(last, b.evttim, boundary, k + [0]);
      Put(hole, b, boundary, k);
    }

    /** tmevtb_delete: removes a block, wherever it is. Removing another block leaves the top
        block in place. */
    method Delete(b: Block, boundary: int)
      requires Valid() && Ordered(boundary) && b in blocks
      modifies this, nodes, blocks`node
      ensures Valid() && Ordered(boundary)
      ensures blocks == old(blocks) - {b} && last == old(last) - 1
      ensures old(b.node) != 1 ==> last >= 1 && nodes[1] == old(nodes[1])
    {
      hide FitsAbove, FitsBelow, HeapAround, Ordered;
      var p := b.node;
      ghost var k := Shrink(b, boundary);
      if last < 1 {
        KeysAre(k, boundary);
        return;
      }
      Refill(p, nodes[last + 1], boundary, k);
    }

    /** Puts the block x of the former last slot back, in place of the block that was in slot p. */
    method Refill(p: nat, x: Block, boundary: int, ghost k0: seq<int>)
      requires last + 1 < nodes.Length && 1 <= p <= last + 1 && Filled(p) && Reflects(k0, p, boundary)
      requires x !in blocks && HeapAround(k0, p) && last >= 1
      requires k0[1] <= Advance(x.evttim, boundary) || p == 1
      requires p >= 2 && Advance(x.evttim, boundary) < k0[p / 2] ==>
                 p <= last && FitsAbove(k0, p, Advance(x.evttim, boundary))
      requires !(p >= 2 && Advance(x.evttim, boundary) < k0[p / 2]) ==>
                 FitsBelow(k0, p, Advance(x.evttim, boundary))
      modifies this`blocks, nodes, blocks`node, x`node
      ensures Valid() && Ordered(boundary)
      ensures blocks == old(blocks) + if p <= last then {x} else {}
      ensures p > 1 ==> nodes[1] == old(nodes[1])
    {
      hide Fits, FitsAbove, FitsBelow, HeapAround, Ordered, Filled, Reflects;
      var hole;
      ghost var k;
      hole, k := Settle(p, x, boundary, k0);
      if hole <= last {
        Put(hole, x, boundary, k);
      } else {
        NoHole(k, hole, boundary);
      }
    }

    /** Moves the hole from slot p to where the block x of the former last slot fits. */
    method Settle(p: nat, x: Block, boundary: int, ghost k0: seq<int>) returns (hole: nat, ghost k: seq<int>)
      requires last < nodes.Length && 1 <= p <= last + 1 && Filled(p) && Reflects(k0, p, boundary)
      requires x !in blocks && HeapAround(k0, p) && last >= 1
      requires k0[1] <= Advance(x.evttim, boundary) || p == 1
      requires p >= 2 && Advance(x.evttim, boundary) < k0[p / 2] ==>
                 p <= last && FitsAbove(k0, p, Advance(x.evttim, boundary))
      requires !(p >= 2 && Advance(x.evttim, boundary) < k0[p / 2]) ==>
                 FitsBelow(k0, p, Advance(x.evttim, boundary))
      modifies nodes, blocks`node
      ensures 1 <= hole && (hole <= last || hole == p) && Filled(hole) && Reflects(k, hole, boundary)
      ensures HeapAround(k, hole) && Fits(k, hole, Advance(x.evttim, boundary))
      ensures p > last ==> hole == p
      ensures p > 1 ==> hole > 1 && nodes[1] == old(nodes[1])
    {
      var evttim := x.evttim;
      if p > 1 && Advance(evttim, boundary) < Advance(nodes[p / 2].evttim, boundary) {
        HoleUp(k0, p, Advance(evttim, boundary));
        Move(p, p / 2, boundary, k0);
        hole, k := Up(p / 2, evttim, boundary, k0[p := k0[p / 2]]);
      } else {
        hole, k := Down(p, evttim, boundary, k0);
      }
    }

    /** tmevtb_delete_top: takes out a block that is due first. */
    method DeleteTop(boundary: int) returns (top: Block)
      requires Valid() && Ordered(boundary) && last >= 1
      modifies this, nodes, blocks`node
      ensures Valid() && Ordered(boundary)
      ensures top == old(nodes[1]) && top in old(blocks)
      ensures blocks == old(blocks) - {top} && last == old(last) - 1
      ensures forall b :: b in old(blocks) ==> Advance(top.evttim, boundary) <= Advance(b.evttim, boundary)
    {
      hide FitsAbove, FitsBelow, HeapAround, Ordered;
      TopIsFirst(boundary);
      top := nodes[1];
      ghost var k := Shrink(top, boundary);
      if last >= 1 {
        var x: Block := nodes[last + 1];
        var hole;
        hole, k := Down(1, x.evttim, boundary, k);
        Put(hole, x, boundary, k);
      } else {
        KeysAre(k, boundary);
      }
    }

    /** Gives up the last slot and leaves a hole where b was. The block of the last slot waits
        behind it, and fits into the hole from above or from below. */
    method Shrink(b: Block, boundary: int) returns (ghost k: seq<int>)
      requires Valid() && Ordered(boundary) && b in blocks
      modifies this
      ensures last == old(last) - 1 && Filled(b.node) && Reflects(k, b.node, boundary) && HeapAround(k, b.node)
      ensures var x: Block := nodes[last + 1];
        && old(last) == x.node && x in old(blocks)
        && blocks == old(blocks) - {b} - {x}
        && (b.node > last ==> x == b)
        && (last >= 1 ==> k[1] <= Advance(x.evttim, boundary) || b.node == 1)
        && (b.node >= 2 && Advance(x.evttim, boundary) < k[b.node / 2] ==>
              b.node <= last && FitsAbove(k, b.node, Advance(x.evttim, boundary)))
        && (!(b.node >= 2 && Advance(x.evttim, boundary) < k[b.node / 2]) ==>
              FitsBelow(k, b.node, Advance(x.evttim, boundary)))
    {
      var x: Block := nodes[last];
      last := last - 1;
      blocks := blocks - {b} - {x};
      assert Filled(b.node);
      ghost var k0 := old(Keys(0, boundary));
      k := k0[..last + 1];
      assert Reflects(k, b.node, boundary);
      TopIsLeast(k0, last + 1);
      RemoveLast(k0, b.node);
    }

    /** Puts a block into the hole, where it fits. */
    method Put(hole: nat, b: Block, boundary: int, ghost k: seq<int>)
      requires last < nodes.Length && 1 <= hole <= last && Filled(hole) && Reflects(k, hole, boundary)
      requires b !in blocks && HeapAround(k, hole) && Fits(k, hole, Advance(b.evttim, boundary))
      modifies this`blocks, nodes, b`node
      ensures Valid() && Ordered(boundary)
      ensures blocks == old(blocks) + {b} && b.node == hole
      ensures forall i :: 0 <= i < nodes.Length && i != hole ==> nodes[i] == old(nodes[i])
    {
      nodes[hole] := b;
      b.node := hole;
      blocks := blocks + {b};
      FillHole(k, hole, Advance(b.evttim, boundary));
      KeysAre(k[hole := Advance(b.evttim, boundary)], boundary);
    }

    /** Any sequence that gives the keys of the used slots shows the order of the heap. */
    lemma KeysAre(k: seq<int>, boundary: int)
      requires Valid() && Reflects(k, 0, boundary) && IsHeap(k)
      ensures Ordered(boundary)
    {
      forall c | 2 <= c < |k|
        ensures ParentFirst(Keys(0, boundary), c)
      {
        assert ParentFirst(k, c);
      }
    }

    /** A hole behind the last slot is none. */
    lemma NoHole(k: seq<int>, hole: nat, boundary: int)
      requires last < nodes.Length && hole > last && Filled(hole) && Reflects(k, hole, boundary) && HeapAround(k, hole)
      ensures Valid() && Ordered(boundary)
    {
      hide Ordered;
      KeysAre(k, boundary);
    }

    /** The top block is due first. */
    lemma TopIsFirst(boundary: int)
      requires Valid() && Ordered(boundary) && last >= 1
      ensures forall b :: b in blocks ==> Advance(nodes[1].evttim, boundary) <= Advance(b.evttim, boundary)
    {
      forall b | b in blocks
        ensures Advance(nodes[1].evttim, boundary) <= Advance(b.evttim, boundary)
      {
        TopIsLeast(Keys(0, boundary), b.node);
      }
    }

    /** Moves the block in slot from into the hole. Slot from becomes the hole. */
    method Move(hole: nat, from: nat, boundary: int, ghost k: seq<int>)
      requires last < nodes.Length && 1 <= hole <= last && Filled(hole) && 1 <= from <= last && from != hole
      requires Reflects(k, hole, boundary)
      modifies nodes, blocks`node
      ensures nodes[hole] == old(nodes[from]) && nodes[hole].node == hole
      ensures forall i :: 0 <= i < nodes.Length && i != hole ==> nodes[i] == old(nodes[i])
      ensures Filled(from) && Reflects(k[hole := k[from]], from, boundary)
    {
      nodes[hole] := nodes[from];
      nodes[hole].node := hole;
    }
  }

  // ---------- Heaps with a hole, on keys alone ----------

  /** The block in slot c is not due before its parent. */
  ghost predicate ParentFirst(k: seq<int>, c: nat)
    requires 2 <= c < |k|
  {
    k[c / 2] <= k[c]
  }

  ghost predicate IsHeap(k: seq<int>) {
    forall c {:trigger ParentFirst(k, c)} :: 2 <= c < |k| ==> ParentFirst(k, c)
  }

  /** The slot above a child of the hole, once the hole is skipped, comes first. */
  ghost predicate GrandparentFirst(k: seq<int>, c: nat)
    requires 4 <= c < |k|
  {
    k[c / 2 / 2] <= k[c]
  }

  /** The order of a heap with a hole: parents before children, and across the hole. */
  ghost predicate HeapAround(k: seq<int>, hole: nat) {
    && (forall c {:trigger ParentFirst(k, c)} :: 2 <= c < |k| && c != hole && c / 2 != hole ==> ParentFirst(k, c))
    && (forall c {:trigger GrandparentFirst(k, c)} :: 4 <= c < |k| && c / 2 == hole ==> GrandparentFirst(k, c))
  }

  ghost predicate FitsBelow(k: seq<int>, hole: nat, x: int)
    requires hole <= |k|
  {
    hole >= 2 ==> k[hole / 2] <= x
  }

  ghost predicate FitsAbove(k: seq<int>, hole: nat, x: int) {
    (2 * hole < |k| ==> x <= k[2 * hole]) && (2 * hole + 1 < |k| ==> x <= k[2 * hole + 1])
  }

  /** Key x can fill the hole. */
  ghost predicate Fits(k: seq<int>, hole: nat, x: int)
    requires hole <= |k|
  {
    FitsBelow(k, hole, x) && FitsAbove(k, hole, x)
  }

  lemma HoleUp(k: seq<int>, hole: nat, x: int)
    requires 2 <= hole < |k| && HeapAround(k, hole) && FitsAbove(k, hole, x) && x < k[hole / 2]
    ensures HeapAround(k[hole := k[hole / 2]], hole / 2) && FitsAbove(k[hole := k[hole / 2]], hole / 2, x)
  {
    var k', up := k[hole := k[hole / 2]], hole / 2;
    forall c | 2 <= c < |k| && c != up && c / 2 != up
      ensures ParentFirst(k', c)
    {
      if c / 2 == hole {
        assert GrandparentFirst(k, c);
      } else {
        assert ParentFirst(k, c);
      }
    }
    forall c | 4 <= c < |k| && c / 2 == up
      ensures GrandparentFirst(k', c)
    {
      assert ParentFirst(k, up);
      if c != hole {
        assert ParentFirst(k, c);
      }
    }
    forall c | c / 2 == up && 2 <= c < |k|
      ensures x <= k'[c]
    {
      if c != hole {
        assert ParentFirst(k, c);
      }
    }
  }

  lemma AboveLess(k: seq<int>, hole: nat, x: int, y: int)
    requires x <= y && FitsAbove(k, hole, y)
    ensures FitsAbove(k, hole, x)
  {
  }

  lemma AboveLeaf(k: seq<int>, hole: nat, x: int)
    requires 2 * hole >= |k|
    ensures FitsAbove(k, hole, x)
  {
  }

  lemma HoleDown(k: seq<int>, hole: nat, child: nat, x: int)
    requires 1 <= hole < child < |k| && child / 2 == hole && HeapAround(k, hole) && FitsBelow(k, hole, x)
    requires k[child] < x && FitsAbove(k, hole, k[child])
    ensures HeapAround(k[hole := k[child]], child) && FitsBelow(k[hole := k[child]], child, x)
  {
    var k' := k[hole := k[child]];
    forall c | 2 <= c < |k| && c != child && c / 2 != child
      ensures ParentFirst(k', c)
    {
      if c == hole {
        assert hole >= 2 ==> GrandparentFirst(k, child);
      } else if c / 2 == hole {
      } else {
        assert ParentFirst(k, c);
      }
    }
    forall c | 4 <= c < |k| && c / 2 == child
      ensures GrandparentFirst(k', c)
    {
      assert ParentFirst(k, c);
    }
  }

  lemma AddLast(k: seq<int>, x: int)
    requires IsHeap(k) && |k| >= 1
    ensures HeapAround(k + [0], |k|) && FitsAbove(k + [0], |k|, x)
  {
    forall c | 2 <= c < |k|
      ensures ParentFirst(k + [0], c)
    {
      assert ParentFirst(k, c);
    }
  }

  /** Without its last slot, and with a hole anywhere, a heap is ordered around the hole, and the
      last key fits there from above or from below. */
  lemma RemoveLast(k: seq<int>, hole: nat)
    requires IsHeap(k) && |k| >= 2 && 1 <= hole < |k|
    ensures HeapAround(k[..|k| - 1], hole)
    ensures hole >= 2 && k[|k| - 1] < k[hole / 2] ==>
      hole < |k| - 1 && FitsAbove(k[..|k| - 1], hole, k[|k| - 1])
    ensures !(hole >= 2 && k[|k| - 1] < k[hole / 2]) ==> FitsBelow(k[..|k| - 1], hole, k[|k| - 1])
  {
    var k' := k[..|k| - 1];
    forall c | 2 <= c < |k'| && c != hole
      ensures ParentFirst(k', c)
    {
      assert ParentFirst(k, c);
    }
    forall c | 4 <= c < |k'| && c / 2 == hole
      ensures GrandparentFirst(k', c)
    {
      assert ParentFirst(k, c) && ParentFirst(k, hole);
    }
    if hole >= 2 {
      assert ParentFirst(k, hole);
    }
    assert 2 * hole < |k| ==> ParentFirst(k, 2 * hole);
    assert 2 * hole + 1 < |k| ==> ParentFirst(k, 2 * hole + 1);
  }

  /** Filling the hole with a key that fits gives a heap. */
  lemma FillHole(k: seq<int>, hole: nat, x: int)
    requires 1 <= hole < |k| && HeapAround(k, hole) && Fits(k, hole, x)
    ensures IsHeap(k[hole := x])
  {
    var k' := k[hole := x];
    forall c | 2 <= c < |k|
      ensures ParentFirst(k', c)
    {
      if c != hole && c / 2 != hole {
        assert ParentFirst(k, c);
      }
    }
  }

  /** The top of a heap is a minimum. */
  lemma {:induction false} TopIsLeast(k: seq<int>, i: nat)
    requires IsHeap(k) && 1 <= i < |k|
    ensures k[1] <= k[i]
  {
    if i > 1 {
      assert ParentFirst(k, i);
      TopIsLeast(k, i / 2);
    }
  }
}
