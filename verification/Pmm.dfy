/** Physical frame allocator (kernel/mm/pmm.c): a stack of free frame numbers and
    one reference count per frame. */
module Pmm {
  import opened Base

  const PHY_RAM_BASE: nat := 0x4000_0000
  const MAX_REF: nat := 255

  /** The physical address of frame number `index`; never 0, so 0 can mean failure. */
  function IndexToPhys(index: nat): (addr: nat)
    ensures addr > 0 && addr % PAGE_SIZE == 0
  {
    PHY_RAM_BASE + index * PAGE_SIZE
  }

  /** The numbers below `n`. */
  ghost function Below(n: nat): (r: set<nat>)
    ensures |r| == n
    ensures forall i: nat :: i in r <==> i < n
  {
    if n == 0 then {} else Below(n - 1) + {n - 1}
  }

  /** The free stack holds exactly the unmarked frames whose count is zero, each once.
      A marked frame was withdrawn at boot and keeps a count of zero. */
  ghost predicate FreeListOk(stack: seq<nat>, counts: seq<nat>, marked: set<nat>) {
    && (forall f :: 0 <= f < |counts| ==> counts[f] <= MAX_REF)
    && (forall i :: 0 <= i < |stack| ==> stack[i] < |counts|)
    && (forall i, j :: 0 <= i < j < |stack| ==> stack[i] != stack[j])
    && (forall f :: 0 <= f < |counts| ==> (f in stack <==> counts[f] == 0 && f !in marked))
    && (forall f :: f in marked ==> f < |counts| && counts[f] == 0)
  }

  /** A frame off the stack leaves room on it. */
  lemma FewerThanAll(stack: seq<nat>, counts: seq<nat>, marked: set<nat>, f: nat)
    requires FreeListOk(stack, counts, marked)
    requires f < |counts| && f !in stack
    ensures |stack| < |counts|
  {
    SeqSetSize(stack);
    SubsetSize((set x | x in stack), Below(|counts|) - {f});
  }

  lemma PushFreed(stack: seq<nat>, counts: seq<nat>, marked: set<nat>, f: nat)
    requires FreeListOk(stack, counts, marked)
    requires f < |counts| && f !in stack
    ensures FreeListOk(stack + [f], counts[f := 0], marked - {f})
  {
    forall g | 0 <= g < |counts|
      ensures g in stack + [f] <==> counts[f := 0][g] == 0 && g !in marked - {f}
    {
    }
  }

  lemma PopAllocated(stack: seq<nat>, counts: seq<nat>, marked: set<nat>)
    requires FreeListOk(stack, counts, marked)
    requires stack != []
    ensures var f := stack[|stack| - 1];
      f < |counts| && counts[f] == 0 && FreeListOk(stack[..|stack| - 1], counts[f := 1], marked)
  {
    var f := stack[|stack| - 1];
    var rest := stack[..|stack| - 1];
    assert stack == rest + [f];
    assert f in stack;
    forall g | 0 <= g < |counts|
      ensures g in rest <==> counts[f := 1][g] == 0 && g !in marked
    {
    }
  }

  /** The next frame number joins, either in use or on the stack. */
  lemma NextFrame(stack: seq<nat>, counts: seq<nat>)
    requires FreeListOk(stack, counts, {})
    ensures FreeListOk(stack, counts + [1], {})
    ensures FreeListOk(stack + [|counts|], counts + [0], {})
  {
    var n := |counts|;
    forall f | 0 <= f <= n
      ensures f in stack + [n] <==> (counts + [0])[f] == 0
    {
    }
  }

  /** Overwriting slot `i` by the top one removes exactly the frame that slot held. */
  lemma SwapRemove(stack: seq<nat>, counts: seq<nat>, marked: set<nat>, i: nat)
    requires FreeListOk(stack, counts, marked)
    requires i < |stack|
    ensures var rest := stack[i := stack[|stack| - 1]][..|stack| - 1];
      && FreeListOk(rest, counts, marked + {stack[i]})
      && forall g :: g in rest <==> g in stack && g != stack[i]
  {
    var last := |stack| - 1;
    var rest := stack[i := stack[last]][..last];
    forall g
      ensures g in rest <==> g in stack && g != stack[i]
    {
      if g in stack && g != stack[i] {
        var k :| 0 <= k < |stack| && stack[k] == g;
        assert rest[if k == last then i else k] == g;
      }
    }
  }

  lemma Referenced(stack: seq<nat>, counts: seq<nat>, marked: set<nat>, f: nat, n: nat)
    requires FreeListOk(stack, counts, marked) && f < |counts| && 0 < n <= MAX_REF
    ensures FreeListOk(stack, counts[f := n], marked - {f}) <==> f !in stack
    ensures counts[f] > 0 ==> f !in stack && f !in marked
  {
    if f in stack {
      assert counts[f := n][f] > 0;
    }
  }

  ghost function Members(stack: seq<nat>): set<nat> {
    set f | f in stack
  }

  /** Counts decide what is free. */
  lemma SameFree(stack: seq<nat>, stack': seq<nat>, counts: seq<nat>, marked: set<nat>)
    requires FreeListOk(stack, counts, marked) && FreeListOk(stack', counts, marked)
    ensures Members(stack) == Members(stack')
  {
    forall f: nat
      ensures f in stack <==> f in stack'
    {
      if f in stack || f in stack' {
        assert f < |counts|;
      }
    }
  }

  class FrameAllocator {
    const totalFrames: nat
    const physRamEnd: nat
    const frameStack: array<nat>
    const refCounts: array<nat>
    var stackTop: nat
    var usedFrames: nat
    // Frames withdrawn by MarkUsedRegion, which leaves their count at zero.
    ghost var marked: set<nat>

    /** The free stack, bottom first. */
    ghost function Stack(): seq<nat>
      requires stackTop <= frameStack.Length
      reads this, frameStack
    {
      frameStack[..stackTop]
    }

    ghost function Counts(): seq<nat>
      reads refCounts
    {
      refCounts[..]
    }

    ghost predicate Shape()
      reads this
    {
      && frameStack.Length == totalFrames
      && refCounts.Length == totalFrames
      && frameStack != refCounts
      && physRamEnd >= PHY_RAM_BASE
      && totalFrames == (physRamEnd - PHY_RAM_BASE) / PAGE_SIZE
      && stackTop <= totalFrames
    }

    ghost predicate Valid()
      reads this, frameStack, refCounts
    {
      && Shape()
      && usedFrames + stackTop == totalFrames
      && FreeListOk(Stack(), Counts(), marked)
    }

    function PhysToIndex(addr: nat): Option<nat>
      reads this
    {
      if addr < PHY_RAM_BASE || addr >= physRamEnd then None
      else Some((addr - PHY_RAM_BASE) / PAGE_SIZE)
    }

    /** Frame numbers and page-aligned addresses undo each other. */
    lemma PhysRoundTrip(index: nat, addr: nat)
      requires Shape() && index < totalFrames && addr % PAGE_SIZE == 0
      ensures PhysToIndex(addr) == Some(index) <==> addr == IndexToPhys(index)
    {
    }

    /** The frames on the stack. */
    ghost function FreeFrames(): set<nat>
      requires stackTop <= frameStack.Length
      reads this, frameStack
    {
      Members(Stack())
    }

    lemma LiveNotFree(f: nat)
      requires Valid() && f < totalFrames && refCounts[f] > 0
      ensures f !in Stack() && refCounts[f] <= MAX_REF
      ensures PhysToIndex(IndexToPhys(f)) == Some(f)
    {
      assert Counts()[f] > 0;
    }

    /** pmm_init: the allocator's own tables start at the page after the kernel; every frame
        below their end is in use with count 1, all others are pushed in ascending order. */
    constructor (kernelEnd: nat, ramSize: nat)
      ensures Valid() && marked == {}
      ensures totalFrames == ramSize / PAGE_SIZE && physRamEnd == PHY_RAM_BASE + ramSize
      ensures fresh(frameStack) && fresh(refCounts)
      ensures
        var reservedEnd := (kernelEnd + PAGE_SIZE - 1) / PAGE_SIZE * PAGE_SIZE + totalFrames * 4 + totalFrames;
        forall f :: 0 <= f < totalFrames ==>
          refCounts[f] == if IndexToPhys(f) < reservedEnd then 1 else 0
    {
      totalFrames := ramSize / PAGE_SIZE;
      physRamEnd := PHY_RAM_BASE + ramSize;
      frameStack := new nat[ramSize / PAGE_SIZE];
      refCounts := new nat[ramSize / PAGE_SIZE];
      stackTop, usedFrames, marked := 0, 0, {};
      new;
      assert FreeListOk([], [], {});
      hide FreeListOk;
      var tablesStart := (kernelEnd + PAGE_SIZE - 1) / PAGE_SIZE * PAGE_SIZE;
      var reservedEnd := tablesStart + totalFrames * 4 + totalFrames;
      var i := 0;
      while i < totalFrames
        invariant 0 <= i <= totalFrames && Shape() && marked == {}
        invariant usedFrames + stackTop == i
        invariant FreeListOk(Stack(), refCounts[..i], {})
        invariant forall f :: 0 <= f < i ==> refCounts[f] == if IndexToPhys(f) < reservedEnd then 1 else 0
      {
        ghost var before, counts := Stack(), refCounts[..i];
        NextFrame(before, counts);
        refCounts[i] := 0;
        if IndexToPhys(i) < reservedEnd {
          usedFrames := usedFrames + 1;
          refCounts[i] := 1;
          assert refCounts[..i + 1] == counts + [1];
        } else if stackTop < totalFrames {
          frameStack[stackTop] := i;
          stackTop := stackTop + 1;
          assert refCounts[..i + 1] == counts + [0];
          assert Stack() == before + [i];
        }
        i := i + 1;
      }
      assert refCounts[..totalFrames] == Counts();
    }

    /** pmm_alloc_frame: pops the top of the stack with count 1, or fails exactly when it is empty. */
    method AllocFrame() returns (addr: nat)
      requires Valid()
      modifies this`stackTop, this`usedFrames, refCounts
      ensures Valid()
      ensures addr == 0 <==> old(Stack()) == []
      ensures addr == 0 ==> Stack() == old(Stack()) && Counts() == old(Counts()) && usedFrames == old(usedFrames)
      ensures addr != 0 ==>
        var f := old(Stack())[|old(Stack())| - 1];
        && addr == IndexToPhys(f) && f < totalFrames
        && Stack() == old(Stack())[..|old(Stack())| - 1]
        && old(refCounts[f]) == 0
        && Counts() == old(Counts())[f := 1]
        && usedFrames == old(usedFrames) + 1
    {
      if stackTop == 0 {
        return 0;
      }
      PopAllocated(Stack(), Counts(), marked);
      stackTop := stackTop - 1;
      var index := frameStack[stackTop];
      usedFrames := usedFrames + 1;
      refCounts[index] := 1;
      assert Stack() == old(Stack())[..stackTop];
      return IndexToPhys(index);
    }

    /** pmm_inc_ref: saturates at 255. Giving a reference to a frame on the stack is exactly when the
        allocator breaks. */
    method IncRef(phys: nat)
      requires Valid()
      requires PhysToIndex(phys).Some? ==> PhysToIndex(phys).value < totalFrames
      modifies refCounts, this`marked
      ensures Shape() && Stack() == old(Stack())
      ensures Valid() <==> (PhysToIndex(phys).Some? ==> PhysToIndex(phys).value !in old(Stack()))
      ensures PhysToIndex(phys).None? ==> Counts() == old(Counts()) && marked == old(marked)
      ensures PhysToIndex(phys).Some? ==>
        var f := PhysToIndex(phys).value;
        && Counts() == old(Counts())[f := if old(refCounts[f]) < MAX_REF then old(refCounts[f]) + 1 else MAX_REF]
        && marked == old(marked) - {f} && (old(refCounts[f]) > 0 ==> marked == old(marked))
    {
      var index := PhysToIndex(phys);
      if index.Some? {
        ghost var f := index.value;
        assert old(Counts())[f] <= MAX_REF;
        if refCounts[index.value] < MAX_REF {
          refCounts[index.value] := refCounts[index.value] + 1;
          marked := marked - {f};
        }
        assert Counts() == old(Counts())[f := refCounts[f]] && Counts()[f] > 0;
        Referenced(Stack(), old(Counts()), old(marked), f, refCounts[f]);
      }
    }

    /** pmm_free_frame drops one reference. Freeing a frame that is already on the stack pushes it
        a second time unless the stack is full: that is exactly when the allocator breaks. */
    method FreeFrame(addr: nat)
      requires Valid()
      modifies this, frameStack, refCounts
      ensures Shape()
      ensures Valid() <==>
        !(var i := PhysToIndex(addr); i.Some? && i.value in old(Stack()) && |old(Stack())| < totalFrames)
      ensures PhysToIndex(addr).None? || PhysToIndex(addr).value >= totalFrames ==>
        Counts() == old(Counts()) && Stack() == old(Stack()) && marked == old(marked)
      ensures PhysToIndex(addr).Some? && PhysToIndex(addr).value < totalFrames ==>
        var f := PhysToIndex(addr).value;
        && (old(refCounts[f]) > 0 ==>
              && marked == old(marked)
              && Counts() == old(Counts())[f := old(refCounts[f]) - 1]
              && Stack() == if old(refCounts[f]) == 1 then old(Stack()) + [f] else old(Stack()))
        && (old(refCounts[f]) == 0 ==>
              && Counts() == old(Counts())
              && Stack() == (if |old(Stack())| < totalFrames then old(Stack()) + [f] else old(Stack())))
    {
      var index := PhysToIndex(addr);
      if index.None? || index.value >= totalFrames {
        return;
      }
      var f := index.value;
      if refCounts[f] > 0 {
        FewerThanAll(Stack(), Counts(), marked, f);
        PushFreed(Stack(), Counts(), marked, f);
        refCounts[f] := refCounts[f] - 1;
        if refCounts[f] == 0 {
          frameStack[stackTop] := f;
          stackTop := stackTop + 1;
          usedFrames := usedFrames - 1;
          assert Stack() == old(Stack()) + [f];
          assert marked - {f} == marked;
        }
        return;
      }
      if stackTop >= totalFrames {
        return;
      }
      frameStack[stackTop] := f;
      stackTop := stackTop + 1;
      usedFrames := usedFrames - 1;
      marked := marked - {f};
      assert Stack() == old(Stack()) + [f];
      assert Counts() == old(Counts())[f := 0];
      if f in old(Stack()) {
        var i :| 0 <= i < |old(Stack())| && old(Stack())[i] == f;
        assert Stack()[i] == Stack()[stackTop - 1];
      } else {
        PushFreed(old(Stack()), old(Counts()), old(marked), f);
      }
    }

    /** pmm_mark_used_region takes every free frame of the region off the stack and leaves its
        count at zero; an end past RAM has no frame number, so then no upper bound applies. */
    method MarkUsedRegion(base: nat, size: nat)
      requires Valid()
      modifies this, frameStack
      ensures Valid() && Counts() == old(Counts())
      ensures
        var lo := PhysToIndex(base);
        var hi := PhysToIndex(base + size + PAGE_SIZE - 1);
        marked == old(marked) +
          (set f | f in old(Stack()) && lo.Some? && lo.value <= f && (hi.Some? ==> f < hi.value))
    {
      var start := PhysToIndex(base);
      var end := PhysToIndex(base + size + PAGE_SIZE - 1);
      if start.None? {
        return;
      }
      // Without an end index the loop runs to 2^32 - 1; past the last frame nothing matches.
      var last := if end.Some? then end.value else totalFrames;
      ghost var was := Stack();
      var target := start.value;
      while target < last
        invariant start.value <= target
        invariant Valid() && Counts() == old(Counts())
        invariant marked == old(marked) + set f | f in was && start.value <= f < target && f < last
        invariant forall f :: f in Stack() <==> f in was && f !in marked
      {
        TakeOff(target);
        target := target + 1;
      }
    }

    /** The inner search: the matching slot is overwritten by the top one. */
    method TakeOff(target: nat)
      requires Valid()
      modifies this, frameStack
      ensures Valid() && Counts() == old(Counts())
      ensures marked == if target in old(Stack()) then old(marked) + {target} else old(marked)
      ensures forall f :: f in Stack() <==> f in old(Stack()) && f != target
    {
      ghost var was := Stack();
      var i := 0;
      while i < stackTop
        invariant 0 <= i <= stackTop
        invariant Valid() && Stack() == was && Counts() == old(Counts()) && marked == old(marked)
        invariant target !in was[..i]
      {
        if frameStack[i] == target {
          assert was[i] == target;
          SwapRemove(was, Counts(), marked, i);
          stackTop := stackTop - 1;
          frameStack[i] := frameStack[stackTop];
          usedFrames := usedFrames + 1;
          marked := marked + {target};
          assert Stack() == was[i := was[stackTop]][..stackTop];
          return;
        }
        i := i + 1;
      }
    }
  }
}
