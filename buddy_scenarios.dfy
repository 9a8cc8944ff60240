/** Concrete runs of the buddy allocator over one top-order block of 2^17
    frames, alone or followed by one frame of partial tail. */
module BuddyScenarios {
  import opened Wrappers
  import opened Bits
  import opened LinkedLists
  import opened Buddy

  /** The free lists holding only the whole block at 0, on list 17. */
  function WholeBlock(): (r: seq<seq<nat>>)
    ensures |r| == MaxOrder
  {
    seq(MaxOrder, o => if o == TopOrder then [0] else [])
  }

  /** The free lists once the block at 0 has been split down to order `k`:
      each list `o` from `k` to 16 holds its upper half 2^o. */
  function Halves(k: nat): (r: seq<seq<nat>>)
    ensures |r| == MaxOrder
  {
    seq(MaxOrder, o => if k <= o < TopOrder then [Pow2(o)] else [])
  }

  /** The lists with those from order `k` to 16 emptied. */
  function Cleared(lists: seq<seq<nat>>, k: nat): (r: seq<seq<nat>>)
    ensures |r| == |lists|
  {
    seq(|lists|, o requires 0 <= o < |lists| => if k <= o < TopOrder then [] else lists[o])
  }

  /** A single top-order block is a whole top block. */
  lemma WholeTopBlock()
    ensures WholeFrames(TopBlockSize) == TopBlockSize
  {
  }

  /** Once the free lists from order `k` to 16 each hold just the upper half
      `2^o` of the block at 0, and those halves' flags are free, freeing at 0
      merges all the way up to order 17, emptying those lists. */
  lemma {:induction false} MergeUpward(lists: seq<seq<nat>>, flags: seq<bv8>, k: nat)
    requires |lists| == MaxOrder && k <= TopOrder && WholeFrames(|flags|) == TopBlockSize
    requires forall o :: k <= o < TopOrder ==> lists[o] == [Pow2(o)]
    requires forall o :: k <= o < TopOrder ==> Pow2(o) < |flags| && flags[Pow2(o)] == FlagFree
    ensures Aligned(0, k) && Pow2(k) <= WholeFrames(|flags|)
    ensures Coalesce(lists, flags, 0, k) == Merge(Cleared(lists, k), 0, TopOrder)
    decreases TopOrder - k
  {
    ZeroAligned(k);
    TopBlockSizeIsPow2();
    Pow2Monotone(k, TopOrder);
    if k < TopOrder {
      MergeOne(lists, flags, k);
      ClearedStep(lists, k);
      MergeUpward(lists[k := []], flags, k + 1);
    } else {
      assert Cleared(lists, k) == lists;
    }
  }

  /** Emptying list `k` first and then those from `k + 1` on empties them
      from `k` on. */
  lemma ClearedStep(lists: seq<seq<nat>>, k: nat)
    requires k < |lists| && k < TopOrder
    ensures Cleared(lists[k := []], k + 1) == Cleared(lists, k)
  {
    forall o | 0 <= o < |lists|
      ensures Cleared(lists[k := []], k + 1)[o] == Cleared(lists, k)[o]
    {
    }
  }

  /** One step of that merge: the buddy of the order-`k` block at 0 is 2^k. */
  lemma MergeOne(lists: seq<seq<nat>>, flags: seq<bv8>, k: nat)
    requires |lists| == MaxOrder && k < TopOrder && WholeFrames(|flags|) == TopBlockSize
    requires lists[k] == [Pow2(k)] && Pow2(k) < |flags| && flags[Pow2(k)] == FlagFree
    ensures Aligned(0, k) && Aligned(0, k + 1) && Pow2(k + 1) <= WholeFrames(|flags|)
    ensures Coalesce(lists, flags, 0, k) == Coalesce(lists[k := []], flags, 0, k + 1)
  {
    ZeroAligned(k);
    ZeroAligned(k + 1);
    TopBlockSizeIsPow2();
    Pow2Monotone(k + 1, TopOrder);
    XorPow2Aligned(0, k);
    WithoutOnly(Pow2(k));
    CoalesceStep(lists, flags, 0, k);
  }

  /** Splitting the whole block down to `order` leaves `Halves(order)`. */
  lemma SplitWholeBlock(order: nat)
    requires order <= TopOrder
    ensures FirstNonEmpty(WholeBlock(), order) == TopOrder
    ensures WholeBlock()[TopOrder] == [0]
    ensures Split(WholeBlock(), order, TopOrder) == Halves(order)
  {
    var s := Split(WholeBlock(), order, TopOrder);
    forall o | 0 <= o < MaxOrder
      ensures s[o] == Halves(order)[o]
    {
    }
  }

  /** Splitting the whole block down to `order` marks every upper half free. */
  lemma MarkedWholeBlock(flags: seq<bv8>, order: nat)
    requires TopBlockSize <= |flags| && order <= TopOrder
    ensures Aligned(0, TopOrder) && Pow2(TopOrder) <= |flags|
    ensures forall o :: order <= o < TopOrder ==>
      1 <= Pow2(o) < |flags| && Marked(flags, 0, order, TopOrder)[Pow2(o)] == FlagFree
  {
    TopBlockSizeIsPow2();
    ZeroAligned(TopOrder);
    forall o | order <= o < TopOrder
      ensures 1 <= Pow2(o) < |flags| && Marked(flags, 0, order, TopOrder)[Pow2(o)] == FlagFree
    {
      Pow2Monotone(o + 1, TopOrder);
      MarkedFlags(flags, 0, order, TopOrder, Pow2(o));
      assert IsSplitBase(Pow2(o), 0, order, TopOrder);
    }
  }

  /** `initialise` on 2^17 frames puts the one top block on list 17. */
  method InitialiseWhole() returns (a: BuddyAllocator)
    ensures fresh(a) && fresh(a.frames) && fresh(a.freeLists)
    ensures a.Valid() && a.nrFrames == TopBlockSize
    ensures a.freeLists[..] == WholeBlock()
  {
    a := new BuddyAllocator();
    var descriptors := new bv8[TopBlockSize];
    a.Initialise(descriptors, TopBlockSize);
    assert TopBases(TopBlockSize / TopBlockSize) == [0];
    forall o | 0 <= o < MaxOrder
      ensures a.freeLists[o] == WholeBlock()[o]
    {
    }
  }

  /** `allocate(order)` on that state returns frame 0, leaves
      `Halves(order)`, marks frame 0 allocated and every upper half free,
      and keeps every flag past the top block. */
  method AllocateFromWhole(a: BuddyAllocator, order: nat) returns (p: nat)
    requires a.Valid() && WholeFrames(a.nrFrames) == TopBlockSize && order < TopOrder
    requires a.freeLists[..] == WholeBlock()
    modifies a.frames, a.freeLists
    ensures a.Valid() && p == 0
    ensures a.freeLists[..] == Halves(order)
    ensures a.frames[0] == FlagAllocated
    ensures forall o :: order <= o < TopOrder ==> 1 <= Pow2(o) < TopBlockSize && a.frames[Pow2(o)] == FlagFree
    ensures forall i :: TopBlockSize <= i < a.frames.Length ==> a.frames[i] == old(a.frames[i])
  {
    AllocatedFromWhole(a.frames[..], order);
    SplitWholeBlock(order);
    var r := a.Allocate(order);
    p := r.value;
  }

  /** The flags that split leaves: frame 0 allocated, every upper half
      free, and every frame past the top block as it was. */
  lemma AllocatedFromWhole(flags: seq<bv8>, order: nat)
    requires TopBlockSize <= |flags| && order < TopOrder
    ensures Aligned(0, TopOrder) && Pow2(TopOrder) <= |flags|
    ensures var f := Marked(flags, 0, order, TopOrder)[0 := FlagAllocated];
      && f[0] == FlagAllocated
      && (forall o :: order <= o < TopOrder ==> 1 <= Pow2(o) < TopBlockSize && f[Pow2(o)] == FlagFree)
      && (forall i :: TopBlockSize <= i < |flags| ==> f[i] == flags[i])
  {
    MarkedWholeBlock(flags, order);
    var m := Marked(flags, 0, order, TopOrder);
    var f := m[0 := FlagAllocated];
    forall o | order <= o < TopOrder
      ensures 1 <= Pow2(o) < TopBlockSize && f[Pow2(o)] == FlagFree
    {
      TopBlockSizeIsPow2();
      Pow2Monotone(o + 1, TopOrder);
      assert f[Pow2(o)] == m[Pow2(o)];
    }
    forall i | TopBlockSize <= i < |flags|
      ensures f[i] == flags[i]
    {
      OutsideWholeBlock(flags, order, i);
      assert f[i] == m[i];
    }
  }

  /** The split of the block at 0 marks no frame past the top block. */
  lemma OutsideWholeBlock(flags: seq<bv8>, order: nat, i: nat)
    requires TopBlockSize <= |flags| && order <= TopOrder
    requires TopBlockSize <= i < |flags|
    ensures Aligned(0, TopOrder) && Pow2(TopOrder) <= |flags|
    ensures Marked(flags, 0, order, TopOrder)[i] == flags[i]
  {
    TopBlockSizeIsPow2();
    ZeroAligned(TopOrder);
    MarkedFlags(flags, 0, order, TopOrder, i);
    if IsSplitBase(i, 0, order, TopOrder) {
      var k :| order <= k < TopOrder && i == Pow2(k);
      Pow2Monotone(k + 1, TopOrder);
      assert false;
    }
  }

  /** From `Halves(0)`, `allocate(0)` takes frame 1 off list 0. */
  method AllocateSecondFrame(a: BuddyAllocator) returns (q: nat)
    requires a.Valid() && a.nrFrames == TopBlockSize && a.freeLists[..] == Halves(0)
    modifies a.frames, a.freeLists
    ensures a.Valid() && q == 1
    ensures a.freeLists[..] == Halves(1)
    ensures a.frames[..] == old(a.frames[..])[1 := FlagAllocated]
  {
    ghost var lists := a.freeLists[..];
    assert FirstNonEmpty(lists, 0) == 0;
    assert Split(lists, 0, 0) == Halves(1);
    var r := a.Allocate(0);
    q := r.value;
  }

  /** Freeing frame `i` of the pair {i, j} = {0, 1} while `j` is
      allocated stops at order 0. */
  lemma FreeStaysAtZero(flags: seq<bv8>, i: nat, j: nat)
    requires |flags| == TopBlockSize && i + j == 1 && flags[j] != FlagFree
    ensures Aligned(i, 0) && i + Pow2(0) <= WholeFrames(|flags|)
    ensures Coalesce(Halves(1), flags, i, 0) == Merge(Halves(1), i, 0)
  {
    TopBlockSizeIsPow2();
    XorPow2Aligned(i, 0);
    CoalesceStep(Halves(1), flags, i, 0);
  }

  /** Freeing frame `i` while `j` is free and alone on list 0 above
      `Halves(1)` merges up to the whole block. */
  lemma FreeMergesFromZero(flags: seq<bv8>, i: nat, j: nat)
    requires |flags| == TopBlockSize && i + j == 1 && flags[j] == FlagFree
    requires forall o :: 1 <= o < TopOrder ==> 1 <= Pow2(o) < TopBlockSize && flags[Pow2(o)] == FlagFree
    ensures Aligned(i, 0) && i + Pow2(0) <= WholeFrames(|flags|)
    ensures Coalesce(Halves(1)[0 := [j]], flags, i, 0) == Merge(Cleared(Halves(1), 1), 0, TopOrder)
  {
    var lists := Halves(1)[0 := [j]];
    WholeTopBlock();
    MergePair(lists, flags, i, j);
    HalvesReset(0, j);
    assert lists[0 := []] == Halves(1);
    assert Coalesce(lists, flags, i, 0) == Coalesce(Halves(1), flags, 0, 1);
    HalvesChain(1);
    MergeUpward(Halves(1), flags, 1);
    assert Coalesce(lists, flags, i, 0) == Merge(Cleared(Halves(1), 1), 0, TopOrder);
  }

  /** The first merge of that: frames `i` and `j` make the order-1 block at 0. */
  lemma MergePair(lists: seq<seq<nat>>, flags: seq<bv8>, i: nat, j: nat)
    requires |lists| == MaxOrder && lists[0] == [j]
    requires |flags| == TopBlockSize && i + j == 1 && flags[j] == FlagFree
    ensures Aligned(i, 0) && Aligned(0, 1) && i + Pow2(0) <= WholeFrames(|flags|) && Pow2(1) <= WholeFrames(|flags|)
    ensures Coalesce(lists, flags, i, 0) == Coalesce(lists[0 := []], flags, 0, 1)
  {
    TopBlockSizeIsPow2();
    XorPow2Aligned(i, 0);
    ZeroAligned(1);
    assert BuddyOf(i, 0) == j && Min(i, j) == 0;
    CoalesceStep(lists, flags, i, 0);
    WithoutOnly(j);
  }

  /** Putting a list back to empty undoes setting it. */
  lemma HalvesReset(k: nat, x: nat)
    requires k < TopOrder
    ensures Halves(k + 1)[k := [x]][k := []] == Halves(k + 1)
  {
    var h := Halves(k + 1);
    forall o | 0 <= o < MaxOrder
      ensures h[k := [x]][k := []][o] == h[o]
    {
    }
  }

  lemma HalvesChain(k: nat)
    ensures forall o :: k <= o < TopOrder ==> Halves(k)[o] == [Pow2(o)]
  {
  }

  /** The whole block put back on the emptied lists. */
  lemma WholeBlockBack(k: nat)
    ensures var c := Cleared(Halves(k), k);
      c[TopOrder := c[TopOrder] + [0]] == WholeBlock()
  {
    var c := Cleared(Halves(k), k);
    forall o | 0 <= o < MaxOrder
      ensures c[TopOrder := c[TopOrder] + [0]][o] == WholeBlock()[o]
    {
    }
  }

  /** The first `free(i, 0)` of the pair {i, j}, with `j` still allocated. */
  method FreeFirstOfPair(a: BuddyAllocator, i: nat, j: nat)
    requires a.Valid() && a.nrFrames == TopBlockSize && i + j == 1
    requires a.freeLists[..] == Halves(1) && a.frames[j] == FlagAllocated
    modifies a.frames, a.freeLists
    ensures a.Valid() && a.freeLists[..] == Halves(1)[0 := [i]]
    ensures a.frames[..] == old(a.frames[..])[i := FlagFree]
  {
    FreeStaysAtZero(a.frames[..], i, j);
    a.Free(i, 0);
    assert Halves(1)[0] + [i] == [i];
  }

  /** The second `free(i, 0)` of the pair {i, j}, with `j` free on list 0. */
  method FreeSecondOfPair(a: BuddyAllocator, i: nat, j: nat)
    requires a.Valid() && a.nrFrames == TopBlockSize && i + j == 1
    requires a.freeLists[..] == Halves(1)[0 := [j]] && a.frames[j] == FlagFree
    requires forall o :: 1 <= o < TopOrder ==> 1 <= Pow2(o) < TopBlockSize && a.frames[Pow2(o)] == FlagFree
    modifies a.frames, a.freeLists
    ensures a.Valid() && a.freeLists[..] == WholeBlock()
  {
    FreeMergesFromZero(a.frames[..], i, j);
    a.Free(i, 0);
    WholeBlockBack(1);
  }

  /** Two single frames allocated from the one top block, freed again in
      either order, leave the whole block back on list 17 and nothing else
      on any list. */
  method FreeBothFrames(lowFirst: bool) returns (lists: seq<seq<nat>>)
    ensures lists == WholeBlock()
  {
    var a := InitialiseWhole();
    var p := AllocateFromWhole(a, 0);
    var q := AllocateSecondFrame(a);
    var first, second := if lowFirst then p else q, if lowFirst then q else p;
    FreeFirstOfPair(a, first, second);
    FreeSecondOfPair(a, second, first);
    lists := a.freeLists[..];
  }

  /** From `Halves(1)`, `allocate(0)` splits the order-1 block at 2: frame 2
      is returned and frame 3 goes on list 0. */
  method AllocateUpperPair(a: BuddyAllocator) returns (b: nat)
    requires a.Valid() && a.nrFrames == TopBlockSize && a.freeLists[..] == Halves(1)
    modifies a.frames, a.freeLists
    ensures a.Valid() && b == 2
    ensures a.freeLists[..] == Halves(2)[0 := [3]]
    ensures a.frames[..] == old(a.frames[..])[3 := FlagFree][2 := FlagAllocated]
  {
    ghost var lists := a.freeLists[..];
    assert Pow2(1) == 2 && lists[1] == [2];
    assert FirstNonEmpty(lists, 0) == 1;
    ghost var split := Split(lists, 0, 1);
    forall o | 0 <= o < MaxOrder
      ensures split[o] == Halves(2)[0 := [3]][o]
    {
    }
    assert Aligned(2, 1);
    ghost var marked := Marked(a.frames[..], 2, 0, 1);
    assert marked == Marked(a.frames[..], 2, 1, 1)[3 := FlagFree];
    var r := a.Allocate(0);
    b := r.value;
  }

  /** From there, `allocate(0)` takes frame 3 off list 0. */
  method AllocateLastFrame(a: BuddyAllocator) returns (c: nat)
    requires a.Valid() && a.nrFrames == TopBlockSize && a.freeLists[..] == Halves(2)[0 := [3]]
    modifies a.frames, a.freeLists
    ensures a.Valid() && c == 3
    ensures a.freeLists[..] == Halves(2)
    ensures a.frames[..] == old(a.frames[..])[3 := FlagAllocated]
  {
    ghost var lists := a.freeLists[..];
    assert FirstNonEmpty(lists, 0) == 0;
    ghost var split := Split(lists, 0, 0);
    forall o | 0 <= o < MaxOrder
      ensures split[o] == Halves(2)[o]
    {
    }
    var r := a.Allocate(0);
    c := r.value;
  }

  /** `free(2, 0)` with frame 3 allocated stops at order 0. */
  lemma FreeTwoStays(flags: seq<bv8>)
    requires |flags| == TopBlockSize && flags[3] != FlagFree
    ensures Aligned(2, 0) && 2 + Pow2(0) <= WholeFrames(|flags|)
    ensures Coalesce(Halves(2), flags, 2, 0) == Merge(Halves(2), 2, 0)
  {
    TopBlockSizeIsPow2();
    assert Aligned(2, 1);
    XorPow2Aligned(2, 0);
    CoalesceStep(Halves(2), flags, 2, 0);
  }

  method FreeLowerFrame(a: BuddyAllocator)
    requires a.Valid() && a.nrFrames == TopBlockSize
    requires a.freeLists[..] == Halves(2) && a.frames[3] == FlagAllocated
    modifies a.frames, a.freeLists
    ensures a.Valid() && a.freeLists[..] == Halves(2)[0 := [2]]
    ensures a.frames[..] == old(a.frames[..])[2 := FlagFree]
  {
    FreeTwoStays(a.frames[..]);
    a.Free(2, 0);
    assert Halves(2)[0] + [2] == [2];
  }

  /** `free(0, 1)` while frame 2 is free only as an order-0 block: its flag
      says free, so the order-1 block at 2 counts as the buddy, list 1 loses
      nothing, and the merge carries on to order 17. */
  lemma StaleBuddyMerges(flags: seq<bv8>)
    requires |flags| == TopBlockSize && flags[2] == FlagFree
    requires forall o :: 2 <= o < TopOrder ==> 1 <= Pow2(o) < TopBlockSize && flags[Pow2(o)] == FlagFree
    ensures Aligned(0, 1) && Pow2(1) <= WholeFrames(|flags|)
    ensures var lists := Halves(2)[0 := [2]];
      Coalesce(lists, flags, 0, 1) == Merge(Cleared(lists, 2), 0, TopOrder)
  {
    var lists := Halves(2)[0 := [2]];
    WholeTopBlock();
    StaleFirstMerge(lists, flags);
    MergeUpward(lists, flags, 2);
  }

  /** The first step of that merge: frame 2's flag is free, so the blocks
      at 0 and 2 merge although list 1 is empty. */
  lemma StaleFirstMerge(lists: seq<seq<nat>>, flags: seq<bv8>)
    requires lists == Halves(2)[0 := [2]]
    requires |flags| == TopBlockSize && flags[2] == FlagFree
    ensures Aligned(0, 1) && Aligned(0, 2) && Pow2(2) <= WholeFrames(|flags|)
    ensures Coalesce(lists, flags, 0, 1) == Coalesce(lists, flags, 0, 2)
  {
    TopBlockSizeIsPow2();
    ZeroAligned(2);
    XorPow2Aligned(0, 1);
    assert Pow2(1) == 2 && BuddyOf(0, 1) == 2 && Min(0, 2) == 0;
    CoalesceStep(lists, flags, 0, 1);
    assert lists[1] == [] && WithoutFirst(lists[1], 2) == [];
    assert lists[1 := []] == lists;
  }

  /** With the membership test, the same `free(0, 1)` stops at order 1. */
  lemma StaleBuddyChecked(flags: seq<bv8>)
    requires |flags| == TopBlockSize && flags[2] == FlagFree
    ensures Aligned(0, 1) && Pow2(1) <= WholeFrames(|flags|)
    ensures var lists := Halves(2)[0 := [2]];
      CoalesceChecked(lists, flags, 0, 1) == Merge(lists, 0, 1)
  {
    TopBlockSizeIsPow2();
    ZeroAligned(2);
    XorPow2Aligned(0, 1);
    assert Pow2(1) == 2 && BuddyOf(0, 1) == 2;
    var lists := Halves(2)[0 := [2]];
    assert 2 !in lists[1];
  }

  lemma StaleBlockBack()
    ensures var c := Cleared(Halves(2)[0 := [2]], 2);
      c[TopOrder := c[TopOrder] + [0]] == WholeBlock()[0 := [2]]
  {
    var c := Cleared(Halves(2)[0 := [2]], 2);
    var back := c[TopOrder := c[TopOrder] + [0]];
    var w := WholeBlock()[0 := [2]];
    forall o | 0 <= o < MaxOrder
      ensures back[o] == w[o]
    {
    }
    assert back == w;
  }

  method FreeStalePair(a: BuddyAllocator)
    requires a.Valid() && a.nrFrames == TopBlockSize
    requires a.freeLists[..] == Halves(2)[0 := [2]] && a.frames[2] == FlagFree
    requires forall o :: 2 <= o < TopOrder ==> 1 <= Pow2(o) < TopBlockSize && a.frames[Pow2(o)] == FlagFree
    modifies a.frames, a.freeLists
    ensures a.Valid() && a.freeLists[..] == WholeBlock()[0 := [2]]
    ensures a.frames[..] == old(a.frames[..])[0 := FlagFree]
  {
    StaleBuddyMerges(a.frames[..]);
    a.Free(0, 1);
    StaleBlockBack();
  }

  /** The lists hold nothing. */
  function NoBlocks(): (r: seq<seq<nat>>)
    ensures |r| == MaxOrder && forall o :: 0 <= o < MaxOrder ==> r[o] == []
  {
    seq(MaxOrder, _ => [])
  }

  lemma {:induction false} FramesFromNoBlocks(from: nat)
    requires from <= MaxOrder
    ensures FramesFrom(NoBlocks(), from) == 0
    decreases MaxOrder - from
  {
    if from < MaxOrder {
      FramesFromNoBlocks(from + 1);
    }
  }

  /** The lists left by the stale merge count one frame more than there are. */
  lemma StaleFreeFrames()
    ensures FreeFrames(WholeBlock()[0 := [2]]) == TopBlockSize + 1
  {
    FramesFromNoBlocks(0);
    assert NoBlocks()[TopOrder := [0]] == WholeBlock();
    FreeFramesGrow(NoBlocks(), TopOrder, [0]);
    FreeFramesGrow(WholeBlock(), 0, [2]);
    TopBlockSizeIsPow2();
  }

  /** allocate(1), allocate(0), allocate(0), free(2, 0), free(0, 1) on one
      top block. When frame 0's order-1 block is freed, frame 2 is free only
      as an order-0 block (frame 3 is still allocated), yet the merge takes
      the order-1 block at 2 for a free buddy. The lists end up holding the
      whole block at 0 and frame 2 besides, one frame more than exist, and
      frame 3, still allocated, lies inside the free top block. */
  method StaleMerge() returns (lists: seq<seq<nat>>, flags: seq<bv8>)
    ensures lists == WholeBlock()[0 := [2]]
    ensures FreeFrames(lists) == TopBlockSize + 1
    ensures |flags| == TopBlockSize && flags[3] == FlagAllocated
  {
    var a := InitialiseWhole();
    var p := AllocateFromWhole(a, 1);
    ghost var f1 := a.frames[..];
    var b := AllocateUpperPair(a);
    var c := AllocateLastFrame(a);
    FreeLowerFrame(a);
    ghost var f2 := a.frames[..];
    assert f2 == f1[3 := FlagFree][2 := FlagAllocated][3 := FlagAllocated][2 := FlagFree];
    forall o | 2 <= o < TopOrder
      ensures 1 <= Pow2(o) < TopBlockSize && a.frames[Pow2(o)] == FlagFree
    {
      Pow2Monotone(2, o);
      assert Pow2(2) == 4;
      assert f2[Pow2(o)] == f1[Pow2(o)];
    }
    FreeStalePair(a);
    StaleFreeFrames();
    lists, flags := a.freeLists[..], a.frames[..];
  }

  /** 2^17 + 1 frames hold one whole top block. */
  lemma PartialTailFrames()
    ensures WholeFrames(TopBlockSize + 1) == TopBlockSize
  {
  }

  /** `initialise` on 2^17 + 1 frames lists the one whole top block and
      leaves the last frame out. `allocate(0)` then takes frame 0, and
      `free(0, 0)` merges it back up to the whole block. The last frame's
      flag is never touched. */
  method PartialTail(descriptors: array<bv8>) returns (a: BuddyAllocator)
    requires descriptors.Length == TopBlockSize + 1
    modifies descriptors
    ensures a.Valid() && a.frames == descriptors && a.nrFrames == TopBlockSize + 1
    ensures a.freeLists[..] == WholeBlock() && a.frames[0] == FlagFree
    ensures descriptors[TopBlockSize] == old(descriptors[TopBlockSize])
  {
    PartialTailFrames();
    a := new BuddyAllocator();
    a.Initialise(descriptors, TopBlockSize + 1);
    assert (TopBlockSize + 1) / TopBlockSize == 1 && TopBases(1) == [0];
    forall o | 0 <= o < MaxOrder
      ensures a.freeLists[o] == WholeBlock()[o]
    {
    }
    assert a.frames[TopBlockSize] == old(descriptors[TopBlockSize]);
    var p := AllocateFromWhole(a, 0);
    HalvesChain(0);
    MergeUpward(a.freeLists[..], a.frames[..], 0);
    a.Free(p, 0);
    WholeBlockBack(0);
  }
}
