/** The buddy frame allocator (`BuddyPageAllocator`). Frames are named by
    their index in the descriptor array; each descriptor is one flag byte
    (0 free, 1 allocated). Free list `o` holds the base indices of free
    blocks of 2^o frames, in the order they were appended. */
module Buddy {
  import opened Wrappers
  import opened Bits
  import opened LinkedLists

  /** Number of free lists; orders run from 0 to 17. */
  const MaxOrder: nat := 18
  /** The largest order, that of the blocks `initialise` carves. */
  const TopOrder: nat := 17
  /** 2^17, the number of frames in a top-order block. */
  const TopBlockSize: nat := 131072

  const FlagFree: bv8 := 0
  const FlagAllocated: bv8 := 1

  lemma TopBlockSizeIsPow2()
    ensures Pow2(TopOrder) == TopBlockSize && Aligned(TopBlockSize, TopOrder)
  {
    Pow2Aligned(TopOrder, TopOrder);
    assert Pow2(1) == 2 && Pow2(2) == 4 && Pow2(3) == 8 && Pow2(4) == 16;
    assert Pow2(5) == 32 && Pow2(6) == 64 && Pow2(7) == 128 && Pow2(8) == 256;
    assert Pow2(9) == 512 && Pow2(10) == 1024 && Pow2(11) == 2048 && Pow2(12) == 4096;
    assert Pow2(13) == 8192 && Pow2(14) == 16384 && Pow2(15) == 32768 && Pow2(16) == 65536;
  }

  /** Every block on list `o` is aligned at order `o` and lies inside the
      first `n` frames. */
  ghost predicate WellFormed(lists: seq<seq<nat>>, n: nat)
  {
    && |lists| == MaxOrder
    && forall o, b :: 0 <= o < |lists| && b in lists[o] ==> Aligned(b, o) && b + Pow2(o) <= n
  }

  /** Replacing one list by blocks that fit its order keeps the lists well
      formed. */
  lemma WellFormedReplace(lists: seq<seq<nat>>, n: nat, o: nat, l: seq<nat>)
    requires WellFormed(lists, n) && o < |lists|
    requires forall b :: b in l ==> Aligned(b, o) && b + Pow2(o) <= n
    ensures WellFormed(lists[o := l], n)
  {
  }

  /** The lowest order at or above `from` whose list is non-empty, or
      `|lists|` when there is none. */
  function FirstNonEmpty(lists: seq<seq<nat>>, from: nat): (r: nat)
    requires from <= |lists|
    ensures from <= r <= |lists|
    ensures forall o :: from <= o < r ==> lists[o] == []
    ensures r < |lists| ==> lists[r] != []
    decreases |lists| - from
  {
    if from == |lists| || lists[from] != [] then from else FirstNonEmpty(lists, from + 1)
  }

  /** The lists with the upper half `block + 2^o` appended to each list `o`
      with `order <= o < found`. */
  function AddHalves(lists: seq<seq<nat>>, block: nat, order: nat, found: nat): (r: seq<seq<nat>>)
    requires order <= found <= |lists|
    ensures |r| == |lists|
  {
    seq(|lists|, o requires 0 <= o < |lists| =>
      if order <= o < found then lists[o] + [block + Pow2(o)] else lists[o])
  }

  /** The free lists after `allocate(order)` has taken the head of list
      `found` and split it down to `order`. */
  function Split(lists: seq<seq<nat>>, order: nat, found: nat): (r: seq<seq<nat>>)
    requires order <= found < |lists| && lists[found] != []
  {
    AddHalves(lists[found := lists[found][1..]], lists[found][0], order, found)
  }

  /** Frame `i` is the base of one of the upper halves split off a block at
      `block` while going down from order `found` to order `order`. */
  predicate IsSplitBase(i: nat, block: nat, order: nat, found: nat)
  {
    exists k :: order <= k < found && i == block + Pow2(k)
  }

  /** Lowering the bottom order of the halves by one appends one more half. */
  lemma AddHalvesStep(lists: seq<seq<nat>>, block: nat, k: nat, found: nat)
    requires k < found <= |lists|
    ensures var s := AddHalves(lists, block, k + 1, found);
      AddHalves(lists, block, k, found) == s[k := s[k] + [block + Pow2(k)]]
  {
  }

  /** The flags with the base of each upper half split off the block at
      `block`, for the orders from `order` up to `found`, marked free. */
  function Marked(flags: seq<bv8>, block: nat, order: nat, found: nat): (r: seq<bv8>)
    requires order <= found && Aligned(block, found) && block + Pow2(found) <= |flags|
    ensures |r| == |flags|
    decreases found - order
  {
    if order == found then flags
    else
      BuddyHalf(block, order, found);
      Marked(flags, block, order + 1, found)[block + Pow2(order) := FlagFree]
  }

  /** Exactly the split bases are marked free; every other flag is kept. */
  lemma {:induction false} MarkedFlags(flags: seq<bv8>, block: nat, order: nat, found: nat, i: nat)
    requires order <= found && Aligned(block, found) && block + Pow2(found) <= |flags| && i < |flags|
    ensures Marked(flags, block, order, found)[i] == if IsSplitBase(i, block, order, found) then FlagFree else flags[i]
    decreases found - order
  {
    if order < found {
      MarkedFlags(flags, block, order + 1, found, i);
      if i != block + Pow2(order) && IsSplitBase(i, block, order, found) {
        var k :| order <= k < found && i == block + Pow2(k);
        assert IsSplitBase(i, block, order + 1, found);
      }
    }
  }

  /** Frames held by the free lists from order `from` upwards. */
  function FramesFrom(lists: seq<seq<nat>>, from: nat): nat
    requires from <= |lists|
    decreases |lists| - from
  {
    if from == |lists| then 0 else |lists[from]| * Pow2(from) + FramesFrom(lists, from + 1)
  }

  /** Frames held by all free lists, each entry of list `o` counting 2^o. */
  function FreeFrames(lists: seq<seq<nat>>): nat
  {
    FramesFrom(lists, 0)
  }

  /** Replacing list `o` changes the total by the difference in its length
      times 2^o. */
  lemma {:induction false} FramesFromUpdate(lists: seq<seq<nat>>, from: nat, o: nat, l: seq<nat>)
    requires from <= o < |lists|
    ensures FramesFrom(lists[o := l], from) + |lists[o]| * Pow2(o) == FramesFrom(lists, from) + |l| * Pow2(o)
    decreases |lists| - from
  {
    if from < o {
      FramesFromUpdate(lists, from + 1, o, l);
    } else {
      FramesFromSame(lists, lists[o := l], from + 1);
    }
  }

  lemma {:induction false} FramesFromSame(a: seq<seq<nat>>, b: seq<seq<nat>>, from: nat)
    requires from <= |a| == |b|
    requires forall o :: from <= o < |a| ==> |a[o]| == |b[o]|
    ensures FramesFrom(a, from) == FramesFrom(b, from)
    decreases |a| - from
  {
    if from < |a| {
      FramesFromSame(a, b, from + 1);
    }
  }

  lemma FreeFramesUpdate(lists: seq<seq<nat>>, o: nat, l: seq<nat>)
    requires o < |lists|
    ensures FreeFrames(lists[o := l]) + |lists[o]| * Pow2(o) == FreeFrames(lists) + |l| * Pow2(o)
  {
    FramesFromUpdate(lists, 0, o, l);
  }

  /** Lengthening list `o` by one entry adds 2^o frames. */
  lemma FreeFramesGrow(lists: seq<seq<nat>>, o: nat, l: seq<nat>)
    requires o < |lists| && |l| == |lists[o]| + 1
    ensures FreeFrames(lists[o := l]) == FreeFrames(lists) + Pow2(o)
  {
    FreeFramesUpdate(lists, o, l);
    assert |l| * Pow2(o) == |lists[o]| * Pow2(o) + Pow2(o);
  }

  /** The upper halves of a block of order `found` split down to `order`
      hold 2^found - 2^order frames. */
  lemma {:induction false} AddHalvesFrames(lists: seq<seq<nat>>, block: nat, order: nat, found: nat)
    requires order <= found < |lists|
    ensures FreeFrames(AddHalves(lists, block, order, found)) + Pow2(order) == FreeFrames(lists) + Pow2(found)
    decreases found - order
  {
    if order == found {
      assert AddHalves(lists, block, order, found) == lists;
    } else {
      var s := AddHalves(lists, block, order + 1, found);
      AddHalvesStep(lists, block, order, found);
      FreeFramesGrow(s, order, s[order] + [block + Pow2(order)]);
      AddHalvesFrames(lists, block, order + 1, found);
    }
  }

  /** Taking a block of order `found` and splitting it down to `order`
      leaves the free lists holding exactly 2^order frames fewer. */
  lemma SplitTakesBlock(lists: seq<seq<nat>>, order: nat, found: nat)
    requires order <= found < |lists| && lists[found] != []
    ensures FreeFrames(Split(lists, order, found)) + Pow2(order) == FreeFrames(lists)
  {
    var l := lists[found];
    FreeFramesGrow(lists[found := l[1..]], found, l);
    assert lists[found := l[1..]][found := l] == lists;
    AddHalvesFrames(lists[found := l[1..]], l[0], order, found);
  }

  /** The buddy of the order-`order` block at `index`: `index ^ (1 << order)`. */
  function BuddyOf(index: nat, order: nat): nat
  {
    Xor(index, Pow2(order))
  }

  function Min(a: nat, b: nat): nat
  {
    if a < b then a else b
  }

  /** The buddy of the buddy is the block itself. */
  lemma BuddyOfBuddy(index: nat, order: nat)
    ensures BuddyOf(BuddyOf(index, order), order) == index
  {
    XorInvolutive(index, Pow2(order));
  }

  /** An aligned block and its buddy are the two halves of one block of the
      next order, whose base is the smaller of the two. */
  lemma BuddyPair(index: nat, order: nat)
    requires Aligned(index, order)
    ensures var buddy := BuddyOf(index, order);
      && buddy != index
      && Aligned(buddy, order)
      && Aligned(Min(index, buddy), order + 1)
      && Min(index, buddy) + Pow2(order) == (if index < buddy then buddy else index)
  {
    XorPow2Aligned(index, order);
    if Aligned(index, order + 1) {
      LowerHalf(index, order);
    } else {
      UpperHalf(index, order);
      AlignedWeaken(index - Pow2(order), order, order + 1);
    }
  }

  /** When the frame count is a multiple of 2^17, a block below order 17
      that fits in the frames has its buddy and their union in range too. */
  lemma BuddyWithinFrames(index: nat, order: nat, n: nat)
    requires order < TopOrder && Aligned(n, TopOrder)
    requires Aligned(index, order) && index + Pow2(order) <= n
    ensures var buddy := BuddyOf(index, order);
      var base := Min(index, buddy);
      && buddy + Pow2(order) <= n
      && Aligned(buddy, order)
      && Aligned(base, order + 1)
      && base + Pow2(order + 1) <= n
      && base <= index && index + Pow2(order) <= base + Pow2(order + 1)
  {
    BuddyPair(index, order);
    var base := Min(index, BuddyOf(index, order));
    AlignedWeaken(n, order + 1, TopOrder);
    AlignedGap(base, n, order + 1);
  }

  /** The frames covered by whole top-order blocks: `initialise` hands out
      only those, and every block `allocate` returns lies inside them. */
  function WholeFrames(n: nat): (w: nat)
    ensures w <= n < w + TopBlockSize
  {
    n / TopBlockSize * TopBlockSize
  }

  /** The whole top blocks end on a top-order boundary. */
  lemma WholeFramesAligned(n: nat)
    ensures Aligned(WholeFrames(n), TopOrder)
  {
    TopBlockSizeIsPow2();
    MultipleAligned(n / TopBlockSize, TopOrder);
  }

  /** The outcome of the merge loop of `free`: the lists left after removing
      the merged buddies, and the base and order of the final block. */
  datatype Merge = Merge(lists: seq<seq<nat>>, index: nat, order: nat)

  /** The merge loop of `free` as written: while below order 17 and the
      buddy's base flag is free, the buddy is removed from the list of the
      current order (nothing happens when it is not there) and the block
      grows to the pair. */
  function Coalesce(lists: seq<seq<nat>>, flags: seq<bv8>, index: nat, order: nat): (m: Merge)
    requires |lists| == MaxOrder && order < MaxOrder
    requires Aligned(index, order) && index + Pow2(order) <= WholeFrames(|flags|)
    ensures order <= m.order < MaxOrder && |m.lists| == MaxOrder
    ensures Aligned(m.index, m.order) && m.index + Pow2(m.order) <= WholeFrames(|flags|)
    decreases TopOrder - order
  {
    if order >= TopOrder then Merge(lists, index, order)
    else
      var buddy := BuddyOf(index, order);
      WholeFramesAligned(|flags|);
      BuddyWithinFrames(index, order, WholeFrames(|flags|));
      if flags[buddy] != FlagFree then Merge(lists, index, order)
      else Coalesce(lists[order := WithoutFirst(lists[order], buddy)], flags, Min(index, buddy), order + 1)
  }

  /** One merge step of `Coalesce`, unfolded. */
  lemma CoalesceStep(lists: seq<seq<nat>>, flags: seq<bv8>, index: nat, order: nat)
    requires |lists| == MaxOrder && order < TopOrder
    requires Aligned(index, order) && index + Pow2(order) <= WholeFrames(|flags|)
    ensures BuddyOf(index, order) < |flags|
    ensures var buddy := BuddyOf(index, order);
      && Aligned(Min(index, buddy), order + 1) && Min(index, buddy) + Pow2(order + 1) <= WholeFrames(|flags|)
      && Coalesce(lists, flags, index, order)
         == if flags[buddy] != FlagFree then Merge(lists, index, order)
            else Coalesce(lists[order := WithoutFirst(lists[order], buddy)], flags, Min(index, buddy), order + 1)
  {
    WholeFramesAligned(|flags|);
    BuddyWithinFrames(index, order, WholeFrames(|flags|));
  }

  /** The final block contains the freed one; merging stops at order 17 or
      at a buddy whose base flag is not free; and merging only takes entries
      off the lists. */
  lemma {:induction false} CoalesceFacts(lists: seq<seq<nat>>, flags: seq<bv8>, index: nat, order: nat)
    requires |lists| == MaxOrder && order < MaxOrder
    requires Aligned(index, order) && index + Pow2(order) <= WholeFrames(|flags|)
    ensures var m := Coalesce(lists, flags, index, order);
      && m.index <= index && index + Pow2(order) <= m.index + Pow2(m.order)
      && (m.order < TopOrder ==> BuddyOf(m.index, m.order) < |flags| && flags[BuddyOf(m.index, m.order)] != FlagFree)
      && (forall o, b :: 0 <= o < MaxOrder && b in m.lists[o] ==> b in lists[o])
    decreases TopOrder - order
  {
    if order < TopOrder {
      var buddy := BuddyOf(index, order);
      WholeFramesAligned(|flags|);
      BuddyWithinFrames(index, order, WholeFrames(|flags|));
      if flags[buddy] == FlagFree {
        CoalesceFacts(lists[order := WithoutFirst(lists[order], buddy)], flags, Min(index, buddy), order + 1);
      }
    } else {
      Pow2Monotone(order, order);
    }
  }

  /** The merge loop with the membership test the buddy scheme needs: the
      buddy is merged only when it is free and is itself a free block of the
      current order. */
  function CoalesceChecked(lists: seq<seq<nat>>, flags: seq<bv8>, index: nat, order: nat): (m: Merge)
    requires |lists| == MaxOrder && order < MaxOrder
    requires Aligned(index, order) && index + Pow2(order) <= WholeFrames(|flags|)
    ensures order <= m.order < MaxOrder && |m.lists| == MaxOrder
    ensures Aligned(m.index, m.order) && m.index + Pow2(m.order) <= WholeFrames(|flags|)
    ensures m.index <= index && index + Pow2(order) <= m.index + Pow2(m.order)
    decreases TopOrder - order
  {
    if order >= TopOrder then Merge(lists, index, order)
    else
      var buddy := BuddyOf(index, order);
      WholeFramesAligned(|flags|);
      BuddyWithinFrames(index, order, WholeFrames(|flags|));
      if flags[buddy] != FlagFree || buddy !in lists[order] then Merge(lists, index, order)
      else CoalesceChecked(lists[order := WithoutFirst(lists[order], buddy)], flags, Min(index, buddy), order + 1)
  }

  /** Each checked merge takes one free block of the current order off its
      list and doubles the block being freed, so the frames the lists hold
      plus the final block are the frames held before plus the freed block. */
  lemma {:induction false} CoalesceCheckedConserves(lists: seq<seq<nat>>, flags: seq<bv8>, index: nat, order: nat)
    requires |lists| == MaxOrder && order < MaxOrder
    requires Aligned(index, order) && index + Pow2(order) <= WholeFrames(|flags|)
    ensures var m := CoalesceChecked(lists, flags, index, order);
      FreeFrames(m.lists) + Pow2(m.order) == FreeFrames(lists) + Pow2(order)
    decreases TopOrder - order
  {
    if order < TopOrder {
      var buddy := BuddyOf(index, order);
      WholeFramesAligned(|flags|);
      BuddyWithinFrames(index, order, WholeFrames(|flags|));
      if flags[buddy] == FlagFree && buddy in lists[order] {
        var rest := WithoutFirst(lists[order], buddy);
        FreeFramesGrow(lists[order := rest], order, lists[order]);
        assert lists[order := rest][order := lists[order]] == lists;
        CoalesceCheckedConserves(lists[order := rest], flags, Min(index, buddy), order + 1);
      }
    }
  }

  /** The walk of `remove_specific_block` as written: the cursor starts at
      `first()` and then moves to `next(cursor)`, the element after the
      first occurrence of the cursor's value. */
  function Cursor(list: seq<nat>, steps: nat): Option<nat>
  {
    if steps == 0 then (if list == [] then None else Some(list[0]))
    else match Cursor(list, steps - 1)
      case None => None
      case Some(c) => After(list, c)
  }

  /** On a list without repeated indices the cursor visits the entries one
      by one and then stops, so the walk is the positional walk of
      `RemoveSpecificBlock`. */
  lemma {:induction false} CursorWalksByPosition(list: seq<nat>, steps: nat)
    requires NoDuplicates(list) && steps <= |list|
    ensures Cursor(list, steps) == if steps < |list| then Some(list[steps]) else None
  {
    if steps > 0 {
      CursorWalksByPosition(list, steps - 1);
      if list != [] {
        assert FirstIndex(list, list[steps - 1]) == steps - 1;
      }
    }
  }

  /** When the head `a` is followed by `b` and the first `b` by `a` again,
      the cursor alternates between the two for ever. */
  lemma {:induction false} CursorAlternates(list: seq<nat>, a: nat, b: nat, n: nat)
    requires list != [] && list[0] == a && After(list, a) == Some(b) && After(list, b) == Some(a)
    ensures Cursor(list, 2 * n) == Some(a) && Cursor(list, 2 * n + 1) == Some(b)
  {
    if n > 0 {
      CursorAlternates(list, a, b, n - 1);
    }
  }

  /** With a repeated index the cursor can cycle: on [5, 7, 5, 9] it
      alternates between 5 and 7 and never reaches 9, so the walk of the
      source looking for 9 does not end. */
  lemma CursorCycles(n: nat)
    ensures Cursor([5, 7, 5, 9], 2 * n) == Some(5)
    ensures Cursor([5, 7, 5, 9], 2 * n + 1) == Some(7)
  {
    var l := [5, 7, 5, 9];
    assert l[0] == 5 && l[1] == 7 && l[2] == 5;
    assert FirstIndex(l, 5) == 0;
    assert FirstIndex(l, 7) == 1;
    CursorAlternates(l, 5, 7, n);
  }

  class BuddyAllocator {
    /** The frame descriptors: one flag byte per frame. */
    var frames: array<bv8>
    var nrFrames: nat
    /** Free list `o` holds the base indices of the free blocks of order `o`. */
    const freeLists: array<seq<nat>>

    ghost predicate Valid()
      reads this, freeLists
    {
      && freeLists.Length == MaxOrder
      && nrFrames == frames.Length
      && frames as object != freeLists
      && WellFormed(freeLists[..], WholeFrames(nrFrames))
    }

    constructor ()
      ensures Valid() && fresh(freeLists)
      ensures nrFrames == 0
      ensures forall o :: 0 <= o < MaxOrder ==> freeLists[o] == []
    {
      frames := new bv8[0];
      nrFrames := 0;
      freeLists := new seq<nat>[MaxOrder](_ => []);
    }

    /** The base flag of frame `index` says free. */
    predicate IsFree(index: nat)
      reads this, frames
      requires index < frames.Length
    {
      frames[index] == FlagFree
    }

    /** Marks frame `index` free and appends it to list `order`. */
    method InsertBlock(index: nat, order: nat)
      requires Valid() && order < MaxOrder
      requires Aligned(index, order) && index + Pow2(order) <= WholeFrames(nrFrames)
      modifies frames, freeLists
      ensures Valid()
      ensures frames[..] == old(frames[..])[index := FlagFree]
      ensures freeLists[..] == old(freeLists[..])[order := old(freeLists[order]) + [index]]
    {
      frames[index] := FlagFree;
      freeLists[order] := freeLists[order] + [index];
    }

    /** Takes over `count` descriptors, empties every list and puts each
        whole block of 2^17 frames, from frame 0 on, into list 17. The
        loop counter of the source is a signed 32-bit `int`. */
    method Initialise(descriptors: array<bv8>, count: nat)
      requires Valid() && count == descriptors.Length && descriptors as object != freeLists
      requires count <= 0x8000_0000 - TopBlockSize
      modifies this, freeLists, descriptors
      ensures Valid() && frames == descriptors && nrFrames == count
      ensures forall o :: 0 <= o < TopOrder ==> freeLists[o] == []
      ensures freeLists[TopOrder] == TopBases(count / TopBlockSize)
      ensures forall i :: 0 <= i < count ==>
        frames[i] == if i % TopBlockSize == 0 && i + TopBlockSize <= count then FlagFree else old(descriptors[i])
    {
      frames := descriptors;
      nrFrames := count;
      ClearLists();
      CarveTopBlocks();
    }

    /** The first loop of `initialise`: clears every free list. */
    method ClearLists()
      requires freeLists.Length == MaxOrder && nrFrames == frames.Length && frames as object != freeLists
      modifies freeLists
      ensures Valid()
      ensures forall o :: 0 <= o < MaxOrder ==> freeLists[o] == []
    {
      for o := 0 to MaxOrder
        modifies freeLists
        invariant forall p :: 0 <= p < o ==> freeLists[p] == []
      {
        freeLists[o] := [];
      }
    }

    /** The second loop of `initialise`: steps through the frames 2^17 at a
        time and inserts each block that fits whole into list 17. */
    method CarveTopBlocks()
      requires Valid() && nrFrames <= 0x8000_0000 - TopBlockSize
      requires forall o :: 0 <= o < MaxOrder ==> freeLists[o] == []
      modifies frames, freeLists
      ensures Valid()
      ensures forall o :: 0 <= o < TopOrder ==> freeLists[o] == []
      ensures freeLists[TopOrder] == TopBases(nrFrames / TopBlockSize)
      ensures forall i :: 0 <= i < nrFrames ==>
        frames[i] == if i % TopBlockSize == 0 && i + TopBlockSize <= nrFrames then FlagFree else old(frames[i])
    {
      TopBlockSizeIsPow2();
      ghost var flags := frames[..];
      var count := nrFrames;
      var i := 0;
      ghost var k := 0;
      while i < count
        invariant CarvedUpTo(flags, i, k)
      {
        CarveBlock(flags, i, k);
        i := i + TopBlockSize;
        k := k + 1;
      }
      CarvedBasesAll(count, k);
      CarveEnd(flags, k);
    }

    /** The state after the carving loop has visited every block start
        below `i`, which is the `k`-th. */
    ghost predicate CarvedUpTo(flags: seq<bv8>, i: nat, k: nat)
      reads this, frames, freeLists
    {
      && Valid() && |flags| == nrFrames
      && (forall p :: 0 <= p < TopOrder ==> freeLists[p] == [])
      && i == k * TopBlockSize
      && freeLists[TopOrder] == CarvedBases(nrFrames, i)
      && frames[..] == Carved(flags, i)
    }

    /** One pass of the carving loop: the block at `i` goes into list 17
        when it fits. */
    method CarveBlock(ghost flags: seq<bv8>, i: nat, ghost k: nat)
      requires CarvedUpTo(flags, i, k)
      modifies frames, freeLists
      ensures CarvedUpTo(flags, i + TopBlockSize, k + 1)
    {
      if i + TopBlockSize <= nrFrames {
        TopBlockSizeIsPow2();
        MultipleAligned(k, TopOrder);
        WholeBlockFits(k, nrFrames);
        InsertBlock(i, TopOrder);
      }
    }

    /** Finds the lowest non-empty list at or above `order`, takes its head
        and splits it down to `order`, appending each upper half to the list
        of its order; the lower half is returned with its base flag set. */
    method Allocate(order: nat) returns (r: Option<nat>)
      requires Valid() && order <= MaxOrder
      modifies frames, freeLists
      ensures Valid()
      ensures r.None? <==> forall o :: order <= o < MaxOrder ==> old(freeLists[o]) == []
      ensures r.None? ==> freeLists[..] == old(freeLists[..]) && frames[..] == old(frames[..])
      ensures r.Some? ==>
        var found := FirstNonEmpty(old(freeLists[..]), order);
        && found < MaxOrder
        && r.value == old(freeLists[found])[0]
        && Aligned(r.value, found) && r.value + Pow2(found) <= WholeFrames(nrFrames)
        && freeLists[..] == Split(old(freeLists[..]), order, found)
        && FreeFrames(freeLists[..]) + Pow2(order) == FreeFrames(old(freeLists[..]))
        && frames[..] == Marked(old(frames[..]), r.value, order, found)[r.value := FlagAllocated]
    {
      var current := order;
      while current < MaxOrder && freeLists[current] == []
        invariant order <= current <= MaxOrder
        invariant forall o :: order <= o < current ==> freeLists[o] == []
      {
        current := current + 1;
      }
      if current == MaxOrder {
        return None;
      }
      ghost var lists0 := freeLists[..];
      var block := freeLists[current][0];
      assert block in lists0[current];
      SplitTakesBlock(lists0, order, current);
      var rest: seq<nat> := freeLists[current][1..];
      assert forall b :: b in rest ==> b in lists0[current];
      WellFormedReplace(lists0, WholeFrames(nrFrames), current, rest);
      freeLists[current] := rest;
      SplitDown(block, order, current);
      frames[block] := FlagAllocated;
      r := Some(block);
    }

    /** The splitting loop of `allocate`: going down from order `found` to
        `order`, the upper half `block + 2^k` of the block at each order
        `k + 1` is marked free and appended to list `k`. */
    method SplitDown(block: nat, order: nat, found: nat)
      requires Valid() && order <= found < MaxOrder
      requires Aligned(block, found) && block + Pow2(found) <= WholeFrames(nrFrames)
      modifies frames, freeLists
      ensures Valid()
      ensures freeLists[..] == AddHalves(old(freeLists[..]), block, order, found)
      ensures frames[..] == Marked(old(frames[..]), block, order, found)
    {
      var current := found;
      while current > order
        invariant order <= current <= found
        invariant Valid()
        invariant freeLists[..] == AddHalves(old(freeLists[..]), block, current, found)
        invariant frames[..] == Marked(old(frames[..]), block, current, found)
      {
        current := current - 1;
        BuddyHalf(block, current, found);
        AddHalvesStep(old(freeLists[..]), block, current, found);
        InsertBlock(block + Pow2(current), current);
      }
    }

    /** Removes `page` from list `order` if it is there; otherwise the list
        is left as it is. */
    method RemoveSpecificBlock(page: nat, order: nat)
      requires Valid() && order < MaxOrder
      modifies freeLists
      ensures Valid()
      ensures freeLists[..] == old(freeLists[..])[order := WithoutFirst(old(freeLists[order]), page)]
    {
      var list := freeLists[order];
      var i := 0;
      while i < |list| && list[i] != page
        invariant 0 <= i <= |list|
        invariant forall j :: 0 <= j < i ==> list[j] != page
      {
        i := i + 1;
      }
      if i < |list| {
        assert FirstIndex(list, page) == i;
        freeLists[order] := list[..i] + list[i + 1..];
      }
    }

    /** Frees the order-`order` block at `page`: merges it with its free
        buddies, then appends the final block to the list of its order with
        its base flag free. */
    method Free(page: nat, order: nat)
      requires Valid() && order < MaxOrder
      requires Aligned(page, order) && page + Pow2(order) <= WholeFrames(nrFrames)
      modifies frames, freeLists
      ensures Valid()
      ensures var m := Coalesce(old(freeLists[..]), old(frames[..]), page, order);
        && freeLists[..] == m.lists[m.order := m.lists[m.order] + [m.index]]
        && frames[..] == old(frames[..])[m.index := FlagFree]
    {
      var index, current := MergeBuddies(page, order);
      InsertBlock(index, current);
    }

    /** The merge loop of `free`: while below order 17 and the buddy's base
        flag is free, removes the buddy from the list of the current order
        and moves to the pair, one order up. */
    method MergeBuddies(page: nat, order: nat) returns (index: nat, current: nat)
      requires Valid() && order < MaxOrder
      requires Aligned(page, order) && page + Pow2(order) <= WholeFrames(nrFrames)
      modifies freeLists
      ensures Valid() && current < MaxOrder && Aligned(index, current) && index + Pow2(current) <= WholeFrames(nrFrames)
      ensures Merge(freeLists[..], index, current) == Coalesce(old(freeLists[..]), frames[..], page, order)
    {
      ghost var flags := frames[..];
      ghost var target := Coalesce(freeLists[..], flags, page, order);
      index := page;
      current := order;
      while current < TopOrder
        invariant Valid() && current < MaxOrder && frames[..] == flags
        invariant Aligned(index, current) && index + Pow2(current) <= WholeFrames(nrFrames)
        invariant Coalesce(freeLists[..], flags, index, current) == target
        decreases TopOrder - current
      {
        CoalesceStep(freeLists[..], flags, index, current);
        var buddy := BuddyOf(index, current);
        if !IsFree(buddy) {
          break;
        }
        RemoveSpecificBlock(buddy, current);
        index := if index < buddy then index else buddy;
        current := current + 1;
      }
    }
  }

  /** The bases 0, 2^17, 2 * 2^17, ... of the first `m` top-order blocks. */
  function TopBases(m: nat): (r: seq<nat>)
    ensures |r| == m && forall j :: 0 <= j < m ==> r[j] == j * TopBlockSize
  {
    seq(m, j => j * TopBlockSize)
  }

  lemma TopBasesSnoc(m: nat)
    ensures TopBases(m + 1) == TopBases(m) + [m * TopBlockSize]
  {
  }

  /** List 17 once the loop has visited every block start below `i`: the
      base of each block that fits in `count` frames, in order. */
  function CarvedBases(count: nat, i: nat): seq<nat>
  {
    if i < TopBlockSize then []
    else
      var prev := i - TopBlockSize;
      if prev + TopBlockSize <= count then CarvedBases(count, prev) + [prev] else CarvedBases(count, prev)
  }

  /** After `k` blocks those are the bases of the first `k` blocks, or of
      all the whole ones when fewer fit. */
  lemma {:induction false} CarvedBasesAll(count: nat, k: nat)
    ensures CarvedBases(count, k * TopBlockSize) == TopBases(Min(k, count / TopBlockSize))
  {
    if k > 0 {
      assert k * TopBlockSize - TopBlockSize == (k - 1) * TopBlockSize;
      CarvedBasesAll(count, k - 1);
      CarveCount(k - 1, count);
      TopBasesSnoc(k - 1);
    }
  }

  /** Frame `x` is the base of a block that starts below `i` and fits in
      `count` frames. */
  predicate IsCarvedBase(x: nat, count: nat, i: nat)
  {
    x % TopBlockSize == 0 && x + TopBlockSize <= count && x < i
  }

  /** The flags once the loop has visited every block start below `i`, each
      block that fits having had its base flag set free. */
  function Carved(flags: seq<bv8>, i: nat): (r: seq<bv8>)
    ensures |r| == |flags|
  {
    if i < TopBlockSize then flags
    else
      var prev := i - TopBlockSize;
      if prev + TopBlockSize <= |flags| then Carved(flags, prev)[prev := FlagFree] else Carved(flags, prev)
  }

  /** For a block start `i`, exactly the bases of the visited blocks that
      fit are marked free. */
  lemma {:induction false} CarvedFlags(flags: seq<bv8>, i: nat, x: nat)
    requires x < |flags| && i % TopBlockSize == 0
    ensures Carved(flags, i)[x] == if IsCarvedBase(x, |flags|, i) then FlagFree else flags[x]
  {
    if i >= TopBlockSize {
      var prev := i - TopBlockSize;
      assert prev % TopBlockSize == 0;
      CarvedFlags(flags, prev, x);
      assert IsCarvedBase(x, |flags|, i) == (IsCarvedBase(x, |flags|, prev) || (x == prev && prev + TopBlockSize <= |flags|));
    } else {
      assert i == 0;
    }
  }

  /** Block `k` is carved exactly when it fits, which is when `k` is below
      `count / 2^17`. */
  lemma CarveCount(k: nat, count: nat)
    ensures k * TopBlockSize + TopBlockSize <= count ==> Min(k, count / TopBlockSize) == k && Min(k + 1, count / TopBlockSize) == k + 1
    ensures k * TopBlockSize + TopBlockSize > count ==> Min(k + 1, count / TopBlockSize) == Min(k, count / TopBlockSize)
  {
  }

  /** Once every block start up to the end has been passed, the carved
      frames are exactly the bases of the whole blocks. */
  lemma CarveEnd(flags: seq<bv8>, k: nat)
    requires |flags| <= k * TopBlockSize
    ensures Min(k, |flags| / TopBlockSize) == |flags| / TopBlockSize
    ensures forall x :: 0 <= x < |flags| ==>
      Carved(flags, k * TopBlockSize)[x] == if x % TopBlockSize == 0 && x + TopBlockSize <= |flags| then FlagFree else flags[x]
  {
    forall x | 0 <= x < |flags|
      ensures Carved(flags, k * TopBlockSize)[x] == if x % TopBlockSize == 0 && x + TopBlockSize <= |flags| then FlagFree else flags[x]
    {
      CarvedFlags(flags, k * TopBlockSize, x);
    }
  }

  /** A block that fits in `n` frames lies inside the whole top blocks. */
  lemma WholeBlockFits(k: nat, n: nat)
    requires (k + 1) * TopBlockSize <= n
    ensures (k + 1) * TopBlockSize <= WholeFrames(n)
  {
    assert k + 1 <= n / TopBlockSize;
  }

  /** `j * 2^k` is aligned at order `k`. */
  lemma {:induction false} MultipleAligned(j: nat, k: nat)
    ensures Aligned(j * Pow2(k), k)
  {
    if k > 0 {
      MultipleAligned(j, k - 1);
      assert j * Pow2(k) == 2 * (j * Pow2(k - 1));
    }
  }

  /** The upper half split off at order `k` from a block of order `found`
      above it is an aligned order-`k` block inside the original one. */
  lemma BuddyHalf(block: nat, k: nat, found: nat)
    requires k < found && Aligned(block, found)
    ensures Aligned(block + Pow2(k), k)
    ensures block + Pow2(k) + Pow2(k) <= block + Pow2(found)
  {
    AlignedWeaken(block, k, found);
    Pow2Aligned(k, k);
    AlignedAdd(block, Pow2(k), k);
    Pow2Monotone(k + 1, found);
  }
}
