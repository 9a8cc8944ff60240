/** The page allocator front end (`infos::mm::PageAllocator`): the
    conversions between page descriptors and page frame numbers, and the
    single-page wrappers around the allocation algorithm. A descriptor is
    named by its address; the descriptor array starts at `descriptors` and
    holds `nrPages` entries. */
module PageAllocators {
  import opened Wrappers
  import opened Bits
  import opened Buddy

  /** `2^64`: `uintptr_t` and `pfn_t` arithmetic is modulo this. */
  const WordModulus: nat := 0x1_0000_0000_0000_0000

  /** `sizeof(PageDescriptor)`: two 8-byte links and a 4-byte enum,
      padded to the 16-byte alignment the structure declares. */
  const DescriptorSize: nat := 32

  datatype PageAllocator = PageAllocator(nrPages: nat, descriptors: nat)

  /** The descriptor array, and the address one past its end, lie in the
      address space. */
  predicate Valid(a: PageAllocator)
  {
    a.descriptors + a.nrPages * DescriptorSize < WordModulus
  }

  /** `p` is the address of one of the `nrPages` descriptors. */
  predicate IsDescriptor(a: PageAllocator, p: nat)
  {
    a.descriptors <= p < a.descriptors + a.nrPages * DescriptorSize && (p - a.descriptors) % DescriptorSize == 0
  }

  /** `pgd_to_pfn`: the byte distance of `pgd` from the start of the array,
      as an unsigned 64-bit difference, divided by the descriptor size. */
  function PgdToPfn(a: PageAllocator, pgd: nat): nat
  {
    ((pgd - a.descriptors) % WordModulus) / DescriptorSize
  }

  /** `&_page_descriptors[pfn]`, as a 64-bit address. */
  function DescriptorAddress(a: PageAllocator, pfn: nat): nat
  {
    (a.descriptors + pfn * DescriptorSize) % WordModulus
  }

  /** `pgd_to_pfn` is the index of a descriptor in the array: descriptor `i`
      converts to `i` for every `i` the array can hold. */
  lemma PgdToPfnIndex(a: PageAllocator, i: nat)
    requires a.descriptors + i * DescriptorSize < WordModulus
    ensures PgdToPfn(a, DescriptorAddress(a, i)) == i
  {
    assert DescriptorAddress(a, i) == a.descriptors + i * DescriptorSize;
    assert DescriptorAddress(a, i) - a.descriptors == i * DescriptorSize;
  }

  /** `pfn_to_pgd` as written: NULL exactly when `pfn > nrPages`, and
      otherwise the address of entry `pfn`. */
  function PfnToPgd(a: PageAllocator, pfn: nat): (r: Option<nat>)
    ensures r.None? <==> pfn > a.nrPages
  {
    if pfn > a.nrPages then None else Some(DescriptorAddress(a, pfn))
  }

  /** Every address `pfn_to_pgd` returns converts back to the frame number
      it came from. */
  lemma PfnToPgdRoundTrip(a: PageAllocator, pfn: nat)
    requires Valid(a) && PfnToPgd(a, pfn).Some?
    ensures PgdToPfn(a, PfnToPgd(a, pfn).value) == pfn
  {
    PgdToPfnIndex(a, pfn);
  }

  /** The bound `pfn > nrPages` lets `pfn == nrPages` through: the address
      returned is one past the last descriptor, not a descriptor. */
  lemma PfnToPgdPastEnd(a: PageAllocator)
    requires Valid(a)
    ensures PfnToPgd(a, a.nrPages).Some?
    ensures !IsDescriptor(a, PfnToPgd(a, a.nrPages).value)
  {
    assert DescriptorAddress(a, a.nrPages) == a.descriptors + a.nrPages * DescriptorSize;
  }

  /** `pfn_to_pgd` with the bound `pfn >= nrPages`: NULL exactly for the
      frame numbers that have no descriptor; otherwise a descriptor that
      converts back to `pfn`. */
  function PfnToPgdChecked(a: PageAllocator, pfn: nat): (r: Option<nat>)
    requires Valid(a)
    ensures r.None? <==> pfn >= a.nrPages
    ensures r.Some? ==> IsDescriptor(a, r.value) && PgdToPfn(a, r.value) == pfn
  {
    if pfn >= a.nrPages then None
    else
      DescriptorInArray(a, pfn);
      PgdToPfnIndex(a, pfn);
      Some(DescriptorAddress(a, pfn))
  }

  lemma DescriptorInArray(a: PageAllocator, i: nat)
    requires Valid(a) && i < a.nrPages
    ensures IsDescriptor(a, DescriptorAddress(a, i))
  {
    assert i * DescriptorSize < a.nrPages * DescriptorSize;
    assert DescriptorAddress(a, i) == a.descriptors + i * DescriptorSize;
    assert DescriptorAddress(a, i) - a.descriptors == i * DescriptorSize;
  }

  /** The other direction of the round trip: every descriptor's frame number
      maps back to that descriptor. */
  lemma PgdToPfnRoundTrip(a: PageAllocator, p: nat)
    requires Valid(a) && IsDescriptor(a, p)
    ensures PgdToPfn(a, p) < a.nrPages
    ensures PfnToPgdChecked(a, PgdToPfn(a, p)) == Some(p)
  {
    var i := (p - a.descriptors) / DescriptorSize;
    assert p - a.descriptors == i * DescriptorSize;
    assert i < a.nrPages;
    PgdToPfnIndex(a, i);
    assert p == DescriptorAddress(a, i);
  }

  /** `alloc_page`: `alloc_pages(0)`, delegated to the buddy allocator. It
      fails only when every free list is empty, and otherwise hands out one
      frame, taken from the lowest non-empty list and split down to order 0. */
  method AllocPage(alloc: BuddyAllocator) returns (r: Option<nat>)
    requires alloc.Valid()
    modifies alloc.frames, alloc.freeLists
    ensures alloc.Valid()
    ensures r.None? <==> forall o :: 0 <= o < MaxOrder ==> old(alloc.freeLists[o]) == []
    ensures r.None? ==> alloc.freeLists[..] == old(alloc.freeLists[..]) && alloc.frames[..] == old(alloc.frames[..])
    ensures r.Some? ==>
      var found := FirstNonEmpty(old(alloc.freeLists[..]), 0);
      && found < MaxOrder
      && r.value == old(alloc.freeLists[found])[0] && r.value < WholeFrames(alloc.nrFrames)
      && alloc.freeLists[..] == Split(old(alloc.freeLists[..]), 0, found)
      && FreeFrames(alloc.freeLists[..]) + 1 == FreeFrames(old(alloc.freeLists[..]))
      && Aligned(r.value, found) && r.value + Pow2(found) <= alloc.frames.Length
      && alloc.frames[..] == Marked(old(alloc.frames[..]), r.value, 0, found)[r.value := FlagAllocated]
  {
    r := alloc.Allocate(0);
    if r.Some? {
      Pow2Monotone(0, FirstNonEmpty(old(alloc.freeLists[..]), 0));
    }
  }

  /** `free_page`: `free_pages(pgd, 0)`, delegated to the buddy allocator. */
  method FreePage(alloc: BuddyAllocator, page: nat)
    requires alloc.Valid() && page < WholeFrames(alloc.nrFrames)
    modifies alloc.frames, alloc.freeLists
    ensures alloc.Valid()
    ensures var m := Coalesce(old(alloc.freeLists[..]), old(alloc.frames[..]), page, 0);
      && alloc.freeLists[..] == m.lists[m.order := m.lists[m.order] + [m.index]]
      && alloc.frames[..] == old(alloc.frames[..])[m.index := FlagFree]
  {
    alloc.Free(page, 0);
  }
}
