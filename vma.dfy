/** The architecture-independent page-table interface (`infos::mm`): the
    flag bits of a page-table entry and the documented "cookie" contract of
    a virtual memory area. */
module Vma {
  import opened Wrappers

  /** The flag masks of `PageTableEntryFlags`. They are the 64-bit x86 bit
      positions; bit 7 has three names and the PAT bit of the higher levels
      (bit 12) lies above the 12-bit flag field. The enumeration is an `int`
      in the source; every mask fits in the 16 bits of a flag word. */
  const PtePresent: bv16 := 1 << 0
  const PteWritable: bv16 := 1 << 1
  const PteAllowUser: bv16 := 1 << 2
  const PteWriteThrough: bv16 := 1 << 3
  const PteCacheDisabled: bv16 := 1 << 4
  const PteAccessed: bv16 := 1 << 5
  const PteDirty: bv16 := 1 << 6
  const PteHuge: bv16 := 1 << 7
  const PtePs: bv16 := 1 << 7
  const PtePtPat: bv16 := 1 << 7
  const PteGlobal: bv16 := 1 << 8
  const PteNonPtPat: bv16 := 1 << 12

  /** `get_flag(mask)` on an entry whose flag field is `flags`: some bit of
      `mask` is set in it. */
  predicate FlagSet(flags: bv16, mask: bv16)
  {
    flags & mask != 0
  }

  /** The flag word `set_flag(mask, v)` hands to the entry's flags setter:
      `flags` with the bits of `mask` set or cleared. The source computes it
      as an `int` and narrows it to the setter's 16-bit parameter, which is
      16-bit arithmetic. */
  function FlagUpdate(flags: bv16, mask: bv16, v: bool): bv16
  {
    if !v then flags & !mask else flags | mask
  }

  /** The update leaves every bit outside the mask as it was. */
  lemma FlagUpdateKeeps(flags: bv16, mask: bv16, v: bool)
    ensures FlagUpdate(flags, mask, v) & !mask == flags & !mask
  {
    if v {
      SetKeeps(flags, mask);
    } else {
      ClearKeeps(flags, mask);
    }
  }

  /** The update sets every bit of the mask when `v` holds and clears every
      one otherwise. */
  lemma FlagUpdateWrites(flags: bv16, mask: bv16, v: bool)
    ensures FlagUpdate(flags, mask, v) & mask == if v then mask else 0
  {
    if v {
      SetWrites(flags, mask);
    } else {
      ClearWrites(flags, mask);
    }
  }

  lemma SetKeeps(flags: bv16, mask: bv16)
    ensures (flags | mask) & !mask == flags & !mask
  {
  }

  lemma ClearKeeps(flags: bv16, mask: bv16)
    ensures (flags & !mask) & !mask == flags & !mask
  {
  }

  lemma SetWrites(flags: bv16, mask: bv16)
    ensures (flags | mask) & mask == mask
  {
  }

  lemma ClearWrites(flags: bv16, mask: bv16)
    ensures (flags & !mask) & mask == 0
  {
  }

  /** What the page table keeps for one virtual page, as far as the cookie
      contract can see: an entry that exists but is not present and holds no
      cookie, one that is not present and holds a 32-bit cookie, or a present
      mapping to a frame. */
  datatype Leaf = Unused | Cookie(value: bv32) | Mapped(frame: bv64)

  /** The virtual page of `va`: the address with its 12 offset bits clear. */
  function PageOf(va: bv64): bv64
  {
    va & 0xffff_ffff_ffff_f000
  }

  /** The page is 4 KiB aligned... */
  lemma PageOfAligned(va: bv64)
    ensures PageOf(va) & 0xfff == 0
  {
  }

  /** ... and the page and the offset within it make up the address. */
  lemma PageOfOffset(va: bv64)
    ensures PageOf(va) | (va & 0xfff) == va
  {
  }

  /** The key of the page of `va` in the table below: the page's address
      as a number. */
  function PageKey(va: bv64): int
  {
    PageOf(va) as int
  }

  /** A virtual memory area, seen only through the page-table entries that
      exist for it, one per virtual page, keyed by page address. */
  class VirtualMemoryArea {
    var leaves: map<int, Leaf>

    constructor (leaves: map<int, Leaf>)
      ensures this.leaves == leaves
    {
      this.leaves := leaves;
    }

    /** `is_mapped`: some present entry maps the page of `va`. */
    predicate IsMapped(va: bv64)
      reads this
    {
      PageKey(va) in leaves && leaves[PageKey(va)].Mapped?
    }

    /** `set_pte_cookie`: succeeds exactly when the entry for the page of
        `va` exists and is not present; it then holds `cookie` and stays not
        present. Every other page is untouched, and on failure nothing
        changes. */
    method SetPteCookie(va: bv64, cookie: bv32) returns (ok: bool)
      modifies this
      ensures ok <==> PageKey(va) in old(leaves) && !old(leaves)[PageKey(va)].Mapped?
      ensures leaves == if ok then old(leaves)[PageKey(va) := Cookie(cookie)] else old(leaves)
    {
      var page := PageKey(va);
      ok := page in leaves && !leaves[page].Mapped?;
      if ok {
        leaves := leaves[page := Cookie(cookie)];
      }
    }

    /** `get_pte_cookie`: the cookie stored for the page of `va`, if and
        only if its entry holds one. */
    function GetPteCookie(va: bv64): (r: Option<bv32>)
      reads this
      ensures r.Some? <==> PageKey(va) in leaves && leaves[PageKey(va)].Cookie?
      ensures r.Some? ==> leaves[PageKey(va)] == Cookie(r.value) && !IsMapped(va)
    {
      var page := PageKey(va);
      if page in leaves && leaves[page].Cookie? then Some(leaves[page].value) else None
    }
  }

  /** Setting a cookie and reading it back, at any address of the same page,
      returns the value that was set, and the page stays unmapped. */
  method CookieRoundTrip(vma: VirtualMemoryArea, va: bv64, other: bv64, cookie: bv32) returns (ok: bool)
    requires PageOf(other) == PageOf(va)
    modifies vma
    ensures ok ==> vma.GetPteCookie(other) == Some(cookie) && !vma.IsMapped(other)
    ensures !ok ==> vma.leaves == old(vma.leaves)
  {
    assert PageKey(other) == PageKey(va);
    ok := vma.SetPteCookie(va, cookie);
  }
}
