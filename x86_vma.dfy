/** The 64-bit x86 page-table entry and virtual-address layout (section 4.5
    of the Intel 64 and IA-32 Architectures Software Developer's Manual,
    Volume 3A): four-level paging, 9 index bits per level above the 12-bit
    page offset. */
module X86Vma {
  import opened Vma

  /** The PML4, PDP, PD and PT indices of a virtual address (`table_idx_t`
      is 16 bits wide). */
  datatype TableIndices = TableIndices(pm: bv16, pdp: bv16, pd: bv16, pt: bv16)

  /** `va_table_indices`: bits 39-47, 30-38, 21-29 and 12-20 of `va`,
      narrowed to 16 bits. Each is the `BITS(va, start, end)` macro expanded
      at its use: `va` shifted down by `start`, masked to `end - start + 1`
      bits. Each index is below 512, the number of entries of one table. */
  function VaTableIndices(va: bv64): (t: TableIndices)
    ensures t.pm < 512 && t.pdp < 512 && t.pd < 512 && t.pt < 512
  {
    TableIndices(
      ((va >> 39) & ((1 << 9) - 1)) as bv16,
      ((va >> 30) & ((1 << 9) - 1)) as bv16,
      ((va >> 21) & ((1 << 9) - 1)) as bv16,
      ((va >> 12) & ((1 << 9) - 1)) as bv16)
  }

  /** The address bits the four indices stand for, put back in place. */
  function Recombine(t: TableIndices): bv64
  {
    (t.pm as bv64 << 39) | (t.pdp as bv64 << 30) | (t.pd as bv64 << 21) | (t.pt as bv64 << 12)
  }

  /** Nothing is lost in the narrowing: put back in place, the indices are
      bits 12-47 of the address. */
  lemma IndicesRecombine(va: bv64)
    ensures Recombine(VaTableIndices(va)) == va & 0x0000_ffff_ffff_f000
  {
  }

  /** The indices depend on bits 12-47 only. */
  lemma IndicesOfCanonicalBits(a: bv64)
    ensures VaTableIndices(a & 0x0000_ffff_ffff_f000) == VaTableIndices(a)
  {
  }

  /** Two addresses have the same indices exactly when they agree on bits
      12-47... */
  lemma SameIndices(a: bv64, b: bv64)
    ensures VaTableIndices(a) == VaTableIndices(b) <==> a & 0x0000_ffff_ffff_f000 == b & 0x0000_ffff_ffff_f000
  {
    if VaTableIndices(a) == VaTableIndices(b) {
      IndicesRecombine(a);
      IndicesRecombine(b);
    }
    if a & 0x0000_ffff_ffff_f000 == b & 0x0000_ffff_ffff_f000 {
      IndicesOfCanonicalBits(a);
      IndicesOfCanonicalBits(b);
    }
  }

  /** ... so two addresses in one 4 KiB page have the same indices. */
  lemma SamePageSameIndices(a: bv64, b: bv64)
    requires PageOf(a) == PageOf(b)
    ensures VaTableIndices(a) == VaTableIndices(b)
  {
    SameIndices(a, b);
    CanonicalBitsOfPage(a);
    CanonicalBitsOfPage(b);
  }

  lemma CanonicalBitsOfPage(a: bv64)
    ensures a & 0x0000_ffff_ffff_f000 == PageOf(a) & 0x0000_ffff_ffff_ffff
  {
  }

  /** The address field of an entry word: the word with its 12 flag bits
      clear. The source's mask `~0xfff` is an `int`, sign-extended to the
      64-bit mask written out here. */
  function AddressField(w: bv64): bv64
  {
    w & 0xffff_ffff_ffff_f000
  }

  /** The flag field of an entry word, narrowed to the 16 bits of the flags
      getter's result. */
  function FlagField(w: bv64): bv16
  {
    (w & 0xfff) as bv16
  }

  /** The address field is frame aligned. */
  lemma AddressFieldAligned(w: bv64)
    ensures AddressField(w) & 0xfff == 0
  {
  }

  /** The flag field is below 4096: masking it to 12 bits changes nothing. */
  lemma FlagFieldLow(w: bv64)
    ensures FlagField(w) & 0xfff == FlagField(w)
  {
  }

  /** The two fields together make up the word. */
  lemma EntryFields(w: bv64)
    ensures AddressField(w) | FlagField(w) as bv64 == w
  {
  }

  /** The word the address setter leaves. */
  function WithAddress(w: bv64, addr: bv64): bv64
  {
    (w & 0xfff) | (addr & 0xffff_ffff_ffff_f000)
  }

  /** The address setter takes the address with its low 12 bits dropped... */
  lemma WithAddressAddress(w: bv64, addr: bv64)
    ensures AddressField(WithAddress(w, addr)) == addr & 0xffff_ffff_ffff_f000
  {
  }

  /** ... and keeps the flags. */
  lemma WithAddressFlags(w: bv64, addr: bv64)
    ensures FlagField(WithAddress(w, addr)) == FlagField(w)
  {
  }

  /** The word the flags setter leaves. */
  function WithFlags(w: bv64, flags: bv16): bv64
  {
    (w & 0xffff_ffff_ffff_f000) | (flags & 0xfff) as bv64
  }

  /** The flags setter takes the low 12 bits of its 16-bit argument... */
  lemma WithFlagsFlags(w: bv64, flags: bv16)
    ensures FlagField(WithFlags(w, flags)) == flags & 0xfff
  {
  }

  /** ... and keeps the address. */
  lemma WithFlagsAddress(w: bv64, flags: bv16)
    ensures AddressField(WithFlags(w, flags)) == AddressField(w)
  {
    LowFlagsWord(flags);
    OrBelowAddress(w, (flags & 0xfff) as bv64);
  }

  lemma LowFlagsWord(f: bv16)
    ensures ((f & 0xfff) as bv64) & 0xffff_ffff_ffff_f000 == 0
  {
  }

  lemma OrBelowAddress(a: bv64, x: bv64)
    requires x & 0xffff_ffff_ffff_f000 == 0
    ensures ((a & 0xffff_ffff_ffff_f000) | x) & 0xffff_ffff_ffff_f000 == a & 0xffff_ffff_ffff_f000
  {
  }

  /** Writing back the flags just read leaves the word as it was. */
  lemma WithOwnFlags(w: bv64)
    ensures WithFlags(w, FlagField(w)) == w
  {
  }

  /** Only the low 12 bits of the setter's argument matter. */
  lemma WithFlagsLow(w: bv64, flags: bv16)
    ensures WithFlags(w, flags & 0xfff) == WithFlags(w, flags)
  {
  }

  lemma AndCommute(f: bv16, a: bv16, b: bv16)
    ensures (f & a) & b == (f & b) & a
  {
  }

  lemma LowDisjoint(f: bv16, mask: bv16)
    requires mask & 0xfff == 0
    ensures (f & 0xfff) & mask == 0
  {
  }

  lemma OrOutside(f: bv16, mask: bv16)
    requires mask & 0xfff == 0
    ensures (f | mask) & 0xfff == f & 0xfff
  {
  }

  lemma AndNotOutside(f: bv16, mask: bv16)
    requires mask & 0xfff == 0
    ensures (f & !mask) & 0xfff == f & 0xfff
  {
  }

  /** The word `set_flag(mask, v)` leaves: the generic flag update of the
      current flags, passed to the flags setter. */
  function WithFlag(w: bv64, mask: bv16, v: bool): bv64
  {
    WithFlags(w, FlagUpdate(FlagField(w), mask, v))
  }

  /** After `set_flag(mask, v)`, `get_flag(mask)` reads `v` when the mask has
      a bit in the flag field, and false when it has none. */
  lemma SetFlagReadsBack(w: bv64, mask: bv16, v: bool)
    ensures FlagSet(FlagField(WithFlag(w, mask, v)), mask) == (v && mask & 0xfff != 0)
  {
    var f := FlagUpdate(FlagField(w), mask, v);
    WithFlagsFlags(w, f);
    AndCommute(f, 0xfff, mask);
    FlagUpdateWrites(FlagField(w), mask, v);
  }

  /** `set_flag` keeps the address... */
  lemma SetFlagKeepsAddress(w: bv64, mask: bv16, v: bool)
    ensures AddressField(WithFlag(w, mask, v)) == AddressField(w)
  {
    WithFlagsAddress(w, FlagUpdate(FlagField(w), mask, v));
  }

  /** ... and every flag bit outside the mask. */
  lemma SetFlagKeepsOtherFlags(w: bv64, mask: bv16, v: bool)
    ensures FlagField(WithFlag(w, mask, v)) & !mask == FlagField(w) & !mask
  {
    var f := FlagUpdate(FlagField(w), mask, v);
    WithFlagsFlags(w, f);
    AndCommute(f, 0xfff, !mask);
    FlagUpdateKeeps(FlagField(w), mask, v);
    AndCommute(FlagField(w), !mask, 0xfff);
    FlagFieldLow(w);
  }

  /** A mask with no bit in the flag field (such as `PteNonPtPat`) never
      reads as set... */
  lemma OutsideFieldUnset(w: bv64, mask: bv16)
    requires mask & 0xfff == 0
    ensures !FlagSet(FlagField(w), mask)
  {
    FlagFieldLow(w);
    LowDisjoint(FlagField(w), mask);
  }

  /** ... and setting or clearing it leaves the word as it was. */
  lemma OutsideFieldUnchanged(w: bv64, mask: bv16, v: bool)
    requires mask & 0xfff == 0
    ensures WithFlag(w, mask, v) == w
  {
    var f := FlagUpdate(FlagField(w), mask, v);
    WithFlagsLow(w, f);
    if v {
      OrOutside(FlagField(w), mask);
    } else {
      AndNotOutside(FlagField(w), mask);
    }
    WithFlagsLow(w, FlagField(w));
    WithOwnFlags(w);
  }

  /** A mask within the 12 flag bits reads as the same bits of the entry
      word. */
  lemma FieldBitReads(w: bv64, mask: bv16)
    requires mask & 0xf000 == 0
    ensures FlagSet(FlagField(w), mask) <==> w & mask as bv64 != 0
  {
  }

  /** `GenericX86PageTableEntry`: one 64-bit word holding a frame-aligned
      address above bit 12 and 12 flag bits below. The flag accessors are
      those of the generic entry, which reach the word through this
      entry's `flags` getter and setter. */
  class X86PageTableEntry {
    var bits: bv64

    constructor (bits: bv64)
      ensures this.bits == bits
    {
      this.bits := bits;
    }

    /** `base_address()`: frame aligned; with the flags it makes up the
        word (see `Flags`). */
    function BaseAddress(): (a: bv64)
      reads this
      ensures a & 0xfff == 0
    {
      AddressFieldAligned(bits);
      AddressField(bits)
    }

    method SetBaseAddress(addr: bv64)
      modifies this
      ensures bits == WithAddress(old(bits), addr)
    {
      bits := bits & 0xfff;
      bits := bits | (addr & 0xffff_ffff_ffff_f000);
    }

    /** `flags()`: below 4096 (masking it to 12 bits changes nothing); with
        the address it makes up the word (`EntryFields`). */
    function Flags(): (f: bv16)
      reads this
      ensures f & 0xfff == f
    {
      FlagFieldLow(bits);
      FlagField(bits)
    }

    method SetFlags(flags: bv16)
      modifies this
      ensures bits == WithFlags(old(bits), flags)
    {
      bits := bits & 0xffff_ffff_ffff_f000;
      bits := bits | (flags & 0xfff) as bv64;
    }

    /** `get_flag(mask)`: some bit of the mask that lies in the flag field
        is set in the word. */
    function GetFlag(mask: bv16): (r: bool)
      reads this
      ensures r <==> bits & (mask & 0xfff) as bv64 != 0
    {
      FlagSet(Flags(), mask)
    }

    /** `set_flag(mask, v)`: the generic flag update of the current flags,
        written back through the flags setter. */
    method SetFlag(mask: bv16, v: bool)
      modifies this
      ensures bits == WithFlag(old(bits), mask, v)
    {
      SetFlags(FlagUpdate(Flags(), mask, v));
    }

    function Present(): (r: bool)
      reads this
      ensures r <==> bits & 0x1 != 0
    {
      GetFlag(PtePresent)
    }

    method SetPresent(v: bool)
      modifies this
      ensures bits == WithFlag(old(bits), PtePresent, v)
    {
      SetFlag(PtePresent, v);
    }

    function Writable(): (r: bool)
      reads this
      ensures r <==> bits & 0x2 != 0
    {
      GetFlag(PteWritable)
    }

    method SetWritable(v: bool)
      modifies this
      ensures bits == WithFlag(old(bits), PteWritable, v)
    {
      SetFlag(PteWritable, v);
    }

    function User(): (r: bool)
      reads this
      ensures r <==> bits & 0x4 != 0
    {
      GetFlag(PteAllowUser)
    }

    method SetUser(v: bool)
      modifies this
      ensures bits == WithFlag(old(bits), PteAllowUser, v)
    {
      SetFlag(PteAllowUser, v);
    }

    function Huge(): (r: bool)
      reads this
      ensures r <==> bits & 0x80 != 0
    {
      GetFlag(PteHuge)
    }

    method SetHuge(v: bool)
      modifies this
      ensures bits == WithFlag(old(bits), PteHuge, v)
    {
      SetFlag(PteHuge, v);
    }
  }

  /** The accessors' masks are single bits of the flag field. */
  lemma AccessorMasks()
    ensures PtePresent & 0xf000 == 0 && PtePresent != 0
    ensures PteWritable & 0xf000 == 0 && PteWritable != 0
    ensures PteAllowUser & 0xf000 == 0 && PteAllowUser != 0
    ensures PteHuge & 0xf000 == 0 && PteHuge != 0
  {
  }

  /** An accessor's setter makes its getter read `v`, keeps the address
      and changes no other flag. */
  lemma AccessorWrites(w: bv64, mask: bv16, v: bool)
    requires mask & 0xf000 == 0 && mask != 0
    ensures FlagSet(FlagField(WithFlag(w, mask, v)), mask) == v
    ensures AddressField(WithFlag(w, mask, v)) == AddressField(w)
    ensures FlagField(WithFlag(w, mask, v)) & !mask == FlagField(w) & !mask
  {
    SetFlagReadsBack(w, mask, v);
    SetFlagKeepsAddress(w, mask, v);
    SetFlagKeepsOtherFlags(w, mask, v);
  }

  /** `PteHuge`, `PtePs` and `PtePtPat` name one bit: after the entry is set
      huge or not, all three read the same. */
  lemma HugeAliases(w: bv64, v: bool)
    ensures FlagSet(FlagField(WithFlag(w, PteHuge, v)), PtePs) == v
    ensures FlagSet(FlagField(WithFlag(w, PteHuge, v)), PtePtPat) == v
  {
    AccessorMasks();
    AccessorWrites(w, PteHuge, v);
  }
}
