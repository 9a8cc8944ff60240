/** The checks and the segment-loading plan of the kernel's ELF executable
    loader. The header fields are those of the ELF header of the System V
    gABI, chapter 4 ("ELF Header"); the segments follow its chapter 5
    ("Program Header"). File reads, the new process and the VMA calls are
    parameters or are abstracted to the set of pages that end up mapped. */
module ElfLoader {
  import opened Wrappers

  const MagicNumber: nat := 0x464c457f
  const Class64: nat := 2
  const DataLittle: nat := 1
  const TypeExec: nat := 2
  const MachineX86_64: nat := 0x3e
  const CurrentVersion: nat := 1
  const PtLoad: nat := 1
  const PtInterp: nat := 3

  /** Size in bytes of a 64-bit ELF header. */
  const HeaderSize: nat := 64

  /** The page size of the address space the segments are loaded into. */
  const PageSize: nat := 4096

  const Word32: nat := 0x1_0000_0000
  const Word64: nat := 0x1_0000_0000_0000_0000

  /** The unsigned 16-bit and 64-bit fields of the ELF header. */
  type U16 = x: nat | x < 0x1_0000
  type U64 = x: nat | x < Word64

  /** The header fields the loader looks at: `e_phoff` is 64 bits wide,
      `e_phentsize` and `e_phnum` 16 bits. */
  datatype Header = Header(
    magic: nat, eclass: nat, data: nat,
    etype: nat, machine: nat, version: nat,
    phoff: U64, phentsize: U16, phnum: U16)

  /** The header checks, in the order the loader makes them. */
  datatype Check = ReadWhole | Magic | Elf64 | LittleEndian | Executable | Machine | Version

  function Rank(c: Check): nat
  {
    match c
    case ReadWhole => 0
    case Magic => 1
    case Elf64 => 2
    case LittleEndian => 3
    case Executable => 4
    case Machine => 5
    case Version => 6
  }

  /** Check `c` passes on a header of which `bytes` bytes were read. */
  predicate Holds(c: Check, bytes: int, h: Header)
  {
    match c
    case ReadWhole => bytes == HeaderSize
    case Magic => h.magic == MagicNumber
    case Elf64 => h.eclass == Class64
    case LittleEndian => h.data == DataLittle
    case Executable => h.etype == TypeExec
    case Machine => h.machine == MachineX86_64
    case Version => h.version == CurrentVersion
  }

  /** The header validation of `load`: no failing check when every check
      passes, and otherwise the first check that fails, all before it having
      passed. */
  function CheckHeader(bytes: int, h: Header): (r: Option<Check>)
    ensures r == None ==> forall c :: Holds(c, bytes, h)
    ensures r.Some? ==> !Holds(r.value, bytes, h) && forall c :: Rank(c) < Rank(r.value) ==> Holds(c, bytes, h)
  {
    if bytes != HeaderSize then Some(ReadWhole)
    else if h.magic != MagicNumber then Some(Magic)
    else if h.eclass != Class64 then Some(Elf64)
    else if h.data != DataLittle then Some(LittleEndian)
    else if h.etype != TypeExec then Some(Executable)
    else if h.machine != MachineX86_64 then Some(Machine)
    else if h.version != CurrentVersion then Some(Version)
    else None
  }

  /** The file offset program header `i` is read from. The loop counter is
      an `unsigned int`, so `i * phentsize` is 32-bit arithmetic; adding the
      64-bit `phoff` is 64-bit arithmetic, and the sum is stored in the
      signed 64-bit `off_t`, where a sum of 2^63 or more is negative. */
  function PhEntryOffset(h: Header, i: nat): (off: int)
    ensures -0x8000_0000_0000_0000 <= off < 0x8000_0000_0000_0000
    ensures i < h.phnum ==> off % Word64 == (h.phoff + i * h.phentsize) % Word64
    ensures i < h.phnum && h.phoff + i * h.phentsize < 0x8000_0000_0000_0000 ==> off == h.phoff + i * h.phentsize
  {
    if i < h.phnum then
      ProductFits(i, h.phentsize);
      OffsetArithmetic(h.phoff, i * h.phentsize);
      EntryOffset(h.phoff, i * h.phentsize)
    else EntryOffset(h.phoff, i * h.phentsize)
  }

  /** `phoff + product` with the product narrowed to 32 bits, summed in 64
      bits and read as a signed `off_t`. */
  function EntryOffset(phoff: U64, product: nat): (off: int)
    ensures -0x8000_0000_0000_0000 <= off < 0x8000_0000_0000_0000
  {
    SignedOffset((phoff + product % Word32) % Word64)
  }

  /** A product that fits in 32 bits survives the narrowing. */
  lemma OffsetArithmetic(phoff: U64, product: nat)
    requires product < Word32
    ensures EntryOffset(phoff, product) % Word64 == (phoff + product) % Word64
    ensures phoff + product < 0x8000_0000_0000_0000 ==> EntryOffset(phoff, product) == phoff + product
  {
    assert product % Word32 == product;
  }

  /** An entry index times the entry size fits the 32 bits it is computed
      in. */
  lemma ProductFits(i: nat, size: U16)
    requires i < 0x1_0000
    ensures i * size < Word32
  {
    MulMonotone(i, 0xffff, size);
  }

  lemma {:induction false} MulMonotone(a: nat, b: nat, c: nat)
    requires a <= b
    ensures a * c <= b * c
  {
    if c > 0 {
      MulMonotone(a, b, c - 1);
      assert a * c == a * (c - 1) + a;
      assert b * c == b * (c - 1) + b;
    }
  }

  /** A 64-bit value read as a signed `off_t`. */
  function SignedOffset(sum: nat): (off: int)
    requires sum < Word64
    ensures -0x8000_0000_0000_0000 <= off < 0x8000_0000_0000_0000
    ensures off % Word64 == sum
  {
    if sum < 0x8000_0000_0000_0000 then sum else sum - Word64
  }

  /** The program header fields the loader looks at, and, for a PT_INTERP
      entry, the `filesz` bytes at `offset` in the file (the interpreter
      name). */
  datatype ProgramHeader = ProgramHeader(ptype: nat, offset: nat, vaddr: nat, filesz: nat, memsz: nat, interp: seq<char>)

  function AlignDown(x: nat): (r: nat)
    ensures r % PageSize == 0 && r <= x < r + PageSize
  {
    x - x % PageSize
  }

  function AlignUp(x: nat): (r: nat)
    ensures r % PageSize == 0 && x <= r < x + PageSize
  {
    AlignDown(x + PageSize - 1)
  }

  /** `__align_down_page(c + __page_size)`, the page boundary the loop moves
      to after `c`. */
  function NextPage(c: nat): nat
  {
    AlignDown(c + PageSize)
  }

  /** It is the smallest page boundary strictly above `c`. */
  lemma NextPageLeast(c: nat, b: nat)
    ensures NextPage(c) % PageSize == 0 && c < NextPage(c) <= c + PageSize
    ensures b % PageSize == 0 && c < b ==> NextPage(c) <= b
  {
  }

  lemma NextPageOfBoundary(b: nat)
    requires b % PageSize == 0
    ensures NextPage(b) == b + PageSize
  {
  }

  lemma AlignUpUnaligned(x: nat)
    requires x % PageSize != 0
    ensures AlignUp(x) == NextPage(x) && x < AlignUp(x)
  {
  }

  /** One copy from the file into the new address space: `size` bytes from
      file offset `fileOffset` to virtual address `va`. */
  datatype Copy = Copy(va: nat, size: nat, fileOffset: nat)

  /** The copies, in order, cover `[start, end)` without gap or overlap,
      each copying at least one byte. */
  predicate Tiles(copies: seq<Copy>, start: nat, end: nat)
    decreases |copies|
  {
    if copies == [] then start == end
    else
      var c := copies[|copies| - 1];
      c.size > 0 && c.va + c.size == end && Tiles(copies[..|copies| - 1], start, c.va)
  }

  function Min(a: nat, b: nat): nat
  {
    if a <= b then a else b
  }

  lemma TilesSnoc(copies: seq<Copy>, start: nat, c: Copy)
    requires Tiles(copies, start, c.va) && c.size > 0
    ensures Tiles(copies + [c], start, c.va + c.size)
  {
    assert (copies + [c])[..|copies|] == copies;
  }

  /** The copy planned for the page visited at `current`, by the four cases
      of the loop body: a whole page of file data; the first, partial page of
      a segment that does not start on a page boundary; no copy once past the
      file data; and the last, partial page of file data, where `current` is
      below the end of the file data and the next page boundary above it.

      A page that starts below the end of the file data gets one copy, from
      `current` up to the next page boundary or the end of the file data,
      whichever comes first, read from the corresponding file offset; a page
      at or beyond the end gets none. */
  function PageCopy(ent: ProgramHeader, current: nat): (r: Option<Copy>)
    requires Visited(ent, current)
    ensures current < ent.vaddr + ent.filesz <==> r.Some?
    ensures r.Some? ==> r.value.va == current && r.value.size > 0
    ensures r.Some? ==> r.value.va + r.value.size == Min(NextPage(current), ent.vaddr + ent.filesz)
    ensures r.Some? ==> r.value.fileOffset == ent.offset + (current - ent.vaddr)
  {
    var fileEnd := ent.vaddr + ent.filesz;
    var nextpage := NextPage(current);
    if current % PageSize == 0 && nextpage <= fileEnd then
      NextPageOfBoundary(current);
      Some(Copy(current, PageSize, ent.offset + (current - ent.vaddr)))
    else if current == ent.vaddr && nextpage <= fileEnd then
      AlignUpUnaligned(current);
      Some(Copy(current, AlignUp(ent.vaddr) - ent.vaddr, ent.offset))
    else if current >= fileEnd then
      None
    else
      assert current < fileEnd;
      assert nextpage > fileEnd;
      Some(Copy(current, fileEnd - current, ent.offset + (current - ent.vaddr)))
  }

  /** The page at `p` shares at least one address with the segment. */
  predicate Overlaps(ent: ProgramHeader, p: nat)
  {
    ent.vaddr <= p + PageSize - 1 && p < ent.vaddr + ent.memsz
  }

  /** The copies planned for a PT_LOAD segment stay each within one page and
      read the file at the offset corresponding to their address; when
      `filesz <= memsz` they tile `[vaddr, vaddr + filesz)`. */
  predicate PlanFits(ent: ProgramHeader, copies: seq<Copy>)
  {
    && (forall k :: 0 <= k < |copies| ==> copies[k].va + copies[k].size <= NextPage(copies[k].va))
    && (forall k :: 0 <= k < |copies| ==> copies[k].va >= ent.vaddr && copies[k].fileOffset == ent.offset + (copies[k].va - ent.vaddr))
    && (ent.filesz <= ent.memsz ==> Tiles(copies, ent.vaddr, ent.vaddr + ent.filesz))
  }

  /** The PT_LOAD loop for one segment. It visits `vaddr`, then each later
      page boundary below `vaddr + memsz`; it maps each visited page not
      mapped yet, and plans the page's copy.

      Every copy stays within the page it starts in and reads the file at
      the offset that corresponds to its address; every page the segment
      overlaps is mapped afterwards, and no other page is; and when
      `filesz <= memsz` the copies tile `[vaddr, vaddr + filesz)`, so no
      page at or beyond the end of the file data gets one. */
  method LoadSegment(ent: ProgramHeader, mapped: set<nat>) returns (copies: seq<Copy>, mapped': set<nat>)
    ensures PlanFits(ent, copies)
    ensures forall a :: ent.vaddr <= a < ent.vaddr + ent.memsz ==> AlignDown(a) in mapped'
    ensures mapped <= mapped' && forall p :: p in mapped' ==> p in mapped || Overlaps(ent, p)
  {
    var current := ent.vaddr;
    var nextpage := AlignDown(ent.vaddr + PageSize);
    copies, mapped' := [], mapped;
    while current < ent.vaddr + ent.memsz
      invariant Visited(ent, current)
      invariant nextpage == NextPage(current)
      invariant CopiedUpTo(ent, copies, current)
      invariant MappedUpTo(ent, mapped, mapped', current)
      decreases ent.vaddr + ent.memsz - current
    {
      MapStep(ent, mapped, mapped', current);
      if AlignDown(current) !in mapped' {
        mapped' := mapped' + {AlignDown(current)};
      }
      CopyStep(ent, copies, current);
      var copy := PageCopy(ent, current);
      if copy.Some? {
        copies := copies + [copy.value];
      }
      NextPageLeast(current, nextpage);
      NextPageOfBoundary(nextpage);
      current, nextpage := nextpage, nextpage + PageSize;
    }
  }

  /** `current` is `vaddr` or a page boundary above it: the addresses the
      loop visits. */
  predicate Visited(ent: ProgramHeader, current: nat)
  {
    ent.vaddr <= current && (current == ent.vaddr || current % PageSize == 0)
  }

  /** The copies planned before visiting `current`. */
  predicate CopiedUpTo(ent: ProgramHeader, copies: seq<Copy>, current: nat)
  {
    && (forall k :: 0 <= k < |copies| ==> copies[k].va + copies[k].size <= NextPage(copies[k].va))
    && (forall k :: 0 <= k < |copies| ==> copies[k].va >= ent.vaddr && copies[k].fileOffset == ent.offset + (copies[k].va - ent.vaddr))
    && Tiles(copies, ent.vaddr, Min(current, ent.vaddr + ent.filesz))
  }

  /** The pages mapped, starting from `mapped`, before visiting `current`. */
  predicate MappedUpTo(ent: ProgramHeader, mapped: set<nat>, mapped': set<nat>, current: nat)
  {
    && (forall a :: ent.vaddr <= a < current ==> AlignDown(a) in mapped')
    && mapped <= mapped'
    && (forall p :: p in mapped' ==> p in mapped || Overlaps(ent, p))
  }

  lemma MapStep(ent: ProgramHeader, mapped: set<nat>, mapped': set<nat>, current: nat)
    requires Visited(ent, current) && current < ent.vaddr + ent.memsz
    requires MappedUpTo(ent, mapped, mapped', current)
    ensures MappedUpTo(ent, mapped, mapped' + {AlignDown(current)}, NextPage(current))
  {
    PageCovers(current);
  }

  lemma CopyStep(ent: ProgramHeader, copies: seq<Copy>, current: nat)
    requires Visited(ent, current)
    requires CopiedUpTo(ent, copies, current)
    ensures var copy := PageCopy(ent, current);
            CopiedUpTo(ent, if copy.Some? then copies + [copy.value] else copies, NextPage(current))
  {
    NextPageLeast(current, current);
    var copy := PageCopy(ent, current);
    if copy.Some? {
      TilesSnoc(copies, ent.vaddr, copy.value);
    }
  }

  /** Every address from `c` up to the next page boundary lies in the page
      of `c`. */
  lemma PageCovers(c: nat)
    ensures forall a :: c <= a < NextPage(c) ==> AlignDown(a) == AlignDown(c)
  {
  }

  /** The interpreter name a PT_INTERP segment must carry. */
  const DynamicLinker: string := "__INFOS_DYNAMIC_LINKER__"

  /** Character `i` of `s` as a C string holds it: a NUL past the end. */
  function CharAt(s: string, i: nat): char
  {
    if i < |s| then s[i] else '\0'
  }

  /** `strncmp(a, b, n) == 0`, compared from position `i`: equal up to
      position `n` or up to a NUL both strings share, whichever comes first. */
  predicate StrnEqual(a: string, b: string, n: nat, i: nat)
    decreases n - i
  {
    i >= n || (CharAt(a, i) == CharAt(b, i) && (CharAt(a, i) == '\0' || StrnEqual(a, b, n, i + 1)))
  }

  /** Against a name `b` without NUL characters, `strncmp(a, b, n)` from
      position `i` succeeds exactly when `a`, read as a C string, agrees with
      `b` on every position below `n` that `b` has, and, when `n` runs past
      the end of `b`, `a` has its NUL where `b` ends. */
  lemma {:induction false} StrnEqualName(a: string, b: string, n: nat, i: nat)
    requires i <= n && i <= |b|
    requires forall k :: 0 <= k < |b| ==> b[k] != '\0'
    ensures StrnEqual(a, b, n, i) <==>
              (forall k :: i <= k < n && k < |b| ==> CharAt(a, k) == b[k]) &&
              (n > |b| ==> CharAt(a, |b|) == '\0')
    decreases n - i
  {
    if i < n && i < |b| {
      StrnEqualName(a, b, n, i + 1);
    }
  }

  /** So a PT_INTERP segment of `filesz` bytes passes the name check exactly
      when, for `filesz` up to the length of the expected name, its bytes are
      the name's first `filesz` characters (an empty segment always passes),
      and, for a longer segment, its first bytes are the whole name followed
      by a NUL, as in the usual NUL-terminated `"__INFOS_DYNAMIC_LINKER__"`
      of 25 bytes. */
  lemma InterpNameCheck(interp: string, filesz: nat)
    requires filesz <= |interp|
    ensures filesz <= |DynamicLinker| ==>
              (StrnEqual(interp, DynamicLinker, filesz, 0) <==> interp[..filesz] == DynamicLinker[..filesz])
    ensures filesz > |DynamicLinker| ==>
              (StrnEqual(interp, DynamicLinker, filesz, 0) <==> interp[..|DynamicLinker| + 1] == DynamicLinker + "\0")
  {
    NameHasNoNul();
    if filesz <= |DynamicLinker| {
      ShortNameCheck(interp, DynamicLinker, filesz);
    } else {
      LongNameCheck(interp, DynamicLinker, filesz);
    }
  }

  /** `strncmp(a, b, n)` with `n` within a NUL-free `b` compares the first
      `n` characters. */
  lemma ShortNameCheck(a: string, b: string, n: nat)
    requires n <= |b| && n <= |a|
    requires forall k :: 0 <= k < |b| ==> b[k] != '\0'
    ensures StrnEqual(a, b, n, 0) <==> a[..n] == b[..n]
  {
    StrnEqualName(a, b, n, 0);
    if forall k :: 0 <= k < n ==> CharAt(a, k) == b[k] {
      assert a[..n] == b[..n];
    }
  }

  /** `strncmp(a, b, n)` with `n` past the end of a NUL-free `b` compares
      `b` and its terminating NUL. */
  lemma LongNameCheck(a: string, b: string, n: nat)
    requires |b| < n <= |a|
    requires forall k :: 0 <= k < |b| ==> b[k] != '\0'
    ensures StrnEqual(a, b, n, 0) <==> a[..|b| + 1] == b + "\0"
  {
    StrnEqualName(a, b, n, 0);
    var m := |b| + 1;
    if a[..m] == b + "\0" {
      forall k | 0 <= k < |b|
        ensures CharAt(a, k) == b[k]
      {
        assert a[..m][k] == (b + "\0")[k];
      }
      assert a[..m][|b|] == (b + "\0")[|b|];
    }
    if (forall k :: 0 <= k < |b| ==> CharAt(a, k) == b[k]) && CharAt(a, |b|) == '\0' {
      assert a[..m] == b + "\0";
    }
  }

  lemma NameHasNoNul()
    ensures forall k :: 0 <= k < |DynamicLinker| ==> DynamicLinker[k] != '\0'
  {
  }

  /** The NUL-terminated name passes, however many bytes the segment is said
      to hold beyond it. */
  lemma TerminatedNamePasses(filesz: nat)
    requires filesz > |DynamicLinker|
    ensures StrnEqual(DynamicLinker + "\0", DynamicLinker, filesz, 0)
  {
    NameHasNoNul();
    StrnEqualName(DynamicLinker + "\0", DynamicLinker, filesz, 0);
  }

  /** A PT_INTERP entry naming another interpreter, which `load` rejects at
      once. */
  predicate RejectedInterp(ent: ProgramHeader)
  {
    ent.ptype == PtInterp && !StrnEqual(ent.interp, DynamicLinker, ent.filesz, 0)
  }

  /** Every entry before `i` was read and was not rejected, so the loop
      reached entry `i`. */
  predicate PassedBefore(h: Header, entries: map<nat, ProgramHeader>, i: nat)
  {
    forall j :: 0 <= j < i ==> Readable(h, entries, j) && !RejectedInterp(EntryAt(h, entries, j))
  }

  /** The plan of a program header: copies that fit for a PT_LOAD segment,
      none for any other. */
  predicate PlannedEntry(ent: ProgramHeader, plan: seq<Copy>)
  {
    if ent.ptype == PtLoad then PlanFits(ent, plan) else plan == []
  }

  /** Every page a PT_LOAD segment overlaps is in `mapped`. */
  predicate SegmentMapped(ent: ProgramHeader, mapped: set<nat>)
  {
    ent.ptype == PtLoad ==> forall a :: ent.vaddr <= a < ent.vaddr + ent.memsz ==> AlignDown(a) in mapped
  }

  /** The user address the command line is copied to. */
  const CmdlineStart: nat := 0x102000

  /** Why `load` returned a process, or NULL. A loaded process is abstracted
      to the pages its segments mapped, per program header the copies
      planned for it (none for a header that is not PT_LOAD), and the entry
      argument of its main thread (the command line's address, or NULL). */
  datatype LoadResult =
    | Loaded(mapped: set<nat>, plans: seq<seq<Copy>>, argument: Option<nat>)
    | BadHeader(failed: Check)
    | UnreadableEntry(index: nat)
    | UnsupportedInterp(index: nat)
    | DynamicLinked
    | CmdlineNotCopied

  /** Program header `i` can be read; `entries` maps each file offset at
      which a whole program header can be read to that header, so a negative
      `off_t` reads nothing. */
  predicate Readable(h: Header, entries: map<nat, ProgramHeader>, i: nat)
  {
    PhEntryOffset(h, i) >= 0 && PhEntryOffset(h, i) in entries
  }

  function EntryAt(h: Header, entries: map<nat, ProgramHeader>, i: nat): ProgramHeader
    requires Readable(h, entries, i)
  {
    entries[PhEntryOffset(h, i)]
  }

  /** Every program header can be read and none is PT_INTERP: the loop
      ends without returning NULL. */
  predicate AllLoadable(h: Header, entries: map<nat, ProgramHeader>)
  {
    forall i :: 0 <= i < h.phnum ==> Readable(h, entries, i) && EntryAt(h, entries, i).ptype != PtInterp
  }

  /** What a loaded process holds, given that every entry can be read: a
      plan per program header, every PT_LOAD segment's pages mapped, and no
      page mapped that no PT_LOAD segment overlaps. */
  predicate LoadedSegments(h: Header, entries: map<nat, ProgramHeader>, mapped: set<nat>, plans: seq<seq<Copy>>)
    requires AllLoadable(h, entries)
  {
    && |plans| == h.phnum
    && (forall i :: 0 <= i < h.phnum ==> PlannedEntry(EntryAt(h, entries, i), plans[i]))
    && (forall i :: 0 <= i < h.phnum ==> SegmentMapped(EntryAt(h, entries, i), mapped))
    && (forall p :: p in mapped ==> exists i :: 0 <= i < h.phnum && EntryAt(h, entries, i).ptype == PtLoad && Overlaps(EntryAt(h, entries, i), p))
  }

  /** `ElfLoader::load` on a file whose header read returned `bytes` bytes
      holding `h`. It rejects a bad header with its first failing check; then
      the first program header that cannot be read or is a PT_INTERP naming
      another interpreter; then, after the loop, any PT_INTERP at all; then a
      non-empty command line whose copy into the new address space failed
      (`cmdlineCopied` is the outcome of that `copy_to`). Otherwise every
      PT_LOAD segment has been mapped and planned. */
  method Load(bytes: int, h: Header, entries: map<nat, ProgramHeader>, cmdline: string, cmdlineCopied: bool)
    returns (r: LoadResult)
    ensures CheckHeader(bytes, h).Some? <==> r.BadHeader?
    ensures r.BadHeader? ==> r.failed == CheckHeader(bytes, h).value
    ensures r.UnreadableEntry? ==> r.index < h.phnum && PassedBefore(h, entries, r.index) && !Readable(h, entries, r.index)
    ensures r.UnsupportedInterp? ==>
              r.index < h.phnum && PassedBefore(h, entries, r.index) && Readable(h, entries, r.index) &&
              RejectedInterp(EntryAt(h, entries, r.index))
    ensures r.DynamicLinked? ==> PassedBefore(h, entries, h.phnum)
    ensures r.DynamicLinked? ==> exists i :: 0 <= i < h.phnum && Readable(h, entries, i) && EntryAt(h, entries, i).ptype == PtInterp
    ensures r.CmdlineNotCopied? <==> CheckHeader(bytes, h) == None && AllLoadable(h, entries) && |cmdline| > 0 && !cmdlineCopied
    ensures r.Loaded? <==> CheckHeader(bytes, h) == None && AllLoadable(h, entries) && (|cmdline| == 0 || cmdlineCopied)
    ensures r.Loaded? ==> AllLoadable(h, entries) && LoadedSegments(h, entries, r.mapped, r.plans)
    ensures r.Loaded? ==> r.argument == if |cmdline| > 0 then Some(CmdlineStart) else None
  {
    var failed := CheckHeader(bytes, h);
    if failed.Some? {
      return BadHeader(failed.value);
    }
    r := LoadEntries(h, entries);
    if r.Loaded? && |cmdline| > 0 {
      if !cmdlineCopied {
        return CmdlineNotCopied;
      }
      r := r.(argument := Some(CmdlineStart));
    }
  }

  /** The program header loop of `load` and the PT_INTERP test after it,
      ending in a process without an entry argument yet. */
  method LoadEntries(h: Header, entries: map<nat, ProgramHeader>) returns (r: LoadResult)
    ensures !r.BadHeader? && !r.CmdlineNotCopied?
    ensures r.UnreadableEntry? ==> r.index < h.phnum && PassedBefore(h, entries, r.index) && !Readable(h, entries, r.index)
    ensures r.UnsupportedInterp? ==>
              r.index < h.phnum && PassedBefore(h, entries, r.index) && Readable(h, entries, r.index) &&
              RejectedInterp(EntryAt(h, entries, r.index))
    ensures r.DynamicLinked? ==> PassedBefore(h, entries, h.phnum)
    ensures r.DynamicLinked? ==> exists i :: 0 <= i < h.phnum && Readable(h, entries, i) && EntryAt(h, entries, i).ptype == PtInterp
    ensures r.Loaded? <==> AllLoadable(h, entries)
    ensures r.Loaded? ==> LoadedSegments(h, entries, r.mapped, r.plans) && r.argument == None
  {
    var useInterp := false;
    ghost var interpAt := 0;
    var mapped: set<nat> := {};
    ghost var owner: map<nat, nat> := map[];
    var plans: seq<seq<Copy>> := [];
    var i := 0;
    while i < h.phnum
      invariant i <= h.phnum && |plans| == i
      invariant PassedBefore(h, entries, i)
      invariant !useInterp ==> forall j :: 0 <= j < i ==> EntryAt(h, entries, j).ptype != PtInterp
      invariant useInterp ==> interpAt < i && EntryAt(h, entries, interpAt).ptype == PtInterp
      invariant LoadedUpTo(h, entries, i, mapped, owner, plans)
    {
      var off := PhEntryOffset(h, i);
      if off < 0 || off !in entries {
        return UnreadableEntry(i);
      }
      var ent := entries[off];
      var copies: seq<Copy> := [];
      ghost var before := mapped;
      if ent.ptype == PtLoad {
        copies, mapped := LoadSegment(ent, mapped);
      } else if ent.ptype == PtInterp {
        if RejectedInterp(ent) {
          return UnsupportedInterp(i);
        }
        useInterp, interpAt := true, i;
      }
      LoadedStep(h, entries, i, before, mapped, owner, plans, copies);
      owner := owner + map p | p in mapped && p !in before :: i;
      plans := plans + [copies];
      i := i + 1;
    }
    if useInterp {
      return DynamicLinked;
    }
    LoadedAll(h, entries, mapped, owner, plans);
    return Loaded(mapped, plans, None);
  }

  /** The state of `load` after its first `i` program headers: a plan for
      each, each PT_LOAD segment among them mapped, and every mapped page
      owned by one of them that it overlaps. */
  ghost predicate LoadedUpTo(h: Header, entries: map<nat, ProgramHeader>, i: nat, mapped: set<nat>,
                             owner: map<nat, nat>, plans: seq<seq<Copy>>)
  {
    && PassedBefore(h, entries, i)
    && |plans| == i
    && (forall j :: 0 <= j < i ==> PlannedEntry(EntryAt(h, entries, j), plans[j]))
    && (forall j :: 0 <= j < i ==> SegmentMapped(EntryAt(h, entries, j), mapped))
    && (forall p :: p in mapped ==>
          p in owner && owner[p] < i && EntryAt(h, entries, owner[p]).ptype == PtLoad &&
          Overlaps(EntryAt(h, entries, owner[p]), p))
  }

  /** Handling program header `i` (mapping its pages when it is PT_LOAD,
      nothing otherwise) extends that state by one. */
  lemma LoadedStep(h: Header, entries: map<nat, ProgramHeader>, i: nat, mapped: set<nat>, mapped': set<nat>,
                   owner: map<nat, nat>, plans: seq<seq<Copy>>, copies: seq<Copy>)
    requires LoadedUpTo(h, entries, i, mapped, owner, plans)
    requires Readable(h, entries, i) && !RejectedInterp(EntryAt(h, entries, i))
    requires PlannedEntry(EntryAt(h, entries, i), copies) && SegmentMapped(EntryAt(h, entries, i), mapped')
    requires mapped <= mapped'
    requires forall p :: p in mapped' ==> p in mapped || (EntryAt(h, entries, i).ptype == PtLoad && Overlaps(EntryAt(h, entries, i), p))
    ensures LoadedUpTo(h, entries, i + 1, mapped', owner + map p | p in mapped' && p !in mapped :: i, plans + [copies])
  {
  }

  /** After the last program header, with no PT_INTERP among them, the
      state is that of a loaded process. */
  lemma LoadedAll(h: Header, entries: map<nat, ProgramHeader>, mapped: set<nat>, owner: map<nat, nat>, plans: seq<seq<Copy>>)
    requires LoadedUpTo(h, entries, h.phnum, mapped, owner, plans)
    requires forall j :: 0 <= j < h.phnum ==> EntryAt(h, entries, j).ptype != PtInterp
    ensures AllLoadable(h, entries) && LoadedSegments(h, entries, mapped, plans)
  {
    forall p | p in mapped
      ensures exists j :: 0 <= j < h.phnum && EntryAt(h, entries, j).ptype == PtLoad && Overlaps(EntryAt(h, entries, j), p)
    {
      assert Overlaps(EntryAt(h, entries, owner[p]), p);
    }
  }
}
