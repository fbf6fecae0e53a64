/**
 * The memory image and its two kinds of tables: the page-table
 * directory in frame 0 and the per-process page tables, together with
 * virtual-to-physical translation and the byte store and load built on it.
 * Everything here reads or rewrites a snapshot `m` of all MEM_SIZE bytes.
 */
module PageTables {
  import opened Config
  import opened Addressing
  import opened FrameAllocator

  /** Where an allocation ran out of frames. */
  datatype OomContext = PageTableFrame | DataPage(page: nat)

  datatype Error =
    | OutOfMemory(proc: int, context: OomContext)
    | InvalidProcess(proc: int)
    | NoPageTable(proc: int)
    | UnmappedPage(proc: int, vpage: int)
    | AddressOutOfRange(proc: int, vaddr: int)

  datatype Result<T> = Ok(value: T) | Err(error: Error)

  /** The memory after an operation and what the operation reported. */
  datatype Step<T> = Step(mem: seq<Byte>, result: Result<T>)

  /**
   * The invariant every operation keeps: frame 0 is marked used, free-map
   * bytes are 0 or 1, and every directory byte is a frame number.
   */
  predicate Wf(m: seq<Byte>)
  {
    && |m| == MEM_SIZE
    && m[0] == 1
    && (forall a :: 0 <= a < PAGE_COUNT ==> m[a] <= 1)
    && (forall a :: PTP_OFFSET <= a < PAGE_SIZE ==> m[a] < PAGE_COUNT)
  }

  /** The memory after `initialize_mem`: all zero except frame 0's free-map byte. */
  function InitialMemory(): (r: seq<Byte>)
    ensures |r| == MEM_SIZE && r[0] == 1
    ensures forall a :: 0 < a < MEM_SIZE ==> r[a] == 0
  {
    seq(MEM_SIZE, a => if a == GetAddress(0, 0) then 1 else 0)
  }

  predicate ValidProcess(proc: int)
  {
    0 <= proc < DIRECTORY_CAPACITY
  }

  /** The directory slot of `proc`: `get_address(0, PTP_OFFSET + proc)`. */
  function DirectoryAddress(proc: int): (a: nat)
    requires ValidProcess(proc)
    ensures PTP_OFFSET <= a < PAGE_SIZE && a == PTP_OFFSET + proc
  {
    GetAddress(0, PTP_OFFSET + proc)
  }

  /** `get_page_table`: the frame holding `proc`'s page table, 0 when it has none. */
  function PageTableOf(m: seq<Byte>, proc: int): (pt: Byte)
    requires Wf(m) && ValidProcess(proc)
    ensures pt < PAGE_COUNT
  {
    m[DirectoryAddress(proc)]
  }

  /** Entry k of the page table in frame `pt`: `mem[get_address(pt, k)]`. */
  function TableEntry(m: seq<Byte>, pt: nat, k: nat): Byte
    requires |m| == MEM_SIZE && pt < PAGE_COUNT && k < PAGE_SIZE
  {
    m[GetAddress(pt, k)]
  }

  /**
   * The byte `vaddr_to_paddr` reads as the entry lies inside memory. The
   * table frame may be 0 (a process with no table) and the virtual page
   * may lie past entry 63 of the table.
   */
  predicate EntryReadable(m: seq<Byte>, proc: int, vaddr: int)
    requires Wf(m)
  {
    && ValidProcess(proc)
    && vaddr >= 0
    && GetAddress(PageTableOf(m, proc), PageOf(vaddr)) < MEM_SIZE
  }

  /**
   * The page-table read is a real entry: the process has a table
   * and the virtual page is one of its PAGE_COUNT entries.
   */
  predicate Resolvable(m: seq<Byte>, proc: int, vaddr: int)
    requires Wf(m)
  {
    && EntryReadable(m, proc, vaddr)
    && PageTableOf(m, proc) != 0
    && PageOf(vaddr) < PAGE_COUNT
  }

  /** The byte `vaddr_to_paddr` reads as the page-table entry for `vaddr`. */
  function EntryFor(m: seq<Byte>, proc: int, vaddr: int): (e: Byte)
    requires Wf(m) && EntryReadable(m, proc, vaddr)
    ensures PageTableOf(m, proc) == 0 ==> e == m[PageOf(vaddr)]
    ensures PageTableOf(m, proc) != 0 && PageOf(vaddr) < PAGE_COUNT ==>
              e == TableEntry(m, PageTableOf(m, proc), PageOf(vaddr))
  {
    m[GetAddress(PageTableOf(m, proc), PageOf(vaddr))]
  }

  /**
   * `vaddr_to_paddr` exactly as the source computes it: the entry, shifted,
   * OR-ed with the offset, with no check that the entry is mapped.
   */
  function TranslateAsWritten(m: seq<Byte>, proc: int, vaddr: int): (paddr: nat)
    requires Wf(m) && EntryReadable(m, proc, vaddr)
    ensures PageOf(paddr) == EntryFor(m, proc, vaddr) && OffsetOf(paddr) == OffsetOf(vaddr)
  {
    AddressSplit(EntryFor(m, proc, vaddr), OffsetOf(vaddr));
    GetAddress(EntryFor(m, proc, vaddr), OffsetOf(vaddr))
  }

  /**
   * `store_value` exactly as written: the low byte of `value` at the
   * as-written address, when that address lies inside memory.
   */
  function StoreAsWritten(m: seq<Byte>, proc: int, vaddr: int, value: int): (r: seq<Byte>)
    requires Wf(m) && EntryReadable(m, proc, vaddr) && TranslateAsWritten(m, proc, vaddr) < MEM_SIZE
    ensures |r| == MEM_SIZE && r[TranslateAsWritten(m, proc, vaddr)] == value % 256
    ensures forall a :: 0 <= a < MEM_SIZE && a != TranslateAsWritten(m, proc, vaddr) ==> r[a] == m[a]
  {
    m[TranslateAsWritten(m, proc, vaddr) := value % 256]
  }

  /**
   * Virtual-to-physical translation with every hazard of `vaddr_to_paddr`
   * surfaced as an error: an id outside the directory, a process with no
   * page table, a virtual page outside the table's PAGE_COUNT entries, an
   * unmapped (zero) entry and a resulting address outside memory.
   */
  function Translate(m: seq<Byte>, proc: int, vaddr: int): (r: Result<nat>)
    requires Wf(m)
    ensures r.Ok? <==> Resolvable(m, proc, vaddr) && 0 < EntryFor(m, proc, vaddr) < PAGE_COUNT
    ensures r.Ok? ==> PAGE_SIZE <= r.value < MEM_SIZE
    ensures r.Ok? ==> PageOf(r.value) == EntryFor(m, proc, vaddr) && OffsetOf(r.value) == OffsetOf(vaddr)
    ensures r == Err(UnmappedPage(proc, PageOf(vaddr))) <==> Resolvable(m, proc, vaddr) && EntryFor(m, proc, vaddr) == 0
    ensures !ValidProcess(proc) ==> r == Err(InvalidProcess(proc))
    ensures ValidProcess(proc) && PageTableOf(m, proc) == 0 ==> r == Err(NoPageTable(proc))
    ensures ValidProcess(proc) && PageTableOf(m, proc) != 0 && !(0 <= vaddr < PAGE_COUNT * 256) ==>
              r == Err(AddressOutOfRange(proc, vaddr))
  {
    if !ValidProcess(proc) then Err(InvalidProcess(proc))
    else
      var pt := PageTableOf(m, proc);
      if pt == 0 then Err(NoPageTable(proc))
      else if vaddr < 0 || PageOf(vaddr) >= PAGE_COUNT then Err(AddressOutOfRange(proc, vaddr))
      else
        var entry := m[GetAddress(pt, PageOf(vaddr))];
        if entry == 0 then Err(UnmappedPage(proc, PageOf(vaddr)))
        else
          var paddr := GetAddress(entry, OffsetOf(vaddr));
          AddressSplit(entry, OffsetOf(vaddr));
          if paddr >= MEM_SIZE then Err(AddressOutOfRange(proc, vaddr))
          else Ok(paddr)
  }

  /**
   * `store_value`: write `value` (truncated to a byte) at the translated
   * address; on a translation error nothing changes.
   */
  function Store(m: seq<Byte>, proc: int, vaddr: int, value: int): (r: Step<nat>)
    requires Wf(m)
    ensures Wf(r.mem)
    ensures r.result.Err? ==> r.mem == m && r.result == Translate(m, proc, vaddr)
    ensures r.result.Ok? ==> r.result == Translate(m, proc, vaddr)
    ensures r.result.Ok? ==> r.mem[r.result.value] == value % 256
    ensures r.result.Ok? ==> forall a :: 0 <= a < MEM_SIZE && a != r.result.value ==> r.mem[a] == m[a]
  {
    match Translate(m, proc, vaddr)
    case Err(e) => Step(m, Err(e))
    case Ok(paddr) => Step(m[paddr := value % 256], Ok(paddr))
  }

  /** `get_value`: the translated address and the byte stored there. */
  function Load(m: seq<Byte>, proc: int, vaddr: int): (r: Result<(nat, Byte)>)
    requires Wf(m)
    ensures r.Ok? <==> Translate(m, proc, vaddr).Ok?
    ensures r.Ok? ==> r.value.0 == Translate(m, proc, vaddr).value && r.value.1 == m[r.value.0]
  {
    match Translate(m, proc, vaddr)
    case Err(e) => Err(e)
    case Ok(paddr) => Ok((paddr, m[paddr]))
  }

  /**
   * Translation through a mapped entry: when entry v of the process's
   * table names frame f, every address in virtual page v lands in frame f
   * at the same offset.
   */
  lemma TranslateThroughEntry(m: seq<Byte>, proc: int, vaddr: int, frame: nat)
    requires Wf(m) && ValidProcess(proc) && PageTableOf(m, proc) != 0
    requires 0 <= vaddr < PAGE_COUNT * 256 && 1 <= frame < PAGE_COUNT
    requires TableEntry(m, PageTableOf(m, proc), PageOf(vaddr)) == frame
    ensures Translate(m, proc, vaddr) == Ok(frame * 256 + OffsetOf(vaddr))
  {
    var pt := PageTableOf(m, proc);
    assert GetAddress(pt, PageOf(vaddr)) == pt * 256 + PageOf(vaddr);
  }

  /**
   * A load after a store through the same virtual address returns the
   * stored byte, unless the store overwrote the very table entry the
   * translation reads (possible only through a stale entry).
   */
  lemma StoreThenLoad(m: seq<Byte>, proc: int, vaddr: int, value: int)
    requires Wf(m) && Translate(m, proc, vaddr).Ok?
    requires Translate(m, proc, vaddr).value != GetAddress(PageTableOf(m, proc), PageOf(vaddr))
    ensures Load(Store(m, proc, vaddr, value).mem, proc, vaddr)
            == Ok((Translate(m, proc, vaddr).value, value % 256))
  {
    var pa := Translate(m, proc, vaddr).value;
    var m' := Store(m, proc, vaddr, value).mem;
    assert PageTableOf(m', proc) == PageTableOf(m, proc);
    assert Translate(m', proc, vaddr) == Translate(m, proc, vaddr);
  }
}
