/**
 * The simulator as the source runs it: one array of MEM_SIZE bytes updated
 * in place by each routine. Every method is proved against the function of
 * the same routine in `PageTables` or `Lifecycle`, so the properties proved
 * there hold of the array.
 */
module Simulator {
  import opened Config
  import opened Addressing
  import opened FrameAllocator
  import opened PageTables
  import opened Lifecycle
  import opened Ownership

  /** The simulated RAM. */
  class Memory {
    var mem: array<Byte>

    /** The RAM has its full size and keeps the ownership invariant `Consistent`, which includes `Wf`. */
    ghost predicate Valid()
      reads this, mem
    {
      mem.Length == MEM_SIZE && Consistent(mem[..])
    }

    /** A fresh RAM, set up by `initialize_mem`. */
    constructor()
      ensures Valid() && fresh(mem)
      ensures mem[..] == InitialMemory()
    {
      mem := new Byte[MEM_SIZE];
      new;
      InitializeMem();
      InitialConsistent();
    }

    /** `initialize_mem`: clear every byte, then mark frame 0 used. */
    method InitializeMem()
      requires mem.Length == MEM_SIZE
      modifies mem
      ensures mem[..] == InitialMemory()
    {
      var i := 0;
      while i < MEM_SIZE
        invariant 0 <= i <= MEM_SIZE
        invariant forall a :: 0 <= a < i ==> mem[a] == 0
      {
        mem[i] := 0;
        i := i + 1;
      }
      mem[GetAddress(0, 0)] := 1;
      assert mem[..] == InitialMemory();
    }

    /** `get_page_table`: the directory byte of `proc`. */
    method GetPageTable(proc: int) returns (pt: Byte)
      requires Valid() && ValidProcess(proc)
      ensures pt == PageTableOf(mem[..], proc) && pt < PAGE_COUNT
    {
      pt := mem[GetAddress(0, PTP_OFFSET + proc)];
    }

    /**
     * `setup_page_table`, which is also the scan `find_free_pages` repeats
     * for every data page: claim the lowest free frame, or report 0 and
     * change nothing when every frame is in use.
     */
    method SetupPageTable() returns (page: nat)
      requires mem.Length == MEM_SIZE
      modifies mem
      ensures page == LowestFree(old(mem[..]))
      ensures mem[..] == if page == 0 then old(mem[..]) else old(mem[..])[page := 1]
    {
      LowestFreeIsFirstFit(mem[..]);
      var i := 1;
      while i < PAGE_COUNT
        invariant 1 <= i <= PAGE_COUNT
        invariant forall j :: 1 <= j < i ==> mem[j] != 0
        invariant mem[..] == old(mem[..])
      {
        if mem[i] == 0 {
          mem[i] := 1;
          return i;
        }
        i := i + 1;
      }
      return 0;
    }

    /**
     * `find_free_pages`: for each page i below `count`, claim the lowest
     * free frame and store it in entry i of the table in frame pt; when
     * none is left, stop with out of memory at page i.
     */
    method FindFreePages(proc: int, count: int, pt: nat) returns (r: Result<()>)
      requires mem.Length == MEM_SIZE && 1 <= pt < PAGE_COUNT
      modifies mem
      ensures Step(mem[..], r) == FillTable(old(mem[..]), proc, pt, count)
    {
      ghost var m0 := mem[..];
      var i := 0;
      while i < count
        invariant 0 <= i <= Pages(count) && i <= FreeFrameCount(m0)
        invariant mem[..] == Allocated(m0, pt, i)
      {
        LowestFreeAllocated(m0, pt, i);
        ghost var before := mem[..];
        var page := SetupPageTable();
        if page == 0 {
          FillTableStops(m0, proc, pt, count, i);
          return Err(OutOfMemory(proc, DataPage(i)));
        }
        assert page == FreeFrames(m0)[i];
        var entry := GetAddress(pt, i);
        assert entry == pt * 256 + i;
        mem[entry] := page;
        assert mem[..] == Round(before, pt, i, page);
        assert Allocated(m0, pt, i + 1) == Round(before, pt, i, page);
        i := i + 1;
      }
      FillTableStops(m0, proc, pt, count, i);
      return Ok(());
    }

    /**
     * `new_process`: a page-table frame, then the data frames, then the
     * directory slot. Out of memory stops where it happens. On success the
     * entries past the data pages are cleared, which the source omits.
     */
    method NewProcess(proc: int, count: int) returns (r: Result<()>)
      requires Valid()
      modifies mem
      ensures Valid()
      ensures Step(mem[..], r) == NewProcessCleared(old(mem[..]), proc, count)
    {
      ghost var m0 := mem[..];
      ghost var outcome := Lifecycle.NewProcess(m0, proc, count);
      CreateKeepsConsistent(m0, proc, count);
      if !ValidProcess(proc) {
        return Err(InvalidProcess(proc));
      }
      var pt := SetupPageTable();
      if pt == 0 {
        return Err(OutOfMemory(proc, PageTableFrame));
      }
      ghost var fill := FillTable(m0[pt := 1], proc, pt, count);
      assert outcome == if fill.result.Err? then fill else Step(fill.mem[DirectoryAddress(proc) := pt], Ok(()));
      r := FindFreePages(proc, count, pt);
      if r.Err? {
        return;
      }
      mem[GetAddress(0, PTP_OFFSET + proc)] := pt;
      var pages := if count < 0 then 0 else count;
      assert pages == Pages(count) <= FreeFrameCount(m0[pt := 1]);
      ClearEntriesFrom(pt, pages);
    }

    /** The correction to `new_process`: clear entries `from`..63 of the table in frame pt. */
    method ClearEntriesFrom(pt: nat, from: nat)
      requires mem.Length == MEM_SIZE && 1 <= pt < PAGE_COUNT && from <= PAGE_COUNT
      modifies mem
      ensures mem[..] == ClearEntries(old(mem[..]), pt, from)
    {
      ghost var m0 := mem[..];
      var k := from;
      while k < PAGE_COUNT
        invariant from <= k <= PAGE_COUNT
        invariant forall a :: 0 <= a < MEM_SIZE ==> mem[a] == if pt * 256 + from <= a < pt * 256 + k then 0 else m0[a]
      {
        mem[GetAddress(pt, k)] := 0;
        k := k + 1;
      }
      assert mem[..] == ClearEntries(m0, pt, from);
    }

    /** `free_process_pages`: clear the byte named by each nonzero entry of the table in frame pt. */
    method FreeProcessPages(pt: nat)
      requires mem.Length == MEM_SIZE && pt < PAGE_COUNT
      modifies mem
      ensures mem[..] == ReleaseEntries(old(mem[..]), pt, PAGE_COUNT)
    {
      ghost var m0 := mem[..];
      var i := 0;
      while i < PAGE_COUNT
        invariant 0 <= i <= PAGE_COUNT
        invariant mem[..] == ReleaseEntries(m0, pt, i)
      {
        var addr := GetAddress(pt, i);
        var page := mem[addr];
        if page != 0 {
          mem[page] := 0;
        }
        i := i + 1;
      }
    }

    /** `free_process_page_table`: mark frame pt free and empty the directory slot of `proc`. */
    method FreeProcessPageTable(proc: int, pt: nat)
      requires mem.Length == MEM_SIZE && ValidProcess(proc) && pt < PAGE_COUNT
      modifies mem
      ensures mem[..] == old(mem[..])[pt := 0][DirectoryAddress(proc) := 0]
    {
      mem[pt] := 0;
      mem[GetAddress(0, PTP_OFFSET + proc)] := 0;
    }

    /** `kill_process`, refusing an id outside the directory and a process with no page table. */
    method KillProcess(proc: int) returns (r: Result<()>)
      requires Valid()
      modifies mem
      ensures Valid()
      ensures Step(mem[..], r) == Kill(old(mem[..]), proc)
    {
      if !ValidProcess(proc) {
        return Err(InvalidProcess(proc));
      }
      var pt := GetPageTable(proc);
      if pt == 0 {
        return Err(NoPageTable(proc));
      }
      ghost var m0 := mem[..];
      assert Kill(m0, proc) == Step(Teardown(m0, proc, pt), Ok(()));
      KillKeepsConsistent(m0, proc);
      FreeProcessPages(pt);
      FreeProcessPageTable(proc, pt);
      r := Ok(());
    }

    /** `vaddr_to_paddr`, with each hazard reported as an error. */
    method VaddrToPaddr(proc: int, vaddr: int) returns (r: Result<nat>)
      requires Valid()
      ensures r == Translate(mem[..], proc, vaddr)
    {
      if !ValidProcess(proc) {
        return Err(InvalidProcess(proc));
      }
      var pt := GetPageTable(proc);
      if pt == 0 {
        return Err(NoPageTable(proc));
      }
      var vpage := vaddr / 256;
      var offset := vaddr % 256;
      if vaddr < 0 || vpage >= PAGE_COUNT {
        return Err(AddressOutOfRange(proc, vaddr));
      }
      var entry := mem[GetAddress(pt, vpage)];
      if entry == 0 {
        return Err(UnmappedPage(proc, vpage));
      }
      var paddr := GetAddress(entry, offset);
      if paddr >= MEM_SIZE {
        return Err(AddressOutOfRange(proc, vaddr));
      }
      return Ok(paddr);
    }

    /** `store_value`: write the low byte of `value` at the translated address. */
    method StoreValue(proc: int, vaddr: int, value: int) returns (r: Result<nat>)
      requires Valid()
      modifies mem
      ensures Valid()
      ensures Step(mem[..], r) == Store(old(mem[..]), proc, vaddr, value)
    {
      StoreKeepsConsistent(mem[..], proc, vaddr, value);
      r := VaddrToPaddr(proc, vaddr);
      if r.Ok? {
        mem[r.value] := value % 256;
      }
    }

    /** `get_value`: the translated address and the byte found there. */
    method GetValue(proc: int, vaddr: int) returns (r: Result<(nat, Byte)>)
      requires Valid()
      ensures r == Load(mem[..], proc, vaddr)
    {
      var pa := VaddrToPaddr(proc, vaddr);
      match pa
      case Err(e) => r := Err(e);
      case Ok(paddr) => r := Ok((paddr, mem[paddr]));
    }
  }
}
