/**
 * Hazards of the simulator as written, each shown on the as-written
 * member and set against the corrected member the rest of the model uses.
 */
module Findings {
  import opened Config
  import opened Addressing
  import opened FrameAllocator
  import opened PageTables
  import opened Lifecycle
  import opened Properties
  import opened Ownership

  /**
   * `vaddr_to_paddr` on an unmapped page: the zero entry makes the
   * as-written address fall in frame 0, the free map and the directory,
   * at the page offset; the corrected translation reports the page as
   * unmapped instead.
   */
  lemma UnmappedTranslatesIntoFrameZero(m: seq<Byte>, proc: int, vaddr: int)
    requires Wf(m) && Resolvable(m, proc, vaddr) && EntryFor(m, proc, vaddr) == 0
    ensures EntryReadable(m, proc, vaddr)
    ensures TranslateAsWritten(m, proc, vaddr) == OffsetOf(vaddr)
    ensures PageOf(TranslateAsWritten(m, proc, vaddr)) == 0
    ensures Translate(m, proc, vaddr) == Err(UnmappedPage(proc, PageOf(vaddr)))
  {
  }

  /** Where the corrected translation succeeds it agrees with the source's arithmetic. */
  lemma TranslateRefinesAsWritten(m: seq<Byte>, proc: int, vaddr: int)
    requires Wf(m) && Translate(m, proc, vaddr).Ok?
    ensures Resolvable(m, proc, vaddr)
    ensures Translate(m, proc, vaddr).value == TranslateAsWritten(m, proc, vaddr)
  {
  }

  /**
   * The concrete case: from a fresh memory, create process 0 with one data
   * page; its virtual address 320 (page 1, offset 64) is unmapped, and the
   * source turns it into physical address 64, process 0's own directory
   * slot, so a store there overwrites the process's own table reference.
   */
  lemma StoreToUnmappedPageHitsDirectory()
    ensures var m := NewProcess(InitialMemory(), 0, 1).mem;
            && Resolvable(m, 0, 320)
            && EntryFor(m, 0, 320) == 0
            && TranslateAsWritten(m, 0, 320) == DirectoryAddress(0)
            && StoreAsWritten(m, 0, 320, 9)[DirectoryAddress(0)] == 9
            && Translate(m, 0, 320) == Err(UnmappedPage(0, 1))
  {
    var m0 := InitialMemory();
    InitialState();
    NewProcessOutcome(m0, 0, 1);
    NewProcessTable(m0, 0, 1);
    NewProcessKeepsLaterEntries(m0, 0, 1);
    var m := NewProcess(m0, 0, 1).mem;
    assert PageTableOf(m, 0) == 1;
    assert GetAddress(1, 1) == 257;
    assert TableEntry(m0, 1, 1) == 0;
    assert EntryFor(m, 0, 320) == 0;
    UnmappedTranslatesIntoFrameZero(m, 0, 320);
  }

  /**
   * `kill_process` on a process with no page table walks frame 0 as if it
   * were the table: entry 0 is the used mark of frame 0, so frame 1 is
   * marked free even while in use, and frame 0 itself is then marked free,
   * breaking the invariant. The next allocation hands out frame 1 again.
   * The corrected `Kill` reports the missing table and changes nothing.
   */
  lemma KillWithoutTableFreesFrameZero(m: seq<Byte>, proc: int)
    requires Wf(m) && ValidProcess(proc) && PageTableOf(m, proc) == 0
    ensures var r := KillAsWritten(m, proc);
            && r[0] == 0
            && r[1] == 0
            && !Wf(r)
            && LowestFree(r) == 1
    ensures Kill(m, proc) == Step(m, Err(NoPageTable(proc)))
  {
    assert GetAddress(0, 0) == 0;
    assert ReleaseEntries(m, 0, 1)[1] == 0;
    ReleaseEntriesKeepsClear(m, 0, 1, PAGE_COUNT, 1);
  }

  /**
   * `vaddr_to_paddr` for a process with no page table reads frame 0 as its
   * table: the entry for virtual page v is the free-map byte of frame v,
   * so the address lands in frame 0 or frame 1. The corrected translation
   * reports the missing table.
   */
  lemma NoTableReadsFreeMap(m: seq<Byte>, proc: int, vaddr: int)
    requires Wf(m) && ValidProcess(proc) && PageTableOf(m, proc) == 0 && 0 <= vaddr < PAGE_COUNT * 256
    ensures EntryReadable(m, proc, vaddr) && EntryFor(m, proc, vaddr) == m[PageOf(vaddr)]
    ensures TranslateAsWritten(m, proc, vaddr) == m[PageOf(vaddr)] * 256 + OffsetOf(vaddr)
    ensures PageOf(TranslateAsWritten(m, proc, vaddr)) <= 1
    ensures Translate(m, proc, vaddr) == Err(NoPageTable(proc))
  {
    assert GetAddress(0, PageOf(vaddr)) == PageOf(vaddr);
  }

  /**
   * The concrete case: after `np 0 1`, process 5 has no table, and its
   * virtual address 0 becomes physical address 256, entry 0 of process 0's
   * table, because frame 0 is marked used. A store of 7 there remaps
   * process 0's page 0 from frame 2 to frame 7.
   */
  lemma StoreWithoutTableHitsAnotherTable()
    ensures var m := NewProcess(InitialMemory(), 0, 1).mem;
            && EntryReadable(m, 5, 0)
            && PageTableOf(m, 0) == 1
            && TranslateAsWritten(m, 5, 0) == GetAddress(PageTableOf(m, 0), 0)
            && TableEntry(m, 1, 0) == 2
            && TableEntry(StoreAsWritten(m, 5, 0, 7), 1, 0) == 7
            && Translate(m, 5, 0) == Err(NoPageTable(5))
  {
    var m0 := InitialMemory();
    InitialState();
    NewProcessOutcome(m0, 0, 1);
    NewProcessTable(m0, 0, 1);
    NewProcessChanges(m0, 0, 1);
    var m := NewProcess(m0, 0, 1).mem;
    assert m[DirectoryAddress(5)] == m0[DirectoryAddress(5)];
    NoTableReadsFreeMap(m, 5, 0);
    assert GetAddress(1, 0) == 256;
  }

  /**
   * The memory the stale-entry case starts from: from a fresh memory,
   * process 0 was created with one data page (table frame 1, data frame
   * 2) and killed. The free map is fresh again and no process is live,
   * but frame 1 still holds entry 0 = 2.
   */
  lemma CreateKillLeavesEntry()
    ensures var m2 := Kill(NewProcess(InitialMemory(), 0, 1).mem, 0).mem;
            && (forall a :: 0 <= a < PAGE_COUNT ==> m2[a] == InitialMemory()[a])
            && FreeFrames(m2) == FreeFrames(InitialMemory())
            && (forall p :: ValidProcess(p) ==> PageTableOf(m2, p) == 0)
            && m2[256] == 2
            && (forall a :: 257 <= a < 256 + PAGE_COUNT ==> m2[a] == 0)
            && m2[512] == 0
  {
    var m1 := NewProcess(InitialMemory(), 0, 1).mem;
    FirstCreate();
    KilledFirst();
    KillKeepsHigherFrames(m1, 0);
  }

  /** The memory after creating process 0 with one data page: its table is frame 1 and entry 0 names frame 2. */
  lemma FirstCreate()
    ensures var m1 := NewProcess(InitialMemory(), 0, 1).mem;
            && Wf(m1)
            && PageTableOf(m1, 0) == 1
            && m1[256] == 2
            && (forall a :: 257 <= a < 256 + PAGE_COUNT ==> m1[a] == 0)
            && m1[512] == 0
  {
    var m0 := InitialMemory();
    InitialState();
    NewProcessOutcome(m0, 0, 1);
    NewProcessTable(m0, 0, 1);
    NewProcessChanges(m0, 0, 1);
    NewProcessKeepsLaterEntries(m0, 0, 1);
    var m1 := NewProcess(m0, 0, 1).mem;
    assert GetAddress(1, 0) == 256;
    forall a | 257 <= a < 256 + PAGE_COUNT
      ensures m1[a] == 0
    {
      assert GetAddress(1, a - 256) == a;
      assert TableEntry(m1, 1, a - 256) == TableEntry(m0, 1, a - 256);
    }
    assert m1[512] == m0[512];
  }

  /** Killing that process gives back the free map and the empty directory of a fresh memory. */
  lemma KilledFirst()
    ensures var m0 := InitialMemory();
            var k := Kill(NewProcess(m0, 0, 1).mem, 0);
            && k.result == Ok(())
            && (forall a :: 0 <= a < PAGE_COUNT ==> k.mem[a] == m0[a])
            && FreeFrames(k.mem) == FreeFrames(m0)
            && (forall p :: ValidProcess(p) ==> PageTableOf(k.mem, p) == 0)
  {
    var m0 := InitialMemory();
    InitialState();
    NewProcessOutcome(m0, 0, 1);
    forall j | 1 <= j < PAGE_COUNT
      ensures TableEntry(m0, 1, j) == 0
    {
      assert GetAddress(1, j) == 256 + j;
    }
    CreateThenKillRestoresFreeMap(m0, 0, 1);
  }

  /** A kill changes only the free map and the directory, both in frame 0. */
  lemma KillKeepsHigherFrames(m: seq<Byte>, proc: int)
    requires Wf(m)
    ensures forall a :: PAGE_SIZE <= a < MEM_SIZE ==> Kill(m, proc).mem[a] == m[a]
  {
    KillOutcome(m, proc);
  }

  /**
   * From a memory whose two lowest free frames are 1 and 2 and whose frame
   * 1 holds entry 0 = 2, creating process 1 with no data pages gives it
   * frame 1 as its table, whose entry 0 still names frame 2, which is
   * free.
   */
  lemma ReuseFrameOne(m2: seq<Byte>)
    requires Wf(m2)
    requires |FreeFrames(m2)| >= 2 && FreeFrames(m2)[0] == 1 && FreeFrames(m2)[1] == 2
    requires m2[256] == 2 && m2[512] == 0
    requires forall a :: 257 <= a < 256 + PAGE_COUNT ==> m2[a] == 0
    ensures var c := NewProcess(m2, 1, 0);
            var m3 := c.mem;
            && c.result == Ok(())
            && Wf(m3)
            && FreeFrames(m3) != [] && FreeFrames(m3)[0] == 2
            && PageTableOf(m3, 1) == 1
            && TableEntry(m3, 1, 0) == 2
            && m3[2] == 0
            && m3[256] == 2 && m3[512] == 0
            && (forall a :: 257 <= a < 256 + PAGE_COUNT ==> m3[a] == 0)
  {
    NewProcessOutcome(m2, 1, 0);
    NewProcessTable(m2, 1, 0);
    NewProcessFreeFrames(m2, 1, 0);
    assert m2[2] == 0;
    EmptyCreateKeepsBytes(m2, 1);
    assert GetAddress(1, 0) == 256;
  }

  /** A creation with no data pages changes only the table frame's free-map byte and the directory slot. */
  lemma EmptyCreateKeepsBytes(m: seq<Byte>, proc: int)
    requires Wf(m) && NewProcess(m, proc, 0).result.Ok?
    ensures var r := NewProcess(m, proc, 0).mem;
            forall a :: 0 <= a < MEM_SIZE && a != LowestFree(m) && a != DirectoryAddress(proc) ==> r[a] == m[a]
  {
    NewProcessChanges(m, proc, 0);
    NewProcessTable(m, proc, 0);
  }


  /**
   * `new_process` hands out a table frame without clearing it. After the
   * memory of `CreateKillLeavesEntry`, creating process 1 with no data
   * pages gives it frame 1 as its table, and entry 0 still names frame 2,
   * which is free: the invariant is broken, and virtual address 0 of
   * process 1 translates into frame 2. The corrected creation leaves that
   * page unmapped.
   */
  lemma ReusedTableKeepsStaleEntry()
    ensures var m2 := Kill(NewProcess(InitialMemory(), 0, 1).mem, 0).mem;
            var c := NewProcess(m2, 1, 0);
            && c.result == Ok(())
            && PageTableOf(c.mem, 1) == 1
            && TableEntry(c.mem, 1, 0) == 2
            && c.mem[2] == 0
            && Translate(c.mem, 1, 0) == Ok(512)
            && !Consistent(c.mem)
            && Translate(NewProcessCleared(m2, 1, 0).mem, 1, 0) == Err(UnmappedPage(1, 0))
  {
    var m2 := Kill(NewProcess(InitialMemory(), 0, 1).mem, 0).mem;
    AfterReuse();
    StaleEntryBreaksInvariant(NewProcess(m2, 1, 0).mem);
    ClearedReuseUnmaps(m2);
  }

  /** The memory after `np 0 1`, `kp 0`, `np 1 0`, as `ReuseFrameOne` describes it. */
  lemma AfterReuse()
    ensures var m2 := Kill(NewProcess(InitialMemory(), 0, 1).mem, 0).mem;
            var c := NewProcess(m2, 1, 0);
            var m3 := c.mem;
            && Wf(m2) && LowestFree(m2) == 1
            && c.result == Ok(())
            && Wf(m3)
            && FreeFrames(m3) != [] && FreeFrames(m3)[0] == 2
            && PageTableOf(m3, 1) == 1
            && TableEntry(m3, 1, 0) == 2
            && m3[2] == 0
            && m3[256] == 2 && m3[512] == 0
            && (forall a :: 257 <= a < 256 + PAGE_COUNT ==> m3[a] == 0)
  {
    var m2 := Kill(NewProcess(InitialMemory(), 0, 1).mem, 0).mem;
    CreateKillLeavesEntry();
    InitialState();
    ReuseFrameOne(m2);
  }

  /** A live table whose entry 0 names a free frame breaks the invariant, and address 0 still translates into that frame. */
  lemma StaleEntryBreaksInvariant(m3: seq<Byte>)
    requires Wf(m3) && PageTableOf(m3, 1) == 1 && TableEntry(m3, 1, 0) == 2 && m3[2] == 0
    ensures Translate(m3, 1, 0) == Ok(512)
    ensures !Consistent(m3)
  {
    TranslateThroughEntry(m3, 1, 0, 2);
    assert PageFrame(m3, 1, 0) == 2;
  }

  /** The corrected creation of process 1 with no data pages in table frame 1 leaves its page 0 unmapped. */
  lemma ClearedReuseUnmaps(m2: seq<Byte>)
    requires Wf(m2) && LowestFree(m2) == 1 && NewProcess(m2, 1, 0).result.Ok?
    ensures Translate(NewProcessCleared(m2, 1, 0).mem, 1, 0) == Err(UnmappedPage(1, 0))
  {
    NewProcessClearedOutcome(m2, 1, 0);
    var r := NewProcessCleared(m2, 1, 0).mem;
    assert TableEntry(r, 1, 0) == 0;
    assert GetAddress(1, 0) == 256;
    assert EntryFor(r, 1, 0) == 0;
  }

  /**
   * Continuing `ReusedTableKeepsStaleEntry`: creating process 2 with no
   * data pages gives it frame 2, the frame named by process 1's stale
   * entry, as its table. Process 1's virtual address 0 now lands in
   * process 2's table. A store of 7 there by process 1 maps process 2's
   * page 0 to frame 7. Killing process 1 marks frame 2 free while process
   * 2's directory slot still names it.
   */
  lemma StaleEntryReachesAnotherTable()
    ensures var m3 := NewProcess(Kill(NewProcess(InitialMemory(), 0, 1).mem, 0).mem, 1, 0).mem;
            var c := NewProcess(m3, 2, 0);
            var m4 := c.mem;
            && c.result == Ok(())
            && PageTableOf(m4, 2) == 2
            && Translate(m4, 1, 0) == Ok(GetAddress(2, 0))
            && Translate(m4, 2, 0) == Err(UnmappedPage(2, 0))
            && Translate(Store(m4, 1, 0, 7).mem, 2, 0) == Ok(7 * 256)
            && Kill(m4, 1).mem[2] == 0
            && PageTableOf(Kill(m4, 1).mem, 2) == 2
  {
    var m3 := NewProcess(Kill(NewProcess(InitialMemory(), 0, 1).mem, 0).mem, 1, 0).mem;
    AfterReuse();
    ReuseFrameTwo(m3);
    SharedFrameHazards(NewProcess(m3, 2, 0).mem);
  }

  /**
   * From a memory whose lowest free frame is 2 and where process 1's table
   * (frame 1) has entry 0 = 2, creating process 2 with no data pages gives
   * it frame 2 as its table and leaves frame 1 as it was.
   */
  lemma ReuseFrameTwo(m3: seq<Byte>)
    requires Wf(m3)
    requires FreeFrames(m3) != [] && FreeFrames(m3)[0] == 2
    requires PageTableOf(m3, 1) == 1
    requires m3[256] == 2 && m3[512] == 0
    requires forall a :: 257 <= a < 256 + PAGE_COUNT ==> m3[a] == 0
    ensures var c := NewProcess(m3, 2, 0);
            var m4 := c.mem;
            && c.result == Ok(())
            && Wf(m4)
            && PageTableOf(m4, 1) == 1 && PageTableOf(m4, 2) == 2
            && m4[256] == 2 && m4[512] == 0
            && (forall a :: 257 <= a < 256 + PAGE_COUNT ==> m4[a] == 0)
  {
    NewProcessOutcome(m3, 2, 0);
    NewProcessTable(m3, 2, 0);
    NewProcessChanges(m3, 2, 0);
    var m4 := NewProcess(m3, 2, 0).mem;
    assert PageTableOf(m4, 1) == PageTableOf(m3, 1);
    assert m4[256] == m3[256] && m4[512] == m3[512];
    forall a | 257 <= a < 256 + PAGE_COUNT
      ensures m4[a] == 0
    {
      assert m4[a] == m3[a];
    }
  }

  /**
   * A memory in which entry 0 of process 1's table (frame 1) names frame
   * 2, process 2's table, whose entry 0 is unmapped: process 1 reaches
   * into process 2's table through its address 0, and killing process 1
   * frees frame 2 under process 2.
   */
  lemma SharedFrameHazards(m: seq<Byte>)
    requires Wf(m) && PageTableOf(m, 1) == 1 && PageTableOf(m, 2) == 2
    requires m[256] == 2 && m[512] == 0
    requires forall a :: 257 <= a < 256 + PAGE_COUNT ==> m[a] == 0
    ensures Translate(m, 1, 0) == Ok(GetAddress(2, 0))
    ensures Translate(m, 2, 0) == Err(UnmappedPage(2, 0))
    ensures Translate(Store(m, 1, 0, 7).mem, 2, 0) == Ok(7 * 256)
    ensures Kill(m, 1).mem[2] == 0
    ensures PageTableOf(Kill(m, 1).mem, 2) == 2
  {
    assert GetAddress(1, 0) == 256 && GetAddress(2, 0) == 512;
    TranslateThroughEntry(m, 1, 0, 2);
    assert EntryFor(m, 2, 0) == 0;
    var m5 := Store(m, 1, 0, 7).mem;
    assert m5 == m[512 := 7];
    assert TableEntry(m5, 2, 0) == 7;
    TranslateThroughEntry(m5, 2, 0, 7);
    KillOutcome(m, 1);
    var mapped := MappedFrames(m, 1, PAGE_COUNT);
    assert TableEntry(m, 1, 0) == 2;
    assert 2 in mapped;
    forall k | 0 <= k < PAGE_COUNT
      ensures TableEntry(m, 1, k) != 66
    {
      assert GetAddress(1, k) == 256 + k;
    }
    assert 66 !in mapped;
  }
}
