/**
 * Properties that relate several operations of the simulator: the state
 * after `initialize_mem`, creating and then killing a process, translating
 * through a freshly built table, and two processes side by side.
 */
module Properties {
  import opened Config
  import opened Addressing
  import opened FrameAllocator
  import opened PageTables
  import opened Lifecycle

  /**
   * Teardown of a table that names frames[1..n+1] in its first n entries
   * and nothing after, held in frames[0], when those frames were all free
   * in m and m2 differs from m only in them, in the table entries and in
   * the directory slot: every byte of frame 0 but the slot is back to m.
   */
  lemma TeardownUndoesAllocation(m: seq<Byte>, m2: seq<Byte>, proc: int, frames: seq<nat>, n: nat)
    requires Wf(m) && Wf(m2) && ValidProcess(proc)
    requires |frames| == n + 1 && n < PAGE_COUNT
    requires forall j :: 0 <= j < n + 1 ==> 1 <= frames[j] < PAGE_COUNT && m[frames[j]] == 0
    requires PageTableOf(m2, proc) == frames[0]
    requires forall k :: 0 <= k < n ==> TableEntry(m2, frames[0], k) == frames[k + 1]
    requires forall k :: n <= k < PAGE_COUNT ==> TableEntry(m2, frames[0], k) == 0
    requires forall a :: 0 <= a < PAGE_SIZE && m2[a] != m[a] ==> a == DirectoryAddress(proc) || a in frames
    ensures var r := Kill(m2, proc);
            && r.result.Ok?
            && PageTableOf(r.mem, proc) == 0
            && forall a :: 0 <= a < PAGE_SIZE && a != DirectoryAddress(proc) ==> r.mem[a] == m[a]
  {
    var pt := frames[0];
    KillOutcome(m2, proc);
    var r := Kill(m2, proc);
    var mapped := MappedFrames(m2, pt, PAGE_COUNT);
    forall j | 1 <= j < n + 1
      ensures frames[j] in mapped
    {
      assert TableEntry(m2, pt, j - 1) == frames[j];
    }
    forall a | 0 <= a < PAGE_SIZE && a != DirectoryAddress(proc)
      ensures r.mem[a] == m[a]
    {
      if a in mapped {
        var k :| 0 <= k < PAGE_COUNT && TableEntry(m2, pt, k) != 0 && TableEntry(m2, pt, k) == a;
        assert a == frames[k + 1];
      }
    }
  }

  /**
   * Killing a process right after creating it hands every frame back: the
   * free map is as before the creation and the directory slot is empty.
   * Tables are never zeroed, so this needs the entries past the new data
   * pages in the frame that becomes the table to be zero already.
   */
  lemma CreateThenKillRestoresFreeMap(m: seq<Byte>, proc: int, count: int)
    requires Wf(m) && NewProcess(m, proc, count).result.Ok?
    requires forall k :: Pages(count) <= k < PAGE_COUNT ==> TableEntry(m, LowestFree(m), k) == 0
    ensures var r := Kill(NewProcess(m, proc, count).mem, proc);
            && r.result.Ok?
            && (forall a :: 0 <= a < PAGE_COUNT ==> r.mem[a] == m[a])
            && FreeFrames(r.mem) == FreeFrames(m)
            && PageTableOf(r.mem, proc) == 0
            && (m[DirectoryAddress(proc)] == 0 ==> forall a :: 0 <= a < PAGE_SIZE ==> r.mem[a] == m[a])
  {
    var free := FreeFrames(m);
    var n := Pages(count);
    var m2 := NewProcess(m, proc, count).mem;
    NewProcessTable(m, proc, count);
    NewProcessChanges(m, proc, count);
    NewProcessKeepsLaterEntries(m, proc, count);
    TeardownUndoesAllocation(m, m2, proc, free[..n + 1], n);
    FreeFramesAgree(Kill(m2, proc).mem, m);
  }

  /**
   * With the corrected creation, killing a process right after creating it
   * hands every frame back whatever the table frame held before: the free
   * map and the free list are as before and the directory slot is empty.
   */
  lemma ClearedCreateThenKillRestoresFreeMap(m: seq<Byte>, proc: int, count: int)
    requires Wf(m) && NewProcessCleared(m, proc, count).result.Ok?
    ensures var r := Kill(NewProcessCleared(m, proc, count).mem, proc);
            && r.result.Ok?
            && (forall a :: 0 <= a < PAGE_COUNT ==> r.mem[a] == m[a])
            && FreeFrames(r.mem) == FreeFrames(m)
            && PageTableOf(r.mem, proc) == 0
            && (m[DirectoryAddress(proc)] == 0 ==> forall a :: 0 <= a < PAGE_SIZE ==> r.mem[a] == m[a])
  {
    var free := FreeFrames(m);
    var n := Pages(count);
    var s := NewProcess(m, proc, count).mem;
    var m2 := NewProcessCleared(m, proc, count).mem;
    NewProcessClearedOutcome(m, proc, count);
    NewProcessChanges(m, proc, count);
    forall a | 0 <= a < PAGE_SIZE
      ensures m2[a] == s[a]
    {
    }
    TeardownUndoesAllocation(m, m2, proc, free[..n + 1], n);
    FreeFramesAgree(Kill(m2, proc).mem, m);
  }

  /** On a memory whose free map is all zero from lo on, every frame from lo on is free. */
  lemma {:induction false} FreeFromAllFree(m: seq<Byte>, lo: nat)
    requires PAGE_COUNT <= |m| && lo <= PAGE_COUNT
    requires forall j :: lo <= j < PAGE_COUNT ==> m[j] == 0
    ensures var s := FreeFrom(m, lo);
            |s| == PAGE_COUNT - lo && forall k :: 0 <= k < |s| ==> s[k] == lo + k
    decreases PAGE_COUNT - lo
  {
    if lo < PAGE_COUNT {
      FreeFromAllFree(m, lo + 1);
    }
  }

  /**
   * `initialize_mem` yields a well-formed memory in which frame 0 is the
   * only frame in use, every directory slot is empty, and the first
   * allocation gets frame 1.
   */
  lemma InitialState()
    ensures var m := InitialMemory();
            && Wf(m)
            && FreeFrameCount(m) == PAGE_COUNT - 1
            && (forall k :: 0 <= k < PAGE_COUNT - 1 ==> FreeFrames(m)[k] == k + 1)
            && LowestFree(m) == 1
            && (forall proc :: ValidProcess(proc) ==> PageTableOf(m, proc) == 0)
  {
    var m := InitialMemory();
    assert GetAddress(0, 0) == 0;
    FreeFromAllFree(m, 1);
  }

  /**
   * A table whose first n entries name frames[1..n+1], reached from the
   * directory slot of proc, maps every address below n * 256 into those
   * frames, page for page.
   */
  lemma TranslateThroughTable(r: seq<Byte>, proc: int, frames: seq<nat>, n: nat, vaddr: int)
    requires Wf(r) && ValidProcess(proc) && n + 1 <= |frames| < PAGE_COUNT
    requires forall j :: 0 <= j < |frames| ==> 1 <= frames[j] < PAGE_COUNT
    requires PageTableOf(r, proc) == frames[0]
    requires forall k :: 0 <= k < n ==> TableEntry(r, frames[0], k) == frames[k + 1]
    requires 0 <= vaddr < n * 256
    ensures PageOf(vaddr) + 1 < |frames|
    ensures Translate(r, proc, vaddr) == Ok(frames[PageOf(vaddr) + 1] * 256 + OffsetOf(vaddr))
  {
    TranslateThroughEntry(r, proc, vaddr, frames[PageOf(vaddr) + 1]);
  }

  /**
   * A successful `new_process` leaves its table frame and every data frame
   * it entered marked used, none of them frame 0, the data frames pairwise
   * distinct and each distinct from the table frame.
   */
  lemma NewProcessFramesDistinct(m: seq<Byte>, proc: int, count: int)
    requires Wf(m) && NewProcess(m, proc, count).result.Ok?
    ensures var r := NewProcess(m, proc, count).mem;
            var pt := PageTableOf(r, proc);
            var n := Pages(count);
            && 1 <= pt < PAGE_COUNT && r[pt] == 1
            && (forall k :: 0 <= k < n ==>
                  var f := TableEntry(r, pt, k);
                  1 <= f < PAGE_COUNT && f != pt && r[f] == 1)
            && (forall k, l :: 0 <= k < l < n ==> TableEntry(r, pt, k) != TableEntry(r, pt, l))
  {
    var free := FreeFrames(m);
    var n := Pages(count);
    var r := NewProcess(m, proc, count).mem;
    NewProcessSuccess(m, proc, count);
    NewProcessTable(m, proc, count);
    FreeFromAscending(m, 1);
    var pt := free[0];
    var m1: seq<Byte> := m[pt := 1];
    var rest := FreeFrames(m1);
    assert r == Allocated(m1, pt, n)[DirectoryAddress(proc) := pt];
    forall j | 0 <= j < n + 1
      ensures r[free[j]] == 1
    {
      AllocatedByte(m1, pt, n, free[j]);
      if j > 0 {
        assert rest[j - 1] == free[j];
        assert free[j] in rest[..n];
      } else {
        assert free[0] !in rest[..n] by {
          forall i | 0 <= i < n
            ensures rest[..n][i] != free[0]
          {
            assert rest[i] == free[i + 1];
          }
        }
      }
    }
    forall k | 0 <= k < n
      ensures TableEntry(r, pt, k) == free[k + 1] && r[free[k + 1]] == 1
    {
    }
  }

  /**
   * Right after `new_process`, virtual page v < c of the new process
   * translates to the (v + 1)-th lowest frame that was free, at the same
   * offset.
   */
  lemma TranslateAfterCreate(m: seq<Byte>, proc: int, count: int, vaddr: int)
    requires Wf(m) && NewProcess(m, proc, count).result.Ok?
    requires 0 <= vaddr < Pages(count) * 256
    ensures var free := FreeFrames(m);
            && PageOf(vaddr) + 1 < |free|
            && Translate(NewProcess(m, proc, count).mem, proc, vaddr)
               == Ok(free[PageOf(vaddr) + 1] * 256 + OffsetOf(vaddr))
  {
    var free := FreeFrames(m);
    var r := NewProcess(m, proc, count).mem;
    NewProcessTable(m, proc, count);
    assert forall j :: 0 <= j < |free| ==> 1 <= free[j] < PAGE_COUNT;
    TranslateThroughTable(r, proc, free, Pages(count), vaddr);
  }

  /**
   * Writes confined to the free map, one other directory slot and one
   * other frame's entries leave a process's directory slot and table as
   * they were.
   */
  lemma TableKeptByOtherWrites(m: seq<Byte>, r: seq<Byte>, proc: int, other: int, pt: nat, n: nat, pt2: nat, n2: nat)
    requires Wf(m) && Wf(r) && ValidProcess(proc) && ValidProcess(other) && proc != other
    requires 1 <= pt < PAGE_COUNT && 1 <= pt2 < PAGE_COUNT && pt != pt2 && n < PAGE_SIZE && n2 < PAGE_SIZE
    requires forall a :: PAGE_COUNT <= a < MEM_SIZE && r[a] != m[a] ==>
               a == DirectoryAddress(other) || pt2 * 256 <= a < pt2 * 256 + n2
    ensures PageTableOf(r, proc) == PageTableOf(m, proc)
    ensures forall k :: 0 <= k < n ==> TableEntry(r, pt, k) == TableEntry(m, pt, k)
  {
    forall k | 0 <= k < n
      ensures TableEntry(r, pt, k) == TableEntry(m, pt, k)
    {
      assert GetAddress(pt, k) == pt * 256 + k;
    }
  }

  /**
   * Two processes created one after the other get disjoint frames: the
   * first takes the c1 + 1 lowest free frames, the second the next c2 + 1,
   * all above the first's, and the second creation leaves the first
   * process's table as it was.
   */
  lemma TwoProcessesShareNoFrame(m: seq<Byte>, p1: int, c1: int, p2: int, c2: int)
    requires Wf(m) && p1 != p2
    requires NewProcess(m, p1, c1).result.Ok?
    requires NewProcess(NewProcess(m, p1, c1).mem, p2, c2).result.Ok?
    ensures var free := FreeFrames(m);
            var n1 := Pages(c1);
            var n2 := Pages(c2);
            var r := NewProcess(NewProcess(m, p1, c1).mem, p2, c2).mem;
            && n1 + n2 + 2 <= |free|
            && PageTableOf(r, p1) == free[0]
            && (forall k :: 0 <= k < n1 ==> TableEntry(r, free[0], k) == free[k + 1])
            && (var pt2 := free[n1 + 1];
                && PageTableOf(r, p2) == pt2
                && forall k :: 0 <= k < n2 ==> TableEntry(r, pt2, k) == free[n1 + 2 + k])
            && FreeFrames(r) == free[n1 + n2 + 2..]
            && (forall i, j :: 0 <= i <= n1 < j < n1 + n2 + 2 ==> free[i] < free[j])
  {
    var free := FreeFrames(m);
    var n1 := Pages(c1);
    var n2 := Pages(c2);
    var m1 := NewProcess(m, p1, c1).mem;
    var r := NewProcess(m1, p2, c2).mem;
    NewProcessTable(m, p1, c1);
    NewProcessFreeFrames(m, p1, c1);
    NewProcessTable(m1, p2, c2);
    NewProcessFreeFrames(m1, p2, c2);
    NewProcessChanges(m1, p2, c2);
    FreeFromAscending(m, 1);
    assert free[0] < free[n1 + 1];
    TableKeptByOtherWrites(m1, r, p1, p2, free[0], n1, free[n1 + 1], n2);
    assert free[n1 + 1..][n2 + 1..] == free[n1 + n2 + 2..];
  }

  /**
   * From a fresh memory, process 0 with two data pages gets table frame 1
   * and data frames 2 and 3; virtual addresses 0 and 0x105 land in frames 2
   * and 3; killing it leaves only frame 0 marked used.
   */
  lemma CreateTwoPagesScenario()
    ensures var m0 := InitialMemory();
            var c := NewProcess(m0, 0, 2);
            var k := Kill(c.mem, 0);
            && c.result == Ok(())
            && PageTableOf(c.mem, 0) == 1
            && TableEntry(c.mem, 1, 0) == 2 && TableEntry(c.mem, 1, 1) == 3
            && Translate(c.mem, 0, 0) == Ok(512)
            && Translate(c.mem, 0, 0x105) == Ok(3 * 256 + 5)
            && k.result == Ok(())
            && forall a :: 0 <= a < PAGE_COUNT ==> k.mem[a] == if a == 0 then 1 else 0
  {
    var m0 := InitialMemory();
    InitialState();
    NewProcessOutcome(m0, 0, 2);
    NewProcessTable(m0, 0, 2);
    TranslateAfterCreate(m0, 0, 2, 0);
    TranslateAfterCreate(m0, 0, 2, 0x105);
    forall k | 2 <= k < PAGE_COUNT
      ensures TableEntry(m0, 1, k) == 0
    {
      assert GetAddress(1, k) == 256 + k;
    }
    CreateThenKillRestoresFreeMap(m0, 0, 2);
  }
}
