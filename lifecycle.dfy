/**
 * Process creation and teardown (`setup_page_table`, `find_free_pages`,
 * `new_process`, `free_process_pages`, `free_process_page_table`,
 * `kill_process`) as functions from the memory before to the memory after.
 */
module Lifecycle {
  import opened Config
  import opened Addressing
  import opened FrameAllocator
  import opened PageTables

  /** Data pages `find_free_pages` is asked for: its loop runs `page_count` times, none when negative. */
  function Pages(count: int): nat
  {
    if count < 0 then 0 else count
  }

  /**
   * The memory after the first n rounds of the allocation loop of
   * `find_free_pages` for the table in frame pt. Round k takes the k-th
   * lowest frame that was free in m, marks it used and stores it in entry k
   * of the table (that this is the frame the scan finds in round k is
   * `LowestFreeAllocated`).
   */
  function Allocated(m: seq<Byte>, pt: nat, n: nat): (r: seq<Byte>)
    requires |m| == MEM_SIZE && 1 <= pt < PAGE_COUNT && n <= |FreeFrames(m)|
    ensures |r| == MEM_SIZE
  {
    if n == 0 then m
    else Round(Allocated(m, pt, n - 1), pt, n - 1, FreeFrames(m)[n - 1])
  }

  /** Round k of the allocation loop, once the scan has found frame f: mark f used, store it in entry k. */
  function Round(m: seq<Byte>, pt: nat, k: nat, f: Byte): (r: seq<Byte>)
    requires |m| == MEM_SIZE && 1 <= pt < PAGE_COUNT && k < PAGE_SIZE && f < PAGE_COUNT
    ensures |r| == MEM_SIZE && r[f] == 1 && TableEntry(r, pt, k) == f
  {
    m[f := 1][pt * 256 + k := f]
  }

  /** Round k changes two bytes: the free-map byte of f becomes 1 and entry k becomes f. */
  lemma RoundByte(m: seq<Byte>, pt: nat, k: nat, f: Byte, a: nat)
    requires |m| == MEM_SIZE && 1 <= pt < PAGE_COUNT && k < PAGE_SIZE && f < PAGE_COUNT && a < MEM_SIZE
    ensures Round(m, pt, k, f)[a] == if a == pt * 256 + k then f else if a == f then 1 else m[a]
  {
  }

  /** A round that takes the lowest free frame removes exactly it from the front of the free list. */
  lemma RoundTakesLowest(m: seq<Byte>, pt: nat, k: nat, f: Byte)
    requires |m| == MEM_SIZE && 1 <= pt < PAGE_COUNT && k < PAGE_SIZE && f < PAGE_COUNT
    requires FreeFrames(m) != [] && f == LowestFree(m)
    ensures FreeFrames(Round(m, pt, k, f)) == FreeFrames(m)[1..]
  {
    var marked: seq<Byte> := m[f := 1];
    AllocateRemovesLowest(m);
    FreeFramesAgree(marked, Round(m, pt, k, f));
  }

  /**
   * `find_free_pages`: fill pages 0..count-1 of the table in frame pt, or,
   * when the frames run out at page e, stop there with out of memory,
   * keeping every frame already taken.
   */
  function FillTable(m: seq<Byte>, proc: int, pt: nat, count: int): (r: Step<()>)
    requires |m| == MEM_SIZE && 1 <= pt < PAGE_COUNT
    ensures |r.mem| == MEM_SIZE
    ensures r.result.Ok? <==> Pages(count) <= FreeFrameCount(m)
    ensures r.result.Err? ==> r.result == Err(OutOfMemory(proc, DataPage(FreeFrameCount(m))))
  {
    var free := FreeFrameCount(m);
    if Pages(count) <= free then Step(Allocated(m, pt, Pages(count)), Ok(()))
    else Step(Allocated(m, pt, free), Err(OutOfMemory(proc, DataPage(free))))
  }

  /**
   * Where the loop of `find_free_pages` stops: after every requested page,
   * or at page i once all i frames that were free are taken.
   */
  lemma FillTableStops(m: seq<Byte>, proc: int, pt: nat, count: int, i: nat)
    requires |m| == MEM_SIZE && 1 <= pt < PAGE_COUNT && i <= Pages(count) && i <= FreeFrameCount(m)
    ensures i == Pages(count) ==> FillTable(m, proc, pt, count) == Step(Allocated(m, pt, i), Ok(()))
    ensures i == FreeFrameCount(m) < Pages(count) ==>
              FillTable(m, proc, pt, count) == Step(Allocated(m, pt, i), Err(OutOfMemory(proc, DataPage(i))))
  {
  }

  /**
   * `new_process`: take the lowest free frame for the page table, fill its
   * entries with data frames, then record the table in the directory slot.
   * Out of memory leaves whatever was taken taken.
   */
  function NewProcess(m: seq<Byte>, proc: int, count: int): (r: Step<()>)
    requires Wf(m)
    ensures Wf(r.mem)
    ensures r.result.Ok? ==> ValidProcess(proc)
  {
    if !ValidProcess(proc) then Step(m, Err(InvalidProcess(proc)))
    else
      var pt := LowestFree(m);
      if pt == 0 then Step(m, Err(OutOfMemory(proc, PageTableFrame)))
      else
        LowestFreeIsFirstFit(m);
        var m1 := m[pt := 1];
        AllocatedWf(m1, pt, if Pages(count) <= FreeFrameCount(m1) then Pages(count) else FreeFrameCount(m1));
        var fill := FillTable(m1, proc, pt, count);
        if fill.result.Err? then fill
        else Step(fill.mem[DirectoryAddress(proc) := pt], Ok(()))
  }

  /**
   * After n rounds a byte is 1 when it marks one of the n frames taken, the
   * frame taken in round k when it is entry k, and as before otherwise.
   */
  lemma AllocatedBytes(m: seq<Byte>, pt: nat, n: nat)
    requires |m| == MEM_SIZE && 1 <= pt < PAGE_COUNT && n <= |FreeFrames(m)|
    ensures var free := FreeFrames(m);
            forall a :: 0 <= a < MEM_SIZE ==>
              Allocated(m, pt, n)[a] ==
                if a in free[..n] then 1
                else if pt * 256 <= a < pt * 256 + n then free[a - pt * 256]
                else m[a]
  {
    forall a | 0 <= a < MEM_SIZE {
      AllocatedByte(m, pt, n, a);
    }
  }

  /** `AllocatedBytes` for one address, by induction on the rounds. */
  lemma {:induction false} AllocatedByte(m: seq<Byte>, pt: nat, n: nat, a: nat)
    requires |m| == MEM_SIZE && 1 <= pt < PAGE_COUNT && n <= |FreeFrames(m)| && a < MEM_SIZE
    ensures var free := FreeFrames(m);
            Allocated(m, pt, n)[a] ==
              if a in free[..n] then 1
              else if pt * 256 <= a < pt * 256 + n then free[a - pt * 256]
              else m[a]
  {
    if n > 0 {
      var free := FreeFrames(m);
      AllocatedByte(m, pt, n - 1, a);
      var prev := Allocated(m, pt, n - 1);
      assert Allocated(m, pt, n) == Round(prev, pt, n - 1, free[n - 1]);
      RoundByte(prev, pt, n - 1, free[n - 1], a);
      TakeOneMore(free, n, a);
    }
  }

  /** The first n elements hold x exactly when the first n - 1 do or element n - 1 is x. */
  lemma TakeOneMore(s: seq<nat>, n: nat, x: nat)
    requires 0 < n <= |s|
    ensures x in s[..n] <==> x in s[..n - 1] || x == s[n - 1]
  {
    assert s[..n] == s[..n - 1] + [s[n - 1]];
  }

  /** After n rounds the free list has lost exactly its first n frames. */
  lemma {:induction false} FreeFramesAllocated(m: seq<Byte>, pt: nat, n: nat)
    requires |m| == MEM_SIZE && 1 <= pt < PAGE_COUNT && n <= |FreeFrames(m)|
    ensures FreeFrames(Allocated(m, pt, n)) == FreeFrames(m)[n..]
  {
    if n > 0 {
      FreeFramesAllocated(m, pt, n - 1);
      FreeFramesAllocatedStep(m, pt, n);
    }
  }

  /** The inductive step of `FreeFramesAllocated`: round n - 1 takes the head of what is left. */
  lemma FreeFramesAllocatedStep(m: seq<Byte>, pt: nat, n: nat)
    requires |m| == MEM_SIZE && 1 <= pt < PAGE_COUNT && 0 < n <= |FreeFrames(m)|
    requires FreeFrames(Allocated(m, pt, n - 1)) == FreeFrames(m)[n - 1..]
    ensures FreeFrames(Allocated(m, pt, n)) == FreeFrames(m)[n..]
  {
    var free := FreeFrames(m);
    var m0 := Allocated(m, pt, n - 1);
    calc {
      FreeFrames(Allocated(m, pt, n));
      FreeFrames(Round(m0, pt, n - 1, free[n - 1]));
      { RoundTakesLowest(m0, pt, n - 1, free[n - 1]); }
      FreeFrames(m0)[1..];
      { DropOneMore(free, n); }
      free[n..];
    }
  }

  /** The first n + 1 elements are the head followed by the first n of the tail. */
  lemma TakeAfterHead(s: seq<nat>, n: nat)
    requires n < |s|
    ensures forall x :: x in s[..n + 1] <==> x == s[0] || x in s[1..][..n]
  {
    assert s[..n + 1] == [s[0]] + s[1..][..n];
  }

  /** Dropping n - 1 elements and then one more drops n. */
  lemma DropOneMore(s: seq<nat>, n: nat)
    requires 0 < n <= |s|
    ensures s[n - 1..][1..] == s[n..]
  {
  }

  /** The allocation scan in round n picks the n-th free frame of m, or reports none once the list is used up. */
  lemma LowestFreeAllocated(m: seq<Byte>, pt: nat, n: nat)
    requires |m| == MEM_SIZE && 1 <= pt < PAGE_COUNT && n <= |FreeFrames(m)|
    ensures LowestFree(Allocated(m, pt, n)) == if n < |FreeFrames(m)| then FreeFrames(m)[n] else 0
  {
    FreeFramesAllocated(m, pt, n);
  }

  /** Allocation writes only used marks into the free map and frame numbers into the table, so it keeps `Wf`. */
  lemma AllocatedWf(m: seq<Byte>, pt: nat, n: nat)
    requires Wf(m) && 1 <= pt < PAGE_COUNT && n <= |FreeFrames(m)|
    ensures Wf(Allocated(m, pt, n))
  {
    AllocatedBytes(m, pt, n);
    assert !(0 in FreeFrames(m)[..n]);
  }

  /**
   * When `new_process` succeeds and when it fails: an invalid id and a full
   * memory change nothing; running out while filling the table leaves no
   * frame free and the directory slot as it was. Every outcome keeps `Wf`.
   */
  lemma NewProcessOutcome(m: seq<Byte>, proc: int, count: int)
    requires Wf(m)
    ensures var r := NewProcess(m, proc, count);
            var free := FreeFrameCount(m);
            && Wf(r.mem)
            && (r.result.Ok? <==> ValidProcess(proc) && Pages(count) + 1 <= free)
            && (!ValidProcess(proc) ==> r == Step(m, Err(InvalidProcess(proc))))
            && (ValidProcess(proc) && free == 0 ==> r == Step(m, Err(OutOfMemory(proc, PageTableFrame))))
            && (ValidProcess(proc) && 0 < free < Pages(count) + 1 ==>
                  && r.result == Err(OutOfMemory(proc, DataPage(free - 1)))
                  && FreeFrameCount(r.mem) == 0
                  && PageTableOf(r.mem, proc) == PageTableOf(m, proc))
  {
    if ValidProcess(proc) && LowestFree(m) != 0 {
      var pt := LowestFree(m);
      LowestFreeIsFirstFit(m);
      AllocateRemovesLowest(m);
      var m1 := m[pt := 1];
      if Pages(count) > FreeFrameCount(m1) {
        FreeFramesAllocated(m1, pt, FreeFrameCount(m1));
        AllocatedBytes(m1, pt, FreeFrameCount(m1));
      }
    }
  }

  /**
   * A successful `new_process` took the lowest free frame for the table,
   * then ran the allocation loop to the end on what was left, then wrote
   * the directory slot.
   */
  lemma NewProcessSuccess(m: seq<Byte>, proc: int, count: int)
    requires Wf(m) && NewProcess(m, proc, count).result.Ok?
    ensures var free := FreeFrames(m);
            var pt := LowestFree(m);
            && ValidProcess(proc) && free != [] && pt == free[0] && 1 <= pt < PAGE_COUNT
            && FreeFrames(m[pt := 1]) == free[1..]
            && Pages(count) + 1 <= |free|
            && NewProcess(m, proc, count).mem == Allocated(m[pt := 1], pt, Pages(count))[DirectoryAddress(proc) := pt]
  {
    NewProcessOutcome(m, proc, count);
    LowestFreeIsFirstFit(m);
    AllocateRemovesLowest(m);
  }

  /**
   * A successful `new_process` with c data pages builds its table from the
   * c + 1 lowest free frames: the lowest holds the table, named by the
   * directory slot, and entry k names the (k + 1)-th.
   */
  lemma NewProcessTable(m: seq<Byte>, proc: int, count: int)
    requires Wf(m) && NewProcess(m, proc, count).result.Ok?
    ensures var r := NewProcess(m, proc, count).mem;
            var free := FreeFrames(m);
            var n := Pages(count);
            && n + 1 <= |free|
            && PageTableOf(r, proc) == free[0]
            && (forall k :: 0 <= k < n ==> TableEntry(r, free[0], k) == free[k + 1])
  {
    NewProcessSuccess(m, proc, count);
    var free := FreeFrames(m);
    var n := Pages(count);
    var pt := LowestFree(m);
    var m1: seq<Byte> := m[pt := 1];
    var r := NewProcess(m, proc, count).mem;
    assert r == Allocated(m1, pt, n)[DirectoryAddress(proc) := pt];
    forall k | 0 <= k < n
      ensures TableEntry(r, pt, k) == free[k + 1]
    {
      assert GetAddress(pt, k) == pt * 256 + k;
      AllocatedByte(m1, pt, n, pt * 256 + k);
      assert FreeFrames(m1)[k] == free[k + 1];
    }
  }

  /** A successful `new_process` with c data pages removes the c + 1 lowest frames from the free list. */
  lemma NewProcessFreeFrames(m: seq<Byte>, proc: int, count: int)
    requires Wf(m) && NewProcess(m, proc, count).result.Ok?
    ensures var r := NewProcess(m, proc, count).mem;
            var free := FreeFrames(m);
            var n := Pages(count);
            && n + 1 <= |free|
            && FreeFrames(r) == free[n + 1..]
            && FreeFrameCount(r) == FreeFrameCount(m) - (n + 1)
  {
    NewProcessSuccess(m, proc, count);
    var free := FreeFrames(m);
    var n := Pages(count);
    var pt := LowestFree(m);
    var m1: seq<Byte> := m[pt := 1];
    var m2 := Allocated(m1, pt, n);
    FreeFramesAllocated(m1, pt, n);
    FreeFramesAgree(m2, m2[DirectoryAddress(proc) := pt]);
    assert free[1..][n..] == free[n + 1..];
  }

  /**
   * Besides the directory slot, a successful `new_process` changes only the
   * free-map bytes of the frames it takes and the entries it writes.
   */
  lemma NewProcessChanges(m: seq<Byte>, proc: int, count: int)
    requires Wf(m) && NewProcess(m, proc, count).result.Ok?
    ensures var r := NewProcess(m, proc, count).mem;
            var free := FreeFrames(m);
            var n := Pages(count);
            && n + 1 <= |free|
            && (forall a :: 0 <= a < PAGE_COUNT && r[a] != m[a] ==> a in free[..n + 1])
            && (forall a :: PAGE_COUNT <= a < MEM_SIZE && r[a] != m[a] ==>
                  a == DirectoryAddress(proc) || free[0] * 256 <= a < free[0] * 256 + n)
  {
    NewProcessSuccess(m, proc, count);
    var free := FreeFrames(m);
    var n := Pages(count);
    var pt := LowestFree(m);
    var m1: seq<Byte> := m[pt := 1];
    var r := NewProcess(m, proc, count).mem;
    assert r == Allocated(m1, pt, n)[DirectoryAddress(proc) := pt];
    TakeAfterHead(free, n);
    forall a | 0 <= a < MEM_SIZE && a != DirectoryAddress(proc)
      ensures r[a] == Allocated(m1, pt, n)[a]
    {
    }
    forall a | 0 <= a < PAGE_COUNT && r[a] != m[a]
      ensures a in free[..n + 1]
    {
      AllocatedByte(m1, pt, n, a);
    }
    forall a | PAGE_COUNT <= a < MEM_SIZE && r[a] != m[a]
      ensures a == DirectoryAddress(proc) || pt * 256 <= a < pt * 256 + n
    {
      AllocatedByte(m1, pt, n, a);
    }
  }

  /**
   * `free_process_pages` over entries 0..n-1 of the table in frame pt: for
   * each nonzero entry, read from the memory as already updated, the byte
   * at the address equal to the entry (the frame's free-map byte when the
   * entry is a frame number) is cleared.
   */
  function ReleaseEntries(m: seq<Byte>, pt: nat, n: nat): (r: seq<Byte>)
    requires |m| == MEM_SIZE && pt < PAGE_COUNT && n <= PAGE_COUNT
    ensures |r| == MEM_SIZE
  {
    if n == 0 then m
    else
      var prev := ReleaseEntries(m, pt, n - 1);
      var page := prev[GetAddress(pt, n - 1)];
      if page != 0 then prev[page := 0] else prev
  }

  /** The nonzero values among entries 0..n-1 of the table in frame pt. */
  function MappedFrames(m: seq<Byte>, pt: nat, n: nat): set<int>
    requires |m| == MEM_SIZE && pt < PAGE_COUNT && n <= PAGE_COUNT
  {
    set k | 0 <= k < n && TableEntry(m, pt, k) != 0 :: TableEntry(m, pt, k)
  }

  /**
   * For a table outside frame 0 the loop clears exactly the bytes its
   * nonzero entries name: the clears land in frame 0, so they never change
   * an entry still to be read.
   */
  lemma {:induction false} ReleaseEntriesBytes(m: seq<Byte>, pt: nat, n: nat)
    requires |m| == MEM_SIZE && 1 <= pt < PAGE_COUNT && n <= PAGE_COUNT
    ensures forall a :: 0 <= a < MEM_SIZE ==>
              ReleaseEntries(m, pt, n)[a] == if a in MappedFrames(m, pt, n) then 0 else m[a]
  {
    if n > 0 {
      ReleaseEntriesBytes(m, pt, n - 1);
      var prev := ReleaseEntries(m, pt, n - 1);
      var ea := GetAddress(pt, n - 1);
      assert prev[ea] == m[ea];
      var page := TableEntry(m, pt, n - 1);
      assert MappedFrames(m, pt, n) == MappedFrames(m, pt, n - 1) + (if page != 0 then {page} else {});
    }
  }

  /** `free_process_page_table` after `free_process_pages`: the teardown `kill_process` performs for the table in frame pt. */
  function Teardown(m: seq<Byte>, proc: int, pt: nat): (r: seq<Byte>)
    requires |m| == MEM_SIZE && ValidProcess(proc) && pt < PAGE_COUNT
    ensures |r| == MEM_SIZE && r[pt] == 0 && r[DirectoryAddress(proc)] == 0
  {
    ReleaseEntries(m, pt, PAGE_COUNT)[pt := 0][DirectoryAddress(proc) := 0]
  }

  /** `kill_process` exactly as written: tear down whatever frame the directory slot names, 0 included. */
  function KillAsWritten(m: seq<Byte>, proc: int): (r: seq<Byte>)
    requires Wf(m) && ValidProcess(proc)
    ensures |r| == MEM_SIZE && r[PageTableOf(m, proc)] == 0 && r[DirectoryAddress(proc)] == 0
  {
    Teardown(m, proc, PageTableOf(m, proc))
  }

  /**
   * `kill_process` with its two hazards reported: an id outside the
   * directory, and a process with no page table, which changes nothing.
   */
  function Kill(m: seq<Byte>, proc: int): (r: Step<()>)
    requires Wf(m)
    ensures Wf(r.mem)
  {
    if !ValidProcess(proc) then Step(m, Err(InvalidProcess(proc)))
    else
      var pt := PageTableOf(m, proc);
      if pt == 0 then Step(m, Err(NoPageTable(proc)))
      else
        ReleaseEntriesBytes(m, pt, PAGE_COUNT);
        Step(Teardown(m, proc, pt), Ok(()))
  }

  /**
   * `kill_process` succeeds exactly for a process with a page table; it
   * then clears the bytes named by the table's nonzero entries, the table
   * frame's free-map byte and the directory slot, and nothing else.
   */
  lemma KillOutcome(m: seq<Byte>, proc: int)
    requires Wf(m)
    ensures var r := Kill(m, proc);
            && (r.result.Ok? <==> ValidProcess(proc) && PageTableOf(m, proc) != 0)
            && (r.result.Err? ==> r.mem == m)
            && (r.result.Ok? ==>
                  var pt := PageTableOf(m, proc);
                  && PageTableOf(r.mem, proc) == 0
                  && forall a :: 0 <= a < MEM_SIZE ==>
                       r.mem[a] ==
                         if a == DirectoryAddress(proc) || a == pt || a in MappedFrames(m, pt, PAGE_COUNT) then 0
                         else m[a])
  {
    if ValidProcess(proc) && PageTableOf(m, proc) != 0 {
      ReleaseEntriesBytes(m, PageTableOf(m, proc), PAGE_COUNT);
    }
  }

  /** `new_process` does not clear the table frame: entries past the data pages keep what they held. */
  lemma NewProcessKeepsLaterEntries(m: seq<Byte>, proc: int, count: int)
    requires Wf(m) && NewProcess(m, proc, count).result.Ok?
    ensures var r := NewProcess(m, proc, count).mem;
            var pt := LowestFree(m);
            && 1 <= pt < PAGE_COUNT
            && forall k :: Pages(count) <= k < PAGE_SIZE ==> TableEntry(r, pt, k) == TableEntry(m, pt, k)
  {
    NewProcessChanges(m, proc, count);
    NewProcessTable(m, proc, count);
    var pt := LowestFree(m);
    forall k | Pages(count) <= k < PAGE_SIZE
      ensures GetAddress(pt, k) == pt * 256 + k
    {
    }
  }

  /**
   * Entries `from`..63 of the table in frame pt set to 0, every other byte
   * as in m.
   */
  function ClearEntries(m: seq<Byte>, pt: nat, from: nat): (r: seq<Byte>)
    requires |m| == MEM_SIZE && 1 <= pt < PAGE_COUNT && from <= PAGE_COUNT
    ensures |r| == MEM_SIZE
    ensures forall k :: from <= k < PAGE_COUNT ==> TableEntry(r, pt, k) == 0
    ensures forall a :: 0 <= a < MEM_SIZE && !(pt * 256 + from <= a < pt * 256 + PAGE_COUNT) ==> r[a] == m[a]
  {
    seq(MEM_SIZE, a requires 0 <= a < MEM_SIZE => if pt * 256 + from <= a < pt * 256 + PAGE_COUNT then 0 else m[a])
  }

  /**
   * `new_process` as evidently intended: as written, except that on
   * success the entries the new process does not use, c..63, are cleared,
   * so that a table frame handed out again names no frame of its previous
   * owner. The rest of the model uses this creation.
   */
  function NewProcessCleared(m: seq<Byte>, proc: int, count: int): (r: Step<()>)
    requires Wf(m)
    ensures Wf(r.mem)
  {
    var s := NewProcess(m, proc, count);
    if s.result.Err? then s
    else
      NewProcessSuccess(m, proc, count);
      Step(ClearEntries(s.mem, LowestFree(m), Pages(count)), Ok(()))
  }

  /**
   * The corrected creation reports what `new_process` reports and, on
   * failure, leaves the same memory. On success, the directory slot names
   * the lowest free frame; entry k of that table names the (k + 1)-th
   * lowest free frame for k below c and is 0 from c to 63; every other
   * byte is as `new_process` leaves it.
   */
  lemma NewProcessClearedOutcome(m: seq<Byte>, proc: int, count: int)
    requires Wf(m)
    ensures var s := NewProcess(m, proc, count);
            var r := NewProcessCleared(m, proc, count);
            && r.result == s.result
            && (r.result.Err? ==> r.mem == s.mem)
            && (r.result.Ok? ==>
                  var free := FreeFrames(m);
                  var n := Pages(count);
                  var pt := LowestFree(m);
                  && n + 1 <= |free| && pt == free[0] && 1 <= pt < PAGE_COUNT
                  && PageTableOf(r.mem, proc) == pt
                  && (forall k :: 0 <= k < PAGE_COUNT ==> TableEntry(r.mem, pt, k) == if k < n then free[k + 1] else 0)
                  && (forall a :: 0 <= a < MEM_SIZE && !(pt * 256 + n <= a < pt * 256 + PAGE_COUNT) ==> r.mem[a] == s.mem[a]))
  {
    var s := NewProcess(m, proc, count);
    if s.result.Ok? {
      NewProcessSuccess(m, proc, count);
      NewProcessTable(m, proc, count);
      var free := FreeFrames(m);
      var n := Pages(count);
      var pt := LowestFree(m);
      var r := ClearEntries(s.mem, pt, n);
      assert NewProcessCleared(m, proc, count) == Step(r, Ok(()));
      assert PageTableOf(r, proc) == pt by {
        assert r[DirectoryAddress(proc)] == s.mem[DirectoryAddress(proc)];
      }
      forall k | 0 <= k < PAGE_COUNT
        ensures TableEntry(r, pt, k) == if k < n then free[k + 1] else 0
      {
        assert GetAddress(pt, k) == pt * 256 + k;
        if k < n {
          assert TableEntry(s.mem, pt, k) == free[k + 1];
        }
      }
    }
  }

  /** The teardown loop only ever clears bytes, and never byte 0: it writes 0 at nonzero addresses only. */
  lemma {:induction false} ReleaseEntriesOnlyClears(m: seq<Byte>, pt: nat, n: nat)
    requires |m| == MEM_SIZE && pt < PAGE_COUNT && n <= PAGE_COUNT
    ensures var r := ReleaseEntries(m, pt, n);
            && r[0] == m[0]
            && forall a :: 0 <= a < MEM_SIZE ==> r[a] == m[a] || r[a] == 0
  {
    if n > 0 {
      ReleaseEntriesOnlyClears(m, pt, n - 1);
    }
  }

  /** A byte the teardown loop has cleared stays clear for the rest of the loop. */
  lemma {:induction false} ReleaseEntriesKeepsClear(m: seq<Byte>, pt: nat, i: nat, n: nat, a: nat)
    requires |m| == MEM_SIZE && pt < PAGE_COUNT && i <= n <= PAGE_COUNT && a < MEM_SIZE
    requires ReleaseEntries(m, pt, i)[a] == 0
    ensures ReleaseEntries(m, pt, n)[a] == 0
    decreases n - i
  {
    if i < n {
      ReleaseEntriesKeepsClear(m, pt, i, n - 1, a);
    }
  }
}
