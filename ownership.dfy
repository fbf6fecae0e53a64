/**
 * Frame ownership. A live process (one whose directory slot is nonzero)
 * owns its table frame and the frames named by entries 0..63 of that
 * table. `Consistent` is the invariant that makes those frames its own:
 * every owned frame is a frame number marked in use, no frame has two
 * owners, and no frame serves both as a table and as a data frame.
 * `initialize_mem` establishes it, and store, the corrected kill and the
 * corrected creation keep it. `new_process` as written breaks it when it
 * reuses a table frame (see `Findings`).
 */
module Ownership {
  import opened Config
  import opened Addressing
  import opened FrameAllocator
  import opened PageTables
  import opened Lifecycle
  import opened Properties

  /** The frame backing virtual page v of proc: entry v of its table, or 0 when it has no table. */
  function PageFrame(m: seq<Byte>, proc: int, v: int): Byte
    requires Wf(m) && ValidProcess(proc) && 0 <= v < PAGE_COUNT
  {
    var pt := PageTableOf(m, proc);
    if pt == 0 then 0 else TableEntry(m, pt, v)
  }

  /** Every nonzero directory byte and every nonzero entry of a live table names a frame marked in use. */
  ghost predicate MarkedInUse(m: seq<Byte>)
    requires Wf(m)
  {
    && (forall p :: ValidProcess(p) && PageTableOf(m, p) != 0 ==> m[PageTableOf(m, p)] == 1)
    && (forall p, v :: ValidProcess(p) && 0 <= v < PAGE_COUNT && PageFrame(m, p, v) != 0 ==>
          PageFrame(m, p, v) < PAGE_COUNT && m[PageFrame(m, p, v)] == 1)
  }

  /**
   * A frame has at most one owner: two live processes have different table
   * frames, no entry names a table frame, and entries of two different
   * processes name different frames.
   */
  ghost predicate SingleOwner(m: seq<Byte>)
    requires Wf(m)
  {
    && (forall p, q :: ValidProcess(p) && ValidProcess(q) && p != q && PageTableOf(m, p) != 0 ==>
          PageTableOf(m, p) != PageTableOf(m, q))
    && (forall p, v, q :: ValidProcess(p) && 0 <= v < PAGE_COUNT && ValidProcess(q) && PageTableOf(m, q) != 0 ==>
          PageFrame(m, p, v) != PageTableOf(m, q))
    && (forall p, v, q, w ::
          ValidProcess(p) && 0 <= v < PAGE_COUNT && ValidProcess(q) && 0 <= w < PAGE_COUNT && p != q && PageFrame(m, p, v) != 0 ==>
          PageFrame(m, p, v) != PageFrame(m, q, w))
  }

  ghost predicate Consistent(m: seq<Byte>)
  {
    Wf(m) && MarkedInUse(m) && SingleOwner(m)
  }

  /** `initialize_mem` establishes the invariant: no process is live. */
  lemma InitialConsistent()
    ensures Consistent(InitialMemory())
  {
    InitialState();
  }

  /**
   * The invariant survives any change after which every live process was
   * live before, with the same table frame and entries, as long as its
   * frames are still marked in use.
   */
  lemma Restrict(m: seq<Byte>, m': seq<Byte>)
    requires Consistent(m) && Wf(m') && MarkedInUse(m')
    requires forall q :: ValidProcess(q) && PageTableOf(m', q) != 0 ==> PageTableOf(m', q) == PageTableOf(m, q)
    requires forall q, v :: ValidProcess(q) && PageTableOf(m', q) != 0 && 0 <= v < PAGE_COUNT ==>
               PageFrame(m', q, v) == PageFrame(m, q, v)
    ensures Consistent(m')
  {
    forall p, v, q | ValidProcess(p) && 0 <= v < PAGE_COUNT && ValidProcess(q) && PageTableOf(m', q) != 0
      ensures PageFrame(m', p, v) != PageTableOf(m', q)
    {
      if PageTableOf(m', p) != 0 {
        assert PageFrame(m', p, v) == PageFrame(m, p, v);
      }
    }
    forall p, v, q, w | ValidProcess(p) && 0 <= v < PAGE_COUNT && ValidProcess(q) && 0 <= w < PAGE_COUNT && p != q && PageFrame(m', p, v) != 0
      ensures PageFrame(m', p, v) != PageFrame(m', q, w)
    {
      assert PageFrame(m', p, v) == PageFrame(m, p, v);
      if PageTableOf(m', q) != 0 {
        assert PageFrame(m', q, w) == PageFrame(m, q, w);
      }
    }
  }

  /**
   * The invariant survives handing free frames to one process: the other
   * processes keep their tables, every frame marked before stays marked,
   * and the process's new table frame and data frames were free before,
   * are marked now and are not its table frame.
   */
  lemma Adopt(m: seq<Byte>, m': seq<Byte>, proc: int)
    requires Consistent(m) && Wf(m') && ValidProcess(proc) && PageTableOf(m', proc) != 0
    requires forall q :: ValidProcess(q) && q != proc ==> PageTableOf(m', q) == PageTableOf(m, q)
    requires forall q, v :: ValidProcess(q) && q != proc && 0 <= v < PAGE_COUNT ==> PageFrame(m', q, v) == PageFrame(m, q, v)
    requires forall a :: 0 <= a < PAGE_COUNT && m[a] == 1 ==> m'[a] == 1
    requires m[PageTableOf(m', proc)] == 0 && m'[PageTableOf(m', proc)] == 1
    requires forall v :: 0 <= v < PAGE_COUNT && PageFrame(m', proc, v) != 0 ==>
               && PageFrame(m', proc, v) < PAGE_COUNT
               && m[PageFrame(m', proc, v)] == 0 && m'[PageFrame(m', proc, v)] == 1
               && PageFrame(m', proc, v) != PageTableOf(m', proc)
    ensures Consistent(m')
  {
    var pt := PageTableOf(m', proc);
    forall p | ValidProcess(p) && PageTableOf(m', p) != 0
      ensures m'[PageTableOf(m', p)] == 1
    {
    }
    forall p, v | ValidProcess(p) && 0 <= v < PAGE_COUNT && PageFrame(m', p, v) != 0
      ensures PageFrame(m', p, v) < PAGE_COUNT && m'[PageFrame(m', p, v)] == 1
    {
      if p != proc {
        assert PageFrame(m', p, v) == PageFrame(m, p, v);
      }
    }
    forall p, q | ValidProcess(p) && ValidProcess(q) && p != q && PageTableOf(m', p) != 0
      ensures PageTableOf(m', p) != PageTableOf(m', q)
    {
    }
    forall p, v, q | ValidProcess(p) && 0 <= v < PAGE_COUNT && ValidProcess(q) && PageTableOf(m', q) != 0
      ensures PageFrame(m', p, v) != PageTableOf(m', q)
    {
      if p != proc {
        assert PageFrame(m', p, v) == PageFrame(m, p, v);
      }
    }
    forall p, v, q, w | ValidProcess(p) && 0 <= v < PAGE_COUNT && ValidProcess(q) && 0 <= w < PAGE_COUNT && p != q && PageFrame(m', p, v) != 0
      ensures PageFrame(m', p, v) != PageFrame(m', q, w)
    {
      if p != proc {
        assert PageFrame(m', p, v) == PageFrame(m, p, v);
      }
      if q != proc {
        assert PageFrame(m', q, w) == PageFrame(m, q, w);
      }
    }
  }

  /** A successful translation lands in the frame backing its virtual page, at its offset. */
  lemma TranslateFrame(m: seq<Byte>, proc: int, vaddr: int)
    requires Wf(m) && Translate(m, proc, vaddr).Ok?
    ensures ValidProcess(proc) && 0 <= PageOf(vaddr) < PAGE_COUNT
    ensures var f := PageFrame(m, proc, PageOf(vaddr));
            1 <= f < PAGE_COUNT && Translate(m, proc, vaddr).value == f * 256 + OffsetOf(vaddr)
  {
    var pa := Translate(m, proc, vaddr).value;
    assert pa == PageOf(pa) * 256 + OffsetOf(pa);
  }

  /** Translation depends only on the directory and the entries of live tables. */
  lemma SameTranslation(m: seq<Byte>, m': seq<Byte>, proc: int, vaddr: int)
    requires Wf(m) && Wf(m')
    requires ValidProcess(proc) ==> PageTableOf(m', proc) == PageTableOf(m, proc)
    requires ValidProcess(proc) && 0 <= PageOf(vaddr) < PAGE_COUNT ==>
               PageFrame(m', proc, PageOf(vaddr)) == PageFrame(m, proc, PageOf(vaddr))
    ensures Translate(m', proc, vaddr) == Translate(m, proc, vaddr)
  {
    if ValidProcess(proc) && PageTableOf(m, proc) != 0 && 0 <= vaddr < PAGE_COUNT * 256 {
      assert EntryFor(m', proc, vaddr) == PageFrame(m', proc, PageOf(vaddr));
      assert EntryFor(m, proc, vaddr) == PageFrame(m, proc, PageOf(vaddr));
    }
  }

  /**
   * Under `Consistent` a successful translation never lands on the table
   * entry it reads: the entry lies in the process's table frame, the result
   * in one of its data frames, and no entry names a table frame.
   */
  lemma TranslationMissesOwnEntry(m: seq<Byte>, proc: int, vaddr: int)
    requires Consistent(m) && Translate(m, proc, vaddr).Ok?
    ensures Translate(m, proc, vaddr).value != GetAddress(PageTableOf(m, proc), PageOf(vaddr))
  {
    TranslateFrame(m, proc, vaddr);
    var pt := PageTableOf(m, proc);
    var f := PageFrame(m, proc, PageOf(vaddr));
    assert f != pt;
    assert GetAddress(pt, PageOf(vaddr)) == pt * 256 + PageOf(vaddr);
    if f < pt {
      assert f * 256 + OffsetOf(vaddr) < (f + 1) * 256 <= pt * 256;
    } else {
      assert pt * 256 + PageOf(vaddr) < (pt + 1) * 256 <= f * 256;
    }
  }

  /**
   * Read after write with no exception in every state that keeps the
   * invariant, which includes every state of `Simulator.Memory`.
   */
  lemma ConsistentStoreThenLoad(m: seq<Byte>, proc: int, vaddr: int, value: int)
    requires Consistent(m) && Translate(m, proc, vaddr).Ok?
    ensures Load(Store(m, proc, vaddr, value).mem, proc, vaddr)
            == Ok((Translate(m, proc, vaddr).value, value % 256))
  {
    TranslationMissesOwnEntry(m, proc, vaddr);
    StoreThenLoad(m, proc, vaddr, value);
  }

  /**
   * Under the invariant a store writes inside a data frame: the free map,
   * the directory and every live table are as before.
   */
  lemma StoreKeepsTables(m: seq<Byte>, proc: int, vaddr: int, value: int)
    requires Consistent(m)
    ensures var r := Store(m, proc, vaddr, value).mem;
            && (forall a :: 0 <= a < PAGE_SIZE ==> r[a] == m[a])
            && (forall q, v :: ValidProcess(q) && 0 <= v < PAGE_COUNT ==> PageFrame(r, q, v) == PageFrame(m, q, v))
  {
    var s := Store(m, proc, vaddr, value);
    if s.result.Ok? {
      TranslateFrame(m, proc, vaddr);
      var f := PageFrame(m, proc, PageOf(vaddr));
      forall q, v | ValidProcess(q) && 0 <= v < PAGE_COUNT
        ensures PageFrame(s.mem, q, v) == PageFrame(m, q, v)
      {
        var pt := PageTableOf(m, q);
        assert PageTableOf(s.mem, q) == pt;
        if pt != 0 {
          assert pt != f;
          assert GetAddress(pt, v) == pt * 256 + v;
        }
      }
    }
  }

  /** A store keeps the invariant. */
  lemma StoreKeepsConsistent(m: seq<Byte>, proc: int, vaddr: int, value: int)
    requires Consistent(m)
    ensures Consistent(Store(m, proc, vaddr, value).mem)
  {
    var r := Store(m, proc, vaddr, value).mem;
    StoreKeepsTables(m, proc, vaddr, value);
    forall p | ValidProcess(p)
      ensures PageTableOf(r, p) == PageTableOf(m, p)
    {
    }
    Restrict(m, r);
  }

  /**
   * Isolation: under the invariant, a store by one process changes nothing
   * that another process loads, because the two translate into different
   * frames and a store never reaches a table.
   */
  lemma StoreIsolated(m: seq<Byte>, p: int, va: int, value: int, q: int, vb: int)
    requires Consistent(m) && p != q
    ensures Load(Store(m, p, va, value).mem, q, vb) == Load(m, q, vb)
  {
    var s := Store(m, p, va, value);
    StoreKeepsTables(m, p, va, value);
    SameTranslation(m, s.mem, q, vb);
    if s.result.Ok? && Translate(m, q, vb).Ok? {
      TranslateFrame(m, p, va);
      TranslateFrame(m, q, vb);
      var f := PageFrame(m, p, PageOf(va));
      var g := PageFrame(m, q, PageOf(vb));
      assert f != g;
      assert s.mem[Translate(m, q, vb).value] == m[Translate(m, q, vb).value];
    }
  }

  /**
   * Under the invariant the bytes a kill clears through the victim's
   * entries are frame numbers of its own data frames: below 64, no table
   * frame, and no frame of another process.
   */
  lemma ReleasedAreOwn(m: seq<Byte>, proc: int)
    requires Consistent(m) && ValidProcess(proc) && PageTableOf(m, proc) != 0
    ensures forall a :: a in MappedFrames(m, PageTableOf(m, proc), PAGE_COUNT) ==>
              && 1 <= a < PAGE_COUNT
              && (forall q :: ValidProcess(q) && PageTableOf(m, q) != 0 ==> a != PageTableOf(m, q))
              && (forall q, w :: ValidProcess(q) && q != proc && 0 <= w < PAGE_COUNT ==> a != PageFrame(m, q, w))
  {
    var pt := PageTableOf(m, proc);
    forall a | a in MappedFrames(m, pt, PAGE_COUNT)
      ensures 1 <= a < PAGE_COUNT
      ensures forall q :: ValidProcess(q) && PageTableOf(m, q) != 0 ==> a != PageTableOf(m, q)
      ensures forall q, w :: ValidProcess(q) && q != proc && 0 <= w < PAGE_COUNT ==> a != PageFrame(m, q, w)
    {
      var k :| 0 <= k < PAGE_COUNT && TableEntry(m, pt, k) != 0 && TableEntry(m, pt, k) == a;
      assert PageFrame(m, proc, k) == a;
    }
  }

  /** The corrected kill keeps the invariant: it frees only frames the victim owned. */
  lemma KillKeepsConsistent(m: seq<Byte>, proc: int)
    requires Consistent(m)
    ensures Consistent(Kill(m, proc).mem)
  {
    var r := Kill(m, proc);
    KillOutcome(m, proc);
    if r.result.Ok? {
      var pt := PageTableOf(m, proc);
      var mapped := MappedFrames(m, pt, PAGE_COUNT);
      ReleasedAreOwn(m, proc);
      forall q | ValidProcess(q) && q != proc
        ensures PageTableOf(r.mem, q) == PageTableOf(m, q)
      {
        assert DirectoryAddress(q) !in mapped;
      }
      forall q, v | ValidProcess(q) && PageTableOf(r.mem, q) != 0 && 0 <= v < PAGE_COUNT
        ensures PageFrame(r.mem, q, v) == PageFrame(m, q, v)
      {
        var ptq := PageTableOf(m, q);
        assert GetAddress(ptq, v) == ptq * 256 + v;
        assert ptq * 256 + v !in mapped;
      }
      forall q | ValidProcess(q) && PageTableOf(r.mem, q) != 0
        ensures r.mem[PageTableOf(r.mem, q)] == 1
      {
        assert PageTableOf(m, q) !in mapped;
      }
      forall q, v | ValidProcess(q) && 0 <= v < PAGE_COUNT && PageFrame(r.mem, q, v) != 0
        ensures PageFrame(r.mem, q, v) < PAGE_COUNT && r.mem[PageFrame(r.mem, q, v)] == 1
      {
        assert PageFrame(m, q, v) !in mapped;
      }
      Restrict(m, r.mem);
    }
  }

  /**
   * When `new_process` runs out of frames while filling the table, the
   * frames it took were free and belong to no one: the invariant holds.
   */
  lemma PartialFillKeepsConsistent(m: seq<Byte>, proc: int, count: int)
    requires Consistent(m) && ValidProcess(proc) && LowestFree(m) != 0
    requires Pages(count) > FreeFrameCount(m[LowestFree(m) := 1])
    ensures Consistent(NewProcess(m, proc, count).mem)
  {
    var pt := LowestFree(m);
    LowestFreeIsFirstFit(m);
    var m1: seq<Byte> := m[pt := 1];
    var f := FreeFrameCount(m1);
    var r := Allocated(m1, pt, f);
    assert NewProcess(m, proc, count).mem == r;
    forall a | 0 <= a < MEM_SIZE
      ensures PAGE_COUNT <= a && !(pt * 256 <= a < pt * 256 + f) ==> r[a] == m[a]
      ensures a < PAGE_COUNT ==> r[a] == m[a] || r[a] == 1
    {
      AllocatedOutside(m1, pt, f, a);
    }
    UnlinkedWritesKeepConsistent(m, r, pt, f);
  }

  /**
   * Marking free-map bytes used and writing entries of a free frame that no
   * directory slot names keeps the invariant.
   */
  lemma UnlinkedWritesKeepConsistent(m: seq<Byte>, r: seq<Byte>, pt: nat, n: nat)
    requires Consistent(m) && Wf(r) && 1 <= pt < PAGE_COUNT && m[pt] == 0 && n <= PAGE_COUNT
    requires forall a :: PAGE_COUNT <= a < MEM_SIZE && !(pt * 256 <= a < pt * 256 + n) ==> r[a] == m[a]
    requires forall a :: 0 <= a < PAGE_COUNT ==> r[a] == m[a] || r[a] == 1
    ensures Consistent(r)
  {
    forall q | ValidProcess(q)
      ensures PageTableOf(r, q) == PageTableOf(m, q)
    {
    }
    forall q, v | ValidProcess(q) && 0 <= v < PAGE_COUNT
      ensures PageFrame(r, q, v) == PageFrame(m, q, v)
    {
      var ptq := PageTableOf(m, q);
      if ptq != 0 {
        assert ptq != pt;
        assert GetAddress(ptq, v) == ptq * 256 + v;
      }
    }
    forall q | ValidProcess(q) && PageTableOf(r, q) != 0
      ensures r[PageTableOf(r, q)] == 1
    {
    }
    forall q, v | ValidProcess(q) && 0 <= v < PAGE_COUNT && PageFrame(r, q, v) != 0
      ensures PageFrame(r, q, v) < PAGE_COUNT && r[PageFrame(r, q, v)] == 1
    {
    }
    Restrict(m, r);
  }

  /** Allocation rounds change only free-map bytes, to 1, and the entries they fill. */
  lemma AllocatedOutside(m: seq<Byte>, pt: nat, n: nat, a: nat)
    requires |m| == MEM_SIZE && 1 <= pt < PAGE_COUNT && n <= |FreeFrames(m)| && a < MEM_SIZE
    ensures PAGE_COUNT <= a && !(pt * 256 <= a < pt * 256 + n) ==> Allocated(m, pt, n)[a] == m[a]
    ensures a < PAGE_COUNT ==> Allocated(m, pt, n)[a] == m[a] || Allocated(m, pt, n)[a] == 1
  {
    AllocatedByte(m, pt, n, a);
  }

  /** The corrected creation keeps the invariant, whether it succeeds or fails. */
  lemma CreateKeepsConsistent(m: seq<Byte>, proc: int, count: int)
    requires Consistent(m)
    ensures Consistent(NewProcessCleared(m, proc, count).mem)
  {
    var s := NewProcess(m, proc, count);
    var r := NewProcessCleared(m, proc, count);
    NewProcessClearedOutcome(m, proc, count);
    if r.result.Err? {
      if ValidProcess(proc) && LowestFree(m) != 0 && Pages(count) > FreeFrameCount(m[LowestFree(m) := 1]) {
        PartialFillKeepsConsistent(m, proc, count);
      }
    } else {
      CreatedAdopted(m, proc, count);
    }
  }

  /** A successful corrected creation hands free frames to the new process and touches no other table. */
  lemma CreatedAdopted(m: seq<Byte>, proc: int, count: int)
    requires Consistent(m) && NewProcess(m, proc, count).result.Ok?
    ensures Consistent(NewProcessCleared(m, proc, count).mem)
  {
    var s := NewProcess(m, proc, count).mem;
    var r := NewProcessCleared(m, proc, count).mem;
    var free := FreeFrames(m);
    var n := Pages(count);
    NewProcessClearedOutcome(m, proc, count);
    NewProcessChanges(m, proc, count);
    NewProcessTable(m, proc, count);
    NewProcessFramesDistinct(m, proc, count);
    var pt := free[0];
    forall a | PAGE_COUNT <= a < MEM_SIZE && a != DirectoryAddress(proc) && !(pt * 256 <= a < pt * 256 + PAGE_COUNT)
      ensures r[a] == m[a]
    {
      assert r[a] == s[a];
    }
    forall a | 0 <= a < PAGE_COUNT && m[a] == 1
      ensures r[a] == 1
    {
      assert r[a] == s[a];
    }
    forall q | ValidProcess(q) && q != proc
      ensures PageTableOf(r, q) == PageTableOf(m, q)
    {
    }
    forall q, v | ValidProcess(q) && q != proc && 0 <= v < PAGE_COUNT
      ensures PageFrame(r, q, v) == PageFrame(m, q, v)
    {
      var ptq := PageTableOf(m, q);
      if ptq != 0 {
        assert ptq != pt;
        assert GetAddress(ptq, v) == ptq * 256 + v;
      }
    }
    forall v | 0 <= v < PAGE_COUNT && PageFrame(r, proc, v) != 0
      ensures && PageFrame(r, proc, v) < PAGE_COUNT
              && m[PageFrame(r, proc, v)] == 0 && r[PageFrame(r, proc, v)] == 1
              && PageFrame(r, proc, v) != PageTableOf(r, proc)
    {
      assert v < n && PageFrame(r, proc, v) == free[v + 1];
      assert TableEntry(s, pt, v) == free[v + 1];
    }
    assert r[pt] == s[pt];
    Adopt(m, r, proc);
  }
}
