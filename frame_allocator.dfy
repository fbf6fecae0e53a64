/**
 * The free-frame map: byte j of frame 0 (j < PAGE_COUNT) is 0 when frame j
 * is free and nonzero when it is in use. Allocation is first fit over
 * frames 1..PAGE_COUNT-1; frame 0 is never a candidate.
 */
module FrameAllocator {
  import opened Config

  /** The free frames among lo..PAGE_COUNT-1, in ascending order. */
  function FreeFrom(m: seq<Byte>, lo: nat): (s: seq<nat>)
    requires PAGE_COUNT <= |m| && lo <= PAGE_COUNT
    ensures |s| <= PAGE_COUNT - lo
    ensures forall k :: 0 <= k < |s| ==> lo <= s[k] < PAGE_COUNT && m[s[k]] == 0
    decreases PAGE_COUNT - lo
  {
    if lo == PAGE_COUNT then []
    else if m[lo] == 0 then [lo] + FreeFrom(m, lo + 1)
    else FreeFrom(m, lo + 1)
  }

  predicate Ascending(s: seq<nat>)
  {
    forall k, l :: 0 <= k < l < |s| ==> s[k] < s[l]
  }

  /** The free list is strictly ascending. */
  lemma {:induction false} FreeFromAscending(m: seq<Byte>, lo: nat)
    requires PAGE_COUNT <= |m| && lo <= PAGE_COUNT
    ensures Ascending(FreeFrom(m, lo))
    decreases PAGE_COUNT - lo
  {
    if lo < PAGE_COUNT {
      FreeFromAscending(m, lo + 1);
      var s := FreeFrom(m, lo);
      var t := FreeFrom(m, lo + 1);
      assert Ascending(t);
      if m[lo] == 0 {
        assert s == [lo] + t;
        forall k, l | 0 <= k < l < |s|
          ensures s[k] < s[l]
        {
          assert s[l] == t[l - 1];
          assert t[l - 1] >= lo + 1;
          if k > 0 {
            assert s[k] == t[k - 1];
            assert t[k - 1] < t[l - 1];
          } else {
            assert s[k] == lo;
          }
        }
      }
    }
  }

  /** Every free frame of the range is on the free list. */
  lemma {:induction false} FreeFromComplete(m: seq<Byte>, lo: nat)
    requires PAGE_COUNT <= |m| && lo <= PAGE_COUNT
    ensures forall j :: lo <= j < PAGE_COUNT && m[j] == 0 ==> j in FreeFrom(m, lo)
    decreases PAGE_COUNT - lo
  {
    if lo < PAGE_COUNT {
      FreeFromComplete(m, lo + 1);
    }
  }

  /** The frames an allocation may hand out, lowest first. */
  function FreeFrames(m: seq<Byte>): seq<nat>
    requires PAGE_COUNT <= |m|
  {
    FreeFrom(m, 1)
  }

  /** How many frames are free. */
  function FreeFrameCount(m: seq<Byte>): nat
    requires PAGE_COUNT <= |m|
  {
    |FreeFrames(m)|
  }

  /** The frame the allocation scan picks: the lowest free one, or 0 when none is free. */
  function LowestFree(m: seq<Byte>): (f: nat)
    requires PAGE_COUNT <= |m|
    ensures f == 0 <==> FreeFrames(m) == []
    ensures f != 0 ==> 1 <= f < PAGE_COUNT && m[f] == 0
  {
    if FreeFrames(m) == [] then 0 else FreeFrames(m)[0]
  }

  /**
   * First fit: a nonzero answer is a free frame with every frame between 1
   * and it in use; 0 means every frame 1..PAGE_COUNT-1 is in use.
   */
  lemma LowestFreeIsFirstFit(m: seq<Byte>)
    requires PAGE_COUNT <= |m|
    ensures var f := LowestFree(m);
            && (f != 0 ==> 1 <= f < PAGE_COUNT && m[f] == 0)
            && (forall j :: 1 <= j < PAGE_COUNT && (f == 0 || j < f) ==> m[j] != 0)
  {
    var s := FreeFrames(m);
    FreeFromAscending(m, 1);
    FreeFromComplete(m, 1);
    forall j | 1 <= j < PAGE_COUNT && m[j] == 0
      ensures s != [] && s[0] <= j
    {
      assert j in s;
      var k :| 0 <= k < |s| && s[k] == j;
      assert k == 0 || s[0] < s[k];
    }
  }

  /** The free list depends on nothing but the free-map bytes it covers. */
  lemma {:induction false} FreeFromAgree(m: seq<Byte>, m': seq<Byte>, lo: nat)
    requires PAGE_COUNT <= |m| && PAGE_COUNT <= |m'| && lo <= PAGE_COUNT
    requires forall j :: lo <= j < PAGE_COUNT ==> m[j] == m'[j]
    ensures FreeFrom(m, lo) == FreeFrom(m', lo)
    decreases PAGE_COUNT - lo
  {
    if lo < PAGE_COUNT {
      FreeFromAgree(m, m', lo + 1);
    }
  }

  /** Writes outside the free map leave the free frames as they were. */
  lemma FreeFramesAgree(m: seq<Byte>, m': seq<Byte>)
    requires PAGE_COUNT <= |m| && PAGE_COUNT <= |m'|
    requires forall j :: 0 <= j < PAGE_COUNT ==> m[j] == m'[j]
    ensures FreeFrames(m) == FreeFrames(m')
  {
    FreeFromAgree(m, m', 1);
  }

  /** Used frames at the front of a range do not appear in its free list. */
  lemma {:induction false} FreeFromSkip(m: seq<Byte>, lo: nat, f: nat)
    requires PAGE_COUNT <= |m| && lo <= f <= PAGE_COUNT
    requires forall j :: lo <= j < f ==> m[j] != 0
    ensures FreeFrom(m, lo) == FreeFrom(m, f)
    decreases f - lo
  {
    if lo < f {
      FreeFromSkip(m, lo + 1, f);
    }
  }

  /** Marking the lowest free frame used removes exactly it from the front of the free list. */
  lemma AllocateRemovesLowest(m: seq<Byte>)
    requires PAGE_COUNT <= |m| && FreeFrames(m) != []
    ensures FreeFrames(m[LowestFree(m) := 1]) == FreeFrames(m)[1..]
    ensures FreeFrameCount(m[LowestFree(m) := 1]) + 1 == FreeFrameCount(m)
  {
    var f := LowestFree(m);
    var m' := m[f := 1];
    LowestFreeIsFirstFit(m);
    FreeFromSkip(m, 1, f);
    FreeFromSkip(m', 1, f + 1);
    FreeFromAgree(m, m', f + 1);
  }

  /** Freeing frame k while every lower frame is in use makes k the next frame handed out. */
  lemma ReleaseThenAllocate(m: seq<Byte>, k: nat)
    requires PAGE_COUNT <= |m| && 1 <= k < PAGE_COUNT
    requires forall j :: 1 <= j < k ==> m[j] != 0
    ensures LowestFree(m[k := 0]) == k
  {
    var m' := m[k := 0];
    FreeFromSkip(m', 1, k);
  }
}
