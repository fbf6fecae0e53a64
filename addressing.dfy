/**
 * Address arithmetic: an address is a page number shifted left by
 * PAGE_SHIFT and OR-ed with an offset; the split uses `>>` and `& 255`.
 */
module Addressing {
  import opened Config

  function Pow2(k: nat): (r: nat)
    ensures r >= 1
  {
    if k == 0 then 1 else 2 * Pow2(k - 1)
  }

  /** Bitwise OR of two non-negative integers, least significant bit first. */
  function BitOr(a: nat, b: nat): nat
    decreases a + b
  {
    if a == 0 then b
    else if b == 0 then a
    else 2 * BitOr(a / 2, b / 2) + (if a % 2 == 1 || b % 2 == 1 then 1 else 0)
  }

  /** OR-ing a value below 2^k into a multiple of 2^k is addition. */
  lemma {:induction false} BitOrLowBits(a: nat, b: nat, k: nat)
    requires b < Pow2(k)
    ensures BitOr(a * Pow2(k), b) == a * Pow2(k) + b
    decreases k
  {
    if k == 0 {
      assert b == 0;
    } else if a == 0 || b == 0 {
    } else {
      var h := a * Pow2(k - 1);
      assert a * Pow2(k) == 2 * h;
      assert a * Pow2(k) != 0;
      assert (2 * h) / 2 == h && (2 * h) % 2 == 0;
      BitOrLowBits(a, b / 2, k - 1);
    }
  }

  /** The configuration asserted at start-up: the frames exactly fill memory and PAGE_SIZE is 2^PAGE_SHIFT. */
  lemma GeometryConsistent()
    ensures PAGE_COUNT * PAGE_SIZE == MEM_SIZE
    ensures Pow2(PAGE_SHIFT) == PAGE_SIZE
  {
    assert Pow2(2) == 4;
    assert Pow2(4) == 16;
    assert Pow2(6) == 64;
  }

  /**
   * `get_address`: `(page << PAGE_SHIFT) | offset`. For an in-page offset
   * the OR is the sum; GetAddressIsShiftOr proves both branches are the OR.
   */
  function GetAddress(page: nat, offset: nat): (addr: nat)
    ensures offset < PAGE_SIZE ==> addr / PAGE_SIZE == page && addr % PAGE_SIZE == offset
  {
    if offset < PAGE_SIZE then page * 256 + offset
    else BitOr(page * Pow2(PAGE_SHIFT), offset)
  }

  /** GetAddress is exactly the shift followed by the bitwise OR. */
  lemma GetAddressIsShiftOr(page: nat, offset: nat)
    ensures GetAddress(page, offset) == BitOr(page * Pow2(PAGE_SHIFT), offset)
  {
    GeometryConsistent();
    if offset < PAGE_SIZE {
      BitOrLowBits(page, offset, PAGE_SHIFT);
    }
  }

  /** `addr >> PAGE_SHIFT` (an arithmetic shift, i.e. floor division). */
  function PageOf(addr: int): int
  {
    addr / 256
  }

  /** `addr & 255`: the low byte in two's complement. */
  function OffsetOf(addr: int): (offset: int)
    ensures 0 <= offset < PAGE_SIZE
  {
    addr % 256
  }

  /** Splitting a composed address gives back its page and its offset. */
  lemma AddressSplit(page: nat, offset: nat)
    requires offset < PAGE_SIZE
    ensures PageOf(GetAddress(page, offset)) == page
    ensures OffsetOf(GetAddress(page, offset)) == offset
  {
  }

  /** Composing the two halves of a non-negative address gives back the address. */
  lemma AddressJoin(addr: nat)
    ensures PageOf(addr) >= 0
    ensures GetAddress(PageOf(addr), OffsetOf(addr)) == addr
  {
  }
}
