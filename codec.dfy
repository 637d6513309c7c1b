/** Geometry of the 24XX1025 and the three address macros of the driver.
    The device holds 131072 bytes in two blocks of 65536; the block is chosen by
    a bit of the bus device address and only the low 16 bits of an address are
    sent on the bus. */
module Codec {

  type u8 = x: int | 0 <= x < 0x100
  type u16 = x: int | 0 <= x < 0x1_0000
  type u32 = x: int | 0 <= x < 0x1_0000_0000
  type byte = u8

  const BlockSize: nat := 65536
  const Capacity: nat := 131072
  const MaxAddr: nat := 131071
  const PageSize: nat := 128
  const Two32: nat := 0x1_0000_0000

  /** The shadow device pointer's "unknown" value. */
  const Sentinel: u32 := 0xffff_ffff

  /** Addition on a C `uint32_t`: the sum wraps around modulo 2^32. */
  function Add32(a: u32, b: nat): (r: u32)
    ensures a + b < Two32 ==> r == a + b
    ensures Two32 <= a + b < 2 * Two32 ==> r == a + b - Two32
  {
    (a + b) % Two32
  }

  /** Two successive 32-bit additions are one. */
  lemma Add32Add(a: u32, x: nat, y: nat)
    ensures Add32(Add32(a, x), y) == Add32(a, x + y)
  {
    var q := (a + x) / Two32;
    assert a + x == q * Two32 + Add32(a, x);
    assert Add32(a, x) + y == (a + x + y) - q * Two32;
  }

  /** Adding the same amount to two different 32-bit values keeps them different. */
  lemma Add32Injective(a: u32, b: u32, x: nat)
    requires Add32(a, x) == Add32(b, x)
    ensures a == b
  {
    var qa, qb := (a + x) / Two32, (b + x) / Two32;
    assert a + x == qa * Two32 + Add32(a, x);
    assert b + x == qb * Two32 + Add32(b, x);
    assert a - b == (qa - qb) * Two32;
  }

  /** BLOCKNUM: bit 16 of the address, `(addr & (1 << 16)) >> 16`. */
  function BlockNum(addr: u32): (b: u32)
    ensures b < 2
    ensures addr < Capacity ==> (b == 1 <==> addr >= BlockSize)
  {
    (addr / BlockSize) % 2
  }

  /** TO_PAGEADDR: the low 16 bits of the address, `addr & 0xffff`, as sent on the bus. */
  function PageAddr(addr: u32): (p: u32)
    ensures p < BlockSize
    ensures addr < BlockSize ==> p == addr
  {
    addr % BlockSize
  }

  /** TO_FULLADDR: the flat address of in-block address `page` of `block`,
      `(block << 16) | page`; the two bit fields do not overlap, so the OR is a sum. */
  function FullAddr(block: u32, page: u32): (a: u32)
    requires block < 2 && page < BlockSize
    ensures a < Capacity
    ensures a >= BlockSize <==> block == 1
  {
    block * BlockSize + page
  }

  /** Splitting a device address and joining it back gives the address. */
  lemma SplitJoin(addr: u32)
    requires addr < Capacity
    ensures BlockNum(addr) < 2 && PageAddr(addr) < BlockSize
    ensures FullAddr(BlockNum(addr), PageAddr(addr)) == addr
  {
  }

  /** On any 32-bit value the macros keep only the low 17 bits. */
  lemma SplitJoinAny(addr: u32)
    ensures FullAddr(BlockNum(addr), PageAddr(addr)) == addr % Capacity
  {
  }

  /** Joining a (block, in-block address) pair and splitting it back gives the pair. */
  lemma JoinSplit(block: u32, page: u32)
    requires block < 2 && page < BlockSize
    ensures BlockNum(FullAddr(block, page)) == block
    ensures PageAddr(FullAddr(block, page)) == page
  {
  }

  /** Moving `k` bytes on from an in-block address wraps within the block. */
  lemma PageAddrStep(block: u32, page: u32, k: nat)
    requires block < 2 && page < BlockSize && k <= BlockSize
    ensures PageAddr(FullAddr(block, page) + k) == (page + k) % BlockSize
  {
    var a := FullAddr(block, page);
    if page + k < BlockSize {
      assert a + k == block * BlockSize + (page + k);
    } else {
      assert a + k == (block + 1) * BlockSize + (page + k - BlockSize);
    }
  }

  /** The macros on an address given by its block, page and offset in the page
      (a block of 2 or 3 is what a sum past the end of the device produces). */
  lemma AddrParts(addr: u32, blk: nat, pg: nat, r: nat)
    requires blk < 4 && pg < 512 && r < 128 && addr == 65536 * blk + 128 * pg + r
    ensures BlockNum(addr) == blk % 2
    ensures PageAddr(addr) == 128 * pg + r
    ensures PageAddr(addr) / PageSize == pg
    ensures addr % PageSize == r
  {
    assert addr / 65536 == blk;
    assert addr % 65536 == 128 * pg + r;
    assert (128 * pg + r) / 128 == pg;
    assert addr % 128 == r;
  }

  /** An address and the same address one device capacity further on share
      their in-block address. */
  lemma PageAddrPeriodic(addr: nat)
    requires addr + Capacity < Two32
    ensures PageAddr(addr + Capacity) == PageAddr(addr)
  {
    var q := addr / BlockSize;
    assert addr == BlockSize * q + PageAddr(addr);
    assert addr + Capacity == BlockSize * (q + 2) + PageAddr(addr);
  }

  /** The in-block address of the next byte, as a 32-bit increment gives it. */
  lemma PageAddrSucc(addr: u32)
    ensures PageAddr(Add32(addr, 1)) == (PageAddr(addr) + 1) % BlockSize
  {
    var q, y := addr / 65536, addr % 65536;
    assert addr == 65536 * q + y;
    if addr + 1 < Two32 {
      if y + 1 < 65536 {
        assert addr + 1 == 65536 * q + (y + 1);
      } else {
        assert addr + 1 == 65536 * (q + 1);
      }
    }
  }
}
