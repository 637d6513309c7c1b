/** The arithmetic by which the driver cuts a transfer into bus transactions:
    the capacity clamp and block split of readChunk, the page split of
    writeChunk, and the fixed-size pieces of the public read and write loops. */
module Plans {
  import opened Codec

  function Min(a: nat, b: nat): nat { if a < b then a else b }

  /** readChunk's clamp: the largest count, at most `n`, that ends inside the device. */
  function ReadClamp(fulladdr: u32, n: u8): (m: nat)
    requires fulladdr <= MaxAddr
    ensures m <= n && fulladdr + m <= Capacity
    ensures m == n || fulladdr + m == Capacity
  {
    if fulladdr + n > MaxAddr then Capacity - fulladdr else n
  }

  /** A read of `m` bytes from `fulladdr` runs from block 0 into block 1,
      which the device cannot follow with its own address counter. */
  predicate Straddles(fulladdr: nat, m: nat) {
    fulladdr < BlockSize && fulladdr + m > BlockSize
  }

  /** A clamped read that does not straddle stays inside one block. */
  lemma ReadInOneBlock(fulladdr: u32, n: u8)
    requires fulladdr <= MaxAddr && !Straddles(fulladdr, ReadClamp(fulladdr, n))
    ensures PageAddr(fulladdr) + ReadClamp(fulladdr, n) <= BlockSize
    ensures FullAddr(BlockNum(fulladdr), PageAddr(fulladdr)) == fulladdr
  {
    SplitJoin(fulladdr);
  }

  /** How writeChunk carries out a write of 1 to 128 bytes: one page write at the
      address itself, or two page writes, of `len1` bytes at `addr1` and then of
      `len2` bytes at `addr2`. */
  datatype WritePlan =
    | OnePage
    | TwoPages(addr1: u32, len1: nat, addr2: u32, len2: nat)

  /** writeChunk's split arithmetic, including the truncations to `uint8_t` and
      the 16-bit wrap of TO_PAGEADDR. A write running past the last byte of the
      device continues at address 0, as on the device. */
  function PlanWrite(fulladdr: u32, n: u8): (p: WritePlan)
    requires 1 <= n <= PageSize && fulladdr <= MaxAddr
    ensures p.TwoPages? ==>
      && p.addr1 == fulladdr
      && 1 <= p.len1 < PageSize && 1 <= p.len2 < PageSize
      && p.len1 + p.len2 == n
  {
    var pageaddr := PageAddr(fulladdr);
    var firstBlock := BlockNum(fulladdr);
    var secondBlock := BlockNum(fulladdr + n - 1);
    var firstPage := pageaddr / PageSize;
    var secondPage := PageAddr(pageaddr + n - 1) / PageSize;
    PlanWriteArith(fulladdr, n);
    if firstPage == secondPage && firstBlock == secondBlock then
      OnePage
    else
      var len1 := ((firstPage + 1) * PageSize - pageaddr) % 256;
      var len2 := (n - len1) % 256;
      assert FullAddr(secondBlock, secondPage * PageSize) == (fulladdr + len1) % Capacity;
      TwoPages(FullAddr(firstBlock, pageaddr), len1, FullAddr(secondBlock, secondPage * PageSize), len2)
  }

  /** A write is split exactly when it runs past the end of its page; the
      first part then fills the rest of that page and the second part starts
      at the beginning of the next page of the device, address 0 after the last. */
  lemma PlanWriteShape(fulladdr: u32, n: u8)
    requires 1 <= n <= PageSize && fulladdr <= MaxAddr
    ensures var p := PlanWrite(fulladdr, n);
      && (p.OnePage? <==> fulladdr % PageSize + n <= PageSize)
      && (p.TwoPages? ==>
            && (fulladdr + p.len1) % PageSize == 0
            && p.addr2 % PageSize == 0
            && p.addr2 == (fulladdr + p.len1) % Capacity)
  {
    PlanWriteArith(fulladdr, n);
  }

  /** The page and block numbers PlanWrite computes, in terms of the offset `r`
      of the address inside its page. */
  lemma PlanWriteArith(fulladdr: u32, n: u8)
    requires 1 <= n <= PageSize && fulladdr <= MaxAddr
    ensures var r := fulladdr % PageSize;
      var pageaddr := PageAddr(fulladdr);
      var firstPage := pageaddr / PageSize;
      var secondPage := PageAddr(pageaddr + n - 1) / PageSize;
      var secondBlock := BlockNum(fulladdr + n - 1);
      var len1 := ((firstPage + 1) * PageSize - pageaddr) % 256;
      && BlockNum(fulladdr) * BlockSize + pageaddr == fulladdr
      && (r + n <= PageSize ==> secondPage == firstPage && secondBlock == BlockNum(fulladdr))
      && (r + n > PageSize ==>
            && 1 <= r
            && secondPage != firstPage
            && len1 == PageSize - r
            && (n - len1) % 256 == n - len1
            && secondPage < 512
            && (fulladdr + len1) % PageSize == 0
            && secondBlock * BlockSize + secondPage * PageSize == (fulladdr + len1) % Capacity
            && ((fulladdr + len1) % Capacity) % PageSize == 0)
  {
    var q, r := fulladdr / 128, fulladdr % 128;
    var blk, fp := q / 512, q % 512;
    assert fulladdr == 65536 * blk + 128 * fp + r;
    if r + n <= 128 {
      PlanInPage(fulladdr, n, blk, fp, r);
    } else if fp < 511 {
      PlanCross(fulladdr, n, blk, fp, r, blk, fp + 1);
      PlanCrossSecond(fulladdr, n, blk, fp, r, blk, fp + 1);
    } else {
      PlanCross(fulladdr, n, blk, fp, r, blk + 1, 0);
      PlanCrossSecond(fulladdr, n, blk, fp, r, blk + 1, 0);
    }
  }

  /** PlanWriteArith for a write that stays in the page at offset `r` of page
      `fp` of block `blk`. */
  lemma PlanInPage(fulladdr: u32, n: u8, blk: nat, fp: nat, r: nat)
    requires 1 <= n <= PageSize && blk < 2 && fp < 512 && r < 128 && r + n <= 128
    requires fulladdr == 65536 * blk + 128 * fp + r
    ensures var pageaddr := PageAddr(fulladdr);
      && fulladdr % PageSize == r
      && BlockNum(fulladdr) * BlockSize + pageaddr == fulladdr
      && PageAddr(pageaddr + n - 1) / PageSize == pageaddr / PageSize
      && BlockNum(fulladdr + n - 1) == BlockNum(fulladdr)
  {
    AddrParts(fulladdr, blk, fp, r);
    AddrParts(fulladdr + n - 1, blk, fp, r + n - 1);
    AddrParts(128 * fp + r + n - 1, 0, fp, r + n - 1);
  }

  /** PlanWriteArith for a write that crosses from page `fp` of block `blk` into
      page `p1` of block `b1`, the page after it: the page numbers and lengths. */
  lemma PlanCross(fulladdr: u32, n: u8, blk: nat, fp: nat, r: nat, b1: nat, p1: nat)
    requires 1 <= n <= PageSize && blk < 2 && fp < 512 && r < 128 && r + n > 128
    requires fulladdr == 65536 * blk + 128 * fp + r
    requires p1 < 512 && b1 < 3 && 512 * b1 + p1 == 512 * blk + fp + 1
    ensures var pageaddr := PageAddr(fulladdr);
      var firstPage := pageaddr / PageSize;
      var secondPage := PageAddr(pageaddr + n - 1) / PageSize;
      var len1 := ((firstPage + 1) * PageSize - pageaddr) % 256;
      && fulladdr % PageSize == r
      && BlockNum(fulladdr) * BlockSize + pageaddr == fulladdr
      && 1 <= r
      && secondPage != firstPage
      && len1 == PageSize - r
      && (n - len1) % 256 == n - len1
      && secondPage < 512
  {
    AddrParts(fulladdr, blk, fp, r);
    if fp < 511 {
      AddrParts(128 * fp + r + n - 1, 0, fp + 1, r + n - 1 - 128);
    } else {
      AddrParts(128 * fp + r + n - 1, 1, 0, r + n - 1 - 128);
    }
    assert (fp + 1) * 128 - (128 * fp + r) == 128 - r;
  }

  /** PlanWriteArith for a crossing write: where the second part starts. */
  lemma PlanCrossSecond(fulladdr: u32, n: u8, blk: nat, fp: nat, r: nat, b1: nat, p1: nat)
    requires 1 <= n <= PageSize && blk < 2 && fp < 512 && r < 128 && r + n > 128
    requires fulladdr == 65536 * blk + 128 * fp + r
    requires p1 < 512 && b1 < 3 && 512 * b1 + p1 == 512 * blk + fp + 1
    ensures var pageaddr := PageAddr(fulladdr);
      var secondPage := PageAddr(pageaddr + n - 1) / PageSize;
      var secondBlock := BlockNum(fulladdr + n - 1);
      var e := fulladdr + (PageSize - r);
      && e % PageSize == 0
      && secondBlock * BlockSize + secondPage * PageSize == e % Capacity
      && (e % Capacity) % PageSize == 0
  {
    AddrParts(fulladdr, blk, fp, r);
    AddrParts(fulladdr + n - 1, b1, p1, r + n - 1 - 128);
    if fp < 511 {
      AddrParts(128 * fp + r + n - 1, 0, fp + 1, r + n - 1 - 128);
    } else {
      AddrParts(128 * fp + r + n - 1, 1, 0, r + n - 1 - 128);
    }
    assert fulladdr + (PageSize - r) == 65536 * b1 + 128 * p1;
    PageStartMod(b1, p1);
  }

  /** The start of page `p` of block `b`, taken modulo the capacity. */
  lemma PageStartMod(b: nat, p: nat)
    requires b < 3 && p < 512
    ensures var e := 65536 * b + 128 * p;
      e % PageSize == 0 && e % Capacity == 65536 * (b % 2) + 128 * p
      && (e % Capacity) % PageSize == 0
  {
    if b == 2 {
      assert 65536 * b + 128 * p == 131072 + 128 * p;
    }
  }

  /** Each part of a split write lies inside one page of the device. */
  lemma PlanWriteParts(fulladdr: u32, n: u8)
    requires 1 <= n <= PageSize && fulladdr <= MaxAddr
    ensures var p := PlanWrite(fulladdr, n);
      p.TwoPages? ==>
        && p.addr1 + p.len1 <= Capacity && p.addr2 + p.len2 <= Capacity
        && PageAddr(p.addr1) % PageSize + p.len1 <= PageSize
        && PageAddr(p.addr2) % PageSize + p.len2 <= PageSize
  {
    var p := PlanWrite(fulladdr, n);
    if p.TwoPages? {
      PlanWriteShape(fulladdr, n);
      var k := (fulladdr + p.len1) / PageSize;
      assert fulladdr + p.len1 == PageSize * k;
      assert k <= 1024;
      PageAddrInPage(p.addr1);
      var k2 := p.addr2 / PageSize;
      assert p.addr2 == PageSize * k2;
      assert k2 < 1024;
      PageAddrInPage(p.addr2);
    }
  }

  /** TO_PAGEADDR keeps the offset of an address inside its page. */
  lemma PageAddrInPage(addr: u32)
    ensures PageAddr(addr) % PageSize == addr % PageSize
  {
    var a, y := addr / 65536, addr % 65536;
    assert PageAddr(addr) == y;
    var b, z := y / 128, y % 128;
    assert addr == 128 * (512 * a + b) + z;
  }

  /** Within the device, the second part starts right where the first one ends. */
  lemma PlanWriteContiguous(fulladdr: u32, n: u8)
    requires 1 <= n <= PageSize && fulladdr + n <= Capacity
    ensures var p := PlanWrite(fulladdr, n);
      p.TwoPages? ==> p.addr2 == fulladdr + p.len1 && p.addr2 + p.len2 == fulladdr + n
  {
    var p := PlanWrite(fulladdr, n);
    if p.TwoPages? {
      PlanWriteShape(fulladdr, n);
      var e := fulladdr + p.len1;
      assert e < Capacity;
      assert e % Capacity == e;
    }
  }

  /** Past the end of the device, the second part wraps to address 0. */
  lemma PlanWriteWraps(fulladdr: u32, n: u8)
    requires 1 <= n <= PageSize && fulladdr <= MaxAddr && fulladdr + n > Capacity
    ensures var p := PlanWrite(fulladdr, n);
      p.TwoPages? && p.len1 == Capacity - fulladdr && p.addr2 == 0
  {
    var q, r := fulladdr / PageSize, fulladdr % PageSize;
    assert fulladdr == PageSize * q + r;
    assert q <= 1023;
    assert r + n > PageSize;
    var p := PlanWrite(fulladdr, n);
    PlanWriteShape(fulladdr, n);
    PlanWriteParts(fulladdr, n);
    var k := (fulladdr + p.len1) / PageSize;
    assert fulladdr + p.len1 == PageSize * k;
    assert k == 1024;
  }

  /** In the block, both parts together end where the whole write does. */
  lemma PlanWriteEnd(fulladdr: u32, n: u8)
    requires 1 <= n <= PageSize && fulladdr <= MaxAddr
    ensures var p := PlanWrite(fulladdr, n);
      p.TwoPages? ==> PageAddr(p.addr2 + p.len2) == PageAddr(fulladdr + n)
  {
    if fulladdr + n > Capacity {
      PlanWriteWraps(fulladdr, n);
      var p := PlanWrite(fulladdr, n);
      assert fulladdr + n == p.len2 + Capacity;
      PageAddrPeriodic(p.len2);
    } else {
      PlanWriteContiguous(fulladdr, n);
    }
  }

  /** The piece sizes of the public read and write loops: a read piece stays
      below the 255-byte limit of readChunk, a write piece is one page. */
  const ReadChunkSize: nat := 240
  const WriteChunkSize: nat := 128

  /** The public read and write loops' clamp, on 32-bit values: when `fulladdr + n`
      does not overflow, the span is cut at the end of the device. */
  function ClampTotal(fulladdr: u32, n: u32): (t: u32)
    ensures fulladdr <= MaxAddr && fulladdr + n < Two32 ==>
      t <= n && fulladdr + t <= Capacity && (t == n || fulladdr + t == Capacity)
    ensures fulladdr <= MaxAddr && fulladdr + n >= Two32 ==> t == n
  {
    if Add32(fulladdr, n) > MaxAddr then (Capacity - fulladdr) % Two32 else n
  }

  /** After one more piece of the write loop the count of bytes done is still
      a whole number of pieces, or the total. */
  lemma WritePieceStep(total: nat, done: nat)
    requires done < total && done % WriteChunkSize == 0
    ensures var next := done + Min(WriteChunkSize, total - done);
      next <= total && (next == total || next % WriteChunkSize == 0)
  {
  }

  /** The requests the public loops would make if every one succeeded: pieces of
      `size` bytes, the last one shorter. */
  function Chunks(total: nat, size: nat): seq<nat>
    requires size > 0
    decreases total
  {
    if total == 0 then [] else
      var c := Min(size, total);
      [c] + Chunks(total - c, size)
  }

  function Sum(cs: seq<nat>): nat {
    if cs == [] then 0 else cs[0] + Sum(cs[1..])
  }

  /** The pieces add up to the whole and each one is between 1 and `size` bytes. */
  lemma {:induction false} ChunksCover(total: nat, size: nat)
    requires size > 0
    ensures Sum(Chunks(total, size)) == total
    ensures forall i | 0 <= i < |Chunks(total, size)| :: 1 <= Chunks(total, size)[i] <= size
  {
    if total > 0 {
      var c := Min(size, total);
      ChunksCover(total - c, size);
    }
  }

  /** The k-th request is `Min(size, total - k * size)`, and the k requests before
      it add up to `k * size`. */
  lemma {:induction false} ChunkAt(total: nat, size: nat, k: nat)
    requires size > 0 && k * size < total
    ensures k < |Chunks(total, size)|
    ensures Chunks(total, size)[k] == Min(size, total - k * size)
    ensures Sum(Chunks(total, size)[..k]) == k * size
  {
    var cs := Chunks(total, size);
    if k > 0 {
      assert size < total;
      var rest := Chunks(total - size, size);
      assert cs == [size] + rest;
      ChunkAt(total - size, size, k - 1);
      assert (k - 1) * size == k * size - size;
      assert cs[..k] == [size] + rest[..k - 1];
      assert Sum(cs[..k]) == size + Sum(rest[..k - 1]);
    } else {
      assert cs[..0] == [];
    }
  }

  /** Sum distributes over appending one more piece. */
  lemma {:induction false} SumAppend(cs: seq<nat>, c: nat)
    ensures Sum(cs + [c]) == Sum(cs) + c
  {
    if cs == [] {
      assert [] + [c] == [c];
      assert [c][1..] == [];
    } else {
      assert (cs + [c])[1..] == cs[1..] + [c];
      SumAppend(cs[1..], c);
    }
  }

  /** After the first `k` requests, the remaining ones are the requests for
      what those `k` have not covered. */
  lemma {:induction false} ChunksDrop(total: nat, size: nat, k: nat)
    requires size > 0 && k <= |Chunks(total, size)|
    ensures Sum(Chunks(total, size)[..k]) <= total
    ensures Chunks(total, size)[k..] == Chunks(total - Sum(Chunks(total, size)[..k]), size)
  {
    var cs := Chunks(total, size);
    if k == 0 {
      assert cs[..0] == [];
      assert cs[0..] == cs;
    } else {
      var c := Min(size, total);
      var rest := Chunks(total - c, size);
      assert cs == [c] + rest;
      ChunksDrop(total - c, size, k - 1);
      assert cs[..k] == [c] + rest[..k - 1];
      assert ([c] + rest[..k - 1])[1..] == rest[..k - 1];
      assert cs[k..] == rest[k - 1..];
    }
  }

  /** The requests a loop has made so far for a span of `total` bytes: the
      first ones of `Chunks(total, size)`, covering `done` bytes. */
  ghost predicate RequestsSoFar(total: nat, size: nat, reqs: seq<nat>, done: nat)
    requires size > 0
  {
    |reqs| <= |Chunks(total, size)| && reqs == Chunks(total, size)[..|reqs|] && Sum(reqs) == done
  }

  /** The requests a finished loop has made: all of `Chunks(total, size)` when
      it returns the whole span `r == total`; otherwise the first ones, the
      last of which came back short and is not counted in `r`. */
  ghost predicate RequestsMade(total: nat, size: nat, reqs: seq<nat>, r: nat)
    requires size > 0
  {
    && |reqs| <= |Chunks(total, size)| && reqs == Chunks(total, size)[..|reqs|]
    && (r == total ==> reqs == Chunks(total, size))
    && (r < total ==> |reqs| > 0 && Sum(reqs) == r + reqs[|reqs| - 1])
  }

  /** The next request of the loop is the next piece, `Min(size, total - done)`. */
  lemma RequestsNext(total: nat, size: nat, reqs: seq<nat>, done: nat)
    requires size > 0 && RequestsSoFar(total, size, reqs, done) && done < total
    ensures RequestsSoFar(total, size, reqs + [Min(size, total - done)], done + Min(size, total - done))
  {
    var cs := Chunks(total, size);
    var k := |reqs|;
    ChunksDrop(total, size, k);
    assert cs[k..] == Chunks(total - done, size);
    assert cs[k..][0] == Min(size, total - done);
    assert cs[..k + 1] == reqs + [cs[k]];
    SumAppend(reqs, cs[k]);
  }

  /** A loop that has covered the whole span has made every request. */
  lemma RequestsAll(total: nat, size: nat, reqs: seq<nat>)
    requires size > 0 && RequestsSoFar(total, size, reqs, total)
    ensures RequestsMade(total, size, reqs, total)
  {
    var cs := Chunks(total, size);
    ChunksDrop(total, size, |reqs|);
    assert cs[|reqs|..] == [];
    assert cs == cs[..|reqs|] + cs[|reqs|..];
  }

  /** One request of a loop, of `want` bytes: `next` logs it, and either the
      loop goes on with the piece counted or it stops at this piece with what
      came before. The request is the next piece, `Min(size, total - done)`. */
  lemma RequestsStep(total: nat, size: nat, reqs: seq<nat>, done: nat, want: nat) returns (next: seq<nat>)
    requires size > 0 && RequestsSoFar(total, size, reqs, done) && done < total
    requires want == Min(size, total - done)
    ensures next == reqs + [want]
    ensures RequestsSoFar(total, size, next, done + want)
    ensures RequestsMade(total, size, next, done)
  {
    next := reqs + [want];
    RequestsNext(total, size, reqs, done);
  }
}
