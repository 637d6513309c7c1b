/** The observable effect of each chunk routine of the driver, stated on
    snapshots of the driver's fields and of the device, and the lemmas that
    assemble an effect from the outcomes of the bus transactions. */
module Effects {
  import opened Codec
  import opened Plans
  import opened Bus

  /** What an operation of the driver can change: the software cursor, the
      shadow device pointer, the device's memory and address counter, and the
      transactions on the bus. */
  datatype State = State(curpos: u32, eepromPos: u32, mem: seq<byte>, ptr: u16, trace: seq<Txn>)

  /** Where the shadow pointer equals the cursor, the device's counter does too;
      this is what entitles the single-byte read to leave the address out. */
  predicate Coherent(s: State) {
    s.eepromPos == s.curpos ==> s.ptr == PageAddr(s.curpos)
  }

  /** The bus reads readChunk issues for `m` bytes at `fulladdr`, given its result `r`. */
  function ReadTxns(fulladdr: nat, m: nat, r: nat): seq<Txn>
    requires fulladdr <= MaxAddr
  {
    if !Straddles(fulladdr, m) then
      [ReadTxn(BlockNum(fulladdr), Addressed(PageAddr(fulladdr)), m, r == m)]
    else
      var first := BlockSize - fulladdr;
      [ReadTxn(0, Addressed(fulladdr), first, r > 0)]
      + (if r > 0 then [ReadTxn(1, Addressed(0), m - first, r == m)] else [])
  }

  /** What readChunk does: `n` is the request, `d0`/`d1` the caller's buffer
      before and after, `off` where the bytes go in it, `r` the result. */
  ghost predicate ReadChunkEffect(s0: State, s1: State, d0: seq<byte>, d1: seq<byte>, off: nat,
                                  fulladdr: u32, n: u8, r: nat)
  {
    if n == 0 || fulladdr > MaxAddr then
      r == 0 && s1 == s0 && d1 == d0
    else
      var m := ReadClamp(fulladdr, n);
      var first := BlockSize - fulladdr;
      && |s0.mem| == Capacity && s1.mem == s0.mem
      && |d1| == |d0| && off + m <= |d0|
      && (r == 0 || r == m || (Straddles(fulladdr, m) && r == first))
      && d1[off..off + r] == s0.mem[fulladdr..fulladdr + r]
      && AgreeOutside(d0, d1, off, off + m)
      && s1.curpos == Add32(s0.curpos, r)
      && s1.eepromPos == (if r < m then Sentinel
                          else if Straddles(fulladdr, m) then FullAddr(1, m - first)
                          else Add32(s0.eepromPos, m))
      && (r == m ==> s1.ptr == PageAddr(fulladdr + m))
      && s1.trace == s0.trace + ReadTxns(fulladdr, m, r)
  }

  /** What writeSinglePage does with `n` bytes of `d` from `off`. */
  ghost predicate PageWriteEffect(s0: State, s1: State, fulladdr: u32, d: seq<byte>, off: nat, n: u8, r: nat)
  {
    if n == 0 || n > PageSize then
      r == 0 && s1 == s0
    else
      var block, at := BlockNum(fulladdr), PageAddr(fulladdr);
      && off + n <= |d| && at + n <= BlockSize && |s0.mem| == Capacity
      && var a := FullAddr(block, at);
      && (r == n || r == 0)
      && (r == n ==>
            && s1.mem == Splice(s0.mem, a, d[off..off + n])
            && s1.ptr == PageAddr(a + n)
            && s1.curpos == Add32(s0.curpos, n)
            && s1.eepromPos == Add32(s0.eepromPos, n)
            && s1.trace == s0.trace + [WriteTxn(block, at, n, true), ReadyTxn(block)])
      && (r == 0 ==>
            && AgreeOutside(s0.mem, s1.mem, a, a + n)
            && s1.curpos == s0.curpos
            && s1.eepromPos == Sentinel
            && s1.trace == s0.trace + [WriteTxn(block, at, n, false)])
  }

  /** What writeChunk does with `n` bytes of `d` from `off`. */
  ghost predicate ChunkWriteEffect(s0: State, s1: State, fulladdr: u32, d: seq<byte>, off: nat, n: u8, r: nat)
  {
    if n == 0 || n > PageSize || fulladdr > MaxAddr then
      r == 0 && s1 == s0
    else
      match PlanWrite(fulladdr, n)
      case OnePage => PageWriteEffect(s0, s1, fulladdr, d, off, n, r)
      case TwoPages(a1, l1, a2, l2) => SplitWriteEffect(s0, s1, a1, l1, a2, l2, d, off, r)
  }

  /** A write of `l1` bytes at `a1` followed by one of `l2` bytes at `a2`, both
      taken from `d` from `off` on. When the second part fails the result is 0,
      although the first part has landed and the cursor has moved past it. */
  ghost predicate SplitWriteEffect(s0: State, s1: State, a1: u32, l1: nat, a2: u32, l2: nat,
                                   d: seq<byte>, off: nat, r: nat)
  {
    && a1 + l1 <= Capacity && a2 + l2 <= Capacity && off + l1 + l2 <= |d| && |s0.mem| == Capacity
    && (r == 0 || r == l1 + l2)
    && var b1, p1, b2, p2 := BlockNum(a1), PageAddr(a1), BlockNum(a2), PageAddr(a2);
    && var m1 := Splice(s0.mem, a1, d[off..off + l1]);
    && (r == l1 + l2 ==>
          && s1.mem == Splice(m1, a2, d[off + l1..off + l1 + l2])
          && s1.ptr == PageAddr(a2 + l2)
          && s1.curpos == Add32(s0.curpos, l1 + l2)
          && s1.eepromPos == Add32(s0.eepromPos, l1 + l2)
          && s1.trace == s0.trace + [WriteTxn(b1, p1, l1, true), ReadyTxn(b1),
                                     WriteTxn(b2, p2, l2, true), ReadyTxn(b2)])
    && (r == 0 ==>
          && s1.eepromPos == Sentinel
          && ((&& s1.curpos == s0.curpos
               && AgreeOutside(s0.mem, s1.mem, a1, a1 + l1)
               && s1.trace == s0.trace + [WriteTxn(b1, p1, l1, false)])
           || (&& s1.curpos == Add32(s0.curpos, l1)
               && AgreeOutside(m1, s1.mem, a2, a2 + l2)
               && s1.trace == s0.trace + [WriteTxn(b1, p1, l1, true), ReadyTxn(b1),
                                          WriteTxn(b2, p2, l2, false)])))
  }

  /** A split write, from the outcomes `r1` and `r2` of its two page writes; the
      second one is made only when the first one lands. */
  lemma SplitOutcome(s0: State, mid: State, s1: State, a1: u32, l1: nat, a2: u32, l2: nat,
                     d: seq<byte>, off: nat, r1: nat, r2: nat, r: nat)
    requires 1 <= l1 < PageSize && 1 <= l2 < PageSize
    requires a1 + l1 <= Capacity && a2 + l2 <= Capacity && off + l1 + l2 <= |d| && |s0.mem| == Capacity
    requires PageWriteEffect(s0, mid, a1, d, off, l1, r1)
    requires r1 == l1 ==> PageWriteEffect(mid, s1, a2, d, off + l1, l2, r2)
    requires r1 != l1 ==> s1 == mid
    requires r == if r1 == l1 && r2 == l2 then l1 + l2 else 0
    ensures SplitWriteEffect(s0, s1, a1, l1, a2, l2, d, off, r)
  {
    if r1 != l1 {
      SplitFirstFails(s0, s1, a1, l1, a2, l2, d, off, r1);
    } else if r2 != l2 {
      SplitSecondFails(s0, mid, s1, a1, l1, a2, l2, d, off, r1, r2);
    } else {
      SplitBothLand(s0, mid, s1, a1, l1, a2, l2, d, off, r1, r2, r);
    }
  }

  /** A split write whose first page write fails. */
  lemma SplitFirstFails(s0: State, s1: State, a1: u32, l1: nat, a2: u32, l2: nat, d: seq<byte>, off: nat,
                        r1: nat)
    requires 1 <= l1 < PageSize && 1 <= l2 < PageSize
    requires a1 + l1 <= Capacity && a2 + l2 <= Capacity && off + l1 + l2 <= |d| && |s0.mem| == Capacity
    requires PageWriteEffect(s0, s1, a1, d, off, l1, r1) && r1 != l1
    ensures SplitWriteEffect(s0, s1, a1, l1, a2, l2, d, off, 0)
  {
    SplitJoin(a1);
  }

  /** A split write whose first page write lands and whose second one fails. */
  lemma SplitSecondFails(s0: State, mid: State, s1: State, a1: u32, l1: nat, a2: u32, l2: nat,
                         d: seq<byte>, off: nat, r1: nat, r2: nat)
    requires 1 <= l1 < PageSize && 1 <= l2 < PageSize
    requires a1 + l1 <= Capacity && a2 + l2 <= Capacity && off + l1 + l2 <= |d| && |s0.mem| == Capacity
    requires PageWriteEffect(s0, mid, a1, d, off, l1, r1) && r1 == l1
    requires PageWriteEffect(mid, s1, a2, d, off + l1, l2, r2) && r2 != l2
    ensures SplitWriteEffect(s0, s1, a1, l1, a2, l2, d, off, 0)
  {
    SplitJoin(a1);
    SplitJoin(a2);
  }

  /** A split write both of whose page writes land. */
  lemma SplitBothLand(s0: State, mid: State, s1: State, a1: u32, l1: nat, a2: u32, l2: nat,
                      d: seq<byte>, off: nat, r1: nat, r2: nat, r: nat)
    requires 1 <= l1 < PageSize && 1 <= l2 < PageSize
    requires a1 + l1 <= Capacity && a2 + l2 <= Capacity && off + l1 + l2 <= |d| && |s0.mem| == Capacity
    requires PageWriteEffect(s0, mid, a1, d, off, l1, r1) && r1 == l1
    requires PageWriteEffect(mid, s1, a2, d, off + l1, l2, r2) && r2 == l2
    requires r == l1 + l2
    ensures SplitWriteEffect(s0, s1, a1, l1, a2, l2, d, off, r)
  {
    SplitJoin(a1);
    SplitJoin(a2);
    Add32Add(s0.curpos, l1, l2);
    Add32Add(s0.eepromPos, l1, l2);
  }

  /** A readChunk that stays inside one block, from the outcome of its one bus read. */
  lemma ReadOneBlockOutcome(s0: State, s1: State, d0: seq<byte>, d1: seq<byte>, off: nat,
                            fulladdr: u32, n: u8, ok: bool, r: nat)
    requires 0 < n && fulladdr <= MaxAddr && |s0.mem| == Capacity
    requires var m := ReadClamp(fulladdr, n);
      && !Straddles(fulladdr, m) && off + m <= |d0|
      && s1.mem == s0.mem && AgreeOutside(d0, d1, off, off + m)
      && (ok ==> && d1[off..off + m] == s0.mem[fulladdr..fulladdr + m]
                 && s1.ptr == (PageAddr(fulladdr) + m) % BlockSize
                 && s1.curpos == Add32(s0.curpos, m) && s1.eepromPos == Add32(s0.eepromPos, m))
      && (!ok ==> s1.curpos == s0.curpos && s1.eepromPos == Sentinel)
      && s1.trace == s0.trace + [ReadTxn(BlockNum(fulladdr), Addressed(PageAddr(fulladdr)), m, ok)]
    requires r == if ok then ReadClamp(fulladdr, n) else 0
    ensures ReadChunkEffect(s0, s1, d0, d1, off, fulladdr, n, r)
  {
    var m := ReadClamp(fulladdr, n);
    assert d1[off..off] == [] == s0.mem[fulladdr..fulladdr];
  }

  /** A readChunk that crosses into block 1, from the outcomes `ok1` and `ok2` of
      its two bus reads: `mid` and `d1` are the state and the buffer between them. */
  lemma ReadStraddleOutcome(s0: State, mid: State, s1: State, d0: seq<byte>, d1: seq<byte>, d2: seq<byte>,
                            off: nat, fulladdr: u32, n: u8, ok1: bool, ok2: bool, r: nat)
    requires 0 < n && fulladdr <= MaxAddr && |s0.mem| == Capacity
    requires r == if !ok1 then 0 else if !ok2 then BlockSize - fulladdr else ReadClamp(fulladdr, n)
    requires var m := ReadClamp(fulladdr, n);
      var first := BlockSize - fulladdr;
      && Straddles(fulladdr, m) && off + m <= |d0|
      && mid.mem == s0.mem && mid.curpos == s0.curpos
      && AgreeOutside(d0, d1, off, off + first)
      && (ok1 ==> d1[off..off + first] == s0.mem[FullAddr(0, fulladdr)..FullAddr(0, fulladdr) + first])
      && mid.trace == s0.trace + [ReadTxn(0, Addressed(fulladdr), first, ok1)]
      && (!ok1 ==> && d2 == d1 && s1.mem == s0.mem && s1.trace == mid.trace
                   && s1.curpos == s0.curpos && s1.eepromPos == Sentinel)
      && (ok1 ==>
            && s1.mem == s0.mem
            && AgreeOutside(d1, d2, off + first, off + first + (m - first))
            && (ok2 ==> && d2[off + first..off + first + (m - first)]
                           == s0.mem[FullAddr(1, 0)..FullAddr(1, 0) + (m - first)]
                        && s1.ptr == (m - first) % BlockSize)
            && s1.trace == mid.trace + [ReadTxn(1, Addressed(0), m - first, ok2)]
            && s1.curpos == Add32(s0.curpos, if ok2 then m else first)
            && s1.eepromPos == (if ok2 then FullAddr(1, m - first) else Sentinel))
    ensures ReadChunkEffect(s0, s1, d0, d2, off, fulladdr, n, r)
  {
    var m := ReadClamp(fulladdr, n);
    var first := BlockSize - fulladdr;
    if !ok1 {
      StraddleFirstFails(s0, s1, d0, d2, off, fulladdr, n);
    } else {
      var t1, t2 := ReadTxn(0, Addressed(fulladdr), first, true), ReadTxn(1, Addressed(0), m - first, ok2);
      assert s1.trace == s0.trace + ([t1] + [t2]);
      AgreeOutsideSlice(d1, d2, off + first, off + m, off, off + first);
      AgreeOutsideTrans(d0, d1, d2, off, off + first, off + first, off + m, off, off + m);
      if ok2 {
        StraddleBothLand(s0, s1, d0, d2, off, fulladdr, n);
      } else {
        StraddleSecondFails(s0, s1, d0, d2, off, fulladdr, n);
      }
    }
  }

  /** The straddling read whose first bus read fails reads nothing. */
  lemma StraddleFirstFails(s0: State, s1: State, d0: seq<byte>, d1: seq<byte>, off: nat, fulladdr: u32, n: u8)
    requires 0 < n && fulladdr <= MaxAddr && |s0.mem| == Capacity
    requires var m := ReadClamp(fulladdr, n);
      var first := BlockSize - fulladdr;
      && Straddles(fulladdr, m) && off + m <= |d0|
      && AgreeOutside(d0, d1, off, off + first)
      && s1.mem == s0.mem && s1.curpos == s0.curpos && s1.eepromPos == Sentinel
      && s1.trace == s0.trace + [ReadTxn(0, Addressed(fulladdr), first, false)]
    ensures ReadChunkEffect(s0, s1, d0, d1, off, fulladdr, n, 0)
  {
    assert d1[off..off] == [] == s0.mem[fulladdr..fulladdr];
  }

  /** The straddling read whose second bus read fails reads the part in block 0. */
  lemma StraddleSecondFails(s0: State, s1: State, d0: seq<byte>, d1: seq<byte>, off: nat, fulladdr: u32, n: u8)
    requires 0 < n && fulladdr <= MaxAddr && |s0.mem| == Capacity
    requires var m := ReadClamp(fulladdr, n);
      var first := BlockSize - fulladdr;
      && Straddles(fulladdr, m) && off + m <= |d0|
      && AgreeOutside(d0, d1, off, off + m)
      && d1[off..off + first] == s0.mem[fulladdr..fulladdr + first]
      && s1.mem == s0.mem && s1.curpos == Add32(s0.curpos, first) && s1.eepromPos == Sentinel
      && s1.trace == s0.trace + [ReadTxn(0, Addressed(fulladdr), first, true),
                                 ReadTxn(1, Addressed(0), m - first, false)]
    ensures ReadChunkEffect(s0, s1, d0, d1, off, fulladdr, n, BlockSize - fulladdr)
  {
  }

  /** The straddling read both of whose bus reads succeed reads all of it, and
      leaves the device's counter just past it in block 1. */
  lemma StraddleBothLand(s0: State, s1: State, d0: seq<byte>, d1: seq<byte>, off: nat, fulladdr: u32, n: u8)
    requires 0 < n && fulladdr <= MaxAddr && |s0.mem| == Capacity
    requires var m := ReadClamp(fulladdr, n);
      var first := BlockSize - fulladdr;
      && Straddles(fulladdr, m) && off + m <= |d0|
      && AgreeOutside(d0, d1, off, off + m)
      && d1[off..off + first] == s0.mem[fulladdr..fulladdr + first]
      && d1[off + first..off + m] == s0.mem[BlockSize..fulladdr + m]
      && s1.mem == s0.mem && s1.ptr == (m - first) % BlockSize
      && s1.curpos == Add32(s0.curpos, m) && s1.eepromPos == FullAddr(1, m - first)
      && s1.trace == s0.trace + [ReadTxn(0, Addressed(fulladdr), first, true),
                                 ReadTxn(1, Addressed(0), m - first, true)]
    ensures ReadChunkEffect(s0, s1, d0, d1, off, fulladdr, n, ReadClamp(fulladdr, n))
  {
    var m := ReadClamp(fulladdr, n);
    var first := BlockSize - fulladdr;
    SliceJoin(d1, off, off + first, off + m);
    SliceJoin(s0.mem, fulladdr, BlockSize, fulladdr + m);
    PageAddrStep(1, 0, m - first);
  }

  /** What a caller of readChunk can rely on, whatever the outcome: the result
      never exceeds the request, the bytes it counts are the device's, the
      cursor moves by exactly the result, a short result inside the device sets
      the shadow pointer to unknown, and a read at the cursor keeps the shadow
      pointer coherent. */
  ghost predicate ReadChunkOutcome(s0: State, s1: State, d0: seq<byte>, d1: seq<byte>, off: nat,
                                   fulladdr: u32, n: u8, r: nat)
  {
    && |s0.mem| == Capacity && off + n <= |d0| && r <= n && s1.mem == s0.mem && |d1| == |d0|
    && s1.curpos == Add32(s0.curpos, r)
    && AgreeOutside(d0, d1, off, off + n)
    && (fulladdr > MaxAddr ==> r == 0 && s1 == s0 && d1 == d0)
    && (fulladdr <= MaxAddr ==> fulladdr + r <= Capacity && d1[off..off + r] == s0.mem[fulladdr..fulladdr + r])
    && (fulladdr + n <= Capacity && r < n ==> s1.eepromPos == Sentinel)
    && (fulladdr == s0.curpos && Coherent(s0) ==> Coherent(s1))
  }

  /** Every effect of readChunk has the outcome its callers rely on. */
  lemma ReadChunkFacts(s0: State, s1: State, d0: seq<byte>, d1: seq<byte>, off: nat,
                       fulladdr: u32, n: u8, r: nat)
    requires ReadChunkEffect(s0, s1, d0, d1, off, fulladdr, n, r)
    requires |s0.mem| == Capacity && off + n <= |d0|
    ensures ReadChunkOutcome(s0, s1, d0, d1, off, fulladdr, n, r)
  {
    if n > 0 && fulladdr <= MaxAddr {
      var m := ReadClamp(fulladdr, n);
      assert AgreeOutside(d0, d1, off, off + m);
      if fulladdr + n <= Capacity {
        assert m == n;
      }
    }
    if fulladdr == s0.curpos && Coherent(s0) {
      ReadChunkCoherent(s0, s1, d0, d1, off, fulladdr, n, r);
    }
  }

  /** A readChunk at the cursor leaves the shadow pointer coherent, whatever
      the outcome of its bus reads. */
  lemma ReadChunkCoherent(s0: State, s1: State, d0: seq<byte>, d1: seq<byte>, off: nat,
                          fulladdr: u32, n: u8, r: nat)
    requires ReadChunkEffect(s0, s1, d0, d1, off, fulladdr, n, r)
    requires fulladdr == s0.curpos && Coherent(s0)
    ensures Coherent(s1)
  {
    if n > 0 && fulladdr <= MaxAddr {
      var m := ReadClamp(fulladdr, n);
      if r == m && !Straddles(fulladdr, m) && s1.eepromPos == s1.curpos {
        Add32Injective(s0.eepromPos, s0.curpos, m);
      }
    }
  }

  /** A readChunk away from the cursor can leave the shadow pointer equal to
      the cursor while the device's counter is elsewhere: a later single-byte
      read then relies on a counter that does not point at the cursor. */
  lemma ReadChunkAwayIncoherent(s0: State, s1: State, d0: seq<byte>, d1: seq<byte>, r: nat)
    requires s0.curpos == 1 && s0.eepromPos == 1 && |s0.mem| == Capacity && |d0| >= 10
    requires ReadChunkEffect(s0, s1, d0, d1, 0, 1000, 10, r) && r == 10
    ensures s1.eepromPos == s1.curpos == 11
    ensures s1.ptr == 1010 && !Coherent(s1)
  {
  }

  /** What a caller of writeChunk can rely on: the result is all or nothing,
      the cursor moves by `e` bytes, all of them on success and fewer on
      failure, a failure sets the shadow pointer to unknown, inside the device
      the bytes land at `fulladdr` to `fulladdr + n - 1` or a failure changes
      nothing outside them, and a write at the cursor keeps the shadow pointer
      coherent. */
  ghost predicate ChunkWriteOutcome(s0: State, s1: State, fulladdr: u32, d: seq<byte>, off: nat, n: u8,
                                    r: nat, e: nat)
  {
    && |s0.mem| == Capacity && |s1.mem| == Capacity
    && (r == n ==> e == n)
    && (r != n ==> r == 0 && e < n)
    && s1.curpos == Add32(s0.curpos, e)
    && (n == 0 || n > PageSize || fulladdr > MaxAddr ==> r == 0 && s1 == s0)
    && (1 <= n <= PageSize && fulladdr <= MaxAddr && r != n ==> s1.eepromPos == Sentinel)
    && (1 <= n <= PageSize && fulladdr + n <= Capacity && off + n <= |d| ==>
          && (r == n ==> s1.mem == Splice(s0.mem, fulladdr, d[off..off + n]))
          && (r != n ==> AgreeOutside(s0.mem, s1.mem, fulladdr, fulladdr + n)))
    && (fulladdr == s0.curpos && Coherent(s0) ==> Coherent(s1))
  }

  /** A chunk write that lands inside the device has stored its bytes. */
  lemma ChunkWriteLanded(s0: State, s1: State, fulladdr: u32, d: seq<byte>, off: nat, n: u8,
                         r: nat, e: nat)
    requires ChunkWriteOutcome(s0, s1, fulladdr, d, off, n, r, e)
    requires 1 <= n <= PageSize && fulladdr + n <= Capacity && off + n <= |d| && r == n
    ensures s1.mem == Splice(s0.mem, fulladdr, d[off..off + n])
  {
  }

  /** Every effect of writeChunk has the outcome its callers rely on, for the
      number `e` of bytes the cursor moves by. */
  lemma ChunkWriteFacts(s0: State, s1: State, fulladdr: u32, d: seq<byte>, off: nat, n: u8, r: nat)
      returns (e: nat)
    requires ChunkWriteEffect(s0, s1, fulladdr, d, off, n, r) && |s0.mem| == Capacity
    ensures ChunkWriteOutcome(s0, s1, fulladdr, d, off, n, r, e)
  {
    e := ChunkWriteCursor(s0, s1, fulladdr, d, off, n, r);
    if 1 <= n <= PageSize && fulladdr + n <= Capacity && off + n <= |d| {
      ChunkWriteMemory(s0, s1, fulladdr, d, off, n, r);
    }
    if fulladdr == s0.curpos && Coherent(s0) {
      ChunkWriteCoherent(s0, s1, fulladdr, d, off, n, r);
    }
  }

  /** ChunkWriteFacts for the result, the cursor and the shadow pointer. */
  lemma ChunkWriteCursor(s0: State, s1: State, fulladdr: u32, d: seq<byte>, off: nat, n: u8, r: nat)
      returns (e: nat)
    requires ChunkWriteEffect(s0, s1, fulladdr, d, off, n, r) && |s0.mem| == Capacity
    ensures |s1.mem| == Capacity
    ensures r == n ==> e == n
    ensures r != n ==> r == 0 && e < n
    ensures s1.curpos == Add32(s0.curpos, e)
    ensures n > PageSize || fulladdr > MaxAddr ==> s1 == s0
    ensures 1 <= n <= PageSize && fulladdr <= MaxAddr && r != n ==> s1.eepromPos == Sentinel
  {
    e := 0;
    if 1 <= n <= PageSize && fulladdr <= MaxAddr {
      match PlanWrite(fulladdr, n)
      case OnePage =>
        e := r;
      case TwoPages(a1, l1, a2, l2) =>
        e := if r == n then n else if s1.curpos == s0.curpos then 0 else l1;
    }
  }

  /** Inside the device, a write that lands puts the bytes at `fulladdr` to
      `fulladdr + n - 1` and a write that fails changes nothing outside them. */
  lemma ChunkWriteMemory(s0: State, s1: State, fulladdr: u32, d: seq<byte>, off: nat, n: u8, r: nat)
    requires ChunkWriteEffect(s0, s1, fulladdr, d, off, n, r) && |s0.mem| == Capacity
    requires 1 <= n <= PageSize && fulladdr + n <= Capacity && off + n <= |d|
    ensures r == n ==> s1.mem == Splice(s0.mem, fulladdr, d[off..off + n])
    ensures r != n ==> AgreeOutside(s0.mem, s1.mem, fulladdr, fulladdr + n)
  {
    match PlanWrite(fulladdr, n)
    case OnePage =>
      SplitJoin(fulladdr);
    case TwoPages(a1, l1, a2, l2) =>
      PlanWriteContiguous(fulladdr, n);
      SplitWriteMemory(s0, s1, a1, l1, a2, l2, d, off, r);
  }

  /** ChunkWriteMemory for a split write whose second part follows the first. */
  lemma SplitWriteMemory(s0: State, s1: State, a1: u32, l1: nat, a2: u32, l2: nat,
                         d: seq<byte>, off: nat, r: nat)
    requires SplitWriteEffect(s0, s1, a1, l1, a2, l2, d, off, r) && a2 == a1 + l1
    ensures off + l1 + l2 <= |d|
    ensures r == l1 + l2 ==> s1.mem == Splice(s0.mem, a1, d[off..off + l1 + l2])
    ensures r != l1 + l2 ==> AgreeOutside(s0.mem, s1.mem, a1, a1 + l1 + l2)
  {
    if r == l1 + l2 {
      SpliceAdjacent(s0.mem, a1, d[off..off + l1], d[off + l1..off + l1 + l2]);
      SliceJoin(d, off, off + l1, off + l1 + l2);
    } else {
      SplitWriteFailMemory(s0, s1, a1, l1, a2, l2, d, off, r);
    }
  }

  /** SplitWriteMemory when one of the two parts fails. */
  lemma SplitWriteFailMemory(s0: State, s1: State, a1: u32, l1: nat, a2: u32, l2: nat,
                             d: seq<byte>, off: nat, r: nat)
    requires SplitWriteEffect(s0, s1, a1, l1, a2, l2, d, off, r) && a2 == a1 + l1 && r != l1 + l2
    ensures AgreeOutside(s0.mem, s1.mem, a1, a1 + l1 + l2)
  {
    if s1.curpos != s0.curpos {
      var m1 := Splice(s0.mem, a1, d[off..off + l1]);
      AgreeOutsideTrans(s0.mem, m1, s1.mem, a1, a1 + l1, a2, a2 + l2, a1, a1 + l1 + l2);
    }
  }

  /** A writeChunk at the cursor leaves the shadow pointer coherent, also when
      the write runs past the end of the device and continues at address 0. */
  lemma ChunkWriteCoherent(s0: State, s1: State, fulladdr: u32, d: seq<byte>, off: nat, n: u8, r: nat)
    requires ChunkWriteEffect(s0, s1, fulladdr, d, off, n, r) && |s0.mem| == Capacity
    requires fulladdr == s0.curpos && Coherent(s0)
    ensures Coherent(s1)
  {
    if 1 <= n <= PageSize && fulladdr <= MaxAddr {
      match PlanWrite(fulladdr, n)
      case OnePage =>
        PageWriteCoherent(s0, s1, fulladdr, d, off, n, r);
      case TwoPages(a1, l1, a2, l2) =>
        PlanWriteEnd(fulladdr, n);
        SplitWriteCoherent(s0, s1, a1, l1, a2, l2, d, off, r);
    }
  }

  /** ChunkWriteCoherent for a write inside one page. */
  lemma PageWriteCoherent(s0: State, s1: State, fulladdr: u32, d: seq<byte>, off: nat, n: u8, r: nat)
    requires PageWriteEffect(s0, s1, fulladdr, d, off, n, r) && 1 <= n <= PageSize
    requires fulladdr == s0.curpos && fulladdr <= MaxAddr
    ensures Coherent(s1)
  {
    SplitJoin(fulladdr);
    if r == n && s1.eepromPos == s1.curpos {
      Add32Injective(s0.eepromPos, s0.curpos, n);
    }
  }

  /** ChunkWriteCoherent for a split write at the cursor whose second part ends,
      in the block, where the whole write does. */
  lemma SplitWriteCoherent(s0: State, s1: State, a1: u32, l1: nat, a2: u32, l2: nat,
                           d: seq<byte>, off: nat, r: nat)
    requires SplitWriteEffect(s0, s1, a1, l1, a2, l2, d, off, r)
    requires a1 == s0.curpos && PageAddr(a2 + l2) == PageAddr(a1 + l1 + l2)
    ensures Coherent(s1)
  {
    if r == l1 + l2 && s1.eepromPos == s1.curpos {
      Add32Add(s0.curpos, l1, l2);
      Add32Add(s0.eepromPos, l1, l2);
      Add32Injective(s0.eepromPos, s0.curpos, l1 + l2);
    }
  }
}
