/** The observable effect of the driver's public operations: reads and writes
    of any length, at an address or at the cursor, and the single-byte read and
    write with their cursor arithmetic. */
module LinearIO {
  import opened Codec
  import opened Plans
  import opened Bus
  import opened Effects

  /** The largest request a public read hands to readChunk in one piece. */
  const ReadDirectMax: nat := 255

  /** What the public read loop does with a request of `n > 255` bytes at
      `fulladdr`: `r` is the result and `extra` the bytes the cursor moved past
      in the piece that came up short, which the result does not count. */
  ghost predicate ReadLoopEffect(s0: State, s1: State, d0: seq<byte>, d1: seq<byte>,
                                 fulladdr: u32, n: u32, r: nat, extra: nat)
  {
    var t := ClampTotal(fulladdr, n);
    && |s0.mem| == Capacity && s1.mem == s0.mem && |d1| == |d0|
    && r <= t && (r == t || r % ReadChunkSize == 0)
    && (fulladdr > MaxAddr ==> r == 0 && s1 == s0 && d1 == d0)
    && (fulladdr <= MaxAddr ==> fulladdr + r <= Capacity && r <= |d0| && d1[..r] == s0.mem[fulladdr..fulladdr + r])
    && AgreeOutside(d0, d1, 0, Min(t, r + ReadChunkSize))
    && s1.curpos == Add32(s0.curpos, r + extra) && extra < ReadChunkSize && (r == t ==> extra == 0)
    && (fulladdr <= MaxAddr && fulladdr + n < Two32 && r < t ==> s1.eepromPos == Sentinel)
    && (fulladdr == s0.curpos && Coherent(s0) ==> Coherent(s1))
  }

  /** What read(fulladdr, data, n) does. */
  ghost predicate ReadAtEffect(s0: State, s1: State, d0: seq<byte>, d1: seq<byte>,
                               fulladdr: u32, n: u32, r: nat, extra: nat)
  {
    if n == 0 then r == 0 && s1 == s0 && d1 == d0
    else if n <= ReadDirectMax then ReadChunkEffect(s0, s1, d0, d1, 0, fulladdr, n, r) && extra == 0
    else ReadLoopEffect(s0, s1, d0, d1, fulladdr, n, r, extra)
  }

  /** What the public write loop does with a request of `n > 128` bytes of `d`
      at `fulladdr`. Inside the device the memory is the old one with the `r`
      bytes written at `fulladdr`, except where the piece that failed may have
      left some of its bytes. */
  ghost predicate WriteLoopEffect(s0: State, s1: State, d: seq<byte>, fulladdr: u32, n: u32, r: nat, extra: nat)
  {
    var t := ClampTotal(fulladdr, n);
    && |s0.mem| == Capacity && |s1.mem| == Capacity
    && r <= t && (r == t || r % WriteChunkSize == 0)
    && (fulladdr > MaxAddr ==> r == 0 && s1 == s0)
    && s1.curpos == Add32(s0.curpos, r + extra) && extra < WriteChunkSize && (r == t ==> extra == 0)
    && (fulladdr <= MaxAddr && fulladdr + n < Two32 ==>
          && fulladdr + r <= Capacity && r <= |d|
          && AgreeOutside(Splice(s0.mem, fulladdr, d[..r]), s1.mem, fulladdr + r,
                          fulladdr + Min(t, r + WriteChunkSize))
          && (r < t ==> s1.eepromPos == Sentinel))
    && (fulladdr == s0.curpos && Coherent(s0) ==> Coherent(s1))
  }

  /** What write(fulladdr, data, n) does. */
  ghost predicate WriteAtEffect(s0: State, s1: State, d: seq<byte>, fulladdr: u32, n: u32, r: nat, extra: nat)
  {
    if n == 0 then r == 0 && s1 == s0
    else if n <= PageSize then ChunkWriteEffect(s0, s1, fulladdr, d, 0, n, r) && |s0.mem| == Capacity
    else WriteLoopEffect(s0, s1, d, fulladdr, n, r, extra)
  }

  /** The single-byte read: addressed unless the shadow pointer equals the
      cursor, and the cursor and shadow pointer moved on by one whatever the
      outcome, the shadow pointer wrapping at the end of block 0 and both
      wrapping at the end of the device. `ok` is the bus outcome, `b` the byte. */
  ghost predicate ByteReadEffect(s0: State, s1: State, ok: bool, b: byte)
  {
    var c := s0.curpos;
    var addressed := s0.eepromPos != c;
    var at := if addressed then PageAddr(c) else s0.ptr;
    var c1 := Add32(c, 1);
    && |s0.mem| == Capacity && s1.mem == s0.mem
    && s1.curpos == (if c1 > MaxAddr then 0 else c1)
    && s1.eepromPos == (if c1 > MaxAddr then Sentinel else if c1 == BlockSize then 0 else c1)
    && s1.trace == s0.trace + [ReadTxn(BlockNum(c), if addressed then Addressed(PageAddr(c)) else Current, 1, ok)]
    && (ok ==> b == s0.mem[FullAddr(BlockNum(c), at)] && s1.ptr == (at + 1) % BlockSize)
    && (!ok ==> b == 0)
  }

  /** The single-byte write at the cursor, and the wait for its write cycle. */
  ghost predicate ByteWriteEffect(s0: State, s1: State, v: byte, ok: bool)
  {
    var c := s0.curpos;
    var blk, at := BlockNum(c), PageAddr(c);
    var a := FullAddr(blk, at);
    var c1 := Add32(c, 1);
    && |s0.mem| == Capacity && |s1.mem| == Capacity
    && (ok ==>
          && s1.mem == Splice(s0.mem, a, [v])
          && s1.ptr == (at + 1) % BlockSize
          && s1.curpos == (if c1 > MaxAddr then 0 else c1)
          && s1.eepromPos == (if c1 > MaxAddr then Sentinel else c1)
          && s1.trace == s0.trace + [WriteTxn(blk, at, 1, true), ReadyTxn(blk)])
    && (!ok ==>
          && AgreeOutside(s0.mem, s1.mem, a, a + 1)
          && s1.curpos == c && s1.eepromPos == Sentinel
          && s1.trace == s0.trace + [WriteTxn(blk, at, 1, false)])
  }

  /** A successful single-byte read returns the byte at the cursor (taken
      modulo the capacity) when it sends the address or when the shadow
      pointer is coherent, and leaves the shadow pointer coherent. */
  lemma ByteReadDelivers(s0: State, s1: State, b: byte)
    requires ByteReadEffect(s0, s1, true, b)
    requires s0.eepromPos != s0.curpos || Coherent(s0)
    ensures b == s0.mem[s0.curpos % Capacity]
    ensures Coherent(s1)
  {
    SplitJoinAny(s0.curpos);
    PageAddrSucc(s0.curpos);
  }

  /** A failed single-byte read still moves the shadow pointer along with the
      cursor, so the next single-byte read omits the address although the
      device's counter is unknown. */
  lemma ByteReadFailureKeepsShadow(s0: State, s1: State, b: byte)
    requires ByteReadEffect(s0, s1, false, b)
    requires s0.curpos < MaxAddr && s0.curpos + 1 != BlockSize
    ensures b == 0 && s1.eepromPos == s1.curpos == s0.curpos + 1
  {
  }

  /** A successful single-byte write stores the byte at the cursor and nowhere
      else, and leaves the shadow pointer coherent; after a failure the shadow
      pointer is unknown, which is coherent unless the cursor itself holds the
      sentinel value. */
  lemma ByteWriteStores(s0: State, s1: State, v: byte, ok: bool)
    requires ByteWriteEffect(s0, s1, v, ok)
    ensures ok ==> s1.mem[s0.curpos % Capacity] == v
    ensures ok ==> forall i | 0 <= i < Capacity && i != s0.curpos % Capacity :: s1.mem[i] == s0.mem[i]
    ensures ok || s0.curpos != Sentinel ==> Coherent(s1)
  {
    SplitJoinAny(s0.curpos);
    PageAddrSucc(s0.curpos);
  }

  /** Reading the last byte of the device wraps the cursor to 0 and sets the
      shadow pointer to unknown, whatever the outcome of the bus read. */
  lemma ByteReadWraps(s0: State, s1: State, ok: bool, b: byte)
    requires s0.curpos == MaxAddr && ByteReadEffect(s0, s1, ok, b)
    ensures s1.curpos == 0 && s1.eepromPos == Sentinel
  {
  }

  /** Writing the last byte of the device wraps the cursor to 0 and sets the
      shadow pointer to unknown. */
  lemma ByteWriteWraps(s0: State, s1: State, v: byte)
    requires s0.curpos == MaxAddr && ByteWriteEffect(s0, s1, v, true)
    ensures s1.curpos == 0 && s1.eepromPos == Sentinel
  {
  }

  /** After a single-byte read, whatever its outcome, the cursor is an address
      of the device. */
  lemma ByteReadInDevice(s0: State, s1: State, ok: bool, b: byte)
    requires ByteReadEffect(s0, s1, ok, b)
    ensures s1.curpos <= MaxAddr
  {
  }

  /** After a single-byte write that lands, the cursor is an address of the device. */
  lemma ByteWriteInDevice(s0: State, s1: State, v: byte)
    requires ByteWriteEffect(s0, s1, v, true)
    ensures s1.curpos <= MaxAddr
  {
  }

  /** An explicit-address read away from the cursor, followed by a single-byte
      read: the byte read comes from where the chunk read ended, not from the
      cursor. With the cursor and the shadow pointer at 1, ten bytes read at
      1000 leave both at 11, so the single-byte read leaves out the address
      and returns the byte at 1010. */
  lemma ReadAwayThenReadByte(s0: State, s1: State, s2: State, d0: seq<byte>, d1: seq<byte>, r: nat, b: byte)
    requires s0.curpos == 1 && s0.eepromPos == 1 && |s0.mem| == Capacity && |d0| >= 10
    requires ReadChunkEffect(s0, s1, d0, d1, 0, 1000, 10, r) && r == 10
    requires ByteReadEffect(s1, s2, true, b)
    ensures s2.trace[|s2.trace| - 1] == ReadTxn(0, Current, 1, true)
    ensures b == s0.mem[1010]
  {
    ReadChunkAwayIncoherent(s0, s1, d0, d1, r);
  }

  /** The public write of `n` bytes at `a`, when it writes them all inside the
      device, leaves them at `a` to `a + n - 1`. */
  lemma WriteAtStores(s0: State, s1: State, d: seq<byte>, a: u32, n: u32, e: nat)
    requires a + n <= Capacity && |s0.mem| == Capacity && WriteAtEffect(s0, s1, d, a, n, n, e)
    ensures n <= |d| && |s1.mem| == Capacity
    ensures s1.mem[a..a + n] == d[..n]
  {
    if n == 0 {
    } else if n <= PageSize {
      ChunkWriteMemory(s0, s1, a, d, 0, n, n);
      assert d[0..n] == d[..n];
    } else {
      var t := ClampTotal(a, n);
      assert t == n;
      var m := Splice(s0.mem, a, d[..n]);
      assert AgreeOutside(m, s1.mem, a + n, a + n);
      assert s1.mem == m;
    }
  }

  /** The public read of `n` bytes at `a`, when it reads them all, delivers
      the device's bytes at `a` to `a + n - 1`. */
  lemma ReadAtDelivers(s0: State, s1: State, d0: seq<byte>, d1: seq<byte>, a: u32, n: u32, e: nat)
    requires a + n <= Capacity && |s0.mem| == Capacity && ReadAtEffect(s0, s1, d0, d1, a, n, n, e)
    ensures n <= |d1|
    ensures d1[..n] == s0.mem[a..a + n]
  {
    if n == 0 {
    } else if n <= ReadDirectMax {
      assert ReadClamp(a, n) == n;
      assert d1[0..n] == d1[..n];
    } else {
      assert ClampTotal(a, n) == n;
    }
  }

  /** Writing a span inside the device and reading it back, when no bus
      transfer fails, gives the bytes written. */
  lemma RoundTrip(s0: State, s1: State, s2: State, d: seq<byte>, b0: seq<byte>, b1: seq<byte>,
                  a: u32, n: u32, e: nat, e2: nat)
    requires a + n <= Capacity && |s0.mem| == Capacity
    requires WriteAtEffect(s0, s1, d, a, n, n, e)
    requires ReadAtEffect(s1, s2, b0, b1, a, n, n, e2)
    ensures n <= |d| && n <= |b1|
    ensures b1[..n] == d[..n]
  {
    WriteAtStores(s0, s1, d, a, n, e);
    ReadAtDelivers(s1, s2, b0, b1, a, n, e2);
  }

  /** The state of the public read loop after `done` bytes have been read. */
  ghost predicate ReadLoopInv(s0: State, s: State, d0: seq<byte>, d: seq<byte>, fulladdr: u32, n: u32, done: nat)
  {
    var t := ClampTotal(fulladdr, n);
    && |s0.mem| == Capacity && s.mem == s0.mem && |d| == |d0| && ReadDirectMax < n <= |d0|
    && done <= t && (done == t || done % ReadChunkSize == 0)
    && (done < t ==> done + Min(ReadChunkSize, t - done) <= |d0|)
    && (fulladdr > MaxAddr ==> done == 0 && s == s0 && d == d0)
    && (fulladdr <= MaxAddr ==> fulladdr + done <= Capacity && d[..done] == s0.mem[fulladdr..fulladdr + done])
    && AgreeOutside(d0, d, 0, done)
    && s.curpos == Add32(s0.curpos, done)
    && (fulladdr == s0.curpos && Coherent(s0) ==> Coherent(s))
  }

  /** The read loop starts with nothing read. */
  lemma ReadLoopStart(s0: State, d0: seq<byte>, fulladdr: u32, n: u32)
    requires |s0.mem| == Capacity && ReadDirectMax < n <= |d0|
    ensures ReadLoopInv(s0, s0, d0, d0, fulladdr, n, 0)
  {
    var t := ClampTotal(fulladdr, n);
    if fulladdr <= MaxAddr {
      assert t <= n;
    }
  }

  /** One turn of the read loop: the piece comes back whole and the loop goes
      on, or it comes back short and the loop ends with what came before it. */
  lemma ReadLoopNext(s0: State, sa: State, s1: State, d0: seq<byte>, da: seq<byte>, d1: seq<byte>,
                     fulladdr: u32, n: u32, done: nat, want: u8, got: nat)
    requires ReadLoopInv(s0, sa, d0, da, fulladdr, n, done)
    requires done < ClampTotal(fulladdr, n) && want == Min(ReadChunkSize, ClampTotal(fulladdr, n) - done)
    requires ReadChunkOutcome(sa, s1, da, d1, done, Add32(fulladdr, done), want, got)
    ensures got == want ==> ReadLoopInv(s0, s1, d0, d1, fulladdr, n, done + got)
    ensures got != want ==> ReadLoopEffect(s0, s1, d0, d1, fulladdr, n, done, got)
  {
    if got == want {
      ReadLoopStep(s0, sa, s1, d0, da, d1, fulladdr, n, done, want, got);
    } else {
      ReadLoopStop(s0, sa, s1, d0, da, d1, fulladdr, n, done, want, got);
    }
  }

  /** A piece that comes back whole extends what the read loop has read. */
  lemma ReadLoopStep(s0: State, sa: State, s1: State, d0: seq<byte>, da: seq<byte>, d1: seq<byte>,
                     fulladdr: u32, n: u32, done: nat, want: u8, got: nat)
    requires ReadLoopInv(s0, sa, d0, da, fulladdr, n, done)
    requires done < ClampTotal(fulladdr, n) && want == Min(ReadChunkSize, ClampTotal(fulladdr, n) - done)
    requires ReadChunkOutcome(sa, s1, da, d1, done, Add32(fulladdr, done), want, got) && got == want
    ensures ReadLoopInv(s0, s1, d0, d1, fulladdr, n, done + got)
  {
    var t := ClampTotal(fulladdr, n);
    var a := Add32(fulladdr, done);
    if fulladdr <= MaxAddr {
      assert a == fulladdr + done;
      PrefixExtend(da, d1, s0.mem, fulladdr, done, got, want);
    }
    AgreeOutsideTrans(d0, da, d1, 0, done, done, done + want, 0, done + got);
    Add32Add(s0.curpos, done, got);
  }

  /** A piece that comes back short ends the read loop with what came before it. */
  lemma ReadLoopStop(s0: State, sa: State, s1: State, d0: seq<byte>, da: seq<byte>, d1: seq<byte>,
                     fulladdr: u32, n: u32, done: nat, want: u8, got: nat)
    requires ReadLoopInv(s0, sa, d0, da, fulladdr, n, done)
    requires done < ClampTotal(fulladdr, n) && want == Min(ReadChunkSize, ClampTotal(fulladdr, n) - done)
    requires ReadChunkOutcome(sa, s1, da, d1, done, Add32(fulladdr, done), want, got) && got != want
    ensures ReadLoopEffect(s0, s1, d0, d1, fulladdr, n, done, got)
  {
    var t := ClampTotal(fulladdr, n);
    var a := Add32(fulladdr, done);
    AgreeOutsideSlice(da, d1, done, done + want, 0, done);
    AgreeOutsideTrans(d0, da, d1, 0, done, done, done + want, 0, done + want);
    Add32Add(s0.curpos, done, got);
    if fulladdr <= MaxAddr {
      assert a == fulladdr + done;
    }
  }

  /** A read loop that has read the whole span has the effect of the whole read. */
  lemma ReadLoopDone(s0: State, s: State, d0: seq<byte>, d: seq<byte>, fulladdr: u32, n: u32, done: nat)
    requires ReadLoopInv(s0, s, d0, d, fulladdr, n, done) && done == ClampTotal(fulladdr, n)
    ensures ReadLoopEffect(s0, s, d0, d, fulladdr, n, done, 0)
  {
  }

  /** The state of the public write loop after `done` bytes have been written:
      how far the count has got, what the device holds, and where the cursor is. */
  ghost predicate WriteLoopInv(s0: State, s: State, d: seq<byte>, fulladdr: u32, n: u32, done: nat)
  {
    && WriteLoopCount(d, fulladdr, n, done)
    && WriteLoopMemory(s0, s, d, fulladdr, n, done)
    && WriteLoopCursor(s0, s, fulladdr, done)
  }

  /** `done` is a whole number of pieces, or the total, and the next piece is in `d`. */
  ghost predicate WriteLoopCount(d: seq<byte>, fulladdr: u32, n: u32, done: nat)
  {
    var t := ClampTotal(fulladdr, n);
    && PageSize < n <= |d|
    && done <= t && (done == t || done % WriteChunkSize == 0)
    && (done < t ==> done + Min(WriteChunkSize, t - done) <= |d|)
  }

  /** The first `done` bytes of `d` are on the device and nothing else has changed. */
  ghost predicate WriteLoopMemory(s0: State, s: State, d: seq<byte>, fulladdr: u32, n: u32, done: nat)
  {
    && |s0.mem| == Capacity && |s.mem| == Capacity
    && (fulladdr > MaxAddr ==> done == 0 && s == s0)
    && (fulladdr <= MaxAddr && fulladdr + n < Two32 ==>
          fulladdr + done <= Capacity && done <= |d| && s.mem == Splice(s0.mem, fulladdr, d[..done]))
  }

  /** The cursor has moved by `done`, and a write at the cursor has kept the
      shadow pointer coherent. */
  ghost predicate WriteLoopCursor(s0: State, s: State, fulladdr: u32, done: nat)
  {
    && s.curpos == Add32(s0.curpos, done)
    && (fulladdr == s0.curpos && Coherent(s0) ==> Coherent(s))
  }

  /** The write loop starts with nothing written. */
  lemma WriteLoopStart(s0: State, d: seq<byte>, fulladdr: u32, n: u32)
    requires |s0.mem| == Capacity && PageSize < n <= |d|
    ensures WriteLoopInv(s0, s0, d, fulladdr, n, 0)
  {
    var t := ClampTotal(fulladdr, n);
    if fulladdr <= MaxAddr {
      assert t <= n;
      assert Splice(s0.mem, fulladdr, d[..0]) == s0.mem;
    }
  }

  /** One turn of the write loop: the piece lands and the loop goes on, or it
      fails and the loop ends with what came before it. */
  lemma WriteLoopNext(s0: State, sa: State, s1: State, d: seq<byte>, dn: seq<byte>, fulladdr: u32, n: u32,
                      done: nat, want: u8, got: nat, e: nat)
    requires WriteLoopInv(s0, sa, d, fulladdr, n, done) && dn == d
    requires done < ClampTotal(fulladdr, n) && want == Min(WriteChunkSize, ClampTotal(fulladdr, n) - done)
    requires ChunkWriteOutcome(sa, s1, Add32(fulladdr, done), dn, done, want, got, e)
    ensures got == want ==> WriteLoopInv(s0, s1, d, fulladdr, n, done + got)
    ensures got != want ==> WriteLoopEffect(s0, s1, d, fulladdr, n, done, e)
  {
    if got == want {
      WriteLoopStep(s0, sa, s1, d, fulladdr, n, done, want, got, e);
    } else {
      WriteLoopStop(s0, sa, s1, d, fulladdr, n, done, want, got, e);
    }
  }

  /** A piece that lands extends what the write loop has written. */
  lemma WriteLoopStep(s0: State, sa: State, s1: State, d: seq<byte>, fulladdr: u32, n: u32,
                      done: nat, want: u8, got: nat, e: nat)
    requires WriteLoopInv(s0, sa, d, fulladdr, n, done)
    requires done < ClampTotal(fulladdr, n) && want == Min(WriteChunkSize, ClampTotal(fulladdr, n) - done)
    requires ChunkWriteOutcome(sa, s1, Add32(fulladdr, done), d, done, want, got, e) && got == want
    ensures WriteLoopInv(s0, s1, d, fulladdr, n, done + got)
  {
    WriteCountStep(d, fulladdr, n, done, want);
    WriteMemoryStep(s0, sa, s1, d, fulladdr, n, done, want, got, e);
    WriteCursorStep(s0, sa, s1, d, fulladdr, done, want, got, e);
  }

  /** The count after a piece that lands. */
  lemma WriteCountStep(d: seq<byte>, fulladdr: u32, n: u32, done: nat, want: u8)
    requires WriteLoopCount(d, fulladdr, n, done) && fulladdr <= MaxAddr
    requires done < ClampTotal(fulladdr, n) && want == Min(WriteChunkSize, ClampTotal(fulladdr, n) - done)
    ensures WriteLoopCount(d, fulladdr, n, done + want)
  {
    WritePieceStep(ClampTotal(fulladdr, n), done);
  }

  /** The device after a piece that lands. */
  lemma WriteMemoryStep(s0: State, sa: State, s1: State, d: seq<byte>, fulladdr: u32, n: u32,
                        done: nat, want: u8, got: nat, e: nat)
    requires WriteLoopCount(d, fulladdr, n, done) && WriteLoopMemory(s0, sa, d, fulladdr, n, done)
    requires done < ClampTotal(fulladdr, n) && want == Min(WriteChunkSize, ClampTotal(fulladdr, n) - done)
    requires ChunkWriteOutcome(sa, s1, Add32(fulladdr, done), d, done, want, got, e) && got == want
    ensures WriteLoopMemory(s0, s1, d, fulladdr, n, done + got)
  {
    if fulladdr <= MaxAddr && fulladdr + n < Two32 {
      var a := Add32(fulladdr, done);
      assert a == fulladdr + done && a + want <= Capacity;
      ChunkWriteLanded(sa, s1, a, d, done, want, got, e);
      SplicePrefixStep(s0.mem, fulladdr, d, done, got);
    }
  }

  /** The cursor after a piece that lands. */
  lemma WriteCursorStep(s0: State, sa: State, s1: State, d: seq<byte>, fulladdr: u32,
                        done: nat, want: u8, got: nat, e: nat)
    requires WriteLoopCursor(s0, sa, fulladdr, done)
    requires ChunkWriteOutcome(sa, s1, Add32(fulladdr, done), d, done, want, got, e) && got == want
    ensures WriteLoopCursor(s0, s1, fulladdr, done + got)
  {
    Add32Add(s0.curpos, done, got);
  }

  /** A piece that fails ends the write loop with what came before it. */
  lemma WriteLoopStop(s0: State, sa: State, s1: State, d: seq<byte>, fulladdr: u32, n: u32,
                      done: nat, want: u8, got: nat, extra: nat)
    requires WriteLoopInv(s0, sa, d, fulladdr, n, done)
    requires done < ClampTotal(fulladdr, n) && want == Min(WriteChunkSize, ClampTotal(fulladdr, n) - done)
    requires ChunkWriteOutcome(sa, s1, Add32(fulladdr, done), d, done, want, got, extra) && got != want
    ensures WriteLoopEffect(s0, s1, d, fulladdr, n, done, extra)
  {
    var a := Add32(fulladdr, done);
    Add32Add(s0.curpos, done, extra);
    if fulladdr <= MaxAddr && fulladdr + n < Two32 {
      assert a == fulladdr + done;
    }
  }

  /** A write loop that has written the whole span has the effect of the whole write. */
  lemma WriteLoopDone(s0: State, s: State, d: seq<byte>, fulladdr: u32, n: u32, done: nat)
    requires WriteLoopInv(s0, s, d, fulladdr, n, done) && done == ClampTotal(fulladdr, n)
    ensures WriteLoopEffect(s0, s, d, fulladdr, n, done, 0)
  {
    if fulladdr <= MaxAddr && fulladdr + n < Two32 {
      assert fulladdr + Min(done, done + WriteChunkSize) == fulladdr + done;
    }
  }
}
