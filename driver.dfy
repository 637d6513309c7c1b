/** The EEPROM_24XX1025 driver class: the chunk routines that cut a transfer into
    bus transactions, the public reads and writes built on them, and the two
    cursor fields every operation updates. */
module Driver {
  import opened Codec
  import opened Plans
  import opened Bus
  import opened Effects
  import opened LinearIO

  class Eeprom24xx1025 {
    /** The software cursor: where the next default-position operation starts. */
    var curpos: u32
    /** The driver's guess of the device's address counter, Sentinel if unknown. */
    var eepromPos: u32
    /** The device on the bus. */
    const dev: Device

    ghost predicate Valid()
      reads this, dev
    {
      dev.Valid()
    }

    ghost function Snapshot(): State
      reads this, dev
    {
      State(curpos, eepromPos, dev.mem, dev.ptr, dev.trace)
    }

    constructor (device: Device)
      requires device.Valid()
      ensures Valid() && dev == device
      ensures curpos == 0 && eepromPos == Sentinel
    {
      dev := device;
      curpos := 0;
      eepromPos := Sentinel;
    }

    /** readChunk: at most 255 bytes, clamped to the device, split in two bus
        reads where they cross from block 0 into block 1. */
    method ReadChunk(fulladdr: u32, data: array<byte>, off: nat, n: u8) returns (r: u8)
      requires Valid()
      requires 0 < n && fulladdr <= MaxAddr ==> off + ReadClamp(fulladdr, n) <= data.Length
      modifies this, dev, data
      ensures Valid()
      ensures ReadChunkEffect(old(Snapshot()), Snapshot(), old(data[..]), data[..], off, fulladdr, n, r)
    {
      if n == 0 || fulladdr > MaxAddr {
        return 0;
      }
      var m := ReadClamp(fulladdr, n);
      ghost var s0, d0 := Snapshot(), data[..];
      if Straddles(fulladdr, m) {
        r := ReadAcrossBlocks(fulladdr, data, off, n);
      } else {
        ReadInOneBlock(fulladdr, n);
        var block := BlockNum(fulladdr);
        var err := dev.Read(block, PageAddr(fulladdr), m, data, off);
        if err {
          eepromPos := Sentinel;
          r := 0;
        } else {
          eepromPos := Add32(eepromPos, m);
          curpos := Add32(curpos, m);
          r := m;
        }
        ReadOneBlockOutcome(s0, Snapshot(), d0, data[..], off, fulladdr, n, !err, r);
      }
    }

    /** readChunk's two bus reads for a read that crosses from block 0 into
        block 1: the first up to the end of block 0, the second from the start
        of block 1, each with its own device address. */
    method ReadAcrossBlocks(fulladdr: u32, data: array<byte>, off: nat, n: u8) returns (r: u8)
      requires Valid() && 0 < n && fulladdr <= MaxAddr && off + ReadClamp(fulladdr, n) <= data.Length
      requires Straddles(fulladdr, ReadClamp(fulladdr, n))
      modifies this, dev, data
      ensures Valid()
      ensures ReadChunkEffect(old(Snapshot()), Snapshot(), old(data[..]), data[..], off, fulladdr, n, r)
    {
      ghost var s0, d0 := Snapshot(), data[..];
      var m := ReadClamp(fulladdr, n);
      var first := BlockSize - fulladdr;
      var err := dev.Read(0, fulladdr, first, data, off);
      ghost var mid, d1 := Snapshot(), data[..];
      ghost var ok2 := false;
      if err {
        eepromPos := Sentinel;
        r := 0;
      } else {
        err := dev.Read(1, 0, m - first, data, off + first);
        ok2 := !err;
        if err {
          eepromPos := Sentinel;
          curpos := Add32(curpos, first);
          r := first;
        } else {
          eepromPos := FullAddr(1, m - first);
          curpos := Add32(curpos, m);
          r := m;
        }
      }
      ReadStraddleOutcome(s0, mid, Snapshot(), d0, d1, data[..], off, fulladdr, n, r > 0, ok2, r);
    }

    /** writeSinglePage: 1 to 128 bytes that stay inside one page, then the wait
        for the device's write cycle. */
    method WriteSinglePage(fulladdr: u32, data: array<byte>, off: nat, n: u8) returns (r: u8)
      requires Valid()
      requires 1 <= n <= PageSize ==> off + n <= data.Length && PageAddr(fulladdr) % PageSize + n <= PageSize
      modifies this, dev
      ensures Valid()
      ensures PageWriteEffect(old(Snapshot()), Snapshot(), fulladdr, data[..], off, n, r)
    {
      if n == 0 || n > PageSize {
        return 0;
      }
      var block := BlockNum(fulladdr);
      var err := dev.Write(block, PageAddr(fulladdr), data[off..off + n]);
      if err {
        eepromPos := Sentinel;
        return 0;
      }
      eepromPos := Add32(eepromPos, n);
      curpos := Add32(curpos, n);
      PageAddrStep(block, PageAddr(fulladdr), n);
      dev.AwaitReady(block);
      return n;
    }

    /** writeChunk: 1 to 128 bytes anywhere, as one or two single-page writes. */
    method WriteChunk(fulladdr: u32, data: array<byte>, off: nat, n: u8) returns (r: u8)
      requires Valid()
      requires 1 <= n <= PageSize && fulladdr <= MaxAddr ==> off + n <= data.Length
      modifies this, dev
      ensures Valid()
      ensures ChunkWriteEffect(old(Snapshot()), Snapshot(), fulladdr, data[..], off, n, r)
    {
      if n == 0 || n > PageSize || fulladdr > MaxAddr {
        return 0;
      }
      match PlanWrite(fulladdr, n)
      case OnePage =>
        r := WriteSinglePage(fulladdr, data, off, n);
      case TwoPages(a1, l1, a2, l2) =>
        PlanWriteParts(fulladdr, n);
        r := WriteTwoPages(a1, l1, a2, l2, data, off);
    }

    /** writeChunk's two single-page writes for a write that crosses a page
        boundary; a failure of either one makes the result 0. */
    method WriteTwoPages(a1: u32, l1: u8, a2: u32, l2: u8, data: array<byte>, off: nat) returns (r: u8)
      requires Valid() && 1 <= l1 < PageSize && 1 <= l2 < PageSize && l1 + l2 <= PageSize
      requires a1 + l1 <= Capacity && a2 + l2 <= Capacity && off + l1 + l2 <= data.Length
      requires PageAddr(a1) % PageSize + l1 <= PageSize && PageAddr(a2) % PageSize + l2 <= PageSize
      modifies this, dev
      ensures Valid()
      ensures SplitWriteEffect(old(Snapshot()), Snapshot(), a1, l1, a2, l2, data[..], off, r)
    {
      ghost var s0, d := Snapshot(), data[..];
      var r1 := WriteSinglePage(a1, data, off, l1);
      ghost var mid := Snapshot();
      var r2: u8 := 0;
      r := 0;
      if r1 == l1 {
        assert data[..] == d;
        r2 := WriteSinglePage(a2, data, off + l1, l2);
        if r2 == l2 {
          r := l1 + l2;
        }
      }
      assert data[..] == d;
      SplitOutcome(s0, mid, Snapshot(), a1, l1, a2, l2, d, off, r1, r2, r);
    }

    /** read(): one byte at the cursor, without an address when the shadow
        pointer says the device's counter is already there. A failed bus read
        yields 0 and still moves the cursor; `ok` is the bus outcome. */
    method ReadByte() returns (b: byte, ghost ok: bool)
      requires Valid()
      modifies this, dev
      ensures Valid()
      ensures ByteReadEffect(old(Snapshot()), Snapshot(), ok, b)
    {
      var block := BlockNum(curpos);
      var err;
      if eepromPos != curpos {
        err, b := dev.ReadOne(block, Addressed(PageAddr(curpos)));
        eepromPos := curpos;
      } else {
        err, b := dev.ReadOne(block, Current);
      }
      ok := !err;
      curpos := Add32(curpos, 1);
      eepromPos := Add32(eepromPos, 1);
      if eepromPos == BlockSize {
        eepromPos := 0;
      }
      if curpos > MaxAddr {
        curpos := 0;
        eepromPos := Sentinel;
      }
    }

    /** write(byte): one byte at the cursor, then the wait for the write cycle. */
    method WriteByte(v: byte) returns (ok: bool)
      requires Valid()
      modifies this, dev
      ensures Valid()
      ensures ByteWriteEffect(old(Snapshot()), Snapshot(), v, ok)
    {
      var block := BlockNum(curpos);
      var err := dev.Write(block, PageAddr(curpos), [v]);
      if err {
        eepromPos := Sentinel;
        return false;
      }
      curpos := Add32(curpos, 1);
      eepromPos := curpos;
      if curpos > MaxAddr {
        curpos := 0;
        eepromPos := Sentinel;
      }
      dev.AwaitReady(block);
      return true;
    }

    /** read(fulladdr, data, n): up to 255 bytes in one readChunk, more in
        pieces of 240 bytes up to the end of the device, stopping at the first
        piece that comes back short. */
    method ReadAt(fulladdr: u32, data: array<byte>, n: u32) returns (r: u32, ghost extra: nat)
      requires Valid() && n <= data.Length
      modifies this, dev, data
      ensures Valid()
      ensures ReadAtEffect(old(Snapshot()), Snapshot(), old(data[..]), data[..], fulladdr, n, r, extra)
    {
      extra := 0;
      if n == 0 {
        return 0, 0;
      }
      if n <= ReadDirectMax {
        r := ReadChunk(fulladdr, data, 0, n);
        return;
      }
      ghost var reqs;
      r, extra, reqs := ReadPieces(fulladdr, data, n);
    }

    /** The loop of read(fulladdr, data, n) for more than 255 bytes; `reqs`
        are the sizes it asked readChunk for, in order. */
    method ReadPieces(fulladdr: u32, data: array<byte>, n: u32) returns (r: u32, ghost extra: nat, ghost reqs: seq<nat>)
      requires Valid() && ReadDirectMax < n <= data.Length
      modifies this, dev, data
      ensures Valid()
      ensures ReadLoopEffect(old(Snapshot()), Snapshot(), old(data[..]), data[..], fulladdr, n, r, extra)
      ensures RequestsMade(ClampTotal(fulladdr, n), ReadChunkSize, reqs, r)
    {
      ghost var s0, d0 := Snapshot(), data[..];
      var total := ClampTotal(fulladdr, n);
      var done: u32 := 0;
      reqs := [];
      ReadLoopStart(s0, d0, fulladdr, n);
      while done < total
        invariant Valid() && ReadLoopInv(s0, Snapshot(), d0, data[..], fulladdr, n, done)
        invariant RequestsSoFar(total, ReadChunkSize, reqs, done)
        decreases total - done
      {
        var want: u8 := Min(ReadChunkSize, total - done);
        reqs := RequestsStep(total, ReadChunkSize, reqs, done, want);
        ghost var sa, da := Snapshot(), data[..];
        var got := ReadChunk(Add32(fulladdr, done), data, done, want);
        ReadChunkFacts(sa, Snapshot(), da, data[..], done, Add32(fulladdr, done), want, got);
        ReadLoopNext(s0, sa, Snapshot(), d0, da, data[..], fulladdr, n, done, want, got);
        if got != want {
          return done, got, reqs;
        }
        done := done + got;
      }
      ReadLoopDone(s0, Snapshot(), d0, data[..], fulladdr, n, done);
      RequestsAll(total, ReadChunkSize, reqs);
      return done, 0, reqs;
    }

    /** read(data, n): read(fulladdr, data, n) at the cursor. */
    method ReadHere(data: array<byte>, n: u32) returns (r: u32, ghost extra: nat)
      requires Valid() && n <= data.Length
      modifies this, dev, data
      ensures Valid()
      ensures ReadAtEffect(old(Snapshot()), Snapshot(), old(data[..]), data[..], old(curpos), n, r, extra)
    {
      r, extra := ReadAt(curpos, data, n);
    }

    /** write(fulladdr, data, n): up to 128 bytes in one writeChunk, more in
        pieces of 128 bytes up to the end of the device, stopping at the first
        piece that fails. */
    method WriteAt(fulladdr: u32, data: array<byte>, n: u32) returns (r: u32, ghost extra: nat)
      requires Valid() && n <= data.Length
      modifies this, dev
      ensures Valid()
      ensures WriteAtEffect(old(Snapshot()), Snapshot(), data[..], fulladdr, n, r, extra)
    {
      extra := 0;
      if n == 0 {
        return 0, 0;
      }
      if n <= PageSize {
        r := WriteChunk(fulladdr, data, 0, n);
        return;
      }
      ghost var reqs;
      r, extra, reqs := WritePieces(fulladdr, data, n);
    }

    /** The loop of write(fulladdr, data, n) for more than 128 bytes; `reqs`
        are the sizes it asked writeChunk for, in order. */
    method WritePieces(fulladdr: u32, data: array<byte>, n: u32) returns (r: u32, ghost extra: nat, ghost reqs: seq<nat>)
      requires Valid() && PageSize < n <= data.Length
      modifies this, dev
      ensures Valid()
      ensures WriteLoopEffect(old(Snapshot()), Snapshot(), data[..], fulladdr, n, r, extra)
      ensures RequestsMade(ClampTotal(fulladdr, n), WriteChunkSize, reqs, r)
    {
      ghost var s0, d := Snapshot(), data[..];
      var total := ClampTotal(fulladdr, n);
      var done: u32 := 0;
      ghost var cur := s0;
      reqs := [];
      WriteLoopStart(s0, d, fulladdr, n);
      while done < total
        invariant Valid() && data[..] == d && cur == Snapshot()
        invariant WriteLoopInv(s0, cur, d, fulladdr, n, done)
        invariant RequestsSoFar(total, WriteChunkSize, reqs, done)
        decreases total - done
      {
        var want: u8 := Min(WriteChunkSize, total - done);
        reqs := RequestsStep(total, WriteChunkSize, reqs, done, want);
        var got, e := WritePiece(Add32(fulladdr, done), data, done, want);
        ghost var s1, dn := Snapshot(), data[..];
        WriteLoopNext(s0, cur, s1, d, dn, fulladdr, n, done, want, got, e);
        if got != want {
          return done, e, reqs;
        }
        done, cur := done + got, s1;
      }
      WriteLoopDone(s0, cur, d, fulladdr, n, done);
      RequestsAll(total, WriteChunkSize, reqs);
      return done, 0, reqs;
    }

    /** writeChunk as the write loop sees it: the outcome of ChunkWriteFacts,
        with the number `e` of bytes the cursor moved by. */
    method WritePiece(fulladdr: u32, data: array<byte>, off: nat, n: u8) returns (r: u8, ghost e: nat)
      requires Valid()
      requires 1 <= n <= PageSize && fulladdr <= MaxAddr ==> off + n <= data.Length
      modifies this, dev
      ensures Valid()
      ensures ChunkWriteOutcome(old(Snapshot()), Snapshot(), fulladdr, data[..], off, n, r, e)
    {
      ghost var s0 := Snapshot();
      r := WriteChunk(fulladdr, data, off, n);
      e := ChunkWriteFacts(s0, Snapshot(), fulladdr, data[..], off, n, r);
    }

    /** write(data, n): write(fulladdr, data, n) at the cursor. */
    method WriteHere(data: array<byte>, n: u32) returns (r: u32, ghost extra: nat)
      requires Valid() && n <= data.Length
      modifies this, dev
      ensures Valid()
      ensures WriteAtEffect(old(Snapshot()), Snapshot(), data[..], old(curpos), n, r, extra)
    {
      r, extra := WriteAt(curpos, data, n);
    }
  }
}
