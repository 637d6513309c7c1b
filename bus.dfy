/** The I2C bus together with the 24XX1025 on it, as the driver sees them: bus
    transfers that either fail or move bytes between a caller's buffer and the
    device's memory. Whether a transfer fails is not up to the driver, so it is
    left open here; every transfer is recorded in a ghost trace so that the
    driver's contracts can say which transfers it issues, in which order. */
module Bus {
  import opened Codec

  /** How a bus read names its first byte: by an in-block address sent on the
      bus, or not at all, so that the device continues at its own counter. */
  datatype Addressing = Addressed(addr: nat) | Current

  /** One bus transaction, with the block selected in the device address byte. */
  datatype Txn =
    | ReadTxn(block: nat, at: Addressing, count: nat, ok: bool)
    | WriteTxn(block: nat, addr: nat, count: nat, ok: bool)
      /** Acknowledge polling until the device has finished its write cycle. */
    | ReadyTxn(block: nat)

  /** `m` with the bytes from `a` on replaced by `s`. */
  function Splice(m: seq<byte>, a: nat, s: seq<byte>): (r: seq<byte>)
    requires a + |s| <= |m|
    ensures |r| == |m|
    ensures r[a..a + |s|] == s
    ensures forall i | 0 <= i < |m| && !(a <= i < a + |s|) :: r[i] == m[i]
  {
    m[..a] + s + m[a + |s|..]
  }

  /** `m1` differs from `m0` at most in positions `lo` to `hi - 1`. */
  ghost predicate AgreeOutside(m0: seq<byte>, m1: seq<byte>, lo: nat, hi: nat) {
    |m1| == |m0| && forall i | 0 <= i < |m0| && !(lo <= i < hi) :: m1[i] == m0[i]
  }

  /** Two changes confined to ranges inside `lo` to `hi - 1` together change
      nothing outside that range. */
  lemma AgreeOutsideTrans(m0: seq<byte>, m1: seq<byte>, m2: seq<byte>, lo1: nat, hi1: nat, lo2: nat, hi2: nat,
                          lo: nat, hi: nat)
    requires AgreeOutside(m0, m1, lo1, hi1) && AgreeOutside(m1, m2, lo2, hi2)
    requires lo <= lo1 && hi1 <= hi && lo <= lo2 && hi2 <= hi
    ensures AgreeOutside(m0, m2, lo, hi)
  {
  }

  /** A slice that avoids the changed range is unchanged. */
  lemma AgreeOutsideSlice(m0: seq<byte>, m1: seq<byte>, lo: nat, hi: nat, a: nat, b: nat)
    requires AgreeOutside(m0, m1, lo, hi) && a <= b <= |m0| && (b <= lo || hi <= a)
    ensures m1[a..b] == m0[a..b]
  {
    assert forall i | 0 <= i < b - a :: m1[a..b][i] == m1[a + i];
  }

  /** Two splices side by side are one splice of both parts. */
  lemma SpliceAdjacent(m: seq<byte>, a: nat, s: seq<byte>, t: seq<byte>)
    requires a + |s| + |t| <= |m|
    ensures Splice(Splice(m, a, s), a + |s|, t) == Splice(m, a, s + t)
  {
    var l, r := Splice(Splice(m, a, s), a + |s|, t), Splice(m, a, s + t);
    forall i | 0 <= i < |m|
      ensures l[i] == r[i]
    {
      if a <= i < a + |s| {
        assert r[i] == (s + t)[i - a];
      } else if a + |s| <= i < a + |s| + |t| {
        assert l[i] == t[i - a - |s|];
        assert r[i] == (s + t)[i - a];
      }
    }
  }
  /** Splicing the first `k` bytes of `d` and then the next `g` splices the first `k + g`. */
  lemma SplicePrefixStep(m: seq<byte>, a: nat, d: seq<byte>, k: nat, g: nat)
    requires k + g <= |d| && a + k + g <= |m|
    ensures Splice(Splice(m, a, d[..k]), a + k, d[k..k + g]) == Splice(m, a, d[..k + g])
  {
    SpliceAdjacent(m, a, d[..k], d[k..k + g]);
    assert d[..k] + d[k..k + g] == d[..k + g];
  }


  /** A buffer that holds `m[a..a + k]` in its first `k` places and receives
      `m[a + k..a + k + g]` right after them, changing nothing else before
      `k + w`, then holds `m[a..a + k + g]`. */
  lemma PrefixExtend(d0: seq<byte>, d1: seq<byte>, m: seq<byte>, a: nat, k: nat, g: nat, w: nat)
    requires AgreeOutside(d0, d1, k, k + w) && g <= w && k + g <= |d0| && a + k + g <= |m|
    requires d0[..k] == m[a..a + k] && d1[k..k + g] == m[a + k..a + k + g]
    ensures d1[..k + g] == m[a..a + k + g]
  {
    AgreeOutsideSlice(d0, d1, k, k + w, 0, k);
    assert d1[..k + g] == d1[0..k] + d1[k..k + g];
    assert m[a..a + k + g] == m[a..a + k] + m[a + k..a + k + g];
  }

  /** Adjacent slices make up the slice that spans them. */
  lemma SliceJoin(s: seq<byte>, a: nat, b: nat, c: nat)
    requires a <= b <= c <= |s|
    ensures s[a..c] == s[a..b] + s[b..c]
  {
  }

  class Device {
    /** The 131072 bytes of the device. */
    var mem: seq<byte>
    /** The device's own address counter: the in-block address of the next byte
        a read without address returns. */
    var ptr: u16
    /** Every transaction issued on the bus so far. */
    ghost var trace: seq<Txn>

    ghost predicate Valid()
      reads this
    {
      |mem| == Capacity
    }

    constructor (contents: seq<byte>)
      requires |contents| == Capacity
      ensures Valid() && mem == contents && ptr == 0 && trace == []
    {
      mem := contents;
      ptr := 0;
      trace := [];
    }

    /** An addressed read of `count` bytes of `block`, from in-block address
        `addr`, into `data` from index `off` on. A failed read may have
        overwritten part of that range. */
    method Read(block: u32, addr: u32, count: nat, data: array<byte>, off: nat) returns (err: bool)
      requires Valid() && block < 2 && addr < BlockSize && addr + count <= BlockSize && off + count <= data.Length
      modifies this, data
      ensures Valid() && mem == old(mem)
      ensures !err ==> data[off..off + count] == mem[FullAddr(block, addr)..FullAddr(block, addr) + count]
      ensures !err ==> ptr == (addr + count) % BlockSize
      ensures AgreeOutside(old(data[..]), data[..], off, off + count)
      ensures trace == old(trace) + [ReadTxn(block, Addressed(addr), count, !err)]
    {
      err :| true;
      if !err {
        var base := FullAddr(block, addr);
        forall i | off <= i < off + count {
          data[i] := mem[base + (i - off)];
        }
        ptr := (addr + count) % BlockSize;
      }
      trace := trace + [ReadTxn(block, Addressed(addr), count, !err)];
    }

    /** A one-byte read of `block`, addressed or at the device's counter, and the
        byte it delivers. */
    method ReadOne(block: u32, at: Addressing) returns (err: bool, b: byte)
      requires Valid() && block < 2 && (at.Addressed? ==> at.addr < BlockSize)
      modifies this
      ensures Valid() && mem == old(mem)
      ensures var a := if at.Addressed? then at.addr else old(ptr);
        !err ==> b == mem[FullAddr(block, a)] && ptr == (a + 1) % BlockSize
      ensures err ==> b == 0
      ensures trace == old(trace) + [ReadTxn(block, at, 1, !err)]
    {
      err :| true;
      var a := if at.Addressed? then at.addr else ptr;
      b := 0;
      if !err {
        b := mem[FullAddr(block, a)];
        ptr := (a + 1) % BlockSize;
      }
      trace := trace + [ReadTxn(block, at, 1, !err)];
    }

    /** A write of `src` into `block` from in-block address `addr`. A failed
        write may have changed part of that range. */
    method Write(block: u32, addr: u32, src: seq<byte>) returns (err: bool)
      requires Valid() && block < 2 && addr < BlockSize && addr + |src| <= BlockSize
      modifies this
      ensures Valid()
      ensures !err ==> mem == Splice(old(mem), FullAddr(block, addr), src)
      ensures !err ==> ptr == (addr + |src|) % BlockSize
      ensures err ==> AgreeOutside(old(mem), mem, FullAddr(block, addr), FullAddr(block, addr) + |src|)
      ensures trace == old(trace) + [WriteTxn(block, addr, |src|, !err)]
    {
      err :| true;
      if !err {
        mem := Splice(mem, FullAddr(block, addr), src);
        ptr := (addr + |src|) % BlockSize;
      }
      trace := trace + [WriteTxn(block, addr, |src|, !err)];
    }

    /** Acknowledge polling, taken as a single step that returns once the
        device has completed its write cycle. */
    method AwaitReady(block: u32)
      modifies this
      ensures mem == old(mem) && ptr == old(ptr)
      ensures trace == old(trace) + [ReadyTxn(block)]
    {
      trace := trace + [ReadyTxn(block)];
    }
  }
}
