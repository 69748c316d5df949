/**
  The block layer and its RAM disk: range checks, then byte copies at offsets
  computed in 64-bit arithmetic.
 */
module BlockLayer {
  import opened Bytes

  const BLK_OK: int := 0
  const BLK_EINVAL: int := -1
  const BLK_ERANGE: int := -2
  const SECTOR: nat := 512

  predicate PowerOfTwo(v: nat)
  {
    v == 1 || (v > 1 && v % 2 == 0 && PowerOfTwo(v / 2))
  }

  // ---- a byte buffer as blocks ----

  lemma Within(i: nat, n: nat, bs: nat)
    requires i < n
    ensures i * bs + bs == (i + 1) * bs <= n * bs
  {
    assert (i + 1) * bs <= n * bs;
  }

  function BlockAt(s: seq<byte>, i: nat, bs: nat): seq<byte>
  {
    if i * bs + bs <= |s| then s[i * bs..i * bs + bs] else []
  }

  /** The buffer cut into `n` blocks of `bs` bytes. */
  function BlocksOf(s: seq<byte>, n: nat, bs: nat): (r: seq<seq<byte>>)
    ensures |r| == n && forall i | 0 <= i < n :: r[i] == BlockAt(s, i, bs)
  {
    seq(n, i requires 0 <= i < n => BlockAt(s, i, bs))
  }

  /** Overwriting block `i` of a buffer changes that block and no other. */
  lemma SpliceBlock(s: seq<byte>, n: nat, bs: nat, i: nat, data: seq<byte>)
    requires |s| == n * bs && i < n && |data| == bs
    ensures i * bs + bs <= |s| && BlocksOf(Splice(s, i * bs, data), n, bs) == BlocksOf(s, n, bs)[i := data]
  {
    Within(i, n, bs);
    var t := Splice(s, i * bs, data);
    forall j | 0 <= j < n
      ensures BlocksOf(t, n, bs)[j] == BlocksOf(s, n, bs)[i := data][j]
    {
      Within(j, n, bs);
      if j < i {
        assert j * bs + bs <= i * bs by { Within(j, i, bs); }
        SpliceKeeps(s, i * bs, data, j * bs, bs);
      } else if j > i {
        assert i * bs + bs <= j * bs by { Within(i, j, bs); }
        SpliceKeeps(s, i * bs, data, j * bs, bs);
      }
    }
  }

  // ---- ranges and offsets ----

  /** The range check of the block layer. */
  function RangeStatus(lba: nat, count: nat, blockCount: nat): int
  {
    if count == 0 then BLK_EINVAL
    else if lba >= blockCount then BLK_ERANGE
    else if count > blockCount - lba then BLK_ERANGE
    else BLK_OK
  }

  /** A transfer is in range exactly if it has blocks and ends on the device; an empty one is not even valid. */
  lemma RangeExactly(lba: nat, count: nat, blockCount: nat)
    ensures RangeStatus(lba, count, blockCount) ==
      if count == 0 then BLK_EINVAL else if lba + count <= blockCount then BLK_OK else BLK_ERANGE
  {
  }

  /** The byte offset the driver computes, modulo 2^64. */
  function Offset(lba: nat, bs: nat): nat
  {
    lba * bs % U64
  }

  /** A transfer the block layer lets through has an offset that did not wrap and bytes inside the storage. */
  lemma InRangeFits(lba: nat, count: nat, blockCount: nat, bs: nat)
    requires RangeStatus(lba, count, blockCount) == BLK_OK && blockCount * bs < U64
    ensures Offset(lba, bs) == lba * bs && Offset(count, bs) == count * bs
    ensures lba * bs + count * bs == (lba + count) * bs <= blockCount * bs
  {
    assert (lba + count) * bs <= blockCount * bs;
    assert lba * bs + count * bs == (lba + count) * bs;
  }

  /** The driver's own test, on the offsets it computes. */
  predicate DriverPasses(lba: nat, count: nat, size: nat, bs: nat)
  {
    Offset(lba, bs) <= size && Offset(count, bs) <= size - Offset(lba, bs)
  }

  /** The driver's test is whether the two wrapped products together stay within the storage. */
  lemma DriverExactly(lba: nat, count: nat, size: nat, bs: nat)
    ensures DriverPasses(lba, count, size, bs) <==> Offset(lba, bs) + Offset(count, bs) <= size
  {
  }

  lemma OffsetKeeps(lba: nat, bs: nat)
    ensures lba * bs < U64 <==> Offset(lba, bs) == lba * bs
  {
    var x := lba * bs;
    assert x % U64 < U64;
  }

  lemma Products(a: nat, b: nat, bs: nat)
    ensures (a + b) * bs == a * bs + b * bs && (b > 0 ==> b * bs >= bs)
  {
    if b > 0 {
      assert b * bs == (b - 1) * bs + bs;
    }
  }

  lemma CountFits(count: nat, bs: nat)
    requires count < U32 && bs < U32
    ensures Offset(count, bs) == count * bs
  {
    Products(bs, U32 - bs, count);
    assert bs * count <= U32 * count <= U32 * U32;
    OffsetKeeps(count, bs);
  }

  /** A transfer the driver lets through reaches the blocks asked for, all of them on the disk, exactly when its offset does not wrap. */
  lemma DriverReachesExactly(lba: nat, count: nat, blockCount: nat, bs: nat)
    requires 0 < count < U32 && 0 < bs < U32 && blockCount * bs < U64 && DriverPasses(lba, count, blockCount * bs, bs)
    ensures lba * bs < U64 <==> Offset(lba, bs) == lba * bs
    ensures lba * bs < U64 <==> RangeStatus(lba, count, blockCount) == BLK_OK
  {
    hide Offset;
    CountFits(count, bs);
    OffsetKeeps(lba, bs);
    Products(lba, count, bs);
    if lba >= blockCount {
      Products(blockCount, lba - blockCount, bs);
    } else if lba + count > blockCount {
      Products(blockCount, lba + count - blockCount, bs);
    } else {
      Products(lba, blockCount - lba, bs);
    }
  }

  /** An offset that wraps to 0 and that the driver's own test lets through, on any disk of 512-byte blocks. */
  lemma WrappedOffsetPasses(blockCount: nat)
    requires 0 < blockCount && blockCount * SECTOR < U64
    ensures var lba := 0x80_0000_0000_0000;
      && DriverPasses(lba, 1, blockCount * SECTOR, SECTOR) && Offset(lba, SECTOR) == 0
      && RangeStatus(lba, 1, blockCount) == BLK_ERANGE
  {
    var lba := 0x80_0000_0000_0000;
    assert lba * SECTOR == U64;
    assert blockCount < lba;
  }

  /** Copy bytes into a buffer, one by one. */
  method CopyInto(a: array<byte>, off: nat, data: seq<byte>)
    requires off + |data| <= a.Length
    modifies a
    ensures a[..] == Splice(old(a[..]), off, data)
  {
    for i := 0 to |data|
      invariant forall k | 0 <= k < a.Length :: a[k] == if off <= k < off + i then data[k - off] else old(a[k])
    {
      a[off + i] := data[i];
    }
  }

  class RamDisk {
    const blockSize: nat
    const blockCount: nat
    const storage: array<byte>

    ghost predicate Valid()
    {
      && SECTOR <= blockSize < U32 && PowerOfTwo(blockSize) && 0 < blockCount
      && storage.Length == blockCount * blockSize && storage.Length < U64
    }

    ghost function Blocks(): (r: seq<seq<byte>>)
      requires Valid()
      reads storage
      ensures |r| == blockCount
    {
      BlocksOf(storage[..], blockCount, blockSize)
    }

    /** What the driver's initialiser accepts. */
    static predicate Acceptable(size: nat, bs: nat)
    {
      bs >= SECTOR && PowerOfTwo(bs) && size >= bs && size % bs == 0
    }

    constructor (store: array<byte>, bs: nat)
      requires bs < U32 && store.Length < U64 && Acceptable(store.Length, bs)
      ensures Valid() && storage == store && blockSize == bs && blockCount == store.Length / bs
    {
      storage := store;
      blockSize := bs;
      blockCount := store.Length / bs;
      new;
      assert store.Length == store.Length / bs * bs + store.Length % bs;
    }

    /** The driver's copy out of storage; its range test uses the wrapped offset. */
    method RamRead(lba: nat, count: nat) returns (st: int, data: seq<byte>)
      requires Valid() && lba < U64 && count < U32
      ensures st == if DriverPasses(lba, count, storage.Length, blockSize) then BLK_OK else BLK_ERANGE
      ensures st == BLK_OK ==> data == storage[Offset(lba, blockSize)..Offset(lba, blockSize) + Offset(count, blockSize)]
      ensures st == BLK_OK && count > 0 && lba * blockSize < U64 ==>
        RangeStatus(lba, count, blockCount) == BLK_OK && |data| == count * blockSize && Offset(lba, blockSize) == lba * blockSize
    {
      if count > 0 && DriverPasses(lba, count, storage.Length, blockSize) {
        DriverReachesExactly(lba, count, blockCount, blockSize);
        CountFits(count, blockSize);
      }
      var off, len := Offset(lba, blockSize), Offset(count, blockSize);
      if off > storage.Length || len > storage.Length - off {
        return BLK_ERANGE, [];
      }
      return BLK_OK, storage[off..off + len];
    }

    method RamWrite(lba: nat, count: nat, data: seq<byte>) returns (st: int)
      requires Valid() && lba < U64 && count < U32 && |data| == Offset(count, blockSize)
      modifies storage
      ensures var off := Offset(lba, blockSize);
        if off <= storage.Length && |data| <= storage.Length - off
        then st == BLK_OK && storage[..] == Splice(old(storage[..]), off, data)
        else st == BLK_ERANGE && storage[..] == old(storage[..])
    {
      var off := Offset(lba, blockSize);
      if off > storage.Length || |data| > storage.Length - off {
        return BLK_ERANGE;
      }
      CopyInto(storage, off, data);
      st := BLK_OK;
    }

    method Read(lba: nat, count: nat) returns (st: int, data: seq<byte>)
      requires Valid() && lba < U64 && count < U32
      ensures st == RangeStatus(lba, count, blockCount)
      ensures st == BLK_OK ==>
        && lba * blockSize <= (lba + count) * blockSize <= storage.Length
        && data == storage[lba * blockSize..(lba + count) * blockSize]
    {
      st := RangeStatus(lba, count, blockCount);
      data := [];
      if st == BLK_OK {
        InRangeFits(lba, count, blockCount, blockSize);
        st, data := RamRead(lba, count);
      }
    }

    method Write(lba: nat, count: nat, data: seq<byte>) returns (st: int)
      requires Valid() && lba < U64 && count < U32 && |data| == count * blockSize
      modifies storage
      ensures st == RangeStatus(lba, count, blockCount)
      ensures st == BLK_OK ==>
        && lba * blockSize + |data| <= storage.Length
        && storage[..] == Splice(old(storage[..]), lba * blockSize, data)
      ensures st != BLK_OK ==> storage[..] == old(storage[..])
    {
      st := RangeStatus(lba, count, blockCount);
      if st == BLK_OK {
        InRangeFits(lba, count, blockCount, blockSize);
        st := RamWrite(lba, count, data);
      }
    }
  }

  /** The driver's initialiser: a disk, or EINVAL for sizes it does not accept. */
  method InitRamDisk(store: array<byte>, bs: nat) returns (st: int, disk: RamDisk?)
    requires bs < U32 && store.Length < U64
    ensures st == if RamDisk.Acceptable(store.Length, bs) then BLK_OK else BLK_EINVAL
    ensures disk == null <==> st != BLK_OK
    ensures disk != null ==>
      fresh(disk) && disk.Valid() && disk.storage == store && disk.blockSize == bs && disk.blockCount * bs == store.Length
  {
    if bs < SECTOR || !PowerOfTwo(bs) {
      return BLK_EINVAL, null;
    }
    if store.Length < bs || store.Length % bs != 0 {
      return BLK_EINVAL, null;
    }
    disk := new RamDisk(store, bs);
    st := BLK_OK;
  }

  /** On a disk of 512-byte blocks the driver answers a read of block 2^55 with block 0. */
  method WrappedRead(disk: RamDisk) returns (st: int, data: seq<byte>)
    requires disk.Valid() && disk.blockSize == SECTOR
    ensures st == BLK_OK && data == disk.storage[..SECTOR]
  {
    WrappedOffsetPasses(disk.blockCount);
    st, data := disk.RamRead(0x80_0000_0000_0000, 1);
  }
}
