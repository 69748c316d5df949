/**
  The buffer cache in memory: an array of entries over one data pool, in front of
  RAM disks.  Every operation is proved to take the step the model takes.
 */
module Bcache {
  import opened Bytes
  import opened BlockLayer
  import opened CacheModel

  type Dev = RamDisk?

  lemma HandFlush(c: Cache<Dev>, i: nat)
    requires Ok(c) && i < |c.entries|
    ensures Flush(c.(hand := i + 1), i) == Flush(c, i).(hand := i + 1)
  {
  }

  lemma FillFinds(c: Cache<Dev>, i: nat, dev: Dev, lba: nat, dirty: bool, data: seq<byte>)
    requires Ok(c) && i < |c.entries| && Find(c.entries, dev, lba) == |c.entries|
    ensures Find(Fill(c, i, Entry(true, dirty, dev, lba), data).entries, dev, lba) == i
    ensures Fill(c, i, Entry(true, dirty, dev, lba), data).slices[i] == data
  {
    var es := Fill(c, i, Entry(true, dirty, dev, lba), data).entries;
    assert Caches(es[i], dev, lba);
    forall j | 0 <= j < |es| && j != i
      ensures !Caches(es[j], dev, lba)
    {
      assert !Caches(c.entries[j], dev, lba);
    }
  }

  lemma VictimMisses(c: Cache<Dev>, dev: Dev, lba: nat)
    requires Ok(c) && Find(c.entries, dev, lba) == |c.entries|
    ensures Flushable(c) && Find(SelectVictim(c).0.entries, dev, lba) == |c.entries|
    ensures forall d | d in c.disks :: d in SelectVictim(c).0.disks && |SelectVictim(c).0.disks[d]| == |c.disks[d]|
  {
    SelectVictimKeeps(c);
    FindSame(c.entries, SelectVictim(c).0.entries, dev, lba, 0);
  }

  class BufferCache {
    const entries: array<Entry<Dev>>
    const pool: array<byte>
    const blockSize: nat
    var hand: nat
    ghost const devices: set<RamDisk>

    /** Every device is sound and owns its storage. */
    ghost predicate Separate()
    {
      && (forall d | d in devices :: d.Valid() && d.storage != pool)
      && (forall d, e | d in devices && e in devices && d != e :: d.storage != e.storage)
    }

    ghost function Storages(): set<object>
    {
      set d | d in devices :: d.storage
    }

    ghost function Disks(): (m: map<Dev, seq<seq<byte>>>)
      requires Separate()
      reads Storages()
    {
      map d: Dev | d in devices :: d.Blocks()
    }

    /** The cache as a value. */
    ghost function State(): (c: Cache<Dev>)
      requires Separate()
      reads this, entries, pool, Storages()
    {
      Cache(entries[..], BlocksOf(pool[..], entries.Length, blockSize), Disks(), hand)
    }

    ghost predicate Sized()
    {
      && 0 < entries.Length < U32 && pool.Length == entries.Length * blockSize && 0 < blockSize < U32
    }

    /** Cached blocks come from devices of the cache's block size. */
    ghost predicate Matching()
      reads entries
    {
      forall i | 0 <= i < entries.Length && entries[i].valid :: entries[i].dev != null && entries[i].dev.blockSize == blockSize
    }

    ghost predicate Valid()
      reads this, entries, pool, Storages()
    {
      Sized() && Separate() && Matching() && Ok(State())
    }

    constructor (n: nat, bs: nat, ghost devs: set<RamDisk>)
      requires 0 < n < U32 && 0 < bs < U32
      requires forall d | d in devs :: d.Valid()
      requires forall d, e | d in devs && e in devs && d != e :: d.storage != e.storage
      ensures Valid() && fresh(entries) && fresh(pool) && entries.Length == n && blockSize == bs && devices == devs
      ensures forall i | 0 <= i < n :: !entries[i].valid
      ensures hand == 0
    {
      entries := new Entry<Dev>[n](_ => Entry(false, false, null, 0));
      pool := new byte[n * bs](_ => 0);
      blockSize := bs;
      hand := 0;
      devices := devs;
    }

    method FindEntry(dev: RamDisk, lba: nat) returns (r: nat)
      requires Sized() && Separate()
      ensures r == Find(State().entries, dev, lba)
    {
      for i := 0 to entries.Length
        invariant Find(entries[..], dev as Dev, lba) == FindFrom(entries[..], dev as Dev, lba, i)
      {
        var e := entries[i];
        if e.valid && e.dev == dev && e.lba == lba {
          return i;
        }
      }
      return entries.Length;
    }

    /** Copy a block into slot `i` of the pool. */
    method StoreSlice(i: nat, data: seq<byte>)
      requires Sized() && Separate() && i < entries.Length && |data| == blockSize
      modifies pool
      ensures State() == old(State()).(slices := old(State()).slices[i := data])
    {
      hide BlocksOf;
      ghost var c := State();
      Within(i, entries.Length, blockSize);
      CopyInto(pool, i * blockSize, data);
      SpliceBlock(old(pool[..]), entries.Length, blockSize, i, data);
      assert forall d | d in devices :: d.Blocks() == old(d.Blocks());
      assert Disks() == c.disks;
    }

    /** The bytes of slot `i`. */
    method LoadSlice(i: nat) returns (data: seq<byte>)
      requires Sized() && Separate() && i < entries.Length
      ensures data == State().slices[i] && |data| == blockSize
    {
      Within(i, entries.Length, blockSize);
      data := pool[i * blockSize..i * blockSize + blockSize];
    }

    method FlushEntry(i: nat) returns (st: int)
      requires Valid() && i < entries.Length
      modifies entries, Storages()
      ensures Valid() && st == BLK_OK && State() == Flush(old(State()), i)
    {
      var e := entries[i];
      st := BLK_OK;
      if !e.valid || !e.dirty {
        return;
      }
      var data := LoadSlice(i);
      assert e == State().entries[i];
      ghost var c := State();
      st := WriteBack(e.dev, e.lba, data);
      entries[i] := e.(dirty := false);
      assert State() == Flush(c, i);
      FlushKeeps(c, i);
    }

    /** Write one block to a device. */
    method WriteBack(dev: RamDisk, lba: nat, data: seq<byte>) returns (st: int)
      requires Sized() && Separate() && dev in devices && lba < dev.blockCount && |data| == dev.blockSize
      modifies dev.storage
      ensures st == BLK_OK
      ensures State() == old(State()).(disks := old(State()).disks[dev := old(State()).disks[dev][lba := data]])
    {
      ghost var disks := Disks();
      ghost var s := dev.storage[..];
      assert dev.blockCount <= dev.blockCount * dev.blockSize;
      st := dev.Write(lba, 1, data);
      SpliceBlock(s, dev.blockCount, dev.blockSize, lba, data);
      assert Disks() == disks[dev := disks[dev][lba := data]];
    }
  
    /** How far past `start`, wrapping, the first invalid slot lies. */
    method ScanInvalid(start: nat) returns (p: nat)
      requires start < entries.Length
      ensures p == FirstInvalid(entries[..], start, 0)
    {
      for pass := 0 to entries.Length
        invariant FirstInvalid(entries[..], start, 0) == FirstInvalid(entries[..], start, pass)
      {
        WrapIsMod(start + pass, entries.Length);
        if !entries[(start + pass) % entries.Length].valid {
          return pass;
        }
      }
      return entries.Length;
    }

    method SetHand(h: nat)
      requires Valid() && h <= entries.Length
      modifies this`hand
      ensures Valid() && State() == old(State()).(hand := h)
    {
      hide BlocksOf, Ok;
      ghost var c := State();
      HandKeeps(c, h);
      hand := h;
      assert forall d | d in devices :: d.Blocks() == old(d.Blocks());
      assert Disks() == c.disks;
      assert State() == c.(hand := h);
    }

    /** Choose the slot to reuse; its old block is on the device afterwards. */
    method ChooseVictim() returns (st: int, i: nat)
      requires Valid()
      modifies this`hand, entries, Storages()
      ensures Valid() && st == BLK_OK && i < entries.Length && (State(), i) == SelectVictim(old(State()))
    {
      hide Flush, BlocksOf, Ok, FirstInvalid, Flushable;
      ghost var c := State();
      OkSizes(c);
      WrapIsMod(hand, entries.Length);
      var start := hand % entries.Length;
      var p := ScanInvalid(start);
      if p < entries.Length {
        WrapIsMod(start + p, entries.Length);
        i := (start + p) % entries.Length;
        SetHand(i + 1);
        st := BLK_OK;
      } else {
        HandFlush(c, start);
        SetHand(start + 1);
        st := FlushEntry(start);
        i := start;
      }
    }

    /** Slot `i` gets an entry and a block. */
    method Install(i: nat, e: Entry<Dev>, data: seq<byte>)
      requires Sized() && Separate() && Matching() && i < entries.Length && |data| == blockSize
      requires e.valid ==> e.dev != null && e.dev.blockSize == blockSize
      modifies entries, pool
      ensures Matching() && State() == Fill(old(State()), i, e, data)
    {
      hide BlocksOf;
      StoreSlice(i, data);
      entries[i] := e;
    }

    /** Slot `i` no longer caches anything. */
    method Invalidate(i: nat)
      requires Sized() && Separate() && Matching() && i < entries.Length
      modifies entries
      ensures Matching()
      ensures State() == Fill(old(State()), i, old(State()).entries[i].(valid := false), old(State()).slices[i])
    {
      hide BlocksOf;
      entries[i] := entries[i].(valid := false);
      ghost var ss := State().slices;
      assert ss[i := ss[i]] == ss;
    }

    method Read(dev: RamDisk, lba: nat) returns (st: int, buf: seq<byte>)
      requires Valid() && dev in devices && lba < U64
      modifies this`hand, entries, pool, Storages()
      ensures Valid()
      ensures dev.blockSize != blockSize ==> st == BLK_EINVAL && State() == old(State())
      ensures dev.blockSize == blockSize ==>
        && State() == ReadStep(old(State()), dev, lba)
        && (if lba < dev.blockCount then st == BLK_OK && buf == Logical(old(State()), dev, lba) else st == BLK_ERANGE)
    {
      hide State, Disks, SelectVictim, Logical, Ok, Find, Flushable, Fill;
      buf := [];
      if dev.blockSize != blockSize {
        return BLK_EINVAL, buf;
      }
      ghost var c := State();
      StateFacts(dev);
      ReadKeeps(c, dev, lba);
      var i := FindEntry(dev, lba);
      if i == entries.Length {
        st, i := BringIn(dev, lba);
        if st != BLK_OK {
          return;
        }
      }
      StateFacts(dev);
      buf := LoadSlice(i);
      st := BLK_OK;
    }

    /** A miss: make room, then read the block from its device. */
    method BringIn(dev: RamDisk, lba: nat) returns (st: int, i: nat)
      requires Valid() && dev in devices && lba < U64 && dev.blockSize == blockSize
      requires Find(State().entries, dev, lba) == entries.Length
      modifies this`hand, entries, pool, Storages()
      ensures Valid() && State() == ReadStep(old(State()), dev, lba)
      ensures st == if lba < dev.blockCount then BLK_OK else BLK_ERANGE
      ensures st == BLK_OK ==> i < entries.Length && i == Find(State().entries, dev, lba)
    {
      hide State, Disks, SelectVictim, Logical, Ok, Find, Flushable, Fill;
      ghost var c := State();
      StateFacts(dev);
      ReadKeeps(c, dev, lba);
      VictimMisses(c, dev, lba);
      st, i := ChooseVictim();
      ghost var v := State();
      StateFacts(dev);
      var data;
      st, data := Fetch(dev, lba);
      if st != BLK_OK {
        Invalidate(i);
        return;
      }
      Install(i, Entry(true, false, dev, lba), data);
      FillFinds(v, i, dev, lba, false, data);
    }

    /** What the value of a sound cache says about sizes. */
    lemma StateFacts(dev: RamDisk)
      requires Sized() && Separate() && dev in devices && Ok(State())
      ensures var c := State();
        && |c.entries| == entries.Length == |c.slices| && Flushable(c) && c.hand <= |c.entries|
        && dev in c.disks && |c.disks[dev]| == dev.blockCount
    {
    }

    /** Read one block of a device. */
    method Fetch(dev: RamDisk, lba: nat) returns (st: int, data: seq<byte>)
      requires Sized() && Separate() && dev in devices && lba < U64
      ensures st == if lba < dev.blockCount then BLK_OK else BLK_ERANGE
      ensures st == BLK_OK ==> data == State().disks[dev][lba] && |data| == dev.blockSize
    {
      st, data := dev.Read(lba, 1);
      if st == BLK_OK {
        Within(lba, dev.blockCount, dev.blockSize);
        assert State().disks[dev][lba] == BlockAt(dev.storage[..], lba, dev.blockSize);
      }
    }

    method Write(dev: RamDisk, lba: nat, data: seq<byte>) returns (st: int)
      requires Valid() && dev in devices && |data| == blockSize
      requires dev.blockSize == blockSize ==> lba < dev.blockCount
      modifies this`hand, entries, pool, Storages()
      ensures Valid()
      ensures dev.blockSize != blockSize ==> st == BLK_EINVAL && State() == old(State())
      ensures dev.blockSize == blockSize ==> st == BLK_OK && State() == WriteStep(old(State()), dev, lba, data)
    {
      hide State, Disks, SelectVictim, Logical, Ok, Find, Flushable, Fill;
      if dev.blockSize != blockSize {
        return BLK_EINVAL;
      }
      ghost var c := State();
      StateFacts(dev);
      WriteKeeps(c, dev, lba, data);
      var i := FindEntry(dev, lba);
      if i == entries.Length {
        st, i := ChooseVictim();
        Install(i, Entry(true, true, dev, lba), data);
      } else {
        EntriesOf(i);
        Install(i, entries[i].(dirty := true), data);
      }
      st := BLK_OK;
    }

    lemma EntriesOf(i: nat)
      requires Separate() && i < entries.Length
      ensures i < |State().entries| && State().entries[i] == entries[i]
    {
    }

    method FlushAll() returns (st: int)
      requires Valid()
      modifies entries, Storages()
      ensures Valid() && st == BLK_OK && State() == FlushFrom(old(State()), 0)
    {
      hide Flush, BlocksOf;
      ghost var c := State();
      for i := 0 to entries.Length
        invariant Valid() && FlushFrom(c, 0) == FlushFrom(State(), i)
      {
        ghost var d := State();
        st := FlushEntry(i);
        if st != BLK_OK {
          return;
        }
      }
      st := BLK_OK;
    }
  }

  /** The cache's initialiser: an empty cache, or EINVAL for no slots or no bytes. */
  method InitCache(n: nat, bs: nat, ghost devs: set<RamDisk>) returns (st: int, cache: BufferCache?)
    requires n < U32 && bs < U32
    requires forall d | d in devs :: d.Valid()
    requires forall d, e | d in devs && e in devs && d != e :: d.storage != e.storage
    ensures st == if n == 0 || bs == 0 then BLK_EINVAL else BLK_OK
    ensures cache == null <==> st != BLK_OK
    ensures cache != null ==>
      && fresh(cache) && cache.Valid() && cache.devices == devs && cache.entries.Length == n && cache.blockSize == bs
      && cache.hand == 0 && forall i | 0 <= i < n :: !cache.entries[i].valid
  {
    if n == 0 || bs == 0 {
      return BLK_EINVAL, null;
    }
    cache := new BufferCache(n, bs, devs);
    st := BLK_OK;
  }
}
