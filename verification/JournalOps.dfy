/**
  The operations of MCSFS1J on a device: mount, write a file, read a file, check,
  format.  Each one is proved to run its plan, or to report what the recovered
  disk holds.
 */
module JournalOps {
  import opened Bytes
  import opened JournalDisk
  import opened Journal
  import opened JournalCrash
  import opened JournalFs
  import opened JournalWrite
  import opened JournalRuns
  import opened CStrings
  import opened Bitmap

  /** Character `i` of a C string with its terminator. */
  function CharAt(s: CString, i: nat): byte
    requires i <= |s|
  {
    if i < |s| then s[i] else 0
  }

  /** Two strings that agree up to `i` and differ there are different names. */
  lemma Differ(a: seq<byte>, s: CString, i: nat)
    requires |a| == MAX_NAME && i < MAX_NAME && i <= |s| && a[..i] == s[..i] && a[i] != CharAt(s, i)
    ensures CName(a) != Clip(s)
  {
    CNameSplit(a, i);
    var t := CName(a[i..]);
    assert CName(a) == s[..i] + t;
    assert |Clip(s)| > i ==> Clip(s)[i] == s[i];
  }

  lemma Agree(a: seq<byte>, s: CString, i: nat)
    requires |a| == MAX_NAME && i <= MAX_NAME && i <= |s| && a[..i] == s[..i]
    requires i == MAX_NAME || (i == |s| && a[i] == 0)
    ensures CName(a) == Clip(s)
  {
    CNameSplit(a, i);
    assert CName(a[i..]) == [];
    assert i == |s| ==> s[..i] == s;
  }

  /** Comparison of a stored name with a C string, 32 characters at most. */
  method StrEq(a: seq<byte>, s: CString) returns (r: bool)
    requires |a| == MAX_NAME
    ensures r == (CName(a) == Clip(s))
  {
    hide Clip, CName;
    for i := 0 to MAX_NAME
      invariant i <= |s| && a[..i] == s[..i]
    {
      if a[i] != CharAt(s, i) {
        Differ(a, s, i);
        return false;
      }
      if a[i] == 0 {
        Agree(a, s, i);
        return true;
      }
    }
    Agree(a, s, MAX_NAME);
    return true;
  }

  method FindDirent(dir: Block, name: CString) returns (r: int)
    ensures r >= 0 ==> FindFrom(Entries(dir), name, 0) == Some(r)
    ensures r < 0 ==> FindFrom(Entries(dir), name, 0) == None && r == E_NOENT
  {
    for i := 0 to DIRENTS
      invariant FindFrom(Entries(dir), name, 0) == FindFrom(Entries(dir), name, i)
    {
      assert Entries(dir)[i] == EntryAt(dir, i);
      if Get(dir, 40 * i, 4) != 0 {
        var same := StrEq(dir[40 * i + 8..40 * i + 40], name);
        if same {
          return i;
        }
      }
    }
    return E_NOENT;
  }

  method FindFreeDirent(dir: Block) returns (r: int)
    ensures r >= 0 ==> r < DIRENTS && FirstUnused(Entries(dir), 0) == r
    ensures r < 0 ==> FirstUnused(Entries(dir), 0) == DIRENTS && r == E_NOSPC
  {
    for i := 0 to DIRENTS
      invariant FirstUnused(Entries(dir), 0) == FirstUnused(Entries(dir), i)
    {
      assert Entries(dir)[i] == EntryAt(dir, i);
      if Get(dir, 40 * i, 4) == 0 {
        return i;
      }
    }
    return E_NOSPC;
  }

  /** Scan a bitmap for a clear bit in `[lo, hi)`. */
  method FindFreeBit(bm: Block, lo: nat, hi: nat) returns (r: int)
    requires lo <= hi <= 8 * BLOCK_SIZE
    ensures r >= 0 ==> r < hi && FirstClear(Bits(bm, hi), lo) == r
    ensures r < 0 ==> FirstClear(Bits(bm, hi), lo) == hi && r == E_NOSPC
  {
    for i := lo to hi
      invariant FirstClear(Bits(bm, hi), lo) == FirstClear(Bits(bm, hi), i)
    {
      assert Bits(bm, hi)[i] == Test(bm, i);
      if !Test(bm, i) {
        return i;
      }
    }
    return E_NOSPC;
  }

  method CheckSuper(sb: Block) returns (rc: int)
    ensures rc == if SuperOk(sb) then OK else E_CORRUPT
  {
    if Get(sb, 0, 8) != MAGIC || Get(sb, 8, 4) != VERSION || Get(sb, 12, 4) != BLOCK_SIZE {
      return E_CORRUPT;
    }
    if Get(sb, 48, 4) != DATA_START || Get(sb, 44, 4) != ROOT_DIR {
      return E_CORRUPT;
    }
    return OK;
  }

  method Mount(dev: Device) returns (rc: int, sb: Block)
    requires dev.Valid()
    modifies dev`writes, dev`failAfter, dev.blocks
    ensures dev.Valid()
    ensures Ran(MountPlan(old(dev.Contents())), old(dev.Contents()), old(dev.failAfter),
                dev.Contents(), dev.failAfter, rc)
    ensures rc == OK ==> dev.Contents() == Recovered(old(dev.Contents())) && sb == dev.Contents()[0]
  {
    hide RecoverPlan, SuperOk;
    ghost var d0, fa0 := dev.Contents(), dev.failAfter;
    ghost var q := Plan([], if SuperOk(Recovered(d0)[0]) then OK else E_CORRUPT);
    Begin(MountPlan(d0), d0, fa0);
    sb := ZERO_BLOCK;
    rc := Recover(dev);
    Advance(MountPlan(d0), d0, fa0, [], RecoverPlan(d0), q, d0, fa0, dev.Contents(), dev.failAfter, rc);
    if rc != OK {
      return;
    }
    RanAll(RecoverPlan(d0), d0, fa0, dev.Contents(), dev.failAfter, rc);
    Finish(MountPlan(d0), d0, fa0, [] + RecoverPlan(d0).writes, q, dev.Contents(), dev.failAfter);
    rc, sb := dev.ReadBlock(0);
    rc := CheckSuper(sb);
  }

  method LoadTable(dev: Device) returns (t: seq<byte>)
    requires dev.Valid()
    ensures t == Table(dev.Contents())
  {
    t := [];
    for i := 0 to TABLE_BLOCKS
      invariant |t| == 512 * i
      invariant t == Table(dev.Contents())[..512 * i]
    {
      var rc, b := dev.ReadBlock(INODE_TABLE + i);
      assert Table(dev.Contents())[512 * i..512 * (i + 1)] == b;
      t := t + b;
    }
  }

  /** Where the new file goes, or why it cannot go anywhere. */
  method Choose(ib: Block, bb: Block, dir: Block, name: CString) returns (rc: int, ino: nat, block: nat, slot: nat)
    ensures rc ==
      if FindFrom(Entries(dir), name, 0).Some? then E_EXISTS
      else if FirstClear(Bits(ib, MAX_INODES), 1) == MAX_INODES || FirstClear(Bits(bb, MAX_BLOCKS), DATA_START) == MAX_BLOCKS
              || FirstUnused(Entries(dir), 0) == DIRENTS then E_NOSPC
      else OK
    ensures rc == OK ==>
      && ino == FirstClear(Bits(ib, MAX_INODES), 1) && ino < MAX_INODES
      && block == FirstClear(Bits(bb, MAX_BLOCKS), DATA_START) && block < MAX_BLOCKS
      && slot == FirstUnused(Entries(dir), 0) && slot < DIRENTS
  {
    ino, block, slot := 0, 0, 0;
    var r := FindDirent(dir, name);
    if r >= 0 {
      return E_EXISTS, ino, block, slot;
    }
    r := FindFreeBit(ib, 1, MAX_INODES);
    if r < 0 {
      return r, ino, block, slot;
    }
    ino := r;
    r := FindFreeBit(bb, DATA_START, MAX_BLOCKS);
    if r < 0 {
      return r, ino, block, slot;
    }
    block := r;
    r := FindFreeDirent(dir);
    if r < 0 {
      return r, ino, block, slot;
    }
    slot := r;
    rc := OK;
  }

  method CommitTwo(dev: Device, tx1: seq<Write>, s1: nat, tx2: seq<Write>, s2: nat, stopAfterCommit: bool) returns (rc: int)
    requires dev.Valid()
    modifies dev`writes, dev`failAfter, dev.blocks
    ensures dev.Valid()
    ensures Ran(Then(CommitPlan(tx1, s1, false), CommitPlan(tx2, s2, stopAfterCommit)),
                old(dev.Contents()), old(dev.failAfter), dev.Contents(), dev.failAfter, rc)
  {
    hide CommitPlan;
    ghost var d0, fa0 := dev.Contents(), dev.failAfter;
    ghost var p1, p2 := CommitPlan(tx1, s1, false), CommitPlan(tx2, s2, stopAfterCommit);
    Begin(Then(p1, p2), d0, fa0);
    rc := Commit(dev, tx1, s1, false);
    Advance(Then(p1, p2), d0, fa0, [], p1, p2, d0, fa0, dev.Contents(), dev.failAfter, rc);
    if rc != OK {
      return;
    }
    ghost var d1, fa1 := dev.Contents(), dev.failAfter;
    rc := Commit(dev, tx2, s2, stopAfterCommit);
    AdvanceLast(Then(p1, p2), d0, fa0, [] + p1.writes, p2, d1, fa1, dev.Contents(), dev.failAfter, rc);
  }

  /** Everything after the mount: choose an inode, a block and a slot, then run both transactions. */
  method AddFile(dev: Device, name: CString, data: seq<byte>, stopAfterCommit: bool, generation: nat) returns (rc: int)
    requires dev.Valid() && 0 < |name| < MAX_NAME && |data| <= BLOCK_SIZE
    requires generation == Generation(dev.Contents())
    modifies dev`writes, dev`failAfter, dev.blocks
    ensures dev.Valid()
    ensures Ran(FilePlan(old(dev.Contents()), name, data, stopAfterCommit),
                old(dev.Contents()), old(dev.failAfter), dev.Contents(), dev.failAfter, rc)
  {
    hide CommitPlan, Entries, Bits, TableWith, DirWith;
    ghost var d0 := dev.Contents();
    var ib, bb, dir, ino, block, slot;
    rc, ib := dev.ReadBlock(INODE_BITMAP);
    rc, bb := dev.ReadBlock(BLOCK_BITMAP);
    var t := LoadTable(dev);
    rc, dir := dev.ReadBlock(ROOT_DIR);
    rc, ino, block, slot := Choose(ib, bb, dir, name);
    if rc != OK {
      return;
    }
    var tx1 := [Write(INODE_BITMAP, Mark(ib, ino, true)), Write(BLOCK_BITMAP, Mark(bb, block, true))]
               + TableTx(TableWith(t, ino, |data|, block));
    var tx2 := [Write(ROOT_DIR, DirWith(dir, slot, ino, name)), Write(block, Padded(data, BLOCK_SIZE))];
    rc := CommitTwo(dev, tx1, (generation + 1) % U32, tx2, (generation + 2) % U32, stopAfterCommit);
  }

  method WriteFile(dev: Device, name: CString, data: seq<byte>, stopAfterCommit: bool) returns (rc: int)
    requires dev.Valid()
    modifies dev`writes, dev`failAfter, dev.blocks
    ensures dev.Valid()
    ensures Ran(WritePlan(old(dev.Contents()), name, data, stopAfterCommit),
                old(dev.Contents()), old(dev.failAfter), dev.Contents(), dev.failAfter, rc)
  {
    if name == [] || |name| >= MAX_NAME {
      return E_TOOLONG;
    }
    if |data| > BLOCK_SIZE {
      return E_INVAL;
    }
    hide MountPlan, FilePlan, RecoverPlan;
    ghost var d0, fa0 := dev.Contents(), dev.failAfter;
    ghost var p := WritePlan(d0, name, data, stopAfterCommit);
    ghost var q := FilePlan(Recovered(d0), name, data, stopAfterCommit);
    Begin(p, d0, fa0);
    var sb;
    rc, sb := Mount(dev);
    Advance(p, d0, fa0, [], MountPlan(d0), q, d0, fa0, dev.Contents(), dev.failAfter, rc);
    if rc != OK {
      return;
    }
    ghost var d1, fa1 := dev.Contents(), dev.failAfter;
    rc := AddFile(dev, name, data, stopAfterCommit, Get(sb, 52, 4));
    ghost var done := [] + MountPlan(d0).writes;
    AdvanceLast(p, d0, fa0, done, q, d1, fa1, dev.Contents(), dev.failAfter, rc);
  }

  /** What reading a name from a mounted disk comes to, whatever is on the disk. */
  function FetchResult(d: Disk, name: CString, cap: nat): (int, seq<byte>)
  {
    var v := ViewOf(d);
    var r := FindFrom(v.dir, name, 0);
    if r.None? then (E_NOENT, [])
    else
      var ino := v.dir[r.value].ino;
      if ino >= MAX_INODES || v.inodes[ino].used == 0 || v.inodes[ino].kind != 1 then (E_CORRUPT, [])
      else if v.inodes[ino].size > cap || v.inodes[ino].block >= MAX_BLOCKS then (E_INVAL, [])
      else (OK, d[v.inodes[ino].block][..if v.inodes[ino].size <= BLOCK_SIZE then v.inodes[ino].size else BLOCK_SIZE])
  }

  /** The copy out of the block buffer, if it is reached, stays inside it: the size on the disk is what is copied. */
  predicate CopyFits(d: Disk, name: CString, cap: nat)
  {
    var v := ViewOf(d);
    var r := FindFrom(v.dir, name, 0);
    FetchResult(d, name, cap).0 == OK && r.Some? && v.dir[r.value].ino < MAX_INODES ==>
      v.inodes[v.dir[r.value].ino].size <= BLOCK_SIZE
  }

  /** On a clean disk reading gives the bytes the name stands for. */
  lemma FetchReads(d: Disk, name: CString, cap: nat)
    requires Clean(d)
    ensures CopyFits(d, name, cap)
    ensures FetchResult(d, name, cap) ==
      match Lookup(d, name)
      case None => (E_NOENT, [])
      case Some(x) => if |x| > cap then (E_INVAL, []) else (OK, x)
  {
    hide SuperOk, RootOk;
    var v := ViewOf(d);
    var r := FindFrom(v.dir, name, 0);
    assert r.Some? ==> EntryOk(v, v.dir[r.value]);
  }

  lemma ViewParts(d: Disk)
    ensures ViewOf(d).dir == Entries(d[ROOT_DIR]) && ViewOf(d).inodes == Inodes(Table(d))
  {
  }

  /** Reading from a mounted disk. */
  method Fetch(dev: Device, name: CString, cap: nat) returns (rc: int, out: seq<byte>)
    requires dev.Valid() && CopyFits(dev.Contents(), name, cap)
    ensures (rc, out) == FetchResult(dev.Contents(), name, cap)
  {
    hide ViewOf, Table;
    ghost var d := dev.Contents();
    ghost var v := ViewOf(d);
    ViewParts(d);
    out := [];
    var dir, blk;
    var t := LoadTable(dev);
    rc, dir := dev.ReadBlock(ROOT_DIR);
    var slot := FindDirent(dir, name);
    if slot < 0 {
      return slot, [];
    }
    assert v.dir[slot] == EntryAt(dir, slot);
    var ino := Get(dir, 40 * slot + 4, 4);
    if ino >= MAX_INODES {
      return E_CORRUPT, [];
    }
    assert v.inodes[ino] == InodeAt(t, ino);
    if Get(t, 128 * ino, 4) == 0 || Get(t, 128 * ino + 4, 4) != 1 {
      return E_CORRUPT, [];
    }
    var size := Get(t, 128 * ino + 8, 4);
    if size > cap || Get(t, 128 * ino + 12, 4) >= MAX_BLOCKS {
      return E_INVAL, [];
    }
    rc, blk := dev.ReadBlock(Get(t, 128 * ino + 12, 4));
    out := blk[..size];
  }

  method ReadFile(dev: Device, name: CString, cap: nat) returns (rc: int, out: seq<byte>)
    requires dev.Valid() && CopyFits(Recovered(dev.Contents()), name, cap)
    modifies dev`writes, dev`failAfter, dev.blocks
    ensures dev.Valid()
    ensures exists mrc ::
      && Ran(MountPlan(old(dev.Contents())), old(dev.Contents()), old(dev.failAfter), dev.Contents(), dev.failAfter, mrc)
      && (mrc != OK ==> rc == mrc)
      && (mrc == OK ==> (rc, out) == FetchResult(Recovered(old(dev.Contents())), name, cap))
  {
    out := [];
    var sb;
    rc, sb := Mount(dev);
    if rc != OK {
      return;
    }
    rc, out := Fetch(dev, name, cap);
  }

  lemma CleanHasSuper(d: Disk)
    requires Clean(d)
    ensures SuperOk(d[0])
  {
  }

  /** A mount leaves the files alone, cut off or not, and fails only when it is cut off. */
  lemma MountRan(d: Disk, fa: int, d': Disk, fa': int, rc: int)
    requires Accepted(d) && Ran(MountPlan(d), d, fa, d', fa', rc)
    ensures Accepted(d') && Recovered(d') == Recovered(d)
    ensures rc == OK || rc == E_IO
    ensures fa < 0 ==> rc == OK
  {
    hide RecoverPlan, Apply, Clean;
    assert RecoverPlan(d).writes + [] == RecoverPlan(d).writes;
    assert SuperOk(Recovered(d)[0]) by {
      CleanHasSuper(Recovered(d));
    }
    RebootKeeps(d, Passed(fa, |RecoverPlan(d).writes|));
  }

  /** Reading leaves an accepted disk's files alone and returns what the name reads as, unless the mount is cut off. */
  lemma AcceptedRead(d: Disk, fa: int, d': Disk, fa': int, mrc: int, name: CString, cap: nat)
    requires Accepted(d) && Ran(MountPlan(d), d, fa, d', fa', mrc)
    ensures Accepted(d') && CopyFits(Recovered(d), name, cap) && (forall n: CString :: Reads(d', n) == Reads(d, n))
    ensures mrc == OK || (mrc == E_IO && fa >= 0)
    ensures FetchResult(Recovered(d), name, cap) ==
      match Reads(d, name)
      case None => (E_NOENT, [])
      case Some(x) => if |x| > cap then (E_INVAL, []) else (OK, x)
  {
    hide Clean, Ran, MountPlan, FetchResult, CopyFits;
    MountRan(d, fa, d', fa', mrc);
    FetchReads(Recovered(d), name, cap);
  }

  method CheckEntry(ib: Block, bb: Block, t: seq<byte>, dir: Block, i: nat, ghost v: View) returns (good: bool)
    requires |t| == TABLE_BYTES && i < DIRENTS
    requires v == View(Bits(ib, MAX_INODES), Bits(bb, MAX_BLOCKS), Inodes(t), Entries(dir))
    ensures good == EntryOk(v, v.dir[i])
  {
    assert v.dir[i] == EntryAt(dir, i);
    if Get(dir, 40 * i, 4) == 0 {
      return true;
    }
    var ino := Get(dir, 40 * i + 4, 4);
    if ino >= MAX_INODES || !Test(ib, ino) {
      return false;
    }
    assert v.inodes[ino] == InodeAt(t, ino);
    if Get(t, 128 * ino, 4) == 0 || Get(t, 128 * ino + 4, 4) != 1 || Get(t, 128 * ino + 8, 4) > BLOCK_SIZE {
      return false;
    }
    var block := Get(t, 128 * ino + 12, 4);
    if block < DATA_START || block >= MAX_BLOCKS || !Test(bb, block) {
      return false;
    }
    return true;
  }

  method Check(dev: Device) returns (rc: int)
    requires dev.Valid()
    ensures rc == if CleanView(ViewOf(dev.Contents())) then OK else E_CORRUPT
  {
    ghost var v := ViewOf(dev.Contents());
    var ib, bb, dir;
    rc, ib := dev.ReadBlock(INODE_BITMAP);
    rc, bb := dev.ReadBlock(BLOCK_BITMAP);
    var t := LoadTable(dev);
    rc, dir := dev.ReadBlock(ROOT_DIR);
    assert v.inodes[0] == InodeAt(t, 0) && v.ib[0] == Test(ib, 0);
    if !Test(ib, 0) || Get(t, 0, 4) != 1 || Get(t, 4, 4) != 2 || Get(t, 12, 4) != ROOT_DIR {
      return E_CORRUPT;
    }
    for b := 0 to DATA_START
      invariant forall j | 0 <= j < b :: v.bb[j]
    {
      assert v.bb[b] == Test(bb, b);
      if !Test(bb, b) {
        return E_CORRUPT;
      }
    }
    for i := 0 to DIRENTS
      invariant forall j | 0 <= j < i :: EntryOk(v, v.dir[j])
    {
      var good := CheckEntry(ib, bb, t, dir, i, v);
      if !good {
        return E_CORRUPT;
      }
    }
    return OK;
  }

  /** The checker: it replays the journal, and then says OK exactly on the clean disks. */
  method Fsck(dev: Device) returns (rc: int)
    requires dev.Valid()
    modifies dev`writes, dev`failAfter, dev.blocks
    ensures dev.Valid()
    ensures exists mrc ::
      && Ran(MountPlan(old(dev.Contents())), old(dev.Contents()), old(dev.failAfter), dev.Contents(), dev.failAfter, mrc)
      && (mrc != OK ==> rc == mrc)
      && (mrc == OK ==> rc == if CleanView(ViewOf(Recovered(old(dev.Contents())))) then OK else E_CORRUPT)
    ensures old(Accepted(dev.Contents())) ==> Accepted(dev.Contents()) && (rc == OK || (rc == E_IO && old(dev.failAfter) >= 0))
  {
    ghost var d0, fa0 := dev.Contents(), dev.failAfter;
    var sb;
    rc, sb := Mount(dev);
    ghost var mrc := rc;
    if Accepted(d0) {
      MountRan(d0, fa0, dev.Contents(), dev.failAfter, rc);
    }
    if rc == OK {
      rc := Check(dev);
    }
    assert Ran(MountPlan(old(dev.Contents())), old(dev.Contents()), old(dev.failAfter), dev.Contents(), dev.failAfter, mrc);
  }

  // ---- format ----

  function SuperHead(): Block
  {
    var b := Put(ZERO_BLOCK, 0, 8, MAGIC);
    var b := Put(b, 8, 4, VERSION);
    Put(b, 12, 4, BLOCK_SIZE)
  }

  function SuperLayout(b: Block): Block
  {
    var b := Put(b, 16, 4, MAX_BLOCKS);
    var b := Put(b, 20, 4, START);
    var b := Put(b, 24, 4, JOURNAL_BLOCKS);
    var b := Put(b, 28, 4, INODE_BITMAP);
    var b := Put(b, 32, 4, BLOCK_BITMAP);
    var b := Put(b, 36, 4, INODE_TABLE);
    Put(b, 40, 4, TABLE_BLOCKS)
  }

  function SuperTail(b: Block): Block
  {
    var b := Put(b, 44, 4, ROOT_DIR);
    var b := Put(b, 48, 4, DATA_START);
    Put(b, 52, 4, 1)
  }

  function SuperBlock(): Block
  {
    SuperTail(SuperLayout(SuperHead()))
  }

  lemma SuperHeadFields()
    ensures Get(SuperHead(), 0, 8) == MAGIC && Get(SuperHead(), 8, 4) == VERSION && Get(SuperHead(), 12, 4) == BLOCK_SIZE
  {
    Ranges();
    var b0 := Put(ZERO_BLOCK, 0, 8, MAGIC);
    var b1 := Put(b0, 8, 4, VERSION);
    GetPutSame(ZERO_BLOCK, 0, 8, MAGIC);
    PutKeeps(b0, 8, 4, VERSION);
    GetPutSame(b0, 8, 4, VERSION);
    PutKeeps(b1, 12, 4, BLOCK_SIZE);
    GetPutSame(b1, 12, 4, BLOCK_SIZE);
  }

  lemma SuperLayoutKeeps(b: Block, o: nat, n: nat)
    requires o + n <= 16
    ensures Get(SuperLayout(b), o, n) == Get(b, o, n)
  {
    assert SuperLayout(b)[o..o + n] == b[o..o + n];
  }

  lemma SuperLayoutFields(b: Block)
    ensures var t := SuperLayout(b);
      && Get(t, 16, 4) == MAX_BLOCKS && Get(t, 20, 4) == START && Get(t, 24, 4) == JOURNAL_BLOCKS
      && Get(t, 28, 4) == INODE_BITMAP && Get(t, 32, 4) == BLOCK_BITMAP
      && Get(t, 36, 4) == INODE_TABLE && Get(t, 40, 4) == TABLE_BLOCKS
  {
    hide Put, Get;
    Ranges();
    var b1 := Put(b, 16, 4, MAX_BLOCKS);
    var b2 := Put(b1, 20, 4, START);
    var b3 := Put(b2, 24, 4, JOURNAL_BLOCKS);
    var b4 := Put(b3, 28, 4, INODE_BITMAP);
    var b5 := Put(b4, 32, 4, BLOCK_BITMAP);
    var b6 := Put(b5, 36, 4, INODE_TABLE);
    GetPutSame(b, 16, 4, MAX_BLOCKS);
    PutKeeps(b1, 20, 4, START);
    GetPutSame(b1, 20, 4, START);
    PutKeeps(b2, 24, 4, JOURNAL_BLOCKS);
    GetPutSame(b2, 24, 4, JOURNAL_BLOCKS);
    PutKeeps(b3, 28, 4, INODE_BITMAP);
    GetPutSame(b3, 28, 4, INODE_BITMAP);
    PutKeeps(b4, 32, 4, BLOCK_BITMAP);
    GetPutSame(b4, 32, 4, BLOCK_BITMAP);
    PutKeeps(b5, 36, 4, INODE_TABLE);
    GetPutSame(b5, 36, 4, INODE_TABLE);
    PutKeeps(b6, 40, 4, TABLE_BLOCKS);
    GetPutSame(b6, 40, 4, TABLE_BLOCKS);
  }

  lemma SuperTailKeeps(b: Block, o: nat, n: nat)
    requires o + n <= 44
    ensures Get(SuperTail(b), o, n) == Get(b, o, n)
  {
    assert SuperTail(b)[o..o + n] == b[o..o + n];
  }

  lemma SuperTailFields(b: Block)
    ensures Get(SuperTail(b), 44, 4) == ROOT_DIR && Get(SuperTail(b), 48, 4) == DATA_START && Get(SuperTail(b), 52, 4) == 1
  {
    Ranges();
    var b1 := Put(b, 44, 4, ROOT_DIR);
    var b2 := Put(b1, 48, 4, DATA_START);
    GetPutSame(b, 44, 4, ROOT_DIR);
    PutKeeps(b1, 48, 4, DATA_START);
    GetPutSame(b1, 48, 4, DATA_START);
    PutKeeps(b2, 52, 4, 1);
    GetPutSame(b2, 52, 4, 1);
  }

  lemma SuperBlockOk()
    ensures SuperOk(SuperBlock())
  {
    hide SuperHead, SuperLayout, SuperTail, Get;
    var h := SuperHead();
    var m := SuperLayout(h);
    SuperHeadFields();
    SuperLayoutKeeps(h, 0, 8);
    SuperLayoutKeeps(h, 8, 4);
    SuperLayoutKeeps(h, 12, 4);
    SuperTailKeeps(m, 0, 8);
    SuperTailKeeps(m, 8, 4);
    SuperTailKeeps(m, 12, 4);
    SuperTailFields(m);
  }

  /** The superblock a format writes records where every region starts and how long it is. */
  lemma SuperBlockRegions()
    ensures var b := SuperBlock();
      && Get(b, 16, 4) == MAX_BLOCKS && Get(b, 20, 4) == START && Get(b, 24, 4) == JOURNAL_BLOCKS
      && Get(b, 28, 4) == INODE_BITMAP && Get(b, 32, 4) == BLOCK_BITMAP
      && Get(b, 36, 4) == INODE_TABLE && Get(b, 40, 4) == TABLE_BLOCKS && Get(b, 52, 4) == 1
  {
    hide SuperHead, SuperLayout, SuperTail, Get;
    var h := SuperHead();
    var m := SuperLayout(h);
    SuperLayoutFields(h);
    SuperTailKeeps(m, 16, 4);
    SuperTailKeeps(m, 20, 4);
    SuperTailKeeps(m, 24, 4);
    SuperTailKeeps(m, 28, 4);
    SuperTailKeeps(m, 32, 4);
    SuperTailKeeps(m, 36, 4);
    SuperTailKeeps(m, 40, 4);
    SuperTailFields(m);
  }

  function RootTable(): (t: seq<byte>)
    ensures |t| == TABLE_BYTES
  {
    var t := Put(Zeros(TABLE_BYTES), 0, 4, 1);
    var t := Put(t, 4, 4, 2);
    var t := Put(t, 8, 4, 0);
    Put(t, 12, 4, ROOT_DIR)
  }

  lemma RootTableFields()
    ensures InodeAt(RootTable(), 0) == Inode(1, 2, 0, ROOT_DIR)
  {
    Ranges();
    var t0 := Zeros(TABLE_BYTES);
    var t1 := Put(t0, 0, 4, 1);
    var t2 := Put(t1, 4, 4, 2);
    var t3 := Put(t2, 8, 4, 0);
    GetPutSame(t0, 0, 4, 1);
    PutKeeps(t1, 4, 4, 2);
    GetPutSame(t1, 4, 4, 2);
    PutKeeps(t2, 8, 4, 0);
    GetPutSame(t2, 8, 4, 0);
    PutKeeps(t3, 12, 4, ROOT_DIR);
    GetPutSame(t3, 12, 4, ROOT_DIR);
  }

  /** What a completed format leaves on the disk. */
  ghost predicate Formatted(d: Disk)
  {
    && d[0] == SuperBlock() && d[START] == ZERO_BLOCK && d[ROOT_DIR] == ZERO_BLOCK
    && (forall j: nat | j < MAX_INODES :: Test(d[INODE_BITMAP], j) == (j == 0))
    && (forall j: nat | j < MAX_BLOCKS :: Test(d[BLOCK_BITMAP], j) == (j < DATA_START))
    && Table(d) == RootTable()
  }

  lemma ZeroEntryUnused(i: nat)
    requires i < DIRENTS
    ensures !EntryAt(ZERO_BLOCK, i).used
  {
    GetZeros(BLOCK_SIZE, 40 * i, 4);
  }

  lemma FormattedView(d: Disk)
    requires Formatted(d)
    ensures CleanView(ViewOf(d)) && forall i | 0 <= i < DIRENTS :: !ViewOf(d).dir[i].used
  {
    hide SuperBlock, RootTable, InodeAt, EntryAt;
    RootTableFields();
    var v := ViewOf(d);
    assert v.inodes[0] == InodeAt(RootTable(), 0);
    forall i | 0 <= i < DIRENTS
      ensures !v.dir[i].used
    {
      ZeroEntryUnused(i);
      assert v.dir[i] == EntryAt(ZERO_BLOCK, i);
    }
  }

  lemma NoEntriesNoFiles(d: Disk, n: CString)
    requires Accepted(d) && Recovered(d) == d && forall i | 0 <= i < DIRENTS :: !ViewOf(d).dir[i].used
    ensures Reads(d, n) == None
  {
    hide RecoverPlan, EntryAt;
    var r := FindFrom(ViewOf(d).dir, n, 0);
  }

  /** A formatted disk passes the checker and holds no file. */
  lemma FormattedIsAccepted(d: Disk)
    requires Formatted(d)
    ensures Accepted(d) && forall n: CString :: Reads(d, n) == None
  {
    hide SuperBlock, RootTable, ViewOf, SuperOk, CleanView, RecoverPlan, HeaderEmpty, Reads;
    SuperBlockOk();
    ZeroHeaderIsEmpty();
    EmptyRecovers(d);
    FormattedView(d);
    assert Clean(d);
    forall n: CString
      ensures Reads(d, n) == None
    {
      NoEntriesNoFiles(d, n);
    }
  }

  method StoreTable(dev: Device, t: seq<byte>) returns (rc: int)
    requires dev.Valid() && |t| == TABLE_BYTES
    modifies dev`writes, dev`failAfter, dev.blocks
    ensures dev.Valid()
    ensures old(dev.failAfter) < 0 ==> rc == OK && dev.failAfter < 0
    ensures rc == OK ==> Table(dev.Contents()) == t
    ensures rc == OK ==> forall lba: Lba | lba < INODE_TABLE || lba >= ROOT_DIR :: dev.Contents()[lba] == old(dev.Contents())[lba]
  {
    rc := OK;
    for i := 0 to TABLE_BLOCKS
      invariant dev.Valid() && rc == OK
      invariant old(dev.failAfter) < 0 ==> dev.failAfter < 0
      invariant forall j | 0 <= j < i :: dev.Contents()[INODE_TABLE + j] == t[512 * j..512 * (j + 1)]
      invariant forall lba: Lba | lba < INODE_TABLE || lba >= ROOT_DIR :: dev.Contents()[lba] == old(dev.Contents())[lba]
    {
      rc := dev.WriteBlock(INODE_TABLE + i, t[512 * i..512 * (i + 1)]);
      if rc != OK {
        return;
      }
    }
    var d := dev.Contents();
    assert d[INODE_TABLE + 0] == t[512 * 0..512 * 1] && d[INODE_TABLE + 1] == t[512 * 1..512 * 2];
    assert d[INODE_TABLE + 2] == t[512 * 2..512 * 3] && d[INODE_TABLE + 3] == t[512 * 3..512 * 4];
    TableRoundTrip(d, t);
  }

  method Format(dev: Device) returns (rc: int)
    requires dev.Valid()
    modifies dev`writes, dev`failAfter, dev.blocks
    ensures dev.Valid()
    ensures old(dev.failAfter) < 0 ==> rc == OK
    ensures rc == OK ==> Formatted(dev.Contents())
    ensures rc == OK ==> Accepted(dev.Contents()) && forall n: CString :: Reads(dev.Contents(), n) == None
  {
    hide SuperBlock, RootTable, Ran, Accepted, Reads;
    for i := 0 to MAX_BLOCKS
      invariant dev.Valid() && dev.failAfter == old(dev.failAfter)
    {
      dev.blocks[i] := ZERO_BLOCK;
    }
    rc := dev.WriteBlock(0, SuperBlock());
    if rc != OK {
      return;
    }
    var ib := Mark(ZERO_BLOCK, 0, true);
    var bb: Block := ZERO_BLOCK;
    NoBitsSet();
    for i := 0 to DATA_START
      invariant forall j: nat | j < 8 * BLOCK_SIZE :: Test(bb, j) == (j < i)
    {
      bb := Mark(bb, i, true);
    }
    rc := dev.WriteBlock(INODE_BITMAP, ib);
    if rc != OK {
      return;
    }
    rc := dev.WriteBlock(BLOCK_BITMAP, bb);
    if rc != OK {
      return;
    }
    ghost var d := dev.Contents();
    rc := StoreTable(dev, RootTable());
    if rc != OK {
      return;
    }
    rc := dev.WriteBlock(ROOT_DIR, ZERO_BLOCK);
    if rc != OK {
      return;
    }
    rc := dev.WriteBlock(START, ZERO_BLOCK);
    if rc == OK {
      assert Table(dev.Contents()) == RootTable();
      FormattedIsAccepted(dev.Contents());
    }
  }
}
