/**
  MCSFS1 on a block device: format, mount, create, write, read, unlink, stat and
  check.  A volume stands for a map from names to byte strings, and every
  operation is proved to do to that map what its name says.
 */
module Mcsfs1 {
  import opened Bytes
  import opened Bitmap
  import opened CStrings
  import opened Mcsfs1Layout
  import opened Mcsfs1Files

  // ---- single block updates, as views ----

  lemma SameInodes(d: Disk, e: Disk)
    requires |e| == |d| && forall b | TABLE_LBA <= b < ROOT_LBA :: e[b] == d[b]
    ensures Inodes(e) == Inodes(d)
  {
    hide InodeOf;
    forall i | 0 <= i < MAX_INODES
      ensures Inodes(e)[i] == Inodes(d)[i]
    {
      assert InodeBytesAt(e, i + 1) == InodeBytesAt(d, i + 1);
    }
  }

  lemma MarkInode(d: Disk, ino: nat, val: bool)
    requires ino <= MAX_INODES
    ensures ViewOf(d[IB_LBA := Mark(d[IB_LBA], ino, val)]) == ViewOf(d).(ib := ViewOf(d).ib[ino := val])
  {
    hide InodeOf, EntryAt;
    var e := d[IB_LBA := Mark(d[IB_LBA], ino, val)];
    assert Bits(e[IB_LBA], MAX_INODES + 1) == Bits(d[IB_LBA], MAX_INODES + 1)[ino := val];
    SameInodes(d, e);
  }

  lemma MarkBlock(d: Disk, lba: nat, val: bool)
    requires lba < |d|
    ensures ViewOf(d[BB_LBA := Mark(d[BB_LBA], lba, val)]) == ViewOf(d).(bb := ViewOf(d).bb[lba := val])
  {
    hide InodeOf, EntryAt;
    var e := d[BB_LBA := Mark(d[BB_LBA], lba, val)];
    assert Bits(e[BB_LBA], |e|) == Bits(d[BB_LBA], |d|)[lba := val];
    SameInodes(d, e);
  }

  lemma StoreDir(d: Disk, b: Block)
    ensures ViewOf(d[ROOT_LBA := b]) == ViewOf(d).(dir := Entries(b))
  {
    hide InodeOf, EntryAt;
    SameInodes(d, d[ROOT_LBA := b]);
  }

  lemma StoreData(d: Disk, lba: nat, b: Block)
    requires DATA_START <= lba < |d|
    ensures ViewOf(d[lba := b]) == ViewOf(d)
  {
    hide InodeOf, EntryAt;
    SameInodes(d, d[lba := b]);
  }

  // ---- names ----

  function NameCode(name: CString): int
  {
    if name == [] then E_INVAL
    else if |name| > MAX_NAME then E_NAMETOOLONG
    else if '/' as int in name then E_INVAL
    else OK
  }

  /** A name is refused exactly if it is empty, has more than 27 characters or contains a slash; too long is said before slash. */
  lemma NameCodeExactly(name: CString)
    ensures NameCode(name) == OK <==> 0 < |name| <= 27 && forall c | c in name :: c != 47
    ensures NameCode(name) == E_NAMETOOLONG <==> |name| > 27
    ensures NameCode(name) in {OK, E_NAMETOOLONG, E_INVAL}
  {
    assert '/' as int == 47;
  }

  method ValidName(name: CString) returns (rc: int)
    ensures rc == NameCode(name)
  {
    var n := if |name| > MAX_NAME + 1 then MAX_NAME + 1 else |name|;
    if n == 0 {
      return E_INVAL;
    }
    if n > MAX_NAME {
      return E_NAMETOOLONG;
    }
    for i := 0 to n
      invariant '/' as int !in name[..i]
    {
      if name[i] == '/' as int {
        return E_INVAL;
      }
    }
    assert name[..n] == name;
    return OK;
  }

  /** Reading up to `max` bytes of a string from `off` stays inside the buffer. */
  ghost predicate Bounded(b: seq<byte>, off: nat, max: nat)
  {
    off + max <= |b| || exists z :: off <= z < |b| && b[z] == 0
  }

  /** The number of bytes from `off` before a zero byte, looking at `max` bytes at most. */
  ghost function Strlen(b: seq<byte>, off: nat, max: nat): (n: nat)
    requires off <= |b| && Bounded(b, off, max)
    ensures n <= max && off + n <= |b| && forall z | off <= z < off + n :: b[z] != 0
    ensures n < max ==> off + n < |b| && b[off + n] == 0
    decreases max
  {
    if max == 0 || b[off] == 0 then 0 else 1 + Strlen(b, off + 1, max - 1)
  }

  method StrlenBound(b: Block, off: nat, max: nat) returns (n: nat)
    requires off <= BLOCK_SIZE && Bounded(b, off, max)
    ensures n == Strlen(b, off, max)
  {
    n := 0;
    while n < max && b[off + n] != 0
      invariant n <= max && off + n <= BLOCK_SIZE && Bounded(b, off + n, max - n)
      invariant n + Strlen(b, off + n, max - n) == Strlen(b, off, max)
    {
      n := n + 1;
    }
  }

  /** Looking at slot `i` stays inside the block: a name that fills the field of the last slot has no end there. */
  predicate Safe(b: Block, i: nat)
    requires i < DIRENTS
  {
    i + 1 < DIRENTS || EntryAt(b, i).ino == 0 || |EntryAt(b, i).name| < MAX_NAME
  }

  lemma {:induction false} ZeroAt(a: seq<byte>) returns (z: nat)
    requires |CName(a)| < |a|
    ensures z < |a| && a[z] == 0
  {
    z := 0;
    if a[0] != 0 {
      z := ZeroAt(a[1..]);
      z := z + 1;
    }
  }

  lemma SafeBounded(b: Block, i: nat)
    requires i < DIRENTS && Safe(b, i) && EntryAt(b, i).ino != 0
    ensures Bounded(b, 32 * i + 5, MAX_NAME + 1)
  {
    if i + 1 == DIRENTS {
      var z := ZeroAt(b[32 * i + 5..32 * i + 32]);
      assert b[32 * i + 5 + z] == 0;
    }
  }

  /** The test the lookup makes on slot `i`. */
  ghost predicate Finds(b: Block, i: nat, name: CString)
    requires i < DIRENTS && |name| <= MAX_NAME && Safe(b, i)
  {
    EntryAt(b, i).ino != 0 &&
    (SafeBounded(b, i); Strlen(b, 32 * i + 5, MAX_NAME + 1) == |name| && b[32 * i + 5..32 * i + 5 + |name|] == name)
  }

  method SlotMatches(b: Block, i: nat, name: CString) returns (r: bool)
    requires i < DIRENTS && |name| <= MAX_NAME && Safe(b, i)
    ensures r == Finds(b, i, name)
  {
    if Get(b, 32 * i, 4) == 0 {
      return false;
    }
    SafeBounded(b, i);
    var n := StrlenBound(b, 32 * i + 5, MAX_NAME + 1);
    r := n == |name| && b[32 * i + 5..32 * i + 5 + n] == name;
  }

  /** A slot whose name is shorter than its field is found exactly under that name. */
  lemma ShortNameFound(b: Block, i: nat, name: CString)
    requires i < DIRENTS && |name| <= MAX_NAME && (EntryAt(b, i).ino != 0 ==> |EntryAt(b, i).name| < MAX_NAME)
    ensures Finds(b, i, name) <==> EntryAt(b, i).ino != 0 && EntryAt(b, i).name == name
  {
    if EntryAt(b, i).ino != 0 {
      SafeBounded(b, i);
      var field, n := b[32 * i + 5..32 * i + 32], Strlen(b, 32 * i + 5, MAX_NAME + 1);
      var z := ZeroAt(field);
      assert b[32 * i + 5 + z] == 0;
      assert field[..n] == b[32 * i + 5..32 * i + 5 + n] && field[n] == b[32 * i + 5 + n];
      CNameSplit(field, n);
      assert CName(field[n..]) == [];
    }
  }

  /** The first slot from `i` on that the lookup takes for the name, or the number of slots. */
  ghost function LookupFrom(b: Block, name: CString, i: nat): (r: nat)
    requires i <= DIRENTS && |name| <= MAX_NAME && Safe(b, DIRENTS - 1)
    ensures i <= r <= DIRENTS && (r < DIRENTS ==> Finds(b, r, name))
    ensures forall k | i <= k < r :: !Finds(b, k, name)
    decreases DIRENTS - i
  {
    if i == DIRENTS || Finds(b, i, name) then i else LookupFrom(b, name, i + 1)
  }

  method Lookup(b: Block, name: CString) returns (r: nat)
    requires |name| <= MAX_NAME && Safe(b, DIRENTS - 1)
    ensures r == LookupFrom(b, name, 0)
  {
    r := 0;
    while r < DIRENTS
      invariant r <= DIRENTS && LookupFrom(b, name, r) == LookupFrom(b, name, 0)
    {
      var hit := SlotMatches(b, r, name);
      if hit {
        return;
      }
      r := r + 1;
    }
  }

  /** The first free slot from `i` on, or the number of slots. */
  function FirstFree(dir: seq<Entry>, i: nat): (r: nat)
    requires i <= |dir|
    ensures i <= r <= |dir| && (r < |dir| ==> dir[r].ino == 0) && forall k | i <= k < r :: dir[k].ino != 0
    decreases |dir| - i
  {
    if i == |dir| || dir[i].ino == 0 then i else FirstFree(dir, i + 1)
  }

  // ---- superblock ----

  predicate SuperOk(sb: Block, n: nat)
  {
    && Get(sb, 0, 4) == MAGIC && Get(sb, 4, 4) == VERSION && Get(sb, 8, 4) == BLOCK_SIZE
    && Get(sb, 12, 4) == n && Get(sb, 16, 4) == MAX_INODES
    && Get(sb, 20, 4) == IB_LBA && Get(sb, 24, 4) == BB_LBA && Get(sb, 28, 4) == TABLE_LBA
    && Get(sb, 36, 4) == ROOT_INO && Get(sb, 40, 4) == ROOT_LBA && Get(sb, 44, 4) == DATA_START
    && Get(sb, 44, 4) < Get(sb, 12, 4)
  }

  /** The disk a create leaves. */
  function CreateDisk(d: Disk, slot: nat, ino: Ino, lba: nat, name: CString): Disk
    requires slot < DIRENTS && lba < |d| && |name| <= MAX_NAME
  {
    var d1 := d[IB_LBA := Mark(d[IB_LBA], ino, true)];
    var d2 := d1[BB_LBA := Mark(d[BB_LBA], lba, true)];
    var d3 := StoreInode(d2, ino, NewInode(lba));
    d3[ROOT_LBA := PutEntry(d[ROOT_LBA], slot, ino, MODE_FILE, name)]
  }

  lemma DirOf(d: Disk)
    ensures ViewOf(d).dir == Entries(d[ROOT_LBA])
  {
  }

  lemma CreateDiskView(d: Disk, slot: nat, ino: Ino, lba: nat, name: CString)
    requires slot < DIRENTS && lba < |d| && |name| <= MAX_NAME
    ensures ViewOf(CreateDisk(d, slot, ino, lba, name)) == CreateView(ViewOf(d), slot, ino, lba, name)
    ensures forall b | DATA_START <= b < |d| :: CreateDisk(d, slot, ino, lba, name)[b] == d[b]
    ensures CreateDisk(d, slot, ino, lba, name)[SB_LBA] == d[SB_LBA]
  {
    hide ViewOf, NewInode, PutEntry, InodeOf, Mark, Splice;
    var d1 := d[IB_LBA := Mark(d[IB_LBA], ino, true)];
    var d2 := d1[BB_LBA := Mark(d[BB_LBA], lba, true)];
    var d3 := StoreInode(d2, ino, NewInode(lba));
    MarkInode(d, ino, true);
    MarkBlock(d1, lba, true);
    StoreInodeView(d2, ino, NewInode(lba));
    NewInodeFields(lba);
    StoreDir(d3, PutEntry(d[ROOT_LBA], slot, ino, MODE_FILE, name));
    PutEntryView(d[ROOT_LBA], slot, ino, MODE_FILE, name);
    DirOf(d);
  }

  lemma ViewBitmaps(d: Disk)
    ensures ViewOf(d).bb == Bits(d[BB_LBA], |d|)
  {
  }

  lemma StoreBlockBits(d: Disk, b: Block)
    ensures ViewOf(d[BB_LBA := b]) == ViewOf(d).(bb := Bits(b, |d|))
  {
    hide InodeOf, EntryAt;
    SameInodes(d, d[BB_LBA := b]);
  }

  /** The disk an unlink leaves, step by step. */
  lemma UnlinkDisk(d0: Disk, d1: Disk, d2: Disk, slot: nat, ino: Ino, s: InodeBytes)
    requires |d1| == |d0| && |d2| == |d0| && slot < DIRENTS && ViewOf(d0).dir[slot].ino == ino
    requires InodeOf(s) == InodeOfSlot(ViewOf(d0), slot)
    requires d1 == d0[ROOT_LBA := PutEntry(d0[ROOT_LBA], slot, 0, 0, [])]
    requires exists bb: Block ::
      && d2 == d1[IB_LBA := Mark(d1[IB_LBA], ino, false)][BB_LBA := bb]
      && Released(Bits(d1[BB_LBA], |d1|), InodeOf(s), Bits(bb, |d1|))
    ensures var e := StoreInode(d2, ino, Zeros(INODE_SIZE));
      && ViewOf(e) == UnlinkView(ViewOf(d0), slot, ViewOf(e).bb)
      && Released(ViewOf(d0).bb, InodeOf(s), ViewOf(e).bb)
      && (forall b | DATA_START <= b < |d0| :: e[b] == d0[b]) && e[SB_LBA] == d0[SB_LBA]
  {
    hide ViewOf, InodeOf, Mark, Released, Bits, PutEntry, Splice;
    var bb: Block :|
      && d2 == d1[IB_LBA := Mark(d1[IB_LBA], ino, false)][BB_LBA := bb]
      && Released(Bits(d1[BB_LBA], |d1|), InodeOf(s), Bits(bb, |d1|));
    StoreDir(d0, PutEntry(d0[ROOT_LBA], slot, 0, 0, []));
    PutEntryView(d0[ROOT_LBA], slot, 0, 0, []);
    DirOf(d0);
    ViewBitmaps(d0);
    MarkInode(d1, ino, false);
    StoreBlockBits(d1[IB_LBA := Mark(d1[IB_LBA], ino, false)], bb);
    StoreInodeView(d2, ino, Zeros(INODE_SIZE));
    ZeroInodeFields();
  }

  /** The entry of a file was cleared, and its inode and its blocks were freed. */
  ghost predicate Unlinked(v: View, v': View, name: CString)
  {
    exists i :: 0 <= i < |v.dir| && Live(v, i) && v.dir[i].name == name && 1 <= v.dir[i].ino <= |v.inodes| && v.dir[i].ino < |v.ib|
      && v' == UnlinkView(v, i, v'.bb) && Released(v.bb, InodeOfSlot(v, i), v'.bb) && MoreBits(v'.bb, v.bb)
  }

  lemma ReleasedFewer(bb: seq<bool>, f: Inode, bb': seq<bool>)
    requires Released(bb, f, bb')
    ensures MoreBits(bb', bb)
  {
  }

  lemma InodeOkMode(f: Inode, bb: seq<bool>)
    requires InodeOk(f, bb)
    ensures f.mode == MODE_FILE
  {
  }

  lemma NothingGrown(f: Inode, bb: seq<bool>)
    requires |f.direct| == DIRECT
    ensures Grown(f, f, bb) && MoreBits(bb, bb)
  {
  }

  lemma MoreBitsOne(bb: seq<bool>, lba: nat)
    requires lba < |bb|
    ensures MoreBits(bb, bb[lba := true])
  {
  }

  /** The first `needed` pointers of `g` are set; all others, and those `f` had, are as in `f`. */
  ghost predicate Extended(f: Inode, g: Inode, needed: nat)
  {
    && |g.direct| == |f.direct| >= needed && (forall j | 0 <= j < needed :: g.direct[j] != 0)
    && forall j | 0 <= j < |f.direct| && (f.direct[j] != 0 || j >= needed) :: g.direct[j] == f.direct[j]
  }

  /** The blocks of a sound inode are distinct data blocks. */
  lemma OwnBlocks(f: Inode, bb: seq<bool>, s: InodeBytes)
    requires InodeOk(f, bb) && f == InodeOf(s)
    ensures Directs(s) == f.direct
    ensures forall j | 0 <= j < DIRECT :: f.direct[j] < |bb| || f.direct[j] == 0
    ensures forall j | 0 <= j < DIRECT && f.direct[j] != 0 :: DATA_START <= f.direct[j] < |bb|
    ensures forall j, l | 0 <= j < l < DIRECT && f.direct[j] != 0 :: f.direct[j] != f.direct[l]
  {
    assert forall j | 0 <= j < DIRECT :: PointerOk(f.direct[j], bb);
  }

  lemma Resized(g: Inode, bb: seq<bool>, size: nat)
    requires InodeOk(g, bb) && size <= MAX_FILE && forall j | 0 <= j < Needed(size) :: g.direct[j] != 0
    ensures InodeOk(g.(size := size), bb)
  {
  }

  lemma GrownResized(f: Inode, g: Inode, bb: seq<bool>, size: nat)
    requires Grown(f, g, bb)
    ensures Grown(f, g.(size := size), bb)
  {
  }

  lemma ModeField(s: InodeBytes)
    ensures InodeOf(s).mode == Get(s, 0, 2)
  {
  }

  lemma DirectField(s: InodeBytes, i: nat)
    requires i < DIRECT
    ensures |InodeOf(s).direct| == DIRECT && InodeOf(s).direct[i] == Get(s, 8 + 4 * i, 4)
  {
  }

  /** Block `i` of a file's data. */
  function Chunk(data: seq<byte>, i: nat): Block
    requires BLOCK_SIZE * i <= |data|
  {
    Padded(data[BLOCK_SIZE * i..if BLOCK_SIZE * (i + 1) <= |data| then BLOCK_SIZE * (i + 1) else |data|], BLOCK_SIZE)
  }

  lemma ChunkByte(data: seq<byte>, j: nat, q: nat)
    requires q < BLOCK_SIZE && BLOCK_SIZE * j + q < |data|
    ensures Chunk(data, j)[q] == data[BLOCK_SIZE * j + q]
  {
  }

  /** A file whose blocks hold the chunks of `data` reads as `data`. */
  lemma WrittenContent(e: Disk, g: Inode, data: seq<byte>)
    requires |data| <= MAX_FILE && g.size == |data| && |g.direct| == DIRECT && forall j | 0 <= j < DIRECT :: g.direct[j] < |e|
    requires forall j | 0 <= j < Needed(|data|) :: e[g.direct[j]] == Chunk(data, j)
    ensures Content(e, g) == data
  {
    hide Chunk;
    forall p | 0 <= p < |data|
      ensures ByteAt(e, g, p) == data[p]
    {
      var j, q := p / BLOCK_SIZE, p % BLOCK_SIZE;
      assert j < Needed(|data|) && p == BLOCK_SIZE * j + q;
      assert e[g.direct[j]] == Chunk(data, j);
      ChunkByte(data, j, q);
    }
  }

  lemma InodeFields(s: InodeBytes)
    ensures var f := InodeOf(s);
      && f.mode == Get(s, 0, 2) && f.size == Get(s, 4, 4) && |f.direct| == DIRECT
      && forall j | 0 <= j < DIRECT :: f.direct[j] == Get(s, 8 + 4 * j, 4)
  {
  }

  predicate PointsToData(p: nat, bb: seq<bool>)
  {
    DATA_START <= p < |bb| && bb[p]
  }

  ghost predicate InodePasses(f: Inode, bb: seq<bool>)
  {
    && f.mode == MODE_FILE && f.size <= MAX_FILE && |f.direct| == DIRECT
    && forall j | 0 <= j < Needed(f.size) && j < DIRECT :: PointsToData(f.direct[j], bb)
  }

  /** What a mount demands of a volume. */
  ghost predicate Mountable(d: Disk)
  {
    SuperOk(d[SB_LBA], |d|) && ViewOf(d).inodes[0].mode == MODE_DIR && ViewOf(d).inodes[0].direct[0] == ROOT_LBA
  }

  /** What the checker demands of a directory entry in use. */
  ghost predicate EntryPasses(v: View, n: nat, e: Entry)
    requires Shaped(v, n) && e.ino != 0
  {
    && e.ino <= MAX_INODES && e.kind == MODE_FILE && v.ib[e.ino]
    && InodePasses(v.inodes[e.ino - 1], v.bb)
  }

  /** What the checker demands of a volume. */
  ghost predicate Passes(v: View, n: nat)
    requires Shaped(v, n)
  {
    MetaOk(v, n) && forall i | 0 <= i < DIRENTS && Live(v, i) :: EntryPasses(v, n, v.dir[i])
  }

  /** A consistent volume passes the checker. */
  lemma ConsistentPasses(v: View, n: nat)
    requires Consistent(v, n)
    ensures Passes(v, n)
  {
    hide Disjoint;
    forall i | 0 <= i < DIRENTS && Live(v, i)
      ensures EntryPasses(v, n, v.dir[i])
    {
      assert EntryOk(v, n, v.dir[i]);
      var f := v.inodes[v.dir[i].ino - 1];
      assert forall j | 0 <= j < DIRECT :: PointerOk(f.direct[j], v.bb);
    }
  }

  // ---- format ----

  function SuperHead(n: nat): Block
  {
    var b := Put(ZERO_BLOCK, 0, 4, MAGIC);
    var b := Put(b, 4, 4, VERSION);
    var b := Put(b, 8, 4, BLOCK_SIZE);
    var b := Put(b, 12, 4, n);
    var b := Put(b, 16, 4, MAX_INODES);
    Put(b, 20, 4, IB_LBA)
  }

  function SuperTail(b: Block): Block
  {
    var b := Put(b, 24, 4, BB_LBA);
    var b := Put(b, 28, 4, TABLE_LBA);
    var b := Put(b, 32, 4, TABLE_BLOCKS);
    var b := Put(b, 36, 4, ROOT_INO);
    var b := Put(b, 40, 4, ROOT_LBA);
    var b := Put(b, 44, 4, DATA_START);
    Put(b, 48, 4, 1)
  }

  function SuperBlock(n: nat): Block
  {
    SuperTail(SuperHead(n))
  }

  lemma SuperHeadFields(n: nat)
    requires n < U32
    ensures var b := SuperHead(n);
      && Get(b, 0, 4) == MAGIC && Get(b, 4, 4) == VERSION && Get(b, 8, 4) == BLOCK_SIZE
      && Get(b, 12, 4) == n && Get(b, 16, 4) == MAX_INODES && Get(b, 20, 4) == IB_LBA
  {
    hide Put, Get;
    Ranges();
    var b0 := Put(ZERO_BLOCK, 0, 4, MAGIC);
    var b1 := Put(b0, 4, 4, VERSION);
    var b2 := Put(b1, 8, 4, BLOCK_SIZE);
    var b3 := Put(b2, 12, 4, n);
    var b4 := Put(b3, 16, 4, MAX_INODES);
    GetPutSame(ZERO_BLOCK, 0, 4, MAGIC);
    PutKeeps(b0, 4, 4, VERSION);
    GetPutSame(b0, 4, 4, VERSION);
    PutKeeps(b1, 8, 4, BLOCK_SIZE);
    GetPutSame(b1, 8, 4, BLOCK_SIZE);
    PutKeeps(b2, 12, 4, n);
    GetPutSame(b2, 12, 4, n);
    PutKeeps(b3, 16, 4, MAX_INODES);
    GetPutSame(b3, 16, 4, MAX_INODES);
    PutKeeps(b4, 20, 4, IB_LBA);
    GetPutSame(b4, 20, 4, IB_LBA);
  }

  lemma SuperTailKeeps(b: Block, o: nat, n: nat)
    requires o + n <= 24
    ensures Get(SuperTail(b), o, n) == Get(b, o, n)
  {
    assert SuperTail(b)[o..o + n] == b[o..o + n];
  }

  lemma SuperTailFields(b: Block)
    ensures var t := SuperTail(b);
      && Get(t, 24, 4) == BB_LBA && Get(t, 28, 4) == TABLE_LBA
      && Get(t, 36, 4) == ROOT_INO && Get(t, 40, 4) == ROOT_LBA && Get(t, 44, 4) == DATA_START
      && Get(t, 32, 4) == TABLE_BLOCKS && Get(t, 48, 4) == 1
  {
    hide Put, Get;
    Ranges();
    var b1 := Put(b, 24, 4, BB_LBA);
    var b2 := Put(b1, 28, 4, TABLE_LBA);
    var b3 := Put(b2, 32, 4, TABLE_BLOCKS);
    var b4 := Put(b3, 36, 4, ROOT_INO);
    var b5 := Put(b4, 40, 4, ROOT_LBA);
    var b6 := Put(b5, 44, 4, DATA_START);
    GetPutSame(b, 24, 4, BB_LBA);
    PutKeeps(b1, 28, 4, TABLE_LBA);
    GetPutSame(b1, 28, 4, TABLE_LBA);
    PutKeeps(b2, 32, 4, TABLE_BLOCKS);
    GetPutSame(b2, 32, 4, TABLE_BLOCKS);
    PutKeeps(b3, 36, 4, ROOT_INO);
    GetPutSame(b3, 36, 4, ROOT_INO);
    PutKeeps(b4, 40, 4, ROOT_LBA);
    GetPutSame(b4, 40, 4, ROOT_LBA);
    PutKeeps(b5, 44, 4, DATA_START);
    GetPutSame(b5, 44, 4, DATA_START);
    PutKeeps(b6, 48, 4, 1);
    GetPutSame(b6, 48, 4, 1);
  }

  lemma SuperBlockOk(n: nat)
    requires MIN_BLOCKS <= n <= MAX_BLOCKS
    ensures SuperOk(SuperBlock(n), n) && Get(SuperBlock(n), 32, 4) == TABLE_BLOCKS && Get(SuperBlock(n), 48, 4) == 1
  {
    hide SuperHead, SuperTail, Get;
    var h := SuperHead(n);
    SuperHeadFields(n);
    SuperTailKeeps(h, 0, 4);
    SuperTailKeeps(h, 4, 4);
    SuperTailKeeps(h, 8, 4);
    SuperTailKeeps(h, 12, 4);
    SuperTailKeeps(h, 16, 4);
    SuperTailKeeps(h, 20, 4);
    SuperTailFields(h);
  }

  function RootInode(): InodeBytes
  {
    var s := Put(Zeros(INODE_SIZE), 0, 2, MODE_DIR);
    var s := Put(s, 2, 2, 1);
    var s := Put(s, 4, 4, BLOCK_SIZE);
    Put(s, 8, 4, ROOT_LBA)
  }

  lemma RootInodeFields()
    ensures InodeOf(RootInode()).mode == MODE_DIR && InodeOf(RootInode()).direct[0] == ROOT_LBA
    ensures InodeOf(RootInode()).size == BLOCK_SIZE && Get(RootInode(), 2, 2) == 1
  {
    hide Put, Get;
    Ranges();
    var s0 := Zeros(INODE_SIZE);
    var s1 := Put(s0, 0, 2, MODE_DIR);
    var s2 := Put(s1, 2, 2, 1);
    var s3 := Put(s2, 4, 4, BLOCK_SIZE);
    GetPutSame(s0, 0, 2, MODE_DIR);
    PutKeeps(s1, 2, 2, 1);
    GetPutSame(s1, 2, 2, 1);
    PutKeeps(s2, 4, 4, BLOCK_SIZE);
    GetPutSame(s2, 4, 4, BLOCK_SIZE);
    PutKeeps(s3, 8, 4, ROOT_LBA);
    GetPutSame(s3, 8, 4, ROOT_LBA);
  }

  lemma ZeroEntryFree(i: nat)
    requires i < DIRENTS
    ensures EntryAt(ZERO_BLOCK, i).ino == 0
  {
    GetZeros(BLOCK_SIZE, 32 * i, 4);
  }

  /** No file yet: every slot, every inode from 2 on and every data block is free. */
  ghost predicate Blank(v: View)
  {
    && (forall i | 0 <= i < |v.dir| :: v.dir[i].ino == 0)
    && (forall i | 0 <= i < |v.ib| :: v.ib[i] == (i < 2)) && (forall b | DATA_START <= b < |v.bb| :: !v.bb[b])
  }

  lemma FormattedBlank(d: Disk)
    requires d[ROOT_LBA] == ZERO_BLOCK && (forall k: nat | k < 8 * BLOCK_SIZE :: Test(d[IB_LBA], k) == (k < 2))
    requires forall k: nat | DATA_START <= k < 8 * BLOCK_SIZE :: !Test(d[BB_LBA], k)
    ensures Blank(ViewOf(d))
  {
    hide InodeOf, EntryAt;
    var v := ViewOf(d);
    forall i | 0 <= i < DIRENTS
      ensures v.dir[i].ino == 0
    {
      ZeroEntryFree(i);
      assert v.dir[i] == EntryAt(ZERO_BLOCK, i);
    }
  }

  /** A formatted disk is consistent and stands for the empty map. */
  lemma FormattedRepresents(d: Disk)
    requires Test(d[IB_LBA], ROOT_INO) && forall b | 0 <= b < DATA_START :: Test(d[BB_LBA], b)
    requires InodeBytesAt(d, ROOT_INO) == RootInode() && d[ROOT_LBA] == ZERO_BLOCK
    ensures Represents(d, map[])
  {
    hide InodeOf, EntryAt, RootInode, EntryOk, Apart;
    var v := ViewOf(d);
    RootInodeFields();
    assert v.inodes[0] == InodeOf(RootInode());
    forall i | 0 <= i < DIRENTS
      ensures !Live(v, i)
    {
      ZeroEntryFree(i);
      assert v.dir[i] == EntryAt(ZERO_BLOCK, i);
    }
    ViewShaped(d);
  }

  /** Every block the size of a file takes is a block of the device. */
  ghost predicate Readable(f: Inode, n: nat)
  {
    |f.direct| == DIRECT && f.size <= MAX_FILE && forall j | 0 <= j < DIRECT && BLOCK_SIZE * j < f.size :: 0 < f.direct[j] < n
  }

  lemma LiveReadable(f: Inode, bb: seq<bool>)
    requires InodeOk(f, bb)
    ensures Readable(f, |bb|)
  {
    forall j | 0 <= j < DIRECT && BLOCK_SIZE * j < f.size
      ensures 0 < f.direct[j] < |bb|
    {
      assert j < Needed(f.size) && PointerOk(f.direct[j], bb);
    }
  }

  lemma ReadsContent(d: Disk, f: Inode, out: seq<byte>)
    requires f.size <= MAX_FILE && |f.direct| == DIRECT && forall j | 0 <= j < DIRECT :: f.direct[j] < |d|
    requires |out| == f.size && forall p | 0 <= p < f.size :: out[p] == ByteAt(d, f, p)
    ensures out == Content(d, f)
  {
  }

  /** Bytes of block `i` of a file. */
  lemma ChunkBytes(d: Disk, f: Inode, i: nat, chunk: nat)
    requires i < |f.direct| && f.direct[i] < |d| && chunk <= BLOCK_SIZE
    ensures forall p | BLOCK_SIZE * i <= p < BLOCK_SIZE * i + chunk ::
      p / BLOCK_SIZE == i && ByteAt(d, f, p) == d[f.direct[i]][p - BLOCK_SIZE * i]
  {
  }

  /** The number of free data blocks. */
  function Room(bb: seq<bool>): nat
  {
    if |bb| <= DATA_START then 0 else Room(bb[..|bb| - 1]) + if bb[|bb| - 1] then 0 else 1
  }

  /** The number of missing blocks among the first `n` of an inode. */
  function Lacking(direct: seq<nat>, n: nat): nat
    requires n <= |direct|
  {
    if n == 0 then 0 else Lacking(direct, n - 1) + if direct[n - 1] == 0 then 1 else 0
  }

  lemma {:induction false} RoomTake(bb: seq<bool>, lba: nat)
    requires DATA_START <= lba < |bb| && !bb[lba]
    ensures Room(bb) == Room(bb[lba := true]) + 1
    decreases |bb|
  {
    var k := |bb| - 1;
    if lba == k {
      assert bb[lba := true][..k] == bb[..k];
    } else {
      assert bb[lba := true][..k] == bb[..k][lba := true];
      RoomTake(bb[..k], lba);
    }
  }

  lemma {:induction false} NoRoomLeft(bb: seq<bool>, n: nat)
    requires n <= |bb| && forall i | DATA_START <= i < n :: bb[i]
    ensures Room(bb[..n]) == 0
    decreases n
  {
    if n > DATA_START {
      assert bb[..n][..n - 1] == bb[..n - 1];
      NoRoomLeft(bb, n - 1);
    }
  }

  lemma {:induction false} RoomNone(bb: seq<bool>)
    requires DATA_START <= |bb| && FirstClear(bb, DATA_START) == |bb|
    ensures Room(bb) == 0
  {
    NoRoomLeft(bb, |bb|);
    assert bb[..|bb|] == bb;
  }

  lemma {:induction false} LackingMore(direct: seq<nat>, i: nat, n: nat)
    requires i <= n <= |direct|
    ensures Lacking(direct, i) <= Lacking(direct, n)
    decreases n
  {
    if i < n {
      LackingMore(direct, i, n - 1);
    }
  }

  ghost predicate FitsIn(v: View, i: nat, needed: nat)
    requires i < |v.dir|
  {
    && 1 <= v.dir[i].ino <= |v.inodes| && needed <= |InodeOfSlot(v, i).direct|
    && Lacking(InodeOfSlot(v, i).direct, needed) <= Room(v.bb)
  }

  /** The blocks the file lacks for `needed` blocks are free. */
  ghost predicate Fits(v: View, name: CString, needed: nat)
  {
    exists i :: 0 <= i < |v.dir| && Live(v, i) && v.dir[i].name == name && FitsIn(v, i, needed)
  }

  ghost predicate RewrittenIn(v: View, v': View, i: nat, size: nat)
    requires i < |v.dir| && 1 <= v.dir[i].ino <= |v.inodes|
  {
    var f := InodeOfSlot(v, i);
    && |v'.inodes| == |v.inodes| && |f.direct| >= Needed(size)
    && var g := v'.inodes[v.dir[i].ino - 1];
    && v' == UpdateView(v, i, v'.bb, g) && g.size == size && Extended(f, g, Needed(size))
    && MoreBits(v.bb, v'.bb) && Room(v'.bb) + Lacking(f.direct, Needed(size)) == Room(v.bb)
  }

  /** The inode of a file got the blocks it lacked and a new size; nothing else changed but the bits of these blocks. */
  ghost predicate Rewritten(v: View, v': View, name: CString, size: nat)
  {
    exists i :: 0 <= i < |v.dir| && Live(v, i) && v.dir[i].name == name && 1 <= v.dir[i].ino <= |v.inodes|
      && RewrittenIn(v, v', i, size)
  }

  /** Every data block is marked, and nothing else changed. */
  ghost predicate UsedUp(v: View, v': View)
  {
    v' == v.(bb := v'.bb) && MoreBits(v.bb, v'.bb) && Room(v'.bb) == 0
  }

  /** A file has one slot, so its room can be judged there. */
  lemma RepresentsFits(d: Disk, files: Files, slot: nat, name: CString, needed: nat)
    requires Represents(d, files) && slot < DIRENTS && Live(ViewOf(d), slot) && ViewOf(d).dir[slot].name == name
    ensures Fits(ViewOf(d), name, needed) <==> FitsIn(ViewOf(d), slot, needed)
  {
    hide ViewOf, FitsIn, Disjoint;
    var v := ViewOf(d);
    ViewShaped(d);
    assert forall i | 0 <= i < DIRENTS && Live(v, i) && i != slot :: Apart(v, |d|, v.dir[i], v.dir[slot]);
  }

  /** No directory slot, no inode or no data block is left. */
  ghost predicate NoRoom(v: View)
    requires |v.ib| == MAX_INODES + 1 && |v.dir| == DIRENTS && |v.bb| > DATA_START
  {
    || (forall i | 0 <= i < DIRENTS :: Live(v, i))
    || FirstClear(v.ib, 2) == |v.ib| || FirstClear(v.bb, DATA_START) == |v.bb|
  }

  /** The first clear bit in `[lo, hi)`, or `hi`. */
  method ScanBits(bm: Block, lo: nat, hi: nat) returns (r: nat)
    requires lo <= hi <= 8 * BLOCK_SIZE
    ensures r == FirstClear(Bits(bm, hi), lo)
  {
    for i := lo to hi
      invariant FirstClear(Bits(bm, hi), lo) == FirstClear(Bits(bm, hi), i)
    {
      assert Bits(bm, hi)[i] == Test(bm, i);
      if !Test(bm, i) {
        return i;
      }
    }
    return hi;
  }

  /** On a volume that stands for a map the lookup finds the slot of every file, and nothing for other names. */
  lemma LookupFinds(d: Disk, files: Files, name: CString)
    requires Represents(d, files) && |name| <= MAX_NAME
    ensures Safe(d[ROOT_LBA], DIRENTS - 1)
    ensures var b, v := d[ROOT_LBA], ViewOf(d);
      var slot := LookupFrom(b, name, 0);
      && (name in files <==> slot < DIRENTS)
      && (slot < DIRENTS ==>
            Live(v, slot) && v.dir[slot] == EntryAt(b, slot) && v.dir[slot].name == name && EntryOk(v, |d|, v.dir[slot]))
  {
    hide InodeOk, Disjoint, ViewOf, EntryAt, Finds;
    var b, v := d[ROOT_LBA], ViewOf(d);
    DirOf(d);
    forall i | 0 <= i < DIRENTS
      ensures v.dir[i] == EntryAt(b, i) && Safe(b, i) && Finds(b, i, name) == (Live(v, i) && v.dir[i].name == name)
    {
      assert Live(v, i) ==> EntryOk(v, |d|, v.dir[i]);
      ShortNameFound(b, i, name);
    }
    var slot := LookupFrom(b, name, 0);
    if slot < DIRENTS {
      assert SlotHolds(d, files, slot) && EntryOk(v, |d|, v.dir[slot]);
    }
    assert name in files ==> HasSlot(v, name);
  }

  class Volume {
    const blocks: array<Block>
    ghost var files: Files

    ghost predicate Sized()
      reads this
    {
      MIN_BLOCKS <= blocks.Length <= MAX_BLOCKS
    }

    ghost function Contents(): (d: Disk)
      requires Sized()
      reads this, blocks
    {
      blocks[..]
    }

    /** A mounted volume that stands for `files`. */
    ghost predicate Valid()
      reads this, blocks
    {
      Sized() && Represents(Contents(), files) && SuperOk(Contents()[SB_LBA], blocks.Length)
    }

    method FindDirent(name: CString) returns (rc: int, slot: nat, ino: nat)
      requires Valid()
      ensures rc == if NameCode(name) != OK then NameCode(name) else if name in files then OK else E_NOENT
      ensures rc == OK ==>
        && GoodName(name) && slot < DIRENTS && Live(ViewOf(Contents()), slot)
        && ViewOf(Contents()).dir[slot].name == name && ViewOf(Contents()).dir[slot].ino == ino
        && EntryOk(ViewOf(Contents()), blocks.Length, ViewOf(Contents()).dir[slot])
    {
      hide SuperOk, Represents, ViewOf, LookupFrom, Safe;
      slot, ino := 0, 0;
      rc := ValidName(name);
      if rc != OK {
        return;
      }
      var b := blocks[ROOT_LBA];
      LookupFinds(Contents(), files, name);
      slot := Lookup(b, name);
      if slot < DIRENTS {
        return OK, slot, Get(b, 32 * slot, 4);
      }
      return E_NOENT, 0, 0;
    }

    method ReadInode(ino: Ino) returns (s: InodeBytes)
      requires Sized()
      ensures s == InodeBytesAt(Contents(), ino)
    {
      s := blocks[TableLba(ino)][TableOff(ino)..TableOff(ino) + INODE_SIZE];
    }

    method WriteInode(ino: Ino, s: InodeBytes)
      requires Sized()
      modifies blocks
      ensures Contents() == StoreInode(old(Contents()), ino, s)
    {
      var b := blocks[TableLba(ino)];
      blocks[TableLba(ino)] := Splice(b, TableOff(ino), s);
    }

    /** Take a free inode and a free data block. */
    method AllocInodeBlock() returns (rc: int, ino: nat, lba: nat)
      requires Sized()
      modifies blocks
      ensures var v, n := old(ViewOf(Contents())), blocks.Length;
        var i, b := FirstClear(v.ib, 2), FirstClear(v.bb, DATA_START);
        if i == MAX_INODES + 1 || b == n then rc == E_NOSPC && Contents() == old(Contents())
        else
          && rc == OK && ino == i && lba == b
          && Contents() == old(Contents())[IB_LBA := Mark(old(Contents())[IB_LBA], i, true)]
                                          [BB_LBA := Mark(old(Contents())[BB_LBA], b, true)]
    {
      hide InodeOf, EntryAt;
      var ib, bb := blocks[IB_LBA], blocks[BB_LBA];
      ghost var v := ViewOf(Contents());
      ino, lba := 0, 0;
      var i := ScanBits(ib, 2, MAX_INODES + 1);
      if i == MAX_INODES + 1 {
        return E_NOSPC, ino, lba;
      }
      var b := ScanBits(bb, DATA_START, blocks.Length);
      if b == blocks.Length {
        return E_NOSPC, ino, lba;
      }
      blocks[IB_LBA] := Mark(ib, i, true);
      blocks[BB_LBA] := Mark(bb, b, true);
      return OK, i, b;
    }

    method AllocDataBlock() returns (rc: int, lba: nat)
      requires Sized()
      modifies blocks
      ensures var v, n := old(ViewOf(Contents())), blocks.Length;
        var b := FirstClear(v.bb, DATA_START);
        if b == n then rc == E_NOSPC && Contents() == old(Contents())
        else
          && rc == OK && lba == b
          && Contents() == old(Contents())[BB_LBA := Mark(old(Contents())[BB_LBA], b, true)]
    {
      hide InodeOf, EntryAt;
      var ib, bb := blocks[IB_LBA], blocks[BB_LBA];
      var b := ScanBits(bb, DATA_START, blocks.Length);
      if b == blocks.Length {
        return E_NOSPC, 0;
      }
      blocks[IB_LBA] := ib;
      blocks[BB_LBA] := Mark(bb, b, true);
      return OK, b;
    }

    /** The first directory slot that is not taken, or the number of slots. */
    method FreeSlot() returns (slot: nat)
      requires Sized()
      ensures slot == FirstFree(ViewOf(Contents()).dir, 0) <= DIRENTS
      ensures slot < DIRENTS ==> !Live(ViewOf(Contents()), slot)
      ensures forall k | 0 <= k < slot :: Live(ViewOf(Contents()), k)
    {
      hide InodeOf;
      var b := blocks[ROOT_LBA];
      ghost var v := ViewOf(Contents());
      for i := 0 to DIRENTS
        invariant FirstFree(v.dir, i) == FirstFree(v.dir, 0)
      {
        assert v.dir[i] == EntryAt(b, i);
        if Get(b, 32 * i, 4) == 0 {
          return i;
        }
      }
      return DIRENTS;
    }

    /** A name of 27 bytes fills its field; the volume then no longer stands for a map, and the file may not be found again. */
    method Create(name: CString) returns (rc: int)
      requires Valid()
      modifies this`files, blocks
      ensures |name| != MAX_NAME || rc != OK ==> Valid()
      ensures NameCode(name) != OK ==> rc == NameCode(name)
      ensures NameCode(name) == OK && name in old(files) ==> rc == E_EXIST
      ensures NameCode(name) == OK && name !in old(files) ==>
        rc == if old(NoRoom(ViewOf(Contents()))) then E_NOSPC else OK
      ensures files == if rc == OK && |name| < MAX_NAME then old(files)[name := []] else old(files)
      ensures rc == OK ==>
        var v := old(ViewOf(Contents()));
        var slot, ino, lba := FirstFree(v.dir, 0), FirstClear(v.ib, 2), FirstClear(v.bb, DATA_START);
        && slot < DIRENTS && ino <= MAX_INODES && lba < blocks.Length && |name| <= MAX_NAME
        && Contents() == CreateDisk(old(Contents()), slot, ino, lba, name)
      ensures rc != OK ==> Contents() == old(Contents())
    {
      hide ViewOf, SuperOk, InodeOk, Disjoint, Mark, NewInode, PutEntry, Represents, Splice;
      ghost var d := Contents();
      ViewShaped(d);
      rc := ValidName(name);
      if rc != OK {
        return;
      }
      var frc, fslot, fino := FindDirent(name);
      if frc == OK {
        return E_EXIST;
      }
      var b := blocks[ROOT_LBA];
      var slot := FreeSlot();
      if slot == DIRENTS {
        return E_NOSPC;
      }
      var ino, lba;
      rc, ino, lba := AllocInodeBlock();
      if rc != OK {
        return;
      }
      WriteInode(ino, NewInode(lba));
      blocks[ROOT_LBA] := PutEntry(b, slot, ino, MODE_FILE, name);
      assert Contents() == CreateDisk(d, slot, ino, lba, name);
      if |name| < MAX_NAME {
        CreateDiskView(d, slot, ino, lba, name);
        CreateRepresents(d, Contents(), files, slot, ino, lba, name);
        files := files[name := []];
      }
    }

    /** The inode of a live slot, as the code holds it in memory. */
    lemma LiveInode(slot: nat, s: InodeBytes)
      requires Valid() && slot < DIRENTS && Live(ViewOf(Contents()), slot)
      requires 1 <= ViewOf(Contents()).dir[slot].ino <= MAX_INODES
      requires s == InodeBytesAt(Contents(), ViewOf(Contents()).dir[slot].ino)
      ensures var f := InodeOfSlot(ViewOf(Contents()), slot);
        && InodeOf(s) == f && InodeOk(f, ViewOf(Contents()).bb)
        && (forall j | 0 <= j < DIRECT :: f.direct[j] < blocks.Length)
        && ViewOf(Contents()).dir[slot].name in files
        && files[ViewOf(Contents()).dir[slot].name] == Content(Contents(), f)
    {
      hide InodeOf, Disjoint, SuperOk, EntryAt;
      var v := ViewOf(Contents());
      assert SlotHolds(Contents(), files, slot) && EntryOk(v, blocks.Length, v.dir[slot]);
      assert forall j | 0 <= j < DIRECT :: PointerOk(InodeOfSlot(v, slot).direct[j], v.bb);
    }

    method Stat(name: CString) returns (rc: int, size: nat)
      requires Valid()
      ensures rc == if NameCode(name) != OK then NameCode(name) else if name in files then OK else E_NOENT
      ensures rc == OK ==> size == |files[name]|
    {
      hide ViewOf, SuperOk, Represents, InodeOk;
      var slot, ino;
      size := 0;
      rc, slot, ino := FindDirent(name);
      if rc != OK {
        return;
      }
      var s := ReadInode(ino);
      LiveInode(slot, s);
      assert InodeOf(s).mode == MODE_FILE by {
        InodeOkMode(InodeOf(s), ViewOf(Contents()).bb);
      }
      if Get(s, 0, 2) != MODE_FILE {
        rc := E_ISDIR;
        return;
      }
      return OK, Get(s, 4, 4);
    }

    method Read(name: CString, cap: nat) returns (rc: int, out: seq<byte>)
      requires Valid()
      ensures NameCode(name) != OK ==> rc == NameCode(name)
      ensures NameCode(name) == OK && name !in files ==> rc == E_NOENT
      ensures NameCode(name) == OK && name in files ==>
        if |files[name]| > cap then rc == E_RANGE else rc == OK && out == files[name]
    {
      hide ViewOf, SuperOk, Represents, Content;
      var slot, ino;
      out := [];
      rc, slot, ino := FindDirent(name);
      if rc != OK {
        return;
      }
      var s := ReadInode(ino);
      LiveInode(slot, s);
      ghost var f := InodeOf(s);
      if Get(s, 0, 2) != MODE_FILE {
        return E_ISDIR, [];
      }
      var size := Get(s, 4, 4);
      if cap < size {
        return E_RANGE, [];
      }
      rc, out := ReadData(s, size);
      assert rc == OK by {
        LiveReadable(f, ViewOf(Contents()).bb);
      }
      ReadsContent(Contents(), f, out);
    }

    /** The bytes of an inode's blocks, whatever volume it is on; CORRUPT at the first pointer that is no block of the device. */
    method ReadData(s: InodeBytes, size: nat) returns (rc: int, out: seq<byte>)
      requires Sized() && size == InodeOf(s).size <= MAX_FILE
      ensures rc == if Readable(InodeOf(s), blocks.Length) then OK else E_CORRUPT
      ensures rc == OK ==> |out| == size && forall p | 0 <= p < size :: out[p] == ByteAt(Contents(), InodeOf(s), p)
    {
      hide ViewOf;
      out := [];
      ghost var f := InodeOf(s);
      var needed := (size + BLOCK_SIZE - 1) / BLOCK_SIZE;
      for i := 0 to needed
        invariant |out| == if BLOCK_SIZE * i <= size then BLOCK_SIZE * i else size
        invariant forall j | 0 <= j < i :: 0 < f.direct[j] < blocks.Length
        invariant forall p | 0 <= p < |out| :: p / BLOCK_SIZE < i && out[p] == ByteAt(Contents(), f, p)
      {
        var lba := Get(s, 8 + 4 * i, 4);
        assert lba == f.direct[i];
        if lba == 0 || lba >= blocks.Length {
          return E_CORRUPT, [];
        }
        var remain := size - |out|;
        var chunk := if remain > BLOCK_SIZE then BLOCK_SIZE else remain;
        ChunkBytes(Contents(), f, i, chunk);
        ghost var got := out;
        out := out + blocks[lba][..chunk];
        assert forall p | |got| <= p < |out| :: out[p] == blocks[lba][p - |got|];
      }
      rc := OK;
    }

    /**
      Give the inode of a live slot blocks for its first `needed` pointers.  Blocks taken
      before space runs out stay marked in the bitmap; the file is not touched.
     */
    method GrowInode(slot: nat, s0: InodeBytes, needed: nat) returns (rc: int, s: InodeBytes)
      requires Valid() && slot < DIRENTS && Live(ViewOf(Contents()), slot) && needed <= DIRECT
      requires 1 <= ViewOf(Contents()).dir[slot].ino <= MAX_INODES
      requires s0 == InodeBytesAt(Contents(), ViewOf(Contents()).dir[slot].ino)
      modifies blocks
      ensures Valid() && (rc == OK || rc == E_NOSPC)
      ensures Contents()[BB_LBA := old(Contents())[BB_LBA]] == old(Contents())
      ensures ViewOf(Contents()) == old(ViewOf(Contents())).(bb := ViewOf(Contents()).bb)
      ensures MoreBits(old(ViewOf(Contents())).bb, ViewOf(Contents()).bb)
      ensures rc == OK ==>
        && InodeOk(InodeOf(s), ViewOf(Contents()).bb)
        && Grown(InodeOf(s0), InodeOf(s), old(ViewOf(Contents())).bb)
        && Extended(InodeOf(s0), InodeOf(s), needed)
        && Room(ViewOf(Contents()).bb) + Lacking(InodeOf(s0).direct, needed) == Room(old(ViewOf(Contents())).bb)
      ensures rc == E_NOSPC ==> Room(ViewOf(Contents()).bb) == 0
      ensures |InodeOf(s0).direct| == DIRECT
      ensures rc == OK <==> Lacking(InodeOf(s0).direct, needed) <= Room(old(ViewOf(Contents())).bb)
    {
      hide ViewOf, SuperOk, Represents, InodeOk, Mark, InodeOf, PutDirect, Grown, MoreBits, Room;
      ghost var d0, v0 := Contents(), ViewOf(Contents());
      ghost var f := InodeOf(s0);
      LiveInode(slot, s0);
      s := s0;
      ViewShaped(d0);
      NothingGrown(f, v0.bb);
      for i := 0 to needed
        invariant Valid()
        invariant Contents()[BB_LBA := d0[BB_LBA]] == d0
        invariant ViewOf(Contents()) == v0.(bb := ViewOf(Contents()).bb)
        invariant MoreBits(v0.bb, ViewOf(Contents()).bb)
        invariant InodeOk(InodeOf(s), ViewOf(Contents()).bb) && Grown(f, InodeOf(s), v0.bb)
        invariant |InodeOf(s).direct| == DIRECT && forall j | 0 <= j < i :: InodeOf(s).direct[j] != 0
        invariant |f.direct| == DIRECT
        invariant forall j | 0 <= j < DIRECT && (f.direct[j] != 0 || j >= i) :: InodeOf(s).direct[j] == f.direct[j]
        invariant Room(ViewOf(Contents()).bb) + Lacking(f.direct, i) == Room(v0.bb)
      {
        ghost var d := Contents();
        DirectField(s, i);
        if Get(s, 8 + 4 * i, 4) == 0 {
          var lba;
          rc, lba := AllocDataBlock();
          ViewShaped(d);
          if rc != OK {
            RoomNone(ViewOf(d).bb);
            LackingMore(f.direct, i + 1, needed);
            return;
          }
          RoomTake(ViewOf(d).bb, lba);
          MarkBlock(d, lba, true);
          PutDirectFields(s, i, lba);
          GrowStep(f, InodeOf(s), v0.bb, ViewOf(d).bb, i, lba);
          MoreBitsOne(ViewOf(d).bb, lba);
          LeakRepresents(d, Contents(), files);
          s := PutDirect(s, i, lba);
        }
      }
      rc := OK;
    }

    /** Store the chunks of `data` in the blocks an inode points to. */
    method StoreChunks(s: InodeBytes, data: seq<byte>)
      requires Sized() && |data| <= MAX_FILE
      requires forall j | 0 <= j < Needed(|data|) :: DATA_START <= Directs(s)[j] < blocks.Length
      requires forall j, l | 0 <= j < l < Needed(|data|) :: Directs(s)[j] != Directs(s)[l]
      modifies blocks
      ensures ViewOf(Contents()) == old(ViewOf(Contents())) && Contents()[SB_LBA] == old(Contents())[SB_LBA]
      ensures forall j | 0 <= j < Needed(|data|) :: Contents()[Directs(s)[j]] == Chunk(data, j)
      ensures forall b | 0 <= b < blocks.Length && b !in Directs(s) :: Contents()[b] == old(Contents())[b]
    {
      hide ViewOf, Padded;
      ghost var v := ViewOf(Contents());
      var needed := (|data| + BLOCK_SIZE - 1) / BLOCK_SIZE;
      if needed == 0 {
        needed := 1;
      }
      assert needed == Needed(|data|);
      for i := 0 to needed
        invariant ViewOf(Contents()) == v && Contents()[SB_LBA] == old(Contents())[SB_LBA]
        invariant forall j | 0 <= j < i :: Contents()[Directs(s)[j]] == Chunk(data, j)
        invariant forall b | 0 <= b < blocks.Length && b !in Directs(s) :: Contents()[b] == old(Contents())[b]
      {
        var lba := Get(s, 8 + 4 * i, 4);
        assert lba == Directs(s)[i];
        var written := BLOCK_SIZE * i;
        var remain := |data| - written;
        var chunk := if remain > BLOCK_SIZE then BLOCK_SIZE else remain;
        var block: Block := Padded(data[written..written + chunk], BLOCK_SIZE);
        assert block == Chunk(data, i);
        ghost var d := Contents();
        StoreData(d, lba, block);
        blocks[lba] := block;
        assert Contents() == d[lba := block];
        forall j | 0 <= j < i + 1
          ensures Contents()[Directs(s)[j]] == Chunk(data, j)
        {
          assert j < i ==> Directs(s)[j] != Directs(s)[i];
        }
      }
    }

    /** The data blocks, then the inode: the file `d0` had in this slot now reads as `data`. */
    method FinishWrite(slot: nat, ino: Ino, ghost s: InodeBytes, t: InodeBytes, data: seq<byte>, ghost d0: Disk)
      requires Sized() && |data| <= MAX_FILE && |d0| == blocks.Length && Represents(d0, files)
      requires slot < DIRENTS && Live(ViewOf(d0), slot) && ViewOf(d0).dir[slot].ino == ino
      requires EntryOk(ViewOf(d0), |d0|, ViewOf(d0).dir[slot]) && InodeOf(s) == InodeOfSlot(ViewOf(d0), slot)
      requires Contents()[BB_LBA := d0[BB_LBA]] == d0
      requires ViewOf(Contents()) == ViewOf(d0).(bb := ViewOf(Contents()).bb) && MoreBits(ViewOf(d0).bb, ViewOf(Contents()).bb)
      requires InodeOk(InodeOf(t), ViewOf(Contents()).bb) && Grown(InodeOf(s), InodeOf(t), ViewOf(d0).bb)
      requires |InodeOf(t).direct| == DIRECT && forall j | 0 <= j < Needed(|data|) :: InodeOf(t).direct[j] != 0
      modifies blocks
      ensures Represents(Contents(), files[ViewOf(d0).dir[slot].name := data]) && Contents()[SB_LBA] == d0[SB_LBA]
      ensures ViewOf(Contents()) == UpdateView(ViewOf(d0), slot, old(ViewOf(Contents())).bb, InodeOf(t).(size := |data|))
    {
      hide ViewOf, SuperOk, Represents, InodeOf, Grown, MoreBits, Content, InodeOk, EntryOk, Chunk;
      ghost var d1 := Contents();
      OwnBlocks(InodeOf(t), ViewOf(d1).bb, t);
      ViewShaped(d1);
      StoreChunks(t, data);
      ghost var d2 := Contents();
      WriteInode(ino, PutSize(t, |data|));
      StoreInodeView(d2, ino, PutSize(t, |data|));
      PutSizeFields(t, |data|);
      ghost var g := InodeOf(PutSize(t, |data|));
      Resized(InodeOf(t), ViewOf(d1).bb, |data|);
      GrownResized(InodeOf(s), InodeOf(t), ViewOf(d0).bb, |data|);
      WrittenContent(Contents(), g, data);
      UpdateRepresents(d0, Contents(), files, slot, g, data);
    }

    method Write(name: CString, data: seq<byte>) returns (rc: int)
      requires Valid()
      modifies this`files, blocks
      ensures Valid()
      ensures |data| > MAX_FILE ==> rc == E_RANGE
      ensures |data| <= MAX_FILE && NameCode(name) != OK ==> rc == NameCode(name)
      ensures |data| <= MAX_FILE && NameCode(name) == OK && name !in old(files) ==> rc == E_NOENT
      ensures |data| <= MAX_FILE && NameCode(name) == OK && name in old(files) ==>
        rc == if old(Fits(ViewOf(Contents()), name, Needed(|data|))) then OK else E_NOSPC
      ensures files == if rc == OK then old(files)[name := data] else old(files)
      ensures rc == OK ==> Rewritten(old(ViewOf(Contents())), ViewOf(Contents()), name, |data|)
      ensures rc == E_NOSPC ==> UsedUp(old(ViewOf(Contents())), ViewOf(Contents()))
      ensures rc != OK && rc != E_NOSPC ==> Contents() == old(Contents())
    {
      hide ViewOf, SuperOk, Represents, InodeOf, Grown, MoreBits, Content, Fits, Room, Lacking;
      if |data| > MAX_FILE {
        return E_RANGE;
      }
      var slot, ino;
      rc, slot, ino := FindDirent(name);
      if rc != OK {
        return;
      }
      var s := ReadInode(ino);
      LiveInode(slot, s);
      ModeField(s);
      if Get(s, 0, 2) != MODE_FILE {
        return E_ISDIR;
      }
      ghost var d0 := Contents();
      RepresentsFits(d0, files, slot, name, Needed(|data|));
      ViewShaped(d0);
      var needed := (|data| + BLOCK_SIZE - 1) / BLOCK_SIZE;
      if needed == 0 {
        needed := 1;
      }
      var t;
      rc, t := GrowInode(slot, s, needed);
      if rc != OK {
        return;
      }
      FinishWrite(slot, ino, s, t, data, d0);
      assert RewrittenIn(ViewOf(d0), ViewOf(Contents()), slot, |data|);
      files := files[name := data];
    }

    /** Clear the bits of an inode and of the blocks it points to. */
    method FreeInodeAndBlocks(ino: Ino, s: InodeBytes)
      requires Sized()
      modifies blocks
      ensures exists bb: Block ::
        && Contents() == old(Contents())[IB_LBA := Mark(old(Contents())[IB_LBA], ino, false)][BB_LBA := bb]
        && Released(Bits(old(Contents())[BB_LBA], blocks.Length), InodeOf(s), Bits(bb, blocks.Length))
    {
      hide Mark;
      var ib: Block, bb: Block := blocks[IB_LBA], blocks[BB_LBA];
      ghost var f, bb0 := InodeOf(s), bb;
      ib := Mark(ib, ino, false);
      for j := 0 to DIRECT
        invariant forall b | 0 <= b < blocks.Length ::
          Test(bb, b) == (Test(bb0, b) && (b == 0 || b !in f.direct[..j]))
      {
        var lba := Get(s, 8 + 4 * j, 4);
        assert lba == f.direct[j] && f.direct[..j + 1] == f.direct[..j] + [lba];
        if lba != 0 && lba < blocks.Length {
          bb := Mark(bb, lba, false);
        }
      }
      assert f.direct[..DIRECT] == f.direct;
      assert Released(Bits(bb0, blocks.Length), f, Bits(bb, blocks.Length));
      blocks[IB_LBA] := ib;
      blocks[BB_LBA] := bb;
      assert Contents() == old(Contents())[IB_LBA := Mark(old(Contents())[IB_LBA], ino, false)][BB_LBA := bb];
    }

    method Unlink(name: CString) returns (rc: int)
      requires Valid()
      modifies this`files, blocks
      ensures Valid()
      ensures rc == if NameCode(name) != OK then NameCode(name) else if name in old(files) then OK else E_NOENT
      ensures files == if rc == OK then old(files) - {name} else old(files)
      ensures rc != OK ==> Contents() == old(Contents())
      ensures rc == OK ==> Unlinked(old(ViewOf(Contents())), ViewOf(Contents()), name)
    {
      hide ViewOf, SuperOk, Represents, InodeOf, Mark, Released, Bits, PutEntry, InodeOk;
      var slot, ino;
      rc, slot, ino := FindDirent(name);
      if rc != OK {
        return;
      }
      var s := ReadInode(ino);
      LiveInode(slot, s);
      ModeField(s);
      InodeOkMode(InodeOf(s), ViewOf(Contents()).bb);
      if Get(s, 0, 2) != MODE_FILE {
        return E_ISDIR;
      }
      ghost var d0 := Contents();
      var b := blocks[ROOT_LBA];
      blocks[ROOT_LBA] := PutEntry(b, slot, 0, 0, []);
      ghost var d1 := Contents();
      FreeInodeAndBlocks(ino, s);
      ghost var d2 := Contents();
      WriteInode(ino, Zeros(INODE_SIZE));
      UnlinkDisk(d0, d1, d2, slot, ino, s);
      assert Unlinked(ViewOf(d0), ViewOf(Contents()), name) by {
        ViewShaped(d0);
        ReleasedFewer(ViewOf(d0).bb, InodeOf(s), ViewOf(Contents()).bb);
        assert Live(ViewOf(d0), slot);
      }
      UnlinkRepresents(d0, Contents(), files, slot);
      files := files - {name};
    }

    /** The checker says OK exactly on the disks that pass, whatever is on the device. */
    method Fsck() returns (rc: int)
      requires Sized()
      ensures rc == if SuperOk(Contents()[SB_LBA], blocks.Length) && Passes(ViewOf(Contents()), blocks.Length) then OK else E_CORRUPT
    {
      hide SuperOk, ViewOf, MetaOk, EntryPasses;
      ghost var v := ViewOf(Contents());
      ViewShaped(Contents());
      rc := LoadSuper();
      if rc != OK {
        return;
      }
      var good := CheckMeta();
      if !good {
        return E_CORRUPT;
      }
      var ib, bb := blocks[IB_LBA], blocks[BB_LBA];
      for i := 0 to DIRENTS
        invariant forall k | 0 <= k < i && Live(v, k) :: EntryPasses(v, blocks.Length, v.dir[k])
      {
        good := CheckEntry(ib, bb, i);
        if !good {
          return E_CORRUPT;
        }
      }
      return OK;
    }

    method CheckMeta() returns (good: bool)
      requires Sized()
      ensures good == MetaOk(ViewOf(Contents()), blocks.Length)
    {
      hide InodeOf, EntryAt;
      var ib, bb := blocks[IB_LBA], blocks[BB_LBA];
      ghost var v := ViewOf(Contents());
      if !Test(ib, ROOT_INO) || !Test(bb, ROOT_LBA) {
        return false;
      }
      for b := 0 to DATA_START
        invariant forall k | 0 <= k < b :: v.bb[k]
      {
        assert v.bb[b] == Test(bb, b);
        if !Test(bb, b) {
          return false;
        }
      }
      var root := ReadInode(ROOT_INO);
      InodeFields(root);
      assert v.inodes[0] == InodeOf(root);
      good := Get(root, 0, 2) == MODE_DIR && Get(root, 8, 4) == ROOT_LBA;
    }

    method LoadSuper() returns (rc: int)
      requires Sized()
      ensures rc == if SuperOk(Contents()[SB_LBA], blocks.Length) then OK else E_CORRUPT
    {
      var sb := blocks[SB_LBA];
      if Get(sb, 0, 4) != MAGIC || Get(sb, 4, 4) != VERSION || Get(sb, 8, 4) != BLOCK_SIZE {
        return E_CORRUPT;
      }
      if Get(sb, 12, 4) != blocks.Length || Get(sb, 16, 4) != MAX_INODES {
        return E_CORRUPT;
      }
      if Get(sb, 20, 4) != IB_LBA || Get(sb, 24, 4) != BB_LBA || Get(sb, 28, 4) != TABLE_LBA {
        return E_CORRUPT;
      }
      if Get(sb, 36, 4) != ROOT_INO || Get(sb, 40, 4) != ROOT_LBA || Get(sb, 44, 4) != DATA_START {
        return E_CORRUPT;
      }
      if Get(sb, 44, 4) >= Get(sb, 12, 4) {
        return E_CORRUPT;
      }
      return OK;
    }

    method CheckEntry(ib: Block, bb: Block, i: nat) returns (good: bool)
      requires Sized() && i < DIRENTS && ib == blocks[IB_LBA] && bb == blocks[BB_LBA]
      ensures good == (Live(ViewOf(Contents()), i) ==> EntryPasses(ViewOf(Contents()), blocks.Length, ViewOf(Contents()).dir[i]))
    {
      hide InodeOf;
      ghost var v := ViewOf(Contents());
      var b := blocks[ROOT_LBA];
      assert v.dir[i] == EntryAt(b, i);
      var ino := Get(b, 32 * i, 4);
      if ino == 0 {
        return true;
      }
      if ino > MAX_INODES || b[32 * i + 4] != MODE_FILE || !Test(ib, ino) {
        return false;
      }
      var s := ReadInode(ino);
      InodeFields(s);
      ghost var f := InodeOf(s);
      assert v.inodes[ino - 1] == f;
      if Get(s, 0, 2) != MODE_FILE || Get(s, 4, 4) > MAX_FILE {
        return false;
      }
      var needed := (Get(s, 4, 4) + BLOCK_SIZE - 1) / BLOCK_SIZE;
      if needed == 0 {
        needed := 1;
      }
      assert needed == Needed(f.size);
      good := CheckBlocks(s, needed, bb);
    }

    method CheckBlocks(s: InodeBytes, needed: nat, bb: Block) returns (good: bool)
      requires Sized() && needed <= DIRECT && bb == blocks[BB_LBA]
      ensures |InodeOf(s).direct| == DIRECT
      ensures good <==> forall k | 0 <= k < needed :: PointsToData(InodeOf(s).direct[k], ViewOf(Contents()).bb)
    {
      hide InodeOf, EntryAt;
      InodeFields(s);
      ghost var f, v := InodeOf(s), ViewOf(Contents());
      for j := 0 to needed
        invariant forall k | 0 <= k < j :: PointsToData(f.direct[k], v.bb)
      {
        var lba := Get(s, 8 + 4 * j, 4);
        assert lba == f.direct[j];
        if lba < DATA_START || lba >= blocks.Length || !Test(bb, lba) {
          return false;
        }
      }
      return true;
    }

    constructor (n: nat)
      ensures blocks.Length == n && fresh(blocks) && files == map[]
    {
      blocks := new Block[n](_ => ZERO_BLOCK);
      files := map[];
    }

    method Format() returns (rc: int)
      modifies this`files, blocks
      ensures rc == if MIN_BLOCKS <= blocks.Length <= MAX_BLOCKS then OK else E_INVAL
      ensures rc == OK ==> Valid() && files == map[] && Blank(ViewOf(Contents()))
      ensures rc != OK ==> blocks[..] == old(blocks[..]) && files == old(files)
    {
      hide ViewOf, Mark, RootInode, SuperBlock, SuperOk, Splice, Represents;
      if blocks.Length < MIN_BLOCKS || blocks.Length > MAX_BLOCKS {
        return E_INVAL;
      }
      for i := 0 to blocks.Length
        invariant forall b | 0 <= b < i :: blocks[b] == ZERO_BLOCK
      {
        blocks[i] := ZERO_BLOCK;
      }
      blocks[SB_LBA] := SuperBlock(blocks.Length);
      var ib := Mark(Mark(ZERO_BLOCK, 0, true), ROOT_INO, true);
      var bb: Block := ZERO_BLOCK;
      NoBitsSet();
      for b := 0 to DATA_START
        invariant forall k: nat | k < 8 * BLOCK_SIZE :: Test(bb, k) == (k < b)
        invariant forall k | 0 <= k < blocks.Length :: blocks[k] == if k == SB_LBA then SuperBlock(blocks.Length) else ZERO_BLOCK
      {
        bb := Mark(bb, b, true);
      }
      bb := Mark(bb, ROOT_LBA, true);
      blocks[IB_LBA] := ib;
      blocks[BB_LBA] := bb;
      ghost var d := Contents();
      WriteInode(ROOT_INO, RootInode());
      StoreInodeAt(d, ROOT_INO, RootInode(), ROOT_INO);
      FormattedRepresents(Contents());
      FormattedBlank(Contents());
      SuperBlockOk(blocks.Length);
      files := map[];
      rc := OK;
    }

    method Mount() returns (rc: int)
      requires Sized()
      ensures rc == if Mountable(Contents()) then OK else E_CORRUPT
    {
      hide SuperOk, InodeOf, EntryAt;
      rc := LoadSuper();
      var root := ReadInode(ROOT_INO);
      InodeFields(root);
      assert ViewOf(Contents()).inodes[0] == InodeOf(root);
      if rc == OK && (Get(root, 0, 2) != MODE_DIR || Get(root, 8, 4) != ROOT_LBA) {
        return E_CORRUPT;
      }
    }
  }
}
