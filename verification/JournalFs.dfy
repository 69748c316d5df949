/**
  The filesystem on top of the journal: two bitmaps, an inode table of four
  blocks and a one-block root directory.  Blocks are decoded into a `View`, and
  what the checker accepts and what a name reads as are stated on views.
 */
module JournalFs {
  import opened Bytes
  import opened JournalDisk
  import opened Journal
  import opened JournalCrash
  import opened CStrings
  import opened Bitmap

  const MAGIC: nat := 0x4d43534631564a31
  const MAX_INODES: nat := 16
  const MAX_NAME: nat := 32
  const DIRENTS: nat := 12
  const INODE_BITMAP: Lba := 18
  const BLOCK_BITMAP: Lba := 19
  const INODE_TABLE: Lba := 20
  const TABLE_BLOCKS: nat := 4
  const TABLE_BYTES: nat := 2048
  const ROOT_DIR: Lba := 24
  const DATA_START: Lba := 25

  // ---- decoding ----

  datatype Inode = Inode(used: nat, kind: nat, size: nat, block: nat)
  datatype Entry = Entry(used: bool, ino: nat, name: CString)

  /** What is decoded from the metadata blocks. */
  datatype View = View(ib: seq<bool>, bb: seq<bool>, inodes: seq<Inode>, dir: seq<Entry>)

  /** Comparison looks at the first 32 characters at most. */
  function Clip(s: CString): CString
  {
    if |s| > MAX_NAME then s[..MAX_NAME] else s
  }

  function InodeAt(t: seq<byte>, ino: nat): Inode
    requires 128 * ino + 128 <= |t|
  {
    Inode(Get(t, 128 * ino, 4), Get(t, 128 * ino + 4, 4), Get(t, 128 * ino + 8, 4), Get(t, 128 * ino + 12, 4))
  }

  function EntryAt(b: seq<byte>, i: nat): Entry
    requires 40 * i + 40 <= |b|
  {
    Entry(Get(b, 40 * i, 4) != 0, Get(b, 40 * i + 4, 4), CName(b[40 * i + 8..40 * i + 40]))
  }

  function Inodes(t: seq<byte>): (r: seq<Inode>)
    requires |t| == TABLE_BYTES
    ensures |r| == MAX_INODES && forall i | 0 <= i < MAX_INODES :: r[i] == InodeAt(t, i)
  {
    seq(MAX_INODES, i requires 0 <= i < MAX_INODES => InodeAt(t, i))
  }

  function Entries(b: Block): (r: seq<Entry>)
    ensures |r| == DIRENTS && forall i | 0 <= i < DIRENTS :: r[i] == EntryAt(b, i)
  {
    seq(DIRENTS, i requires 0 <= i < DIRENTS => EntryAt(b, i))
  }

  function Join(a: seq<byte>, b: seq<byte>, c: seq<byte>, d: seq<byte>): seq<byte>
  {
    a + b + c + d
  }

  /** The inode table as it is loaded into memory. */
  function Table(d: Disk): (t: seq<byte>)
    ensures |t| == TABLE_BYTES
  {
    Join(d[INODE_TABLE], d[INODE_TABLE + 1], d[INODE_TABLE + 2], d[INODE_TABLE + 3])
  }

  function ViewOf(d: Disk): View
  {
    View(Bits(d[INODE_BITMAP], MAX_INODES), Bits(d[BLOCK_BITMAP], MAX_BLOCKS), Inodes(Table(d)), Entries(d[ROOT_DIR]))
  }

  predicate Shaped(v: View)
  {
    |v.ib| == MAX_INODES && |v.bb| == MAX_BLOCKS && |v.inodes| == MAX_INODES && |v.dir| == DIRENTS
  }

  lemma ViewIsShaped(d: Disk)
    ensures Shaped(ViewOf(d))
  {
  }

  // ---- what the checker accepts ----

  predicate SuperOk(sb: Block)
  {
    && Get(sb, 0, 8) == MAGIC && Get(sb, 8, 4) == VERSION && Get(sb, 12, 4) == BLOCK_SIZE
    && Get(sb, 48, 4) == DATA_START && Get(sb, 44, 4) == ROOT_DIR
  }

  predicate RootOk(v: View)
    requires Shaped(v)
  {
    && v.ib[0] && v.inodes[0].used == 1 && v.inodes[0].kind == 2 && v.inodes[0].block == ROOT_DIR
    && forall b | 0 <= b < DATA_START :: v.bb[b]
  }

  /** The checks on one directory entry. */
  predicate EntryOk(v: View, e: Entry)
    requires Shaped(v)
  {
    e.used ==>
      && e.ino < MAX_INODES && v.ib[e.ino]
      && v.inodes[e.ino].used != 0 && v.inodes[e.ino].kind == 1 && v.inodes[e.ino].size <= BLOCK_SIZE
      && DATA_START <= v.inodes[e.ino].block < MAX_BLOCKS && v.bb[v.inodes[e.ino].block]
  }

  predicate CleanView(v: View)
    requires Shaped(v)
  {
    RootOk(v) && forall i | 0 <= i < DIRENTS :: EntryOk(v, v.dir[i])
  }

  /** A recovered disk that passes the checker. */
  predicate Clean(d: Disk)
  {
    SuperOk(d[0]) && CleanView(ViewOf(d))
  }

  // ---- what a name reads as ----

  predicate Matches(e: Entry, name: CString)
  {
    e.used && e.name == Clip(name)
  }

  /** The first directory slot from `i` on that matches a name. */
  function FindFrom(dir: seq<Entry>, name: CString, i: nat): (r: Option<nat>)
    requires i <= |dir|
    ensures r.Some? ==> i <= r.value < |dir| && Matches(dir[r.value], name) &&
                        forall j | i <= j < r.value :: !Matches(dir[j], name)
    ensures r.None? ==> forall j | i <= j < |dir| :: !Matches(dir[j], name)
    decreases |dir| - i
  {
    if i == |dir| then None
    else if Matches(dir[i], name) then Some(i)
    else FindFrom(dir, name, i + 1)
  }

  /** The bytes a name reads as on a clean disk. */
  function Lookup(d: Disk, name: CString): Option<seq<byte>>
    requires Clean(d)
  {
    var v := ViewOf(d);
    var r := FindFrom(v.dir, name, 0);
    if r.None? then None
    else
      assert EntryOk(v, v.dir[r.value]);
      var inode := v.inodes[v.dir[r.value].ino];
      Some(d[inode.block][..inode.size])
  }

  lemma SameHomeSameFiles(d: Disk, e: Disk)
    requires SameHome(d, e)
    ensures ViewOf(d) == ViewOf(e) && Clean(d) == Clean(e)
    ensures Clean(d) ==> forall n: CString :: Lookup(d, n) == Lookup(e, n)
  {
    assert !InJournal(0);
    assert Table(d) == Table(e);
    if Clean(d) {
      forall n: CString
        ensures Lookup(d, n) == Lookup(e, n)
      {
        var v := ViewOf(d);
        var r := FindFrom(v.dir, n, 0);
        if r.Some? {
          assert EntryOk(v, v.dir[r.value]);
        }
      }
    }
  }

  // ---- the updates of a file write ----

  /** An inode and a block taken, and the inode filled in. */
  function AddInode(v: View, ino: nat, block: nat, size: nat): View
    requires Shaped(v) && ino < MAX_INODES && block < MAX_BLOCKS
  {
    v.(ib := v.ib[ino := true], bb := v.bb[block := true], inodes := v.inodes[ino := Inode(1, 1, size, block)])
  }

  function AddEntry(v: View, slot: nat, ino: nat, name: CString): View
    requires Shaped(v) && slot < DIRENTS
  {
    v.(dir := v.dir[slot := Entry(true, ino, name)])
  }

  /** A free inode, a free data block and a size that fits. */
  predicate Free(v: View, ino: nat, block: nat, size: nat)
    requires Shaped(v)
  {
    && 1 <= ino < MAX_INODES && !v.ib[ino]
    && DATA_START <= block < MAX_BLOCKS && !v.bb[block]
    && size <= BLOCK_SIZE
  }

  lemma AddInodeClean(v: View, ino: nat, block: nat, size: nat)
    requires Shaped(v) && CleanView(v) && Free(v, ino, block, size)
    ensures CleanView(AddInode(v, ino, block, size))
    ensures forall i | 0 <= i < DIRENTS && v.dir[i].used ::
      v.dir[i].ino < MAX_INODES && v.dir[i].ino != ino && v.inodes[v.dir[i].ino].block != block
  {
    var w := AddInode(v, ino, block, size);
    forall i | 0 <= i < DIRENTS
      ensures EntryOk(w, w.dir[i])
      ensures v.dir[i].used ==>
        v.dir[i].ino < MAX_INODES && v.dir[i].ino != ino && v.inodes[v.dir[i].ino].block != block
    {
      assert EntryOk(v, v.dir[i]);
    }
  }

  lemma AddEntryClean(v: View, ino: nat, block: nat, size: nat, slot: nat, name: CString)
    requires Shaped(v) && CleanView(v) && Free(v, ino, block, size) && slot < DIRENTS
    ensures CleanView(AddEntry(AddInode(v, ino, block, size), slot, ino, name))
  {
    AddInodeClean(v, ino, block, size);
    var u := AddInode(v, ino, block, size);
    var w := AddEntry(u, slot, ino, name);
    forall i | 0 <= i < DIRENTS
      ensures EntryOk(w, w.dir[i])
    {
      assert EntryOk(u, u.dir[i]);
    }
  }

  // ---- the updates on bytes ----

  function TableWith(t: seq<byte>, ino: nat, size: nat, block: nat): (t': seq<byte>)
    requires |t| == TABLE_BYTES && ino < MAX_INODES
    ensures |t'| == TABLE_BYTES
  {
    var t1 := Put(t, 128 * ino, 4, 1);
    var t2 := Put(t1, 128 * ino + 4, 4, 1);
    var t3 := Put(t2, 128 * ino + 8, 4, size);
    Put(t3, 128 * ino + 12, 4, block)
  }

  lemma TableWithFields(t: seq<byte>, ino: nat, size: nat, block: nat)
    requires |t| == TABLE_BYTES && ino < MAX_INODES && size < U32 && block < U32
    ensures InodeAt(TableWith(t, ino, size, block), ino) == Inode(1, 1, size, block)
  {
    Ranges();
    var o := 128 * ino;
    var t1 := Put(t, o, 4, 1);
    var t2 := Put(t1, o + 4, 4, 1);
    var t3 := Put(t2, o + 8, 4, size);
    GetPutSame(t, o, 4, 1);
    PutKeeps(t1, o + 4, 4, 1);
    GetPutSame(t1, o + 4, 4, 1);
    PutKeeps(t2, o + 8, 4, size);
    GetPutSame(t2, o + 8, 4, size);
    PutKeeps(t3, o + 12, 4, block);
    GetPutSame(t3, o + 12, 4, block);
  }

  lemma TableWithOthers(t: seq<byte>, ino: nat, size: nat, block: nat, j: nat)
    requires |t| == TABLE_BYTES && ino < MAX_INODES && j < MAX_INODES && j != ino
    ensures InodeAt(TableWith(t, ino, size, block), j) == InodeAt(t, j)
  {
    var t' := TableWith(t, ino, size, block);
    assert t'[128 * j..128 * j + 4] == t[128 * j..128 * j + 4];
    assert t'[128 * j + 4..128 * j + 8] == t[128 * j + 4..128 * j + 8];
    assert t'[128 * j + 8..128 * j + 12] == t[128 * j + 8..128 * j + 12];
    assert t'[128 * j + 12..128 * j + 16] == t[128 * j + 12..128 * j + 16];
  }

  lemma InodesWith(t: seq<byte>, ino: nat, size: nat, block: nat)
    requires |t| == TABLE_BYTES && ino < MAX_INODES && size < U32 && block < U32
    ensures Inodes(TableWith(t, ino, size, block)) == Inodes(t)[ino := Inode(1, 1, size, block)]
  {
    TableWithFields(t, ino, size, block);
    forall j | 0 <= j < MAX_INODES && j != ino
      ensures Inodes(TableWith(t, ino, size, block))[j] == Inodes(t)[j]
    {
      TableWithOthers(t, ino, size, block, j);
    }
  }

  function DirWith(b: Block, slot: nat, ino: nat, name: CString): Block
    requires slot < DIRENTS && |name| < MAX_NAME
  {
    var b1 := Put(b, 40 * slot, 4, 1);
    var b2 := Put(b1, 40 * slot + 4, 4, ino);
    Splice(b2, 40 * slot + 8, Padded(name, MAX_NAME))
  }

  lemma DirWithEntry(b: Block, slot: nat, ino: nat, name: CString)
    requires slot < DIRENTS && |name| < MAX_NAME && ino < U32
    ensures EntryAt(DirWith(b, slot, ino, name), slot) == Entry(true, ino, name)
  {
    Ranges();
    var o := 40 * slot;
    var b1 := Put(b, o, 4, 1);
    var b2 := Put(b1, o + 4, 4, ino);
    GetPutSame(b, o, 4, 1);
    PutKeeps(b1, o + 4, 4, ino);
    GetPutSame(b1, o + 4, 4, ino);
    SpliceKeeps(b2, o + 8, Padded(name, MAX_NAME), o, 4);
    SpliceKeeps(b2, o + 8, Padded(name, MAX_NAME), o + 4, 4);
    CNamePadded(name, MAX_NAME);
  }

  lemma DirWithOthers(b: Block, slot: nat, ino: nat, name: CString, j: nat)
    requires slot < DIRENTS && |name| < MAX_NAME && j < DIRENTS && j != slot
    ensures EntryAt(DirWith(b, slot, ino, name), j) == EntryAt(b, j)
  {
    var b' := DirWith(b, slot, ino, name);
    assert b'[40 * j..40 * j + 4] == b[40 * j..40 * j + 4];
    assert b'[40 * j + 4..40 * j + 8] == b[40 * j + 4..40 * j + 8];
    assert b'[40 * j + 8..40 * j + 40] == b[40 * j + 8..40 * j + 40];
  }

  lemma EntriesWith(b: Block, slot: nat, ino: nat, name: CString)
    requires slot < DIRENTS && |name| < MAX_NAME && ino < U32
    ensures Entries(DirWith(b, slot, ino, name)) == Entries(b)[slot := Entry(true, ino, name)]
  {
    DirWithEntry(b, slot, ino, name);
    forall j | 0 <= j < DIRENTS && j != slot
      ensures Entries(DirWith(b, slot, ino, name))[j] == Entries(b)[j]
    {
      DirWithOthers(b, slot, ino, name, j);
    }
  }
}
