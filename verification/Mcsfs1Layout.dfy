/**
  The on-disk layout of MCSFS1: superblock, two bitmaps, an inode table of four
  blocks with eight 60-byte inodes each, a root directory of sixteen 32-byte
  entries, data blocks.  A disk is decoded into a `View`.
 */
module Mcsfs1Layout {
  import opened Bytes
  import opened Bitmap
  import opened CStrings

  const MAGIC: nat := 0x31465343
  const VERSION: nat := 1
  const MAX_INODES: nat := 32
  const DIRECT: nat := 8
  const MAX_NAME: nat := 27
  const ROOT_INO: nat := 1
  const MODE_FILE: nat := 1
  const MODE_DIR: nat := 2
  const SB_LBA: nat := 0
  const IB_LBA: nat := 1
  const BB_LBA: nat := 2
  const TABLE_LBA: nat := 3
  const TABLE_BLOCKS: nat := 4
  const ROOT_LBA: nat := 7
  const DATA_START: nat := 8
  const MIN_BLOCKS: nat := 16
  const MAX_BLOCKS: nat := 4096
  const DIRENTS: nat := 16
  const INODE_SIZE: nat := 60
  const PER_BLOCK: nat := 8
  const MAX_FILE: nat := 4096

  const OK: int := 0
  const E_INVAL: int := -1
  const E_NOSPC: int := -3
  const E_EXIST: int := -4
  const E_NOENT: int := -5
  const E_NAMETOOLONG: int := -6
  const E_CORRUPT: int := -7
  const E_ISDIR: int := -8
  const E_RANGE: int := -9

  type Disk = d: seq<Block> | MIN_BLOCKS <= |d| <= MAX_BLOCKS
    witness seq<Block>(MIN_BLOCKS, _ => ZERO_BLOCK)

  type Ino = i: nat | 1 <= i <= MAX_INODES witness 1

  /** The bytes of an inode structure. */
  type InodeBytes = s: seq<byte> | |s| == INODE_SIZE witness Zeros(INODE_SIZE)

  datatype Inode = Inode(mode: nat, size: nat, direct: seq<nat>)
  datatype Entry = Entry(ino: nat, kind: byte, name: CString)
  datatype View = View(ib: seq<bool>, bb: seq<bool>, inodes: seq<Inode>, dir: seq<Entry>)

  // ---- decoding ----

  function Directs(s: InodeBytes): (r: seq<nat>)
    ensures |r| == DIRECT && forall j | 0 <= j < DIRECT :: r[j] == Get(s, 8 + 4 * j, 4)
  {
    seq(DIRECT, j requires 0 <= j < DIRECT => Get(s, 8 + 4 * j, 4))
  }

  function InodeOf(s: InodeBytes): Inode
  {
    Inode(Get(s, 0, 2), Get(s, 4, 4), Directs(s))
  }

  function TableLba(ino: Ino): (lba: nat)
    ensures TABLE_LBA <= lba < ROOT_LBA
  {
    TABLE_LBA + (ino - 1) / PER_BLOCK
  }

  function TableOff(ino: Ino): (off: nat)
    ensures off + INODE_SIZE <= BLOCK_SIZE
  {
    (ino - 1) % PER_BLOCK * INODE_SIZE
  }

  function InodeBytesAt(d: Disk, ino: Ino): InodeBytes
  {
    d[TableLba(ino)][TableOff(ino)..TableOff(ino) + INODE_SIZE]
  }

  function EntryAt(b: Block, i: nat): Entry
    requires i < DIRENTS
  {
    Entry(Get(b, 32 * i, 4), b[32 * i + 4], CName(b[32 * i + 5..32 * i + 32]))
  }

  function Inodes(d: Disk): (r: seq<Inode>)
    ensures |r| == MAX_INODES && forall i | 0 <= i < MAX_INODES :: r[i] == InodeOf(InodeBytesAt(d, i + 1))
  {
    seq(MAX_INODES, i requires 0 <= i < MAX_INODES => InodeOf(InodeBytesAt(d, i + 1)))
  }

  function Entries(b: Block): (r: seq<Entry>)
    ensures |r| == DIRENTS && forall i | 0 <= i < DIRENTS :: r[i] == EntryAt(b, i)
  {
    seq(DIRENTS, i requires 0 <= i < DIRENTS => EntryAt(b, i))
  }

  function ViewOf(d: Disk): View
  {
    View(Bits(d[IB_LBA], MAX_INODES + 1), Bits(d[BB_LBA], |d|), Inodes(d), Entries(d[ROOT_LBA]))
  }

  predicate Shaped(v: View, n: nat)
  {
    && |v.ib| == MAX_INODES + 1 && |v.bb| == n && |v.inodes| == MAX_INODES && |v.dir| == DIRENTS
    && DATA_START < n
    && forall i | 0 <= i < MAX_INODES :: |v.inodes[i].direct| == DIRECT
  }

  lemma ViewShaped(d: Disk)
    ensures Shaped(ViewOf(d), |d|)
  {
  }

  // ---- encoding ----

  /** Two inodes of the table do not overlap. */
  lemma InodesApart(i: Ino, j: Ino)
    requires i != j && TableLba(i) == TableLba(j)
    ensures TableOff(i) + INODE_SIZE <= TableOff(j) || TableOff(j) + INODE_SIZE <= TableOff(i)
  {
    var a, b := (i - 1) % PER_BLOCK, (j - 1) % PER_BLOCK;
    assert a != b;
  }

  function StoreInode(d: Disk, ino: Ino, s: InodeBytes): Disk
  {
    d[TableLba(ino) := Splice(d[TableLba(ino)], TableOff(ino), s)]
  }

  lemma StoreInodeAt(d: Disk, ino: Ino, s: InodeBytes, j: Ino)
    ensures InodeBytesAt(StoreInode(d, ino, s), j) == if j == ino then s else InodeBytesAt(d, j)
  {
    if j != ino && TableLba(j) == TableLba(ino) {
      InodesApart(j, ino);
      SpliceKeeps(d[TableLba(ino)], TableOff(ino), s, TableOff(j), INODE_SIZE);
    }
  }

  lemma StoreInodeView(d: Disk, ino: Ino, s: InodeBytes)
    ensures ViewOf(StoreInode(d, ino, s)) == ViewOf(d).(inodes := ViewOf(d).inodes[ino - 1 := InodeOf(s)])
  {
    hide InodeOf;
    var e := StoreInode(d, ino, s);
    forall i | 0 <= i < MAX_INODES
      ensures Inodes(e)[i] == Inodes(d)[ino - 1 := InodeOf(s)][i]
    {
      StoreInodeAt(d, ino, s, i + 1);
    }
    assert e[IB_LBA] == d[IB_LBA] && e[BB_LBA] == d[BB_LBA] && e[ROOT_LBA] == d[ROOT_LBA];
  }

  /** A fresh inode structure for an empty file whose first block is `lba`. */
  function NewInode(lba: nat): InodeBytes
  {
    var s := Put(Zeros(INODE_SIZE), 0, 2, MODE_FILE);
    var s := Put(s, 2, 2, 1);
    var s := Put(s, 4, 4, 0);
    Put(s, 8, 4, lba)
  }

  lemma NewInodeFields(lba: nat)
    requires lba < U32
    ensures InodeOf(NewInode(lba)) == Inode(MODE_FILE, 0, [lba, 0, 0, 0, 0, 0, 0, 0]) && Get(NewInode(lba), 2, 2) == 1
  {
    Ranges();
    var s0 := Zeros(INODE_SIZE);
    var s1 := Put(s0, 0, 2, MODE_FILE);
    var s2 := Put(s1, 2, 2, 1);
    var s3 := Put(s2, 4, 4, 0);
    GetPutSame(s0, 0, 2, MODE_FILE);
    PutKeeps(s1, 2, 2, 1);
    GetPutSame(s1, 2, 2, 1);
    PutKeeps(s2, 4, 4, 0);
    GetPutSame(s2, 4, 4, 0);
    PutKeeps(s3, 8, 4, lba);
    GetPutSame(s3, 8, 4, lba);
    forall j | 1 <= j < DIRECT
      ensures Get(NewInode(lba), 8 + 4 * j, 4) == 0
    {
      assert NewInode(lba)[8 + 4 * j..8 + 4 * j + 4] == s0[8 + 4 * j..8 + 4 * j + 4];
      GetZeros(INODE_SIZE, 8 + 4 * j, 4);
    }
  }

  function PutDirect(s: InodeBytes, j: nat, lba: nat): InodeBytes
    requires j < DIRECT
  {
    Put(s, 8 + 4 * j, 4, lba)
  }

  lemma PutDirectFields(s: InodeBytes, j: nat, lba: nat)
    requires j < DIRECT && lba < U32
    ensures InodeOf(PutDirect(s, j, lba)) == InodeOf(s).(direct := InodeOf(s).direct[j := lba])
  {
    Ranges();
    PutKeeps(s, 8 + 4 * j, 4, lba);
    GetPutSame(s, 8 + 4 * j, 4, lba);
    assert Directs(PutDirect(s, j, lba)) == Directs(s)[j := lba];
  }

  function PutSize(s: InodeBytes, size: nat): InodeBytes
  {
    Put(s, 4, 4, size)
  }

  lemma PutSizeFields(s: InodeBytes, size: nat)
    requires size < U32
    ensures InodeOf(PutSize(s, size)) == InodeOf(s).(size := size)
  {
    Ranges();
    PutKeeps(s, 4, 4, size);
    GetPutSame(s, 4, 4, size);
    assert Directs(PutSize(s, size)) == Directs(s);
  }

  lemma ZeroInodeFields()
    ensures InodeOf(Zeros(INODE_SIZE)) == Inode(0, 0, [0, 0, 0, 0, 0, 0, 0, 0])
  {
    GetZeros(INODE_SIZE, 0, 2);
    GetZeros(INODE_SIZE, 4, 4);
    forall j | 0 <= j < DIRECT
      ensures Get(Zeros(INODE_SIZE), 8 + 4 * j, 4) == 0
    {
      GetZeros(INODE_SIZE, 8 + 4 * j, 4);
    }
  }

  /** A directory block with one entry rewritten. */
  function PutEntry(b: Block, i: nat, ino: nat, kind: byte, name: seq<byte>): Block
    requires i < DIRENTS && |name| <= MAX_NAME
  {
    var b1 := Put(b, 32 * i, 4, ino);
    var b2 := b1[32 * i + 4 := kind];
    Splice(b2, 32 * i + 5, Padded(name, MAX_NAME))
  }

  lemma PutEntryAt(b: Block, i: nat, ino: nat, kind: byte, name: CString)
    requires i < DIRENTS && |name| <= MAX_NAME && ino < U32
    ensures EntryAt(PutEntry(b, i, ino, kind, name), i) == Entry(ino, kind, name)
  {
    Ranges();
    var b1 := Put(b, 32 * i, 4, ino);
    var b' := PutEntry(b, i, ino, kind, name);
    GetPutSame(b, 32 * i, 4, ino);
    assert b'[32 * i..32 * i + 4] == b1[32 * i..32 * i + 4];
    assert b'[32 * i + 5..32 * i + 32] == Padded(name, MAX_NAME);
    CNamePadded(name, MAX_NAME);
  }

  lemma PutEntryOthers(b: Block, i: nat, ino: nat, kind: byte, name: CString, j: nat)
    requires i < DIRENTS && |name| <= MAX_NAME && j < DIRENTS && j != i
    ensures EntryAt(PutEntry(b, i, ino, kind, name), j) == EntryAt(b, j)
  {
    var b' := PutEntry(b, i, ino, kind, name);
    assert b'[32 * j..32 * j + 4] == b[32 * j..32 * j + 4];
    assert b'[32 * j + 5..32 * j + 32] == b[32 * j + 5..32 * j + 32];
  }

  lemma PutEntryView(b: Block, i: nat, ino: nat, kind: byte, name: CString)
    requires i < DIRENTS && |name| <= MAX_NAME && ino < U32
    ensures Entries(PutEntry(b, i, ino, kind, name)) == Entries(b)[i := Entry(ino, kind, name)]
  {
    hide EntryAt, PutEntry;
    PutEntryAt(b, i, ino, kind, name);
    forall j | 0 <= j < DIRENTS && j != i
      ensures Entries(PutEntry(b, i, ino, kind, name))[j] == Entries(b)[j]
    {
      PutEntryOthers(b, i, ino, kind, name, j);
    }
  }
}
