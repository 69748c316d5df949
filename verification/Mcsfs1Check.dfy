/**
  What the mount and the checker of MCSFS1 accept, said without their tests: the
  bytes a format writes, and files every byte of which can be read.
 */
module Mcsfs1Check {
  import opened Bytes
  import opened Bitmap
  import opened CStrings
  import opened Mcsfs1Layout
  import opened Mcsfs1Files
  import opened Mcsfs1

  /** The superblock is accepted exactly if it agrees with the one a format writes on every field but the table's length. */
  lemma SuperExactly(sb: Block, n: nat)
    requires MIN_BLOCKS <= n <= MAX_BLOCKS
    ensures SuperOk(sb, n) <==>
      forall k | 0 <= k < 12 && k != 8 :: SameBytes(sb, SuperBlock(n), 4 * k, 4)
  {
    hide SuperBlock, Get;
    var f := SuperBlock(n);
    SuperBlockOk(n);
    forall k | 0 <= k < 12 && k != 8
      ensures SameBytes(sb, f, 4 * k, 4) <==> Get(sb, 4 * k, 4) == Get(f, 4 * k, 4)
    {
      SameBytesExactly(sb, f, 4 * k, 4);
    }
    if forall k | 0 <= k < 12 && k != 8 :: SameBytes(sb, f, 4 * k, 4) {
      assert SameBytes(sb, f, 4 * 0, 4) && SameBytes(sb, f, 4 * 1, 4) && SameBytes(sb, f, 4 * 2, 4) && SameBytes(sb, f, 4 * 3, 4);
      assert SameBytes(sb, f, 4 * 4, 4) && SameBytes(sb, f, 4 * 5, 4) && SameBytes(sb, f, 4 * 6, 4) && SameBytes(sb, f, 4 * 7, 4);
      assert SameBytes(sb, f, 4 * 9, 4) && SameBytes(sb, f, 4 * 10, 4) && SameBytes(sb, f, 4 * 11, 4);
    }
  }

  /** A volume can be mounted exactly if its superblock and the mode and first block of its root inode are those a format writes. */
  lemma MountExactly(d: Disk)
    ensures Mountable(d) <==>
      && (forall k | 0 <= k < 12 && k != 8 :: SameBytes(d[SB_LBA], SuperBlock(|d|), 4 * k, 4))
      && SameBytes(InodeBytesAt(d, ROOT_INO), RootInode(), 0, 2) && SameBytes(InodeBytesAt(d, ROOT_INO), RootInode(), 8, 4)
  {
    hide SuperOk, SuperBlock, RootInode, Get, EntryAt;
    var s := InodeBytesAt(d, ROOT_INO);
    SuperExactly(d[SB_LBA], |d|);
    RootInodeFields();
    InodeFields(s);
    InodeFields(RootInode());
    SameBytesExactly(s, RootInode(), 0, 2);
    SameBytesExactly(s, RootInode(), 8, 4);
    assert ViewOf(d).inodes[0] == InodeOf(s);
    assert InodeOf(s).direct[0] == Get(s, 8 + 4 * 0, 4) && InodeOf(RootInode()).direct[0] == Get(RootInode(), 8 + 4 * 0, 4);
  }

  /** The file in a slot can be read to its end, and its inode and blocks are taken. */
  ghost predicate Usable(v: View, n: nat, i: nat)
    requires Shaped(v, n) && i < DIRENTS
  {
    && 1 <= v.dir[i].ino <= MAX_INODES && v.dir[i].kind == MODE_FILE && v.ib[v.dir[i].ino]
    && var f := v.inodes[v.dir[i].ino - 1];
    && f.mode == MODE_FILE && Readable(f, n)
    && 0 < f.direct[0] < n
    && forall j | 0 <= j < DIRECT && (j == 0 || BLOCK_SIZE * j < f.size) :: DATA_START <= f.direct[j] && v.bb[f.direct[j]]
  }

  lemma NeededBlocks(size: nat, j: nat)
    ensures j < Needed(size) <==> j == 0 || BLOCK_SIZE * j < size
  {
  }

  lemma InodeMeans(f: Inode, bb: seq<bool>)
    requires |f.direct| == DIRECT
    ensures InodePasses(f, bb) <==>
      && f.mode == MODE_FILE && Readable(f, |bb|) && 0 < f.direct[0] < |bb|
      && forall j | 0 <= j < DIRECT && (j == 0 || BLOCK_SIZE * j < f.size) :: DATA_START <= f.direct[j] && bb[f.direct[j]]
  {
    forall j | 0 <= j < DIRECT
      ensures j < Needed(f.size) <==> j == 0 || BLOCK_SIZE * j < f.size
    {
      NeededBlocks(f.size, j);
    }
  }

  /**
    The checker accepts a volume exactly if it can be mounted, all metadata blocks and
    the root inode are marked, and every file can be read to its end, with its inode
    and the blocks it needs marked.
   */
  lemma CheckMeans(d: Disk)
    ensures Shaped(ViewOf(d), |d|)
    ensures SuperOk(d[SB_LBA], |d|) && Passes(ViewOf(d), |d|) <==>
      && Mountable(d) && ViewOf(d).ib[ROOT_INO] && (forall b | 0 <= b < DATA_START :: ViewOf(d).bb[b])
      && forall i | 0 <= i < DIRENTS && Live(ViewOf(d), i) :: Usable(ViewOf(d), |d|, i)
  {
    hide SuperOk, ViewOf;
    ViewShaped(d);
    var v := ViewOf(d);
    forall i | 0 <= i < DIRENTS && Live(v, i)
      ensures EntryPasses(v, |d|, v.dir[i]) <==> Usable(v, |d|, i)
    {
      if 1 <= v.dir[i].ino <= MAX_INODES {
        InodeMeans(v.inodes[v.dir[i].ino - 1], v.bb);
      }
    }
  }
}
