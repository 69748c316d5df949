/**
  What keeps an MCSFS1 volume consistent, and the map from names to byte strings
  it stands for.  Each operation's effect on the decoded volume is shown to keep
  the first and to update the second.
 */
module Mcsfs1Files {
  import opened Bytes
  import opened CStrings
  import opened Mcsfs1Layout

  type Files = map<CString, seq<byte>>

  // ---- consistency ----

  predicate Live(v: View, i: nat)
    requires i < |v.dir|
  {
    v.dir[i].ino != 0
  }

  /** The number of blocks a file of this size occupies; an empty file keeps one. */
  function Needed(size: nat): nat
  {
    if size == 0 then 1 else (size + BLOCK_SIZE - 1) / BLOCK_SIZE
  }

  /** A name the volume can hold and find again. */
  predicate GoodName(name: CString)
  {
    0 < |name| < MAX_NAME && '/' as int !in name
  }

  predicate PointerOk(p: nat, bb: seq<bool>)
  {
    p == 0 || (DATA_START <= p < |bb| && bb[p])
  }

  /** An inode of a file on a volume with these block bits. */
  ghost predicate InodeOk(f: Inode, bb: seq<bool>)
  {
    && f.mode == MODE_FILE && f.size <= MAX_FILE && |f.direct| == DIRECT
    && (forall j | 0 <= j < DIRECT :: PointerOk(f.direct[j], bb))
    && (forall j | 0 <= j < Needed(f.size) && j < DIRECT :: f.direct[j] != 0)
    && (forall j, l | 0 <= j < DIRECT && 0 <= l < DIRECT && j != l && f.direct[j] != 0 :: f.direct[j] != f.direct[l])
  }

  /** Two inodes share no block. */
  ghost predicate Disjoint(f: Inode, g: Inode)
  {
    forall j, l | 0 <= j < |f.direct| && 0 <= l < |g.direct| && f.direct[j] != 0 :: f.direct[j] != g.direct[l]
  }

  ghost predicate EntryOk(v: View, n: nat, e: Entry)
    requires Shaped(v, n)
  {
    && 2 <= e.ino <= MAX_INODES && v.ib[e.ino] && e.kind == MODE_FILE && GoodName(e.name)
    && InodeOk(v.inodes[e.ino - 1], v.bb)
  }

  ghost predicate Apart(v: View, n: nat, e: Entry, f: Entry)
    requires Shaped(v, n) && 1 <= e.ino <= MAX_INODES && 1 <= f.ino <= MAX_INODES
  {
    e.ino != f.ino && e.name != f.name && Disjoint(v.inodes[e.ino - 1], v.inodes[f.ino - 1])
  }

  ghost predicate MetaOk(v: View, n: nat)
    requires Shaped(v, n)
  {
    && v.ib[ROOT_INO] && (forall b | 0 <= b < DATA_START :: v.bb[b])
    && v.inodes[ROOT_INO - 1].mode == MODE_DIR && v.inodes[ROOT_INO - 1].direct[0] == ROOT_LBA
  }

  /** The invariant of a volume. */
  ghost predicate Consistent(v: View, n: nat)
  {
    && Shaped(v, n) && MetaOk(v, n)
    && (forall i | 0 <= i < DIRENTS && Live(v, i) :: EntryOk(v, n, v.dir[i]))
    && (forall i, k | 0 <= i < DIRENTS && 0 <= k < DIRENTS && i != k && Live(v, i) && Live(v, k) ::
          Apart(v, n, v.dir[i], v.dir[k]))
  }

  // ---- contents ----

  /** Byte `p` of a file. */
  function ByteAt(d: Disk, f: Inode, p: nat): byte
    requires p / BLOCK_SIZE < |f.direct| && f.direct[p / BLOCK_SIZE] < |d|
  {
    d[f.direct[p / BLOCK_SIZE]][p % BLOCK_SIZE]
  }

  function Content(d: Disk, f: Inode): (s: seq<byte>)
    requires f.size <= MAX_FILE && |f.direct| == DIRECT && forall j | 0 <= j < DIRECT :: f.direct[j] < |d|
    ensures |s| == f.size && forall p | 0 <= p < f.size :: s[p] == ByteAt(d, f, p)
  {
    seq(f.size, p requires 0 <= p < f.size => ByteAt(d, f, p))
  }

  function InodeOfSlot(v: View, i: nat): Inode
    requires i < |v.dir| && 1 <= v.dir[i].ino <= |v.inodes|
  {
    v.inodes[v.dir[i].ino - 1]
  }

  /** Slot `i` of a consistent volume holds the file `files` says it does. */
  ghost predicate SlotHolds(d: Disk, files: Files, i: nat)
    requires Consistent(ViewOf(d), |d|) && i < DIRENTS && Live(ViewOf(d), i)
  {
    var v := ViewOf(d);
    assert EntryOk(v, |d|, v.dir[i]);
    v.dir[i].name in files && files[v.dir[i].name] == Content(d, InodeOfSlot(v, i))
  }

  ghost predicate HasSlot(v: View, name: CString)
  {
    exists i | 0 <= i < |v.dir| :: Live(v, i) && v.dir[i].name == name
  }

  /** The volume `d` stands for the map `files`. */
  ghost predicate Represents(d: Disk, files: Files)
  {
    && Consistent(ViewOf(d), |d|)
    && (forall i | 0 <= i < DIRENTS && Live(ViewOf(d), i) :: SlotHolds(d, files, i))
    && (forall n | n in files :: HasSlot(ViewOf(d), n))
  }

  lemma SameContent(d: Disk, e: Disk, f: Inode)
    requires f.size <= MAX_FILE && |f.direct| == DIRECT && forall j | 0 <= j < DIRECT :: f.direct[j] < |d|
    requires |e| == |d| && forall j | 0 <= j < DIRECT && f.direct[j] != 0 :: e[f.direct[j]] == d[f.direct[j]]
    requires forall j | 0 <= j < Needed(f.size) && j < DIRECT :: f.direct[j] != 0
    ensures Content(e, f) == Content(d, f)
  {
    forall p | 0 <= p < f.size
      ensures ByteAt(e, f, p) == ByteAt(d, f, p)
    {
      assert p / BLOCK_SIZE < Needed(f.size);
    }
  }

  // ---- the operations on views ----

  /** Marking more blocks as taken. */
  ghost predicate MoreBits(bb: seq<bool>, bb': seq<bool>)
  {
    |bb'| == |bb| && forall b | 0 <= b < |bb| && bb[b] :: bb'[b]
  }

  lemma InodeOkMoreBits(f: Inode, bb: seq<bool>, bb': seq<bool>)
    requires InodeOk(f, bb) && MoreBits(bb, bb')
    ensures InodeOk(f, bb')
  {
    forall j | 0 <= j < DIRECT
      ensures PointerOk(f.direct[j], bb')
    {
      assert PointerOk(f.direct[j], bb);
    }
  }

  lemma LeakKeepsConsistent(v: View, n: nat, bb': seq<bool>)
    requires Consistent(v, n) && MoreBits(v.bb, bb')
    ensures Consistent(v.(bb := bb'), n)
  {
    hide InodeOk, Disjoint;
    var w := v.(bb := bb');
    forall i | 0 <= i < DIRENTS && Live(w, i)
      ensures EntryOk(w, n, w.dir[i])
    {
      assert Live(v, i) && EntryOk(v, n, v.dir[i]);
      InodeOkMoreBits(v.inodes[v.dir[i].ino - 1], v.bb, bb');
    }
    forall i, k | 0 <= i < DIRENTS && 0 <= k < DIRENTS && i != k && Live(w, i) && Live(w, k)
      ensures Apart(w, n, w.dir[i], w.dir[k])
    {
      assert Apart(v, n, v.dir[i], v.dir[k]);
    }
  }

  /** A block that is not marked belongs to no inode. */
  lemma FreeBlockUnowned(f: Inode, bb: seq<bool>, lba: nat)
    requires InodeOk(f, bb) && 0 < lba < |bb| && !bb[lba]
    ensures forall j | 0 <= j < DIRECT :: f.direct[j] != lba
  {
    forall j | 0 <= j < DIRECT
      ensures f.direct[j] != lba
    {
      assert PointerOk(f.direct[j], bb);
    }
  }

  function CreateView(v: View, slot: nat, ino: nat, lba: nat, name: CString): View
    requires slot < |v.dir| && 1 <= ino < |v.ib| && ino <= |v.inodes| && lba < |v.bb|
  {
    View(v.ib[ino := true], v.bb[lba := true],
         v.inodes[ino - 1 := Inode(MODE_FILE, 0, [lba, 0, 0, 0, 0, 0, 0, 0])],
         v.dir[slot := Entry(ino, MODE_FILE, name)])
  }

  lemma CreateEntryOk(v: View, n: nat, slot: nat, ino: nat, lba: nat, name: CString, i: nat)
    requires Consistent(v, n) && slot < DIRENTS && !Live(v, slot) && GoodName(name)
    requires 2 <= ino <= MAX_INODES && !v.ib[ino] && DATA_START <= lba < n && !v.bb[lba]
    requires i < DIRENTS && Live(CreateView(v, slot, ino, lba, name), i)
    ensures var w := CreateView(v, slot, ino, lba, name); Shaped(w, n) && EntryOk(w, n, w.dir[i])
  {
    var w := CreateView(v, slot, ino, lba, name);
    if i != slot {
      assert Live(v, i) && EntryOk(v, n, v.dir[i]);
      InodeOkMoreBits(v.inodes[v.dir[i].ino - 1], v.bb, w.bb);
    }
  }

  lemma CreateApart(v: View, n: nat, slot: nat, ino: nat, lba: nat, name: CString, i: nat)
    requires Consistent(v, n) && slot < DIRENTS && !Live(v, slot) && GoodName(name)
    requires 2 <= ino <= MAX_INODES && !v.ib[ino] && DATA_START <= lba < n && !v.bb[lba]
    requires i < DIRENTS && Live(v, i) && v.dir[i].name != name
    ensures var w := CreateView(v, slot, ino, lba, name);
      Shaped(w, n) && EntryOk(v, n, v.dir[i]) && Apart(w, n, w.dir[i], w.dir[slot]) && Apart(w, n, w.dir[slot], w.dir[i])
  {
    var w := CreateView(v, slot, ino, lba, name);
    assert EntryOk(v, n, v.dir[i]);
    FreeBlockUnowned(v.inodes[v.dir[i].ino - 1], v.bb, lba);
  }

  lemma CreateKeepsConsistent(v: View, n: nat, slot: nat, ino: nat, lba: nat, name: CString)
    requires Consistent(v, n) && slot < DIRENTS && !Live(v, slot) && GoodName(name) && !HasSlot(v, name)
    requires 2 <= ino <= MAX_INODES && !v.ib[ino] && DATA_START <= lba < n && !v.bb[lba]
    ensures Consistent(CreateView(v, slot, ino, lba, name), n)
  {
    hide InodeOk, Disjoint;
    var w := CreateView(v, slot, ino, lba, name);
    forall i | 0 <= i < DIRENTS && Live(w, i)
      ensures EntryOk(w, n, w.dir[i])
    {
      CreateEntryOk(v, n, slot, ino, lba, name, i);
    }
    forall i, k | 0 <= i < DIRENTS && 0 <= k < DIRENTS && i != k && Live(w, i) && Live(w, k)
      ensures Apart(w, n, w.dir[i], w.dir[k])
    {
      if k == slot {
        CreateApart(v, n, slot, ino, lba, name, i);
      } else if i == slot {
        CreateApart(v, n, slot, ino, lba, name, k);
      } else {
        assert Live(v, i) && Live(v, k) && Apart(v, n, v.dir[i], v.dir[k]);
        assert EntryOk(v, n, v.dir[i]) && EntryOk(v, n, v.dir[k]);
      }
    }
  }

  /** A file's inode rewritten, with blocks that were free before added to it. */
  function UpdateView(v: View, i: nat, bb': seq<bool>, g: Inode): View
    requires i < |v.dir| && 1 <= v.dir[i].ino <= |v.inodes|
  {
    v.(bb := bb', inodes := v.inodes[v.dir[i].ino - 1 := g])
  }

  /** Every block of `g` was a block of `f` or free. */
  ghost predicate Grown(f: Inode, g: Inode, bb: seq<bool>)
  {
    && |f.direct| == DIRECT && |g.direct| == DIRECT
    && forall j | 0 <= j < DIRECT ::
         g.direct[j] == f.direct[j] || (DATA_START <= g.direct[j] < |bb| && !bb[g.direct[j]])
  }

  lemma GrownDisjoint(f: Inode, g: Inode, h: Inode, bb: seq<bool>)
    requires Grown(f, g, bb) && InodeOk(f, bb) && InodeOk(h, bb) && Disjoint(f, h)
    ensures Disjoint(g, h) && Disjoint(h, g)
  {
    forall j, l | 0 <= j < DIRECT && 0 <= l < DIRECT && g.direct[j] != 0
      ensures g.direct[j] != h.direct[l]
    {
      assert PointerOk(h.direct[l], bb);
    }
  }

  lemma UpdateKeepsConsistent(v: View, n: nat, i: nat, bb': seq<bool>, g: Inode)
    requires Consistent(v, n) && i < DIRENTS && Live(v, i) && MoreBits(v.bb, bb')
    requires EntryOk(v, n, v.dir[i]) && InodeOk(g, bb') && Grown(InodeOfSlot(v, i), g, v.bb)
    ensures Consistent(UpdateView(v, i, bb', g), n)
  {
    hide Disjoint;
    var w := UpdateView(v, i, bb', g);
    forall k | 0 <= k < DIRENTS && Live(w, k)
      ensures EntryOk(w, n, w.dir[k])
    {
      assert Live(v, k) && EntryOk(v, n, v.dir[k]);
      if k != i {
        assert Apart(v, n, v.dir[i], v.dir[k]);
        InodeOkMoreBits(v.inodes[v.dir[k].ino - 1], v.bb, bb');
      }
    }
    forall k, l | 0 <= k < DIRENTS && 0 <= l < DIRENTS && k != l && Live(w, k) && Live(w, l)
      ensures Apart(w, n, w.dir[k], w.dir[l])
    {
      assert Live(v, k) && Live(v, l) && EntryOk(v, n, v.dir[k]) && EntryOk(v, n, v.dir[l]);
      assert Apart(v, n, v.dir[k], v.dir[l]) && Apart(v, n, v.dir[l], v.dir[k]);
      if k == i {
        GrownDisjoint(InodeOfSlot(v, i), g, InodeOfSlot(v, l), v.bb);
      } else if l == i {
        GrownDisjoint(InodeOfSlot(v, i), g, InodeOfSlot(v, k), v.bb);
      }
    }
  }

  /** The block bits with a file's blocks given back. */
  ghost predicate Released(bb: seq<bool>, f: Inode, bb': seq<bool>)
  {
    |bb'| == |bb| && forall b | 0 <= b < |bb| :: bb'[b] == (bb[b] && (b == 0 || b !in f.direct))
  }

  const NO_ENTRY: Entry := Entry(0, 0, [])
  const NO_INODE: Inode := Inode(0, 0, [0, 0, 0, 0, 0, 0, 0, 0])

  function UnlinkView(v: View, i: nat, bb': seq<bool>): View
    requires i < |v.dir| && 1 <= v.dir[i].ino <= |v.inodes| && v.dir[i].ino < |v.ib|
  {
    View(v.ib[v.dir[i].ino := false], bb', v.inodes[v.dir[i].ino - 1 := NO_INODE], v.dir[i := NO_ENTRY])
  }

  lemma ReleasedKeeps(f: Inode, g: Inode, bb: seq<bool>, bb': seq<bool>)
    requires InodeOk(g, bb) && Released(bb, f, bb') && Disjoint(g, f)
    ensures InodeOk(g, bb')
  {
    forall j | 0 <= j < DIRECT
      ensures PointerOk(g.direct[j], bb')
    {
      assert PointerOk(g.direct[j], bb);
    }
  }

  lemma UnlinkKeepsConsistent(v: View, n: nat, i: nat, bb': seq<bool>)
    requires Consistent(v, n) && i < DIRENTS && Live(v, i) && EntryOk(v, n, v.dir[i])
    requires Released(v.bb, InodeOfSlot(v, i), bb')
    ensures Consistent(UnlinkView(v, i, bb'), n)
  {
    hide Disjoint;
    var w := UnlinkView(v, i, bb');
    var f := InodeOfSlot(v, i);
    assert forall j | 0 <= j < DIRECT :: PointerOk(f.direct[j], v.bb);
    forall k | 0 <= k < DIRENTS && Live(w, k)
      ensures EntryOk(w, n, w.dir[k])
    {
      assert k != i && Live(v, k) && EntryOk(v, n, v.dir[k]) && Apart(v, n, v.dir[k], v.dir[i]);
      ReleasedKeeps(f, InodeOfSlot(v, k), v.bb, bb');
    }
    forall k, l | 0 <= k < DIRENTS && 0 <= l < DIRENTS && k != l && Live(w, k) && Live(w, l)
      ensures Apart(w, n, w.dir[k], w.dir[l])
    {
      assert k != i && l != i && Live(v, k) && Live(v, l) && EntryOk(v, n, v.dir[k]) && EntryOk(v, n, v.dir[l]);
      assert Apart(v, n, v.dir[k], v.dir[l]) && Apart(v, n, v.dir[k], v.dir[i]) && Apart(v, n, v.dir[l], v.dir[i]);
    }
  }

  // ---- the operations on the map ----

  /** The data area of two disks agrees on the blocks of an inode. */
  ghost predicate SameBlocks(d: Disk, e: Disk, f: Inode)
  {
    |e| == |d| && forall j | 0 <= j < |f.direct| && DATA_START <= f.direct[j] < |d| :: e[f.direct[j]] == d[f.direct[j]]
  }

  /** Slot `i` has the same entry and the same inode on both disks, and the inode's blocks are the same. */
  lemma SlotStays(d: Disk, e: Disk, files: Files, files': Files, i: nat)
    requires Represents(d, files) && Consistent(ViewOf(e), |e|) && |e| == |d|
    requires i < DIRENTS && Live(ViewOf(d), i) && EntryOk(ViewOf(d), |d|, ViewOf(d).dir[i])
    requires ViewOf(e).dir[i] == ViewOf(d).dir[i] && InodeOfSlot(ViewOf(e), i) == InodeOfSlot(ViewOf(d), i)
    requires SameBlocks(d, e, InodeOfSlot(ViewOf(d), i))
    requires ViewOf(d).dir[i].name in files' && ViewOf(d).dir[i].name in files &&
      files'[ViewOf(d).dir[i].name] == files[ViewOf(d).dir[i].name]
    ensures SlotHolds(e, files', i)
  {
    hide ViewOf, Disjoint, Content;
    var f := InodeOfSlot(ViewOf(d), i);
    assert SlotHolds(d, files, i);
    assert forall j | 0 <= j < DIRECT :: PointerOk(f.direct[j], ViewOf(d).bb);
    SameContent(d, e, f);
  }

  lemma LeakRepresents(d: Disk, e: Disk, files: Files)
    requires Represents(d, files) && |e| == |d| && MoreBits(ViewOf(d).bb, ViewOf(e).bb)
    requires ViewOf(e) == ViewOf(d).(bb := ViewOf(e).bb)
    requires forall b | DATA_START <= b < |d| :: e[b] == d[b]
    ensures Represents(e, files)
  {
    hide ViewOf, EntryOk, Apart;
    LeakKeepsConsistent(ViewOf(d), |d|, ViewOf(e).bb);
    forall i | 0 <= i < DIRENTS && Live(ViewOf(e), i)
      ensures SlotHolds(e, files, i)
    {
      assert Live(ViewOf(d), i) && SlotHolds(d, files, i);
      SlotStays(d, e, files, files, i);
    }
    forall n | n in files
      ensures HasSlot(ViewOf(e), n)
    {
      assert HasSlot(ViewOf(d), n);
    }
  }

  lemma AbsentHasNoSlot(d: Disk, files: Files, name: CString)
    requires Represents(d, files) && name !in files
    ensures !HasSlot(ViewOf(d), name)
  {
    hide ViewOf, Consistent;
    ViewShaped(d);
    forall i | 0 <= i < DIRENTS && Live(ViewOf(d), i)
      ensures ViewOf(d).dir[i].name != name
    {
      assert SlotHolds(d, files, i);
    }
  }

  lemma CreateRepresents(d: Disk, e: Disk, files: Files, slot: nat, ino: nat, lba: nat, name: CString)
    requires Represents(d, files) && |e| == |d| && name !in files && GoodName(name)
    requires slot < DIRENTS && !Live(ViewOf(d), slot)
    requires 2 <= ino <= MAX_INODES && !ViewOf(d).ib[ino] && DATA_START <= lba < |d| && !ViewOf(d).bb[lba]
    requires ViewOf(e) == CreateView(ViewOf(d), slot, ino, lba, name)
    requires forall b | DATA_START <= b < |d| :: e[b] == d[b]
    ensures Represents(e, files[name := []])
  {
    hide ViewOf, Apart;
    var v, w, files' := ViewOf(d), ViewOf(e), files[name := []];
    AbsentHasNoSlot(d, files, name);
    CreateKeepsConsistent(v, |d|, slot, ino, lba, name);
    forall i | 0 <= i < DIRENTS && Live(w, i)
      ensures SlotHolds(e, files', i)
    {
      if i != slot {
        assert Live(v, i) && SlotHolds(d, files, i) && EntryOk(v, |d|, v.dir[i]);
        SlotStays(d, e, files, files', i);
      }
    }
    forall n | n in files'
      ensures HasSlot(w, n)
    {
      if n == name {
        assert Live(w, slot) && w.dir[slot].name == n;
      } else {
        assert HasSlot(v, n);
        var i :| 0 <= i < |v.dir| && Live(v, i) && v.dir[i].name == n;
        assert Live(w, i) && w.dir[i].name == n;
      }
    }
  }

  /** Slots other than `i` keep their blocks when only blocks of `g` are written. */
  lemma OthersKeepBlocks(d: Disk, e: Disk, g: Inode, h: Inode)
    requires |e| == |d| && Disjoint(h, g)
    requires forall b | DATA_START <= b < |d| && b !in g.direct :: e[b] == d[b]
    ensures SameBlocks(d, e, h)
  {
    forall j | 0 <= j < |h.direct| && DATA_START <= h.direct[j] < |d|
      ensures e[h.direct[j]] == d[h.direct[j]]
    {
      assert forall l | 0 <= l < |g.direct| :: g.direct[l] != h.direct[j];
    }
  }

  lemma UpdateRepresents(d: Disk, e: Disk, files: Files, i: nat, g: Inode, data: seq<byte>)
    requires Represents(d, files) && |e| == |d|
    requires i < DIRENTS && Live(ViewOf(d), i) && EntryOk(ViewOf(d), |d|, ViewOf(d).dir[i])
    requires MoreBits(ViewOf(d).bb, ViewOf(e).bb) && InodeOk(g, ViewOf(e).bb)
    requires Grown(InodeOfSlot(ViewOf(d), i), g, ViewOf(d).bb)
    requires ViewOf(e) == UpdateView(ViewOf(d), i, ViewOf(e).bb, g)
    requires forall b | DATA_START <= b < |d| && b !in g.direct :: e[b] == d[b]
    requires (forall j | 0 <= j < DIRECT :: g.direct[j] < |e|) && Content(e, g) == data
    ensures Represents(e, files[ViewOf(d).dir[i].name := data])
  {
    hide ViewOf, InodeOk, Disjoint, Content, SameBlocks, Grown;
    var v, w, files' := ViewOf(d), ViewOf(e), files[ViewOf(d).dir[i].name := data];
    UpdateKeepsConsistent(v, |d|, i, w.bb, g);
    forall k | 0 <= k < DIRENTS && Live(w, k)
      ensures SlotHolds(e, files', k)
    {
      if k != i {
        assert Live(v, k) && SlotHolds(d, files, k) && EntryOk(v, |d|, v.dir[k]);
        assert Apart(w, |d|, w.dir[k], w.dir[i]) && Apart(v, |d|, v.dir[k], v.dir[i]);
        OthersKeepBlocks(d, e, g, InodeOfSlot(w, k));
        SlotStays(d, e, files, files', k);
      }
    }
    forall n | n in files'
      ensures HasSlot(w, n)
    {
      if n == v.dir[i].name {
        assert Live(w, i) && w.dir[i].name == n;
      } else {
        assert HasSlot(v, n);
      }
    }
  }

  lemma UnlinkRepresents(d: Disk, e: Disk, files: Files, i: nat)
    requires Represents(d, files) && |e| == |d|
    requires i < DIRENTS && Live(ViewOf(d), i) && EntryOk(ViewOf(d), |d|, ViewOf(d).dir[i])
    requires Released(ViewOf(d).bb, InodeOfSlot(ViewOf(d), i), ViewOf(e).bb)
    requires ViewOf(e) == UnlinkView(ViewOf(d), i, ViewOf(e).bb)
    requires forall b | DATA_START <= b < |d| :: e[b] == d[b]
    ensures Represents(e, files - {ViewOf(d).dir[i].name})
  {
    hide ViewOf, InodeOk, Disjoint, Released;
    var v, w, files' := ViewOf(d), ViewOf(e), files - {ViewOf(d).dir[i].name};
    UnlinkKeepsConsistent(v, |d|, i, w.bb);
    forall k | 0 <= k < DIRENTS && Live(w, k)
      ensures SlotHolds(e, files', k)
    {
      assert k != i && Live(v, k) && SlotHolds(d, files, k) && EntryOk(v, |d|, v.dir[k]);
      assert Apart(v, |d|, v.dir[k], v.dir[i]);
      SlotStays(d, e, files, files', k);
    }
    forall n | n in files'
      ensures HasSlot(w, n)
    {
      assert HasSlot(v, n);
      var k :| 0 <= k < |v.dir| && Live(v, k) && v.dir[k].name == n;
      assert k != i && Live(w, k) && w.dir[k].name == n;
    }
  }

  /** One more block added to an inode. */
  lemma GrowStep(f: Inode, g: Inode, bb0: seq<bool>, bb: seq<bool>, i: nat, lba: nat)
    requires InodeOk(g, bb) && Grown(f, g, bb0) && MoreBits(bb0, bb)
    requires i < DIRECT && g.direct[i] == 0 && DATA_START <= lba < |bb| && !bb[lba]
    ensures var g', bb' := g.(direct := g.direct[i := lba]), bb[lba := true];
      InodeOk(g', bb') && Grown(f, g', bb0) && MoreBits(bb0, bb')
  {
    FreeBlockUnowned(g, bb, lba);
    InodeOkMoreBits(g, bb, bb[lba := true]);
  }
}
