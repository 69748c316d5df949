/**
  What mounting, checking and reading MCSFS1J accept, said without their tests: the
  bytes a format writes, and entries that lead to a file.
 */
module JournalCheck {
  import opened Bytes
  import opened Bitmap
  import opened CStrings
  import opened JournalDisk
  import opened Journal
  import opened JournalCrash
  import opened JournalDamage
  import opened JournalFs
  import opened JournalWrite
  import opened JournalRuns
  import opened JournalOps

  /** The superblock is accepted exactly if magic, version, block size, directory and data start are as a format writes them. */
  lemma SuperExactly(sb: Block)
    ensures SuperOk(sb) <==>
      && SameBytes(sb, SuperBlock(), 0, 8) && SameBytes(sb, SuperBlock(), 8, 4) && SameBytes(sb, SuperBlock(), 12, 4)
      && SameBytes(sb, SuperBlock(), 44, 4) && SameBytes(sb, SuperBlock(), 48, 4)
  {
    hide SuperBlock, Get;
    var f := SuperBlock();
    SuperBlockOk();
    SameBytesExactly(sb, f, 0, 8);
    SameBytesExactly(sb, f, 8, 4);
    SameBytesExactly(sb, f, 12, 4);
    SameBytesExactly(sb, f, 44, 4);
    SameBytesExactly(sb, f, 48, 4);
  }

  lemma RootParts(d: Disk)
    ensures var v := ViewOf(d);
      && Shaped(v) && v.inodes[0] == InodeAt(Table(d), 0) && v.ib[0] == Test(d[INODE_BITMAP], 0)
      && forall b | 0 <= b < DATA_START :: v.bb[b] == Test(d[BLOCK_BITMAP], b)
  {
    hide InodeAt, EntryAt, Test, Table;
  }

  /** The root inode the checker accepts is in use, a directory and at the block of a formatted disk. */
  lemma RootExactly(d: Disk)
    ensures RootOk(ViewOf(d)) <==>
      && Test(d[INODE_BITMAP], 0) && (forall b: nat | b < DATA_START :: Test(d[BLOCK_BITMAP], b))
      && SameBytes(Table(d), RootTable(), 0, 4) && SameBytes(Table(d), RootTable(), 4, 4) && SameBytes(Table(d), RootTable(), 12, 4)
  {
    hide RootTable, Table, Entries, Get, Test, ViewOf;
    var t, f, v := Table(d), RootTable(), ViewOf(d);
    RootTableFields();
    RootParts(d);
    SameBytesExactly(t, f, 0, 4);
    SameBytesExactly(t, f, 4, 4);
    SameBytesExactly(t, f, 12, 4);
  }

  /** An entry leads to a file that lies on the disk, with its inode and its block marked. */
  ghost predicate Leads(v: View, e: Entry)
    requires Shaped(v)
  {
    && e.ino < MAX_INODES && v.ib[e.ino] && v.inodes[e.ino].used > 0 && v.inodes[e.ino].kind == 1
    && v.inodes[e.ino].size <= BLOCK_SIZE && DATA_START <= v.inodes[e.ino].block < MAX_BLOCKS && v.bb[v.inodes[e.ino].block]
  }

  ghost predicate Fetched(d: Disk, e: Entry, cap: nat, out: seq<byte>)
  {
    var v := ViewOf(d);
    && e.ino < MAX_INODES && v.inodes[e.ino].used > 0 && v.inodes[e.ino].kind == 1
    && v.inodes[e.ino].size <= cap && v.inodes[e.ino].block < MAX_BLOCKS
    && out <= d[v.inodes[e.ino].block] && (v.inodes[e.ino].size <= BLOCK_SIZE ==> |out| == v.inodes[e.ino].size)
  }

  /**
    Reading a name from any mounted disk: NOENT exactly if no entry has it, bytes only
    from a file in use that fits the buffer and lies on the disk; on a disk the checker
    accepts never CORRUPT.
   */
  lemma FetchMeans(d: Disk, name: CString, cap: nat)
    ensures var (rc, out), v := FetchResult(d, name, cap), ViewOf(d);
      && (rc == E_NOENT <==> forall e | e in v.dir :: !(e.used && e.name == Clip(name)))
      && (rc == OK ==> exists e :: e in v.dir && e.used && e.name == Clip(name) && Fetched(d, e, cap, out))
      && (rc != OK ==> out == [])
      && (Clean(d) ==> rc != E_CORRUPT)
  {
    hide SuperOk, RootOk, Bits, Table;
    var v := ViewOf(d);
    var r := FindFrom(v.dir, name, 0);
    if r.Some? {
      var e := v.dir[r.value];
      assert e in v.dir && Matches(e, name);
      assert Clean(d) ==> EntryOk(v, e);
      if FetchResult(d, name, cap).0 == OK {
        assert Fetched(d, e, cap, FetchResult(d, name, cap).1);
      }
    } else {
      forall e | e in v.dir
        ensures !(e.used && e.name == Clip(name))
      {
        var k :| 0 <= k < |v.dir| && v.dir[k] == e;
        assert !Matches(v.dir[k], name);
      }
    }
  }

  /** The checker accepts a disk exactly if superblock and root are as a format leaves them and every entry leads to a file. */
  lemma CheckMeans(d: Disk)
    ensures Clean(d) <==> SuperOk(d[0]) && RootOk(ViewOf(d)) && forall e | e in ViewOf(d).dir && e.used :: Leads(ViewOf(d), e)
  {
    hide SuperOk, RootOk, ViewOf;
    var v := ViewOf(d);
    ViewIsShaped(d);
    forall i | 0 <= i < DIRENTS
      ensures EntryOk(v, v.dir[i]) <==> (v.dir[i].used ==> Leads(v, v.dir[i]))
    {
    }
    if Clean(d) {
      forall e | e in v.dir && e.used
        ensures Leads(v, e)
      {
        var i :| 0 <= i < |v.dir| && v.dir[i] == e;
        assert EntryOk(v, v.dir[i]);
      }
    }
  }

  lemma NothingApplied(d: Disk)
    ensures Apply(d, []) == d
  {
  }

  lemma FileCodes(d: Disk, name: CString, data: seq<byte>, stop: bool)
    requires |name| < MAX_NAME && |data| <= BLOCK_SIZE
    ensures FilePlan(d, name, data, stop).rc in {OK, E_EXISTS, E_NOSPC}
  {
    hide ViewOf;
  }

  /** The code of a write, for all arguments: the name first, then the data, then what is on the disk. */
  lemma WriteCode(d: Disk, name: CString, data: seq<byte>, stop: bool)
    requires Accepted(d)
    ensures var rc := WritePlan(d, name, data, stop).rc;
      && (rc == E_TOOLONG <==> name == [] || |name| >= MAX_NAME)
      && (rc == E_INVAL <==> 0 < |name| < MAX_NAME && |data| > BLOCK_SIZE)
      && (rc != OK ==> forall k | 0 <= k <= |WritePlan(d, name, data, stop).writes| ::
            Recovered(Apply(d, WritePlan(d, name, data, stop).writes[..k])) == Recovered(d))
  {
    hide RecoverPlan, FilePlan, Apply, Clean;
    var p := WritePlan(d, name, data, stop);
    if 0 < |name| < MAX_NAME && |data| <= BLOCK_SIZE {
      MountedPlan(d, name, data, stop);
      FileCodes(Recovered(d), name, data, stop);
      if p.rc != OK {
        FileCode(d, name, data, stop);
        assert p.writes == RecoverPlan(d).writes;
        forall k | 0 <= k <= |p.writes|
          ensures Recovered(Apply(d, p.writes[..k])) == Recovered(d)
        {
          CutRecovery(d, k);
        }
      }
    } else {
      forall k | 0 <= k <= |p.writes|
        ensures Recovered(Apply(d, p.writes[..k])) == Recovered(d)
      {
        assert p.writes[..k] == [];
        NothingApplied(d);
      }
    }
  }

  /** A mount succeeds exactly if recovery does and leaves a superblock that agrees with a fresh one where it is checked. */
  lemma MountExactly(d: Disk)
    ensures var sb, f := Recovered(d)[0], SuperBlock();
      MountPlan(d).rc == OK <==>
        && RecoverPlan(d).rc == OK
        && SameBytes(sb, f, 0, 8) && SameBytes(sb, f, 8, 4) && SameBytes(sb, f, 12, 4) && SameBytes(sb, f, 44, 4) && SameBytes(sb, f, 48, 4)
    ensures RecoverPlan(d).rc == OK && MountPlan(d).rc != OK ==> MountPlan(d).rc == E_CORRUPT
    ensures MountPlan(d).writes == RecoverPlan(d).writes
  {
    hide SuperOk, SuperBlock, RecoverPlan;
    SuperExactly(Recovered(d)[0]);
  }

  lemma CommitHeader(tx: seq<Write>, seqno: nat, stop: bool)
    requires |tx| <= MAX_RECORDS && seqno < U32
    ensures var ws, at := CommitPlan(tx, seqno, stop).writes, 2 * |tx| + 1;
      at < |ws| && ws[at].lba == START && Get(ws[at].data, 16, 4) == seqno && Get(ws[at].data, 20, 4) == |tx|
  {
    hide CommitPlan, HeaderBlock, Get;
    CommitWrites(tx, seqno, stop);
    HeaderFields(HeaderBlock(seqno, |tx|), seqno, |tx|);
  }

  /** The two transactions of a write carry the numbers after the superblock's generation, and six and two records. */
  lemma Numbered(d: Disk, name: CString, data: seq<byte>, stop: bool)
    requires |name| < MAX_NAME && |data| <= BLOCK_SIZE && FilePlan(d, name, data, stop).rc == OK
    ensures var ws := FilePlan(d, name, data, stop).writes;
      && |ws| > 26 && ws[13].lba == START && ws[26].lba == START
      && Get(ws[13].data, 16, 4) == (Get(d[0], 52, 4) + 1) % U32 && Get(ws[13].data, 20, 4) == 6
      && Get(ws[26].data, 16, 4) == (Get(d[0], 52, 4) + 2) % U32 && Get(ws[26].data, 20, 4) == 2
  {
    hide ViewOf, CommitPlan, MetaTx, DataTx, Get;
    ViewIsShaped(d);
    var v, n := ViewOf(d), Generation(d);
    var ino, block, slot := FirstClear(v.ib, 1), FirstClear(v.bb, DATA_START), FirstUnused(v.dir, 0);
    var tx1, tx2 := MetaTx(d, ino, block, |data|), DataTx(d, slot, ino, name, block, data);
    CommitHeader(tx1, (n + 1) % U32, false);
    CommitHeader(tx2, (n + 2) % U32, stop);
    CommitWrites(tx1, (n + 1) % U32, false);
  }
}
