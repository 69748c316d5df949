/**
  Writing a file: two journal transactions, the first for the bitmaps and the
  inode table, the second for the directory and the data block.  A power cut at
  any block write, in either of them, loses nothing that was there before.
 */
module JournalWrite {
  import opened Bytes
  import opened JournalDisk
  import opened Journal
  import opened JournalCrash
  import opened JournalFs
  import opened CStrings
  import opened Bitmap

  // ---- the plan ----

  /** The first unused directory slot from `i` on, or the number of slots. */
  function FirstUnused(dir: seq<Entry>, i: nat): (r: nat)
    requires i <= |dir|
    ensures i <= r <= |dir|
    ensures r < |dir| ==> !dir[r].used
    ensures forall j | i <= j < r :: dir[j].used
    decreases |dir| - i
  {
    if i == |dir| || !dir[i].used then i else FirstUnused(dir, i + 1)
  }

  function TableTx(t: seq<byte>): (tx: seq<Write>)
    requires |t| == TABLE_BYTES
    ensures |tx| == TABLE_BLOCKS
  {
    [Write(INODE_TABLE, t[0..512]), Write(INODE_TABLE + 1, t[512..1024]),
     Write(INODE_TABLE + 2, t[1024..1536]), Write(INODE_TABLE + 3, t[1536..2048])]
  }

  /** The first transaction: both bitmaps and the inode table. */
  function MetaTx(d: Disk, ino: nat, block: nat, size: nat): (tx: seq<Write>)
    requires ino < MAX_INODES && block < MAX_BLOCKS
    ensures |tx| == 6
  {
    [Write(INODE_BITMAP, Mark(d[INODE_BITMAP], ino, true)),
     Write(BLOCK_BITMAP, Mark(d[BLOCK_BITMAP], block, true))]
    + TableTx(TableWith(Table(d), ino, size, block))
  }

  /** The second transaction: the directory and the data block. */
  function DataTx(d: Disk, slot: nat, ino: nat, name: CString, block: nat, data: seq<byte>): (tx: seq<Write>)
    requires slot < DIRENTS && |name| < MAX_NAME && block < MAX_BLOCKS && |data| <= BLOCK_SIZE
    ensures |tx| == 2
  {
    [Write(ROOT_DIR, DirWith(d[ROOT_DIR], slot, ino, name)), Write(block, Padded(data, BLOCK_SIZE))]
  }

  function Generation(d: Disk): nat
  {
    Get(d[0], 52, 4)
  }

  /** What is written once the filesystem is mounted. */
  function FilePlan(d: Disk, name: CString, data: seq<byte>, stopAfterCommit: bool): Plan
    requires |name| < MAX_NAME && |data| <= BLOCK_SIZE
  {
    var v := ViewOf(d);
    var ino, block, slot := FirstClear(v.ib, 1), FirstClear(v.bb, DATA_START), FirstUnused(v.dir, 0);
    if FindFrom(v.dir, name, 0).Some? then Plan([], E_EXISTS)
    else if ino == MAX_INODES || block == MAX_BLOCKS || slot == DIRENTS then Plan([], E_NOSPC)
    else
      Then(CommitPlan(MetaTx(d, ino, block, |data|), (Generation(d) + 1) % U32, false),
           CommitPlan(DataTx(d, slot, ino, name, block, data), (Generation(d) + 2) % U32, stopAfterCommit))
  }

  function MountPlan(d: Disk): Plan
  {
    Then(RecoverPlan(d), Plan([], if SuperOk(Recovered(d)[0]) then OK else E_CORRUPT))
  }

  function WritePlan(d: Disk, name: CString, data: seq<byte>, stopAfterCommit: bool): Plan
  {
    if name == [] || |name| >= MAX_NAME then Plan([], E_TOOLONG)
    else if |data| > BLOCK_SIZE then Plan([], E_INVAL)
    else Then(MountPlan(d), FilePlan(Recovered(d), name, data, stopAfterCommit))
  }

  // ---- what each transaction does to the home area ----

  lemma TableRoundTrip(d: Disk, t: seq<byte>)
    requires |t| == TABLE_BYTES
    requires d[INODE_TABLE] == t[0..512] && d[INODE_TABLE + 1] == t[512..1024]
    requires d[INODE_TABLE + 2] == t[1024..1536] && d[INODE_TABLE + 3] == t[1536..2048]
    ensures Table(d) == t
  {
  }

  lemma MetaTxEffect(d: Disk, ino: nat, block: nat, size: nat)
    requires ino < MAX_INODES && block < MAX_BLOCKS && size < U32
    ensures var h := Apply(d, MetaTx(d, ino, block, size));
      && ViewOf(h) == AddInode(ViewOf(d), ino, block, size)
      && (forall lba: Lba | lba == 0 || lba >= ROOT_DIR :: h[lba] == d[lba])
      && Outside(MetaTx(d, ino, block, size))
  {
    var tx := MetaTx(d, ino, block, size);
    var h := Apply(d, tx);
    var t := TableWith(Table(d), ino, size, block);
    ApplyAt(d, tx, 0);
    ApplyAt(d, tx, 1);
    ApplyAt(d, tx, 2);
    ApplyAt(d, tx, 3);
    ApplyAt(d, tx, 4);
    ApplyAt(d, tx, 5);
    TableRoundTrip(h, t);
    InodesWith(Table(d), ino, size, block);
    forall lba: Lba | lba == 0 || lba >= ROOT_DIR
      ensures h[lba] == d[lba]
    {
      ApplyFrame(d, tx, lba);
    }
    assert ViewOf(h).ib == ViewOf(d).ib[ino := true];
    assert ViewOf(h).bb == ViewOf(d).bb[block := true];
  }

  lemma DataTxEffect(d: Disk, slot: nat, ino: nat, name: CString, block: nat, data: seq<byte>)
    requires slot < DIRENTS && |name| < MAX_NAME && ino < U32
    requires DATA_START <= block < MAX_BLOCKS && |data| <= BLOCK_SIZE
    ensures var h := Apply(d, DataTx(d, slot, ino, name, block, data));
      && ViewOf(h) == AddEntry(ViewOf(d), slot, ino, name)
      && h[block] == Padded(data, BLOCK_SIZE)
      && (forall lba: Lba | lba == 0 || (lba >= DATA_START && lba != block) :: h[lba] == d[lba])
      && Outside(DataTx(d, slot, ino, name, block, data))
  {
    var tx := DataTx(d, slot, ino, name, block, data);
    var h := Apply(d, tx);
    ApplyAt(d, tx, 0);
    ApplyAt(d, tx, 1);
    EntriesWith(d[ROOT_DIR], slot, ino, name);
    forall lba: Lba | lba != ROOT_DIR && lba != block
      ensures h[lba] == d[lba]
    {
      ApplyFrame(d, tx, lba);
    }
    assert Table(h) == Table(d);
  }

  // ---- what each transaction does to the files ----

  /** After the first transaction every name still reads as before. */
  lemma MetaKeepsFiles(d: Disk, ino: nat, block: nat, size: nat)
    requires Clean(d) && Free(ViewOf(d), ino, block, size)
    ensures var h := Apply(d, MetaTx(d, ino, block, size));
      Clean(h) && forall n: CString :: Lookup(h, n) == Lookup(d, n)
  {
    var h, v := Apply(d, MetaTx(d, ino, block, size)), ViewOf(d);
    MetaTxEffect(d, ino, block, size);
    AddInodeClean(v, ino, block, size);
    forall n: CString
      ensures Lookup(h, n) == Lookup(d, n)
    {
      var r := FindFrom(v.dir, n, 0);
      if r.Some? {
        assert EntryOk(v, v.dir[r.value]);
      }
    }
  }

  lemma {:induction false} FindSame(dir: seq<Entry>, dir': seq<Entry>, n: CString, i: nat)
    requires |dir'| == |dir| && i <= |dir|
    requires forall j | i <= j < |dir| :: Matches(dir[j], n) == Matches(dir'[j], n)
    ensures FindFrom(dir', n, i) == FindFrom(dir, n, i)
    decreases |dir| - i
  {
    if i < |dir| {
      FindSame(dir, dir', n, i + 1);
    }
  }

  /** The disk `g` is `d` with a file added: an inode, a directory entry and a data block. */
  ghost predicate Extends(g: Disk, d: Disk, ino: nat, block: nat, slot: nat, name: CString, data: seq<byte>)
  {
    && |data| <= BLOCK_SIZE && Free(ViewOf(d), ino, block, |data|)
    && slot < DIRENTS && !ViewOf(d).dir[slot].used
    && ViewOf(g) == AddEntry(AddInode(ViewOf(d), ino, block, |data|), slot, ino, name)
    && g[block] == Padded(data, BLOCK_SIZE)
    && forall lba: Lba | lba == 0 || (lba >= DATA_START && lba != block) :: g[lba] == d[lba]
  }

  lemma FindAdded(dir: seq<Entry>, slot: nat, e: Entry, name: CString)
    requires slot < |dir| && Matches(e, name) && FindFrom(dir, name, 0).None?
    ensures FindFrom(dir[slot := e], name, 0) == Some(slot)
  {
    var dir' := dir[slot := e];
    assert Matches(dir'[slot], name);
    assert forall j | 0 <= j < |dir| && j != slot :: dir'[j] == dir[j];
  }

  lemma NewNameReads(g: Disk, d: Disk, ino: nat, block: nat, slot: nat, name: CString, data: seq<byte>)
    requires Clean(d) && Extends(g, d, ino, block, slot, name, data)
    requires |name| < MAX_NAME && FindFrom(ViewOf(d).dir, name, 0).None?
    ensures Clean(g) && Lookup(g, name) == Some(data)
  {
    AddEntryClean(ViewOf(d), ino, block, |data|, slot, name);
    FindAdded(ViewOf(d).dir, slot, Entry(true, ino, name), name);
    assert Padded(data, BLOCK_SIZE)[..|data|] == data;
  }

  lemma OtherNamesRead(g: Disk, d: Disk, ino: nat, block: nat, slot: nat, name: CString, data: seq<byte>, n: CString)
    requires Clean(d) && Clean(g) && Extends(g, d, ino, block, slot, name, data)
    requires Clip(n) != name
    ensures Lookup(g, n) == Lookup(d, n)
  {
    var v := ViewOf(d);
    AddInodeClean(v, ino, block, |data|);
    FindSame(v.dir, ViewOf(g).dir, n, 0);
    var r := FindFrom(v.dir, n, 0);
    if r.Some? {
      assert EntryOk(v, v.dir[r.value]);
      assert ViewOf(g).dir[r.value] == v.dir[r.value];
    }
  }

  lemma SameDirTx(d: Disk, h: Disk, slot: nat, ino: nat, name: CString, block: nat, data: seq<byte>)
    requires slot < DIRENTS && |name| < MAX_NAME && block < MAX_BLOCKS && |data| <= BLOCK_SIZE
    requires d[ROOT_DIR] == h[ROOT_DIR]
    ensures DataTx(d, slot, ino, name, block, data) == DataTx(h, slot, ino, name, block, data)
  {
  }

  lemma DataExtends(d: Disk, ino: nat, block: nat, slot: nat, name: CString, data: seq<byte>)
    requires Clean(d) && |data| <= BLOCK_SIZE && Free(ViewOf(d), ino, block, |data|)
    requires |name| < MAX_NAME && slot < DIRENTS && !ViewOf(d).dir[slot].used
    ensures Extends(Apply(Apply(d, MetaTx(d, ino, block, |data|)), DataTx(d, slot, ino, name, block, data)),
                    d, ino, block, slot, name, data)
  {
    hide MetaTx, DataTx, CleanView, ViewOf;
    var h := Apply(d, MetaTx(d, ino, block, |data|));
    MetaTxEffect(d, ino, block, |data|);
    SameDirTx(d, h, slot, ino, name, block, data);
    DataTxEffect(h, slot, ino, name, block, data);
  }

  /** The files of a disk: what a write of `name` may leave after a cut and a recovery. */
  ghost predicate Files(r: Disk, d: Disk, name: CString, data: seq<byte>, written: bool)
    requires Clean(d)
  {
    && Clean(r)
    && (forall n: CString | Clip(n) != Clip(name) :: Lookup(r, n) == Lookup(d, n))
    && Lookup(r, name) == (if written then Some(data) else Lookup(d, name))
  }

  /** After the second transaction the new name reads as its data, and every other name as before. */
  lemma DataAddsFile(d: Disk, ino: nat, block: nat, slot: nat, name: CString, data: seq<byte>)
    requires Clean(d) && |data| <= BLOCK_SIZE && Free(ViewOf(d), ino, block, |data|)
    requires |name| < MAX_NAME && FindFrom(ViewOf(d).dir, name, 0).None?
    requires slot < DIRENTS && !ViewOf(d).dir[slot].used
    ensures Files(Apply(Apply(d, MetaTx(d, ino, block, |data|)), DataTx(d, slot, ino, name, block, data)),
                  d, name, data, true)
  {
    hide Extends, Clean, Lookup, MetaTx, DataTx, FindFrom, ViewOf;
    var h := Apply(d, MetaTx(d, ino, block, |data|));
    var g := Apply(h, DataTx(d, slot, ino, name, block, data));
    DataExtends(d, ino, block, slot, name, data);
    NewNameReads(g, d, ino, block, slot, name, data);
    forall n: CString | Clip(n) != name
      ensures Lookup(g, n) == Lookup(d, n)
    {
      OtherNamesRead(g, d, ino, block, slot, name, data, n);
    }
  }

  // ---- power cuts ----

  lemma FilesSameHome(r: Disk, h: Disk, d: Disk, name: CString, data: seq<byte>, written: bool)
    requires Clean(d) && Files(h, d, name, data, written) && SameHome(r, h)
    ensures Files(r, d, name, data, written)
  {
    SameHomeSameFiles(r, h);
  }

  /**
    The number of block writes from which a cut no longer loses the file: the 21
    writes of the first transaction and, of the second, the journal clear, two
    descriptors, two payloads and the header.
   */
  const DECIDING: nat := 27

  /** Recovery of a disk succeeds, empties the journal and leaves the files that were on `d`, or these and the new one. */
  ghost predicate RecoversTo(e: Disk, d: Disk, name: CString, data: seq<byte>, written: bool)
    requires Clean(d)
  {
    && Sound(e) && RecoverPlan(e).rc == OK && HeaderEmpty(Recovered(e)[START])
    && Files(Recovered(e), d, name, data, written)
  }

  /** A transaction whose records turn the files of `d0` from one state into another, cut off after `k` writes. */
  lemma TransactionRecovers(d: Disk, tx: seq<Write>, seqno: nat, stopAfterCommit: bool, k: nat,
                            d0: Disk, name: CString, data: seq<byte>, before: bool, after: bool)
    requires |tx| <= MAX_RECORDS && Outside(tx) && seqno < U32 && HeaderEmpty(d[START])
    requires k <= |CommitPlan(tx, seqno, stopAfterCommit).writes|
    requires Clean(d0) && Files(d, d0, name, data, before) && Files(Apply(d, tx), d0, name, data, after)
    ensures RecoversTo(Apply(d, CommitPlan(tx, seqno, stopAfterCommit).writes[..k]), d0, name, data,
                       if k < 2 * |tx| + 2 then before else after)
  {
    var e := Apply(d, CommitPlan(tx, seqno, stopAfterCommit).writes[..k]);
    CommitIsAtomic(d, tx, seqno, stopAfterCommit, k);
    if k < 2 * |tx| + 2 {
      FilesSameHome(Recovered(e), d, d0, name, data, before);
    } else {
      FilesSameHome(Recovered(e), Apply(d, tx), d0, name, data, after);
    }
  }

  lemma CommitLength(tx: seq<Write>, seqno: nat, stopAfterCommit: bool)
    requires |tx| <= MAX_RECORDS
    ensures |CommitPlan(tx, seqno, stopAfterCommit).writes| == if stopAfterCommit then 2 * |tx| + 2 else 3 * |tx| + 3
    ensures CommitPlan(tx, seqno, stopAfterCommit).rc == OK
  {
  }

  lemma ApplyPrefix(d: Disk, ws: seq<Write>, vs: seq<Write>, k: nat)
    requires k <= |ws| + |vs|
    ensures Apply(d, (ws + vs)[..k]) == if k <= |ws| then Apply(d, ws[..k]) else Apply(Apply(d, ws), vs[..k - |ws|])
  {
    if k <= |ws| {
      assert (ws + vs)[..k] == ws[..k];
    } else {
      assert (ws + vs)[..k] == ws + vs[..k - |ws|];
      ApplyConcat(d, ws, vs[..k - |ws|]);
    }
  }

  lemma Glue(d: Disk, ws: seq<Write>, vs: seq<Write>, k: nat, name: CString, data: seq<byte>)
    requires Clean(d) && |ws| == 21 && k <= |ws| + |vs|
    requires k <= |ws| ==> RecoversTo(Apply(d, ws[..k]), d, name, data, false)
    requires k > |ws| ==> RecoversTo(Apply(Apply(d, ws), vs[..k - |ws|]), d, name, data, k - |ws| >= 6)
    ensures RecoversTo(Apply(d, (ws + vs)[..k]), d, name, data, k >= DECIDING)
  {
    ApplyPrefix(d, ws, vs, k);
  }

  lemma FirstTransaction(d: Disk, tx: seq<Write>, seqno: nat, k: nat, name: CString, data: seq<byte>)
    requires Clean(d) && HeaderEmpty(d[START]) && seqno < U32 && |tx| <= MAX_RECORDS && Outside(tx)
    requires Files(Apply(d, tx), d, name, data, false)
    requires k <= |CommitPlan(tx, seqno, false).writes|
    ensures RecoversTo(Apply(d, CommitPlan(tx, seqno, false).writes[..k]), d, name, data, false)
  {
    TransactionRecovers(d, tx, seqno, false, k, d, name, data, false, false);
  }

  /** A commit that is not cut off leaves its records applied and the journal empty. */
  lemma CompleteCommit(d: Disk, tx: seq<Write>, seqno: nat)
    requires |tx| <= MAX_RECORDS && Outside(tx)
    ensures var h := Apply(d, CommitPlan(tx, seqno, false).writes);
      HeaderEmpty(h[START]) && SameHome(h, Apply(d, tx))
  {
    var log := LogPhase(tx, seqno);
    ApplyConcat(d, log, tx + [CLEAR]);
    ClearedIsEmpty(Apply(d, log), tx);
    ClearKeepsHome(Apply(d, log), tx);
    LogPhaseShape(tx, seqno);
    LogInside(log, tx, seqno);
    InsideKeepsHome(d, log);
    SameHomeApply(Apply(d, log), d, tx);
  }

  lemma SecondTransaction(d: Disk, h: Disk, tx1: seq<Write>, s1: nat, tx2: seq<Write>, s2: nat,
                          stopAfterCommit: bool, k: nat, name: CString, data: seq<byte>)
    requires Clean(d) && s2 < U32 && |tx1| == 6 && |tx2| == 2 && Outside(tx1) && Outside(tx2)
    requires h == Apply(d, CommitPlan(tx1, s1, false).writes)
    requires Files(Apply(d, tx1), d, name, data, false) && Files(Apply(Apply(d, tx1), tx2), d, name, data, true)
    requires k <= |CommitPlan(tx2, s2, stopAfterCommit).writes|
    ensures RecoversTo(Apply(h, CommitPlan(tx2, s2, stopAfterCommit).writes[..k]), d, name, data, k >= 6)
  {
    var h1 := Apply(d, tx1);
    CompleteCommit(d, tx1, s1);
    SameHomeApply(h, h1, tx2);
    FilesSameHome(h, h1, d, name, data, false);
    FilesSameHome(Apply(h, tx2), Apply(h1, tx2), d, name, data, true);
    TransactionRecovers(h, tx2, s2, stopAfterCommit, k, d, name, data, false, true);
  }

  /** Two transactions in a row, the second of which adds the file, cut off after `k` block writes. */
  lemma TwoTransactions(d: Disk, tx1: seq<Write>, s1: nat, tx2: seq<Write>, s2: nat, stopAfterCommit: bool, k: nat,
                        name: CString, data: seq<byte>)
    requires Clean(d) && HeaderEmpty(d[START]) && s1 < U32 && s2 < U32
    requires |tx1| == 6 && |tx2| == 2 && Outside(tx1) && Outside(tx2)
    requires Files(Apply(d, tx1), d, name, data, false) && Files(Apply(Apply(d, tx1), tx2), d, name, data, true)
    requires k <= |CommitPlan(tx1, s1, false).writes + CommitPlan(tx2, s2, stopAfterCommit).writes|
    ensures var ws := CommitPlan(tx1, s1, false).writes + CommitPlan(tx2, s2, stopAfterCommit).writes;
      |ws| >= DECIDING && RecoversTo(Apply(d, ws[..k]), d, name, data, k >= DECIDING)
  {
    var ws1, ws2 := CommitPlan(tx1, s1, false).writes, CommitPlan(tx2, s2, stopAfterCommit).writes;
    CommitLength(tx1, s1, false);
    CommitLength(tx2, s2, stopAfterCommit);
    if k <= |ws1| {
      FirstTransaction(d, tx1, s1, k, name, data);
    } else {
      SecondTransaction(d, Apply(d, ws1), tx1, s1, tx2, s2, stopAfterCommit, k - |ws1|, name, data);
    }
    Glue(d, ws1, ws2, k, name, data);
  }

  /** The records of a file write, as transactions on the home area. */
  lemma FileTransactions(d: Disk, ino: nat, block: nat, slot: nat, name: CString, data: seq<byte>)
    requires Clean(d) && |data| <= BLOCK_SIZE && Free(ViewOf(d), ino, block, |data|)
    requires |name| < MAX_NAME && FindFrom(ViewOf(d).dir, name, 0).None?
    requires slot < DIRENTS && !ViewOf(d).dir[slot].used
    ensures var tx1, tx2 := MetaTx(d, ino, block, |data|), DataTx(d, slot, ino, name, block, data);
      && Outside(tx1) && Outside(tx2)
      && Files(Apply(d, tx1), d, name, data, false) && Files(Apply(Apply(d, tx1), tx2), d, name, data, true)
  {
    MetaTxEffect(d, ino, block, |data|);
    MetaKeepsFiles(d, ino, block, |data|);
    DataTxEffect(d, slot, ino, name, block, data);
    DataAddsFile(d, ino, block, slot, name, data);
  }

  lemma FilePlanRecovers(d: Disk, name: CString, data: seq<byte>, stopAfterCommit: bool, k: nat)
    requires Clean(d) && HeaderEmpty(d[START])
    requires |name| < MAX_NAME && |data| <= BLOCK_SIZE
    requires k <= |FilePlan(d, name, data, stopAfterCommit).writes|
    ensures var p := FilePlan(d, name, data, stopAfterCommit);
      && RecoversTo(Apply(d, p.writes[..k]), d, name, data, k >= DECIDING)
      && (p.rc == OK <==> |p.writes| >= DECIDING) && (p.rc != OK ==> p.writes == [])
      && (p.rc == OK ==> Lookup(d, name) == None)
  {
    var p, v := FilePlan(d, name, data, stopAfterCommit), ViewOf(d);
    var ino, block, slot := FirstClear(v.ib, 1), FirstClear(v.bb, DATA_START), FirstUnused(v.dir, 0);
    if FindFrom(v.dir, name, 0).Some? || ino == MAX_INODES || block == MAX_BLOCKS || slot == DIRENTS {
      assert p.writes[..k] == [];
      EmptyRecovers(d);
    } else {
      FileTransactions(d, ino, block, slot, name, data);
      TwoTransactions(d, MetaTx(d, ino, block, |data|), (Generation(d) + 1) % U32,
                      DataTx(d, slot, ino, name, block, data), (Generation(d) + 2) % U32, stopAfterCommit, k, name, data);
    }
  }
}
