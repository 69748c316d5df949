/**
  Space over whole runs.  A file write takes its inode and its block in one
  transaction and its directory entry in the next, so a power cut between the two
  commit records takes an inode and a block that no file refers to, and nothing
  gives them back.
 */
module JournalSpace {
  import opened Bytes
  import opened JournalDisk
  import opened Journal
  import opened JournalCrash
  import opened JournalFs
  import opened JournalWrite
  import opened JournalRuns
  import opened JournalOps
  import opened CStrings
  import opened Bitmap

  /** The block write that commits the first transaction: the journal clear, six descriptors, six payloads, the header. */
  const TAKING: nat := 14

  // ---- one write ----

  /** The view after a file write that is cut off after `k` block writes and recovered. */
  function ViewAfter(v: View, name: CString, size: nat, k: nat): View
    requires Shaped(v)
  {
    var ino, block, slot := FirstClear(v.ib, 1), FirstClear(v.bb, DATA_START), FirstUnused(v.dir, 0);
    if ino == MAX_INODES || block == MAX_BLOCKS || slot == DIRENTS || k < TAKING then v
    else if k < DECIDING then AddInode(v, ino, block, size)
    else AddEntry(AddInode(v, ino, block, size), slot, ino, name)
  }

  /** The first transaction on its own. */
  lemma MetaView(d: Disk, ino: nat, block: nat, size: nat, seqno: nat, k: nat)
    requires ino < MAX_INODES && block < MAX_BLOCKS && size <= BLOCK_SIZE && seqno < U32 && HeaderEmpty(d[START])
    requires k <= |CommitPlan(MetaTx(d, ino, block, size), seqno, false).writes|
    ensures var e := Apply(d, CommitPlan(MetaTx(d, ino, block, size), seqno, false).writes[..k]);
      ViewOf(Recovered(e)) == if k < TAKING then ViewOf(d) else AddInode(ViewOf(d), ino, block, size)
  {
    hide CommitPlan, MetaTx, Apply, ViewOf, RecoverPlan, Recovered, HeaderEmpty;
    var tx := MetaTx(d, ino, block, size);
    var e := Apply(d, CommitPlan(tx, seqno, false).writes[..k]);
    MetaTxEffect(d, ino, block, size);
    CommitIsAtomic(d, tx, seqno, false, k);
    SameHomeSameFiles(Recovered(e), if k < TAKING then d else Apply(d, tx));
  }

  /** The second transaction, on a disk `h` that agrees outside the journal with `h1`. */
  lemma DataView(h: Disk, h1: Disk, slot: nat, ino: nat, name: CString, block: nat, data: seq<byte>,
                 seqno: nat, stop: bool, k: nat)
    requires slot < DIRENTS && |name| < MAX_NAME && ino < U32 && DATA_START <= block < MAX_BLOCKS && |data| <= BLOCK_SIZE
    requires seqno < U32 && HeaderEmpty(h[START]) && SameHome(h, h1)
    requires k <= |CommitPlan(DataTx(h1, slot, ino, name, block, data), seqno, stop).writes|
    ensures var e := Apply(h, CommitPlan(DataTx(h1, slot, ino, name, block, data), seqno, stop).writes[..k]);
      ViewOf(Recovered(e)) == if k < DECIDING - 21 then ViewOf(h1) else AddEntry(ViewOf(h1), slot, ino, name)
  {
    hide CommitPlan, DataTx, Apply, ViewOf, RecoverPlan, Recovered, HeaderEmpty;
    var tx := DataTx(h1, slot, ino, name, block, data);
    var e := Apply(h, CommitPlan(tx, seqno, stop).writes[..k]);
    DataTxEffect(h1, slot, ino, name, block, data);
    CommitIsAtomic(h, tx, seqno, stop, k);
    SameHomeApply(h, h1, tx);
    SameHomeSameFiles(Recovered(e), if k < DECIDING - 21 then h1 else Apply(h1, tx));
  }

  lemma TwoViews(d: Disk, ino: nat, block: nat, slot: nat, name: CString, data: seq<byte>, s1: nat, s2: nat, stop: bool, k: nat)
    requires slot < DIRENTS && |name| < MAX_NAME && ino < MAX_INODES && DATA_START <= block < MAX_BLOCKS && |data| <= BLOCK_SIZE
    requires s1 < U32 && s2 < U32 && HeaderEmpty(d[START])
    requires k <= |CommitPlan(MetaTx(d, ino, block, |data|), s1, false).writes|
                  + |CommitPlan(DataTx(d, slot, ino, name, block, data), s2, stop).writes|
    ensures var ws := CommitPlan(MetaTx(d, ino, block, |data|), s1, false).writes
                      + CommitPlan(DataTx(d, slot, ino, name, block, data), s2, stop).writes;
      var v := ViewOf(d);
      ViewOf(Recovered(Apply(d, ws[..k]))) ==
        if k < TAKING then v
        else if k < DECIDING then AddInode(v, ino, block, |data|)
        else AddEntry(AddInode(v, ino, block, |data|), slot, ino, name)
  {
    hide CommitPlan, MetaTx, DataTx, Apply, ViewOf, Recovered, HeaderEmpty;
    var tx1, tx2 := MetaTx(d, ino, block, |data|), DataTx(d, slot, ino, name, block, data);
    var ws1, ws2 := CommitPlan(tx1, s1, false).writes, CommitPlan(tx2, s2, stop).writes;
    CommitLength(tx1, s1, false);
    ApplyPrefix(d, ws1, ws2, k);
    MetaTxEffect(d, ino, block, |data|);
    if k <= |ws1| {
      MetaView(d, ino, block, |data|, s1, k);
    } else {
      var h1 := Apply(d, tx1);
      CompleteCommit(d, tx1, s1);
      SameDirTx(d, h1, slot, ino, name, block, data);
      DataView(Apply(d, ws1), h1, slot, ino, name, block, data, s2, stop, k - |ws1|);
    }
  }

  lemma FileView(d: Disk, name: CString, data: seq<byte>, stop: bool, k: nat)
    requires HeaderEmpty(d[START]) && |name| < MAX_NAME && |data| <= BLOCK_SIZE
    requires k <= |FilePlan(d, name, data, stop).writes|
    ensures var p := FilePlan(d, name, data, stop);
      ViewOf(Recovered(Apply(d, p.writes[..k]))) == ViewAfter(ViewOf(d), name, |data|, k)
  {
    hide CommitPlan, MetaTx, DataTx, ViewOf, RecoverPlan;
    var p, v := FilePlan(d, name, data, stop), ViewOf(d);
    ViewIsShaped(d);
    var ino, block, slot := FirstClear(v.ib, 1), FirstClear(v.bb, DATA_START), FirstUnused(v.dir, 0);
    if FindFrom(v.dir, name, 0).Some? || ino == MAX_INODES || block == MAX_BLOCKS || slot == DIRENTS {
      assert p.writes[..k] == [];
      EmptyRecovers(d);
    } else {
      CommitLength(MetaTx(d, ino, block, |data|), (Generation(d) + 1) % U32, false);
      TwoViews(d, ino, block, slot, name, data, (Generation(d) + 1) % U32, (Generation(d) + 2) % U32, stop, k);
    }
  }

  // ---- one event ----

  /** How many block writes of its two transactions an event gets through, after the mount. */
  function Progress(d: Disk, ev: Event): nat
  {
    var p := PlanOf(d, ev);
    var k, m := Passed(ev.budget, |p.writes|), |RecoverPlan(d).writes|;
    if ev.WriteFile? && p.rc == OK && k >= m then k - m else 0
  }

  /** The event adds a file. */
  predicate Stores(d: Disk, ev: Event)
  {
    Progress(d, ev) >= DECIDING
  }

  /** The event takes an inode and a block and adds no file. */
  predicate Strands(d: Disk, ev: Event)
  {
    TAKING <= Progress(d, ev) < DECIDING
  }

  lemma WriteView(d: Disk, name: CString, data: seq<byte>, stop: bool, k: nat)
    requires Accepted(d) && 0 < |name| < MAX_NAME && |data| <= BLOCK_SIZE
    requires k <= |WritePlan(d, name, data, stop).writes|
    ensures var m := |RecoverPlan(d).writes|;
      ViewOf(Recovered(Apply(d, WritePlan(d, name, data, stop).writes[..k]))) ==
        ViewAfter(ViewOf(Recovered(d)), name, |data|, if k < m then 0 else k - m)
  {
    hide Apply, Clean, ViewOf, RecoverPlan, FilePlan, WritePlan, HeaderEmpty;
    var ws, vs := RecoverPlan(d).writes, FilePlan(Recovered(d), name, data, stop).writes;
    MountedPlan(d, name, data, stop);
    ApplyPrefix(d, ws, vs, k);
    RecoveredIsEmpty(d);
    ViewIsShaped(Recovered(d));
    if k <= |ws| {
      CutRecovery(d, k);
    } else {
      FileView(Recovered(d), name, data, stop, k - |ws|);
    }
  }

  /** A write that is refused leaves the disk as the mount does. */
  lemma RefusedView(d: Disk, ev: Event)
    requires Accepted(d) && PlanOf(d, ev).rc != OK
    ensures Recovered(Step(d, ev)) == Recovered(d)
  {
    hide Clean, RecoverPlan, FilePlan, HeaderEmpty;
    var p := PlanOf(d, ev);
    var k := Passed(ev.budget, |p.writes|);
    if ev.WriteFile? && 0 < |ev.name| < MAX_NAME && |ev.data| <= BLOCK_SIZE {
      MountedPlan(d, ev.name, ev.data, ev.stop);
      FileCode(d, ev.name, ev.data, ev.stop);
      assert p.writes == RecoverPlan(d).writes;
      CutRecovery(d, k);
    } else {
      assert p.writes[..k] == [];
    }
  }

  // ---- free space ----

  /** Free inodes, blocks and directory slots. */
  datatype Space = Space(inodes: nat, blocks: nat, slots: nat)

  function UsedSlots(dir: seq<Entry>): (r: seq<bool>)
    ensures |r| == |dir| && forall i | 0 <= i < |dir| :: r[i] == dir[i].used
  {
    seq(|dir|, i requires 0 <= i < |dir| => dir[i].used)
  }

  function SpaceOf(v: View): Space
  {
    Space(Clear(v.ib), Clear(v.bb), Clear(UsedSlots(v.dir)))
  }

  /** What is left once `taken` inodes and blocks and `files` slots have gone. */
  predicate Left(s: Space, s0: Space, taken: nat, files: nat)
  {
    s.inodes + taken == s0.inodes && s.blocks + taken == s0.blocks && s.slots + files == s0.slots
  }

  lemma AddInodeSpace(v: View, ino: nat, block: nat, size: nat)
    requires Shaped(v) && ino < MAX_INODES && block < MAX_BLOCKS && !v.ib[ino] && !v.bb[block]
    ensures Left(SpaceOf(AddInode(v, ino, block, size)), SpaceOf(v), 1, 0)
  {
    ClearUpdate(v.ib, ino, true);
    ClearUpdate(v.bb, block, true);
  }

  lemma AddEntrySpace(v: View, slot: nat, ino: nat, name: CString)
    requires Shaped(v) && slot < DIRENTS && !v.dir[slot].used
    ensures Left(SpaceOf(AddEntry(v, slot, ino, name)), SpaceOf(v), 0, 1)
  {
    var w := AddEntry(v, slot, ino, name);
    ClearUpdate(UsedSlots(v.dir), slot, true);
    assert UsedSlots(w.dir) == UsedSlots(v.dir)[slot := true];
  }

  predicate Room(v: View)
    requires Shaped(v)
  {
    FirstClear(v.ib, 1) < MAX_INODES && FirstClear(v.bb, DATA_START) < MAX_BLOCKS && FirstUnused(v.dir, 0) < DIRENTS
  }

  lemma ViewAfterSpace(v: View, name: CString, size: nat, k: nat)
    requires Shaped(v) && Room(v)
    ensures Left(SpaceOf(ViewAfter(v, name, size, k)), SpaceOf(v), if k < TAKING then 0 else 1, if k < DECIDING then 0 else 1)
  {
    hide SpaceOf;
    var ino, block, slot := FirstClear(v.ib, 1), FirstClear(v.bb, DATA_START), FirstUnused(v.dir, 0);
    AddInodeSpace(v, ino, block, size);
    AddEntrySpace(AddInode(v, ino, block, size), slot, ino, name);
  }

  /** A mounted write is refused exactly for a name that is there or for want of an inode, a block or a slot. */
  lemma RefusedExactly(d: Disk, name: CString, data: seq<byte>, stop: bool)
    requires Accepted(d) && 0 < |name| < MAX_NAME && |data| <= BLOCK_SIZE
    ensures WritePlan(d, name, data, stop).rc ==
      if Reads(d, name).Some? then E_EXISTS else if Room(ViewOf(Recovered(d))) then OK else E_NOSPC
  {
    hide RecoverPlan, MetaTx, DataTx, CommitPlan, ViewOf;
    MountedPlan(d, name, data, stop);
    var v := ViewOf(Recovered(d));
    ViewIsShaped(Recovered(d));
    if Room(v) {
      var ino, block, slot := FirstClear(v.ib, 1), FirstClear(v.bb, DATA_START), FirstUnused(v.dir, 0);
      CommitLength(MetaTx(Recovered(d), ino, block, |data|), (Generation(Recovered(d)) + 1) % U32, false);
      CommitLength(DataTx(Recovered(d), slot, ino, name, block, data), (Generation(Recovered(d)) + 2) % U32, stop);
    }
  }

  lemma GoodArguments(d: Disk, ev: Event)
    requires ev.WriteFile? && PlanOf(d, ev).rc == OK
    ensures 0 < |ev.name| < MAX_NAME && |ev.data| <= BLOCK_SIZE
  {
  }

  lemma StepSpace(d: Disk, ev: Event)
    requires Accepted(d)
    ensures Left(SpaceOf(ViewOf(Recovered(Step(d, ev)))), SpaceOf(ViewOf(Recovered(d))),
                 if Stores(d, ev) || Strands(d, ev) then 1 else 0, if Stores(d, ev) then 1 else 0)
  {
    hide Apply, Accepted, ViewOf, RecoverPlan, WritePlan, SpaceOf, ViewAfter, Room, Recovered, Reads;
    var p := PlanOf(d, ev);
    var k := Passed(ev.budget, |p.writes|);
    if p.rc != OK {
      RefusedView(d, ev);
    } else if ev.Reboot? {
      RebootKeeps(d, k);
    } else {
      GoodArguments(d, ev);
      RefusedExactly(d, ev.name, ev.data, ev.stop);
      WriteView(d, ev.name, ev.data, ev.stop, k);
      ViewIsShaped(Recovered(d));
      ViewAfterSpace(ViewOf(Recovered(d)), ev.name, |ev.data|, Progress(d, ev));
    }
  }

  // ---- runs ----

  /** The number of events of a run that add a file. */
  function Stored(d: Disk, evs: seq<Event>): nat
  {
    if evs == [] then 0
    else
      var front := evs[..|evs| - 1];
      Stored(d, front) + if Stores(Run(d, front), evs[|evs| - 1]) then 1 else 0
  }

  /** The number of events of a run that take an inode and a block for nothing. */
  function Stranded(d: Disk, evs: seq<Event>): nat
  {
    if evs == [] then 0
    else
      var front := evs[..|evs| - 1];
      Stranded(d, front) + if Strands(Run(d, front), evs[|evs| - 1]) then 1 else 0
  }

  /**
    Every inode and block a run takes is accounted for: one for each file it adds
    and one for each write cut off between the two commit records.
   */
  lemma {:induction false} SpaceAccounted(d: Disk, evs: seq<Event>)
    requires Accepted(d)
    ensures Accepted(Run(d, evs))
    ensures Left(SpaceOf(ViewOf(Recovered(Run(d, evs)))), SpaceOf(ViewOf(Recovered(d))),
                 Stored(d, evs) + Stranded(d, evs), Stored(d, evs))
  {
    hide Step, Accepted, ViewOf, SpaceOf, Progress, Recovered, Reads;
    if evs != [] {
      var front, ev := evs[..|evs| - 1], evs[|evs| - 1];
      SpaceAccounted(d, front);
      StepKeeps(Run(d, front), ev, []);
      StepSpace(Run(d, front), ev);
    }
  }

  // ---- from a formatted disk ----

  lemma RoomIsSpace(v: View)
    requires Shaped(v) && RootOk(v)
    ensures var s := SpaceOf(v); Room(v) <==> s.inodes > 0 && s.blocks > 0 && s.slots > 0
  {
    ClearNone(v.ib);
    ClearNone(v.bb);
    ClearNone(UsedSlots(v.dir));
    var slot := FirstUnused(v.dir, 0);
    assert slot < DIRENTS ==> !UsedSlots(v.dir)[slot];
  }

  lemma AcceptedRoom(d: Disk)
    requires Accepted(d)
    ensures Shaped(ViewOf(Recovered(d)))
    ensures var s := SpaceOf(ViewOf(Recovered(d)));
      Room(ViewOf(Recovered(d))) <==> s.inodes > 0 && s.blocks > 0 && s.slots > 0
  {
    hide ViewOf, RecoverPlan, SpaceOf, Room;
    ViewIsShaped(Recovered(d));
    RoomIsSpace(ViewOf(Recovered(d)));
  }

  lemma FormattedSpace(d: Disk)
    requires Formatted(d)
    ensures SpaceOf(ViewOf(d)) == Space(MAX_INODES - 1, MAX_BLOCKS - DATA_START, DIRENTS)
  {
    hide SuperBlock, RootTable, InodeAt, EntryAt;
    FormattedView(d);
    ClearAbove(ViewOf(d).ib, 1);
    ClearAbove(ViewOf(d).bb, DATA_START);
    ClearAbove(UsedSlots(ViewOf(d).dir), 0);
  }

  lemma FormattedIsRecovered(d: Disk)
    requires Formatted(d)
    ensures HeaderEmpty(d[START]) && Recovered(d) == d
  {
    ZeroHeaderIsEmpty();
    EmptyRecovers(d);
  }

  /**
    On a disk reached from a formatted one, whatever power cuts there were, a new
    file is refused exactly when there are twelve files or when the files and the
    writes cut off between their commit records come to fifteen.
   */
  lemma NoSpaceExactly(d: Disk, evs: seq<Event>, name: CString, data: seq<byte>, stop: bool)
    requires Formatted(d) && 0 < |name| < MAX_NAME && |data| <= BLOCK_SIZE
    ensures Accepted(d) && Accepted(Run(d, evs)) && Stored(d, evs) <= 12 && Stored(d, evs) + Stranded(d, evs) <= 15
    ensures WritePlan(Run(d, evs), name, data, stop).rc ==
      if Reads(Run(d, evs), name).Some? then E_EXISTS
      else if Stored(d, evs) == 12 || Stored(d, evs) + Stranded(d, evs) == 15 then E_NOSPC
      else OK
  {
    hide Run, Accepted, Recovered, ViewOf, SpaceOf, Room, Stored, Stranded, WritePlan, Reads, Formatted, HeaderEmpty;
    FormattedIsAccepted(d);
    FormattedIsRecovered(d);
    FormattedSpace(d);
    SpaceAccounted(d, evs);
    var e := Run(d, evs);
    RefusedExactly(e, name, data, stop);
    AcceptedRoom(e);
  }

  /** Writes of a file that lose power once the first transaction is complete. */
  const CUT: Event := WriteFile([97], [], false, 21)

  function Cuts(n: nat): (evs: seq<Event>)
    ensures |evs| == n
  {
    if n == 0 then [] else Cuts(n - 1) + [CUT]
  }

  lemma CutStrands(d: Disk)
    requires Accepted(d) && HeaderEmpty(d[START]) && PlanOf(d, CUT).rc == OK
    ensures Strands(d, CUT) && HeaderEmpty(Step(d, CUT)[START])
    ensures Accepted(Step(d, CUT)) && forall n: CString :: Reads(Step(d, CUT), n) == Reads(d, n)
  {
    hide CommitPlan, MetaTx, DataTx, ViewOf, RecoverPlan, Apply, Accepted, Reads, HeaderEmpty;
    EmptyRecovers(d);
    var v := ViewOf(d);
    ViewIsShaped(d);
    var ino, block := FirstClear(v.ib, 1), FirstClear(v.bb, DATA_START);
    var tx, seqno := MetaTx(d, ino, block, 0), (Generation(d) + 1) % U32;
    MountedPlan(d, [97], [], false);
    CommitLength(tx, seqno, false);
    MetaTxEffect(d, ino, block, 0);
    CompleteCommit(d, tx, seqno);
    WriteKeeps(d, [97], [], false, 21);
    assert PlanOf(d, CUT).writes[..21] == CommitPlan(tx, seqno, false).writes;
    forall n: CString
      ensures Reads(Step(d, CUT), n) == Reads(d, n)
    {
      assert Clip(n) == Clip([97]) ==> n == [97];
    }
  }

  /** Fifteen such writes on a formatted disk fill it, and there is no file on it. */
  lemma {:induction false} FilledWithoutFiles(d: Disk, n: nat)
    requires Formatted(d) && n <= 15
    ensures Accepted(d) && Accepted(Run(d, Cuts(n))) && HeaderEmpty(Run(d, Cuts(n))[START])
    ensures Stored(d, Cuts(n)) == 0 && Stranded(d, Cuts(n)) == n
    ensures forall m: CString :: Reads(Run(d, Cuts(n)), m) == None
    ensures n == 15 ==> forall name: CString, data, stop | 0 < |name| < MAX_NAME && |data| <= BLOCK_SIZE ::
      WritePlan(Run(d, Cuts(n)), name, data, stop).rc == E_NOSPC
  {
    hide Step, Accepted, Reads, Formatted, HeaderEmpty, Progress, WritePlan;
    if n == 0 {
      FormattedIsAccepted(d);
      FormattedIsRecovered(d);
    } else {
      FilledWithoutFiles(d, n - 1);
      NoSpaceExactly(d, Cuts(n - 1), [97], [], false);
      CutStrands(Run(d, Cuts(n - 1)));
      assert Cuts(n)[..n - 1] == Cuts(n - 1);
    }
    forall name: CString, data, stop | n == 15 && 0 < |name| < MAX_NAME && |data| <= BLOCK_SIZE
      ensures WritePlan(Run(d, Cuts(n)), name, data, stop).rc == E_NOSPC
    {
      NoSpaceExactly(d, Cuts(n), name, data, stop);
    }
  }
}
