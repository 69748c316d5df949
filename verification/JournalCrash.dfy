/**
  What the journal promises across power cuts: a transaction is atomic whatever
  the number of block writes that reached the disk, and recovery may itself be
  cut off any number of times.
 */
module JournalCrash {
  import opened Bytes
  import opened JournalDisk
  import opened Journal

  /** Two disks agree outside the journal region. */
  ghost predicate SameHome(d: Disk, e: Disk)
  {
    forall lba: Lba | !InJournal(lba) :: d[lba] == e[lba]
  }

  /** Two disks hold the same journal. */
  ghost predicate SameJournal(d: Disk, e: Disk)
  {
    forall lba: Lba | InJournal(lba) :: d[lba] == e[lba]
  }

  /** Every write goes to the home area. */
  ghost predicate Outside(ws: seq<Write>)
  {
    forall i | 0 <= i < |ws| :: !InJournal(ws[i].lba)
  }

  /** Every write goes to the journal. */
  ghost predicate Inside(ws: seq<Write>)
  {
    forall i | 0 <= i < |ws| :: InJournal(ws[i].lba)
  }

  lemma OutsideKeepsJournal(d: Disk, ws: seq<Write>)
    requires Outside(ws)
    ensures SameJournal(Apply(d, ws), d)
  {
    forall lba: Lba | InJournal(lba)
      ensures Apply(d, ws)[lba] == d[lba]
    {
      ApplyFrame(d, ws, lba);
    }
  }

  lemma InsideKeepsHome(d: Disk, ws: seq<Write>)
    requires Inside(ws)
    ensures SameHome(Apply(d, ws), d)
  {
    forall lba: Lba | !InJournal(lba)
      ensures Apply(d, ws)[lba] == d[lba]
    {
      ApplyFrame(d, ws, lba);
    }
  }

  lemma SameHomeApply(d: Disk, e: Disk, ws: seq<Write>)
    requires SameHome(d, e)
    ensures SameHome(Apply(d, ws), Apply(e, ws))
  {
    forall lba: Lba | !InJournal(lba)
      ensures Apply(d, ws)[lba] == Apply(e, ws)[lba]
    {
      ApplyDetermined(d, e, ws, lba);
    }
  }

  // ---- what recovery does depends on the journal alone ----

  /** The records of the journal, as recovery reads them. */
  function Slots(d: Disk): (ss: seq<Slot>)
    ensures |ss| == MAX_RECORDS
    ensures forall i | 0 <= i < MAX_RECORDS :: ss[i] == SlotAt(d, i)
  {
    seq(MAX_RECORDS, i requires 0 <= i < MAX_RECORDS => SlotAt(d, i))
  }

  lemma SameSlots(d: Disk, e: Disk)
    requires SameJournal(d, e)
    ensures Slots(d) == Slots(e)
  {
    forall i | 0 <= i < MAX_RECORDS
      ensures Slots(d)[i] == Slots(e)[i]
    {
      assert InJournal(START + 1 + 2 * i) && InJournal(START + 2 + 2 * i);
    }
  }

  /** No record names a journal block. */
  ghost predicate SlotsOutside(ss: seq<Slot>)
  {
    forall i | 0 <= i < |ss| && ss[i].Good? :: !InJournal(ss[i].w.lba)
  }

  /** The records a replay gets through before it ends or meets a bad one. */
  function Replayed(ss: seq<Slot>): (ws: seq<Write>)
  {
    if ss == [] || ss[0].Bad? then [] else [ss[0].w] + Replayed(ss[1..])
  }

  /** The plan of a replay, read off the journal at the start. */
  function StaticPlan(ss: seq<Slot>): Plan
  {
    if Bad in ss then Plan(Replayed(ss), E_CORRUPT) else Plan(Replayed(ss) + [CLEAR], OK)
  }

  lemma {:induction false} ReplayedOutside(ss: seq<Slot>)
    requires SlotsOutside(ss)
    ensures Outside(Replayed(ss))
  {
    if ss != [] && ss[0].Good? {
      ReplayedOutside(ss[1..]);
    }
  }

  /** Re-reading the journal after each record changes nothing, as long as no record is aimed at the journal. */
  lemma {:induction false} ReplayIsStatic(d: Disk, i: nat, n: nat)
    requires i <= n <= MAX_RECORDS && SlotsOutside(Slots(d)[i..n])
    ensures ReplayPlan(d, i, n) == StaticPlan(Slots(d)[i..n])
    decreases n - i
  {
    hide SlotAt, InJournal;
    var ss := Slots(d)[i..n];
    if i == n {
      assert [] + [CLEAR] == [CLEAR];
    } else {
      assert ss[0] == SlotAt(d, i) && ss[1..] == Slots(d)[i + 1..n];
      if ss[0].Good? {
        var w := ss[0].w;
        var e := Apply(d, [w]);
        assert Outside([w]);
        OutsideKeepsJournal(d, [w]);
        SameSlots(d, e);
        ReplayIsStatic(e, i + 1, n);
        assert ss == [ss[0]] + ss[1..];
        assert [w] + (Replayed(ss[1..]) + [CLEAR]) == Replayed(ss) + [CLEAR];
      }
    }
  }

  /** The number of records the header announces. */
  function Count(d: Disk): nat
  {
    Get(d[START], 20, 4)
  }

  /** A committed journal none of whose records is aimed at the journal itself, or none to replay. */
  ghost predicate Sound(d: Disk)
  {
    HeaderEmpty(d[START]) || !HeaderCommitted(d[START]) || SlotsOutside(Slots(d)[0..Count(d)])
  }

  lemma RecoverIsStatic(d: Disk)
    requires Sound(d)
    ensures RecoverPlan(d) ==
      if HeaderEmpty(d[START]) then Plan([], OK)
      else if !HeaderCommitted(d[START]) then Plan([], E_CORRUPT)
      else StaticPlan(Slots(d)[0..Count(d)])
  {
    if !HeaderEmpty(d[START]) && HeaderCommitted(d[START]) {
      ReplayIsStatic(d, 0, Count(d));
    }
  }

  lemma RecoverSame(d: Disk, e: Disk)
    requires Sound(d) && SameJournal(d, e)
    ensures Sound(e) && RecoverPlan(e) == RecoverPlan(d)
  {
    assert InJournal(START);
    SameSlots(d, e);
    RecoverIsStatic(d);
    RecoverIsStatic(e);
  }

  // ---- recovery may be cut off and started again ----

  lemma ClearedIsEmpty(d: Disk, ws: seq<Write>)
    ensures var e := Apply(d, ws + [CLEAR]);
      HeaderEmpty(e[START]) && Sound(e) && RecoverPlan(e) == Plan([], OK) && Recovered(e) == e
  {
    ApplySnoc(d, ws, CLEAR);
    ZeroHeaderIsEmpty();
  }

  /** One recovery cut off after `j` writes. */
  lemma CutRecovery(d: Disk, j: nat)
    requires Sound(d) && j <= |RecoverPlan(d).writes|
    ensures var e := Apply(d, RecoverPlan(d).writes[..j]);
      Sound(e) && Recovered(e) == Recovered(d) && RecoverPlan(e).rc == RecoverPlan(d).rc
  {
    var ws := RecoverPlan(d).writes;
    var e := Apply(d, ws[..j]);
    RecoverIsStatic(d);
    if ws == [] {
      assert ws[..j] == [];
    } else {
      var ss := Slots(d)[0..Count(d)];
      var rs := Replayed(ss);
      ReplayedOutside(ss);
      if j <= |rs| {
        assert ws[..j] == rs[..j];
        OutsideKeepsJournal(d, rs[..j]);
        RecoverSame(d, e);
        Redo(d, ws, j);
      } else {
        assert ws[..j] == rs + [CLEAR];
        ClearedIsEmpty(d, rs);
      }
    }
  }

  /** The disk after recoveries that were cut off after the given numbers of writes. */
  function AfterCuts(d: Disk, cuts: seq<nat>): Disk
  {
    if cuts == [] then d
    else
      var e := AfterCuts(d, cuts[..|cuts| - 1]);
      Apply(e, RecoverPlan(e).writes[..Passed(cuts[|cuts| - 1], |RecoverPlan(e).writes|)])
  }

  /** However often recovery is cut off, a recovery that completes ends where an undisturbed one would have. */
  lemma {:induction false} RecoveryRestarts(d: Disk, cuts: seq<nat>)
    requires Sound(d)
    ensures var e := AfterCuts(d, cuts);
      Sound(e) && Recovered(e) == Recovered(d) && RecoverPlan(e).rc == RecoverPlan(d).rc
  {
    if cuts != [] {
      var front := cuts[..|cuts| - 1];
      RecoveryRestarts(d, front);
      var e := AfterCuts(d, front);
      CutRecovery(e, Passed(cuts[|cuts| - 1], |RecoverPlan(e).writes|));
    }
  }

  // ---- a transaction is atomic ----

  /** The journal holds exactly this committed transaction. */
  ghost predicate Logged(d: Disk, tx: seq<Write>)
  {
    && |tx| <= MAX_RECORDS
    && !HeaderEmpty(d[START]) && HeaderCommitted(d[START]) && Count(d) == |tx|
    && forall i | 0 <= i < |tx| :: SlotAt(d, i) == Good(tx[i])
  }

  /** The writes of the log phase, one by one. */
  ghost predicate LogShape(ws: seq<Write>, tx: seq<Write>, seqno: nat)
  {
    && |tx| <= MAX_RECORDS && |ws| == 2 * |tx| + 2
    && ws[0] == CLEAR && ws[2 * |tx| + 1] == Write(START, HeaderBlock(seqno, |tx|))
    && forall i | 1 <= i <= 2 * |tx| :: ws[i] == LogWrite(tx, i - 1)
  }

  lemma LogPhaseShape(tx: seq<Write>, seqno: nat)
    requires |tx| <= MAX_RECORDS
    ensures LogShape(LogPhase(tx, seqno), tx, seqno)
  {
    hide LogWrite, HeaderBlock;
    var ws := LogPhase(tx, seqno);
    assert forall i | 1 <= i <= 2 * |tx| :: ws[i] == LogWrites(tx)[i - 1];
  }

  lemma LogInside(ws: seq<Write>, tx: seq<Write>, seqno: nat)
    requires LogShape(ws, tx, seqno)
    ensures Inside(ws)
  {
  }

  lemma LogBlockAt(d: Disk, ws: seq<Write>, tx: seq<Write>, seqno: nat, j: nat)
    requires LogShape(ws, tx, seqno) && j < 2 * |tx|
    ensures Apply(d, ws)[START + 1 + j] == LogWrite(tx, j).data
  {
    assert ws[1 + j] == LogWrite(tx, j);
    assert ws[1 + j].lba == START + 1 + j;
    assert forall k | 1 + j < k < |ws| :: ws[k].lba != START + 1 + j;
    ApplyAt(d, ws, 1 + j);
  }

  lemma LoggedSlot(d: Disk, ws: seq<Write>, tx: seq<Write>, seqno: nat, i: nat)
    requires LogShape(ws, tx, seqno) && i < |tx|
    ensures SlotAt(Apply(d, ws), i) == Good(tx[i])
  {
    LogWritePair(tx, i);
    LogBlockAt(d, ws, tx, seqno, 2 * i);
    LogBlockAt(d, ws, tx, seqno, 2 * i + 1);
    SlotRoundTrip(tx[i]);
  }

  lemma LogCommits(d: Disk, ws: seq<Write>, tx: seq<Write>, seqno: nat)
    requires LogShape(ws, tx, seqno) && seqno < U32
    ensures Logged(Apply(d, ws), tx)
  {
    hide SlotAt, LogWrite, HeaderBlock, HeaderEmpty, HeaderCommitted, Get;
    ApplyAt(d, ws, 2 * |tx| + 1);
    HeaderRoundTrip(seqno, |tx|);
    forall i | 0 <= i < |tx|
      ensures SlotAt(Apply(d, ws), i) == Good(tx[i])
    {
      LoggedSlot(d, ws, tx, seqno, i);
    }
  }

  lemma {:induction false} ReplayedGood(ss: seq<Slot>, tx: seq<Write>)
    requires |ss| == |tx| && forall i | 0 <= i < |tx| :: ss[i] == Good(tx[i])
    ensures Replayed(ss) == tx && Bad !in ss
  {
    if ss != [] {
      ReplayedGood(ss[1..], tx[1..]);
      assert tx == [tx[0]] + tx[1..];
    }
  }

  lemma LoggedPlan(d: Disk, tx: seq<Write>)
    requires Logged(d, tx) && Outside(tx)
    ensures Sound(d) && RecoverPlan(d) == Plan(tx + [CLEAR], OK)
  {
    var ss := Slots(d)[0..|tx|];
    ReplayedGood(ss, tx);
    RecoverIsStatic(d);
  }

  /** Before the header write, the journal stays empty and the home area untouched. */
  lemma BeforeCommit(d: Disk, ws: seq<Write>, tx: seq<Write>, seqno: nat, k: nat)
    requires LogShape(ws, tx, seqno) && HeaderEmpty(d[START]) && k < |ws|
    ensures var e := Apply(d, ws[..k]); HeaderEmpty(e[START]) && SameHome(e, d)
  {
    InsideKeepsHome(d, ws[..k]);
    if k > 0 {
      ZeroHeaderIsEmpty();
      ApplyAt(d, ws[..k], 0);
    } else {
      assert ws[..0] == [];
    }
  }

  lemma EmptyRecovers(d: Disk)
    requires HeaderEmpty(d[START])
    ensures RecoverPlan(d) == Plan([], OK) && Recovered(d) == d
  {
  }

  lemma ClearKeepsHome(d: Disk, ws: seq<Write>)
    ensures SameHome(Apply(d, ws + [CLEAR]), Apply(d, ws))
  {
    ApplySnoc(d, ws, CLEAR);
  }

  /** From the header write on, recovery ends with every record applied. */
  lemma AfterCommit(d: Disk, log: seq<Write>, tx: seq<Write>, seqno: nat, j: nat)
    requires LogShape(log, tx, seqno) && seqno < U32 && Outside(tx) && j <= |tx|
    ensures var e := Apply(Apply(d, log), tx[..j]);
      && Sound(e) && RecoverPlan(e) == Plan(tx + [CLEAR], OK)
      && HeaderEmpty(Recovered(e)[START]) && SameHome(Recovered(e), Apply(d, tx))
  {
    var e0 := Apply(d, log);
    var e := Apply(e0, tx[..j]);
    LogCommits(d, log, tx, seqno);
    LoggedPlan(e0, tx);
    OutsideKeepsJournal(e0, tx[..j]);
    RecoverSame(e0, e);
    ClearedIsEmpty(e, tx);
    ClearKeepsHome(e, tx);
    Redo(e0, tx, j);
    LogInside(log, tx, seqno);
    InsideKeepsHome(d, log);
    SameHomeApply(e0, d, tx);
  }

  /**
    A transaction cut off after any number `k` of block writes: recovery succeeds,
    leaves the journal empty, and leaves the home area either untouched or with
    every record applied in order; the header write decides which.
   */
  lemma CommitIsAtomic(d: Disk, tx: seq<Write>, seqno: nat, stopAfterCommit: bool, k: nat)
    requires |tx| <= MAX_RECORDS && Outside(tx) && seqno < U32
    requires HeaderEmpty(d[START])
    requires k <= |CommitPlan(tx, seqno, stopAfterCommit).writes|
    ensures var e := Apply(d, CommitPlan(tx, seqno, stopAfterCommit).writes[..k]);
      && Sound(e) && RecoverPlan(e).rc == OK
      && HeaderEmpty(Recovered(e)[START])
      && SameHome(Recovered(e), if k < 2 * |tx| + 2 then d else Apply(d, tx))
  {
    var ws, log := CommitPlan(tx, seqno, stopAfterCommit).writes, LogPhase(tx, seqno);
    var e := Apply(d, ws[..k]);
    LogPhaseShape(tx, seqno);
    if k < |log| {
      assert ws[..k] == log[..k];
      BeforeCommit(d, log, tx, seqno, k);
      EmptyRecovers(e);
    } else if k - |log| <= |tx| {
      var j := k - |log|;
      assert ws[..k] == log + tx[..j];
      ApplyConcat(d, log, tx[..j]);
      AfterCommit(d, log, tx, seqno, j);
    } else {
      assert ws[..k] == log + (tx + [CLEAR]);
      ApplyConcat(d, log, tx + [CLEAR]);
      ClearedIsEmpty(Apply(d, log), tx);
      ClearKeepsHome(Apply(d, log), tx);
      LogInside(log, tx, seqno);
      InsideKeepsHome(d, log);
      SameHomeApply(Apply(d, log), d, tx);
    }
  }

  // ---- recovery of a damaged journal is not fail-closed ----

  /** A recovery that reports corruption has written nothing exactly when the header or the first record is bad. */
  lemma CorruptWritesNothingExactly(d: Disk)
    requires RecoverPlan(d).rc == E_CORRUPT
    ensures RecoverPlan(d).writes == [] <==> !HeaderCommitted(d[START]) || SlotAt(d, 0).Bad?
  {
    if HeaderCommitted(d[START]) {
      var n := Count(d);
      assert RecoverPlan(d) == ReplayPlan(d, 0, n);
      assert n > 0;
      if SlotAt(d, 0).Good? {
        var q := SlotPlan(SlotAt(d, 0));
        assert ReplayPlan(d, 0, n) == Then(q, ReplayPlan(Apply(d, q.writes), 1, n));
        assert RecoverPlan(d).writes[0] == SlotAt(d, 0).w;
      }
    }
  }

  lemma BlankSlotBad(payload: Block)
    ensures ReadSlot(ZERO_BLOCK, payload) == Bad
  {
    GetZeros(BLOCK_SIZE, 0, 8);
  }

  lemma TwoSlots(d: Disk, w: Write)
    requires !HeaderEmpty(d[START]) && HeaderCommitted(d[START]) && Count(d) == 2
    requires SlotAt(d, 0) == Good(w) && SlotAt(d, 1) == Bad && !InJournal(w.lba)
    ensures RecoverPlan(d) == Plan([w], E_CORRUPT)
  {
    var ss := Slots(d)[0..2];
    assert ss == [Good(w), Bad];
    RecoverIsStatic(d);
    assert ss[1] == Bad;
    assert ss[1..] == [Bad] && Replayed(ss[1..]) == [];
    assert Replayed(ss) == [w] + [];
  }

  /** A journal of two records whose second descriptor was lost: recovery reports corruption after changing block 30. */
  lemma CorruptRecoveryCanWrite()
    ensures exists d: Disk :: RecoverPlan(d).rc == E_CORRUPT && Recovered(d)[30] != d[30]
  {
    hide Checksum, HeaderBlock, DescBlock, Get;
    var blank: Disk := seq<Block>(MAX_BLOCKS, _ => ZERO_BLOCK);
    var w0, w1 := Write(30, ZERO_BLOCK[0 := 1]), Write(31, ZERO_BLOCK);
    var tx := [w0, w1];
    var ws := LogPhase(tx, 1);
    var e := Apply(blank, ws);
    var d := e[4 := ZERO_BLOCK];
    LogPhaseShape(tx, 1);
    LogCommits(blank, ws, tx, 1);
    LogInside(ws, tx, 1);
    InsideKeepsHome(blank, ws);
    BlankSlotBad(d[5]);
    assert SlotAt(e, 0) == Good(tx[0]) && SlotAt(d, 0) == SlotAt(e, 0);
    TwoSlots(d, w0);
    ApplyOne(d, w0);
    assert !InJournal(30) && e[30] == blank[30];
    assert w0.data[0] == 1;
    assert Recovered(d)[30] != d[30];
  }
}
