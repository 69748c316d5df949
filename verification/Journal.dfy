/**
  The write-ahead journal of MCSFS1J: a header block, then a descriptor block and
  a payload block for each record.  A transaction is committed by one header
  write, after which recovery redoes its records.
 */
module Journal {
  import opened Bytes
  import opened JournalDisk

  const JMAGIC: nat := 0x4d43534a524e4c31
  const VERSION: nat := 1
  const J_EMPTY: nat := 0
  const J_COMMITTED: nat := 2
  const MAX_RECORDS: nat := 8
  const START: Lba := 1
  const JOURNAL_BLOCKS: nat := 17

  /** Block `lba` belongs to the journal region. */
  predicate InJournal(lba: nat)
  {
    START <= lba < START + JOURNAL_BLOCKS
  }

  /** Bitwise exclusive or of two numbers. */
  function Xor(a: nat, b: nat): nat
    decreases a + b
  {
    if a == 0 && b == 0 then 0 else (a + b) % 2 + 2 * Xor(a / 2, b / 2)
  }

  /** FNV-1a on 32-bit unsigned arithmetic. */
  function Checksum(s: seq<byte>): (h: nat)
    ensures h < U32
  {
    if s == [] then 2166136261
    else (Xor(Checksum(s[..|s| - 1]), s[|s| - 1]) * 16777619) % U32
  }

  method ComputeChecksum(s: seq<byte>) returns (h: nat)
    ensures h == Checksum(s)
  {
    h := 2166136261;
    for i := 0 to |s|
      invariant h == Checksum(s[..i])
    {
      assert s[..i + 1][..i] == s[..i];
      h := (Xor(h, s[i]) * 16777619) % U32;
    }
    assert s[..|s|] == s;
  }

  // ---- on-disk structures ----

  function HeaderCore(seqno: nat, count: nat): Block
  {
    var b := Put(ZERO_BLOCK, 0, 8, JMAGIC);
    var b := Put(b, 8, 4, VERSION);
    var b := Put(b, 12, 4, J_COMMITTED);
    var b := Put(b, 16, 4, seqno);
    Put(b, 20, 4, count)
  }

  function HeaderSum(h: Block): nat
  {
    Checksum(Put(h, 24, 4, 0))
  }

  function HeaderBlock(seqno: nat, count: nat): Block
  {
    var b := HeaderCore(seqno, count);
    Put(b, 24, 4, HeaderSum(b))
  }

  function DescBlock(w: Write): Block
  {
    var b := Put(ZERO_BLOCK, 0, 8, JMAGIC);
    var b := Put(b, 8, 4, w.lba);
    Put(b, 12, 4, Checksum(w.data))
  }

  predicate HeaderEmpty(h: Block)
  {
    Get(h, 0, 8) == 0 && Get(h, 12, 4) == J_EMPTY
  }

  predicate HeaderCommitted(h: Block)
  {
    && Get(h, 0, 8) == JMAGIC
    && Get(h, 8, 4) == VERSION
    && Get(h, 12, 4) == J_COMMITTED
    && Get(h, 20, 4) <= MAX_RECORDS
    && HeaderSum(h) == Get(h, 24, 4)
  }

  lemma ZeroHeaderIsEmpty()
    ensures HeaderEmpty(ZERO_BLOCK)
  {
    GetZeros(BLOCK_SIZE, 0, 8);
    GetZeros(BLOCK_SIZE, 12, 4);
  }

  lemma HeaderCoreFields(seqno: nat, count: nat)
    requires seqno < U32 && count < U32
    ensures var h := HeaderCore(seqno, count);
      && Get(h, 0, 8) == JMAGIC
      && Get(h, 8, 4) == VERSION
      && Get(h, 12, 4) == J_COMMITTED
      && Get(h, 20, 4) == count
      && h[24..28] == Zeros(4)
  {
    Ranges();
    var b0 := Put(ZERO_BLOCK, 0, 8, JMAGIC);
    var b1 := Put(b0, 8, 4, VERSION);
    var b2 := Put(b1, 12, 4, J_COMMITTED);
    var b3 := Put(b2, 16, 4, seqno);
    GetPutSame(ZERO_BLOCK, 0, 8, JMAGIC);
    PutKeeps(b0, 8, 4, VERSION);
    GetPutSame(b0, 8, 4, VERSION);
    PutKeeps(b1, 12, 4, J_COMMITTED);
    GetPutSame(b1, 12, 4, J_COMMITTED);
    PutKeeps(b2, 16, 4, seqno);
    PutKeeps(b3, 20, 4, count);
    GetPutSame(b3, 20, 4, count);
    assert Put(b3, 20, 4, count)[24..28] == ZERO_BLOCK[24..28];
  }

  /** The header a commit writes is the header recovery accepts. */
  lemma HeaderRoundTrip(seqno: nat, count: nat)
    requires seqno < U32 && count <= MAX_RECORDS
    ensures var h := HeaderBlock(seqno, count);
      !HeaderEmpty(h) && HeaderCommitted(h) && Get(h, 20, 4) == count
  {
    Ranges();
    HeaderCoreFields(seqno, count);
    var core := HeaderCore(seqno, count);
    EncodeZero(4);
    assert Put(core, 24, 4, 0) == core;
    PutKeeps(core, 24, 4, HeaderSum(core));
    GetPutSame(core, 24, 4, HeaderSum(core));
    assert Put(HeaderBlock(seqno, count), 24, 4, 0) == core;
  }

  // ---- recovery ----

  /** What recovery makes of a descriptor block and its payload block. */
  datatype Slot = Bad | Good(w: Write)

  function ReadSlot(desc: Block, payload: Block): Slot
  {
    if Get(desc, 0, 8) != JMAGIC || Get(desc, 8, 4) >= MAX_BLOCKS then Bad
    else if Checksum(payload) != Get(desc, 12, 4) then Bad
    else Good(Write(Get(desc, 8, 4), payload))
  }

  /** Recovery reads a logged record back. */
  lemma SlotRoundTrip(w: Write)
    ensures ReadSlot(DescBlock(w), w.data) == Good(w)
  {
    Ranges();
    var b0 := Put(ZERO_BLOCK, 0, 8, JMAGIC);
    var b1 := Put(b0, 8, 4, w.lba);
    GetPutSame(ZERO_BLOCK, 0, 8, JMAGIC);
    PutKeeps(b0, 8, 4, w.lba);
    GetPutSame(b0, 8, 4, w.lba);
    PutKeeps(b1, 12, 4, Checksum(w.data));
    GetPutSame(b1, 12, 4, Checksum(w.data));
  }

  /** Record `i` of the journal. */
  function SlotAt(d: Disk, i: nat): Slot
    requires i < MAX_RECORDS
  {
    ReadSlot(d[START + 1 + 2 * i], d[START + 2 + 2 * i])
  }

  const CLEAR: Write := Write(START, ZERO_BLOCK)

  function SlotPlan(s: Slot): Plan
  {
    match s
    case Bad => Plan([], E_CORRUPT)
    case Good(w) => Plan([w], OK)
  }

  /** Records are checked and applied one at a time, each against the disk the earlier ones left. */
  function ReplayPlan(d: Disk, i: nat, n: nat): Plan
    requires i <= n <= MAX_RECORDS
    decreases n - i
  {
    if i == n then Plan([CLEAR], OK)
    else Then(SlotPlan(SlotAt(d, i)), ReplayPlan(Apply(d, SlotPlan(SlotAt(d, i)).writes), i + 1, n))
  }

  function RecoverPlan(d: Disk): Plan
  {
    if HeaderEmpty(d[START]) then Plan([], OK)
    else if !HeaderCommitted(d[START]) then Plan([], E_CORRUPT)
    else ReplayPlan(d, 0, Get(d[START], 20, 4))
  }

  /** The disk a complete recovery leaves. */
  function Recovered(d: Disk): Disk
  {
    Apply(d, RecoverPlan(d).writes)
  }

  method ReplayRecord(dev: Device, i: nat) returns (rc: int)
    requires dev.Valid() && i < MAX_RECORDS
    modifies dev`writes, dev`failAfter, dev.blocks
    ensures dev.Valid()
    ensures Ran(SlotPlan(SlotAt(old(dev.Contents()), i)), old(dev.Contents()), old(dev.failAfter),
                dev.Contents(), dev.failAfter, rc)
  {
    var desc, payload;
    rc, desc := dev.ReadBlock(START + 1 + 2 * i);
    if Get(desc, 0, 8) != JMAGIC || Get(desc, 8, 4) >= MAX_BLOCKS {
      return E_CORRUPT;
    }
    rc, payload := dev.ReadBlock(START + 2 + 2 * i);
    var sum := ComputeChecksum(payload);
    if sum != Get(desc, 12, 4) {
      return E_CORRUPT;
    }
    rc := dev.WriteBlock(Get(desc, 8, 4), payload);
  }

  method Replay(dev: Device, n: nat) returns (rc: int)
    requires dev.Valid() && n <= MAX_RECORDS
    modifies dev`writes, dev`failAfter, dev.blocks
    ensures dev.Valid()
    ensures Ran(ReplayPlan(old(dev.Contents()), 0, n), old(dev.Contents()), old(dev.failAfter),
                dev.Contents(), dev.failAfter, rc)
  {
    ghost var d0, fa0 := dev.Contents(), dev.failAfter;
    ghost var p := ReplayPlan(d0, 0, n);
    ghost var done: seq<Write> := [];
    Begin(p, d0, fa0);
    var i := 0;
    while i < n
      invariant 0 <= i <= n && dev.Valid()
      invariant Underway(p, d0, fa0, done, ReplayPlan(dev.Contents(), i, n), dev.Contents(), dev.failAfter)
    {
      ghost var d, fa := dev.Contents(), dev.failAfter;
      ghost var q := SlotPlan(SlotAt(d, i));
      rc := ReplayRecord(dev, i);
      Advance(p, d0, fa0, done, q, ReplayPlan(Apply(d, q.writes), i + 1, n), d, fa,
              dev.Contents(), dev.failAfter, rc);
      if rc != OK {
        return;
      }
      RanAll(q, d, fa, dev.Contents(), dev.failAfter, rc);
      done := done + q.writes;
      i := i + 1;
    }
    ghost var d, fa := dev.Contents(), dev.failAfter;
    rc := dev.WriteBlock(START, ZERO_BLOCK);
    ThenDone(Plan([CLEAR], OK));
    Advance(p, d0, fa0, done, Plan([CLEAR], OK), Plan([], OK), d, fa, dev.Contents(), dev.failAfter, rc);
    if rc == OK {
      Finish(p, d0, fa0, done + [CLEAR], Plan([], OK), dev.Contents(), dev.failAfter);
    }
  }

  method Recover(dev: Device) returns (rc: int)
    requires dev.Valid()
    modifies dev`writes, dev`failAfter, dev.blocks
    ensures dev.Valid()
    ensures Ran(RecoverPlan(old(dev.Contents())), old(dev.Contents()), old(dev.failAfter),
                dev.Contents(), dev.failAfter, rc)
  {
    ghost var d0, fa0 := dev.Contents(), dev.failAfter;
    var h;
    rc, h := dev.ReadBlock(START);
    if HeaderEmpty(h) {
      return OK;
    }
    if !HeaderCommitted(h) {
      return E_CORRUPT;
    }
    var n := Get(h, 20, 4);
    rc := Replay(dev, n);
  }

  // ---- commit ----

  function LogWrite(tx: seq<Write>, j: nat): Write
    requires |tx| <= MAX_RECORDS && j < 2 * |tx|
  {
    Write(START + 1 + j, if j % 2 == 0 then DescBlock(tx[j / 2]) else tx[j / 2].data)
  }

  /** The descriptor writes and payload writes of a transaction, alternating. */
  function LogWrites(tx: seq<Write>): (ws: seq<Write>)
    requires |tx| <= MAX_RECORDS
    ensures |ws| == 2 * |tx|
    ensures forall j | 0 <= j < 2 * |tx| :: ws[j] == LogWrite(tx, j)
  {
    seq(2 * |tx|, j requires 0 <= j < 2 * |tx| => LogWrite(tx, j))
  }

  lemma LogWritePair(tx: seq<Write>, i: nat)
    requires |tx| <= MAX_RECORDS && i < |tx|
    ensures LogWrite(tx, 2 * i) == Write(START + 1 + 2 * i, DescBlock(tx[i]))
    ensures LogWrite(tx, 2 * i + 1) == Write(START + 2 + 2 * i, tx[i].data)
  {
    assert (2 * i) / 2 == i && (2 * i) % 2 == 0;
    assert (2 * i + 1) / 2 == i && (2 * i + 1) % 2 == 1;
  }

  /** Everything up to and including the header write that commits the transaction. */
  function LogPhase(tx: seq<Write>, seqno: nat): (ws: seq<Write>)
    requires |tx| <= MAX_RECORDS
    ensures |ws| == 2 * |tx| + 2
  {
    [CLEAR] + LogWrites(tx) + [Write(START, HeaderBlock(seqno, |tx|))]
  }

  function CommitPlan(tx: seq<Write>, seqno: nat, stopAfterCommit: bool): Plan
  {
    if |tx| > MAX_RECORDS then Plan([], E_INVAL)
    else Plan(LogPhase(tx, seqno) + (if stopAfterCommit then [] else tx + [CLEAR]), OK)
  }

  /** The writes of a commit, one by one. */
  ghost predicate CommitShape(ws: seq<Write>, tx: seq<Write>, seqno: nat, stopAfterCommit: bool)
    requires |tx| <= MAX_RECORDS
  {
    var n := |tx|;
    && |ws| == (if stopAfterCommit then 2 * n + 2 else 3 * n + 3)
    && ws[0] == CLEAR && ws[2 * n + 1] == Write(START, HeaderBlock(seqno, n))
    && (forall j | 0 <= j < 2 * n :: ws[1 + j] == LogWrite(tx, j))
    && (!stopAfterCommit ==> (forall i | 0 <= i < n :: ws[2 * n + 2 + i] == tx[i]) && ws[3 * n + 2] == CLEAR)
  }

  lemma CommitWrites(tx: seq<Write>, seqno: nat, stopAfterCommit: bool)
    requires |tx| <= MAX_RECORDS
    ensures CommitShape(CommitPlan(tx, seqno, stopAfterCommit).writes, tx, seqno, stopAfterCommit)
  {
    var ws, n := CommitPlan(tx, seqno, stopAfterCommit).writes, |tx|;
    var log := LogPhase(tx, seqno);
    assert forall j | 0 <= j < 2 * n :: log[1 + j] == LogWrites(tx)[j];
    assert log <= ws;
    if !stopAfterCommit {
      var tail := ws[2 * n + 2..];
      assert tail == tx + [CLEAR];
      assert forall i | 0 <= i <= n :: tail[i] == ws[2 * n + 2 + i];
    }
  }

  method LogRecord(dev: Device, i: nat, w: Write, ghost p: Plan, ghost d0: Disk, ghost fa0: int) returns (rc: int)
    requires dev.Valid() && i < MAX_RECORDS && 2 * i + 2 < |p.writes|
    requires p.writes[2 * i + 1] == Write(START + 1 + 2 * i, DescBlock(w))
    requires p.writes[2 * i + 2] == Write(START + 2 + 2 * i, w.data)
    requires At(p, 2 * i + 1, d0, fa0, dev.Contents(), dev.failAfter)
    modifies dev`writes, dev`failAfter, dev.blocks
    ensures dev.Valid()
    ensures rc == OK ==> At(p, 2 * i + 3, d0, fa0, dev.Contents(), dev.failAfter)
    ensures rc != OK ==> Ran(p, d0, fa0, dev.Contents(), dev.failAfter, rc)
  {
    rc := dev.Issue(START + 1 + 2 * i, DescBlock(w), p, 2 * i + 1, d0, fa0);
    if rc == OK {
      rc := dev.Issue(START + 2 + 2 * i, w.data, p, 2 * i + 2, d0, fa0);
    }
  }

  method WriteLog(dev: Device, tx: seq<Write>, ghost p: Plan, ghost d0: Disk, ghost fa0: int) returns (rc: int)
    requires dev.Valid() && |tx| <= MAX_RECORDS
    requires |p.writes| > 2 * |tx| && p.writes[0] == CLEAR
    requires forall j | 0 <= j < 2 * |tx| :: p.writes[1 + j] == LogWrite(tx, j)
    requires dev.Contents() == d0 && dev.failAfter == fa0
    modifies dev`writes, dev`failAfter, dev.blocks
    ensures dev.Valid()
    ensures rc == OK ==> At(p, 2 * |tx| + 1, d0, fa0, dev.Contents(), dev.failAfter)
    ensures rc != OK ==> Ran(p, d0, fa0, dev.Contents(), dev.failAfter, rc)
  {
    rc := dev.Issue(START, ZERO_BLOCK, p, 0, d0, fa0);
    if rc != OK {
      return;
    }
    for i := 0 to |tx|
      invariant dev.Valid() && rc == OK
      invariant At(p, 2 * i + 1, d0, fa0, dev.Contents(), dev.failAfter)
    {
      LogWritePair(tx, i);
      assert p.writes[1 + 2 * i] == LogWrite(tx, 2 * i);
      assert p.writes[1 + (2 * i + 1)] == LogWrite(tx, 2 * i + 1);
      rc := LogRecord(dev, i, tx[i], p, d0, fa0);
      if rc != OK {
        return;
      }
    }
  }

  method WriteHome(dev: Device, tx: seq<Write>, ghost p: Plan, ghost d0: Disk, ghost fa0: int) returns (rc: int)
    requires dev.Valid() && |p.writes| == 3 * |tx| + 3 && p.rc == OK
    requires forall i | 0 <= i < |tx| :: p.writes[2 * |tx| + 2 + i] == tx[i]
    requires p.writes[3 * |tx| + 2] == CLEAR
    requires At(p, 2 * |tx| + 2, d0, fa0, dev.Contents(), dev.failAfter)
    modifies dev`writes, dev`failAfter, dev.blocks
    ensures dev.Valid()
    ensures Ran(p, d0, fa0, dev.Contents(), dev.failAfter, rc)
  {
    for i := 0 to |tx|
      invariant dev.Valid()
      invariant At(p, 2 * |tx| + 2 + i, d0, fa0, dev.Contents(), dev.failAfter)
    {
      assert p.writes[2 * |tx| + 2 + i] == tx[i];
      rc := dev.Issue(tx[i].lba, tx[i].data, p, 2 * |tx| + 2 + i, d0, fa0);
      if rc != OK {
        return;
      }
    }
    rc := dev.Issue(START, ZERO_BLOCK, p, 3 * |tx| + 2, d0, fa0);
  }

  method WriteTransaction(dev: Device, tx: seq<Write>, seqno: nat, stopAfterCommit: bool, ghost p: Plan) returns (rc: int)
    requires dev.Valid() && |tx| <= MAX_RECORDS
    requires CommitShape(p.writes, tx, seqno, stopAfterCommit) && p.rc == OK
    modifies dev`writes, dev`failAfter, dev.blocks
    ensures dev.Valid()
    ensures Ran(p, old(dev.Contents()), old(dev.failAfter), dev.Contents(), dev.failAfter, rc)
  {
    ghost var d0, fa0 := dev.Contents(), dev.failAfter;
    rc := WriteLog(dev, tx, p, d0, fa0);
    if rc != OK {
      return;
    }
    rc := dev.Issue(START, HeaderBlock(seqno, |tx|), p, 2 * |tx| + 1, d0, fa0);
    if rc != OK || stopAfterCommit {
      return;
    }
    rc := WriteHome(dev, tx, p, d0, fa0);
  }

  method Commit(dev: Device, tx: seq<Write>, seqno: nat, stopAfterCommit: bool) returns (rc: int)
    requires dev.Valid()
    modifies dev`writes, dev`failAfter, dev.blocks
    ensures dev.Valid()
    ensures Ran(CommitPlan(tx, seqno, stopAfterCommit), old(dev.Contents()), old(dev.failAfter),
                dev.Contents(), dev.failAfter, rc)
  {
    if |tx| > MAX_RECORDS {
      return E_INVAL;
    }
    CommitWrites(tx, seqno, stopAfterCommit);
    rc := WriteTransaction(dev, tx, seqno, stopAfterCommit, CommitPlan(tx, seqno, stopAfterCommit));
  }
}
