/**
  What recovery takes for a journal, said from the side of the commit that wrote
  it, and what damage to a journal it notices: the checksum tells any two blocks
  apart that differ in one byte, and only the target of a record is not covered.
 */
module JournalDamage {
  import opened Bytes
  import opened Bitmap
  import opened JournalDisk
  import opened Journal
  import opened JournalCrash

  // ---- the checksum ----

  lemma XorHalves(a: nat, b: nat)
    ensures Xor(a, b) / 2 == Xor(a / 2, b / 2) && Xor(a, b) % 2 == (a + b) % 2
  {
  }

  /** `Xor` is the exclusive or of the bits. */
  lemma {:induction false} XorBits(a: nat, b: nat, k: nat)
    ensures BitOf(Xor(a, b), k) == (BitOf(a, k) != BitOf(b, k))
    decreases k
  {
    hide Xor;
    XorHalves(a, b);
    if k > 0 {
      XorBits(a / 2, b / 2, k - 1);
    }
  }

  lemma Parity(a: nat, b: nat, x: nat)
    requires x % 2 == (a + b) % 2
    ensures (x + b) % 2 == a % 2
  {
  }

  lemma {:induction false} XorTwice(a: nat, b: nat)
    ensures Xor(Xor(a, b), b) == a
    decreases a + b
  {
    if a + b > 0 {
      hide Xor;
      XorTwice(a / 2, b / 2);
      var x := Xor(a, b);
      XorHalves(a, b);
      XorHalves(x, b);
      Parity(a, b, x);
    }
  }

  lemma {:induction false} XorSwap(a: nat, b: nat)
    ensures Xor(a, b) == Xor(b, a)
    decreases a + b
  {
    if a + b > 0 {
      XorSwap(a / 2, b / 2);
    }
  }

  lemma {:induction false} XorSmall(a: nat, b: nat, k: nat)
    requires a < Pow2(k) && b < Pow2(k)
    ensures Xor(a, b) < Pow2(k)
    decreases k
  {
    if a + b > 0 {
      XorSmall(a / 2, b / 2, k - 1);
    }
  }

  lemma {:induction false} Pow2Sum(a: nat, b: nat)
    ensures Pow2(a + b) == Pow2(a) * Pow2(b)
  {
    if a > 0 {
      Pow2Sum(a - 1, b);
      assert Pow2(a + b) == 2 * Pow2(a - 1 + b);
    }
  }

  lemma WordSize()
    ensures Pow2(32) == U32
  {
    assert Pow2(8) == 256 by {
      assert Pow2(4) == 2 * (2 * (2 * (2 * Pow2(0))));
      assert Pow2(8) == 2 * (2 * (2 * (2 * Pow2(4))));
    }
    Pow2Sum(8, 8);
    Pow2Sum(16, 16);
  }

  lemma Residue(x: nat, k: int)
    requires x < U32
    ensures (x + U32 * k) % U32 == x
  {
  }

  lemma Undo(x: nat)
    requires x < U32
    ensures x * 16777619 % U32 * 899433627 % U32 == x
  {
    var p, q := x * 16777619 / U32, x * 16777619 % U32;
    assert 16777619 * 899433627 == 3513497 * U32 + 1;
    assert q * 899433627 == x + U32 * (x * 3513497 - p * 899433627);
    Residue(x, x * 3513497 - p * 899433627);
  }

  /** Multiplying by the prime can be undone, so it tells different numbers apart. */
  lemma PrimeTellsApart(x: nat, y: nat)
    requires x < U32 && y < U32 && x * 16777619 % U32 == y * 16777619 % U32
    ensures x == y
  {
    Undo(x);
    Undo(y);
  }

  lemma {:induction false} XorZero(a: nat)
    ensures Xor(a, 0) == a
  {
    if a > 0 {
      XorZero(a / 2);
    }
  }

  /** Two test vectors published for 32-bit FNV-1a: the empty string and "a". */
  lemma KnownSums()
    ensures Checksum([]) == 0x811c9dc5 && Checksum([97]) == 0xe40c292c
  {
    hide Xor;
    XorZero(16922939);
    XorHalves(2166136261, 97);
    XorHalves(1083068130, 48);
    XorHalves(541534065, 24);
    XorHalves(270767032, 12);
    XorHalves(135383516, 6);
    XorHalves(67691758, 3);
    XorHalves(33845879, 1);
    assert Xor(0x811c9dc5, 97) == 0x811c9da4;
    assert [97][..0] == [];
  }

  lemma XorTellsApart(g: nat, h: nat, b: byte, c: byte)
    requires g < U32 && h < U32 && Xor(g, b) == Xor(h, c) && (g == h || b == c)
    ensures g == h && b == c
  {
    hide Xor;
    XorTwice(g, b);
    XorTwice(h, c);
    XorSwap(g, b);
    XorSwap(h, c);
    XorTwice(b, g);
    XorTwice(c, h);
  }

  lemma RoundTellsApart(g: nat, h: nat, b: byte, c: byte)
    requires g < U32 && h < U32 && (g == h || b == c)
    requires Xor(g, b) * 16777619 % U32 == Xor(h, c) * 16777619 % U32
    ensures g == h && b == c
  {
    hide Xor;
    WordSize();
    XorSmall(g, b, 32);
    XorSmall(h, c, 32);
    PrimeTellsApart(Xor(g, b), Xor(h, c));
    XorTellsApart(g, h, b, c);
  }

  /** Sequences that differ in exactly one byte have different checksums. */
  lemma {:induction false} ChecksumTellsApart(s: seq<byte>, t: seq<byte>, i: nat)
    requires |s| == |t| && i < |s| && s[i] != t[i] && forall j | 0 <= j < |s| && j != i :: s[j] == t[j]
    ensures Checksum(s) != Checksum(t)
    decreases |s|
  {
    hide Xor;
    var k := |s| - 1;
    var f, g := s[..k], t[..k];
    if i == k {
      assert f == g;
    } else {
      ChecksumTellsApart(f, g, i);
    }
    if Checksum(s) == Checksum(t) {
      RoundTellsApart(Checksum(f), Checksum(g), s[k], t[k]);
    }
  }

  // ---- what a commit writes, byte by byte ----

  /** The bytes of a descriptor that recovery looks at. */
  lemma DescBytes(w: Write)
    ensures var b := DescBlock(w);
      b[0..8] == Encode(JMAGIC, 8) && b[8..12] == Encode(w.lba, 4) && b[12..16] == Encode(Checksum(w.data), 4)
  {
    hide Checksum, Encode;
    var b0 := Put(ZERO_BLOCK, 0, 8, JMAGIC);
    var b1 := Put(b0, 8, 4, w.lba);
    var b2 := Put(b1, 12, 4, Checksum(w.data));
    assert b2[0..8] == b1[0..8] == b0[0..8];
    assert b2[8..12] == b1[8..12];
  }

  lemma FieldIs(b: seq<byte>, off: nat, n: nat, v: nat)
    requires off + n <= |b| && v < Range(n)
    ensures Get(b, off, n) == v <==> b[off..off + n] == Encode(v, n)
  {
    DecodeEncode(v, n);
    if Get(b, off, n) == v {
      DecodeInjective(b[off..off + n], Encode(v, n));
    }
  }

  lemma ThreeFields(a: Block, b: Block)
    ensures a[..16] == b[..16] <==> a[0..8] == b[0..8] && a[8..12] == b[8..12] && a[12..16] == b[12..16]
  {
    assert a[..16] == a[0..8] + a[8..12] + a[12..16] && b[..16] == b[0..8] + b[8..12] + b[12..16];
  }

  /** A record is good exactly if its payload and the first 16 bytes of its descriptor are those a commit writes. */
  lemma SlotExactly(desc: Block, payload: Block, w: Write)
    ensures ReadSlot(desc, payload) == Good(w) <==> payload == w.data && desc[..16] == DescBlock(w)[..16]
  {
    hide Checksum, DescBlock, Get, Encode;
    Ranges();
    DescBytes(w);
    ThreeFields(desc, DescBlock(w));
    FieldIs(desc, 0, 8, JMAGIC);
    FieldIs(desc, 8, 4, w.lba);
    FieldIs(desc, 12, 4, Checksum(w.data));
  }

  /** The first 24 bytes of a header: magic, version, state, sequence number and count. */
  lemma HeaderBytes(seqno: nat, count: nat)
    ensures var b := HeaderBlock(seqno, count);
      && b[0..8] == Encode(JMAGIC, 8) && b[8..12] == Encode(VERSION, 4) && b[12..16] == Encode(J_COMMITTED, 4)
      && b[16..20] == Encode(seqno, 4) && b[20..24] == Encode(count, 4)
  {
    hide Checksum, Encode;
    var b0 := Put(ZERO_BLOCK, 0, 8, JMAGIC);
    var b1 := Put(b0, 8, 4, VERSION);
    var b2 := Put(b1, 12, 4, J_COMMITTED);
    var b3 := Put(b2, 16, 4, seqno);
    var b4 := Put(b3, 20, 4, count);
    var b5 := Put(b4, 24, 4, HeaderSum(b4));
    assert b5[0..8] == b4[0..8] == b3[0..8] == b2[0..8] == b1[0..8] == b0[0..8];
    assert b5[8..12] == b4[8..12] == b3[8..12] == b2[8..12] == b1[8..12];
    assert b5[12..16] == b4[12..16] == b3[12..16] == b2[12..16];
    assert b5[16..20] == b4[16..20] == b3[16..20];
    assert b5[20..24] == b4[20..24];
  }

  lemma FiveFields(a: Block, b: Block)
    ensures a[..24] == b[..24] <==>
      a[0..8] == b[0..8] && a[8..12] == b[8..12] && a[12..16] == b[12..16] && a[16..20] == b[16..20] && a[20..24] == b[20..24]
  {
    assert a[..24] == a[0..8] + a[8..12] + a[12..16] + a[16..20] + a[20..24];
    assert b[..24] == b[0..8] + b[8..12] + b[12..16] + b[16..20] + b[20..24];
  }

  /** The header is one a commit of `count` records could have written, as far as recovery looks. */
  ghost predicate HeaderOf(h: Block, seqno: nat, count: nat)
  {
    seqno < U32 && count <= MAX_RECORDS && h[..24] == HeaderBlock(seqno, count)[..24] && Get(h, 24, 4) == HeaderSum(h)
  }

  lemma GetSmall(h: Block, off: nat)
    requires off + 4 <= BLOCK_SIZE
    ensures Get(h, off, 4) < U32
  {
    Ranges();
  }

  lemma HeaderFields(h: Block, seqno: nat, count: nat)
    requires seqno < U32 && count < U32
    ensures h[..24] == HeaderBlock(seqno, count)[..24] <==>
      && Get(h, 0, 8) == JMAGIC && Get(h, 8, 4) == VERSION && Get(h, 12, 4) == J_COMMITTED
      && Get(h, 16, 4) == seqno && Get(h, 20, 4) == count
  {
    hide HeaderBlock, Get, Encode;
    Ranges();
    HeaderBytes(seqno, count);
    FiveFields(h, HeaderBlock(seqno, count));
    FieldIs(h, 0, 8, JMAGIC);
    FieldIs(h, 8, 4, VERSION);
    FieldIs(h, 12, 4, J_COMMITTED);
    FieldIs(h, 16, 4, seqno);
    FieldIs(h, 20, 4, count);
  }

  lemma HeaderExactly(h: Block)
    ensures HeaderCommitted(h) <==> HeaderOf(h, Get(h, 16, 4), Get(h, 20, 4))
    ensures forall seqno, count :: HeaderOf(h, seqno, count) ==> seqno == Get(h, 16, 4) && count == Get(h, 20, 4)
  {
    hide HeaderBlock, HeaderSum, Get, Encode;
    Ranges();
    GetSmall(h, 16);
    GetSmall(h, 20);
    HeaderFields(h, Get(h, 16, 4), Get(h, 20, 4));
    forall seqno, count | HeaderOf(h, seqno, count)
      ensures seqno == Get(h, 16, 4) && count == Get(h, 20, 4)
    {
      HeaderFields(h, seqno, count);
    }
  }

  /** The journal counts as empty exactly if magic and state are as clearing leaves them. */
  lemma EmptyExactly(h: Block)
    ensures HeaderEmpty(h) <==> h[0..8] == ZERO_BLOCK[0..8] && h[12..16] == ZERO_BLOCK[12..16]
  {
    hide Decode;
    GetZeros(BLOCK_SIZE, 0, 8);
    GetZeros(BLOCK_SIZE, 12, 4);
    SameField(h, ZERO_BLOCK, 0, 8);
    SameField(h, ZERO_BLOCK, 12, 4);
  }

  // ---- recovery accepts what a commit wrote and nothing else ----

  /** Record `i` on the disk is the one a commit writes for `w`. */
  ghost predicate RecordOf(d: Disk, i: nat, w: Write)
    requires i < MAX_RECORDS
  {
    d[START + 1 + 2 * i][..16] == DescBlock(w)[..16] && d[START + 2 + 2 * i] == w.data
  }

  /** The records from `i` to `n`, each as it is when the ones before it have been written home. */
  ghost predicate RecordsOf(d: Disk, i: nat, n: nat, tx: seq<Write>)
    requires i <= n <= MAX_RECORDS
    decreases n - i
  {
    && |tx| == n - i
    && (i < n ==> RecordOf(d, i, tx[0]) && RecordsOf(Apply(d, [tx[0]]), i + 1, n, tx[1..]))
  }

  lemma LongEnough(d: Disk, i: nat, n: nat)
    requires i <= n <= MAX_RECORDS
    ensures var p := ReplayPlan(d, i, n);
      p.rc == OK || p.rc == E_CORRUPT
    ensures var p := ReplayPlan(d, i, n);
      p.rc == OK ==> |p.writes| == n - i + 1 && p.writes[n - i] == CLEAR
    decreases n - i
  {
    if i < n {
      LongEnough(Apply(d, SlotPlan(SlotAt(d, i)).writes), i + 1, n);
    }
  }

  lemma SamePlans(w: Write, q: Plan, tx: seq<Write>)
    requires tx != []
    ensures Then(Plan([w], OK), q) == Plan(tx + [CLEAR], OK) <==> w == tx[0] && q == Plan(tx[1..] + [CLEAR], OK)
  {
    assert tx + [CLEAR] == [tx[0]] + (tx[1..] + [CLEAR]);
    assert ([w] + q.writes)[1..] == q.writes && ([tx[0]] + (tx[1..] + [CLEAR]))[1..] == tx[1..] + [CLEAR];
  }

  lemma {:induction false} ReplayExactly(d: Disk, i: nat, n: nat, tx: seq<Write>)
    requires i <= n <= MAX_RECORDS
    ensures RecordsOf(d, i, n, tx) <==> ReplayPlan(d, i, n) == Plan(tx + [CLEAR], OK)
    decreases n - i
  {
    hide ReadSlot, DescBlock;
    var p := ReplayPlan(d, i, n);
    if i == n {
      assert p.writes == [] + [CLEAR];
      if p.writes == tx + [CLEAR] {
        assert |tx| == 0;
      }
    } else {
      var s := SlotAt(d, i);
      if tx != [] {
        SlotExactly(d[START + 1 + 2 * i], d[START + 2 + 2 * i], tx[0]);
        assert tx + [CLEAR] == [tx[0]] + (tx[1..] + [CLEAR]);
      }
      if s.Good? {
        var q := ReplayPlan(Apply(d, [s.w]), i + 1, n);
        LongEnough(Apply(d, [s.w]), i + 1, n);
        if tx != [] {
          ReplayExactly(Apply(d, [s.w]), i + 1, n, tx[1..]);
          SamePlans(s.w, q, tx);
        }
      }
    }
  }

  /** The journal is one that a commit of `tx` wrote, as far as recovery looks. */
  ghost predicate JournalOf(d: Disk, seqno: nat, tx: seq<Write>)
  {
    |tx| <= MAX_RECORDS && HeaderOf(d[START], seqno, |tx|) && RecordsOf(d, 0, |tx|, tx)
  }

  lemma JournalReplays(d: Disk, seqno: nat, tx: seq<Write>)
    requires !HeaderEmpty(d[START])
    ensures JournalOf(d, seqno, tx) ==> RecoverPlan(d) == Plan(tx + [CLEAR], OK)
  {
    hide HeaderOf, RecordsOf, ReplayPlan, HeaderCommitted, HeaderEmpty, Get;
    HeaderExactly(d[START]);
    if JournalOf(d, seqno, tx) {
      ReplayExactly(d, 0, |tx|, tx);
    }
  }

  lemma CommittedCount(h: Block)
    requires HeaderCommitted(h)
    ensures Get(h, 20, 4) <= MAX_RECORDS
  {
  }

  lemma SameLength(d: Disk, n: nat, tx: seq<Write>)
    requires n <= MAX_RECORDS && RecordsOf(d, 0, n, tx)
    ensures |tx| == n
  {
  }

  /**
    Recovery of any disk whatever: it does nothing if the journal is as clearing leaves
    it; it redoes `tx` and clears the journal exactly if the journal is one a commit of
    `tx` wrote; otherwise it reports corruption.
   */
  lemma RecoverExactly(d: Disk)
    ensures var p, h := RecoverPlan(d), d[START];
      && (p.rc == OK || p.rc == E_CORRUPT)
      && (h[0..8] == ZERO_BLOCK[0..8] && h[12..16] == ZERO_BLOCK[12..16] ==> p == Plan([], OK))
      && (!(h[0..8] == ZERO_BLOCK[0..8] && h[12..16] == ZERO_BLOCK[12..16]) ==>
            && (forall seqno, tx | JournalOf(d, seqno, tx) :: p == Plan(tx + [CLEAR], OK))
            && (p.rc == OK ==> exists seqno, tx :: JournalOf(d, seqno, tx)))
  {
    hide HeaderEmpty, HeaderOf, RecordsOf, ReplayPlan, HeaderCommitted, Get;
    var p, h := RecoverPlan(d), d[START];
    EmptyExactly(h);
    HeaderExactly(h);
    if !HeaderEmpty(h) {
      forall seqno, tx | JournalOf(d, seqno, tx)
        ensures p == Plan(tx + [CLEAR], OK)
      {
        JournalReplays(d, seqno, tx);
      }
      if HeaderCommitted(h) {
        var n := Get(h, 20, 4);
        CommittedCount(h);
        LongEnough(d, 0, n);
        if p.rc == OK {
          var tx := p.writes[..n];
          assert p.writes == tx + [CLEAR];
          ReplayExactly(d, 0, n, tx);
          assert RecordsOf(d, 0, n, tx);
          SameLength(d, n, tx);
          assert JournalOf(d, Get(h, 16, 4), tx);
        }
      }
    }
  }

  // ---- damage ----

  /** A replay stops at the first bad record, with the ones before it written home. */
  lemma {:induction false} ReplayStops(d: Disk, tx: seq<Write>, k: nat, i: nat, n: nat)
    requires k <= i < n <= MAX_RECORDS && i <= |tx| && Outside(tx) && SlotAt(d, i) == Bad
    requires forall j | k <= j < i :: SlotAt(d, j) == Good(tx[j])
    ensures ReplayPlan(d, k, n) == Plan(tx[k..i], E_CORRUPT)
    decreases i - k
  {
    hide SlotAt, InJournal;
    if k < i {
      var w := tx[k];
      var e := Apply(d, [w]);
      assert Outside([w]);
      OutsideKeepsJournal(d, [w]);
      SameSlots(d, e);
      assert forall j | k <= j <= i :: SlotAt(e, j) == Slots(e)[j] && SlotAt(d, j) == Slots(d)[j];
      ReplayStops(e, tx, k + 1, i, n);
      assert [w] + tx[k + 1..i] == tx[k..i];
    } else {
      assert tx[k..i] == [];
    }
  }

  lemma BadRecord(d: Disk, e: Disk, tx: seq<Write>, i: nat)
    requires Logged(d, tx) && Outside(tx) && i < |tx| && e[START] == d[START] && SlotAt(e, i) == Bad
    requires forall j | 0 <= j < i :: SlotAt(e, j) == SlotAt(d, j)
    ensures RecoverPlan(e) == Plan(tx[..i], E_CORRUPT)
  {
    hide SlotAt, HeaderEmpty, HeaderCommitted;
    ReplayStops(e, tx, 0, i, |tx|);
    assert tx[0..i] == tx[..i];
  }

  lemma LoggedBlocks(d: Disk, tx: seq<Write>, i: nat)
    requires Logged(d, tx) && i < |tx|
    ensures RecordOf(d, i, tx[i])
  {
    SlotExactly(d[START + 1 + 2 * i], d[START + 2 + 2 * i], tx[i]);
  }

  lemma DamagedSlot(w: Write, b: Block)
    ensures var was := DescBlock(w);
      ReadSlot(b, w.data) ==
        if b[0..8] == was[0..8] && b[12..16] == was[12..16] && Get(b, 8, 4) < MAX_BLOCKS then Good(Write(Get(b, 8, 4), w.data))
        else Bad
  {
    hide Checksum, DescBlock, Get, Encode;
    Ranges();
    DescBytes(w);
    FieldIs(b, 0, 8, JMAGIC);
    FieldIs(b, 12, 4, Checksum(w.data));
  }

  /** What a descriptor replaced by any block `b` leads to: another target if nothing but the target differs, else corruption. */
  lemma DescriptorDamage(d: Disk, tx: seq<Write>, i: nat, b: Block)
    requires Logged(d, tx) && Outside(tx) && i < |tx|
    ensures var e, was := d[START + 1 + 2 * i := b], DescBlock(tx[i]);
      if b[0..8] == was[0..8] && b[12..16] == was[12..16] && Get(b, 8, 4) < MAX_BLOCKS then
        !InJournal(Get(b, 8, 4)) ==> RecoverPlan(e) == Plan(tx[i := Write(Get(b, 8, 4), tx[i].data)] + [CLEAR], OK)
      else RecoverPlan(e) == Plan(tx[..i], E_CORRUPT)
  {
    hide Checksum, DescBlock, Get, Encode, HeaderEmpty, HeaderCommitted, RecoverPlan;
    var e := d[START + 1 + 2 * i := b];
    LoggedBlocks(d, tx, i);
    assert forall j | 0 <= j < |tx| && j != i :: SlotAt(e, j) == SlotAt(d, j);
    DamagedSlot(tx[i], b);
    assert SlotAt(e, i) == ReadSlot(b, tx[i].data);
    if SlotAt(e, i) == Bad {
      BadRecord(d, e, tx, i);
    } else {
      var w := Write(Get(b, 8, 4), tx[i].data);
      if !InJournal(w.lba) {
        assert Logged(e, tx[i := w]);
        LoggedPlan(e, tx[i := w]);
      }
    }
  }

  /** A payload with one byte changed is always noticed. */
  lemma PayloadDamage(d: Disk, tx: seq<Write>, i: nat, b: Block, k: nat)
    requires Logged(d, tx) && Outside(tx) && i < |tx| && k < BLOCK_SIZE && b[k] != tx[i].data[k]
    requires forall j | 0 <= j < BLOCK_SIZE && j != k :: b[j] == tx[i].data[j]
    ensures RecoverPlan(d[START + 2 + 2 * i := b]) == Plan(tx[..i], E_CORRUPT)
  {
    hide Checksum, DescBlock, HeaderEmpty, HeaderCommitted, RecoverPlan;
    var e := d[START + 2 + 2 * i := b];
    assert SlotAt(d, i) == Good(tx[i]);
    ChecksumTellsApart(b, tx[i].data, k);
    assert forall j | 0 <= j < i :: SlotAt(e, j) == SlotAt(d, j);
    BadRecord(d, e, tx, i);
  }

  lemma MagicBytes(h: Block)
    requires Get(h, 0, 8) == JMAGIC
    ensures h[0] == 0x31 && h[1] == 0x4c
  {
    var s := h[0..8];
    assert Decode(s) == s[0] + 256 * (s[1] + 256 * Decode(s[1..][1..]));
  }

  /** So is a header with one byte changed, and then nothing at all is written. */
  lemma HeaderDamage(d: Disk, tx: seq<Write>, h: Block, k: nat)
    requires Logged(d, tx) && k < BLOCK_SIZE && h[k] != d[START][k]
    requires forall j | 0 <= j < BLOCK_SIZE && j != k :: h[j] == d[START][j]
    ensures RecoverPlan(d[START := h]) == Plan([], E_CORRUPT)
  {
    hide Checksum, Decode, ReplayPlan;
    var h0 := d[START];
    MagicBytes(h0);
    EmptyExactly(h);
    assert h[0] != 0 || h[1] != 0;
    assert !HeaderEmpty(h) by {
      assert h[0..8][0] == h[0] && h[0..8][1] == h[1];
    }
    var z, z0 := Put(h, 24, 4, 0), Put(h0, 24, 4, 0);
    if 24 <= k < 28 {
      assert z == z0;
      SameField(h, h0, 24, 4);
      assert h[24..28][k - 24] != h0[24..28][k - 24];
    } else {
      assert h[24..28] == h0[24..28];
      assert forall j | 0 <= j < BLOCK_SIZE && j != k :: z[j] == z0[j] by {
        assert z[24..28] == z0[24..28];
        assert forall j | 24 <= j < 28 :: z[j] == z[24..28][j - 24] && z0[j] == z0[24..28][j - 24];
      }
      ChecksumTellsApart(z, z0, k);
    }
  }
}
