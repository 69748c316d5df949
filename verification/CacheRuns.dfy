/**
  Runs of the buffer cache: it behaves as the plain disk it speeds up; how many
  misses a cached block survives is worked out for every state, and is one less
  than there are slots exactly when no slot in use lies between empty ones, as in
  all runs without device errors.
 */
module CacheRuns {
  import opened Bytes
  import opened CacheModel

  datatype Op<D> = ReadOp(dev: D, lba: nat) | WriteOp(dev: D, lba: nat, data: seq<byte>) | FlushOp

  /** Devices as maps to blocks, with nothing cached. */
  type Plain<D> = map<D, seq<seq<byte>>>

  /** The request names a device that exists, and a write stays inside it. */
  predicate Sane<D(==)>(disks: Plain<D>, op: Op<D>)
  {
    match op
    case ReadOp(dev, _) => dev in disks
    case WriteOp(dev, lba, _) => dev in disks && lba < |disks[dev]|
    case FlushOp => true
  }

  function Step<D(==)>(c: Cache<D>, op: Op<D>): Cache<D>
    requires Flushable(c) && 0 < |c.entries| && c.hand <= |c.entries| && Sane(c.disks, op)
  {
    match op
    case ReadOp(dev, lba) => ReadStep(c, dev, lba)
    case WriteOp(dev, lba, data) => WriteStep(c, dev, lba, data)
    case FlushOp => FlushFrom(c, 0)
  }

  function PlainStep<D(==)>(d: Plain<D>, op: Op<D>): Plain<D>
    requires Sane(d, op)
  {
    match op
    case WriteOp(dev, lba, data) => d[dev := d[dev][lba := data]]
    case _ => d
  }

  /** The plain disks a cache stands for. */
  function Seen<D(==)>(c: Cache<D>, dev: D): (r: seq<seq<byte>>)
    requires |c.entries| == |c.slices| && dev in c.disks
    ensures |r| == |c.disks[dev]| && forall l | 0 <= l < |r| :: r[l] == Logical(c, dev, l)
  {
    seq(|c.disks[dev]|, l requires 0 <= l < |c.disks[dev]| => Logical(c, dev, l))
  }

  function View<D(==)>(c: Cache<D>): Plain<D>
    requires |c.entries| == |c.slices|
  {
    map dev | dev in c.disks :: Seen(c, dev)
  }

  lemma SameView<D>(c: Cache<D>, c': Cache<D>)
    requires SameLogical(c, c')
    ensures View(c') == View(c)
  {
    forall dev | dev in c.disks
      ensures Seen(c', dev) == Seen(c, dev)
    {
    }
  }

  lemma StepSize<D>(c: Cache<D>, op: Op<D>)
    requires Ok(c) && Sane(c.disks, op)
    ensures |Step(c, op).entries| == |c.entries| == |Step(c, op).slices|
  {
    if op.FlushOp? {
      FlushFromSyncs(c, 0);
    }
  }

  lemma WriteView<D>(c: Cache<D>, c': Cache<D>, dev: D, lba: nat, data: seq<byte>)
    requires |c.entries| == |c.slices| && |c'.entries| == |c'.slices| && SameShape(c, c')
    requires dev in c.disks && lba < |c.disks[dev]| && Logical(c', dev, lba) == data
    requires forall d, l | d in c.disks && 0 <= l < |c.disks[d]| && !(d == dev && l == lba) ::
      Logical(c', d, l) == Logical(c, d, l)
    ensures View(c') == View(c)[dev := View(c)[dev][lba := data]]
  {
    hide Logical;
    forall d | d in c.disks
      ensures Seen(c', d) == if d == dev then Seen(c, d)[lba := data] else Seen(c, d)
    {
    }
  }

  /** One operation does to the plain disks what it would do to them directly. */
  lemma StepRefines<D>(c: Cache<D>, op: Op<D>)
    requires Ok(c) && Sane(c.disks, op)
    ensures var c' := Step(c, op);
      && Ok(c') && SameShape(c, c') && |c'.entries| == |c.entries| && View(c') == PlainStep(View(c), op)
      && (op.ReadOp? && op.lba < |c.disks[op.dev]| ==>
            var r := Find(c'.entries, op.dev, op.lba); r < |c'.entries| && c'.slices[r] == View(c)[op.dev][op.lba])
  {
    hide Ok, ReadStep, WriteStep, FlushFrom, Logical, Find;
    OkSizes(c);
    match op
    case ReadOp(dev, lba) =>
      ReadKeeps(c, dev, lba);
      SameView(c, Step(c, op));
      StepSize(c, op);
    case WriteOp(dev, lba, data) =>
      WriteKeeps(c, dev, lba, data);
      StepSize(c, op);
      WriteView(c, Step(c, op), dev, lba, data);
    case FlushOp =>
      FlushAllSyncs(c);
      SameView(c, Step(c, op));
      StepSize(c, op);
  }

  // ---- runs ----

  predicate AllSane<D(==)>(disks: Plain<D>, ops: seq<Op<D>>)
  {
    forall i | 0 <= i < |ops| :: Sane(disks, ops[i])
  }

  ghost function Run<D>(c: Cache<D>, ops: seq<Op<D>>): (c': Cache<D>)
    requires Ok(c) && AllSane(c.disks, ops)
    ensures Ok(c') && SameShape(c, c') && |c'.entries| == |c.entries|
    decreases |ops|
  {
    if ops == [] then c
    else
      StepRefines(c, ops[0]);
      Run(Step(c, ops[0]), ops[1..])
  }

  ghost function PlainRun<D>(d: Plain<D>, ops: seq<Op<D>>): Plain<D>
    requires AllSane(d, ops)
    decreases |ops|
  {
    if ops == [] then d else PlainRun(PlainStep(d, ops[0]), ops[1..])
  }

  /** Over every run the cached devices stand for what the plain devices would hold. */
  lemma {:induction false} RunRefines<D>(c: Cache<D>, ops: seq<Op<D>>)
    requires Ok(c) && AllSane(c.disks, ops)
    ensures AllSane(View(c), ops) && View(Run(c, ops)) == PlainRun(View(c), ops)
    decreases |ops|
  {
    hide Ok, Step, Find, Logical;
    OkSizes(c);
    if ops != [] {
      StepRefines(c, ops[0]);
      RunRefines(Step(c, ops[0]), ops[1..]);
    }
  }

  // ---- requests ----

  /** A request for a block that is not cached. */
  predicate Miss<D(==)>(c: Cache<D>, op: Op<D>)
  {
    match op
    case ReadOp(dev, lba) => Find(c.entries, dev, lba) == |c.entries|
    case WriteOp(dev, lba, _) => Find(c.entries, dev, lba) == |c.entries|
    case FlushOp => false
  }

  /** A request no device refuses. */
  predicate Served<D(==)>(c: Cache<D>, op: Op<D>)
  {
    Sane(c.disks, op) && (op.ReadOp? ==> op.lba < |c.disks[op.dev]|)
  }

  /** No request of the run is refused by a device. */
  predicate AllServed<D(==)>(disks: Plain<D>, ops: seq<Op<D>>)
  {
    AllSane(disks, ops) && forall i | 0 <= i < |ops| && ops[i].ReadOp? :: ops[i].lba < |disks[ops[i].dev]|
  }

  /** The number of misses in a run. */
  ghost function Misses<D>(c: Cache<D>, ops: seq<Op<D>>): nat
    requires Ok(c) && AllSane(c.disks, ops)
    decreases |ops|
  {
    if ops == [] then 0
    else
      StepRefines(c, ops[0]);
      (if Miss(c, ops[0]) then 1 else 0) + Misses(Step(c, ops[0]), ops[1..])
  }

  lemma {:induction false} FlushFromShape<D>(c: Cache<D>, i: nat)
    requires Ok(c) && i <= |c.entries|
    ensures var c' := FlushFrom(c, i);
      && |c'.entries| == |c.entries| && c'.hand == c.hand
      && (forall j | 0 <= j < |c.entries| :: c'.entries[j] == c.entries[j].(dirty := c'.entries[j].dirty))
    decreases |c.entries| - i
  {
    if i < |c.entries| {
      FlushKeeps(c, i);
      FlushFromShape(Flush(c, i), i + 1);
    }
  }

  /** The slot the next miss takes. */
  function Victim<D(==)>(c: Cache<D>): nat
    requires 0 < |c.entries| && c.hand <= |c.entries|
  {
    var n := |c.entries|;
    var start := Wrap(c.hand, n);
    var p := FirstInvalid(c.entries, start, 0);
    if p < n then Wrap(start + p, n) else start
  }

  /** A served miss gives the victim's slot to the new block; no other slot changes its block. */
  lemma MissFills<D>(c: Cache<D>, op: Op<D>)
    requires Ok(c) && Served(c, op) && Miss(c, op)
    ensures var c', v := Step(c, op), Victim(c);
      && |c'.entries| == |c.entries| && v < |c.entries| && c'.hand == v + 1 && Caches(c'.entries[v], op.dev, op.lba)
      && (forall j | 0 <= j < |c.entries| && j != v :: c'.entries[j] == c.entries[j].(dirty := c'.entries[j].dirty))
  {
    hide Flush, Ok, FirstInvalid;
    OkSizes(c);
    SelectVictimKeeps(c);
  }

  /** A refused read empties the slot it chose and leaves the others alone. */
  lemma RefusedEmpties<D>(c: Cache<D>, op: Op<D>)
    requires Ok(c) && Sane(c.disks, op) && !Served(c, op) && Miss(c, op)
    ensures var c', v := Step(c, op), Victim(c);
      && |c'.entries| == |c.entries| && v < |c.entries| && c'.hand == v + 1 && !c'.entries[v].valid
      && (forall j | 0 <= j < |c.entries| && j != v :: c'.entries[j] == c.entries[j].(dirty := c'.entries[j].dirty))
  {
    hide Ok, Flush, FirstInvalid;
    OkSizes(c);
    SelectVictimKeeps(c);
  }

  /** A request that is not a miss leaves every slot's block and the hand alone. */
  lemma HitKeeps<D>(c: Cache<D>, op: Op<D>)
    requires Ok(c) && Sane(c.disks, op) && !Miss(c, op)
    ensures var c' := Step(c, op);
      && |c'.entries| == |c.entries| && c'.hand == c.hand
      && (forall j | 0 <= j < |c.entries| :: c'.entries[j] == c.entries[j].(dirty := c'.entries[j].dirty))
  {
    if op.FlushOp? {
      FlushFromShape(c, 0);
    }
  }

  /** Making room writes the victim back if it is dirty, and touches no other slot. */
  lemma VictimWrittenBack<D>(c: Cache<D>)
    requires Ok(c)
    ensures var (c', i) := SelectVictim(c);
      && i == Victim(c) && c'.slices == c.slices
      && (forall j | 0 <= j < |c.entries| && j != i :: c'.entries[j] == c.entries[j])
      && (var e := c.entries[i];
          c'.disks == if e.valid && e.dirty then c.disks[e.dev := c.disks[e.dev][e.lba := c.slices[i]]] else c.disks)
  {
    hide FirstInvalid;
    OkSizes(c);
  }

  lemma OnlySlot<D>(c: Cache<D>, dev: D, lba: nat)
    requires Ok(c) && Find(c.entries, dev, lba) < |c.entries|
    ensures var r := Find(c.entries, dev, lba);
      Caches(c.entries[r], dev, lba) && forall j | 0 <= j < |c.entries| && j != r :: !Caches(c.entries[j], dev, lba)
  {
    var r := Find(c.entries, dev, lba);
    assert Caches(c.entries[r], dev, lba);
  }

  /**
    Devices are written late: a read or a write changes a device only if it takes the
    slot of a dirty block, and then that block only.  A block becomes dirty when it is
    written and clean when it is brought in, and no other block changes.
   */
  lemma WritesBackExactly<D>(c: Cache<D>, op: Op<D>)
    requires Ok(c) && Sane(c.disks, op) && !op.FlushOp?
    ensures var c', v := Step(c, op), Victim(c);
      && v < |c.entries| == |c'.entries|
      && (var e := c.entries[v];
          c'.disks == if Miss(c, op) && e.valid && e.dirty then c.disks[e.dev := c.disks[e.dev][e.lba := c.slices[v]]] else c.disks)
      && (forall j | 0 <= j < |c.entries| && c'.entries[j].valid && !Caches(c'.entries[j], op.dev, op.lba) ::
            c'.entries[j] == c.entries[j])
      && (forall j | 0 <= j < |c.entries| && Caches(c'.entries[j], op.dev, op.lba) ::
            c'.entries[j].dirty == (op.WriteOp? || (!Miss(c, op) && c.entries[j].dirty)))
  {
    hide FirstInvalid, SelectVictim, Flush, Ok, Victim;
    OkSizes(c);
    VictimWrittenBack(c);
    if !Miss(c, op) {
      OnlySlot(c, op.dev, op.lba);
    }
  }

  // ---- empty slots ----

  /** The number of slots that cache nothing. */
  function Holes<D>(es: seq<Entry<D>>): nat
  {
    if es == [] then 0 else (if es[0].valid then 0 else 1) + Holes(es[1..])
  }

  lemma {:induction false} HolesConcat<D>(a: seq<Entry<D>>, b: seq<Entry<D>>)
    ensures Holes(a + b) == Holes(a) + Holes(b)
  {
    if a == [] {
      assert a + b == b;
    } else {
      assert (a + b)[1..] == a[1..] + b;
      HolesConcat(a[1..], b);
    }
  }

  lemma {:induction false} HolesBound<D>(s: seq<Entry<D>>)
    ensures Holes(s) <= |s|
    ensures Holes(s) == |s| <==> forall i | 0 <= i < |s| :: !s[i].valid
    ensures Holes(s) == 0 <==> forall i | 0 <= i < |s| :: s[i].valid
  {
    if s != [] {
      var t := s[1..];
      HolesBound(t);
      assert forall i | 1 <= i < |s| :: s[i] == t[i - 1];
    }
  }

  lemma {:induction false} HolesSame<D>(s: seq<Entry<D>>, t: seq<Entry<D>>)
    requires |s| == |t| && forall i | 0 <= i < |s| :: s[i].valid == t[i].valid
    ensures Holes(s) == Holes(t)
  {
    if s != [] {
      HolesSame(s[1..], t[1..]);
    }
  }

  lemma HolesFill<D>(s: seq<Entry<D>>, t: seq<Entry<D>>, v: nat)
    requires |s| == |t| && v < |s| && t[v].valid
    requires forall i | 0 <= i < |s| && i != v :: s[i].valid == t[i].valid
    ensures Holes(s) == Holes(t) + if s[v].valid then 0 else 1
  {
    assert s == s[..v] + ([s[v]] + s[v + 1..]) && t == t[..v] + ([t[v]] + t[v + 1..]);
    HolesConcat(s[..v], [s[v]] + s[v + 1..]);
    HolesConcat(t[..v], [t[v]] + t[v + 1..]);
    HolesConcat([s[v]], s[v + 1..]);
    HolesConcat([t[v]], t[v + 1..]);
    HolesSame(s[..v], t[..v]);
    HolesSame(s[v + 1..], t[v + 1..]);
    assert [s[v]][1..] == [] && [t[v]][1..] == [];
  }

  /** The slots in the order in which the hand meets them. */
  function Turned<D>(es: seq<Entry<D>>, start: nat): (r: seq<Entry<D>>)
    requires start < |es|
    ensures |r| == |es| && forall q | 0 <= q < |es| :: r[q] == es[Wrap(start + q, |es|)]
  {
    es[start..] + es[..start]
  }

  lemma HolesTurned<D>(es: seq<Entry<D>>, start: nat)
    requires start < |es|
    ensures Holes(Turned(es, start)) == Holes(es)
  {
    HolesConcat(es[start..], es[..start]);
    HolesConcat(es[..start], es[start..]);
    assert es == es[..start] + es[start..];
  }

  /** One more than the distance from `start` to the last empty slot among the first `m`; 0 if there is none. */
  function PastLast<D>(es: seq<Entry<D>>, start: nat, m: nat): (r: nat)
    requires start < |es| && m <= |es|
    ensures r <= m && (r > 0 ==> !ValidAt(es, start, r - 1))
    ensures forall q | r <= q < m :: ValidAt(es, start, q)
  {
    if m == 0 || !ValidAt(es, start, m - 1) then m else PastLast(es, start, m - 1)
  }

  lemma PastLastIs<D>(es: seq<Entry<D>>, start: nat, r: nat)
    requires start < |es| && r <= |es| && (r > 0 ==> !ValidAt(es, start, r - 1))
    requires forall q | r <= q < |es| :: ValidAt(es, start, q)
    ensures PastLast(es, start, |es|) == r
  {
  }

  lemma FirstBeforeLast<D>(es: seq<Entry<D>>, start: nat)
    requires start < |es| && FirstInvalid(es, start, 0) < |es|
    ensures FirstInvalid(es, start, 0) < PastLast(es, start, |es|)
  {
  }

  // ---- how long a block stays ----

  /** The slot evicted first once no slot is empty: the one after the last empty slot the hand will meet. */
  function Oldest<D>(c: Cache<D>): (i: nat)
    requires 0 < |c.entries| && c.hand <= |c.entries|
    ensures i < |c.entries|
  {
    var n := |c.entries|;
    var start := Wrap(c.hand, n);
    Wrap(start + PastLast(c.entries, start, n), n)
  }

  /** The number of further misses slot `i` stays untouched by: first the empty slots go, then the slots in turn. */
  function Left<D>(c: Cache<D>, i: nat): nat
    requires 0 < |c.entries| && c.hand <= |c.entries| && i < |c.entries|
  {
    Holes(c.entries) + Wrap(i + |c.entries| - Oldest(c), |c.entries|)
  }

  lemma AllInUse<D>(es: seq<Entry<D>>, start: nat)
    requires start < |es| && FirstInvalid(es, start, 0) == |es|
    ensures PastLast(es, start, |es|) == 0
  {
    PastLastIs(es, start, 0);
  }

  lemma HoleMet<D>(es: seq<Entry<D>>, start: nat)
    requires start < |es|
    ensures Holes(es) == 0 <==> FirstInvalid(es, start, 0) == |es|
  {
    var p, t := FirstInvalid(es, start, 0), Turned(es, start);
    HolesTurned(es, start);
    HolesBound(t);
    assert forall q | 0 <= q < |es| :: ValidAt(es, start, q) == t[q].valid;
  }

  /** Seen from the slot after the first empty one, filled meanwhile, the last empty slot is that much nearer. */
  lemma NextHoles<D>(es: seq<Entry<D>>, es': seq<Entry<D>>, start: nat, p: nat, r: nat, v: nat, start': nat)
    requires start < |es| == |es'| && p < r <= |es| && v == Wrap(start + p, |es|) && start' == Wrap(v + 1, |es|)
    requires es'[v].valid && (forall j | 0 <= j < |es| && j != v :: es'[j].valid == es[j].valid)
    requires (forall q | 0 <= q < p :: ValidAt(es, start, q)) && !ValidAt(es, start, r - 1)
    requires forall q | r <= q < |es| :: ValidAt(es, start, q)
    ensures r - p - 1 > 0 ==> !ValidAt(es', start', r - p - 2)
    ensures forall q | r - p - 1 <= q < |es| :: ValidAt(es', start', q)
  {
    var n := |es|;
    assert r - p - 1 > 0 ==> Wrap(start' + (r - p - 2), n) == Wrap(start + (r - 1), n) != v;
    forall q | r - p - 1 <= q < n
      ensures ValidAt(es', start', q)
    {
      var x := if p + 1 + q < n then p + 1 + q else p + 1 + q - n;
      assert Wrap(start' + q, n) == Wrap(start + x, n);
      assert x != p ==> ValidAt(es, start, x);
    }
  }

  /** A slot in use is taken only when no slot is empty. */
  lemma VictimEmpty<D>(c: Cache<D>)
    requires 0 < |c.entries| && c.hand <= |c.entries|
    ensures Holes(c.entries) > 0 <==> !c.entries[Victim(c)].valid
  {
    HoleMet(c.entries, Wrap(c.hand, |c.entries|));
    HolesBound(c.entries);
  }

  /** Filling an empty slot leaves the order of eviction alone; evicting moves it on by one. */
  lemma OldestMoves<D>(c: Cache<D>, c': Cache<D>)
    requires 0 < |c.entries| == |c'.entries| && c.hand <= |c.entries|
    requires var v := Victim(c);
      && v < |c.entries| && c'.hand == v + 1 && c'.entries[v].valid
      && forall j | 0 <= j < |c.entries| && j != v :: c'.entries[j].valid == c.entries[j].valid
    ensures Oldest(c') == if Holes(c.entries) > 0 then Oldest(c) else Wrap(Oldest(c) + 1, |c.entries|)
    ensures Holes(c.entries) == 0 ==> Oldest(c) == Victim(c)
    ensures Holes(c'.entries) == if Holes(c.entries) > 0 then Holes(c.entries) - 1 else 0
  {
    hide Holes, PastLast, FirstInvalid, ValidAt;
    var es, es', n, v := c.entries, c'.entries, |c.entries|, Victim(c);
    var start, start' := Wrap(c.hand, n), Wrap(c'.hand, n);
    var p, r := FirstInvalid(es, start, 0), PastLast(es, start, n);
    HolesFill(es, es', v);
    HoleMet(es, start);
    VictimEmpty(c);
    if p < n {
      FirstBeforeLast(es, start);
      NextHoles(es, es', start, p, r, v, start');
      PastLastIs(es', start', r - p - 1);
    } else {
      AllInUse(es, start);
      HoleMet(es', start');
      AllInUse(es', start');
    }
  }

  lemma OldestSame<D>(c: Cache<D>, c': Cache<D>)
    requires 0 < |c.entries| == |c'.entries| && c'.hand == c.hand <= |c.entries|
    requires forall j | 0 <= j < |c.entries| :: c'.entries[j].valid == c.entries[j].valid
    ensures Oldest(c') == Oldest(c) && Holes(c'.entries) == Holes(c.entries)
  {
    var n, start := |c.entries|, Wrap(c.hand, |c.entries|);
    assert forall q | 0 <= q < n :: ValidAt(c'.entries, start, q) == ValidAt(c.entries, start, q);
    PastLastIs(c'.entries, start, PastLast(c.entries, start, n));
    HolesSame(c.entries, c'.entries);
  }

  /** A served miss costs every slot but the victim's one turn; the victim had none left, or was empty. */
  lemma MissAges<D>(c: Cache<D>, op: Op<D>)
    requires Ok(c) && Served(c, op) && Miss(c, op)
    ensures var c', n, v := Step(c, op), |c.entries|, Victim(c);
      && |c'.entries| == n && v < n && c'.hand == v + 1 && Caches(c'.entries[v], op.dev, op.lba)
      && (forall j | 0 <= j < n && j != v :: c'.entries[j] == c.entries[j].(dirty := c'.entries[j].dirty))
      && (forall j | 0 <= j < n && j != v && c.entries[j].valid :: Left(c, j) > 0 && Left(c', j) == Left(c, j) - 1)
      && (c.entries[v].valid ==> Left(c, v) == 0)
  {
    hide Ok, Step, FirstInvalid, PastLast, Holes;
    MissFills(c, op);
    OkSizes(c);
    OldestMoves(c, Step(c, op));
    VictimEmpty(c);
  }

  /** Slot `i` of both states caches the same block. */
  predicate SameBlock<D(==)>(c: Cache<D>, c': Cache<D>, i: nat)
    requires i < |c.entries| && i < |c'.entries|
  {
    c'.entries[i].valid && c.entries[i].valid && c'.entries[i].dev == c.entries[i].dev && c'.entries[i].lba == c.entries[i].lba
  }

  lemma HitAges<D>(c: Cache<D>, op: Op<D>, i: nat)
    requires Ok(c) && Served(c, op) && !Miss(c, op) && i < |c.entries|
    ensures var c' := Step(c, op);
      |c'.entries| == |c.entries| && c'.hand <= |c'.entries| && c'.entries[i] == c.entries[i].(dirty := c'.entries[i].dirty)
      && Left(c', i) == Left(c, i)
  {
    hide Ok, Step, Oldest, Holes;
    OkSizes(c);
    HitKeeps(c, op);
    OldestSame(c, Step(c, op));
  }

  /** From any state, a block stays cached through as many misses as its slot has left, and each miss uses one up. */
  lemma {:induction false} Survives<D>(c: Cache<D>, ops: seq<Op<D>>, i: nat)
    requires Ok(c) && i < |c.entries| && c.entries[i].valid && AllServed(c.disks, ops) && Misses(c, ops) <= Left(c, i)
    ensures var c' := Run(c, ops); SameBlock(c, c', i) && Left(c', i) == Left(c, i) - Misses(c, ops)
    decreases |ops|
  {
    hide Ok, Step, Find, Left, Victim;
    OkSizes(c);
    if ops != [] {
      var op := ops[0];
      StepRefines(c, op);
      var c1 := Step(c, op);
      if Miss(c, op) {
        MissAges(c, op);
        assert i != Victim(c);
      } else {
        HitAges(c, op, i);
      }
      Survives(c1, ops[1..], i);
    }
  }

  /** The slot the next miss takes is the one in use that has no turn left, or an empty one. */
  lemma VictimHasNone<D>(c: Cache<D>, i: nat)
    requires 0 < |c.entries| && c.hand <= |c.entries| && i < |c.entries| && c.entries[i].valid
    ensures Left(c, i) == 0 <==> i == Victim(c)
  {
    hide FirstInvalid, PastLast, Holes;
    var start := Wrap(c.hand, |c.entries|);
    VictimEmpty(c);
    HoleMet(c.entries, start);
    if Holes(c.entries) == 0 {
      AllInUse(c.entries, start);
    }
  }

  lemma NowhereElse<D>(c: Cache<D>, c': Cache<D>, op: Op<D>, i: nat)
    requires Ok(c) && i < |c.entries| == |c'.entries| && c.entries[i].valid && !op.FlushOp? && Miss(c, op)
    requires c'.entries[i].valid ==> Caches(c'.entries[i], op.dev, op.lba)
    requires forall j | 0 <= j < |c.entries| && j != i :: c'.entries[j] == c.entries[j].(dirty := c'.entries[j].dirty)
    ensures Find(c'.entries, c.entries[i].dev, c.entries[i].lba) == |c.entries|
  {
    var e := c.entries[i];
    assert !Caches(e, op.dev, op.lba);
    forall j | 0 <= j < |c.entries|
      ensures !Caches(c'.entries[j], e.dev, e.lba)
    {
      if j != i {
        assert !Caches(c.entries[j], e.dev, e.lba);
      }
    }
  }

  /** In every state a block leaves its slot at a request exactly if that misses, refused or not, and the slot has no turn left. */
  lemma EvictedExactly<D>(c: Cache<D>, op: Op<D>, i: nat)
    requires Ok(c) && Sane(c.disks, op) && i < |c.entries| && c.entries[i].valid
    ensures var c', e := Step(c, op), c.entries[i];
      && |c'.entries| == |c.entries|
      && (Miss(c, op) && Left(c, i) == 0 ==> Find(c'.entries, e.dev, e.lba) == |c.entries|)
      && (!(Miss(c, op) && Left(c, i) == 0) ==> SameBlock(c, c', i))
  {
    hide Step, Left, Victim;
    OkSizes(c);
    VictimHasNone(c, i);
    if !Miss(c, op) {
      HitKeeps(c, op);
    } else {
      if Served(c, op) {
        MissFills(c, op);
      } else {
        RefusedEmpties(c, op);
      }
      if i == Victim(c) {
        NowhereElse(c, Step(c, op), op, i);
      }
    }
  }

  // ---- the bound ----

  /** Between two empty slots, in the order in which the hand meets them, all slots are empty. */
  predicate Gapless<D>(c: Cache<D>)
    requires 0 < |c.entries| && c.hand <= |c.entries|
  {
    var start := Wrap(c.hand, |c.entries|);
    forall p, q, r | 0 <= p < q < r < |c.entries| ::
      !ValidAt(c.entries, start, p) && !ValidAt(c.entries, start, r) ==> !ValidAt(c.entries, start, q)
  }

  lemma SpanHoles<D>(t: seq<Entry<D>>, p: nat, r: nat)
    requires p <= r <= |t| && forall q | 0 <= q < |t| && !(p <= q < r) :: t[q].valid
    ensures Holes(t) == Holes(t[p..r])
  {
    hide Holes;
    assert t == t[..p] + (t[p..r] + t[r..]);
    HolesConcat(t[..p], t[p..r] + t[r..]);
    HolesConcat(t[p..r], t[r..]);
    HolesBound(t[..p]);
    HolesBound(t[r..]);
  }

  lemma SliceHoles<D>(t: seq<Entry<D>>, p: nat, r: nat)
    requires p < r <= |t| && !t[p].valid
    ensures 0 < Holes(t[p..r]) <= r - p
    ensures Holes(t[p..r]) == r - p <==> forall q | p <= q < r :: !t[q].valid
  {
    hide Holes;
    HolesBound(t[p..r]);
    assert !t[p..r][0].valid;
    assert forall q | p <= q < r :: t[q] == t[p..r][q - p];
  }

  /** Seen from `start`, the empty slots lie among the `r - p` from the first to the last, and are all of these if there is no gap. */
  lemma HolesSpan<D>(es: seq<Entry<D>>, start: nat, p: nat, r: nat)
    requires start < |es| && p == FirstInvalid(es, start, 0) < |es| && r == PastLast(es, start, |es|)
    ensures p < r && 0 < Holes(es) <= r - p
    ensures Holes(es) == r - p <==> forall q | p <= q < r :: !ValidAt(es, start, q)
  {
    hide Turned, Holes;
    FirstBeforeLast(es, start);
    var t := Turned(es, start);
    assert forall q | 0 <= q < |es| :: ValidAt(es, start, q) == t[q].valid;
    HolesTurned(es, start);
    SpanHoles(t, p, r);
    SliceHoles(t, p, r);
  }

  lemma GaplessSpan<D>(c: Cache<D>, p: nat, r: nat)
    requires 0 < |c.entries| && c.hand <= |c.entries|
    requires var start := Wrap(c.hand, |c.entries|);
      p == FirstInvalid(c.entries, start, 0) < r == PastLast(c.entries, start, |c.entries|)
    ensures Gapless(c) <==> forall q | p <= q < r :: !ValidAt(c.entries, Wrap(c.hand, |c.entries|), q)
  {
    var start := Wrap(c.hand, |c.entries|);
    assert !ValidAt(c.entries, start, p) && !ValidAt(c.entries, start, r - 1);
  }

  lemma Turns(n: nat, start: nat, p: nat, r: nat)
    requires start < n && p < r <= n
    ensures Wrap(Wrap(start + p, n) + n - Wrap(start + r, n), n) == n - (r - p)
  {
  }

  lemma NoHolesGapless<D>(c: Cache<D>)
    requires 0 < |c.entries| && c.hand <= |c.entries|
    requires FirstInvalid(c.entries, Wrap(c.hand, |c.entries|), 0) == |c.entries|
    ensures Gapless(c)
  {
  }

  /** The turns a block has when a miss brings it in: one less than there are slots, less the slots in use between empty ones. */
  lemma BroughtIn<D>(c: Cache<D>, op: Op<D>)
    requires Ok(c) && Served(c, op) && Miss(c, op)
    ensures var c', n, v := Step(c, op), |c.entries|, Victim(c);
      && |c'.entries| == n && v < n && c'.hand <= n && c'.entries[v].valid
      && Left(c', v) <= n - 1 && (Left(c', v) == n - 1 <==> Gapless(c))
  {
    hide Ok, Step, Holes, PastLast, FirstInvalid, Gapless, ValidAt;
    MissFills(c, op);
    OkSizes(c);
    OldestMoves(c, Step(c, op));
    var es, n := c.entries, |c.entries|;
    var start := Wrap(c.hand, n);
    var p, r := FirstInvalid(es, start, 0), PastLast(es, start, n);
    HoleMet(es, start);
    if p < n {
      HolesSpan(es, start, p, r);
      GaplessSpan(c, p, r);
      Turns(n, start, p, r);
    } else {
      NoHolesGapless(c);
    }
  }

  /** From any state, a block brought in by a miss stays through exactly the turns its slot then has, and the miss after those evicts it. */
  lemma StaysExactly<D>(c: Cache<D>, op: Op<D>, ops: seq<Op<D>>, last: Op<D>)
    requires Ok(c) && Served(c, op) && Miss(c, op) && AllServed(c.disks, ops) && Served(c, last)
    ensures (StepRefines(c, op);
      var c1, n, v := Step(c, op), |c.entries|, Victim(c);
      && v < n && c1.hand <= n
      && (Misses(c1, ops) <= Left(c1, v) ==> Find(Run(c1, ops).entries, op.dev, op.lba) < n)
      && (Misses(c1, ops) == Left(c1, v) && Miss(Run(c1, ops), last) ==>
            Find(Step(Run(c1, ops), last).entries, op.dev, op.lba) == n))
  {
    hide Step, Left, Victim, Gapless;
    StepRefines(c, op);
    var c1, v := Step(c, op), Victim(c);
    MissAges(c, op);
    BroughtIn(c, op);
    if Misses(c1, ops) <= Left(c1, v) {
      Survives(c1, ops, v);
      var c2 := Run(c1, ops);
      FindUnique(c2, v);
      if Misses(c1, ops) == Left(c1, v) && Miss(c2, last) {
        EvictedExactly(c2, last, v);
      }
    }
  }

  lemma SameGapless<D>(c: Cache<D>, c': Cache<D>)
    requires 0 < |c.entries| == |c'.entries| && c'.hand == c.hand <= |c.entries| && Gapless(c)
    requires forall j | 0 <= j < |c.entries| :: c'.entries[j].valid == c.entries[j].valid
    ensures Gapless(c')
  {
    var n, start := |c.entries|, Wrap(c.hand, |c.entries|);
    assert forall q | 0 <= q < n :: ValidAt(c'.entries, start, q) == ValidAt(c.entries, start, q);
  }

  /** Empty slots that are the next ones the hand meets have no gap. */
  lemma HeadGapless<D>(c: Cache<D>, m: nat)
    requires 0 < |c.entries| && c.hand <= |c.entries| && m <= |c.entries|
    requires forall q | 0 <= q < m :: !ValidAt(c.entries, Wrap(c.hand, |c.entries|), q)
    requires forall q | m <= q < |c.entries| :: ValidAt(c.entries, Wrap(c.hand, |c.entries|), q)
    ensures Gapless(c)
  {
  }

  lemma NextSpan<D>(es: seq<Entry<D>>, es': seq<Entry<D>>, start: nat, p: nat, r: nat, v: nat, start': nat)
    requires start < |es| == |es'| && p < r <= |es| && v == Wrap(start + p, |es|) && start' == Wrap(v + 1, |es|)
    requires forall j | 0 <= j < |es| && j != v :: es'[j].valid == es[j].valid
    requires forall q | p <= q < r :: !ValidAt(es, start, q)
    ensures forall q | 0 <= q < r - p - 1 :: !ValidAt(es', start', q)
  {
    forall q | 0 <= q < r - p - 1
      ensures !ValidAt(es', start', q)
    {
      assert Wrap(start' + q, |es|) == Wrap(start + (p + 1 + q), |es|) != v;
      assert !ValidAt(es, start, p + 1 + q);
    }
  }

  lemma FillKeepsGapless<D>(c: Cache<D>, c': Cache<D>)
    requires 0 < |c.entries| == |c'.entries| && c.hand <= |c.entries| && Gapless(c)
    requires var v := Victim(c);
      && v < |c.entries| && c'.hand == v + 1 && c'.entries[v].valid
      && forall j | 0 <= j < |c.entries| && j != v :: c'.entries[j].valid == c.entries[j].valid
    ensures Gapless(c')
  {
    hide Holes, PastLast, FirstInvalid, ValidAt, Gapless;
    OldestMoves(c, c');
    var es, es', n, v := c.entries, c'.entries, |c.entries|, Victim(c);
    var start, start' := Wrap(c.hand, n), Wrap(c'.hand, n);
    var p, r := FirstInvalid(es, start, 0), PastLast(es, start, n);
    HoleMet(es, start);
    HoleMet(es', start');
    if p < n {
      FirstBeforeLast(es, start);
      GaplessSpan(c, p, r);
      NextHoles(es, es', start, p, r, v, start');
      NextSpan(es, es', start, p, r, v, start');
      HeadGapless(c', r - p - 1);
    } else {
      NoHolesGapless(c');
    }
  }

  /** Requests that no device refuses open no gap. */
  lemma ServedKeepsGapless<D>(c: Cache<D>, op: Op<D>)
    requires Ok(c) && Served(c, op) && Gapless(c)
    ensures var c' := Step(c, op); |c'.entries| == |c.entries| && c'.hand <= |c'.entries| && Gapless(c')
  {
    hide Ok, Step;
    OkSizes(c);
    if Miss(c, op) {
      MissFills(c, op);
      FillKeepsGapless(c, Step(c, op));
    } else {
      HitKeeps(c, op);
      SameGapless(c, Step(c, op));
    }
  }

  lemma {:induction false} ServedRunGapless<D>(c: Cache<D>, ops: seq<Op<D>>)
    requires Ok(c) && c.hand <= |c.entries| && 0 < |c.entries| && Gapless(c) && AllServed(c.disks, ops)
    ensures Gapless(Run(c, ops))
    decreases |ops|
  {
    hide Ok, Step, Gapless;
    OkSizes(c);
    if ops != [] {
      StepRefines(c, ops[0]);
      ServedKeepsGapless(c, ops[0]);
      ServedRunGapless(Step(c, ops[0]), ops[1..]);
    }
  }

  /** A cache as it is set up: no slot in use. */
  ghost predicate Empty<D>(c: Cache<D>)
  {
    Ok(c) && forall i | 0 <= i < |c.entries| :: !c.entries[i].valid
  }

  lemma EmptyGapless<D>(c: Cache<D>)
    requires Empty(c)
    ensures 0 < |c.entries| && c.hand <= |c.entries| && Gapless(c)
  {
  }

  lemma ServedLater<D>(c: Cache<D>, c': Cache<D>, op: Op<D>, ops: seq<Op<D>>, last: Op<D>)
    requires SameShape(c, c') && Served(c, op) && AllServed(c.disks, ops) && Served(c, last)
    ensures Served(c', op) && AllServed(c'.disks, ops) && Served(c', last)
  {
  }

  /**
    In every run from an empty cache without device errors, a block brought in by a
    miss is still cached after any `n - 1` further misses, and the miss after those
    evicts it.
   */
  lemma CachedForExactly<D>(c0: Cache<D>, before: seq<Op<D>>, op: Op<D>, ops: seq<Op<D>>, last: Op<D>)
    requires Empty(c0) && AllServed(c0.disks, before) && Served(c0, op) && AllServed(c0.disks, ops) && Served(c0, last)
    requires Miss(Run(c0, before), op)
    ensures var c := Run(c0, before);
      var n := |c0.entries|;
      Sane(c.disks, op) && Ok(Step(c, op)) && AllSane(Step(c, op).disks, ops) &&
      var c1 := Step(c, op);
      var c2 := Run(c1, ops);
      && (Misses(c1, ops) <= n - 1 ==> Find(c2.entries, op.dev, op.lba) < n)
      && (Misses(c1, ops) == n - 1 && Miss(c2, last) ==>
            Sane(c2.disks, last) && Find(Step(c2, last).entries, op.dev, op.lba) == n)
  {
    hide Step, Ok, Gapless, Left, Victim, Find, Miss, Misses;
    OkSizes(c0);
    EmptyGapless(c0);
    ServedRunGapless(c0, before);
    var c := Run(c0, before);
    ServedLater(c0, c, op, ops, last);
    OkSizes(c);
    StepRefines(c, op);
    BroughtIn(c, op);
    StaysExactly(c, op, ops, last);
  }
}
