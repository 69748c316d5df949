/**
  The write-back buffer cache as a state machine on values: the entries, their
  data slices, the devices' blocks and the clock hand.  What it must agree with
  is the plain disk it speeds up.
 */
module CacheModel {
  import opened Bytes

  datatype Entry<D> = Entry(valid: bool, dirty: bool, dev: D, lba: nat)

  /** A cache of `|entries|` slots over some devices, each a sequence of blocks. */
  datatype Cache<D(==)> = Cache(entries: seq<Entry<D>>, slices: seq<seq<byte>>, disks: map<D, seq<seq<byte>>>, hand: nat)

  predicate Caches<D(==)>(e: Entry<D>, dev: D, lba: nat)
  {
    e.valid && e.dev == dev && e.lba == lba
  }

  /** The first slot from `i` on that caches a block, or the number of slots. */
  function FindFrom<D(==)>(es: seq<Entry<D>>, dev: D, lba: nat, i: nat): (r: nat)
    requires i <= |es|
    ensures i <= r <= |es|
    ensures r < |es| ==> Caches(es[r], dev, lba)
    ensures forall j | i <= j < r :: !Caches(es[j], dev, lba)
    decreases |es| - i
  {
    if i == |es| || Caches(es[i], dev, lba) then i else FindFrom(es, dev, lba, i + 1)
  }

  function Find<D(==)>(es: seq<Entry<D>>, dev: D, lba: nat): (r: nat)
    ensures r <= |es| && (r < |es| ==> Caches(es[r], dev, lba))
    ensures forall j | 0 <= j < r :: !Caches(es[j], dev, lba)
  {
    FindFrom(es, dev, lba, 0)
  }

  /** The invariant: slots and devices agree on sizes, no block is cached twice, clean slots hold their block. */
  ghost predicate Ok<D>(c: Cache<D>)
  {
    && |c.entries| == |c.slices| && 0 < |c.entries| && c.hand <= |c.entries|
    && (forall i | 0 <= i < |c.entries| && c.entries[i].valid ::
          c.entries[i].dev in c.disks && c.entries[i].lba < |c.disks[c.entries[i].dev]|)
    && (forall i, j | 0 <= i < |c.entries| && 0 <= j < |c.entries| && i != j && c.entries[i].valid ::
          !Caches(c.entries[j], c.entries[i].dev, c.entries[i].lba))
    && (forall i | 0 <= i < |c.entries| && c.entries[i].valid && !c.entries[i].dirty ::
          c.slices[i] == c.disks[c.entries[i].dev][c.entries[i].lba])
  }

  /** The block a user of the cache sees: the cached one if there is one, the device's otherwise. */
  function Logical<D(==)>(c: Cache<D>, dev: D, lba: nat): seq<byte>
    requires |c.entries| == |c.slices| && dev in c.disks && lba < |c.disks[dev]|
  {
    var i := Find(c.entries, dev, lba);
    if i < |c.entries| then c.slices[i] else c.disks[dev][lba]
  }

  /** The devices have the same blocks, and a user sees the same contents in each. */
  ghost predicate SameShape<D>(c: Cache<D>, c': Cache<D>)
  {
    c'.disks.Keys == c.disks.Keys && forall dev | dev in c.disks :: |c'.disks[dev]| == |c.disks[dev]|
  }

  ghost predicate SameLogical<D>(c: Cache<D>, c': Cache<D>)
  {
    && |c.entries| == |c.slices| && |c'.entries| == |c'.slices| && SameShape(c, c')
    && forall dev, lba | dev in c.disks && 0 <= lba < |c.disks[dev]| :: Logical(c', dev, lba) == Logical(c, dev, lba)
  }

  // ---- flushing ----

  /** Write a dirty slot back and mark it clean. */
  function Flush<D(==)>(c: Cache<D>, i: nat): Cache<D>
    requires i < |c.entries| && |c.entries| == |c.slices|
    requires c.entries[i].valid ==> c.entries[i].dev in c.disks && c.entries[i].lba < |c.disks[c.entries[i].dev]|
  {
    var e := c.entries[i];
    if !e.valid || !e.dirty then c
    else c.(entries := c.entries[i := e.(dirty := false)],
            disks := c.disks[e.dev := c.disks[e.dev][e.lba := c.slices[i]]])
  }

  /** With no block cached twice, the slot found for a block is the slot that caches it. */
  lemma FindUnique<D>(c: Cache<D>, i: nat)
    requires Ok(c) && i < |c.entries| && c.entries[i].valid
    ensures Find(c.entries, c.entries[i].dev, c.entries[i].lba) == i
  {
    var r := Find(c.entries, c.entries[i].dev, c.entries[i].lba);
    assert Caches(c.entries[i], c.entries[i].dev, c.entries[i].lba);
  }

  lemma {:induction false} FindSame<D>(es: seq<Entry<D>>, es': seq<Entry<D>>, dev: D, lba: nat, i: nat)
    requires |es'| == |es| && i <= |es|
    requires forall j | i <= j < |es| :: Caches(es[j], dev, lba) == Caches(es'[j], dev, lba)
    ensures FindFrom(es', dev, lba, i) == FindFrom(es, dev, lba, i)
    decreases |es| - i
  {
    if i < |es| {
      FindSame(es, es', dev, lba, i + 1);
    }
  }

  /** Flushing a slot changes no block a user sees. */
  lemma FlushKeeps<D>(c: Cache<D>, i: nat)
    requires Ok(c) && i < |c.entries|
    ensures var c' := Flush(c, i); Ok(c') && SameLogical(c, c') && !(c'.entries[i].valid && c'.entries[i].dirty)
  {
    var c' := Flush(c, i);
    forall dev, lba | dev in c.disks && 0 <= lba < |c.disks[dev]|
      ensures Logical(c', dev, lba) == Logical(c, dev, lba)
    {
      FindSame(c.entries, c'.entries, dev, lba, 0);
      if c.entries[i].valid {
        FindUnique(c, i);
      }
    }
    forall j, k | 0 <= j < |c.entries| && 0 <= k < |c.entries| && j != k && c'.entries[j].valid
      ensures !Caches(c'.entries[k], c'.entries[j].dev, c'.entries[j].lba)
    {
      assert !Caches(c.entries[k], c.entries[j].dev, c.entries[j].lba);
    }
    forall j | 0 <= j < |c.entries| && c'.entries[j].valid && !c'.entries[j].dirty
      ensures c'.slices[j] == c'.disks[c'.entries[j].dev][c'.entries[j].lba]
    {
      if j != i && c.entries[i].valid {
        assert !Caches(c.entries[i], c.entries[j].dev, c.entries[j].lba);
      }
    }
  }

  predicate Flushable<D(==)>(c: Cache<D>)
  {
    && |c.entries| == |c.slices|
    && forall i | 0 <= i < |c.entries| && c.entries[i].valid ::
         c.entries[i].dev in c.disks && c.entries[i].lba < |c.disks[c.entries[i].dev]|
  }

  /** Flush the slots from `i` on. */
  function FlushFrom<D(==)>(c: Cache<D>, i: nat): Cache<D>
    requires i <= |c.entries| && Flushable(c)
    decreases |c.entries| - i
  {
    if i == |c.entries| then c else FlushFrom(Flush(c, i), i + 1)
  }

  lemma {:induction false} FlushFromSyncs<D>(c: Cache<D>, i: nat)
    requires Ok(c) && i <= |c.entries|
    requires forall j | 0 <= j < i :: !(c.entries[j].valid && c.entries[j].dirty)
    ensures var c' := FlushFrom(c, i);
      && Ok(c') && SameLogical(c, c') && |c'.entries| == |c.entries|
      && forall j | 0 <= j < |c'.entries| :: !(c'.entries[j].valid && c'.entries[j].dirty)
    decreases |c.entries| - i
  {
    if i < |c.entries| {
      FlushKeeps(c, i);
      FlushFromSyncs(Flush(c, i), i + 1);
    }
  }

  /** After a flush of all slots the devices hold exactly what a user sees, and that has not changed. */
  lemma FlushAllSyncs<D>(c: Cache<D>)
    requires Ok(c)
    ensures var c' := FlushFrom(c, 0);
      && Ok(c') && SameLogical(c, c')
      && (forall j | 0 <= j < |c'.entries| :: !(c'.entries[j].valid && c'.entries[j].dirty))
      && forall dev, lba | dev in c'.disks && 0 <= lba < |c'.disks[dev]| :: c'.disks[dev][lba] == Logical(c, dev, lba)
  {
    FlushFromSyncs(c, 0);
    var c' := FlushFrom(c, 0);
    forall dev, lba | dev in c'.disks && 0 <= lba < |c'.disks[dev]|
      ensures c'.disks[dev][lba] == Logical(c, dev, lba)
    {
      assert Logical(c', dev, lba) == Logical(c, dev, lba);
    }
  }

  // ---- victims ----

  /** Reduction of an index below `2 * n`; the code writes it with `%`. */
  function Wrap(x: nat, n: nat): (r: nat)
    requires x < 2 * n
    ensures r < n
  {
    if x < n then x else x - n
  }

  lemma WrapIsMod(x: nat, n: nat)
    requires x < 2 * n
    ensures Wrap(x, n) == x % n
  {
  }

  predicate ValidAt<D>(es: seq<Entry<D>>, start: nat, pass: nat)
    requires start < |es| && pass < |es|
  {
    es[Wrap(start + pass, |es|)].valid
  }

  /** The number of slots after `start`, wrapping, before the first invalid one; the number of slots if all are valid. */
  function FirstInvalid<D>(es: seq<Entry<D>>, start: nat, pass: nat): (p: nat)
    requires start < |es| && pass <= |es|
    ensures pass <= p <= |es|
    ensures p < |es| ==> !ValidAt(es, start, p)
    ensures forall q | pass <= q < p :: ValidAt(es, start, q)
    decreases |es| - pass
  {
    if pass == |es| || !ValidAt(es, start, pass) then pass else FirstInvalid(es, start, pass + 1)
  }

  /** The slot to reuse: the first invalid one from the hand on, else the one under the hand, written back first. */
  function SelectVictim<D(==)>(c: Cache<D>): (r: (Cache<D>, nat))
    requires Flushable(c) && 0 < |c.entries| && c.hand <= |c.entries|
    ensures r.1 < |c.entries| && |r.0.entries| == |c.entries| && |r.0.slices| == |c.slices|
    ensures r.0.hand == r.1 + 1
  {
    var n := |c.entries|;
    var start := Wrap(c.hand, n);
    var p := FirstInvalid(c.entries, start, 0);
    if p < n then
      var i := Wrap(start + p, n);
      (c.(hand := i + 1), i)
    else
      (Flush(c, start).(hand := start + 1), start)
  }

  lemma HandKeeps<D>(c: Cache<D>, h: nat)
    requires Ok(c) && h <= |c.entries|
    ensures Ok(c.(hand := h)) && SameLogical(c, c.(hand := h))
  {
  }

  lemma SelectVictimKeeps<D>(c: Cache<D>)
    requires Ok(c)
    ensures var (c', i) := SelectVictim(c);
      && Ok(c') && SameLogical(c, c') && !(c'.entries[i].valid && c'.entries[i].dirty)
      && (forall j | 0 <= j < |c.entries| :: c'.entries[j] == c.entries[j].(dirty := c'.entries[j].dirty))
  {
    var start := Wrap(c.hand, |c.entries|);
    if FirstInvalid(c.entries, start, 0) == |c.entries| {
      FlushKeeps(c, start);
      HandKeeps(Flush(c, start), start + 1);
    } else {
      HandKeeps(c, SelectVictim(c).1 + 1);
    }
  }

  /** A clean slot given to another block. */
  function Fill<D>(c: Cache<D>, i: nat, e: Entry<D>, data: seq<byte>): Cache<D>
    requires i < |c.entries| && i < |c.slices|
  {
    c.(entries := c.entries[i := e], slices := c.slices[i := data])
  }

  lemma FillOk<D>(c: Cache<D>, i: nat, dev: D, lba: nat, dirty: bool, data: seq<byte>)
    requires Ok(c) && i < |c.entries| && dev in c.disks && lba < |c.disks[dev]|
    requires Find(c.entries, dev, lba) == |c.entries|
    requires dirty || data == c.disks[dev][lba]
    ensures Ok(Fill(c, i, Entry(true, dirty, dev, lba), data))
  {
    var c' := Fill(c, i, Entry(true, dirty, dev, lba), data);
    forall j, k | 0 <= j < |c.entries| && 0 <= k < |c.entries| && j != k && c'.entries[j].valid
      ensures !Caches(c'.entries[k], c'.entries[j].dev, c'.entries[j].lba)
    {
      if k != i && j != i {
        assert !Caches(c.entries[k], c.entries[j].dev, c.entries[j].lba);
      } else if j == i {
        assert !Caches(c.entries[k], dev, lba);
      } else {
        assert !Caches(c.entries[j], dev, lba);
      }
    }
  }

  /** A block other than the one filled in reads as before, wherever it is. */
  lemma FillElsewhere<D>(c: Cache<D>, i: nat, e: Entry<D>, data: seq<byte>, dev: D, lba: nat)
    requires Ok(c) && i < |c.entries| && !(c.entries[i].valid && c.entries[i].dirty)
    requires dev in c.disks && lba < |c.disks[dev]| && !Caches(e, dev, lba)
    ensures Logical(Fill(c, i, e, data), dev, lba) == Logical(c, dev, lba)
  {
    var c' := Fill(c, i, e, data);
    var r := Find(c.entries, dev, lba);
    if r == i {
      forall j | 0 <= j < |c.entries|
        ensures !Caches(c'.entries[j], dev, lba)
      {
        if j != i {
          assert !Caches(c.entries[j], c.entries[i].dev, c.entries[i].lba);
        }
      }
      assert Find(c'.entries, dev, lba) == |c.entries|;
    } else {
      if r < i {
        assert !Caches(c.entries[i], c.entries[r].dev, c.entries[r].lba);
      }
      FindSame(c.entries, c'.entries, dev, lba, 0);
    }
  }

  lemma FillHere<D>(c: Cache<D>, i: nat, dev: D, lba: nat, dirty: bool, data: seq<byte>)
    requires |c.entries| == |c.slices| && i < |c.entries| && dev in c.disks && lba < |c.disks[dev]|
    requires Find(c.entries, dev, lba) == |c.entries|
    ensures Logical(Fill(c, i, Entry(true, dirty, dev, lba), data), dev, lba) == data
  {
    var c' := Fill(c, i, Entry(true, dirty, dev, lba), data);
    assert Caches(c'.entries[i], dev, lba);
    forall j | 0 <= j < |c.entries| && j != i
      ensures !Caches(c'.entries[j], dev, lba)
    {
      assert !Caches(c.entries[j], dev, lba);
    }
  }

  // ---- the operations ----

  function BlockOf<D(==)>(c: Cache<D>, dev: D, lba: nat): seq<byte>
  {
    if dev in c.disks && lba < |c.disks[dev]| then c.disks[dev][lba] else []
  }

  /** A read request; a block that is not cached is brought in first, and an unreadable one leaves its slot empty. */
  function ReadStep<D(==)>(c: Cache<D>, dev: D, lba: nat): (c': Cache<D>)
    requires Flushable(c) && 0 < |c.entries| && c.hand <= |c.entries| && dev in c.disks
  {
    if Find(c.entries, dev, lba) < |c.entries| then c
    else
      var (v, i) := SelectVictim(c);
      if lba < |c.disks[dev]| then Fill(v, i, Entry(true, false, dev, lba), BlockOf(v, dev, lba))
      else Fill(v, i, v.entries[i].(valid := false), v.slices[i])
  }

  /** A write request: the slot's contents are replaced and the slot becomes dirty. */
  function WriteStep<D(==)>(c: Cache<D>, dev: D, lba: nat, data: seq<byte>): (c': Cache<D>)
    requires Flushable(c) && 0 < |c.entries| && c.hand <= |c.entries|
  {
    var r := Find(c.entries, dev, lba);
    if r < |c.entries| then Fill(c, r, c.entries[r].(dirty := true), data)
    else
      var (v, i) := SelectVictim(c);
      Fill(v, i, Entry(true, true, dev, lba), data)
  }

  lemma OkSizes<D>(c: Cache<D>)
    requires Ok(c)
    ensures |c.entries| == |c.slices| && Flushable(c) && 0 < |c.entries| && c.hand <= |c.entries|
  {
  }

  lemma UncachedLogical<D>(c: Cache<D>, dev: D, lba: nat)
    requires |c.entries| == |c.slices| && dev in c.disks && lba < |c.disks[dev]| && Find(c.entries, dev, lba) == |c.entries|
    ensures Logical(c, dev, lba) == c.disks[dev][lba]
  {
  }

  lemma ReadFill<D>(c: Cache<D>, i: nat, dev: D, lba: nat)
    requires Ok(c) && i < |c.entries| && !(c.entries[i].valid && c.entries[i].dirty)
    requires dev in c.disks && lba < |c.disks[dev]| && Find(c.entries, dev, lba) == |c.entries|
    ensures var c' := Fill(c, i, Entry(true, false, dev, lba), c.disks[dev][lba]);
      Ok(c') && SameLogical(c, c') && Find(c'.entries, dev, lba) == i
  {
    hide Ok, Logical;
    OkSizes(c);
    var e, data := Entry(true, false, dev, lba), c.disks[dev][lba];
    var c' := Fill(c, i, e, data);
    FillOk(c, i, dev, lba, false, data);
    forall d, l | d in c.disks && 0 <= l < |c.disks[d]|
      ensures Logical(c', d, l) == Logical(c, d, l)
    {
      if Caches(e, d, l) {
        FillHere(c, i, dev, lba, false, data);
        UncachedLogical(c, dev, lba);
      } else {
        FillElsewhere(c, i, e, data, d, l);
      }
    }
    FindUnique(c', i);
  }

  lemma InvalidateKeeps<D>(c: Cache<D>, i: nat)
    requires Ok(c) && i < |c.entries| && !(c.entries[i].valid && c.entries[i].dirty)
    ensures var c' := Fill(c, i, c.entries[i].(valid := false), c.slices[i]); Ok(c') && SameLogical(c, c')
  {
    var e := c.entries[i].(valid := false);
    var c' := Fill(c, i, e, c.slices[i]);
    assert Ok(c') by {
      forall j, k | 0 <= j < |c.entries| && 0 <= k < |c.entries| && j != k && c'.entries[j].valid
        ensures !Caches(c'.entries[k], c'.entries[j].dev, c'.entries[j].lba)
      {
        assert !Caches(c.entries[k], c.entries[j].dev, c.entries[j].lba);
      }
    }
    forall d, l | d in c.disks && 0 <= l < |c.disks[d]|
      ensures Logical(c', d, l) == Logical(c, d, l)
    {
      FillElsewhere(c, i, e, c.slices[i], d, l);
    }
  }

  /** A read changes no block a user sees and returns the one asked for. */
  lemma ReadKeeps<D>(c: Cache<D>, dev: D, lba: nat)
    requires Ok(c) && dev in c.disks
    ensures var c' := ReadStep(c, dev, lba);
      && Ok(c') && SameLogical(c, c')
      && (lba < |c.disks[dev]| ==>
            var r := Find(c'.entries, dev, lba); r < |c'.entries| && c'.slices[r] == Logical(c, dev, lba))
  {
    hide Flush;
    if Find(c.entries, dev, lba) == |c.entries| {
      var (v, i) := SelectVictim(c);
      SelectVictimKeeps(c);
      FindSame(c.entries, v.entries, dev, lba, 0);
      if lba < |c.disks[dev]| {
        ReadFill(v, i, dev, lba);
        assert Logical(v, dev, lba) == Logical(c, dev, lba);
      } else {
        InvalidateKeeps(v, i);
      }
    }
  }

  lemma WriteHit<D>(c: Cache<D>, r: nat, data: seq<byte>)
    requires Ok(c) && r < |c.entries| && c.entries[r].valid
    ensures var c' := Fill(c, r, c.entries[r].(dirty := true), data);
      && Ok(c') && Logical(c', c.entries[r].dev, c.entries[r].lba) == data
      && forall d, l | d in c.disks && 0 <= l < |c.disks[d]| && !(d == c.entries[r].dev && l == c.entries[r].lba) ::
           Logical(c', d, l) == Logical(c, d, l)
  {
    var c' := Fill(c, r, c.entries[r].(dirty := true), data);
    assert Ok(c') by {
      forall j, k | 0 <= j < |c.entries| && 0 <= k < |c.entries| && j != k && c'.entries[j].valid
        ensures !Caches(c'.entries[k], c'.entries[j].dev, c'.entries[j].lba)
      {
        assert !Caches(c.entries[k], c.entries[j].dev, c.entries[j].lba);
      }
    }
    FindUnique(c', r);
    forall d, l | d in c.disks && 0 <= l < |c.disks[d]| && !(d == c.entries[r].dev && l == c.entries[r].lba)
      ensures Logical(c', d, l) == Logical(c, d, l)
    {
      FindSame(c.entries, c'.entries, d, l, 0);
    }
  }

  /** After a write the block written reads as its data, and every other block of every device as before. */
  lemma WriteKeeps<D>(c: Cache<D>, dev: D, lba: nat, data: seq<byte>)
    requires Ok(c) && dev in c.disks && lba < |c.disks[dev]|
    ensures var c' := WriteStep(c, dev, lba, data);
      && Ok(c') && SameShape(c, c') && Logical(c', dev, lba) == data
      && forall d, l | d in c.disks && 0 <= l < |c.disks[d]| && !(d == dev && l == lba) ::
           Logical(c', d, l) == Logical(c, d, l)
  {
    hide Flush;
    var c', r := WriteStep(c, dev, lba, data), Find(c.entries, dev, lba);
    if r < |c.entries| {
      WriteHit(c, r, data);
    } else {
      var (v, i) := SelectVictim(c);
      SelectVictimKeeps(c);
      FindSame(c.entries, v.entries, dev, lba, 0);
      FillOk(v, i, dev, lba, true, data);
      FillHere(v, i, dev, lba, true, data);
      forall d, l | d in c.disks && 0 <= l < |c.disks[d]| && !(d == dev && l == lba)
        ensures Logical(c', d, l) == Logical(c, d, l)
      {
        assert Logical(v, d, l) == Logical(c, d, l);
        FillElsewhere(v, i, Entry(true, true, dev, lba), data, d, l);
      }
    }
  }
}
