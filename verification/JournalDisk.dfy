/**
  The block device under MCSFS1J: 128 blocks of 512 bytes, with a fault counter
  that makes every write after the first `failAfter` ones fail.  An operation is
  specified by its plan, the list of block writes it would issue and the code it
  would return; a run under a fault counter issues a prefix of that list.
 */
module JournalDisk {
  import opened Bytes

  const MAX_BLOCKS: nat := 128

  const OK: int := 0
  const E_INVAL: int := -1
  const E_IO: int := -2
  const E_NOSPC: int := -3
  const E_EXISTS: int := -4
  const E_NOENT: int := -5
  const E_CORRUPT: int := -6
  const E_TOOLONG: int := -7

  type Disk = d: seq<Block> | |d| == MAX_BLOCKS witness seq<Block>(MAX_BLOCKS, _ => ZERO_BLOCK)
  type Lba = n: nat | n < MAX_BLOCKS

  datatype Write = Write(lba: Lba, data: Block)

  datatype Plan = Plan(writes: seq<Write>, rc: int)

  /** The disk after a list of writes. */
  function Apply(d: Disk, ws: seq<Write>): Disk
  {
    if ws == [] then d
    else
      var w := ws[|ws| - 1];
      Apply(d, ws[..|ws| - 1])[w.lba := w.data]
  }

  ghost predicate Targets(ws: seq<Write>, lba: Lba)
  {
    exists i | 0 <= i < |ws| :: ws[i].lba == lba
  }

  lemma {:induction false} ApplyConcat(d: Disk, ws: seq<Write>, vs: seq<Write>)
    ensures Apply(d, ws + vs) == Apply(Apply(d, ws), vs)
    decreases |vs|
  {
    if vs == [] {
      assert ws + vs == ws;
    } else {
      assert (ws + vs)[..|ws + vs| - 1] == ws + vs[..|vs| - 1];
      ApplyConcat(d, ws, vs[..|vs| - 1]);
    }
  }

  lemma ApplyOne(d: Disk, w: Write)
    ensures Apply(d, [w]) == d[w.lba := w.data]
  {
    assert [w][..0] == [];
  }

  lemma ApplySnoc(d: Disk, ws: seq<Write>, w: Write)
    ensures Apply(d, ws + [w]) == Apply(d, ws)[w.lba := w.data]
  {
    assert (ws + [w])[..|ws|] == ws;
  }

  /** A block no write names keeps its contents. */
  lemma {:induction false} ApplyFrame(d: Disk, ws: seq<Write>, lba: Lba)
    requires !Targets(ws, lba)
    ensures Apply(d, ws)[lba] == d[lba]
    decreases |ws|
  {
    if ws != [] {
      var vs := ws[..|ws| - 1];
      assert forall i | 0 <= i < |vs| :: vs[i] == ws[i];
      ApplyFrame(d, vs, lba);
      assert ws[|ws| - 1].lba != lba;
    }
  }

  /** A block some write names ends up with contents that do not depend on the starting disk. */
  lemma {:induction false} ApplyDetermined(d: Disk, e: Disk, ws: seq<Write>, lba: Lba)
    requires Targets(ws, lba) || d[lba] == e[lba]
    ensures Apply(d, ws)[lba] == Apply(e, ws)[lba]
    decreases |ws|
  {
    if ws != [] {
      var vs, w := ws[..|ws| - 1], ws[|ws| - 1];
      if w.lba != lba {
        if Targets(ws, lba) {
          var i :| 0 <= i < |ws| && ws[i].lba == lba;
          assert vs[i].lba == lba;
        }
        ApplyDetermined(d, e, vs, lba);
      }
    }
  }

  /** A block holds what the last write to it stored. */
  lemma {:induction false} ApplyAt(d: Disk, ws: seq<Write>, i: nat)
    requires i < |ws|
    requires forall j | i < j < |ws| :: ws[j].lba != ws[i].lba
    ensures Apply(d, ws)[ws[i].lba] == ws[i].data
    decreases |ws|
  {
    if i < |ws| - 1 {
      ApplyAt(d, ws[..|ws| - 1], i);
    }
  }

  /** Redoing a list of writes after any prefix of it gives what doing it once gives. */
  lemma Redo(d: Disk, ws: seq<Write>, j: nat)
    requires j <= |ws|
    ensures Apply(Apply(d, ws[..j]), ws) == Apply(d, ws)
  {
    var e := Apply(d, ws[..j]);
    forall lba: Lba
      ensures Apply(e, ws)[lba] == Apply(d, ws)[lba]
    {
      if !Targets(ws, lba) {
        assert forall i | 0 <= i < j :: ws[..j][i] == ws[i];
        ApplyFrame(d, ws[..j], lba);
      }
      ApplyDetermined(e, d, ws, lba);
    }
  }

  /** How many of `n` writes get through. */
  function Passed(failAfter: int, n: nat): (k: nat)
    ensures k <= n
  {
    if failAfter < 0 || n <= failAfter then n else failAfter
  }

  /**
    What a run of a plan under a fault counter leaves: a prefix of the writes, the
    plan's code if that prefix is everything and an I/O error otherwise.
   */
  ghost predicate Ran(p: Plan, d: Disk, failAfter: int, d': Disk, failAfter': int, rc: int)
  {
    var k := Passed(failAfter, |p.writes|);
    && d' == Apply(d, p.writes[..k])
    && failAfter' == (if failAfter < 0 then failAfter else failAfter - k)
    && rc == (if k == |p.writes| then p.rc else E_IO)
  }

  /** A plan followed by another one that starts where the first has succeeded. */
  function Then(p: Plan, q: Plan): Plan
  {
    if p.rc != OK then p else Plan(p.writes + q.writes, q.rc)
  }

  /** A run that has issued `done` of a plan's writes and still has `rest` to do. */
  ghost predicate Underway(p: Plan, d0: Disk, fa0: int, done: seq<Write>, rest: Plan, d: Disk, fa: int)
  {
    && p == Plan(done + rest.writes, rest.rc)
    && d == Apply(d0, done)
    && (fa0 < 0 || |done| <= fa0)
    && fa == (if fa0 < 0 then fa0 else fa0 - |done|)
  }

  lemma Begin(p: Plan, d: Disk, fa: int)
    ensures Underway(p, d, fa, [], p, d, fa)
  {
    assert [] + p.writes == p.writes;
  }

  /** The next part of a plan: either it succeeds and the run stays underway, or the run ends there. */
  lemma Advance(p: Plan, d0: Disk, fa0: int, done: seq<Write>, q: Plan, rest: Plan, d: Disk, fa: int,
                d': Disk, fa': int, rc: int)
    requires Underway(p, d0, fa0, done, Then(q, rest), d, fa)
    requires Ran(q, d, fa, d', fa', rc)
    ensures rc == OK ==> Underway(p, d0, fa0, done + q.writes, rest, d', fa')
    ensures rc != OK ==> Ran(p, d0, fa0, d', fa', rc)
  {
    var k := Passed(fa, |q.writes|);
    ApplyConcat(d0, done, q.writes[..k]);
    assert p.writes[..|done| + k] == done + q.writes[..k];
    if k == |q.writes| {
      assert q.writes[..k] == q.writes;
      if q.rc == OK {
        assert done + (q.writes + rest.writes) == done + q.writes + rest.writes;
      }
    }
  }

  lemma RanAll(q: Plan, d: Disk, fa: int, d': Disk, fa': int, rc: int)
    requires Ran(q, d, fa, d', fa', rc) && rc == OK
    ensures d' == Apply(d, q.writes) && q.rc == OK
  {
    assert q.writes[..|q.writes|] == q.writes;
  }

  /** The last part of a plan ends the run, whatever its code. */
  lemma AdvanceLast(p: Plan, d0: Disk, fa0: int, done: seq<Write>, q: Plan, d: Disk, fa: int,
                    d': Disk, fa': int, rc: int)
    requires Underway(p, d0, fa0, done, q, d, fa)
    requires Ran(q, d, fa, d', fa', rc)
    ensures Ran(p, d0, fa0, d', fa', rc)
  {
    var k := Passed(fa, |q.writes|);
    ApplyConcat(d0, done, q.writes[..k]);
    assert p.writes[..|done| + k] == done + q.writes[..k];
  }

  lemma ThenDone(q: Plan)
    requires q.rc == OK
    ensures Then(q, Plan([], OK)) == q
  {
    assert q.writes + [] == q.writes;
  }

  /** A run with nothing left to write has run its plan. */
  lemma Finish(p: Plan, d0: Disk, fa0: int, done: seq<Write>, rest: Plan, d: Disk, fa: int)
    requires Underway(p, d0, fa0, done, rest, d, fa)
    requires rest.writes == []
    ensures Ran(p, d0, fa0, d, fa, rest.rc)
  {
    assert p.writes == done;
    assert p.writes[..|done|] == done;
  }

  /** A run that has issued the first `m` writes of a plan. */
  ghost predicate At(p: Plan, m: nat, d0: Disk, fa0: int, d: Disk, fa: int)
  {
    && m <= |p.writes|
    && d == Apply(d0, p.writes[..m])
    && (fa0 < 0 || m <= fa0)
    && fa == (if fa0 < 0 then fa0 else fa0 - m)
  }

  /** The next write of a plan: either it goes through, or the run ends there. */
  lemma Go(p: Plan, m: nat, d0: Disk, fa0: int, d: Disk, fa: int, d': Disk, fa': int, rc: int)
    requires At(p, m, d0, fa0, d, fa) && m < |p.writes|
    requires Ran(Plan([p.writes[m]], OK), d, fa, d', fa', rc)
    ensures rc == OK ==> At(p, m + 1, d0, fa0, d', fa')
    ensures rc != OK ==> Ran(p, d0, fa0, d', fa', rc)
  {
    var w := p.writes[m];
    ApplyOne(d, w);
    ApplySnoc(d0, p.writes[..m], w);
    assert p.writes[..m + 1] == p.writes[..m] + [w];
    assert [w][..1] == [w] && [w][..0] == [];
  }

  class Device {
    const blocks: array<Block>
    var writes: nat
    var failAfter: int

    ghost predicate Valid()
      reads this
    {
      blocks.Length == MAX_BLOCKS
    }

    ghost function Contents(): (d: Disk)
      requires Valid()
      reads this, blocks
    {
      blocks[..]
    }

    constructor ()
      ensures Valid() && fresh(blocks)
      ensures forall lba: Lba :: Contents()[lba] == ZERO_BLOCK
      ensures failAfter == -1 && writes == 0
    {
      blocks := new Block[MAX_BLOCKS](_ => ZERO_BLOCK);
      writes := 0;
      failAfter := -1;
    }

    method ReadBlock(lba: nat) returns (rc: int, data: Block)
      requires Valid()
      ensures rc == (if lba < MAX_BLOCKS then OK else E_INVAL)
      ensures rc == OK ==> data == Contents()[lba]
    {
      if lba >= MAX_BLOCKS {
        return E_INVAL, ZERO_BLOCK;
      }
      return OK, blocks[lba];
    }

    method WriteBlock(lba: nat, data: Block) returns (rc: int)
      requires Valid()
      modifies this`writes, this`failAfter, blocks
      ensures Valid()
      ensures lba >= MAX_BLOCKS ==>
        rc == E_INVAL && Contents() == old(Contents()) && failAfter == old(failAfter) && writes == old(writes)
      ensures lba < MAX_BLOCKS ==>
        && Ran(Plan([Write(lba, data)], OK), old(Contents()), old(failAfter), Contents(), failAfter, rc)
        && writes == old(writes) + (if rc == OK then 1 else 0)
        && (rc == OK ==> Contents() == old(Contents())[lba := data])
        && (old(failAfter) < 0 ==> rc == OK)
    {
      if lba >= MAX_BLOCKS {
        return E_INVAL;
      }
      ApplyOne(blocks[..], Write(lba, data));
      if failAfter == 0 {
        return E_IO;
      }
      if failAfter > 0 {
        failAfter := failAfter - 1;
      }
      blocks[lba] := data;
      writes := writes + 1;
      return OK;
    }
  
    /** Issue write `m` of a plan that is being run. */
    method Issue(lba: Lba, data: Block, ghost p: Plan, ghost m: nat, ghost d0: Disk, ghost fa0: int) returns (rc: int)
      requires Valid() && At(p, m, d0, fa0, Contents(), failAfter)
      requires m < |p.writes| && p.writes[m] == Write(lba, data)
      modifies this`writes, this`failAfter, blocks
      ensures Valid()
      ensures rc == OK ==> At(p, m + 1, d0, fa0, Contents(), failAfter)
      ensures rc != OK ==> Ran(p, d0, fa0, Contents(), failAfter, rc)
    {
      ghost var d, fa := Contents(), failAfter;
      rc := WriteBlock(lba, data);
      Go(p, m, d0, fa0, d, fa, Contents(), failAfter, rc);
    }
  }
}
