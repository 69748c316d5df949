/**
  The kernel heap as the program keeps it: headers in memory, linked both ways
  and marked with a magic number.  Each operation is proved to act on the list of
  blocks as the heap model says.  Address 0 is the null pointer.
 */
module Kmem {
  import opened Bytes
  import opened KmemModel

  const MAGIC: nat := 0x4d43534f53484541
  const GUARD: nat := 1048576

  datatype Header = Header(magic: nat, size: nat, free: bool, prev: nat, next: nat)
  datatype Stats = Stats(total: nat, used: nat, free: nat, blocks: nat, freeBlocks: nat, largest: nat)

  type Memory = map<nat, Header>

  /** The header that block `i` of the list has in memory. */
  function HeaderOf(bs: seq<Blk>, i: nat): Header
    requires i < |bs|
  {
    Header(MAGIC, bs[i].size, bs[i].free,
      if i == 0 then 0 else bs[i - 1].addr,
      if i + 1 < |bs| then bs[i + 1].addr else 0)
  }

  ghost predicate LinkedAt(mem: Memory, bs: seq<Blk>, i: nat)
    requires i < |bs|
  {
    bs[i].addr in mem && mem[bs[i].addr] == HeaderOf(bs, i)
  }

  ghost predicate Linked(mem: Memory, bs: seq<Blk>)
  {
    forall i: nat | i < |bs| :: LinkedAt(mem, bs, i)
  }

  ghost predicate Tiled(bs: seq<Blk>, lo: nat, hi: nat)
  {
    0 < lo && lo % ALIGN == 0 && Tiles(bs, lo, hi)
  }

  lemma Apart(bs: seq<Blk>, i: nat, j: nat, lo: nat, hi: nat)
    requires Tiled(bs, lo, hi) && i < j < |bs|
    ensures 0 < bs[i].addr && bs[i].End() <= bs[j].addr
  {
    TilesFacts(bs, lo, hi);
  }

  ghost predicate IsBlock(bs: seq<Blk>, a: nat)
  {
    exists i :: 0 <= i < |bs| && bs[i].addr == a
  }

  predicate Marked(mem: Memory, a: nat)
  {
    a in mem && mem[a].magic == MAGIC
  }

  /** Inside the arena only the blocks of the list carry the magic number. */
  ghost predicate Clean(mem: Memory, bs: seq<Blk>, lo: nat, hi: nat)
  {
    forall a | lo <= a < hi && Marked(mem, a) :: IsBlock(bs, a)
  }

  // ---- the steps on memory ----

  function SplitAt(bs: seq<Blk>, i: nat, wanted: nat): seq<Blk>
    requires i < |bs| && Splits(bs[i].size, wanted)
  {
    bs[..i] + [bs[i].(size := wanted), Blk(bs[i].addr + HEADER + wanted, bs[i].size - wanted - HEADER, true)] + bs[i + 1..]
  }

  function SetPrev(mem: Memory, a: nat, prev: nat): Memory
    requires a != 0 ==> a in mem
  {
    if a == 0 then mem else mem[a := mem[a].(prev := prev)]
  }

  function SplitMem(mem: Memory, a: nat, wanted: nat): Memory
    requires a in mem && mem[a].size >= wanted + HEADER && (mem[a].next != 0 ==> mem[a].next in mem)
  {
    var n := a + HEADER + wanted;
    var h := mem[a];
    var m1 := SetPrev(mem[n := Header(MAGIC, h.size - wanted - HEADER, true, a, h.next)], h.next, n);
    m1[a := h.(next := n, size := wanted)]
  }

  function MergeMem(mem: Memory, a: nat): Memory
    requires a in mem && mem[a].next in mem && (mem[mem[a].next].next != 0 ==> mem[mem[a].next].next in mem)
  {
    var n := mem[a].next;
    var m1 := mem[a := mem[a].(size := mem[a].size + HEADER + mem[n].size, next := mem[n].next)];
    var m2 := SetPrev(m1, mem[n].next, a);
    m2[n := Header(0, 0, mem[n].free, 0, 0)]
  }

  /** The neighbours that the header of a block names are there. */
  lemma Neighbours(mem: Memory, bs: seq<Blk>, i: nat, lo: nat, hi: nat)
    requires Tiled(bs, lo, hi) && Linked(mem, bs) && i < |bs|
    ensures LinkedAt(mem, bs, i) && 0 < bs[i].addr
    ensures mem[bs[i].addr].next == 0 <==> i + 1 == |bs|
    ensures i + 1 < |bs| ==> mem[bs[i].addr].next == bs[i + 1].addr && LinkedAt(mem, bs, i + 1) && bs[i].End() == bs[i + 1].addr
    ensures mem[bs[i].addr].prev == 0 <==> i == 0
    ensures i > 0 ==> mem[bs[i].addr].prev == bs[i - 1].addr && LinkedAt(mem, bs, i - 1)
  {
    hide Tiles;
    assert LinkedAt(mem, bs, i);
    if i + 1 < |bs| {
      Apart(bs, i, i + 1, lo, hi);
      NextStarts(bs, i, lo, hi);
      assert LinkedAt(mem, bs, i + 1);
    }
    if i > 0 {
      Apart(bs, i - 1, i, lo, hi);
      assert LinkedAt(mem, bs, i - 1);
    } else {
      BlockFacts(bs, i, lo, hi);
    }
  }

  lemma SplitLinked(mem: Memory, bs: seq<Blk>, i: nat, wanted: nat, lo: nat, hi: nat)
    requires Tiled(bs, lo, hi) && Linked(mem, bs) && i < |bs| && Splits(bs[i].size, wanted)
    ensures LinkedAt(mem, bs, i) && (mem[bs[i].addr].next != 0 ==> mem[bs[i].addr].next in mem)
    ensures Linked(SplitMem(mem, bs[i].addr, wanted), SplitAt(bs, i, wanted))
  {
    hide Tiled;
    Neighbours(mem, bs, i, lo, hi);
    var bs' := SplitAt(bs, i, wanted);
    var mem' := SplitMem(mem, bs[i].addr, wanted);
    forall j: nat | j < |bs'|
      ensures LinkedAt(mem', bs', j)
    {
      if j < i {
        Apart(bs, j, i, lo, hi);
        if i + 1 < |bs| {
          Apart(bs, j, i + 1, lo, hi);
        }
        assert LinkedAt(mem, bs, j);
      } else if j > i + 1 {
        Apart(bs, i, j - 1, lo, hi);
        if j > i + 2 {
          Apart(bs, i + 1, j - 1, lo, hi);
        }
        assert LinkedAt(mem, bs, j - 1);
      }
    }
  }

  lemma MergeLinked(mem: Memory, bs: seq<Blk>, i: nat, lo: nat, hi: nat)
    requires Tiled(bs, lo, hi) && Linked(mem, bs) && i + 1 < |bs|
    ensures LinkedAt(mem, bs, i) && LinkedAt(mem, bs, i + 1)
    ensures var n := mem[bs[i].addr].next; n in mem && (mem[n].next != 0 ==> mem[n].next in mem)
    ensures Linked(MergeMem(mem, bs[i].addr), MergeAt(bs, i))
  {
    hide Tiled;
    Neighbours(mem, bs, i, lo, hi);
    Neighbours(mem, bs, i + 1, lo, hi);
    var bs' := MergeAt(bs, i);
    var mem' := MergeMem(mem, bs[i].addr);
    forall j: nat | j < |bs'|
      ensures LinkedAt(mem', bs', j)
    {
      if j < i {
        Apart(bs, j, i, lo, hi);
        Apart(bs, j, i + 1, lo, hi);
        if i + 2 < |bs| {
          Apart(bs, j, i + 2, lo, hi);
        }
        assert LinkedAt(mem, bs, j);
      } else if j > i {
        Apart(bs, i, j + 1, lo, hi);
        Apart(bs, i + 1, j + 1, lo, hi);
        if j > i + 1 {
          Apart(bs, i + 2, j + 1, lo, hi);
        }
        assert LinkedAt(mem, bs, j + 1);
      }
    }
  }

  lemma SplitClean(mem: Memory, bs: seq<Blk>, i: nat, wanted: nat, lo: nat, hi: nat)
    requires Clean(mem, bs, lo, hi) && i < |bs| && LinkedAt(mem, bs, i) && Splits(bs[i].size, wanted)
    requires mem[bs[i].addr].next != 0 ==> mem[bs[i].addr].next in mem
    ensures Clean(SplitMem(mem, bs[i].addr, wanted), SplitAt(bs, i, wanted), lo, hi)
  {
    var bs' := SplitAt(bs, i, wanted);
    var mem' := SplitMem(mem, bs[i].addr, wanted);
    forall a | lo <= a < hi && Marked(mem', a)
      ensures IsBlock(bs', a)
    {
      if a == bs'[i + 1].addr {
      } else {
        assert Marked(mem, a);
        var j :| 0 <= j < |bs| && bs[j].addr == a;
        assert bs'[if j <= i then j else j + 1].addr == a;
      }
    }
  }

  lemma MergeClean(mem: Memory, bs: seq<Blk>, i: nat, lo: nat, hi: nat)
    requires Clean(mem, bs, lo, hi) && i + 1 < |bs| && LinkedAt(mem, bs, i)
    requires var n := mem[bs[i].addr].next; n in mem && (mem[n].next != 0 ==> mem[n].next in mem)
    ensures Clean(MergeMem(mem, bs[i].addr), MergeAt(bs, i), lo, hi)
  {
    var bs' := MergeAt(bs, i);
    var mem' := MergeMem(mem, bs[i].addr);
    forall a | lo <= a < hi && Marked(mem', a)
      ensures IsBlock(bs', a)
    {
      assert a != bs[i + 1].addr && Marked(mem, a);
      var j :| 0 <= j < |bs| && bs[j].addr == a;
      assert bs'[if j <= i then j else j - 1].addr == a;
    }
  }

  /** Changing the state of one block. */
  lemma MarkLinked(mem: Memory, bs: seq<Blk>, i: nat, free: bool, lo: nat, hi: nat)
    requires Tiled(bs, lo, hi) && Linked(mem, bs) && i < |bs|
    ensures LinkedAt(mem, bs, i)
    ensures var bs', mem' := bs[i := bs[i].(free := free)], mem[bs[i].addr := mem[bs[i].addr].(free := free)];
      && Linked(mem', bs') && (Clean(mem, bs, lo, hi) ==> Clean(mem', bs', lo, hi))
  {
    hide Tiled;
    assert LinkedAt(mem, bs, i);
    var bs', mem' := bs[i := bs[i].(free := free)], mem[bs[i].addr := mem[bs[i].addr].(free := free)];
    forall j: nat | j < |bs'|
      ensures LinkedAt(mem', bs', j)
    {
      assert LinkedAt(mem, bs, j);
      if j < i {
        Apart(bs, j, i, lo, hi);
      } else if i < j {
        Apart(bs, i, j, lo, hi);
      }
    }
    if Clean(mem, bs, lo, hi) {
      forall a | lo <= a < hi && Marked(mem', a)
        ensures IsBlock(bs', a)
      {
        assert Marked(mem, a);
        var j :| 0 <= j < |bs| && bs[j].addr == a;
        assert bs'[j].addr == a;
      }
    }
  }

  lemma SplitTiles(bs: seq<Blk>, i: nat, wanted: nat, lo: nat, hi: nat)
    requires Tiled(bs, lo, hi) && i < |bs| && Splits(bs[i].size, wanted) && wanted % ALIGN == 0
    ensures Tiled(SplitAt(bs, i, wanted), lo, hi)
  {
    hide Tiles;
    var r := [bs[i].(size := wanted), Blk(bs[i].addr + HEADER + wanted, bs[i].size - wanted - HEADER, true)];
    BlockFacts(bs, i, lo, hi);
    PairTiles(r[0], r[1]);
    TilesReplace(bs, i, 1, r, lo, hi);
  }

  lemma SumAligned(a: nat, b: nat)
    requires a % ALIGN == 0 && b % ALIGN == 0
    ensures (a + HEADER + b) % ALIGN == 0
  {
  }

  lemma MergeTiles(bs: seq<Blk>, i: nat, lo: nat, hi: nat)
    requires Tiled(bs, lo, hi) && i + 1 < |bs|
    ensures Tiled(MergeAt(bs, i), lo, hi)
  {
    hide Tiles;
    var r := [bs[i].(size := bs[i].size + HEADER + bs[i + 1].size)];
    BlockFacts(bs, i, lo, hi);
    BlockFacts(bs, i + 1, lo, hi);
    NextStarts(bs, i, lo, hi);
    SumAligned(bs[i].size, bs[i + 1].size);
    SingleTiles(r[0]);
    TilesReplace(bs, i, 2, r, lo, hi);
  }

  lemma {:induction false} MarkTiles(bs: seq<Blk>, i: nat, free: bool, lo: nat, hi: nat)
    requires Tiles(bs, lo, hi) && i < |bs|
    ensures Tiles(bs[i := bs[i].(free := free)], lo, hi)
  {
    var bs' := bs[i := bs[i].(free := free)];
    if i == 0 {
      assert bs'[1..] == bs[1..];
    } else {
      assert bs'[1..] == bs[1..][i - 1 := bs[i].(free := free)];
      MarkTiles(bs[1..], i - 1, free, bs[0].End(), hi);
    }
  }

  // ---- payloads ----

  ghost predicate SameAt(mem: Memory, mem': Memory, a: nat)
  {
    (a in mem <==> a in mem') && (a in mem ==> mem[a] == mem'[a])
  }

  /** No header at an address that overlaps the payload of `b` was written. */
  ghost predicate Kept(mem: Memory, mem': Memory, b: Blk)
  {
    forall a: nat | a < b.End() && b.Payload() < a + HEADER :: SameAt(mem, mem', a)
  }

  /** Every block in use stays in use, and its payload is not written. */
  ghost predicate Spared(bs: seq<Blk>, bs': seq<Blk>, mem: Memory, mem': Memory)
  {
    forall b | Live(bs, b) :: Live(bs', b) && Kept(mem, mem', b)
  }

  lemma SparedTwice(bs: seq<Blk>, bs1: seq<Blk>, bs2: seq<Blk>, m: Memory, m1: Memory, m2: Memory)
    requires Spared(bs, bs1, m, m1) && Spared(bs1, bs2, m1, m2)
    ensures Spared(bs, bs2, m, m2)
  {
    forall b | Live(bs, b)
      ensures Live(bs2, b) && Kept(m, m2, b)
    {
      forall a: nat | a < b.End() && b.Payload() < a + HEADER
        ensures SameAt(m, m2, a)
      {
        assert SameAt(m, m1, a) && SameAt(m1, m2, a);
      }
    }
  }

  lemma SparedNone(bs: seq<Blk>, m: Memory)
    ensures Spared(bs, bs, m, m)
  {
  }

  lemma KeptTwice(bs: seq<Blk>, ptr: nat, bs1: seq<Blk>, bs2: seq<Blk>, m: Memory, m1: Memory, m2: Memory)
    requires forall b | Live(bs, b) && b.Payload() != ptr :: Live(bs1, b) && Kept(m, m1, b)
    requires Spared(bs1, bs2, m1, m2)
    ensures forall b | Live(bs, b) && b.Payload() != ptr :: Live(bs2, b) && Kept(m, m2, b)
  {
    forall b, a: nat | Live(bs, b) && b.Payload() != ptr && a < b.End() && b.Payload() < a + HEADER
      ensures SameAt(m, m2, a)
    {
      assert SameAt(m, m1, a) && SameAt(m1, m2, a);
    }
  }

  /** The header of a block of the list, or room inside a free block. */
  ghost predicate Harmless(bs: seq<Blk>, k: nat)
  {
    exists i :: 0 <= i < |bs| && (bs[i].addr == k || (bs[i].free && bs[i].Payload() <= k && k + HEADER <= bs[i].End()))
  }

  lemma HarmlessApart(bs: seq<Blk>, k: nat, b: Blk, lo: nat, hi: nat)
    requires Tiled(bs, lo, hi) && Harmless(bs, k) && Live(bs, b)
    ensures b.End() <= k || k + HEADER <= b.Payload()
  {
    hide Tiled;
    var i :| 0 <= i < |bs| && (bs[i].addr == k || (bs[i].free && bs[i].Payload() <= k && k + HEADER <= bs[i].End()));
    var j :| 0 <= j < |bs| && bs[j] == b;
    if i < j {
      Apart(bs, i, j, lo, hi);
    } else if j < i {
      Apart(bs, j, i, lo, hi);
    }
  }

  lemma WritesKept(bs: seq<Blk>, mem: Memory, mem': Memory, keys: set<nat>, b: Blk, lo: nat, hi: nat)
    requires Tiled(bs, lo, hi) && Live(bs, b) && (forall k | k in keys :: Harmless(bs, k))
    requires forall a: nat :: a !in keys ==> SameAt(mem, mem', a)
    ensures Kept(mem, mem', b)
  {
    hide Tiled, Harmless, Live, SameAt;
    forall k | k in keys
      ensures b.End() <= k || k + HEADER <= b.Payload()
    {
      HarmlessApart(bs, k, b, lo, hi);
    }
  }

  lemma SplitSpares(mem: Memory, bs: seq<Blk>, i: nat, wanted: nat, lo: nat, hi: nat)
    requires Tiled(bs, lo, hi) && Linked(mem, bs) && i < |bs| && bs[i].free && Splits(bs[i].size, wanted)
    ensures LinkedAt(mem, bs, i) && (mem[bs[i].addr].next != 0 ==> mem[bs[i].addr].next in mem)
    ensures Spared(bs, SplitAt(bs, i, wanted), mem, SplitMem(mem, bs[i].addr, wanted))
  {
    hide Tiled, Linked, Kept;
    Neighbours(mem, bs, i, lo, hi);
    var next := mem[bs[i].addr].next;
    var keys := {bs[i].addr, bs[i].addr + HEADER + wanted} + if next == 0 then {} else {next};
    var mem' := SplitMem(mem, bs[i].addr, wanted);
    assert Harmless(bs, bs[i].addr) && Harmless(bs, bs[i].addr + HEADER + wanted);
    assert next != 0 ==> Harmless(bs, next) by {
      assert next != 0 ==> bs[i + 1].addr == next;
    }
    forall b | Live(bs, b)
      ensures Live(SplitAt(bs, i, wanted), b) && Kept(mem, mem', b)
    {
      InSlices(bs, i, b);
      WritesKept(bs, mem, mem', keys, b, lo, hi);
    }
  }

  lemma InMerge(bs: seq<Blk>, i: nat, b: Blk)
    requires i + 1 < |bs| && b in bs && b != bs[i] && b != bs[i + 1]
    ensures b in MergeAt(bs, i)
  {
    var j :| 0 <= j < |bs| && bs[j] == b;
    assert j < i ==> b in bs[..i];
    assert j > i + 1 ==> bs[i + 2..][j - i - 2] == b;
  }

  lemma MergeSpares(mem: Memory, bs: seq<Blk>, i: nat, lo: nat, hi: nat)
    requires Tiled(bs, lo, hi) && Linked(mem, bs) && i + 1 < |bs| && bs[i].free && bs[i + 1].free
    ensures LinkedAt(mem, bs, i)
    ensures var n := mem[bs[i].addr].next; n in mem && (mem[n].next != 0 ==> mem[n].next in mem)
    ensures Spared(bs, MergeAt(bs, i), mem, MergeMem(mem, bs[i].addr))
  {
    hide Tiled, Linked, Kept;
    Neighbours(mem, bs, i, lo, hi);
    Neighbours(mem, bs, i + 1, lo, hi);
    var n := mem[bs[i].addr].next;
    var next := mem[n].next;
    var keys := {bs[i].addr, n} + if next == 0 then {} else {next};
    var mem' := MergeMem(mem, bs[i].addr);
    assert Harmless(bs, bs[i].addr) && Harmless(bs, bs[i + 1].addr);
    assert next != 0 ==> Harmless(bs, next) by {
      assert next != 0 ==> bs[i + 2].addr == next;
    }
    forall b | Live(bs, b)
      ensures Live(MergeAt(bs, i), b) && Kept(mem, mem', b)
    {
      InMerge(bs, i, b);
      WritesKept(bs, mem, mem', keys, b, lo, hi);
    }
  }

  /** Marking a block free or used writes its header only. */
  lemma MarkSpares(mem: Memory, bs: seq<Blk>, i: nat, free: bool, lo: nat, hi: nat)
    requires Tiled(bs, lo, hi) && Linked(mem, bs) && i < |bs|
    ensures LinkedAt(mem, bs, i)
    ensures var mem' := mem[bs[i].addr := mem[bs[i].addr].(free := free)];
      forall b | Live(bs, b) :: Kept(mem, mem', b) && (b != bs[i] ==> Live(bs[i := bs[i].(free := free)], b))
  {
    hide Tiled, Kept;
    assert LinkedAt(mem, bs, i);
    var mem' := mem[bs[i].addr := mem[bs[i].addr].(free := free)];
    assert Harmless(bs, bs[i].addr);
    forall b | Live(bs, b)
      ensures Kept(mem, mem', b) && (b != bs[i] ==> Live(bs[i := bs[i].(free := free)], b))
    {
      var j :| 0 <= j < |bs| && bs[j] == b;
      assert b != bs[i] ==> bs[i := bs[i].(free := free)][j] == b;
      WritesKept(bs, mem, mem', {bs[i].addr}, b, lo, hi);
    }
  }

  lemma AlignedStays(v: nat)
    requires v % ALIGN == 0 && v <= U64 - ALIGN
    ensures AlignUpSize(v) == v
  {
  }

  // ---- the list check ----

  /** What the check reports when it has passed `seen` blocks and looks at `cur`, expected at `cursor` after `prev`. */
  function Check(mem: Memory, end: nat, cur: nat, cursor: nat, prev: nat, seen: nat): int
    requires seen <= GUARD
    decreases GUARD - seen
  {
    if cur == 0 then 0
    else if seen == GUARD then -3
    else if cur != cursor then -4
    else if cur + HEADER > end then -5
    else if !Marked(mem, cur) then -6
    else if mem[cur].prev != prev then -7
    else if mem[cur].size > end - (cur + HEADER) then -8
    else
      var after := AlignUpSize(cur + HEADER + mem[cur].size);
      if after == 0 || after > end then -9
      else Check(mem, end, mem[cur].next, after, cur, seen + 1)
  }

  /** The blocks are the list that starts at `cursor`: headers in order, each where the one before ends. */
  ghost predicate Chain(mem: Memory, bs: seq<Blk>, cursor: nat, prev: nat, end: nat)
    decreases |bs|
  {
    bs != [] ==>
      && bs[0].addr == cursor && Marked(mem, cursor) && mem[cursor].prev == prev
      && bs[0].size == mem[cursor].size && bs[0].End() <= end
      && var after := AlignUpSize(bs[0].End());
      && 0 < after <= end
      && mem[cursor].next == (if |bs| == 1 then 0 else after)
      && Chain(mem, bs[1..], after, cursor, end)
  }

  lemma {:induction false} CheckFinds(mem: Memory, end: nat, cursor: nat, prev: nat, seen: nat) returns (bs: seq<Blk>)
    requires seen <= GUARD && 0 < cursor <= end < U64 && Check(mem, end, cursor, cursor, prev, seen) == 0
    ensures 0 < |bs| <= GUARD - seen && Chain(mem, bs, cursor, prev, end)
    decreases GUARD - seen
  {
    var h := mem[cursor];
    var b := Blk(cursor, h.size, h.free);
    if h.next == 0 {
      bs := [b];
      assert bs[1..] == [];
    } else {
      var rest := CheckFinds(mem, end, h.next, cursor, seen + 1);
      bs := [b] + rest;
      assert bs[1..] == rest;
    }
  }

  lemma {:induction false} CheckAccepts(mem: Memory, bs: seq<Blk>, end: nat, cursor: nat, prev: nat, seen: nat)
    requires seen <= GUARD && 0 < cursor <= end < U64
    requires 0 < |bs| <= GUARD - seen && Chain(mem, bs, cursor, prev, end)
    ensures Check(mem, end, cursor, cursor, prev, seen) == 0
    decreases |bs|
  {
    if |bs| > 1 {
      CheckAccepts(mem, bs[1..], end, AlignUpSize(bs[0].End()), cursor, seen + 1);
    }
  }

  /** The check passes exactly on a list of at most 2^20 blocks in order; nothing is said about where the last one ends. */
  lemma CheckExactly(mem: Memory, base: nat, end: nat)
    requires 0 < base <= end < U64
    ensures Check(mem, end, base, base, 0, 0) == 0 <==>
      exists bs :: 0 < |bs| <= GUARD && Chain(mem, bs, base, 0, end)
  {
    hide Check, Chain;
    if Check(mem, end, base, base, 0, 0) == 0 {
      var bs := CheckFinds(mem, end, base, 0, 0);
    }
    forall bs | 0 < |bs| <= GUARD && Chain(mem, bs, base, 0, end)
      ensures Check(mem, end, base, base, 0, 0) == 0
    {
      CheckAccepts(mem, bs, end, base, 0, 0);
    }
  }

  lemma AlignedEnd(b: Blk)
    requires b.addr % ALIGN == 0 && b.size % ALIGN == 0 && AlignUpSize(b.End()) > 0
    ensures AlignUpSize(b.End()) == b.End()
  {
  }

  /** A list the check accepts tiles the heap exactly when its sizes are aligned and its last block ends where the heap does. */
  lemma {:induction false} ChainTilesExactly(mem: Memory, bs: seq<Blk>, cursor: nat, prev: nat, end: nat)
    requires bs != [] && cursor % ALIGN == 0 && end < U64 && Chain(mem, bs, cursor, prev, end)
    ensures Tiles(bs, cursor, end) <==> (forall b | b in bs :: b.size % ALIGN == 0) && bs[|bs| - 1].End() == end
    decreases |bs|
  {
    var b, rest := bs[0], bs[1..];
    assert bs == [b] + rest;
    if rest != [] {
      var after := AlignUpSize(b.End());
      ChainTilesExactly(mem, rest, after, cursor, end);
      if b.size % ALIGN == 0 {
        AlignedEnd(b);
      }
      assert bs[|bs| - 1] == rest[|rest| - 1];
    }
  }

  lemma Extent(bs: seq<Blk>, i: nat, lo: nat, hi: nat)
    requires Tiled(bs, lo, hi) && i < |bs| && hi <= U64 - ALIGN
    ensures 0 < lo <= bs[i].addr && bs[i].End() <= hi && AlignUpSize(bs[i].End()) == bs[i].End() > 0
    ensures bs[i].addr % ALIGN == 0 && bs[i].size % ALIGN == 0
    ensures (i == 0 ==> bs[i].addr == lo) && (i + 1 == |bs| ==> bs[i].End() == hi)
  {
    TilesFacts(bs, lo, hi);
  }

  /** From block `i` on, a list in order has the headers of a heap. */
  lemma {:induction false} ChainLinks(mem: Memory, bs: seq<Blk>, i: nat, lo: nat, hi: nat)
    requires Tiled(bs, lo, hi) && hi <= U64 - ALIGN && i < |bs| && (forall b | b in bs :: b.addr in mem ==> mem[b.addr].free == b.free)
    requires Chain(mem, bs[i..], bs[i].addr, if i == 0 then 0 else bs[i - 1].addr, hi)
    ensures forall k: nat | i <= k < |bs| :: LinkedAt(mem, bs, k)
    decreases |bs| - i
  {
    BlockFacts(bs, i, lo, hi);
    assert bs[i] in bs && bs[i..][0] == bs[i];
    AlignedStays(bs[i].End());
    assert LinkedAt(mem, bs, i) by {
      if i + 1 < |bs| {
        NextStarts(bs, i, lo, hi);
      }
    }
    if i + 1 < |bs| {
      NextStarts(bs, i, lo, hi);
      assert bs[i..][1..] == bs[i + 1..];
      ChainLinks(mem, bs, i + 1, lo, hi);
    }
  }

  /** A list the check accepts and that covers the heap has exactly the headers of a heap with these blocks. */
  lemma AcceptedIsLinked(mem: Memory, bs: seq<Blk>, lo: nat, hi: nat)
    requires bs != [] && Tiled(bs, lo, hi) && hi <= U64 - ALIGN && (forall b | b in bs :: b.addr in mem ==> mem[b.addr].free == b.free)
    requires Chain(mem, bs, lo, 0, hi)
    ensures Linked(mem, bs)
  {
    hide Chain;
    assert bs[0..] == bs;
    Extent(bs, 0, lo, hi);
    ChainLinks(mem, bs, 0, lo, hi);
  }

  /** On a well-formed heap the check only fails when there are too many blocks for it. */
  lemma {:induction false} CheckPasses(mem: Memory, bs: seq<Blk>, i: nat, lo: nat, hi: nat)
    requires Tiled(bs, lo, hi) && Linked(mem, bs) && hi <= U64 - ALIGN && i <= |bs| && i <= GUARD
    ensures Check(mem, hi, if i < |bs| then bs[i].addr else 0, if i < |bs| then bs[i].addr else hi,
      if i == 0 then 0 else bs[i - 1].addr, i) == if |bs| <= GUARD then 0 else -3
    decreases |bs| - i
  {
    hide Tiled, Linked;
    if i < |bs| {
      Neighbours(mem, bs, i, lo, hi);
      Extent(bs, i, lo, hi);
      if i < GUARD {
        CheckPasses(mem, bs, i + 1, lo, hi);
      }
    }
  }

  /** The check passes the blocks before the first one whose header differs. */
  lemma {:induction false} CheckSkips(mem: Memory, mem': Memory, bs: seq<Blk>, j: nat, i: nat, lo: nat, hi: nat)
    requires Tiled(bs, lo, hi) && Linked(mem, bs) && hi <= U64 - ALIGN && j <= i < |bs| && i < GUARD
    requires forall k | 0 <= k < i :: bs[k].addr in mem' && bs[k].addr in mem && mem'[bs[k].addr] == mem[bs[k].addr]
    ensures Check(mem', hi, bs[j].addr, bs[j].addr, if j == 0 then 0 else bs[j - 1].addr, j)
      == Check(mem', hi, bs[i].addr, bs[i].addr, if i == 0 then 0 else bs[i - 1].addr, i)
    decreases i - j
  {
    hide Tiled, Linked;
    if j < i {
      Neighbours(mem, bs, j, lo, hi);
      Extent(bs, j, lo, hi);
      CheckSkips(mem, mem', bs, j + 1, i, lo, hi);
    }
  }

  lemma AlignedWithin(v: nat, hi: nat)
    requires v <= hi <= U64 - ALIGN && hi % ALIGN == 0
    ensures v <= AlignUpSize(v) <= hi
  {
  }

  lemma HeaderGone(mem: Memory, bs: seq<Blk>, i: nat, h: Header, lo: nat, hi: nat)
    requires Tiled(bs, lo, hi) && Linked(mem, bs) && hi <= U64 - ALIGN && i < |bs| <= GUARD
    ensures LinkedAt(mem, bs, i)
    ensures var a := bs[i].addr;
      Check(mem[a := h], hi, lo, lo, 0, 0) == Check(mem[a := h], hi, a, a, mem[a].prev, i)
    ensures forall k | i < k < |bs| :: bs[k].addr != bs[i].addr && bs[k].addr in mem
  {
    hide Check;
    Neighbours(mem, bs, i, lo, hi);
    Extent(bs, 0, lo, hi);
    forall k | 0 <= k < |bs| && k != i
      ensures bs[k].addr != bs[i].addr && LinkedAt(mem, bs, k)
    {
      Apart(bs, if k < i then k else i, if k < i then i else k, lo, hi);
      Neighbours(mem, bs, k, lo, hi);
    }
    CheckSkips(mem, mem[bs[i].addr := h], bs, 0, i, lo, hi);
  }

  /** The rest of a list from a block on is unaffected by the headers before it. */
  lemma {:induction false} RestPasses(mem: Memory, mem': Memory, bs: seq<Blk>, i: nat, lo: nat, hi: nat)
    requires Tiled(bs, lo, hi) && Linked(mem, bs) && hi <= U64 - ALIGN && 0 < i < |bs| <= GUARD
    requires forall k | i <= k < |bs| :: bs[k].addr in mem' && bs[k].addr in mem && mem'[bs[k].addr] == mem[bs[k].addr]
    ensures Check(mem', hi, bs[i].addr, bs[i].addr, bs[i - 1].addr, i) == 0
    decreases |bs| - i
  {
    hide Tiled, Linked;
    Neighbours(mem, bs, i, lo, hi);
    Extent(bs, i, lo, hi);
    if i + 1 < |bs| {
      RestPasses(mem, mem', bs, i + 1, lo, hi);
    }
  }

  /**
    A sound list with one header replaced: the code names the first field that is wrong. A
    wrong size or link goes unnoticed exactly if the size still rounds to the next block, or
    the link says there is none.
   */
  lemma DamageFound(mem: Memory, bs: seq<Blk>, i: nat, h: Header, lo: nat, hi: nat)
    requires Tiled(bs, lo, hi) && Linked(mem, bs) && hi <= U64 - ALIGN && i < |bs| <= GUARD
    ensures bs[i].addr in mem
    ensures var a := bs[i].addr;
      var g, r := mem[a], Check(mem[a := h], hi, lo, lo, 0, 0);
      && (h.magic != MAGIC ==> r == -6)
      && (h.magic == MAGIC && h.prev != g.prev ==> r == -7)
      && (h.magic == MAGIC && h.prev == g.prev && h.size > hi - (a + HEADER) ==> r == -8)
      && (h.magic == MAGIC && h.prev == g.prev && h.size <= hi - (a + HEADER) && h.next == g.next ==>
          r == if g.next == 0 || AlignUpSize(a + HEADER + h.size) == g.next then 0 else -4)
      && (h.magic == MAGIC && h.prev == g.prev && h.size == g.size && h.next != g.next ==>
          r == if h.next == 0 then 0 else if i + 1 == GUARD then -3 else if h.next != hi || i + 1 < |bs| then -4 else -5)
  {
    hide Tiled, Linked, AlignUpSize;
    HeaderGone(mem, bs, i, h, lo, hi);
    Extent(bs, i, lo, hi);
    Extent(bs, |bs| - 1, lo, hi);
    if h.size <= hi - (bs[i].addr + HEADER) {
      AlignedWithin(bs[i].addr + HEADER + h.size, hi);
    }
    if i + 1 < |bs| {
      Neighbours(mem, bs, i, lo, hi);
      RestPasses(mem, mem[bs[i].addr := h], bs, i + 1, lo, hi);
    }
  }

  /** No block is empty. */
  ghost predicate Sized(bs: seq<Blk>)
  {
    forall i | 0 <= i < |bs| :: bs[i].size > 0
  }

  lemma FreedSize(bs: seq<Blk>, i: nat, lo: nat, hi: nat)
    requires Inv(bs, lo, hi) && i < |bs|
    ensures Freed(bs, i).size >= bs[i].size
  {
    TilesFacts(bs, lo, hi);
  }

  lemma StepSized(bs: seq<Blk>, op: Op, lo: nat, hi: nat)
    requires Inv(bs, lo, hi) && Sized(bs)
    ensures Sized(Step(bs, op))
  {
    hide FreeAt, Inv;
    match op
    case Alloc(bytes) =>
    case Free(ptr) =>
      var i := IndexOf(bs, ptr, 0);
      if i < |bs| && !bs[i].free {
        FreeJoins(bs, i, lo, hi);
        FreedTiles(bs, i, lo, hi);
        assert Freed(bs, i).size > 0 by {
          FreedSize(bs, i, lo, hi);
        }
      }
  }

  /** The check accepts a list that stops short of the end of the heap. */
  lemma CheckIgnoresTail()
    ensures var mem: Memory := map[16 := Header(MAGIC, 0, true, 0, 0)];
      Check(mem, 1600, 16, 16, 0, 0) == 0 && !exists bs: seq<Blk> :: bs != [] && Tiles(bs, 16, 1600) && Linked(mem, bs)
  {
    var mem: Memory := map[16 := Header(MAGIC, 0, true, 0, 0)];
    assert AlignUpSize(64) == 64;
    forall bs: seq<Blk> | bs != [] && Tiles(bs, 16, 1600)
      ensures !Linked(mem, bs)
    {
      if Linked(mem, bs) {
        Neighbours(mem, bs, 0, 16, 1600);
        Extent(bs, 0, 16, 1600);
      }
    }
  }

  // ---- the allocator ----

  function FreeCount(bs: seq<Blk>): nat
  {
    if bs == [] then 0 else (if bs[0].free then 1 else 0) + FreeCount(bs[1..])
  }

  /** The size of the largest free block, or 0. */
  function Largest(bs: seq<Blk>): nat
  {
    if bs == [] then 0
    else
      var rest := Largest(bs[1..]);
      if bs[0].free && bs[0].size > rest then bs[0].size else rest
  }

  lemma {:induction false} LargestIsLargest(bs: seq<Blk>)
    ensures forall b | b in bs && b.free :: b.size <= Largest(bs)
    ensures Largest(bs) > 0 ==> exists b :: b in bs && b.free && b.size == Largest(bs)
  {
    if bs != [] {
      LargestIsLargest(bs[1..]);
      assert bs == [bs[0]] + bs[1..];
      assert bs[0] in bs;
      if b :| b in bs[1..] && b.free && b.size == Largest(bs[1..]) {
        assert b in bs;
      }
    }
  }

  lemma {:induction false} SumsConcat(a: seq<Blk>, b: seq<Blk>)
    ensures UsedBytes(a + b) == UsedBytes(a) + UsedBytes(b) && FreeCount(a + b) == FreeCount(a) + FreeCount(b)
  {
    if a == [] {
      assert a + b == b;
    } else {
      assert (a + b)[1..] == a[1..] + b;
      SumsConcat(a[1..], b);
    }
  }

  lemma SumsReplace(bs: seq<Blk>, i: nat, n: nat, r: seq<Blk>)
    requires i + n <= |bs|
    ensures var bs' := bs[..i] + r + bs[i + n..];
      && UsedBytes(bs') + UsedBytes(bs[i..i + n]) == UsedBytes(bs) + UsedBytes(r)
      && FreeCount(bs') + FreeCount(bs[i..i + n]) == FreeCount(bs) + FreeCount(r)
  {
    hide UsedBytes, FreeCount;
    assert bs == bs[..i] + bs[i..i + n] + bs[i + n..];
    SumsConcat(bs[..i], bs[i..i + n]);
    SumsConcat(bs[..i] + bs[i..i + n], bs[i + n..]);
    SumsConcat(bs[..i], r);
    SumsConcat(bs[..i] + r, bs[i + n..]);
  }

  lemma SumsOfOne(b: Blk)
    ensures UsedBytes([b]) == (if b.free then 0 else b.size) && FreeCount([b]) == if b.free then 1 else 0
  {
    assert [b][1..] == [];
  }

  lemma SumsOfTwo(b: Blk, c: Blk)
    ensures UsedBytes([b, c]) == UsedBytes([b]) + UsedBytes([c]) && FreeCount([b, c]) == FreeCount([b]) + FreeCount([c])
  {
    assert [b, c] == [b] + [c];
    SumsConcat([b], [c]);
  }

  /** The blocks of a served request are the one found and its first part. */
  lemma ServedBlock(bs: seq<Blk>, bytes: nat, lo: nat, hi: nat, f: Blk, b: Blk)
    requires Inv(bs, lo, hi) && Answer(bs, bytes) != 0
    requires Served(bs, Step(bs, Op.Alloc(bytes)), bytes, Answer(bs, bytes), f, b)
    ensures var i := FirstFit(bs, AlignUpSize(bytes), 0); i < |bs| && f == bs[i] && b == Taken(bs[i], AlignUpSize(bytes))[0]
  {
    hide Tiles, Coalesced, FirstFit, AlignUp;
    var wanted := AlignUpSize(bytes);
    var i := FirstFit(bs, wanted, 0);
    TilesFacts(bs, lo, hi);
    RoundedFits(bs[i].size, bytes);
  }

  /** Every allocation that is served adds the size of its block to the bytes used, and takes a free block unless it split one. */
  lemma AllocStats(bs: seq<Blk>, bytes: nat, lo: nat, hi: nat) returns (f: Blk, b: Blk)
    requires Inv(bs, lo, hi) && Answer(bs, bytes) != 0
    ensures Served(bs, Step(bs, Op.Alloc(bytes)), bytes, Answer(bs, bytes), f, b)
    ensures UsedBytes(Step(bs, Op.Alloc(bytes))) == UsedBytes(bs) + b.size
    ensures FreeCount(Step(bs, Op.Alloc(bytes))) == FreeCount(bs) - if b.size == f.size then 1 else 0
  {
    hide UsedBytes, FreeCount, Served, Live, Inv;
    f, b := AllocServes(bs, bytes, lo, hi);
    var wanted := AlignUpSize(bytes);
    var i := FirstFit(bs, wanted, 0);
    var r := Taken(bs[i], wanted);
    SumsReplace(bs, i, 1, r);
    assert bs[i..i + 1] == [bs[i]];
    SumsOfOne(bs[i]);
    SumsOfOne(r[0]);
    if |r| == 2 {
      SumsOfOne(r[1]);
      SumsOfTwo(r[0], r[1]);
    }
    ServedBlock(bs, bytes, lo, hi, f, b);
    assert |r| == 1 ==> r == [r[0]];
  }

  lemma OneFree(s: seq<Blk>)
    requires |s| <= 1 && (s != [] ==> s[0].free)
    ensures UsedBytes(s) == 0
  {
    if s != [] {
      assert s == [s[0]];
      SumsOfOne(s[0]);
    }
  }

  lemma ThreeParts(bs: seq<Blk>, lo: nat, i: nat, hi: nat)
    requires lo <= i < hi <= |bs|
    ensures bs[lo..hi] == bs[lo..i] + [bs[i]] + bs[i + 1..hi]
  {
  }

  lemma NeighbourSums(bs: seq<Blk>, i: nat)
    requires i < |bs| && !bs[i].free
    ensures UsedBytes(bs[i - Left(bs, i)..i + Right(bs, i) + 1]) == bs[i].size
  {
    hide UsedBytes, FreeCount;
    var l, r := Left(bs, i), Right(bs, i);
    var a, c := bs[i - l..i], bs[i + 1..i + r + 1];
    ThreeParts(bs, i - l, i, i + r + 1);
    SumsConcat(a, [bs[i]]);
    SumsConcat(a + [bs[i]], c);
    SumsOfOne(bs[i]);
    OneFree(a);
    OneFree(c);
  }

  lemma FreeAtSums(bs: seq<Blk>, i: nat, lo: nat, hi: nat)
    requires Inv(bs, lo, hi) && i < |bs| && !bs[i].free
    ensures UsedBytes(FreeAt(bs, i)) + bs[i].size == UsedBytes(bs)
  {
    hide UsedBytes, FreeCount, Inv, FreeAt, Freed, Left, Right;
    FreeJoins(bs, i, lo, hi);
    var l, r := Left(bs, i), Right(bs, i);
    SumsReplace(bs, i - l, l + r + 1, [Freed(bs, i)]);
    SumsOfOne(Freed(bs, i));
    FreedIsFree(bs, i);
    NeighbourSums(bs, i);
  }

  lemma IndexFinds(bs: seq<Blk>, ptr: nat, i: nat, lo: nat, hi: nat)
    requires Tiles(bs, lo, hi) && lo % ALIGN == 0 && i < |bs| && bs[i].Payload() == ptr
    ensures IndexOf(bs, ptr, 0) == i
  {
    hide Tiles;
    TilesFacts(bs, lo, hi);
  }

  /** Every free that finds its block takes its size off the bytes used. */
  lemma FreeStats(bs: seq<Blk>, b: Blk, lo: nat, hi: nat)
    requires Inv(bs, lo, hi) && Live(bs, b)
    ensures UsedBytes(Step(bs, Op.Free(b.Payload()))) + b.size == UsedBytes(bs)
  {
    hide UsedBytes, Tiles, Coalesced, FreeAt, IndexOf;
    var i :| 0 <= i < |bs| && bs[i] == b;
    IndexFinds(bs, b.Payload(), i, lo, hi);
    FreeAtSums(bs, i, lo, hi);
  }

  lemma NoBytes()
    ensures UsedBytes([]) == FreeBytes([]) == FreeCount([]) == Largest([]) == 0
  {
  }

  lemma BytesAccounted(bs: seq<Blk>, lo: nat, hi: nat)
    requires Tiled(bs, lo, hi)
    ensures hi == lo + UsedBytes(bs) + FreeBytes(bs) + HEADER * |bs|
  {
    BytesAccountedFor(bs, lo, hi);
  }

  lemma {:induction false} SumsGrow(bs: seq<Blk>, i: nat)
    requires i < |bs|
    ensures UsedBytes(bs[..i + 1]) == UsedBytes(bs[..i]) + if bs[i].free then 0 else bs[i].size
    ensures FreeBytes(bs[..i + 1]) == FreeBytes(bs[..i]) + if bs[i].free then bs[i].size else 0
    ensures FreeCount(bs[..i + 1]) == FreeCount(bs[..i]) + if bs[i].free then 1 else 0
  {
    if i == 0 {
      assert bs[..1][1..] == [] && bs[..0] == [];
    } else {
      SumsGrow(bs[1..], i - 1);
      assert bs[..i + 1][1..] == bs[1..][..i] && bs[..i][1..] == bs[1..][..i - 1];
    }
  }

  lemma {:induction false} LargestGrows(bs: seq<Blk>, i: nat)
    requires i < |bs|
    ensures Largest(bs[..i + 1]) == if bs[i].free && bs[i].size > Largest(bs[..i]) then bs[i].size else Largest(bs[..i])
  {
    if i == 0 {
      assert bs[..1][1..] == [] && bs[..0] == [];
    } else {
      LargestGrows(bs[1..], i - 1);
      assert bs[..i + 1][1..] == bs[1..][..i] && bs[..i][1..] == bs[1..][..i - 1];
    }
  }

  lemma ProductFits(count: nat, bytes: nat)
    ensures count != 0 ==> (bytes > (U64 - 1) / count <==> count * bytes >= U64)
  {
    if count != 0 {
      var q, r := (U64 - 1) / count, (U64 - 1) % count;
      assert U64 - 1 == count * q + r;
      if bytes > q {
        assert count * bytes >= count * (q + 1) == count * q + count;
      } else {
        assert count * bytes <= count * q;
      }
    }
  }

  lemma {:induction false} MergeForwardKeeps(bs: seq<Blk>, i: nat)
    requires i < |bs|
    ensures var r := MergeForward(bs, i); i < |r| && r[..i] == bs[..i] && r[i].addr == bs[i].addr
    decreases |bs|
  {
    if i + 1 < |bs| && bs[i + 1].free {
      MergeForwardKeeps(MergeAt(bs, i), i);
    }
  }

  /** A block found by its payload starts inside the heap. */
  lemma WhereFound(bs: seq<Blk>, ptr: nat, lo: nat, hi: nat)
    requires Tiled(bs, lo, hi) && Sized(bs)
    ensures IndexOf(bs, ptr, 0) < |bs| ==> lo <= ptr < hi && ptr % ALIGN == 0
  {
    var i := IndexOf(bs, ptr, 0);
    if i < |bs| {
      BlockFacts(bs, i, lo, hi);
    }
  }

  lemma NotFound(mem: Memory, bs: seq<Blk>, ptr: nat, lo: nat, hi: nat)
    requires Tiled(bs, lo, hi) && Linked(mem, bs)
    requires ptr < lo + HEADER || hi + HEADER <= ptr || !Marked(mem, ptr - HEADER)
    ensures IndexOf(bs, ptr, 0) == |bs|
  {
    var i := IndexOf(bs, ptr, 0);
    assert i < |bs| ==> LinkedAt(mem, bs, i);
    if i < |bs| {
      BlockFacts(bs, i, lo, hi);
    }
  }

  lemma FoundAt(bs: seq<Blk>, ptr: nat, i: nat, lo: nat, hi: nat)
    requires Tiled(bs, lo, hi) && i < |bs| && bs[i].Payload() == ptr
    ensures IndexOf(bs, ptr, 0) == i
  {
    IndexFinds(bs, ptr, i, lo, hi);
  }

  lemma NotUsed(bs: seq<Blk>, ptr: nat, lo: nat, hi: nat)
    requires Tiled(bs, lo, hi)
    ensures UsedAt(bs, ptr) <==> IndexOf(bs, ptr, 0) < |bs| && !bs[IndexOf(bs, ptr, 0)].free
  {
    var i := IndexOf(bs, ptr, 0);
    if i < |bs| && !bs[i].free {
      assert Live(bs, bs[i]);
    }
    if UsedAt(bs, ptr) {
      var b :| Live(bs, b) && b.Payload() == ptr;
      var k :| 0 <= k < |bs| && bs[k] == b;
      FoundAt(bs, ptr, k, lo, hi);
    }
  }

  lemma AllocPromises(bs: seq<Blk>, bytes: nat, lo: nat, hi: nat)
    requires bs != [] && Tiled(bs, lo, hi) && Coalesced(bs)
    ensures var r, bs' := Answer(bs, bytes), Step(bs, Op.Alloc(bytes));
      && (r == 0 <==> bytes == 0 || bytes > U64 - ALIGN || forall b | b in bs :: !Roomy(b, bytes))
      && (r == 0 ==> bs' == bs) && (r != 0 ==> exists f, b :: Served(bs, bs', bytes, r, f, b))
  {
    hide Answer, Step, Served, Tiles, Coalesced;
    RefusedExactly(bs, bytes, lo, hi);
    if Answer(bs, bytes) != 0 {
      var f, b := AllocServes(bs, bytes, lo, hi);
    }
  }

  lemma FreePromises(bs: seq<Blk>, ptr: nat, lo: nat, hi: nat)
    requires bs != [] && Tiled(bs, lo, hi) && Coalesced(bs)
    ensures forall c :: Live(Step(bs, Op.Free(ptr)), c) <==> Live(bs, c) && c.Payload() != ptr
    ensures UsedAt(bs, ptr) <==> IndexOf(bs, ptr, 0) < |bs| && !bs[IndexOf(bs, ptr, 0)].free
  {
    hide Step, Tiles, Coalesced;
    FreeReleases(bs, ptr, lo, hi);
    NotUsed(bs, ptr, lo, hi);
  }

  class Heap {
    var mem: Memory
    var base: nat
    var end: nat
    var head: nat
    var initialized: bool
    var data: map<nat, byte>
    ghost var blocks: seq<Blk>

    ghost predicate Valid()
      reads this
    {
      initialized ==> Shaped() && Coalesced(blocks) && Sized(blocks)
    }

    /** The headers in memory are those of the block list, which tiles the arena. */
    ghost predicate Shaped()
      reads this
    {
      initialized && head == base && end <= U64 - ALIGN && blocks != [] && Tiled(blocks, base, end) && Linked(mem, blocks)
    }

    ghost predicate NoStrays()
      reads this
    {
      Clean(mem, blocks, base, end)
    }

    constructor ()
      ensures Valid() && !initialized
    {
      mem, base, end, head, initialized, data, blocks := map[], 0, 0, 0, false, map[], [];
    }

    method Validate() returns (r: int)
      ensures r == if !initialized || base == 0 || end <= base || head == 0 then -1
                   else if head != base then -2
                   else Check(mem, end, base, base, 0, 0)
    {
      if !initialized || base == 0 || end <= base || head == 0 {
        return -1;
      }
      if head != base {
        return -2;
      }
      var prev: nat, cursor: nat, seen: nat, cur: nat := 0, base, 0, head;
      while cur != 0
        invariant seen <= GUARD && cursor <= end
        invariant Check(mem, end, cur, cursor, prev, seen) == Check(mem, end, base, base, 0, 0)
        decreases GUARD - seen
      {
        if seen == GUARD {
          return -3;
        }
        if cur != cursor {
          return -4;
        }
        if cur + HEADER > end {
          return -5;
        }
        if !Marked(mem, cur) {
          return -6;
        }
        if mem[cur].prev != prev {
          return -7;
        }
        if mem[cur].size > end - (cur + HEADER) {
          return -8;
        }
        cursor := AlignUpSize(cur + HEADER + mem[cur].size);
        if cursor == 0 || cursor > end {
          return -9;
        }
        prev := cur;
        cur := mem[cur].next;
        seen := seen + 1;
      }
      return 0;
    }

    /** The check after a change: fails only for the number of blocks. */
    method Recheck() returns (r: int)
      requires Shaped()
      ensures r == if |blocks| <= GUARD then 0 else -3
    {
      Extent(blocks, 0, base, end);
      CheckPasses(mem, blocks, 0, base, end);
      r := Validate();
    }

    method Init(start: nat, bytes: nat) returns (r: int)
      requires start + bytes < U64
      modifies this
      ensures r == 0 <==> start != 0 && AlignUp(start) + HEADER + MIN_SPLIT + ALIGN <= start + bytes
      ensures r == -1 <==> start == 0 || bytes < HEADER + MIN_SPLIT
      ensures r != 0 ==> r < 0 && unchanged(this)
      ensures data == old(data)
      ensures r == 0 ==> Valid() && initialized && base == AlignUp(start) && end <= start + bytes < end + ALIGN
      ensures r == 0 ==> blocks == [Blk(base, end - base - HEADER, true)]
      ensures r == 0 && (forall a | start <= a < start + bytes :: !Marked(old(mem), a)) ==> NoStrays()
    {
      if start == 0 || bytes < HEADER + MIN_SPLIT {
        return -1;
      }
      var first := AlignUpSize(start);
      if first == 0 || first < start {
        return -2;
      }
      var lost := first - start;
      if bytes <= lost + HEADER + MIN_SPLIT {
        return -3;
      }
      var usable := (bytes - lost) / ALIGN * ALIGN;
      if usable <= HEADER + MIN_SPLIT {
        return -4;
      }
      base, end, head := first, first + usable, first;
      mem := mem[head := Header(MAGIC, usable - HEADER, true, 0, 0)];
      initialized := true;
      blocks := [Blk(first, usable - HEADER, true)];
      assert Tiled(blocks, base, end) by {
        assert blocks[1..] == [];
      }
      assert blocks[0].addr == first;
      if forall a | start <= a < start + bytes :: !Marked(old(mem), a) {
        forall a | base <= a < end && Marked(mem, a)
          ensures IsBlock(blocks, a)
        {
          assert Marked(old(mem), a) || a == blocks[0].addr;
        }
      }
      r := Recheck();
    }

    method Split(block: nat, wanted: nat, ghost i: nat)
      requires Shaped() && i < |blocks| && block == blocks[i].addr && wanted % ALIGN == 0 && wanted <= blocks[i].size
      requires blocks[i].free
      modifies `mem, `blocks
      ensures Shaped() && (old(NoStrays()) ==> NoStrays()) && Spared(old(blocks), blocks, old(mem), mem)
      ensures blocks == if Splits(old(blocks)[i].size, wanted) then SplitAt(old(blocks), i, wanted) else old(blocks)
    {
      hide Tiled, Linked, Clean, AlignUpSize, SplitAt;
      Neighbours(mem, blocks, i, base, end);
      Extent(blocks, i, base, end);
      AlignedStays(block + HEADER + wanted);
      var b := mem[block];
      if b.size < wanted + HEADER + MIN_SPLIT {
        return;
      }
      var newAddr := AlignUpSize(block + HEADER + wanted);
      if newAddr == 0 {
        return;
      }
      if newAddr + HEADER >= end {
        return;
      }
      var consumed := newAddr - (block + HEADER);
      if b.size <= consumed + HEADER + MIN_SPLIT {
        return;
      }
      Carve(block, newAddr, wanted, i);
    }

    /** The remainder of a block becomes a free block of its own. */
    method Carve(block: nat, newAddr: nat, wanted: nat, ghost i: nat)
      requires Shaped() && i < |blocks| && block == blocks[i].addr && wanted % ALIGN == 0 && blocks[i].free
      requires Splits(blocks[i].size, wanted) && newAddr == block + HEADER + wanted
      modifies `mem, `blocks
      ensures Shaped() && (old(NoStrays()) ==> NoStrays()) && Spared(old(blocks), blocks, old(mem), mem)
      ensures blocks == SplitAt(old(blocks), i, wanted)
    {
      hide Tiled, Linked, Clean, Spared;
      SplitLinked(mem, blocks, i, wanted, base, end);
      SplitSpares(mem, blocks, i, wanted, base, end);
      if NoStrays() {
        SplitClean(mem, blocks, i, wanted, base, end);
      }
      SplitTiles(blocks, i, wanted, base, end);
      ghost var mem' := SplitMem(mem, block, wanted);
      var b := mem[block];
      mem := mem[newAddr := Header(MAGIC, b.size - wanted - HEADER, true, block, b.next)];
      if b.next != 0 {
        mem := mem[b.next := mem[b.next].(prev := newAddr)];
      }
      mem := mem[block := b.(next := newAddr, size := wanted)];
      assert mem == mem';
      blocks := SplitAt(blocks, i, wanted);
    }

    method Coalesce(block: nat, ghost i: nat)
      requires Shaped() && i < |blocks| && block == blocks[i].addr && blocks[i].free
      modifies `mem, `blocks
      ensures Shaped() && (old(NoStrays()) ==> NoStrays()) && Spared(old(blocks), blocks, old(mem), mem)
      ensures blocks == MergeForward(old(blocks), i)
    {
      hide Tiled, Linked, Clean, Kept, Live;
      Neighbours(mem, blocks, i, base, end);
      SparedNone(blocks, mem);
      while mem[block].next != 0 && mem[mem[block].next].free
        invariant Shaped() && i < |blocks| && block == blocks[i].addr && (old(NoStrays()) ==> NoStrays())
        invariant blocks[i].free && Spared(old(blocks), blocks, old(mem), mem)
        invariant LinkedAt(mem, blocks, i) && (i + 1 < |blocks| ==> LinkedAt(mem, blocks, i + 1))
        invariant mem[block].next != 0 <==> i + 1 < |blocks|
        invariant MergeForward(blocks, i) == MergeForward(old(blocks), i)
        decreases |blocks|
      {
        Neighbours(mem, blocks, i, base, end);
        Extent(blocks, i, base, end);
        var expected := AlignUpSize(block + HEADER + mem[block].size);
        if expected != mem[block].next {
          return;
        }
        ghost var bs, m := blocks, mem;
        MergeNext(block, i);
        SparedTwice(old(blocks), bs, blocks, old(mem), m, mem);
        Neighbours(mem, blocks, i, base, end);
      }
    }

    /** One turn of the loop: the right neighbour becomes part of the block and loses its mark. */
    method MergeNext(block: nat, ghost i: nat)
      requires Shaped() && i + 1 < |blocks| && block == blocks[i].addr && blocks[i].free && blocks[i + 1].free
      modifies `mem, `blocks
      ensures Shaped() && (old(NoStrays()) ==> NoStrays()) && Spared(old(blocks), blocks, old(mem), mem)
      ensures blocks == MergeAt(old(blocks), i)
    {
      hide Tiled, Linked, Clean, Spared;
      MergeLinked(mem, blocks, i, base, end);
      MergeSpares(mem, blocks, i, base, end);
      MergeTiles(blocks, i, base, end);
      if NoStrays() {
        MergeClean(mem, blocks, i, base, end);
      }
      Apart(blocks, i, i + 1, base, end);
      ghost var mem' := MergeMem(mem, block);
      var n := mem[block].next;
      var next := mem[n];
      mem := mem[block := mem[block].(size := mem[block].size + HEADER + next.size, next := next.next)];
      if next.next != 0 {
        mem := mem[next.next := mem[next.next].(prev := block)];
      }
      mem := mem[n := Header(0, 0, next.free, 0, 0)];
      assert mem == mem';
      blocks := MergeAt(blocks, i);
    }

    method Mark(block: nat, free: bool, ghost i: nat)
      requires Shaped() && i < |blocks| && block == blocks[i].addr
      modifies `mem, `blocks
      ensures Shaped() && (old(NoStrays()) ==> NoStrays())
      ensures blocks == old(blocks)[i := old(blocks)[i].(free := free)]
      ensures forall b | Live(old(blocks), b) :: Kept(old(mem), mem, b) && (b != old(blocks)[i] ==> Live(blocks, b))
    {
      hide Tiles, Linked, Clean, Kept, Live;
      MarkSpares(mem, blocks, i, free, base, end);
      MarkLinked(mem, blocks, i, free, base, end);
      MarkTiles(blocks, i, free, base, end);
      mem := mem[block := mem[block].(free := free)];
      blocks := blocks[i := blocks[i].(free := free)];
    }

    method Alloc(bytes: nat) returns (r: nat)
      requires Valid() && bytes < U64
      modifies `mem, `blocks
      ensures Valid() && (old(NoStrays()) ==> NoStrays()) && Spared(old(blocks), blocks, old(mem), mem)
      ensures !initialized ==> r == 0 && unchanged(this)
      ensures initialized ==> blocks == Step(old(blocks), Op.Alloc(bytes)) && r == Answer(old(blocks), bytes)
      ensures initialized ==>
        (r == 0 <==> bytes == 0 || bytes > U64 - ALIGN || forall b | b in old(blocks) :: !Roomy(b, bytes))
      ensures r == 0 ==> blocks == old(blocks)
      ensures r != 0 ==> exists f, b :: Served(old(blocks), blocks, bytes, r, f, b)
    {
      hide Tiled, Linked, Clean, Coalesced, Sized, Spared, Served, Tiles;
      SparedNone(blocks, mem);
      r := 0;
      if initialized {
        AllocPromises(blocks, bytes, base, end);
      }
      if !initialized || bytes == 0 {
        return;
      }
      var wanted := AlignUpSize(bytes);
      if wanted == 0 {
        return;
      }
      ghost var i := 0;
      var cur := head;
      Extent(blocks, 0, base, end);
      while cur != 0
        invariant i <= |blocks| && unchanged(this)
        invariant cur == (if i < |blocks| then blocks[i].addr else 0) && (cur == 0 <==> i == |blocks|)
        invariant FirstFit(blocks, wanted, i) == FirstFit(blocks, wanted, 0)
        decreases |blocks| - i
      {
        Neighbours(mem, blocks, i, base, end);
        if mem[cur].magic != MAGIC {
          return;
        }
        if mem[cur].free && mem[cur].size >= wanted {
          Take(cur, wanted, i, bytes);
          return cur + HEADER;
        }
        cur := mem[cur].next;
        i := i + 1;
        if i < |blocks| {
          Extent(blocks, i, base, end);
        }
      }
    }

    /** Set `n` bytes of client data. */
    method Memset(ptr: nat, value: byte, n: nat)
      modifies `data
      ensures forall a | ptr <= a < ptr + n :: a in data && data[a] == value
      ensures forall a: nat | !(ptr <= a < ptr + n) :: (a in data <==> a in old(data)) && (a in data ==> data[a] == old(data)[a])
    {
      for i := 0 to n
        invariant forall a | ptr <= a < ptr + i :: a in data && data[a] == value
        invariant forall a: nat | !(ptr <= a < ptr + i) :: (a in data <==> a in old(data)) && (a in data ==> data[a] == old(data)[a])
      {
        data := data[ptr + i := value];
      }
    }

    /** The product is checked before it is formed; what is handed out is zeroed, and nothing else is written. */
    method Calloc(count: nat, bytes: nat) returns (r: nat)
      requires Valid() && count < U64 && bytes < U64
      modifies `mem, `blocks, `data
      ensures Valid() && (old(NoStrays()) ==> NoStrays()) && Spared(old(blocks), blocks, old(mem), mem)
      ensures count * bytes >= U64 || !initialized ==> r == 0 && unchanged(this)
      ensures count * bytes < U64 && initialized ==>
        blocks == Step(old(blocks), Op.Alloc(count * bytes)) && r == Answer(old(blocks), count * bytes)
      ensures count * bytes < U64 && initialized ==>
        (r == 0 <==> count * bytes == 0 || count * bytes > U64 - ALIGN || forall b | b in old(blocks) :: !Roomy(b, count * bytes))
      ensures r == 0 ==> blocks == old(blocks) && data == old(data)
      ensures r != 0 ==> exists f, b :: Served(old(blocks), blocks, count * bytes, r, f, b)
      ensures r != 0 ==> forall a | r <= a < r + count * bytes :: a in data && data[a] == 0
      ensures r != 0 ==> forall a: nat | !(r <= a < r + count * bytes) ::
        (a in data <==> a in old(data)) && (a in data ==> data[a] == old(data)[a])
    {
      ProductFits(count, bytes);
      SparedNone(blocks, mem);
      if count != 0 && bytes > (U64 - 1) / count {
        return 0;
      }
      var total := count * bytes;
      r := Alloc(total);
      if r != 0 {
        Memset(r, 0, total);
      }
    }

    method GetStats() returns (s: Stats)
      requires Valid()
      ensures !initialized ==> s == Stats(0, 0, 0, 0, 0, 0)
      ensures initialized ==>
        && s.total == end - base && s.blocks == |blocks|
        && s.used == UsedBytes(blocks) && s.free == FreeBytes(blocks) && s.freeBlocks == FreeCount(blocks)
        && s.total == s.used + s.free + HEADER * s.blocks
        && s.largest == Largest(blocks)
    {
      hide Tiled, Linked, UsedBytes, FreeBytes, FreeCount, Largest;
      s := Stats(0, 0, 0, 0, 0, 0);
      if !initialized {
        return;
      }
      BytesAccounted(blocks, base, end);
      NoBytes();
      assert blocks[..0] == [];
      s := s.(total := end - base);
      ghost var i := 0;
      var cur := head;
      Extent(blocks, 0, base, end);
      while cur != 0
        invariant i <= |blocks|
        invariant cur == (if i < |blocks| then blocks[i].addr else 0) && (cur == 0 <==> i == |blocks|)
        invariant s.total == end - base && s.blocks == i
        invariant s.used == UsedBytes(blocks[..i]) && s.free == FreeBytes(blocks[..i]) && s.freeBlocks == FreeCount(blocks[..i])
        invariant s.largest == Largest(blocks[..i])
        decreases |blocks| - i
      {
        Neighbours(mem, blocks, i, base, end);
        SumsGrow(blocks, i);
        LargestGrows(blocks, i);
        var h := mem[cur];
        s := s.(blocks := s.blocks + 1);
        if h.free {
          s := s.(freeBlocks := s.freeBlocks + 1, free := s.free + h.size);
          if h.size > s.largest {
            s := s.(largest := h.size);
          }
        } else {
          s := s.(used := s.used + h.size);
        }
        cur := h.next;
        i := i + 1;
        if i < |blocks| {
          Extent(blocks, i, base, end);
        }
      }
      assert blocks[..i] == blocks;
    }

    method Take(cur: nat, wanted: nat, ghost i: nat, ghost bytes: nat)
      requires Valid() && initialized && wanted == AlignUpSize(bytes) && bytes > 0 && wanted > 0
      requires i == FirstFit(blocks, wanted, 0) < |blocks| && cur == blocks[i].addr
      modifies `mem, `blocks
      ensures Valid() && (old(NoStrays()) ==> NoStrays()) && Spared(old(blocks), blocks, old(mem), mem)
      ensures blocks == Step(old(blocks), Op.Alloc(bytes))
    {
      hide Linked, Clean, Tiles, Coalesced, Sized, Kept;
      StepKeepsInv(blocks, Op.Alloc(bytes), base, end);
      StepSized(blocks, Op.Alloc(bytes), base, end);
      Split(cur, wanted, i);
      ghost var bs, m := blocks, mem;
      Mark(cur, false, i);
      assert bs[i].free;
      SparedTwice(old(blocks), bs, blocks, old(mem), m, mem);
      assert blocks == AllocAt(old(blocks), i, wanted);
    }

    method Free(ptr: nat) returns (r: int)
      requires Valid() && (initialized ==> NoStrays())
      modifies `mem, `blocks
      ensures Valid() && (initialized ==> NoStrays())
      ensures !initialized ==> r == (if ptr == 0 then 0 else -1) && unchanged(this)
      ensures initialized ==> blocks == Step(old(blocks), Op.Free(ptr))
      ensures forall b | Live(old(blocks), b) && b.Payload() != ptr :: Live(blocks, b) && Kept(old(mem), mem, b)
      ensures initialized ==> forall c :: Live(blocks, c) <==> Live(old(blocks), c) && c.Payload() != ptr
      ensures initialized && ptr != 0 && |blocks| <= GUARD ==> (r == 0 <==> UsedAt(old(blocks), ptr))
      ensures initialized ==>
        var i := IndexOf(old(blocks), ptr, 0);
        r == if ptr == 0 then 0
             else if ptr < base || end <= ptr then -1
             else if ptr % ALIGN != 0 then -2
             else if i == |old(blocks)| then -3
             else if old(blocks)[i].free then -4
             else if |blocks| <= GUARD then 0 else -3
    {
      hide Tiled, Linked, Coalesced, Sized, Kept, Live;
      SparedNone(blocks, mem);
      if initialized {
        WhereFound(blocks, ptr, base, end);
        FreePromises(blocks, ptr, base, end);
      }
      if ptr == 0 {
        return 0;
      }
      if !(initialized && base <= ptr < end) {
        return -1;
      }
      if ptr % ALIGN != 0 {
        return -2;
      }
      var block := ptr - HEADER;
      if !(base <= block < end) || !Marked(mem, block) {
        NotFound(mem, blocks, ptr, base, end);
        return -3;
      }
      ghost var i: nat :| i < |blocks| && blocks[i].addr == block;
      FoundAt(blocks, ptr, i, base, end);
      Neighbours(mem, blocks, i, base, end);
      if mem[block].free {
        return -4;
      }
      Release(block, i, ptr);
      r := Recheck();
    }

    method Release(block: nat, ghost i: nat, ghost ptr: nat)
      requires Valid() && initialized && NoStrays() && i == IndexOf(blocks, ptr, 0) < |blocks|
      requires block == blocks[i].addr && !blocks[i].free
      modifies `mem, `blocks
      ensures Valid() && NoStrays()
      ensures blocks == Step(old(blocks), Op.Free(ptr))
      ensures forall b | Live(old(blocks), b) && b.Payload() != ptr :: Live(blocks, b) && Kept(old(mem), mem, b)
    {
      hide Linked, Clean, Tiles, Coalesced, Sized, MergeForward, Kept, Live;
      StepKeepsInv(blocks, Op.Free(ptr), base, end);
      StepSized(blocks, Op.Free(ptr), base, end);
      Mark(block, true, i);
      ghost var marked, m := blocks, mem;
      Coalesce(block, i);
      MergeForwardKeeps(marked, i);
      Neighbours(mem, blocks, i, base, end);
      ghost var bs1, m1 := blocks, mem;
      var prev := mem[block].prev;
      if prev != 0 && mem[prev].free {
        Coalesce(prev, i - 1);
        SparedTwice(marked, bs1, blocks, m, m1, mem);
      }
      KeptTwice(old(blocks), ptr, marked, blocks, old(mem), m, mem);
    }
  }
}
