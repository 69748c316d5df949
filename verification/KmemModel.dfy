/**
  The kernel heap as a list of blocks that tile an arena: first fit with
  splitting, and freeing with coalescing.  Addresses and sizes are multiples of
  16, and every block starts with a 48-byte header.
 */
module KmemModel {
  import opened Bytes

  const ALIGN: nat := 16
  const HEADER: nat := 48
  const MIN_SPLIT: nat := 32

  datatype Blk = Blk(addr: nat, size: nat, free: bool) {
    function Payload(): nat { addr + HEADER }
    function End(): nat { addr + HEADER + size }
  }

  /** The blocks cover `[lo, hi)` exactly, in address order, with aligned sizes. */
  ghost predicate Tiles(bs: seq<Blk>, lo: nat, hi: nat)
  {
    if bs == [] then lo == hi
    else bs[0].addr == lo && bs[0].size % ALIGN == 0 && Tiles(bs[1..], bs[0].End(), hi)
  }

  /** No two neighbours are both free. */
  ghost predicate Coalesced(bs: seq<Blk>)
  {
    forall i | 0 <= i < |bs| - 1 :: !(bs[i].free && bs[i + 1].free)
  }

  ghost predicate Inv(bs: seq<Blk>, lo: nat, hi: nat)
  {
    bs != [] && lo % ALIGN == 0 && Tiles(bs, lo, hi) && Coalesced(bs)
  }

  // ---- tilings ----

  lemma {:induction false} TilesConcat(a: seq<Blk>, b: seq<Blk>, lo: nat, mid: nat, hi: nat)
    requires Tiles(a, lo, mid) && Tiles(b, mid, hi)
    ensures Tiles(a + b, lo, hi)
  {
    if a == [] {
      assert a + b == b;
    } else {
      assert (a + b)[1..] == a[1..] + b;
      TilesConcat(a[1..], b, a[0].End(), mid, hi);
    }
  }

  lemma {:induction false} TilesOrder(bs: seq<Blk>, lo: nat, hi: nat)
    requires Tiles(bs, lo, hi)
    ensures lo <= hi && (bs != [] ==> lo < hi)
  {
    if bs != [] {
      TilesOrder(bs[1..], bs[0].End(), hi);
    }
  }

  lemma {:induction false} TilesSplit(bs: seq<Blk>, i: nat, lo: nat, hi: nat) returns (mid: nat)
    requires Tiles(bs, lo, hi) && i <= |bs|
    ensures Tiles(bs[..i], lo, mid) && Tiles(bs[i..], mid, hi)
    ensures i < |bs| ==> bs[i].addr == mid
    ensures 0 < i ==> bs[i - 1].End() == mid
    ensures lo <= mid <= hi
  {
    TilesOrder(bs, lo, hi);
    if i == 0 {
      mid := lo;
      assert bs[..0] == [] && bs[0..] == bs;
    } else {
      mid := TilesSplit(bs[1..], i - 1, bs[0].End(), hi);
      assert bs[1..][..i - 1] == bs[..i][1..] && bs[1..][i - 1..] == bs[i..];
      assert i == 1 ==> mid == bs[0].End() by {
        if i == 1 {
          assert bs[1..][..0] == [];
        }
      }
    }
  }

  /** Blocks lie inside the arena, are aligned, and earlier ones end where later ones begin or before. */
  lemma {:induction false} TilesFacts(bs: seq<Blk>, lo: nat, hi: nat)
    requires Tiles(bs, lo, hi) && lo % ALIGN == 0
    ensures forall i | 0 <= i < |bs| :: lo <= bs[i].addr && bs[i].End() <= hi && bs[i].addr % ALIGN == 0 && bs[i].size % ALIGN == 0
    ensures forall i, j | 0 <= i < j < |bs| :: bs[i].End() <= bs[j].addr
    ensures forall i | 0 <= i < |bs| - 1 :: bs[i].End() == bs[i + 1].addr
    ensures bs != [] ==> bs[0].addr == lo && bs[|bs| - 1].End() == hi
  {
    if bs != [] {
      var t := bs[1..];
      TilesOrder(t, bs[0].End(), hi);
      TilesFacts(t, bs[0].End(), hi);
      assert forall i | 1 <= i < |bs| :: bs[i] == t[i - 1];
      assert |bs| > 1 ==> bs[|bs| - 1] == t[|t| - 1];
    }
  }

  /** Replacing one block by others that cover the same stretch. */
  lemma TilesReplace(bs: seq<Blk>, i: nat, n: nat, r: seq<Blk>, lo: nat, hi: nat)
    requires Tiles(bs, lo, hi) && lo % ALIGN == 0 && 0 < n && i + n <= |bs|
    requires Tiles(r, bs[i].addr, bs[i + n - 1].End())
    ensures Tiles(bs[..i] + r + bs[i + n..], lo, hi)
  {
    var m1 := TilesSplit(bs, i, lo, hi);
    var m2 := TilesSplit(bs, i + n, lo, hi);
    TilesConcat(bs[..i], r, lo, m1, m2);
    TilesConcat(bs[..i] + r, bs[i + n..], lo, m2, hi);
  }

  // ---- allocation ----

  function AlignUp(v: nat): (r: nat)
    ensures r % ALIGN == 0 && v <= r < v + ALIGN
  {
    (v + ALIGN - 1) / ALIGN * ALIGN
  }

  /** The first free block from `i` on that is large enough, or the number of blocks. */
  function FirstFit(bs: seq<Blk>, wanted: nat, i: nat): (r: nat)
    requires i <= |bs|
    ensures i <= r <= |bs|
    ensures r < |bs| ==> bs[r].free && bs[r].size >= wanted
    ensures forall j | i <= j < r :: !(bs[j].free && bs[j].size >= wanted)
    decreases |bs| - i
  {
    if i == |bs| || (bs[i].free && bs[i].size >= wanted) then i else FirstFit(bs, wanted, i + 1)
  }

  /** The rest of a block is worth a block of its own. */
  predicate Splits(size: nat, wanted: nat)
  {
    size > wanted + HEADER + MIN_SPLIT
  }

  /** What replaces the block chosen for an allocation. */
  function Taken(b: Blk, wanted: nat): (r: seq<Blk>)
    requires b.size >= wanted
    ensures r != []
  {
    if Splits(b.size, wanted) then
      [Blk(b.addr, wanted, false), Blk(b.addr + HEADER + wanted, b.size - wanted - HEADER, true)]
    else [Blk(b.addr, b.size, false)]
  }

  function AllocAt(bs: seq<Blk>, i: nat, wanted: nat): seq<Blk>
    requires i < |bs| && bs[i].size >= wanted
  {
    bs[..i] + Taken(bs[i], wanted) + bs[i + 1..]
  }

  lemma SingleTiles(b: Blk)
    requires b.size % ALIGN == 0
    ensures Tiles([b], b.addr, b.End())
  {
    assert [b][1..] == [];
  }

  lemma PairTiles(b: Blk, c: Blk)
    requires b.size % ALIGN == 0 && c.size % ALIGN == 0 && b.End() == c.addr
    ensures Tiles([b, c], b.addr, c.End())
  {
    assert [b, c][1..] == [c] && [c][1..] == [];
  }

  lemma TakenTiles(b: Blk, wanted: nat)
    requires b.size >= wanted && wanted % ALIGN == 0 && b.size % ALIGN == 0
    ensures Tiles(Taken(b, wanted), b.addr, b.End())
  {
    hide Tiles;
    var r := Taken(b, wanted);
    if Splits(b.size, wanted) {
      PairTiles(r[0], r[1]);
    } else {
      SingleTiles(r[0]);
    }
  }

  lemma AllocCoalesced(bs: seq<Blk>, i: nat, wanted: nat)
    requires Coalesced(bs) && i < |bs| && bs[i].free && bs[i].size >= wanted
    ensures Coalesced(AllocAt(bs, i, wanted))
  {
    var r := Taken(bs[i], wanted);
    var bs' := AllocAt(bs, i, wanted);
    forall j | 0 <= j < |bs'| - 1
      ensures !(bs'[j].free && bs'[j + 1].free)
    {
      if j + 1 < i {
        assert bs'[j] == bs[j] && bs'[j + 1] == bs[j + 1];
      } else if j >= i + |r| - 1 {
        var k := j - |r| + 1;
        assert !(bs[k].free && bs[k + 1].free);
      }
    }
  }

  lemma BlockFacts(bs: seq<Blk>, i: nat, lo: nat, hi: nat)
    requires Tiles(bs, lo, hi) && lo % ALIGN == 0 && i < |bs|
    ensures lo <= bs[i].addr && bs[i].End() <= hi && bs[i].addr % ALIGN == 0 && bs[i].size % ALIGN == 0
  {
    TilesFacts(bs, lo, hi);
  }

  lemma AllocKeepsInv(bs: seq<Blk>, i: nat, wanted: nat, lo: nat, hi: nat)
    requires Inv(bs, lo, hi) && i < |bs| && bs[i].free && bs[i].size >= wanted && wanted % ALIGN == 0
    ensures Inv(AllocAt(bs, i, wanted), lo, hi)
  {
    hide Tiles, Coalesced, Taken;
    BlockFacts(bs, i, lo, hi);
    TakenTiles(bs[i], wanted);
    TilesReplace(bs, i, 1, Taken(bs[i], wanted), lo, hi);
    AllocCoalesced(bs, i, wanted);
  }

  /** The blocks in use. */
  ghost predicate Live(bs: seq<Blk>, b: Blk)
  {
    b in bs && !b.free
  }

  ghost predicate NoneLive(bs: seq<Blk>)
  {
    forall b :: !Live(bs, b)
  }

  lemma InSlices(bs: seq<Blk>, i: nat, b: Blk)
    requires i < |bs|
    ensures b in bs <==> b in bs[..i] || b == bs[i] || b in bs[i + 1..]
  {
    assert bs == bs[..i] + [bs[i]] + bs[i + 1..];
  }

  /** Live payloads are aligned, inside the arena, and apart from each other and from every header. */
  lemma LivePayloadsApart(bs: seq<Blk>, lo: nat, hi: nat, i: nat, j: nat)
    requires Inv(bs, lo, hi) && i < |bs| && j < |bs| && i != j
    ensures bs[i].Payload() % ALIGN == 0 && lo <= bs[i].addr && bs[i].End() <= hi
    ensures bs[i].End() <= bs[j].addr || bs[j].End() <= bs[i].addr
  {
    TilesFacts(bs, lo, hi);
  }

  /** An allocation leaves every live block where it is and adds exactly one, large enough and aligned. */
  lemma AllocAddsOne(bs: seq<Blk>, i: nat, wanted: nat, lo: nat, hi: nat)
    requires Inv(bs, lo, hi) && i < |bs| && bs[i].free && bs[i].size >= wanted && wanted % ALIGN == 0
    ensures var b := Taken(bs[i], wanted)[0];
      && !Live(bs, b) && b.size >= wanted && b.Payload() % ALIGN == 0 && b.addr == bs[i].addr
      && forall c :: Live(AllocAt(bs, i, wanted), c) <==> Live(bs, c) || c == b
  {
    hide Tiles, Coalesced;
    BlockFacts(bs, i, lo, hi);
    var b, bs' := Taken(bs[i], wanted)[0], AllocAt(bs, i, wanted);
    forall j | 0 <= j < |bs|
      ensures bs[j] != b
    {
      if j != i {
        LivePayloadsApart(bs, lo, hi, i, j);
      }
    }
    forall c
      ensures Live(bs', c) <==> Live(bs, c) || c == b
    {
      InSlices(bs, i, c);
    }
  }

  // ---- freeing ----

  /** A block merged with its right neighbour. */
  function MergeAt(bs: seq<Blk>, i: nat): seq<Blk>
    requires i + 1 < |bs|
  {
    bs[..i] + [bs[i].(size := bs[i].size + HEADER + bs[i + 1].size)] + bs[i + 2..]
  }

  /** A block merged with all the free blocks that follow it. */
  function MergeForward(bs: seq<Blk>, i: nat): (r: seq<Blk>)
    requires i < |bs|
    ensures i < |r| <= |bs|
    decreases |bs|
  {
    if i + 1 < |bs| && bs[i + 1].free then MergeForward(MergeAt(bs, i), i) else bs
  }

  function FreeAt(bs: seq<Blk>, i: nat): seq<Blk>
    requires i < |bs|
  {
    var b1 := MergeForward(bs[i := bs[i].(free := true)], i);
    if i > 0 && b1[i - 1].free then MergeForward(b1, i - 1) else b1
  }

  function Left(bs: seq<Blk>, i: nat): (n: nat)
    requires i < |bs|
    ensures n <= i && n <= 1
  {
    if i > 0 && bs[i - 1].free then 1 else 0
  }

  function Right(bs: seq<Blk>, i: nat): (n: nat)
    requires i < |bs|
    ensures i + n < |bs| && n <= 1
  {
    if i + 1 < |bs| && bs[i + 1].free then 1 else 0
  }

  /** The free block that takes the place of a freed block and its free neighbours. */
  function Freed(bs: seq<Blk>, i: nat): Blk
    requires i < |bs|
  {
    var first, last := bs[i - Left(bs, i)], bs[i + Right(bs, i)];
    Blk(first.addr, if last.End() >= first.Payload() then last.End() - first.Payload() else 0, true)
  }

  lemma MergeOnce(bs: seq<Blk>, i: nat)
    requires i < |bs| && (i + 2 < |bs| && bs[i + 1].free ==> !bs[i + 2].free)
    ensures MergeForward(bs, i) == if i + 1 < |bs| && bs[i + 1].free then MergeAt(bs, i) else bs
  {
    if i + 1 < |bs| && bs[i + 1].free {
      var m := MergeAt(bs, i);
      assert i + 1 < |m| ==> m[i + 1] == bs[i + 2];
    }
  }

  lemma NextStarts(bs: seq<Blk>, i: nat, lo: nat, hi: nat)
    requires Tiles(bs, lo, hi) && lo % ALIGN == 0 && i + 1 < |bs|
    ensures bs[i].End() == bs[i + 1].addr
  {
    TilesFacts(bs, lo, hi);
  }

  /** The freed block and what it takes over on its right. */
  lemma RightJoin(bs: seq<Blk>, i: nat, lo: nat, hi: nat)
    requires Inv(bs, lo, hi) && i < |bs| && !bs[i].free
    ensures bs[i + Right(bs, i)].End() >= bs[i].Payload()
    ensures MergeForward(bs[i := bs[i].(free := true)], i) ==
      bs[..i] + [Blk(bs[i].addr, bs[i + Right(bs, i)].End() - bs[i].Payload(), true)] + bs[i + Right(bs, i) + 1..]
  {
    hide Tiles;
    var b0 := bs[i := bs[i].(free := true)];
    assert i + 2 < |bs| ==> !(bs[i + 1].free && bs[i + 1 + 1].free);
    MergeOnce(b0, i);
    if Right(bs, i) == 1 {
      NextStarts(bs, i, lo, hi);
      assert b0[..i] == bs[..i] && b0[i + 2..] == bs[i + 2..];
    } else {
      assert b0 == bs[..i] + [b0[i]] + bs[i + 1..];
    }
  }

  lemma MergeJoin(head: seq<Blk>, m: Blk, tail: seq<Blk>)
    requires head != []
    ensures var i, p := |head|, head[|head| - 1];
      MergeAt(head + [m] + tail, i - 1) == head[..i - 1] + [p.(size := p.size + HEADER + m.size)] + tail
  {
    var bs, i := head + [m] + tail, |head|;
    assert bs[..i - 1] == head[..i - 1] && bs[i - 1 + 2..] == tail;
  }

  lemma LeftJoin(head: seq<Blk>, m: Blk, tail: seq<Blk>)
    requires head != [] && m.free && (tail != [] ==> !tail[0].free)
    ensures var i, p := |head|, head[|head| - 1];
      MergeForward(head + [m] + tail, i - 1) == head[..i - 1] + [p.(size := p.size + HEADER + m.size)] + tail
  {
    hide MergeForward, MergeAt;
    MergeJoin(head, m, tail);
    MergeOnce(head + [m] + tail, |head| - 1);
  }

  /** Freeing replaces the block and its free neighbours, at most one on each side, by one free block. */
  lemma FreeJoins(bs: seq<Blk>, i: nat, lo: nat, hi: nat)
    requires Inv(bs, lo, hi) && i < |bs| && !bs[i].free
    ensures FreeAt(bs, i) == bs[..i - Left(bs, i)] + [Freed(bs, i)] + bs[i + Right(bs, i) + 1..]
  {
    hide Tiles, MergeForward;
    var l, r := Left(bs, i), Right(bs, i);
    RightJoin(bs, i, lo, hi);
    var m := Blk(bs[i].addr, bs[i + r].End() - bs[i].Payload(), true);
    var head, tail := bs[..i], bs[i + r + 1..];
    var b1 := head + [m] + tail;
    assert i > 0 ==> b1[i - 1] == bs[i - 1];
    if l == 1 {
      assert tail != [] ==> !tail[0].free by {
        assert r == 1 && i + 2 < |bs| ==> !(bs[i + 1].free && bs[i + 1 + 1].free);
      }
      LeftJoin(head, m, tail);
      NextStarts(bs, i - 1, lo, hi);
      assert head[..i - 1] == bs[..i - 1];
    }
  }

  /** From one block's payload to the end of a later block is a multiple of the alignment. */
  lemma SpanAligned(first: Blk, last: Blk)
    requires first.addr % ALIGN == 0 && last.addr % ALIGN == 0 && last.size % ALIGN == 0 && last.addr >= first.addr
    ensures last.End() >= first.Payload() && (last.End() - first.Payload()) % ALIGN == 0
  {
    assert last.End() - first.Payload() == last.addr - first.addr + last.size;
  }

  lemma FreedTiles(bs: seq<Blk>, i: nat, lo: nat, hi: nat)
    requires Inv(bs, lo, hi) && i < |bs| && !bs[i].free
    ensures Tiles([Freed(bs, i)], bs[i - Left(bs, i)].addr, bs[i + Right(bs, i)].End())
  {
    hide Coalesced, Tiles;
    var l, r, f := Left(bs, i), Right(bs, i), Freed(bs, i);
    BlockFacts(bs, i, lo, hi);
    if l == 1 {
      NextStarts(bs, i - 1, lo, hi);
      BlockFacts(bs, i - 1, lo, hi);
    }
    if r == 1 {
      NextStarts(bs, i, lo, hi);
      BlockFacts(bs, i + 1, lo, hi);
    }
    SpanAligned(bs[i - l], bs[i + r]);
    SingleTiles(f);
  }

  lemma JoinCoalesced(bs: seq<Blk>, i: nat, l: nat, r: nat, f: Blk)
    requires Coalesced(bs) && i < |bs| && l == Left(bs, i) && r == Right(bs, i) && !bs[i].free
    ensures Coalesced(bs[..i - l] + [f] + bs[i + r + 1..])
  {
    var bs' := bs[..i - l] + [f] + bs[i + r + 1..];
    forall k | 0 <= k < |bs'| - 1
      ensures !(bs'[k].free && bs'[k + 1].free)
    {
      if k + 1 < i - l {
        assert bs'[k] == bs[k] && bs'[k + 1] == bs[k + 1];
      } else if k + 1 == i - l {
        assert bs'[k] == bs[k];
      } else if k == i - l {
        assert bs'[k + 1] == bs[i + r + 1];
      } else {
        assert bs'[k] == bs[k + l + r] && bs'[k + 1] == bs[k + l + r + 1];
      }
    }
  }

  lemma FreeKeepsInv(bs: seq<Blk>, i: nat, lo: nat, hi: nat)
    requires Inv(bs, lo, hi) && i < |bs| && !bs[i].free
    ensures Inv(FreeAt(bs, i), lo, hi)
  {
    hide Tiles, FreeAt, Coalesced;
    FreeJoins(bs, i, lo, hi);
    FreedTiles(bs, i, lo, hi);
    TilesReplace(bs, i - Left(bs, i), Left(bs, i) + Right(bs, i) + 1, [Freed(bs, i)], lo, hi);
    JoinCoalesced(bs, i, Left(bs, i), Right(bs, i), Freed(bs, i));
  }

  lemma FreedIsFree(bs: seq<Blk>, i: nat)
    requires i < |bs|
    ensures Freed(bs, i).free
  {
  }

  lemma Unique(bs: seq<Blk>, i: nat, lo: nat, hi: nat)
    requires Tiles(bs, lo, hi) && lo % ALIGN == 0 && i < |bs|
    ensures forall k | 0 <= k < |bs| && k != i :: bs[k] != bs[i]
  {
    TilesFacts(bs, lo, hi);
  }

  lemma OnlyOneInside(bs: seq<Blk>, i: nat, c: Blk, lo: nat, hi: nat)
    requires Tiles(bs, lo, hi) && lo % ALIGN == 0 && i < |bs| && !bs[i].free && !c.free
    ensures c in bs && c != bs[i] <==> c in bs[..i - Left(bs, i)] || c in bs[i + Right(bs, i) + 1..]
  {
    hide Tiles;
    Unique(bs, i, lo, hi);
    var l, r := Left(bs, i), Right(bs, i);
    if c in bs && c != bs[i] {
      var k :| 0 <= k < |bs| && bs[k] == c;
      if k < i {
        assert bs[..i - l][k] == c;
      } else {
        assert bs[i + r + 1..][k - (i + r + 1)] == c;
      }
    }
  }

  /** A free removes exactly the block it was given from the live ones, and moves no other. */
  lemma FreeRemovesOne(bs: seq<Blk>, i: nat, lo: nat, hi: nat)
    requires Inv(bs, lo, hi) && i < |bs| && !bs[i].free
    ensures forall c :: Live(FreeAt(bs, i), c) <==> Live(bs, c) && c != bs[i]
  {
    hide FreeAt, Tiles, Coalesced, Freed;
    FreeJoins(bs, i, lo, hi);
    forall c
      ensures Live(FreeAt(bs, i), c) <==> Live(bs, c) && c != bs[i]
    {
      assert Freed(bs, i).free by {
        FreedIsFree(bs, i);
      }
      if !c.free {
        OnlyOneInside(bs, i, c, lo, hi);
      }
    }
  }

  // ---- accounting ----

  function UsedBytes(bs: seq<Blk>): nat
  {
    if bs == [] then 0 else (if bs[0].free then 0 else bs[0].size) + UsedBytes(bs[1..])
  }

  function FreeBytes(bs: seq<Blk>): nat
  {
    if bs == [] then 0 else (if bs[0].free then bs[0].size else 0) + FreeBytes(bs[1..])
  }

  /** Used bytes, free bytes and one header for each block make up the arena. */
  lemma {:induction false} BytesAccountedFor(bs: seq<Blk>, lo: nat, hi: nat)
    requires Tiles(bs, lo, hi)
    ensures UsedBytes(bs) + FreeBytes(bs) + HEADER * |bs| == hi - lo
  {
    if bs != [] {
      TilesOrder(bs[1..], bs[0].End(), hi);
      BytesAccountedFor(bs[1..], bs[0].End(), hi);
    }
  }

  /** A heap with nothing allocated is one free block over the whole arena. */
  lemma NothingLiveMeansOneBlock(bs: seq<Blk>, lo: nat, hi: nat)
    requires Inv(bs, lo, hi) && NoneLive(bs)
    ensures lo + HEADER <= hi && bs == [Blk(lo, hi - lo - HEADER, true)]
  {
    assert |bs| > 1 ==> !(bs[0].free && bs[0 + 1].free);
    TilesFacts(bs, lo, hi);
    assert forall i | 0 <= i < |bs| :: bs[i].free by {
      forall i | 0 <= i < |bs|
        ensures bs[i].free
      {
        assert !Live(bs, bs[i]);
      }
    }
  }

  // ---- operations ----

  datatype Op = Alloc(bytes: nat) | Free(ptr: nat)

  /** The size the allocator rounds a request to, or 0 if it does not fit in 64 bits. */
  function AlignUpSize(v: nat): (r: nat)
    ensures r % ALIGN == 0 && (r == 0 || v <= r < U64)
  {
    if v > U64 - ALIGN then 0 else AlignUp(v)
  }

  /** The block whose payload starts at `ptr`, or the number of blocks. */
  function IndexOf(bs: seq<Blk>, ptr: nat, i: nat): (r: nat)
    requires i <= |bs|
    ensures i <= r <= |bs| && (r < |bs| ==> bs[r].Payload() == ptr)
    ensures forall j | i <= j < r :: bs[j].Payload() != ptr
    decreases |bs| - i
  {
    if i == |bs| || bs[i].Payload() == ptr then i else IndexOf(bs, ptr, i + 1)
  }

  /** What an allocation answers: the payload of the block it takes, or 0. */
  function Answer(bs: seq<Blk>, bytes: nat): nat
  {
    var wanted := AlignUpSize(bytes);
    var i := FirstFit(bs, wanted, 0);
    if bytes == 0 || wanted == 0 || i == |bs| then 0 else bs[i].Payload()
  }

  function Step(bs: seq<Blk>, op: Op): seq<Blk>
  {
    match op
    case Alloc(bytes) =>
      var wanted := AlignUpSize(bytes);
      var i := FirstFit(bs, wanted, 0);
      if bytes == 0 || wanted == 0 || i == |bs| then bs else AllocAt(bs, i, wanted)
    case Free(ptr) =>
      var i := IndexOf(bs, ptr, 0);
      if i == |bs| || bs[i].free then bs else FreeAt(bs, i)
  }

  lemma StepKeepsInv(bs: seq<Blk>, op: Op, lo: nat, hi: nat)
    requires Inv(bs, lo, hi)
    ensures Inv(Step(bs, op), lo, hi)
  {
    hide Inv, AllocAt, FreeAt;
    match op
    case Alloc(bytes) =>
      var wanted := AlignUpSize(bytes);
      var i := FirstFit(bs, wanted, 0);
      if bytes != 0 && wanted != 0 && i < |bs| {
        AllocKeepsInv(bs, i, wanted, lo, hi);
      }
    case Free(ptr) =>
      var i := IndexOf(bs, ptr, 0);
      if i < |bs| && !bs[i].free {
        FreeKeepsInv(bs, i, lo, hi);
      }
  }

  // ---- what the operations promise ----

  /** A free block that can take a request of this many bytes. */
  predicate Roomy(b: Blk, bytes: nat)
  {
    b.free && b.size >= bytes
  }

  /**
    The request was served from the free block `f`: `b` is in use where `f` began and
    nothing else about the blocks in use changed.  If more than 80 bytes remain they
    are a free block of their own, otherwise `b` is as large as `f`.
   */
  ghost predicate Served(bs: seq<Blk>, bs': seq<Blk>, bytes: nat, r: nat, f: Blk, b: Blk)
  {
    && f in bs && Roomy(f, bytes) && (forall c | c in bs && Roomy(c, bytes) :: f.addr <= c.addr)
    && r == f.Payload() == b.Payload() && r % ALIGN == 0 && bytes <= b.size && !b.free && !Live(bs, b)
    && (forall c :: Live(bs', c) <==> Live(bs, c) || c == b)
    && (if f.size > AlignUp(bytes) + 80 then
          b.size == AlignUp(bytes) && Blk(b.End(), f.End() - b.End() - HEADER, true) in bs'
        else b.size == f.size)
  }

  lemma RoundedFits(size: nat, bytes: nat)
    requires size % ALIGN == 0 && bytes <= U64 - ALIGN
    ensures AlignUpSize(bytes) == AlignUp(bytes) && (size >= bytes <==> size >= AlignUp(bytes))
  {
  }

  /** An allocation answers 0, and changes nothing, exactly if the request is 0, too large to round, or larger than every free block. */
  lemma RefusedExactly(bs: seq<Blk>, bytes: nat, lo: nat, hi: nat)
    requires Inv(bs, lo, hi)
    ensures Answer(bs, bytes) == 0 <==> bytes == 0 || bytes > U64 - ALIGN || forall b | b in bs :: !Roomy(b, bytes)
    ensures Answer(bs, bytes) == 0 ==> Step(bs, Alloc(bytes)) == bs
  {
    hide Tiles, Coalesced, AllocAt;
    TilesFacts(bs, lo, hi);
    if bytes <= U64 - ALIGN {
      forall j | 0 <= j < |bs|
        ensures bs[j].size >= bytes <==> bs[j].size >= AlignUpSize(bytes)
      {
        RoundedFits(bs[j].size, bytes);
      }
      var i := FirstFit(bs, AlignUpSize(bytes), 0);
      if i < |bs| {
        assert bs[i] in bs && Roomy(bs[i], bytes);
      } else {
        assert forall j | 0 <= j < |bs| :: !Roomy(bs[j], bytes);
      }
    }
  }

  lemma LowestFit(bs: seq<Blk>, bytes: nat, lo: nat, hi: nat)
    requires Inv(bs, lo, hi) && 0 < bytes <= U64 - ALIGN
    ensures var i := FirstFit(bs, AlignUpSize(bytes), 0);
      i < |bs| ==> Roomy(bs[i], bytes) && forall c | c in bs && Roomy(c, bytes) :: bs[i].addr <= c.addr
  {
    hide Tiles, Coalesced;
    TilesFacts(bs, lo, hi);
    var i := FirstFit(bs, AlignUpSize(bytes), 0);
    if i < |bs| {
      forall j | 0 <= j < |bs| && Roomy(bs[j], bytes)
        ensures bs[i].addr <= bs[j].addr
      {
        RoundedFits(bs[j].size, bytes);
      }
    }
  }

  /** An allocation that answers with an address has put one block in use there, and no other. */
  lemma AllocServes(bs: seq<Blk>, bytes: nat, lo: nat, hi: nat) returns (f: Blk, b: Blk)
    requires Inv(bs, lo, hi) && Answer(bs, bytes) != 0
    ensures Served(bs, Step(bs, Alloc(bytes)), bytes, Answer(bs, bytes), f, b)
  {
    hide Tiles, Coalesced, Live, FirstFit, AlignUp;
    var wanted := AlignUpSize(bytes);
    var i := FirstFit(bs, wanted, 0);
    f, b := bs[i], Taken(bs[i], wanted)[0];
    BlockFacts(bs, i, lo, hi);
    RoundedFits(f.size, bytes);
    LowestFit(bs, bytes, lo, hi);
    AllocAddsOne(bs, i, wanted, lo, hi);
    var r := Taken(f, wanted);
    assert |r| == 2 ==> r[1] in AllocAt(bs, i, wanted);
  }

  /** A free takes exactly the block of that address out of use, if there is one. */
  lemma FreeReleases(bs: seq<Blk>, ptr: nat, lo: nat, hi: nat)
    requires Inv(bs, lo, hi)
    ensures forall c :: Live(Step(bs, Free(ptr)), c) <==> Live(bs, c) && c.Payload() != ptr
  {
    hide Tiles, Coalesced, FreeAt;
    TilesFacts(bs, lo, hi);
    var i := IndexOf(bs, ptr, 0);
    if i < |bs| {
      assert forall j | 0 <= j < |bs| && j != i :: bs[j].addr != bs[i].addr;
      if !bs[i].free {
        FreeRemovesOne(bs, i, lo, hi);
      }
    }
  }

  /** A block in use at the start of one list is at the start of the other. */
  lemma LiveAtStart(bs: seq<Blk>, cs: seq<Blk>, lo: nat, hi: nat)
    requires Tiles(bs, lo, hi) && Tiles(cs, lo, hi) && lo % ALIGN == 0 && bs != [] && cs != [] && !bs[0].free
    requires forall c :: Live(bs, c) <==> Live(cs, c)
    ensures cs[0] == bs[0]
  {
    assert Live(bs, bs[0]) && Live(cs, bs[0]);
    TilesFacts(cs, lo, hi);
  }

  /** Where one free block at the start ends, the other cannot go on. */
  lemma FreeAtStart(bs: seq<Blk>, cs: seq<Blk>, lo: nat, hi: nat)
    requires Tiles(bs, lo, hi) && Tiles(cs, lo, hi) && lo % ALIGN == 0 && bs != [] && cs != []
    requires bs[0].free && cs[0].free && Coalesced(bs) && forall c :: Live(bs, c) <==> Live(cs, c)
    ensures bs[0].End() >= cs[0].End()
  {
    TilesFacts(bs, lo, hi);
    TilesFacts(cs, lo, hi);
    if |bs| > 1 {
      assert !(bs[0].free && bs[0 + 1].free);
      assert Live(bs, bs[1]) && Live(cs, bs[1]);
    }
  }

  lemma SameHead(bs: seq<Blk>, cs: seq<Blk>, lo: nat, hi: nat)
    requires Tiles(bs, lo, hi) && Tiles(cs, lo, hi) && Coalesced(bs) && Coalesced(cs) && lo % ALIGN == 0 && bs != [] && cs != []
    requires forall c :: Live(bs, c) <==> Live(cs, c)
    ensures bs[0] == cs[0]
  {
    hide Live, Coalesced;
    if !bs[0].free {
      LiveAtStart(bs, cs, lo, hi);
    } else if !cs[0].free {
      LiveAtStart(cs, bs, lo, hi);
    } else {
      FreeAtStart(bs, cs, lo, hi);
      FreeAtStart(cs, bs, lo, hi);
    }
  }

  lemma TailCoalesced(bs: seq<Blk>)
    requires Coalesced(bs) && bs != []
    ensures Coalesced(bs[1..])
  {
    var t := bs[1..];
    forall i | 0 <= i < |t| - 1
      ensures !(t[i].free && t[i + 1].free)
    {
      assert !(bs[i + 1].free && bs[i + 1 + 1].free);
    }
  }

  lemma SameRest(bs: seq<Blk>, cs: seq<Blk>, lo: nat, hi: nat)
    requires Tiles(bs, lo, hi) && Tiles(cs, lo, hi) && Coalesced(bs) && Coalesced(cs) && lo % ALIGN == 0 && bs != [] && cs != []
    requires bs[0] == cs[0] && forall c :: Live(bs, c) <==> Live(cs, c)
    ensures Coalesced(bs[1..]) && Coalesced(cs[1..]) && bs[0].End() % ALIGN == 0
    ensures forall c :: Live(bs[1..], c) <==> Live(cs[1..], c)
  {
    TailCoalesced(bs);
    TailCoalesced(cs);
    Unique(bs, 0, lo, hi);
    Unique(cs, 0, lo, hi);
    forall c
      ensures Live(bs[1..], c) <==> Live(cs[1..], c)
    {
      InSlices(bs, 0, c);
      InSlices(cs, 0, c);
      assert Live(bs, c) <==> Live(cs, c);
    }
  }

  /** Between blocks in use everything is free and joined: the blocks in use determine the heap. */
  lemma {:induction false} LiveDetermine(bs: seq<Blk>, cs: seq<Blk>, lo: nat, hi: nat)
    requires Tiles(bs, lo, hi) && Tiles(cs, lo, hi) && Coalesced(bs) && Coalesced(cs) && lo % ALIGN == 0
    requires forall c :: Live(bs, c) <==> Live(cs, c)
    ensures bs == cs
    decreases |bs|
  {
    hide Live, Coalesced;
    TilesOrder(bs, lo, hi);
    TilesOrder(cs, lo, hi);
    if bs != [] {
      SameHead(bs, cs, lo, hi);
      SameRest(bs, cs, lo, hi);
      LiveDetermine(bs[1..], cs[1..], bs[0].End(), hi);
    }
  }

  // ---- runs ----

  function Run(bs: seq<Blk>, ops: seq<Op>): seq<Blk>
    decreases |ops|
  {
    if ops == [] then bs else Run(Step(bs, ops[0]), ops[1..])
  }

  /** After any run the blocks tile the arena and no two neighbours are free. */
  lemma {:induction false} RunKeepsInv(bs: seq<Blk>, ops: seq<Op>, lo: nat, hi: nat)
    requires Inv(bs, lo, hi)
    ensures Inv(Run(bs, ops), lo, hi)
    decreases |ops|
  {
    hide Step, Inv;
    if ops != [] {
      StepKeepsInv(bs, ops[0], lo, hi);
      RunKeepsInv(Step(bs, ops[0]), ops[1..], lo, hi);
    }
  }

  /** Whatever the order of the frees, a run that ends with nothing allocated ends with the initial single block. */
  lemma RunEndsWhole(ops: seq<Op>, lo: nat, hi: nat)
    requires lo % ALIGN == 0 && lo + HEADER <= hi && (hi - lo) % ALIGN == 0
    requires NoneLive(Run([Blk(lo, hi - lo - HEADER, true)], ops))
    ensures Run([Blk(lo, hi - lo - HEADER, true)], ops) == [Blk(lo, hi - lo - HEADER, true)]
  {
    hide Run;
    var bs := [Blk(lo, hi - lo - HEADER, true)];
    assert Tiles(bs, lo, hi) by {
      assert bs[1..] == [];
    }
    RunKeepsInv(bs, ops, lo, hi);
    NothingLiveMeansOneBlock(Run(bs, ops), lo, hi);
  }

  lemma StepKeepsLive(bs: seq<Blk>, op: Op, lo: nat, hi: nat, b: Blk)
    requires Inv(bs, lo, hi) && Live(bs, b) && op != Free(b.Payload())
    ensures Live(Step(bs, op), b)
  {
    hide Inv, AllocAt, FreeAt;
    match op
    case Alloc(bytes) =>
      var wanted := AlignUpSize(bytes);
      var i := FirstFit(bs, wanted, 0);
      if bytes != 0 && wanted != 0 && i < |bs| {
        AllocAddsOne(bs, i, wanted, lo, hi);
      }
    case Free(ptr) =>
      var i := IndexOf(bs, ptr, 0);
      if i < |bs| && !bs[i].free {
        FreeRemovesOne(bs, i, lo, hi);
      }
  }

  /** A block in use stays in use, at its address and with its size, until it is freed. */
  lemma {:induction false} LiveUntilFreed(bs: seq<Blk>, ops: seq<Op>, lo: nat, hi: nat, b: Blk)
    requires Inv(bs, lo, hi) && Live(bs, b) && Free(b.Payload()) !in ops
    ensures Live(Run(bs, ops), b)
    decreases |ops|
  {
    hide Step, Inv;
    if ops != [] {
      StepKeepsInv(bs, ops[0], lo, hi);
      StepKeepsLive(bs, ops[0], lo, hi, b);
      LiveUntilFreed(Step(bs, ops[0]), ops[1..], lo, hi, b);
    }
  }

  // ---- addresses over runs ----

  lemma RunSplit(bs: seq<Blk>, ops: seq<Op>, i: nat)
    requires i <= |ops|
    ensures Run(bs, ops) == Run(Run(bs, ops[..i]), ops[i..])
    decreases i
  {
    if i == 0 {
      assert ops[..0] == [] && ops[0..] == ops;
    } else {
      RunSplit(Step(bs, ops[0]), ops[1..], i - 1);
      assert ops[..i][1..] == ops[1..][..i - 1] && ops[1..][i - 1..] == ops[i..];
    }
  }

  /** An allocation takes no byte of a block in use. */
  lemma ServedApart(bs: seq<Blk>, bs': seq<Blk>, bytes: nat, r: nat, f: Blk, b: Blk, c: Blk, lo: nat, hi: nat)
    requires Inv(bs', lo, hi) && Served(bs, bs', bytes, r, f, b) && Live(bs, c)
    ensures b.End() <= c.addr || c.End() <= b.addr
  {
    assert Live(bs', b) && Live(bs', c);
    TilesFacts(bs', lo, hi);
  }

  lemma Between(bs: seq<Blk>, ops: seq<Op>, i: nat, k: nat)
    requires i < k <= |ops|
    ensures Run(bs, ops[..k]) == Run(Step(Run(bs, ops[..i]), ops[i]), ops[i + 1..k])
  {
    hide Step;
    RunSplit(bs, ops[..k], i);
    assert ops[..k][..i] == ops[..i] && ops[..k][i..][0] == ops[i] && ops[..k][i..][1..] == ops[i + 1..k];
  }

  /** In every run: two allocations get payloads that do not overlap unless the first was freed between them. */
  lemma NotHandedOutTwice(bs: seq<Blk>, ops: seq<Op>, i: nat, k: nat, lo: nat, hi: nat)
    requires Inv(bs, lo, hi) && i < k < |ops| && ops[i].Alloc? && ops[k].Alloc?
    ensures var p, q := Answer(Run(bs, ops[..i]), ops[i].bytes), Answer(Run(bs, ops[..k]), ops[k].bytes);
      p != 0 && q != 0 && Free(p) !in ops[i + 1..k] ==> p + ops[i].bytes <= q || q + ops[k].bytes <= p
  {
    hide Inv, Step, Answer;
    var b1, b2 := Run(bs, ops[..i]), Run(bs, ops[..k]);
    var p, q := Answer(b1, ops[i].bytes), Answer(b2, ops[k].bytes);
    RunKeepsInv(bs, ops[..i], lo, hi);
    RunKeepsInv(bs, ops[..k], lo, hi);
    if p != 0 && q != 0 && Free(p) !in ops[i + 1..k] {
      var f, b := AllocServes(b1, ops[i].bytes, lo, hi);
      var g, c := AllocServes(b2, ops[k].bytes, lo, hi);
      StepKeepsInv(b1, ops[i], lo, hi);
      StepKeepsInv(b2, ops[k], lo, hi);
      assert Live(Step(b1, ops[i]), b);
      LiveUntilFreed(Step(b1, ops[i]), ops[i + 1..k], lo, hi, b);
      Between(bs, ops, i, k);
      ServedApart(b2, Step(b2, ops[k]), ops[k].bytes, q, g, c, b, lo, hi);
    }
  }

  /** The addresses handed out in a run and not given back. */
  function Owed(bs: seq<Blk>, ops: seq<Op>, held: set<nat>): set<nat>
    decreases |ops|
  {
    if ops == [] then held
    else
      var r := if ops[0].Alloc? then Answer(bs, ops[0].bytes) else 0;
      Owed(Step(bs, ops[0]), ops[1..], if ops[0].Free? then held - {ops[0].ptr} else if r == 0 then held else held + {r})
  }

  ghost predicate UsedAt(bs: seq<Blk>, p: nat)
  {
    exists b :: Live(bs, b) && b.Payload() == p
  }

  /** The payloads of the blocks in use. */
  ghost predicate InUse(bs: seq<Blk>, held: set<nat>)
  {
    && (forall b | Live(bs, b) :: b.Payload() in held)
    && (forall p | p in held :: UsedAt(bs, p))
  }

  lemma FreeInUse(bs: seq<Blk>, ptr: nat, held: set<nat>, lo: nat, hi: nat)
    requires Inv(bs, lo, hi) && InUse(bs, held)
    ensures InUse(Step(bs, Free(ptr)), held - {ptr})
  {
    hide Inv, Step, Live;
    FreeReleases(bs, ptr, lo, hi);
    forall p | p in held && p != ptr
      ensures UsedAt(Step(bs, Free(ptr)), p)
    {
      assert UsedAt(bs, p);
      var b :| Live(bs, b) && b.Payload() == p;
      assert Live(Step(bs, Free(ptr)), b);
    }
  }

  lemma AllocInUse(bs: seq<Blk>, bytes: nat, held: set<nat>, lo: nat, hi: nat)
    requires Inv(bs, lo, hi) && InUse(bs, held) && Answer(bs, bytes) != 0
    ensures InUse(Step(bs, Alloc(bytes)), held + {Answer(bs, bytes)})
  {
    hide Inv, Step, Answer, Live;
    var f, b := AllocServes(bs, bytes, lo, hi);
    var bs' := Step(bs, Alloc(bytes));
    forall p | p in held + {Answer(bs, bytes)}
      ensures UsedAt(bs', p)
    {
      if p == b.Payload() {
        assert Live(bs', b);
      } else {
        assert UsedAt(bs, p);
        var c :| Live(bs, c) && c.Payload() == p;
        assert Live(bs', c);
      }
    }
  }

  /** In every run the blocks in use are exactly those at the addresses handed out and not given back. */
  lemma {:induction false} LiveAreOwed(bs: seq<Blk>, ops: seq<Op>, held: set<nat>, lo: nat, hi: nat)
    requires Inv(bs, lo, hi) && InUse(bs, held)
    ensures InUse(Run(bs, ops), Owed(bs, ops, held))
    decreases |ops|
  {
    hide Inv, Step, Answer, InUse;
    if ops != [] {
      var bs' := Step(bs, ops[0]);
      StepKeepsInv(bs, ops[0], lo, hi);
      match ops[0] {
        case Free(ptr) =>
          FreeInUse(bs, ptr, held, lo, hi);
          LiveAreOwed(bs', ops[1..], held - {ptr}, lo, hi);
        case Alloc(bytes) =>
          var r := Answer(bs, bytes);
          if r == 0 {
            RefusedExactly(bs, bytes, lo, hi);
            LiveAreOwed(bs', ops[1..], held, lo, hi);
          } else {
            AllocInUse(bs, bytes, held, lo, hi);
            LiveAreOwed(bs', ops[1..], held + {r}, lo, hi);
          }
      }
    }
  }

  /** A run that gives back every address it was handed, in whatever order, ends with the initial single block. */
  lemma AllReturnedEndsWhole(ops: seq<Op>, lo: nat, hi: nat)
    requires lo % ALIGN == 0 && lo + HEADER <= hi && (hi - lo) % ALIGN == 0
    requires Owed([Blk(lo, hi - lo - HEADER, true)], ops, {}) == {}
    ensures Run([Blk(lo, hi - lo - HEADER, true)], ops) == [Blk(lo, hi - lo - HEADER, true)]
  {
    hide Run, Owed;
    var bs := [Blk(lo, hi - lo - HEADER, true)];
    assert Tiles(bs, lo, hi) by {
      assert bs[1..] == [];
    }
    LiveAreOwed(bs, ops, {}, lo, hi);
    RunEndsWhole(ops, lo, hi);
  }
}
