/**
  The physical frame allocator on values: one bit per frame (set when used), the
  counters kept beside it, and the hint where the next search starts.
 */
module PmmModel {
  import opened Bytes
  import opened Bitmap

  const PAGE: nat := 4096
  const INVALID: nat := 0xffff_ffff_ffff_ffff

  datatype State = State(used: seq<bool>, free: nat, busy: nat, reserved: nat, ignored: nat, hint: nat, ready: bool)

  datatype Region = Region(start: nat, length: nat, usable: bool)

  // ---- single frames ----

  function FreeOne(s: State, f: nat): (s': State)
    ensures |s'.used| == |s.used|
  {
    if f < |s.used| && s.used[f] then
      s.(used := s.used[f := false], free := s.free + 1,
         busy := if s.busy > 0 then s.busy - 1 else s.busy,
         hint := if f < s.hint then f else s.hint)
    else s
  }

  function UseOne(s: State, f: nat): (s': State)
    ensures |s'.used| == |s.used|
  {
    if f < |s.used| && !s.used[f] then
      s.(used := s.used[f := true], free := if s.free > 0 then s.free - 1 else s.free, busy := s.busy + 1)
    else s
  }

  function ReserveOne(s: State, f: nat): (s': State)
    requires f < |s.used|
    ensures |s'.used| == |s.used|
  {
    var s1 := UseOne(s, f);
    if s.used[f] then s1 else s1.(reserved := s1.reserved + 1)
  }

  // ---- ranges ----

  function FreeSpan(s: State, lo: nat, hi: nat): (s': State)
    ensures |s'.used| == |s.used|
    decreases hi - lo
  {
    if lo >= hi then s else FreeSpan(FreeOne(s, lo), lo + 1, hi)
  }

  function ReserveSpan(s: State, lo: nat, hi: nat): (s': State)
    requires hi <= |s.used|
    ensures |s'.used| == |s.used|
    decreases hi - lo
  {
    if lo >= hi then s else ReserveSpan(ReserveOne(s, lo), lo + 1, hi)
  }

  function AlignDown(v: nat): (r: nat)
    ensures r <= v < r + PAGE && r % PAGE == 0
  {
    v / PAGE * PAGE
  }

  /** 64-bit rounding up: past the last page boundary it wraps to 0. */
  function AlignUp(v: nat): (r: nat)
    requires v < U64
    ensures r % PAGE == 0
    ensures v <= U64 - PAGE ==> v <= r < v + PAGE
    ensures v > U64 - PAGE ==> r == 0
  {
    AlignDown((v + PAGE - 1) % U64)
  }

  /** The frames `[lo, hi)` that a call on a range touches, `hi` at most `n`. */
  datatype Span = Span(lo: nat, hi: nat)

  function FreeSpanOf(start: nat, length: nat, n: nat): (p: Span)
    requires start < U64 && length < U64
    ensures p.hi <= n
  {
    if length == 0 || start + length >= U64 then Span(0, 0)
    else
      var lo, hi := AlignUp(start), AlignDown(start + length);
      if hi <= lo || lo >= PAGE * n then Span(0, 0)
      else Span(lo / PAGE, if hi > PAGE * n then n else hi / PAGE)
  }

  function UsedSpanOf(start: nat, length: nat, n: nat): (p: Span)
    requires start < U64 && length < U64
    ensures p.hi <= n
  {
    if length == 0 || start + length >= U64 then Span(0, 0)
    else
      var lo, hi := AlignDown(start), AlignUp(start + length);
      if hi <= lo || lo >= PAGE * n then Span(0, 0)
      else Span(lo / PAGE, if hi > PAGE * n then n else hi / PAGE)
  }

  /** Frames beyond the supported range that a usable region holds. */
  function IgnoredOf(start: nat, length: nat, n: nat): nat
    requires start < U64 && length < U64
  {
    if length == 0 || start + length >= U64 then 0
    else
      var lo, hi := AlignUp(start), AlignDown(start + length);
      if hi <= lo || lo >= PAGE * n || hi <= PAGE * n then 0 else (hi - PAGE * n) / PAGE
  }

  function FreeRange(s: State, start: nat, length: nat): (s': State)
    requires start < U64 && length < U64
    ensures |s'.used| == |s.used|
  {
    var n := |s.used|;
    var p := FreeSpanOf(start, length, n);
    FreeSpan(s.(ignored := s.ignored + IgnoredOf(start, length, n)), p.lo, p.hi)
  }

  function ReserveRange(s: State, start: nat, length: nat): (s': State)
    requires start < U64 && length < U64
    ensures |s'.used| == |s.used|
  {
    var p := UsedSpanOf(start, length, |s.used|);
    ReserveSpan(s, p.lo, p.hi)
  }

  // ---- operations ----

  ghost predicate Fits(regions: seq<Region>)
  {
    forall i | 0 <= i < |regions| :: regions[i].start < U64 && regions[i].length < U64
  }

  function AllUsed(n: nat): State
  {
    State(seq(n, _ => true), 0, n, 0, 0, 0, false)
  }

  function FreeUsable(s: State, regions: seq<Region>): (s': State)
    requires Fits(regions)
    ensures |s'.used| == |s.used|
    decreases |regions|
  {
    if regions == [] then s
    else
      var s1 := FreeUsable(s, regions[..|regions| - 1]);
      var r := regions[|regions| - 1];
      if r.usable then FreeRange(s1, r.start, r.length) else s1
  }

  function ReserveOthers(s: State, regions: seq<Region>): (s': State)
    requires Fits(regions)
    ensures |s'.used| == |s.used|
    decreases |regions|
  {
    if regions == [] then s
    else
      var s1 := ReserveOthers(s, regions[..|regions| - 1]);
      var r := regions[|regions| - 1];
      if r.usable then s1 else ReserveRange(s1, r.start, r.length)
  }

  function InitFromMap(regions: seq<Region>, n: nat): (s: State)
    requires Fits(regions)
    ensures |s.used| == n
  {
    ReserveOthers(ReserveRange(FreeUsable(AllUsed(n), regions), 0, PAGE), regions).(ready := true)
  }

  /** The hinted search: from the hint to the end, then from the start to the hint. */
  function Choose(s: State): (f: nat)
    requires s.hint <= |s.used|
    ensures f <= |s.used|
  {
    var f := FirstClear(s.used, s.hint);
    if f < |s.used| then f
    else
      var g := FirstClear(s.used[..s.hint], 0);
      if g < s.hint then g else |s.used|
  }

  function Alloc(s: State): (r: (State, nat))
    requires s.hint <= |s.used|
    ensures |r.0.used| == |s.used|
  {
    if !s.ready || s.free == 0 || Choose(s) == |s.used| then (s, INVALID)
    else (UseOne(s, Choose(s)).(hint := Choose(s) + 1), Choose(s) * PAGE)
  }

  predicate Freeable(s: State, phys: nat)
  {
    s.ready && phys % PAGE == 0 && phys != 0 && phys < PAGE * |s.used| && s.used[phys / PAGE]
  }

  function Free(s: State, phys: nat): (State, bool)
  {
    if Freeable(s, phys) then (FreeOne(s, phys / PAGE), true) else (s, false)
  }

  function Reserve(s: State, start: nat, length: nat): (State, bool)
    requires start < U64 && length < U64
  {
    if s.ready && length != 0 then (ReserveRange(s, start, length), true) else (s, false)
  }

  // ---- the invariant ----

  ghost predicate Counted(s: State)
  {
    s.free == Clear(s.used) && s.free + s.busy == |s.used|
  }

  /** Counters right, and nothing free below the hint. */
  ghost predicate Inv(s: State)
  {
    Counted(s) && s.hint <= |s.used| && forall i | 0 <= i < s.hint :: s.used[i]
  }

  /** Once the allocator is ready frame 0 is in use. */
  ghost predicate Ready(s: State)
  {
    Inv(s) && s.ready && (|s.used| > 0 ==> s.used[0])
  }

  lemma ClearBound(bits: seq<bool>, i: nat)
    requires i < |bits|
    ensures !bits[i] ==> Clear(bits) > 0
    ensures bits[i] ==> Clear(bits) < |bits|
  {
    if !bits[i] {
      ClearNone(bits);
    } else {
      ClearUpdate(bits, i, false);
    }
  }

  lemma FreeOneKeeps(s: State, f: nat)
    requires Inv(s)
    ensures Inv(FreeOne(s, f))
    ensures var s' := FreeOne(s, f); forall i | 0 <= i < |s.used| :: s'.used[i] == (s.used[i] && i != f)
    ensures FreeOne(s, f).ready == s.ready
  {
    if f < |s.used| && s.used[f] {
      ClearUpdate(s.used, f, false);
      ClearBound(s.used, f);
    }
  }

  lemma UseOneKeeps(s: State, f: nat)
    requires Inv(s)
    ensures Inv(UseOne(s, f))
    ensures var s' := UseOne(s, f); forall i | 0 <= i < |s.used| :: s'.used[i] == (s.used[i] || i == f)
    ensures UseOne(s, f).ready == s.ready
  {
    if f < |s.used| && !s.used[f] {
      ClearUpdate(s.used, f, true);
      ClearBound(s.used, f);
    }
  }

  lemma ReserveOneKeeps(s: State, f: nat)
    requires Inv(s) && f < |s.used|
    ensures Inv(ReserveOne(s, f)) && ReserveOne(s, f).used == UseOne(s, f).used && ReserveOne(s, f).ready == s.ready
  {
    UseOneKeeps(s, f);
  }

  lemma {:induction false} FreeSpanKeeps(s: State, lo: nat, hi: nat)
    requires Inv(s)
    ensures Inv(FreeSpan(s, lo, hi)) && FreeSpan(s, lo, hi).ready == s.ready
    ensures var s' := FreeSpan(s, lo, hi);
      forall i | 0 <= i < |s.used| :: s'.used[i] == (s.used[i] && !(lo <= i < hi))
    decreases hi - lo
  {
    hide Inv;
    if lo < hi {
      FreeOneKeeps(s, lo);
      FreeSpanKeeps(FreeOne(s, lo), lo + 1, hi);
    }
  }

  lemma {:induction false} ReserveSpanKeeps(s: State, lo: nat, hi: nat)
    requires Inv(s) && hi <= |s.used|
    ensures Inv(ReserveSpan(s, lo, hi)) && ReserveSpan(s, lo, hi).ready == s.ready
    ensures var s' := ReserveSpan(s, lo, hi);
      forall i | 0 <= i < |s.used| :: s'.used[i] == (s.used[i] || lo <= i < hi)
    decreases hi - lo
  {
    hide Inv, ReserveOne;
    if lo < hi {
      UseOneKeeps(s, lo);
      ReserveOneKeeps(s, lo);
      ReserveSpanKeeps(ReserveOne(s, lo), lo + 1, hi);
    }
  }

  lemma FreeRangeKeeps(s: State, start: nat, length: nat)
    requires Inv(s) && start < U64 && length < U64
    ensures Inv(FreeRange(s, start, length)) && FreeRange(s, start, length).ready == s.ready
    ensures var s', p := FreeRange(s, start, length), FreeSpanOf(start, length, |s.used|);
      forall i | 0 <= i < |s.used| :: s'.used[i] == (s.used[i] && !(p.lo <= i < p.hi))
  {
    hide FreeSpanOf, IgnoredOf, FreeSpan;
    var p := FreeSpanOf(start, length, |s.used|);
    FreeSpanKeeps(s.(ignored := s.ignored + IgnoredOf(start, length, |s.used|)), p.lo, p.hi);
  }

  lemma ReserveRangeKeeps(s: State, start: nat, length: nat)
    requires Inv(s) && start < U64 && length < U64
    ensures Inv(ReserveRange(s, start, length)) && ReserveRange(s, start, length).ready == s.ready
    ensures var s', p := ReserveRange(s, start, length), UsedSpanOf(start, length, |s.used|);
      forall i | 0 <= i < |s.used| :: s'.used[i] == (s.used[i] || p.lo <= i < p.hi)
  {
    hide UsedSpanOf, Inv, ReserveSpan;
    var p := UsedSpanOf(start, length, |s.used|);
    ReserveSpanKeeps(s, p.lo, p.hi);
  }

  // ---- allocation ----

  /** The hinted search finds the lowest free frame, never frame 0, and never needs its second loop. */
  lemma AllocTakesLowest(s: State)
    requires Ready(s)
    ensures var (s', a) := Alloc(s);
      && Ready(s')
      && (s.free == 0 <==> a == INVALID) && (s.free == 0 ==> s' == s)
      && (s.free > 0 ==>
            var f := a / PAGE;
            && a == PAGE * f && 0 < f < |s.used| && !s.used[f] && (forall i | 0 <= i < f :: s.used[i])
            && s.hint <= f == FirstClear(s.used, s.hint)
            && s'.used == s.used[f := true])
  {
    ClearNone(s.used);
    if s.free > 0 {
      UseOneKeeps(s, Choose(s));
    }
  }

  /** Freeing frees exactly the frame named, and is refused exactly when that is no frame in use. */
  lemma FreeExactly(s: State, phys: nat)
    requires Ready(s)
    ensures var (s', ok) := Free(s, phys);
      && Ready(s')
      && (ok <==> phys % PAGE == 0 && 0 < phys < PAGE * |s.used| && s.used[phys / PAGE])
      && s'.used == (if ok then s.used[phys / PAGE := false] else s.used)
      && s'.free == (if ok then s.free + 1 else s.free)
  {
    FreeOneKeeps(s, phys / PAGE);
  }

  /** Freeing the frame just allocated gives back the frames, the counters and the hint that serve it again. */
  lemma AllocThenFree(s: State)
    requires Ready(s) && s.free > 0
    ensures var (s1, a) := Alloc(s);
      var (s2, ok) := Free(s1, a);
      ok && s2.used == s.used && s2.free == s.free && s2.busy == s.busy && Alloc(s2).1 == a
  {
    hide Alloc, Free;
    AllocTakesLowest(s);
    var (s1, a) := Alloc(s);
    FreeExactly(s1, a);
    var (s2, ok) := Free(s1, a);
    assert s2.used == s.used;
    AllocTakesLowest(s2);
  }

  /** The reserved counter grows by the number of frames that were free before. */
  lemma {:induction false} ReservedCounts(s: State, lo: nat, hi: nat)
    requires Inv(s) && hi <= |s.used|
    ensures ReserveSpan(s, lo, hi).reserved == s.reserved + Clear(s.used) - Clear(ReserveSpan(s, lo, hi).used)
    decreases hi - lo
  {
    if lo < hi {
      ReserveOneKeeps(s, lo);
      UseOneKeeps(s, lo);
      if !s.used[lo] {
        ClearUpdate(s.used, lo, true);
      }
      ReservedCounts(ReserveOne(s, lo), lo + 1, hi);
    }
  }

  /** Before initialisation every call is refused and changes nothing. */
  lemma RefusedUntilReady(s: State, phys: nat, start: nat, length: nat)
    requires !s.ready && s.hint <= |s.used| && start < U64 && length < U64
    ensures Alloc(s) == (s, INVALID) && Free(s, phys) == (s, false) && Reserve(s, start, length) == (s, false)
  {
  }

  // ---- initialisation ----

  predicate InFreeSpan(r: Region, n: nat, f: nat)
    requires r.start < U64 && r.length < U64
  {
    var p := FreeSpanOf(r.start, r.length, n);
    p.lo <= f < p.hi
  }

  predicate InUsedSpan(r: Region, n: nat, f: nat)
    requires r.start < U64 && r.length < U64
  {
    var p := UsedSpanOf(r.start, r.length, n);
    p.lo <= f < p.hi
  }

  ghost predicate Offered(regions: seq<Region>, n: nat, f: nat)
    requires Fits(regions)
  {
    exists r :: r in regions && r.usable && InFreeSpan(r, n, f)
  }

  ghost predicate Withheld(regions: seq<Region>, n: nat, f: nat)
    requires Fits(regions)
  {
    exists r :: r in regions && !r.usable && InUsedSpan(r, n, f)
  }

  lemma {:induction false} FreeUsableKeeps(s: State, regions: seq<Region>)
    requires Inv(s) && Fits(regions)
    ensures Inv(FreeUsable(s, regions))
    ensures forall i | 0 <= i < |s.used| ::
      FreeUsable(s, regions).used[i] == (s.used[i] && !Offered(regions, |s.used|, i))
    decreases |regions|
  {
    hide Inv, FreeRange, FreeSpanOf;
    if regions != [] {
      var k, n := |regions| - 1, |s.used|;
      var front, r := regions[..k], regions[k];
      FreeUsableKeeps(s, front);
      var s1 := FreeUsable(s, front);
      FreeRangeKeeps(s1, r.start, r.length);
      forall i | 0 <= i < n
        ensures Offered(regions, n, i) == (Offered(front, n, i) || (r.usable && InFreeSpan(r, n, i)))
      {
        assert regions == front + [r];
      }
    }
  }

  lemma {:induction false} ReserveOthersKeeps(s: State, regions: seq<Region>)
    requires Inv(s) && Fits(regions)
    ensures Inv(ReserveOthers(s, regions))
    ensures forall i | 0 <= i < |s.used| ::
      ReserveOthers(s, regions).used[i] == (s.used[i] || Withheld(regions, |s.used|, i))
    decreases |regions|
  {
    hide Inv, ReserveRange, UsedSpanOf;
    if regions != [] {
      var k, n := |regions| - 1, |s.used|;
      var front, r := regions[..k], regions[k];
      ReserveOthersKeeps(s, front);
      var s1 := ReserveOthers(s, front);
      ReserveRangeKeeps(s1, r.start, r.length);
      forall i | 0 <= i < n
        ensures Withheld(regions, n, i) == (Withheld(front, n, i) || (!r.usable && InUsedSpan(r, n, i)))
      {
        assert regions == front + [r];
      }
    }
  }

  lemma {:induction false} AllUsedInv(n: nat)
    ensures Inv(AllUsed(n))
  {
    ClearNone(AllUsed(n).used);
  }

  lemma FirstPage(n: nat)
    ensures UsedSpanOf(0, PAGE, n) == if n == 0 then Span(0, 0) else Span(0, 1)
  {
  }

  /** Which frames are free after initialisation, in terms of the spans the code computes, for every map. */
  lemma InitExactly(regions: seq<Region>, n: nat)
    requires Fits(regions)
    ensures Ready(InitFromMap(regions, n))
    ensures forall f | 0 <= f < n ::
      !InitFromMap(regions, n).used[f] <==> f != 0 && Offered(regions, n, f) && !Withheld(regions, n, f)
  {
    hide FreeUsable, ReserveOthers, ReserveRange;
    var s0 := AllUsed(n);
    AllUsedInv(n);
    FreeUsableKeeps(s0, regions);
    var s1 := FreeUsable(s0, regions);
    ReserveRangeKeeps(s1, 0, PAGE);
    FirstPage(n);
    var s2 := ReserveRange(s1, 0, PAGE);
    ReserveOthersKeeps(s2, regions);
  }

  function IgnoredAll(regions: seq<Region>, n: nat): nat
    requires Fits(regions)
  {
    if regions == [] then 0
    else
      var r := regions[|regions| - 1];
      IgnoredAll(regions[..|regions| - 1], n) + if r.usable then IgnoredOf(r.start, r.length, n) else 0
  }

  lemma {:induction false} FreeSpanCounts(s: State, lo: nat, hi: nat)
    ensures FreeSpan(s, lo, hi).ignored == s.ignored && FreeSpan(s, lo, hi).reserved == s.reserved
    decreases hi - lo
  {
    if lo < hi {
      FreeSpanCounts(FreeOne(s, lo), lo + 1, hi);
    }
  }

  lemma {:induction false} ReserveSpanIgnores(s: State, lo: nat, hi: nat)
    requires hi <= |s.used|
    ensures ReserveSpan(s, lo, hi).ignored == s.ignored
    decreases hi - lo
  {
    if lo < hi {
      ReserveSpanIgnores(ReserveOne(s, lo), lo + 1, hi);
    }
  }

  lemma {:induction false} FreeUsableCounts(s: State, regions: seq<Region>)
    requires Fits(regions)
    ensures FreeUsable(s, regions).ignored == s.ignored + IgnoredAll(regions, |s.used|)
    ensures FreeUsable(s, regions).reserved == s.reserved
    decreases |regions|
  {
    hide FreeSpanOf, IgnoredOf, FreeSpan;
    if regions != [] {
      var k, n := |regions| - 1, |s.used|;
      var front, r := regions[..k], regions[k];
      FreeUsableCounts(s, front);
      var s1 := FreeUsable(s, front);
      var p := FreeSpanOf(r.start, r.length, n);
      FreeSpanCounts(s1.(ignored := s1.ignored + IgnoredOf(r.start, r.length, n)), p.lo, p.hi);
    }
  }

  lemma ReserveRangeCounts(s: State, start: nat, length: nat)
    requires Inv(s) && start < U64 && length < U64
    ensures ReserveRange(s, start, length).reserved + ReserveRange(s, start, length).free == s.reserved + s.free
    ensures ReserveRange(s, start, length).ignored == s.ignored
  {
    var p := UsedSpanOf(start, length, |s.used|);
    ReservedCounts(s, p.lo, p.hi);
    ReserveSpanIgnores(s, p.lo, p.hi);
    ReserveRangeKeeps(s, start, length);
  }

  lemma {:induction false} ReserveOthersCounts(s: State, regions: seq<Region>)
    requires Inv(s) && Fits(regions)
    ensures ReserveOthers(s, regions).reserved + ReserveOthers(s, regions).free == s.reserved + s.free
    ensures ReserveOthers(s, regions).ignored == s.ignored
    decreases |regions|
  {
    hide Inv, ReserveRange;
    if regions != [] {
      var k := |regions| - 1;
      ReserveOthersCounts(s, regions[..k]);
      ReserveOthersKeeps(s, regions[..k]);
      ReserveRangeCounts(ReserveOthers(s, regions[..k]), regions[k].start, regions[k].length);
    }
  }

  /** The frames some usable region offers, as clear bits. */
  ghost predicate Offers(bits: seq<bool>, regions: seq<Region>, n: nat)
    requires Fits(regions)
  {
    |bits| == n && forall f | 0 <= f < n :: bits[f] <==> !Offered(regions, n, f)
  }

  /** The counters after initialisation: every frame offered is free or was reserved, and the ignored frames add up. */
  lemma InitCounts(regions: seq<Region>, n: nat)
    requires Fits(regions)
    ensures var s := InitFromMap(regions, n);
      && s.ignored == IgnoredAll(regions, n)
      && exists bits :: Offers(bits, regions, n) && s.reserved + s.free == Clear(bits)
  {
    hide FreeUsable, ReserveOthers, ReserveRange, Offered;
    var s0 := AllUsed(n);
    AllUsedInv(n);
    FreeUsableKeeps(s0, regions);
    FreeUsableCounts(s0, regions);
    var s1 := FreeUsable(s0, regions);
    ReserveRangeKeeps(s1, 0, PAGE);
    ReserveRangeCounts(s1, 0, PAGE);
    ReserveOthersCounts(ReserveRange(s1, 0, PAGE), regions);
    assert Offers(s1.used, regions, n);
  }

  /** The order of the regions does not matter, nor do repetitions. */
  lemma OrderDoesNotMatter(a: seq<Region>, b: seq<Region>, n: nat)
    requires Fits(a) && Fits(b) && forall r :: r in a <==> r in b
    ensures InitFromMap(a, n).used == InitFromMap(b, n).used
  {
    hide InitFromMap, InFreeSpan, InUsedSpan;
    InitExactly(a, n);
    InitExactly(b, n);
    assert forall f | 0 <= f < n :: Offered(a, n, f) == Offered(b, n, f);
    assert forall f | 0 <= f < n :: Withheld(a, n, f) == Withheld(b, n, f);
  }

  // ---- what the spans mean ----

  /** The whole frame lies in the region. */
  predicate Inside(r: Region, f: nat)
  {
    r.start <= PAGE * f && PAGE * (f + 1) <= r.start + r.length
  }

  /** Some byte of the frame lies in the region. */
  predicate Overlaps(r: Region, f: nat)
  {
    r.length > 0 && r.start < PAGE * (f + 1) && PAGE * f < r.start + r.length
  }

  /** The bounds of a usable region survive the 64-bit arithmetic, or the region is out of range anyway. */
  predicate FreeBoundsHold(r: Region, n: nat)
    requires r.start < U64
  {
    r.length == 0 || n == 0 ||
    if r.start + r.length < U64 then r.start <= U64 - PAGE
    else r.start > PAGE * (n - 1)
  }

  predicate UsedBoundsHold(r: Region, n: nat)
  {
    r.length == 0 || r.start + r.length <= U64 - PAGE || r.start >= PAGE * n
  }

  /** The frames freed for a usable region are those wholly inside it, exactly when its bounds hold. */
  lemma FreeSpanExactly(r: Region, n: nat)
    requires r.start < U64 && r.length < U64 && PAGE * n < U64
    ensures (forall f | 0 <= f < n :: InFreeSpan(r, n, f) == Inside(r, f)) <==> FreeBoundsHold(r, n)
  {
    if FreeBoundsHold(r, n) {
      assert forall f | 0 <= f < n :: InFreeSpan(r, n, f) == Inside(r, f);
    } else if r.start + r.length < U64 {
      assert InFreeSpan(r, n, 0) && !Inside(r, 0);
    } else {
      assert !InFreeSpan(r, n, n - 1) && Inside(r, n - 1);
    }
  }

  /** The frames reserved for another region are those it overlaps, exactly when its bounds hold. */
  lemma UsedSpanExactly(r: Region, n: nat)
    requires r.start < U64 && r.length < U64 && PAGE * n < U64
    ensures (forall f | 0 <= f < n :: InUsedSpan(r, n, f) == Overlaps(r, f)) <==> UsedBoundsHold(r, n)
  {
    if UsedBoundsHold(r, n) {
      assert forall f | 0 <= f < n :: InUsedSpan(r, n, f) == Overlaps(r, f);
    } else {
      var f := r.start / PAGE;
      assert !InUsedSpan(r, n, f) && Overlaps(r, f);
    }
  }

  /** The frames counted as ignored: those of a region that begins in range and goes on past the end. */
  lemma IgnoredExactly(r: Region, n: nat)
    requires r.start <= U64 - PAGE && r.start + r.length < U64 && PAGE * n < U64
    ensures AlignUp(r.start) < PAGE * n ==> forall f | f >= n :: Inside(r, f) <==> f < n + IgnoredOf(r.start, r.length, n)
    ensures AlignUp(r.start) >= PAGE * n ==> IgnoredOf(r.start, r.length, n) == 0
  {
  }

  /** A reservation takes exactly the frames that the range overlaps, when its bounds hold. */
  lemma ReserveMeaning(s: State, start: nat, length: nat, f: nat)
    requires Inv(s) && start < U64 && length < U64 && PAGE * |s.used| < U64 && f < |s.used|
    requires UsedBoundsHold(Region(start, length, false), |s.used|)
    ensures ReserveRange(s, start, length).used[f] <==> s.used[f] || Overlaps(Region(start, length, false), f)
  {
    hide ReserveRange, Overlaps, UsedBoundsHold;
    var r := Region(start, length, false);
    ReserveRangeKeeps(s, start, length);
    UsedSpanExactly(r, |s.used|);
    assert InUsedSpan(r, |s.used|, f) == Overlaps(r, f);
  }

  lemma EmptyOverlapsNothing(r: Region)
    requires r.length == 0
    ensures forall f: nat :: !Overlaps(r, f)
  {
  }

  /**
    A reservation succeeds exactly for a range that is not empty; then the frames it
    overlaps are in use and no others have changed, and those that were free count as
    reserved.
   */
  lemma ReserveExactly(s: State, start: nat, length: nat)
    requires Ready(s) && start < U64 && length < U64 && PAGE * |s.used| < U64
    ensures var (s', ok) := Reserve(s, start, length);
      && Ready(s') && |s'.used| == |s.used| && (ok <==> length != 0) && (!ok ==> s' == s)
      && s'.reserved + s'.free == s.reserved + s.free
      && (UsedBoundsHold(Region(start, length, false), |s.used|) ==>
            forall f | 0 <= f < |s.used| :: s'.used[f] <==> s.used[f] || Overlaps(Region(start, length, false), f))
  {
    hide ReserveRange, Overlaps, UsedBoundsHold, Inv;
    var r := Region(start, length, false);
    if length != 0 {
      ReserveRangeKeeps(s, start, length);
      ReserveRangeCounts(s, start, length);
      if UsedBoundsHold(r, |s.used|) {
        forall f | 0 <= f < |s.used|
          ensures ReserveRange(s, start, length).used[f] <==> s.used[f] || Overlaps(r, f)
        {
          ReserveMeaning(s, start, length, f);
        }
      }
    } else {
      assert forall f | 0 <= f < |s.used| :: !Overlaps(r, f) by {
        EmptyOverlapsNothing(r);
      }
    }
  }

  ghost predicate BoundsHold(regions: seq<Region>, n: nat)
    requires Fits(regions)
  {
    forall r | r in regions :: if r.usable then FreeBoundsHold(r, n) else UsedBoundsHold(r, n)
  }

  /** Every region that ends at or below the last page boundary has bounds that hold. */
  lemma LowRegionsHold(regions: seq<Region>, n: nat)
    requires Fits(regions) && forall r | r in regions :: r.start + r.length <= U64 - PAGE
    ensures BoundsHold(regions, n)
  {
  }

  /** Free after initialisation: not frame 0, wholly inside a usable region, and clear of all other regions. */
  lemma InitMeaning(regions: seq<Region>, n: nat, f: nat)
    requires Fits(regions) && BoundsHold(regions, n) && PAGE * n < U64 && f < n
    ensures !InitFromMap(regions, n).used[f] <==>
      && f != 0
      && (exists r :: r in regions && r.usable && Inside(r, f))
      && (forall r | r in regions && !r.usable :: !Overlaps(r, f))
  {
    hide InitFromMap, InFreeSpan, InUsedSpan, Inside, Overlaps, FreeBoundsHold, UsedBoundsHold;
    InitExactly(regions, n);
    forall r | r in regions
      ensures r.usable ==> InFreeSpan(r, n, f) == Inside(r, f)
      ensures !r.usable ==> InUsedSpan(r, n, f) == Overlaps(r, f)
    {
      if r.usable {
        FreeSpanExactly(r, n);
      } else {
        UsedSpanExactly(r, n);
      }
    }
  }

  /** A five-byte usable region just below 2^64 frees every frame but frame 0. */
  lemma WrappedRegionFreesAll(n: nat, f: nat)
    requires PAGE * n < U64 && 0 < f < n
    ensures var r := Region(U64 - 10, 5, true); !InitFromMap([r], n).used[f] && !Inside(r, f)
  {
    var r := Region(U64 - 10, 5, true);
    InitExactly([r], n);
    assert InFreeSpan(r, n, f);
  }

  /** A reserved region whose end rounds up past 2^64 reserves nothing, not even memory that is offered. */
  lemma LateRegionReservesNothing(f: nat)
    requires 0 < f && PAGE * (f + 1) <= U64 - PAGE
    ensures var bad, all := Region(PAGE * f, U64 - 1 - PAGE * f, false), Region(0, U64 - PAGE, true);
      !InitFromMap([all, bad], f + 1).used[f] && Overlaps(bad, f)
  {
    hide InitFromMap;
    var bad, all := Region(PAGE * f, U64 - 1 - PAGE * f, false), Region(0, U64 - PAGE, true);
    InitExactly([all, bad], f + 1);
    assert InFreeSpan(all, f + 1, f) && !InUsedSpan(bad, f + 1, f);
  }

  // ---- runs ----

  datatype Event = AllocFrame | FreeFrame(phys: nat) | ReserveFrames(start: nat, length: nat)

  predicate EventOk(e: Event)
  {
    e.ReserveFrames? ==> e.start < U64 && e.length < U64
  }

  function Step(s: State, e: Event): State
    requires EventOk(e) && s.hint <= |s.used|
  {
    match e
    case AllocFrame => Alloc(s).0
    case FreeFrame(phys) => Free(s, phys).0
    case ReserveFrames(start, length) => Reserve(s, start, length).0
  }

  lemma StepKeeps(s: State, e: Event)
    requires Ready(s) && EventOk(e)
    ensures Ready(Step(s, e)) && |Step(s, e).used| == |s.used|
    ensures forall f | 0 <= f < |s.used| && s.used[f] && e != FreeFrame(PAGE * f) :: Step(s, e).used[f]
  {
    hide ReserveRange;
    match e {
      case AllocFrame => AllocTakesLowest(s);
      case FreeFrame(phys) => FreeOneKeeps(s, phys / PAGE);
      case ReserveFrames(start, length) => ReserveRangeKeeps(s, start, length);
    }
  }

  ghost predicate EventsOk(es: seq<Event>)
  {
    forall e | e in es :: EventOk(e)
  }

  ghost function Run(s: State, es: seq<Event>): (s': State)
    requires Ready(s) && EventsOk(es)
    ensures Ready(s') && |s'.used| == |s.used|
    decreases |es|
  {
    if es == [] then s else (StepKeeps(s, es[0]); Run(Step(s, es[0]), es[1..]))
  }

  /** A frame that was handed out is not handed out again before it is freed. */
  lemma {:induction false} NotHandedOutTwice(s: State, es: seq<Event>, f: nat)
    requires Ready(s) && EventsOk(es) && f < |s.used| && s.used[f] && FreeFrame(PAGE * f) !in es
    ensures Run(s, es).used[f] && Alloc(Run(s, es)).1 != PAGE * f
    decreases |es|
  {
    hide Alloc, Step;
    if es == [] {
      AllocTakesLowest(s);
    } else {
      StepKeeps(s, es[0]);
      NotHandedOutTwice(Step(s, es[0]), es[1..], f);
    }
  }

  /** A frame of a reserved range is not handed out before it is freed. */
  lemma ReservedNotHandedOut(s: State, start: nat, length: nat, es: seq<Event>, f: nat)
    requires Ready(s) && start < U64 && length < U64 && PAGE * |s.used| < U64 && EventsOk(es) && f < |s.used|
    requires UsedBoundsHold(Region(start, length, false), |s.used|) && Overlaps(Region(start, length, false), f)
    requires FreeFrame(PAGE * f) !in es
    ensures var s' := Reserve(s, start, length).0;
      Ready(s') && |s'.used| == |s.used| && Run(s', es).used[f] && Alloc(Run(s', es)).1 != PAGE * f
  {
    hide Reserve, Alloc, Overlaps, UsedBoundsHold;
    ReserveExactly(s, start, length);
    NotHandedOutTwice(Reserve(s, start, length).0, es, f);
  }
}
