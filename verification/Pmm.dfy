/**
  The physical frame allocator as the program keeps it: a bitmap buffer supplied
  by the caller and counters updated in place.  Every operation is proved to take
  the step of the value model.
 */
module Pmm {
  import opened Bytes
  import opened Bitmap
  import opened PmmModel

  lemma {:induction false} AllOnes(n: nat, k: nat)
    requires k < n
    ensures BitOf(Pow2(n) - 1, k)
    decreases k
  {
    if k > 0 {
      assert (Pow2(n) - 1) / 2 == Pow2(n - 1) - 1;
      AllOnes(n - 1, k - 1);
    }
  }

  class FrameAllocator {
    var bitmap: array<byte>
    var maxPhys: nat
    var frameCount: nat
    var freeFrames: nat
    var usedFrames: nat
    var reservedFrames: nat
    var ignoredFrames: nat
    var nextHint: nat
    var initialized: bool

    ghost predicate Shape()
      reads this
    {
      maxPhys == PAGE * frameCount < U64 && frameCount <= 8 * bitmap.Length && nextHint <= frameCount
    }

    ghost function Value(): (s: State)
      requires Shape()
      reads this, bitmap
      ensures |s.used| == frameCount
    {
      State(Bits(bitmap[..], frameCount), freeFrames, usedFrames, reservedFrames, ignoredFrames, nextHint, initialized)
    }

    constructor ()
      ensures Shape() && !initialized && fresh(bitmap)
    {
      bitmap := new byte[0];
      maxPhys, frameCount, freeFrames, usedFrames := 0, 0, 0, 0;
      reservedFrames, ignoredFrames, nextHint, initialized := 0, 0, 0, false;
    }

    method SetBit(i: nat, v: bool)
      requires Shape() && i < frameCount
      modifies bitmap
      ensures Bits(bitmap[..], frameCount) == old(Bits(bitmap[..], frameCount))[i := v]
    {
      ghost var before := bitmap[..];
      ByteStaysByte(bitmap[i / 8], i % 8, v);
      bitmap[i / 8] := WithBit(bitmap[i / 8], i % 8, v);
      assert bitmap[..] == before[i / 8 := bitmap[i / 8]];
      MarkTests(before, i, v, bitmap[..]);
    }

    method MarkFrameFree(frame: nat)
      requires Shape()
      modifies this`freeFrames, this`usedFrames, this`nextHint, bitmap
      ensures Shape() && Value() == FreeOne(old(Value()), frame)
    {
      if frame >= frameCount {
        return;
      }
      if Test(bitmap[..], frame) {
        SetBit(frame, false);
        freeFrames := freeFrames + 1;
        if usedFrames > 0 {
          usedFrames := usedFrames - 1;
        }
        if frame < nextHint {
          nextHint := frame;
        }
      }
    }

    method MarkFrameUsed(frame: nat)
      requires Shape()
      modifies this`freeFrames, this`usedFrames, bitmap
      ensures Shape() && Value() == UseOne(old(Value()), frame)
    {
      if frame >= frameCount {
        return;
      }
      if !Test(bitmap[..], frame) {
        SetBit(frame, true);
        if freeFrames > 0 {
          freeFrames := freeFrames - 1;
        }
        usedFrames := usedFrames + 1;
      }
    }

    method MarkRangeFree(start: nat, length: nat)
      requires Shape() && start < U64 && length < U64
      modifies this`freeFrames, this`usedFrames, this`nextHint, this`ignoredFrames, bitmap
      ensures Shape() && Value() == FreeRange(old(Value()), start, length)
    {
      hide FreeOne, AlignUp, AlignDown, Bits;
      if length == 0 || U64 - 1 - start < length {
        return;
      }
      var first, stop := AlignUp(start), AlignDown(start + length);
      if stop <= first {
        return;
      }
      if first >= maxPhys {
        return;
      }
      if stop > maxPhys {
        stop := maxPhys;
        ignoredFrames := ignoredFrames + (AlignDown(start + length) - stop) / PAGE;
      }
      FreePages(first, stop);
    }

    method FreePages(first: nat, stop: nat)
      requires Shape() && first % PAGE == 0 && stop % PAGE == 0
      modifies this`freeFrames, this`usedFrames, this`nextHint, bitmap
      ensures Shape() && Value() == FreeSpan(old(Value()), first / PAGE, stop / PAGE)
    {
      hide FreeOne;
      var addr := first;
      while addr < stop
        invariant Shape() && addr % PAGE == 0
        invariant FreeSpan(Value(), addr / PAGE, stop / PAGE) == FreeSpan(old(Value()), first / PAGE, stop / PAGE)
        decreases stop - addr
      {
        MarkFrameFree(addr / PAGE);
        addr := addr + PAGE;
      }
    }

    method MarkRangeUsed(start: nat, length: nat)
      requires Shape() && start < U64 && length < U64
      modifies this`freeFrames, this`usedFrames, this`reservedFrames, bitmap
      ensures Shape() && Value() == PmmModel.ReserveRange(old(Value()), start, length)
    {
      hide ReserveOne, AlignUp, AlignDown, Bits;
      if length == 0 || U64 - 1 - start < length {
        return;
      }
      var first, stop := AlignDown(start), AlignUp(start + length);
      if stop <= first {
        return;
      }
      if first >= maxPhys {
        return;
      }
      if stop > maxPhys {
        stop := maxPhys;
      }
      ReservePages(first, stop);
    }

    method ReservePages(first: nat, stop: nat)
      requires Shape() && first % PAGE == 0 && stop % PAGE == 0 && stop <= maxPhys
      modifies this`freeFrames, this`usedFrames, this`reservedFrames, bitmap
      ensures Shape() && Value() == ReserveSpan(old(Value()), first / PAGE, stop / PAGE)
    {
      hide ReserveOne;
      var addr := first;
      while addr < stop
        invariant Shape() && addr % PAGE == 0
        invariant ReserveSpan(Value(), addr / PAGE, stop / PAGE) == ReserveSpan(old(Value()), first / PAGE, stop / PAGE)
        decreases stop - addr
      {
        ReservePage(addr / PAGE);
        addr := addr + PAGE;
      }
    }

    method ReservePage(frame: nat)
      requires Shape() && frame < frameCount
      modifies this`freeFrames, this`usedFrames, this`reservedFrames, bitmap
      ensures Shape() && Value() == ReserveOne(old(Value()), frame)
    {
      var wasFree := !Test(bitmap[..], frame);
      MarkFrameUsed(frame);
      if wasFree {
        reservedFrames := reservedFrames + 1;
      }
    }

    method Init(regions: seq<Region>, storage: array<byte>, max: nat) returns (ok: bool)
      requires Fits(regions) && max < U64
      modifies this, storage
      ensures ok <==> regions != [] && max != 0 && max % PAGE == 0 && max / PAGE <= 8 * storage.Length
      ensures !ok ==> unchanged(this) && unchanged(storage)
      ensures ok ==> Shape() && bitmap == storage && frameCount == max / PAGE
      ensures ok ==> Value() == InitFromMap(regions, max / PAGE) && Ready(Value())
    {
      hide FreeUsable, ReserveOthers, PmmModel.ReserveRange, Inv, Bits;
      if |regions| == 0 {
        return false;
      }
      if max == 0 || max % PAGE != 0 {
        return false;
      }
      if storage.Length < (max / PAGE + 7) / 8 {
        return false;
      }
      bitmap := storage;
      maxPhys, frameCount := max, max / PAGE;
      freeFrames, usedFrames, reservedFrames, ignoredFrames := 0, frameCount, 0, 0;
      nextHint, initialized := 0, false;
      FillOnes();
      FreeUsableRegions(regions);
      MarkRangeUsed(0, PAGE);
      ReserveOtherRegions(regions);
      InitExactly(regions, frameCount);
      initialized := true;
      return true;
    }

    method FillOnes()
      requires Shape()
      modifies bitmap
      ensures Bits(bitmap[..], frameCount) == seq(frameCount, _ => true)
    {
      var bytes := (frameCount + 7) / 8;
      for i := 0 to bytes
        invariant forall j | 0 <= j < i :: bitmap[j] == 0xff
      {
        bitmap[i] := 0xff;
      }
      forall f: nat | f < frameCount
        ensures Test(bitmap[..], f)
      {
        AllOnes(8, f % 8);
        assert Pow2(8) == 2 * (2 * (2 * (2 * Pow2(4))));
      }
    }

    method FreeUsableRegions(regions: seq<Region>)
      requires Shape() && Fits(regions)
      modifies this`freeFrames, this`usedFrames, this`nextHint, this`ignoredFrames, bitmap
      ensures Shape() && Value() == FreeUsable(old(Value()), regions)
    {
      hide FreeRange;
      for i := 0 to |regions|
        invariant Shape() && Value() == FreeUsable(old(Value()), regions[..i])
      {
        assert regions[..i + 1][..i] == regions[..i];
        if regions[i].usable {
          MarkRangeFree(regions[i].start, regions[i].length);
        }
      }
      assert regions[..|regions|] == regions;
    }

    method ReserveOtherRegions(regions: seq<Region>)
      requires Shape() && Fits(regions)
      modifies this`freeFrames, this`usedFrames, this`reservedFrames, bitmap
      ensures Shape() && Value() == ReserveOthers(old(Value()), regions)
    {
      hide PmmModel.ReserveRange;
      for i := 0 to |regions|
        invariant Shape() && Value() == ReserveOthers(old(Value()), regions[..i])
      {
        assert regions[..i + 1][..i] == regions[..i];
        if !regions[i].usable {
          MarkRangeUsed(regions[i].start, regions[i].length);
        }
      }
      assert regions[..|regions|] == regions;
    }

    /** The first free frame in `[lo, hi)`, or `hi`. */
    method Scan(lo: nat, hi: nat) returns (f: nat)
      requires Shape() && lo <= hi <= frameCount
      ensures f == FirstClear(Value().used[..hi], lo)
    {
      f := lo;
      ghost var bits := Value().used[..hi];
      while f < hi && Test(bitmap[..], f)
        invariant lo <= f <= hi
        invariant FirstClear(bits, f) == FirstClear(bits, lo)
      {
        f := f + 1;
      }
    }

    /** Takes no assumption on the hint: whatever it is, the search covers every frame. */
    method AllocFrame() returns (phys: nat)
      requires Shape()
      modifies this`freeFrames, this`usedFrames, this`nextHint, bitmap
      ensures Shape() && (Value(), phys) == Alloc(old(Value()))
    {
      if !initialized || freeFrames == 0 {
        return INVALID;
      }
      assert Value().used[..frameCount] == Value().used;
      var frame := Scan(nextHint, frameCount);
      if frame < frameCount {
        MarkFrameUsed(frame);
        nextHint := frame + 1;
        return frame * PAGE;
      }
      frame := Scan(0, nextHint);
      if frame < nextHint {
        MarkFrameUsed(frame);
        nextHint := frame + 1;
        return frame * PAGE;
      }
      return INVALID;
    }

    method FreeFrame(phys: nat) returns (ok: bool)
      requires Shape()
      modifies this`freeFrames, this`usedFrames, this`nextHint, bitmap
      ensures Shape() && (Value(), ok) == Free(old(Value()), phys)
    {
      if !initialized {
        return false;
      }
      if phys % PAGE != 0 || phys == 0 || phys >= maxPhys {
        return false;
      }
      var frame := phys / PAGE;
      if !Test(bitmap[..], frame) {
        return false;
      }
      MarkFrameFree(frame);
      return true;
    }

    method ReserveRange(start: nat, length: nat) returns (ok: bool)
      requires Shape() && start < U64 && length < U64
      modifies this`freeFrames, this`usedFrames, this`reservedFrames, bitmap
      ensures Shape() && (Value(), ok) == Reserve(old(Value()), start, length)
      ensures old(Ready(Value())) && UsedBoundsHold(Region(start, length, false), frameCount) ==>
        forall f | 0 <= f < frameCount :: Value().used[f] <==> old(Value()).used[f] || Overlaps(Region(start, length, false), f)
    {
      hide PmmModel.ReserveRange, Overlaps, UsedBoundsHold, Ready;
      if Ready(Value()) {
        ReserveExactly(Value(), start, length);
      }
      if !initialized || length == 0 {
        return false;
      }
      MarkRangeUsed(start, length);
      return true;
    }

    method IsFrameFree(phys: nat) returns (r: bool)
      requires Shape()
      ensures r <==> initialized && phys % PAGE == 0 && phys < maxPhys && !Value().used[phys / PAGE]
    {
      if !initialized {
        return false;
      }
      if phys % PAGE != 0 || phys >= maxPhys {
        return false;
      }
      return !Test(bitmap[..], phys / PAGE);
    }
  }
}
