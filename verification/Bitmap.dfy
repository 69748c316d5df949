/**
  Bitmaps kept in byte buffers: bit `i` is bit `i % 8` of byte `i / 8`, least
  significant bit first.  The frame allocator and both filesystems use the same
  three helpers.
 */
module Bitmap {
  import opened Bytes

  /** Bit `k` of a number: `(b & (1 << k)) != 0`. */
  predicate BitOf(b: nat, k: nat)
    decreases k
  {
    if k == 0 then b % 2 == 1 else BitOf(b / 2, k - 1)
  }

  /** Setting (`v`) or clearing (`!v`) bit `k`: `b | (1 << k)` or `b & ~(1 << k)`. */
  function WithBit(b: nat, k: nat, v: bool): nat
    decreases k
  {
    if k == 0 then b - b % 2 + (if v then 1 else 0)
    else 2 * WithBit(b / 2, k - 1, v) + b % 2
  }

  function Pow2(k: nat): (r: nat)
    ensures r > 0
  {
    if k == 0 then 1 else 2 * Pow2(k - 1)
  }

  lemma {:induction false} WithBitSmall(b: nat, k: nat, v: bool, n: nat)
    requires k < n && b < Pow2(n)
    ensures WithBit(b, k, v) < Pow2(n)
    decreases k
  {
    if k > 0 {
      WithBitSmall(b / 2, k - 1, v, n - 1);
    }
  }

  lemma {:induction false} BitOfWithBit(b: nat, k: nat, v: bool, j: nat)
    ensures BitOf(WithBit(b, k, v), j) == if j == k then v else BitOf(b, j)
    decreases k
  {
    var w := WithBit(b, k, v);
    if k == 0 {
      assert w / 2 == b / 2;
    } else {
      assert w / 2 == WithBit(b / 2, k - 1, v) && w % 2 == b % 2;
      if j > 0 {
        BitOfWithBit(b / 2, k - 1, v, j - 1);
      }
    }
  }

  lemma ShiftHalves(b: bv8)
    ensures (b >> 1) as nat == (b as nat) / 2
  {
  }

  lemma LowBitIsParity(b: bv8)
    ensures (b & 1 != 0) <==> (b as nat) % 2 == 1
  {
  }

  lemma MaskShifts(b: bv8, k: nat)
    requires 0 < k < 8
    ensures ((b >> 1) & (1 << (k - 1))) != 0 <==> (b & (1 << k)) != 0
  {
    if k == 1 {} else if k == 2 {} else if k == 3 {} else if k == 4 {} else if k == 5 {} else if k == 6 {} else {}
  }

  /** `BitOf` is the test the C code writes with a mask on an unsigned char. */
  lemma {:induction false} MaskTest(b: bv8, k: nat)
    requires k < 8
    ensures BitOf(b as nat, k) == ((b & (1 << k)) != 0)
    decreases k
  {
    if k == 0 {
      LowBitIsParity(b);
    } else {
      MaskTest(b >> 1, k - 1);
      MaskShifts(b, k);
      ShiftHalves(b);
    }
  }

  predicate Test(bm: seq<byte>, i: nat)
    requires i < 8 * |bm|
  {
    BitOf(bm[i / 8], i % 8)
  }

  lemma ByteStaysByte(b: byte, k: nat, v: bool)
    requires k < 8
    ensures 0 <= WithBit(b, k, v) < 256
  {
    assert Pow2(8) == 256 by {
      assert Pow2(4) == 2 * (2 * (2 * (2 * Pow2(0))));
      assert Pow2(8) == 2 * (2 * (2 * (2 * Pow2(4))));
    }
    WithBitSmall(b, k, v, 8);
  }

  lemma MarkTests(bm: seq<byte>, i: nat, v: bool, r: seq<byte>)
    requires i < 8 * |bm| && |r| == |bm|
    requires WithBit(bm[i / 8], i % 8, v) < 256
    requires r == bm[i / 8 := WithBit(bm[i / 8], i % 8, v)]
    ensures forall j: nat | j < 8 * |bm| :: Test(r, j) == if j == i then v else Test(bm, j)
  {
    forall j: nat | j < 8 * |bm|
      ensures Test(r, j) == if j == i then v else Test(bm, j)
    {
      if j / 8 == i / 8 {
        BitOfWithBit(bm[i / 8], i % 8, v, j % 8);
      }
    }
  }

  function Mark(bm: seq<byte>, i: nat, v: bool): (r: seq<byte>)
    requires i < 8 * |bm|
    ensures |r| == |bm|
    ensures forall j: nat | j < 8 * |bm| :: Test(r, j) == if j == i then v else Test(bm, j)
  {
    ByteStaysByte(bm[i / 8], i % 8, v);
    var r := bm[i / 8 := WithBit(bm[i / 8], i % 8, v)];
    assert forall j: nat | j < 8 * |bm| :: Test(r, j) == if j == i then v else Test(bm, j) by {
      MarkTests(bm, i, v, r);
    }
    r
  }

  /** The first `n` bits of a bitmap. */
  function Bits(bm: seq<byte>, n: nat): (r: seq<bool>)
    requires n <= 8 * |bm|
    ensures |r| == n && forall i | 0 <= i < n :: r[i] == Test(bm, i)
  {
    seq(n, i requires 0 <= i < n => Test(bm, i))
  }

  /** The first clear bit from `i` on, or the number of bits. */
  function FirstClear(bits: seq<bool>, i: nat): (r: nat)
    requires i <= |bits|
    ensures i <= r <= |bits|
    ensures r < |bits| ==> !bits[r]
    ensures forall j | i <= j < r :: bits[j]
    decreases |bits| - i
  {
    if i == |bits| || !bits[i] then i else FirstClear(bits, i + 1)
  }

  lemma {:induction false} ZeroHasNoBits(k: nat)
    ensures !BitOf(0, k)
  {
    if k > 0 {
      ZeroHasNoBits(k - 1);
    }
  }

  lemma NoBitsSet()
    ensures forall k: nat | k < 8 * BLOCK_SIZE :: !Test(ZERO_BLOCK, k)
  {
    forall k: nat | k < 8 * BLOCK_SIZE
      ensures !Test(ZERO_BLOCK, k)
    {
      ZeroHasNoBits(k % 8);
    }
  }

  // ---- counting ----

  /** The number of clear bits. */
  function Clear(bits: seq<bool>): (n: nat)
    ensures n <= |bits|
  {
    if bits == [] then 0 else Clear(bits[..|bits| - 1]) + if bits[|bits| - 1] then 0 else 1
  }

  lemma {:induction false} ClearUpdate(bits: seq<bool>, i: nat, v: bool)
    requires i < |bits| && bits[i] != v
    ensures Clear(bits[i := v]) == if v then Clear(bits) - 1 else Clear(bits) + 1
    decreases |bits|
  {
    var k := |bits| - 1;
    if i == k {
      assert bits[i := v][..k] == bits[..k];
    } else {
      assert bits[i := v][..k] == bits[..k][i := v];
      ClearUpdate(bits[..k], i, v);
    }
  }

  lemma {:induction false} ClearNone(bits: seq<bool>)
    ensures Clear(bits) == 0 <==> forall i | 0 <= i < |bits| :: bits[i]
    decreases |bits|
  {
    if bits != [] {
      ClearNone(bits[..|bits| - 1]);
      assert forall i | 0 <= i < |bits| - 1 :: bits[i] == bits[..|bits| - 1][i];
    }
  }

  lemma {:induction false} ClearAbove(bits: seq<bool>, n: nat)
    requires n <= |bits| && forall i | 0 <= i < |bits| :: bits[i] == (i < n)
    ensures Clear(bits) == |bits| - n
    decreases |bits|
  {
    if n == |bits| {
      ClearNone(bits);
    } else {
      ClearAbove(bits[..|bits| - 1], n);
    }
  }
}
