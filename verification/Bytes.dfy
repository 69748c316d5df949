/**
  Bytes of memory and disk blocks.  The C code overlays packed structs on byte
  buffers on a little-endian machine; a struct field is here a little-endian
  number of `n` bytes at a fixed offset of a byte sequence.
 */
module Bytes {

  type byte = b: int | 0 <= b < 256

  const U32: int := 0x1_0000_0000
  const U64: int := 0x1_0000_0000_0000_0000

  /** The number of values `n` bytes can hold. */
  function Range(n: nat): (r: nat)
    ensures r > 0
  {
    if n == 0 then 1 else 256 * Range(n - 1)
  }

  lemma Ranges()
    ensures Range(1) == 256 && Range(2) == 65536 && Range(4) == U32 && Range(8) == U64
  {
    assert Range(4) == 256 * (256 * (256 * (256 * Range(0))));
    assert Range(8) == 256 * (256 * (256 * (256 * Range(4))));
  }

  function Zeros(n: nat): (s: seq<byte>)
    ensures |s| == n
  {
    seq(n, _ => 0)
  }

  /** Both filesystems work on disk blocks of this size. */
  const BLOCK_SIZE: nat := 512

  type Block = b: seq<byte> | |b| == BLOCK_SIZE witness Zeros(BLOCK_SIZE)

  const ZERO_BLOCK: Block := Zeros(BLOCK_SIZE)

  /** The little-endian number a byte sequence stands for. */
  function Decode(s: seq<byte>): (v: nat)
    ensures v < Range(|s|)
  {
    if s == [] then 0 else s[0] + 256 * Decode(s[1..])
  }

  /** Byte `i` of a number, low byte first. */
  function Digit(v: nat, i: nat): byte
    decreases i
  {
    if i == 0 then v % 256 else Digit(v / 256, i - 1)
  }

  function Encode(v: nat, n: nat): (s: seq<byte>)
    ensures |s| == n
  {
    seq(n, i requires i >= 0 => Digit(v, i))
  }

  lemma {:induction false} DecodeEncode(v: nat, n: nat)
    requires v < Range(n)
    ensures Decode(Encode(v, n)) == v
  {
    if n > 0 {
      DecodeEncode(v / 256, n - 1);
      assert Encode(v, n)[1..] == Encode(v / 256, n - 1);
    }
  }

  /** A field determines its bytes. */
  lemma {:induction false} DecodeInjective(s: seq<byte>, t: seq<byte>)
    requires |s| == |t| && Decode(s) == Decode(t)
    ensures s == t
  {
    if s != [] {
      assert s[0] == t[0];
      DecodeInjective(s[1..], t[1..]);
      assert s == [s[0]] + s[1..] && t == [t[0]] + t[1..];
    }
  }

  /** Two fields hold the same number exactly if they hold the same bytes. */
  lemma SameField(s: seq<byte>, t: seq<byte>, off: nat, n: nat)
    requires off + n <= |s| && off + n <= |t|
    ensures Decode(s[off..off + n]) == Decode(t[off..off + n]) <==> s[off..off + n] == t[off..off + n]
  {
    if Decode(s[off..off + n]) == Decode(t[off..off + n]) {
      DecodeInjective(s[off..off + n], t[off..off + n]);
    }
  }

  lemma {:induction false} DecodeZeros(n: nat)
    ensures Decode(Zeros(n)) == 0
  {
    if n > 0 {
      DecodeZeros(n - 1);
      assert Zeros(n)[1..] == Zeros(n - 1);
    }
  }

  lemma {:induction false} DigitZero(i: nat)
    ensures Digit(0, i) == 0
  {
    if i > 0 {
      DigitZero(i - 1);
    }
  }

  lemma EncodeZero(n: nat)
    ensures Encode(0, n) == Zeros(n)
  {
    forall i: nat | i < n
      ensures Encode(0, n)[i] == 0
    {
      DigitZero(i);
    }
  }

  /** Reading the `n`-byte field at offset `off`. */
  function Get(s: seq<byte>, off: nat, n: nat): nat
    requires off + n <= |s|
  {
    Decode(s[off..off + n])
  }

  /** Storing `v` into the `n`-byte field at offset `off`. */
  function Put(s: seq<byte>, off: nat, n: nat, v: nat): (t: seq<byte>)
    requires off + n <= |s|
    ensures |t| == |s|
    ensures forall i | 0 <= i < |s| && (i < off || off + n <= i) :: t[i] == s[i]
    ensures t[off..off + n] == Encode(v, n)
  {
    s[..off] + Encode(v, n) + s[off + n..]
  }

  /** Overwriting the bytes from offset `off` on. */
  function Splice(s: seq<byte>, off: nat, d: seq<byte>): (t: seq<byte>)
    requires off + |d| <= |s|
    ensures |t| == |s| && t[off..off + |d|] == d
    ensures forall i | 0 <= i < |s| && (i < off || off + |d| <= i) :: t[i] == s[i]
  {
    s[..off] + d + s[off + |d|..]
  }

  /** Two byte sequences agree on a field. */
  predicate SameBytes(a: seq<byte>, b: seq<byte>, off: nat, n: nat)
    requires off + n <= |a| && off + n <= |b|
  {
    a[off..off + n] == b[off..off + n]
  }

  lemma SameBytesExactly(a: seq<byte>, b: seq<byte>, off: nat, n: nat)
    requires off + n <= |a| && off + n <= |b|
    ensures SameBytes(a, b, off, n) <==> Get(a, off, n) == Get(b, off, n)
  {
    SameField(a, b, off, n);
  }

  lemma GetPutSame(s: seq<byte>, off: nat, n: nat, v: nat)
    requires off + n <= |s| && v < Range(n)
    ensures Get(Put(s, off, n, v), off, n) == v
  {
    DecodeEncode(v, n);
  }

  lemma GetPutApart(s: seq<byte>, off: nat, n: nat, v: nat, off': nat, n': nat)
    requires off + n <= |s| && off' + n' <= |s|
    requires off' + n' <= off || off + n <= off'
    ensures Get(Put(s, off, n, v), off', n') == Get(s, off', n')
  {
    assert Put(s, off, n, v)[off'..off' + n'] == s[off'..off' + n'];
  }

  /** A store leaves every field apart from it alone. */
  lemma PutKeeps(s: seq<byte>, off: nat, n: nat, v: nat)
    requires off + n <= |s|
    ensures forall o: nat, m: nat {:trigger Get(Put(s, off, n, v), o, m)} |
      o + m <= |s| && (o + m <= off || off + n <= o) :: Get(Put(s, off, n, v), o, m) == Get(s, o, m)
  {
    forall o: nat, m: nat | o + m <= |s| && (o + m <= off || off + n <= o)
      ensures Get(Put(s, off, n, v), o, m) == Get(s, o, m)
    {
      GetPutApart(s, off, n, v, o, m);
    }
  }

  lemma GetZeros(m: nat, off: nat, n: nat)
    requires off + n <= m
    ensures Get(Zeros(m), off, n) == 0
  {
    assert Zeros(m)[off..off + n] == Zeros(n);
    DecodeZeros(n);
  }

  lemma SpliceKeeps(s: seq<byte>, off: nat, d: seq<byte>, o: nat, m: nat)
    requires off + |d| <= |s| && o + m <= |s| && (o + m <= off || off + |d| <= o)
    ensures Splice(s, off, d)[o..o + m] == s[o..o + m]
  {
  }

  /** Data padded with zero bytes. */
  function Padded(data: seq<byte>, n: nat): (r: seq<byte>)
    requires |data| <= n
    ensures |r| == n
  {
    data + Zeros(n - |data|)
  }

  lemma PaddedBytes(data: seq<byte>, n: nat)
    requires |data| <= n
    ensures Padded(data, n)[..|data|] == data && forall k | |data| <= k < n :: Padded(data, n)[k] == 0
  {
  }
}
