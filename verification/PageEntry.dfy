/**
  The bits of a page-table entry and of a virtual address, as arithmetic on
  unsigned 64-bit numbers.
 */
module PageEntry {
  const PAGE: nat := 4096
  const TOP: nat := 0x10_0000_0000_0000

  /** Bit 0. */
  predicate Present(e: nat) { e % 2 == 1 }

  /** Bit 7. */
  predicate Huge(e: nat) { e / 128 % 2 == 1 }

  /** Bits 12 to 51. */
  function Addr(e: nat): (a: nat)
    ensures a % PAGE == 0 && a < TOP
  {
    e / PAGE % 0x100_0000_0000 * PAGE
  }

  lemma FlagsFit(e: nat)
    ensures Addr(e) <= e
  {
    var q := e / PAGE;
    assert q % 0x100_0000_0000 <= q;
  }

  /** The other bits. */
  function Flags(e: nat): (f: nat)
  {
    FlagsFit(e);
    e - Addr(e)
  }

  /** The flag bits a caller may set: 1 to 4, 8 and 63. */
  function Allowed(flags: nat): nat
  {
    flags / 2 % 16 * 2 + flags / 256 % 2 * 256 + flags / 0x8000_0000_0000_0000 % 2 * 0x8000_0000_0000_0000
  }

  function TableEntry(a: nat): nat { Addr(a) + 3 }

  function LeafEntry(p: nat, flags: nat): nat { Addr(p) + 1 + Allowed(flags) }

  lemma EntryParts(x: nat, low: nat, top: nat)
    requires x < 0x100_0000_0000 && low < PAGE && top <= 1
    ensures Addr(PAGE * x + low + 0x8000_0000_0000_0000 * top) == PAGE * x
  {
    var e := PAGE * x + low + 0x8000_0000_0000_0000 * top;
    assert e / PAGE == x + 0x8_0000_0000_0000 * top;
  }

  lemma LowBitsNotHuge(x: nat)
    ensures !Huge(PAGE * x + 3)
  {
    assert PAGE * x + 3 == 128 * (32 * x) + 3;
    assert (PAGE * x + 3) / 128 == 2 * (16 * x);
  }

  lemma AddrOfFrame(p: nat)
    requires p % PAGE == 0 && p < TOP
    ensures Addr(p) == p
  {
    EntryParts(p / PAGE, 0, 0);
  }

  lemma OddIsPresent(x: nat, k: nat, top: nat)
    ensures Present(PAGE * x + (1 + 2 * k) + 0x8000_0000_0000_0000 * top)
  {
    assert PAGE * x + (1 + 2 * k) + 0x8000_0000_0000_0000 * top == 2 * (2048 * x + k + 0x4000_0000_0000_0000 * top) + 1;
  }

  lemma TableEntryFields(a: nat)
    requires a % PAGE == 0 && a < TOP
    ensures Present(TableEntry(a)) && !Huge(TableEntry(a)) && Addr(TableEntry(a)) == a && Flags(TableEntry(a)) == 3
  {
    hide Present, Huge, Addr;
    var x := a / PAGE;
    AddrOfFrame(a);
    EntryParts(x, 3, 0);
    OddIsPresent(x, 1, 0);
    LowBitsNotHuge(x);
  }

  lemma LeafParts(p: nat, flags: nat)
    ensures LeafEntry(p, flags) ==
      PAGE * (p / PAGE % 0x100_0000_0000) + (1 + 2 * (flags / 2 % 16 + flags / 256 % 2 * 128))
      + 0x8000_0000_0000_0000 * (flags / 0x8000_0000_0000_0000 % 2)
  {
  }

  /** A page entry is present, keeps the address bits and the allowed flags, and nothing else. */
  lemma LeafEntryFields(p: nat, flags: nat)
    ensures Present(LeafEntry(p, flags)) && Addr(LeafEntry(p, flags)) == Addr(p) && Flags(LeafEntry(p, flags)) == 1 + Allowed(flags)
    ensures p % PAGE == 0 && p < TOP ==> Addr(p) == p
  {
    hide Present;
    var x, k, top := p / PAGE % 0x100_0000_0000, flags / 2 % 16 + flags / 256 % 2 * 128, flags / 0x8000_0000_0000_0000 % 2;
    EntryParts(x, 1 + 2 * k, top);
    OddIsPresent(x, k, top);
    LeafParts(p, flags);
    if p % PAGE == 0 && p < TOP {
      AddrOfFrame(p);
    }
  }

  /** The address bits of a number given by its digits: 12 bits, 40 bits, and the rest. */
  lemma AddrDigits(low: nat, x: nat, top: nat)
    requires low < PAGE && x < 0x100_0000_0000
    ensures Addr(low + PAGE * x + TOP * top) == PAGE * x
  {
    var e := low + PAGE * x + TOP * top;
    assert e / PAGE == x + 0x100_0000_0000 * top;
  }

  lemma LowGroup(x: nat, a: nat, b: nat, rest: nat)
    requires a < 2 && b < 16 && x == a + 2 * b + 32 * rest
    ensures x / 2 % 16 == b
  {
    assert x / 2 == b + 16 * rest;
  }

  lemma MiddleGroup(x: nat, low: nat, d: nat, rest: nat)
    requires low < 256 && d < 2 && x == low + 256 * d + 512 * rest
    ensures x / 256 % 2 == d
  {
    assert x / 256 == d + 2 * rest;
  }

  lemma TopBit(x: nat, low: nat, f: nat)
    requires low < 0x8000_0000_0000_0000 && f < 2 && x == low + 0x8000_0000_0000_0000 * f
    ensures x / 0x8000_0000_0000_0000 % 2 == f
  {
  }

  /** Of the flag bits 0; 1-4; 5-7; 8; 9-62; 63 the second, the fourth and the last group are kept. */
  lemma AllowedDigits(a: nat, b: nat, c: nat, d: nat, e: nat, f: nat)
    requires a < 2 && b < 16 && c < 8 && d < 2 && e < 0x40_0000_0000_0000 && f < 2
    ensures Allowed(a + 2 * b + 32 * c + 256 * d + 512 * e + 0x8000_0000_0000_0000 * f) == 2 * b + 256 * d + 0x8000_0000_0000_0000 * f
  {
    var x := a + 2 * b + 32 * c + 256 * d + 512 * e + 0x8000_0000_0000_0000 * f;
    LowGroup(x, a, b, c + 8 * d + 16 * e + 0x400_0000_0000_0000 * f);
    MiddleGroup(x, a + 2 * b + 32 * c, d, e + 0x40_0000_0000_0000 * f);
    TopBit(x, a + 2 * b + 32 * c + 256 * d + 512 * e, f);
  }

  /** Bit 0 says present and bit 7 says huge. */
  lemma FlagDigits(a: nat, b: nat, c: nat, d: nat)
    requires a < 2 && b < 64 && c < 2
    ensures Present(a + 2 * b + 128 * c + 256 * d) <==> a == 1
    ensures Huge(a + 2 * b + 128 * c + 256 * d) <==> c == 1
  {
    var x := a + 2 * b + 128 * c + 256 * d;
    assert x / 128 == c + 2 * d;
    assert x == a + 2 * (b + 64 * c + 128 * d);
  }

  // ---- addresses ----

  type Path = seq<nat>

  predicate Canonical(v: nat)
  {
    if v / 0x8000_0000_0000 % 2 == 1 then v / 0x1_0000_0000_0000 == 0xffff else v / 0x1_0000_0000_0000 == 0
  }

  predicate Page(v: nat)
  {
    Canonical(v) && v % PAGE == 0
  }

  predicate IsPath(p: Path)
  {
    forall i | 0 <= i < |p| :: p[i] < 512
  }

  function PathOf(v: nat): (p: Path)
    ensures |p| == 4 && IsPath(p)
  {
    [v / 0x80_0000_0000 % 512, v / 0x4000_0000 % 512, v / 0x20_0000 % 512, v / 0x1000 % 512]
  }

  function AddressOf(p: Path): nat
    requires |p| == 4 && IsPath(p)
  {
    (if p[0] >= 256 then 0xffff_0000_0000_0000 else 0)
    + p[0] * 0x80_0000_0000 + p[1] * 0x4000_0000 + p[2] * 0x20_0000 + p[3] * 0x1000
  }

  lemma Shifts(v: nat)
    ensures v / 0x20_0000 == v / 0x1000 / 512 && v / 0x4000_0000 == v / 0x20_0000 / 512 && v / 0x80_0000_0000 == v / 0x4000_0000 / 512
    ensures v / 0x8000_0000_0000 == v / 0x80_0000_0000 / 256 && v / 0x1_0000_0000_0000 == v / 0x8000_0000_0000 / 2
  {
  }

  /** Page addresses and paths correspond one to one. */
  lemma AddressRoundTrip(v: nat)
    requires Page(v)
    ensures AddressOf(PathOf(v)) == v
  {
    Shifts(v);
    var n := v / 0x80_0000_0000;
    assert v == n * 0x80_0000_0000 + PathOf(v)[1] * 0x4000_0000 + PathOf(v)[2] * 0x20_0000 + PathOf(v)[3] * 0x1000;
    assert n / 256 % 2 == 1 ==> n / 512 == 0xffff;
    assert n / 256 % 2 == 0 ==> n / 512 == 0;
  }

  lemma Group(r: nat, q: nat)
    requires r < 512
    ensures (r + 512 * q) / 512 == q && (r + 512 * q) % 512 == r
  {
  }

  lemma Groups(n: nat, a: nat, b: nat, c: nat)
    requires a < 512 && b < 512 && c < 512
    ensures var v := 0x1000 * (c + 512 * (b + 512 * (a + 512 * n)));
      && v % 0x1000 == 0 && v / 0x1000 % 512 == c && v / 0x20_0000 % 512 == b && v / 0x4000_0000 % 512 == a
      && v / 0x80_0000_0000 == n && v / 0x8000_0000_0000 == n / 256 && v / 0x1_0000_0000_0000 == n / 256 / 2
  {
    var v := 0x1000 * (c + 512 * (b + 512 * (a + 512 * n)));
    Shifts(v);
    Group(c, b + 512 * (a + 512 * n));
    Group(b, a + 512 * n);
    Group(a, n);
  }

  lemma AddressGroups(p: Path, n: nat)
    requires |p| == 4 && IsPath(p) && n == (if p[0] >= 256 then 0x1_fffe00 else 0) + p[0]
    ensures var v := AddressOf(p);
      && v % 0x1000 == 0 && v / 0x1000 % 512 == p[3] && v / 0x20_0000 % 512 == p[2] && v / 0x4000_0000 % 512 == p[1]
      && v / 0x80_0000_0000 == n && v / 0x8000_0000_0000 == n / 256 && v / 0x1_0000_0000_0000 == n / 256 / 2
  {
    Groups(n, p[1], p[2], p[3]);
  }

  lemma PathRoundTrip(p: Path)
    requires |p| == 4 && IsPath(p)
    ensures Page(AddressOf(p)) && PathOf(AddressOf(p)) == p
  {
    hide AddressOf;
    AddressGroups(p, (if p[0] >= 256 then 0x1_fffe00 else 0) + p[0]);
  }
}
