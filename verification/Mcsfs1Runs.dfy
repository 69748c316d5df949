/**
  Runs of MCSFS1 operations as runs on a map from names to byte strings, and what
  happens to a name that fills its directory field.
 */
module Mcsfs1Runs {
  import opened Bytes
  import opened Bitmap
  import opened CStrings
  import opened Mcsfs1Layout
  import opened Mcsfs1Files
  import opened Mcsfs1

  // ---- names that fill their field ----

  lemma {:induction false} WholeField(a: seq<byte>)
    requires |CName(a)| == |a|
    ensures CName(a) == a && 0 !in a
  {
    if a != [] {
      WholeField(a[1..]);
      assert a == [a[0]] + a[1..];
    }
  }

  lemma LowByte(s: seq<byte>)
    requires |s| > 0 && Decode(s) < 256
    ensures s[0] == Decode(s)
  {
  }

  /** A slot whose name fills its field is found exactly when the next slot is free, whatever else the directory holds. */
  lemma FullSlotFound(b: Block, i: nat, name: CString)
    requires i + 1 < DIRENTS && |name| == MAX_NAME && EntryAt(b, i).ino != 0 && EntryAt(b, i).name == name
    requires EntryAt(b, i + 1).ino <= MAX_INODES
    ensures Finds(b, i, name) <==> EntryAt(b, i + 1).ino == 0
  {
    hide CName;
    SafeBounded(b, i);
    var off := 32 * i + 5;
    WholeField(b[off..off + MAX_NAME]);
    forall z | off <= z < off + MAX_NAME
      ensures b[z] != 0
    {
      assert b[z] == b[off..off + MAX_NAME][z - off];
    }
    assert Strlen(b, off, MAX_NAME + 1) >= MAX_NAME;
    assert b[off + MAX_NAME] == b[32 * (i + 1)];
    LowByte(b[32 * (i + 1)..32 * (i + 1) + 4]);
  }

  lemma EarlySlotSafe(b: Block, i: nat)
    requires i + 1 < DIRENTS
    ensures Safe(b, i)
  {
  }

  /** An entry of a volume that stands for a map is not taken for a name that fills its field. */
  lemma OtherSlot(d: Disk, files: Files, b: Block, k: nat, name: CString)
    requires Represents(d, files) && k < DIRENTS && EntryAt(b, k) == ViewOf(d).dir[k] && |name| == MAX_NAME
    ensures Safe(b, k) && !Finds(b, k, name) && EntryAt(b, k).ino <= MAX_INODES
  {
    hide ViewOf, InodeOk, Disjoint, Finds, EntryAt;
    var v := ViewOf(d);
    assert Live(v, k) ==> EntryOk(v, |d|, v.dir[k]);
    ShortNameFound(b, k, name);
  }

  /** A lookup that can match one slot only. */
  lemma FoundOnlyAt(b: Block, slot: nat, name: CString)
    requires slot < DIRENTS && |name| <= MAX_NAME && Safe(b, DIRENTS - 1)
    requires forall k | 0 <= k < DIRENTS && k != slot :: Safe(b, k) && !Finds(b, k, name)
    requires Safe(b, slot)
    ensures LookupFrom(b, name, 0) == if Finds(b, slot, name) then slot else DIRENTS
  {
  }

  /**
    A name of 27 bytes leaves its field without a terminator: after its creation in
    any slot but the last, the lookup finds it exactly when the next slot is free.
   */
  lemma FullNameFoundExactly(d: Disk, files: Files, slot: nat, ino: Ino, lba: nat, name: CString)
    requires Represents(d, files) && slot + 1 < DIRENTS && !Live(ViewOf(d), slot) && lba < |d| && |name| == MAX_NAME
    ensures var b := CreateDisk(d, slot, ino, lba, name)[ROOT_LBA];
      Safe(b, DIRENTS - 1) && LookupFrom(b, name, 0) == if Live(ViewOf(d), slot + 1) then DIRENTS else slot
  {
    hide ViewOf, Represents, CreateDisk, EntryAt, Finds, Safe;
    var e := CreateDisk(d, slot, ino, lba, name);
    var b, v := e[ROOT_LBA], ViewOf(d);
    ViewShaped(d);
    CreateDiskView(d, slot, ino, lba, name);
    DirOf(e);
    forall k | 0 <= k < DIRENTS && k != slot
      ensures EntryAt(b, k) == v.dir[k] && Safe(b, k) && !Finds(b, k, name)
      ensures EntryAt(b, k).ino <= MAX_INODES
    {
      OtherSlot(d, files, b, k, name);
    }
    assert EntryAt(b, slot) == Entry(ino, MODE_FILE, name);
    EarlySlotSafe(b, slot);
    FullSlotFound(b, slot, name);
    FoundOnlyAt(b, slot, name);
  }

  /** The first `k` slots, inodes and data blocks are taken, and nothing else is. */
  ghost predicate Taken(v: View, k: nat)
  {
    && (forall i | 0 <= i < |v.dir| :: v.dir[i].ino != 0 <==> i < k)
    && (forall i | 2 <= i < |v.ib| :: v.ib[i] <==> i < 2 + k)
    && (forall b | DATA_START <= b < |v.bb| :: v.bb[b] <==> b < DATA_START + k)
  }

  /** There is room, and slot `k` is the first free one. */
  lemma RoomAt(v: View, k: nat, ino: nat, lba: nat)
    requires |v.dir| == DIRENTS && |v.ib| == MAX_INODES + 1 && k < DIRENTS && (forall i | 0 <= i < k :: v.dir[i].ino != 0)
    requires v.dir[k].ino == 0 && 2 <= ino < |v.ib| && !v.ib[ino] && DATA_START <= lba < |v.bb| && !v.bb[lba]
    ensures !NoRoom(v) && FirstFree(v.dir, 0) == k
  {
    assert !Live(v, k);
  }

  method AddNext(vol: Volume, name: CString, k: nat)
    requires vol.Valid() && k < 2 && Taken(ViewOf(vol.Contents()), k) && GoodName(name) && name !in vol.files
    modifies vol`files, vol.blocks
    ensures vol.Valid() && Taken(ViewOf(vol.Contents()), k + 1) && vol.files == old(vol.files)[name := []]
    ensures ViewOf(vol.Contents()).dir[k].name == name
    ensures forall i | 0 <= i < k :: ViewOf(vol.Contents()).dir[i] == old(ViewOf(vol.Contents())).dir[i]
  {
    hide ViewOf, Represents, SuperOk, CreateDisk, FirstFree, FirstClear, NoRoom;
    ghost var d := vol.Contents();
    ghost var v := ViewOf(d);
    ViewShaped(d);
    RoomAt(v, k, 2 + k, DATA_START + k);
    var rc := vol.Create(name);
    CreateDiskView(d, k, FirstClear(v.ib, 2), FirstClear(v.bb, DATA_START), name);
    assert FirstClear(v.ib, 2) == 2 + k;
    assert FirstClear(v.bb, DATA_START) == DATA_START + k;
  }

  lemma NotAFile(d: Disk, files: Files, name: CString)
    requires Represents(d, files) && |name| == MAX_NAME
    ensures name !in files
  {
    hide ViewOf, InodeOk, Disjoint;
    var v := ViewOf(d);
    assert forall i | 0 <= i < DIRENTS && Live(v, i) :: EntryOk(v, |d|, v.dir[i]);
  }

  /** Such a loss is reached: two files are created, the first is unlinked, and a full name takes its slot. */
  method FullNameIsLost(vol: Volume, name: CString) returns (created: int, found: nat)
    requires MIN_BLOCKS <= vol.blocks.Length <= MAX_BLOCKS && |name| == MAX_NAME && '/' as int !in name
    modifies vol`files, vol.blocks
    ensures created == OK && found == DIRENTS
  {
    hide ViewOf, Represents, SuperOk, CreateDisk, LookupFrom, FirstFree, FirstClear, NoRoom;
    var rc := vol.Format();
    AddNext(vol, [97], 0);
    AddNext(vol, [98], 1);
    ghost var v := ViewOf(vol.Contents());
    ViewShaped(vol.Contents());
    rc := vol.Unlink([97]);
    ghost var d := vol.Contents();
    ViewShaped(d);
    RoomAt(ViewOf(d), 0, 4, 10);
    NotAFile(d, vol.files, name);
    created := vol.Create(name);
    FullNameFoundExactly(d, vol.files, 0, FirstClear(ViewOf(d).ib, 2), FirstClear(ViewOf(d).bb, DATA_START), name);
    found := Lookup(vol.blocks[ROOT_LBA], name);
  }

  // ---- runs ----

  datatype Op =
    | DoCreate(name: CString)
    | DoWrite(name: CString, data: seq<byte>)
    | DoRead(name: CString, cap: nat)
    | DoUnlink(name: CString)
    | DoStat(name: CString)

  datatype Out = Out(rc: int, data: seq<byte>, size: nat)

  /** What an operation may answer on the map `m`, and what it makes of it. */
  ghost predicate Allowed(m: Files, op: Op, out: Out, m': Files)
  {
    var n := op.name;
    if op.DoWrite? && |op.data| > MAX_FILE then out.rc == E_RANGE && m' == m
    else if NameCode(n) != OK then out.rc == NameCode(n) && m' == m
    else if op.DoCreate? then
      if n in m then out.rc == E_EXIST && m' == m
      else (out.rc == OK && m' == m[n := []]) || (out.rc == E_NOSPC && m' == m)
    else if n !in m then out.rc == E_NOENT && m' == m
    else match op
      case DoWrite(_, data) => (out.rc == OK && m' == m[n := data]) || (out.rc == E_NOSPC && m' == m)
      case DoRead(_, cap) => m' == m && if |m[n]| > cap then out.rc == E_RANGE else out.rc == OK && out.data == m[n]
      case DoUnlink(_) => out.rc == OK && m' == m - {n}
      case DoStat(_) => out.rc == OK && m' == m && out.size == |m[n]|
  }

  /** A run of operations on maps. */
  ghost predicate IsRun(ms: seq<Files>, ops: seq<Op>, outs: seq<Out>)
  {
    && |ms| == |ops| + 1 && |outs| == |ops|
    && forall i | 0 <= i < |ops| :: Allowed(ms[i], ops[i], outs[i], ms[i + 1])
  }

  /** A file was put into the first free slot, with the first free inode and block. */
  ghost predicate Created(v: View, v': View, name: CString)
    requires |v.ib| > 2 && |v.bb| > DATA_START
  {
    var slot, ino, lba := FirstFree(v.dir, 0), FirstClear(v.ib, 2), FirstClear(v.bb, DATA_START);
    slot < |v.dir| && ino < |v.ib| && ino <= |v.inodes| && lba < |v.bb| && v' == CreateView(v, slot, ino, lba, name)
  }

  /** What an operation that answers `rc` does to the volume. */
  ghost predicate Effect(v: View, op: Op, rc: int, v': View)
    requires |v.ib| > 2 && |v.bb| > DATA_START
  {
    if rc == E_NOSPC && op.DoWrite? then UsedUp(v, v')
    else if rc != OK then v' == v
    else match op
      case DoCreate(n) => Created(v, v', n)
      case DoWrite(n, data) => Rewritten(v, v', n, |data|)
      case DoUnlink(n) => Unlinked(v, v', n)
      case _ => v' == v
  }

  /** Space is what decides between success and NOSPC where nothing else is wrong. */
  ghost predicate SpaceDecides(v: View, m: Files, op: Op, rc: int)
    requires |v.ib| == MAX_INODES + 1 && |v.dir| == DIRENTS && |v.bb| > DATA_START
  {
    && (op.DoCreate? && NameCode(op.name) == OK && op.name !in m ==> rc == if NoRoom(v) then E_NOSPC else OK)
    && (op.DoWrite? && |op.data| <= MAX_FILE && NameCode(op.name) == OK && op.name in m ==>
          rc == if Fits(v, op.name, Needed(|op.data|)) then OK else E_NOSPC)
  }

  method Perform(vol: Volume, op: Op) returns (out: Out)
    requires vol.Valid() && !(op.DoCreate? && |op.name| == MAX_NAME)
    modifies vol`files, vol.blocks
    ensures vol.Valid() && Allowed(old(vol.files), op, out, vol.files)
    ensures var v := old(ViewOf(vol.Contents()));
      && Shaped(v, vol.blocks.Length) && SpaceDecides(v, old(vol.files), op, out.rc)
      && Effect(v, op, out.rc, ViewOf(vol.Contents()))
  {
    hide Represents, ViewOf, SuperOk, NameCode, NoRoom, Fits, Rewritten, Unlinked, CreateDisk, UsedUp;
    ghost var d := vol.Contents();
    ViewShaped(d);
    var rc, data, size := OK, [], 0;
    match op {
      case DoCreate(n) =>
        rc := vol.Create(n);
        if rc == OK {
          ghost var v := ViewOf(d);
          CreateDiskView(d, FirstFree(v.dir, 0), FirstClear(v.ib, 2), FirstClear(v.bb, DATA_START), n);
        }
      case DoWrite(n, d) => rc := vol.Write(n, d);
      case DoRead(n, cap) => rc, data := vol.Read(n, cap);
      case DoUnlink(n) => rc := vol.Unlink(n);
      case DoStat(n) => rc, size := vol.Stat(n);
    }
    out := Out(rc, data, size);
  }

  lemma RepresentsConsistent(d: Disk, files: Files)
    requires Represents(d, files)
    ensures Consistent(ViewOf(d), |d|)
  {
  }

  /** Every run of operations on a volume is a run on the map it stands for, and the checker passes at its end. */
  method Run(vol: Volume, ops: seq<Op>) returns (outs: seq<Out>, ghost ms: seq<Files>)
    requires vol.Valid() && forall i | 0 <= i < |ops| && ops[i].DoCreate? :: |ops[i].name| != MAX_NAME
    modifies vol`files, vol.blocks
    ensures vol.Valid() && IsRun(ms, ops, outs) && ms[0] == old(vol.files) && ms[|ops|] == vol.files
    ensures Passes(ViewOf(vol.Contents()), vol.blocks.Length)
  {
    hide Allowed, Represents;
    outs, ms := [], [vol.files];
    for i := 0 to |ops|
      invariant vol.Valid() && IsRun(ms, ops[..i], outs) && ms[0] == old(vol.files) && ms[i] == vol.files
    {
      var out := Perform(vol, ops[i]);
      outs, ms := outs + [out], ms + [vol.files];
      assert ops[..i + 1] == ops[..i] + [ops[i]];
    }
    assert ops[..|ops|] == ops;
    RepresentsConsistent(vol.Contents(), vol.files);
    ConsistentPasses(ViewOf(vol.Contents()), vol.blocks.Length);
  }

  /** An operation that changes what a name stands for. */
  predicate Changes(op: Op, out: Out, n: CString)
  {
    out.rc == OK && op.name == n && (op.DoCreate? || op.DoWrite? || op.DoUnlink?)
  }

  lemma {:induction false} Untouched(ms: seq<Files>, ops: seq<Op>, outs: seq<Out>, i: nat, k: nat, n: CString)
    requires IsRun(ms, ops, outs) && i <= k <= |ops|
    requires forall j | i <= j < k :: !Changes(ops[j], outs[j], n)
    ensures n in ms[i] <==> n in ms[k]
    ensures n in ms[i] ==> ms[k][n] == ms[i][n]
    decreases k - i
  {
    if i < k {
      assert Allowed(ms[i], ops[i], outs[i], ms[i + 1]);
      Untouched(ms, ops, outs, i + 1, k, n);
    }
  }

  /** In every run a read returns what the last successful write to that name stored. */
  lemma ReadsLastWrite(ms: seq<Files>, ops: seq<Op>, outs: seq<Out>, i: nat, k: nat)
    requires IsRun(ms, ops, outs) && i < k < |ops|
    requires ops[i].DoWrite? && outs[i].rc == OK
    requires ops[k].DoRead? && ops[k].name == ops[i].name && |ops[i].data| <= ops[k].cap
    requires forall j | i < j < k :: !Changes(ops[j], outs[j], ops[i].name)
    ensures outs[k].rc == OK && outs[k].data == ops[i].data
  {
    assert Allowed(ms[i], ops[i], outs[i], ms[i + 1]);
    Untouched(ms, ops, outs, i + 1, k, ops[i].name);
    assert Allowed(ms[k], ops[k], outs[k], ms[k + 1]);
  }
}
