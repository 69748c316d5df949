/**
  Space over whole runs of MCSFS1.  A file keeps the most blocks it ever needed
  until it is unlinked, and a write that runs out of space marks every block that
  was left and gives none back: these are lost until the next format.  From this
  the answer of every operation of every run can be worked out.
 */
module Mcsfs1Space {
  import opened Bytes
  import opened Bitmap
  import opened CStrings
  import opened Mcsfs1Layout
  import opened Mcsfs1Files
  import opened Mcsfs1
  import opened Mcsfs1Runs

  // ---- the account ----

  /** The files, the blocks each of them holds, the free data blocks, and those lost. */
  datatype Account = Account(files: Files, held: map<CString, nat>, free: nat, lost: nat)

  /** The blocks a file that holds `have` lacks to hold `need`. */
  function Short(have: nat, need: nat): nat
  {
    if need > have then need - have else 0
  }

  /** The code of an operation and the account after it. */
  function Book(a: Account, op: Op): (int, Account)
  {
    var n := op.name;
    if op.DoWrite? && |op.data| > MAX_FILE then (E_RANGE, a)
    else if NameCode(n) != OK then (NameCode(n), a)
    else if op.DoCreate? then
      if n in a.files then (E_EXIST, a)
      else if |a.files| >= DIRENTS || a.free == 0 then (E_NOSPC, a)
      else (OK, Account(a.files[n := []], a.held[n := 1], a.free - 1, a.lost))
    else if n !in a.files || n !in a.held then (E_NOENT, a)
    else match op
      case DoWrite(_, data) =>
        var more := Short(a.held[n], Needed(|data|));
        if more > a.free then (E_NOSPC, Account(a.files, a.held, 0, a.lost + a.free))
        else (OK, Account(a.files[n := data], a.held[n := a.held[n] + more], a.free - more, a.lost))
      case DoUnlink(_) => (OK, Account(a.files - {n}, a.held - {n}, a.free + a.held[n], a.lost))
      case DoRead(_, cap) => (if |a.files[n]| > cap then E_RANGE else OK, a)
      case _ => (OK, a)
  }

  // ---- what a volume holds ----

  /** The number of pointers of an inode that are set. */
  function Pointers(direct: seq<nat>): nat
  {
    if direct == [] then 0 else Pointers(direct[..|direct| - 1]) + if direct[|direct| - 1] != 0 then 1 else 0
  }

  /** The first `k` pointers are set and no others. */
  predicate Prefix(direct: seq<nat>, k: nat)
  {
    k <= |direct| && forall j | 0 <= j < |direct| :: direct[j] != 0 <==> j < k
  }

  lemma {:induction false} PrefixPointers(direct: seq<nat>, k: nat)
    requires Prefix(direct, k)
    ensures Pointers(direct) == k
    decreases |direct|
  {
    if direct != [] {
      var front := direct[..|direct| - 1];
      PrefixPointers(front, if k < |direct| then k else k - 1);
    }
  }

  lemma {:induction false} PrefixLacking(direct: seq<nat>, k: nat, need: nat)
    requires Prefix(direct, k) && need <= |direct|
    ensures Lacking(direct, need) == Short(k, need)
    decreases need
  {
    if need > 0 {
      PrefixLacking(direct, k, need - 1);
    }
  }

  lemma ExtendedPrefix(f: Inode, g: Inode, k: nat, need: nat)
    requires Prefix(f.direct, k) && Extended(f, g, need)
    ensures Prefix(g.direct, k + Short(k, need))
  {
  }

  /** The blocks held by the file in slot `i`. */
  function HeldIn(v: View, i: nat): nat
  {
    if i < |v.dir| && 1 <= v.dir[i].ino <= |v.inodes| then Pointers(InodeOfSlot(v, i).direct) else 0
  }

  /** The blocks held by the files in the first `k` slots. */
  function Held(v: View, k: nat): nat
  {
    if k == 0 then 0 else Held(v, k - 1) + HeldIn(v, k - 1)
  }

  /** If one slot changes, the sum changes by as much. */
  lemma {:induction false} HeldChange(v: View, v': View, i: nat, k: nat)
    requires forall j: nat | j != i :: HeldIn(v', j) == HeldIn(v, j)
    ensures Held(v', k) + (if i < k then HeldIn(v, i) else 0) == Held(v, k) + if i < k then HeldIn(v', i) else 0
    decreases k
  {
    if k > 0 {
      HeldChange(v, v', i, k - 1);
    }
  }

  function SlotsTaken(dir: seq<Entry>): (r: seq<bool>)
    ensures |r| == |dir| && forall i | 0 <= i < |dir| :: r[i] == (dir[i].ino != 0)
  {
    seq(|dir|, i requires 0 <= i < |dir| => dir[i].ino != 0)
  }

  lemma SlotTaken(dir: seq<Entry>, i: nat, e: Entry)
    requires i < |dir| && (dir[i].ino != 0) != (e.ino != 0)
    ensures Clear(SlotsTaken(dir[i := e])) == if e.ino != 0 then Clear(SlotsTaken(dir)) - 1 else Clear(SlotsTaken(dir)) + 1
  {
    ClearUpdate(SlotsTaken(dir), i, e.ino != 0);
    assert SlotsTaken(dir[i := e]) == SlotsTaken(dir)[i := e.ino != 0];
  }

  /** The account is right about the file in slot `i`. */
  ghost predicate SlotBooked(v: View, a: Account, i: nat)
    requires i < |v.dir|
  {
    v.dir[i].name in a.held && 1 <= v.dir[i].ino <= |v.inodes| && Prefix(InodeOfSlot(v, i).direct, a.held[v.dir[i].name])
  }

  /** Inodes and slots are in use as far as there are files. */
  ghost predicate Counted(v: View, files: nat)
  {
    |v.ib| == MAX_INODES + 1 && v.ib[0] && Clear(v.ib) + files == MAX_INODES - 1 && Clear(SlotsTaken(v.dir)) + files == DIRENTS
  }

  /**
    The account is right: about the files, about the blocks each holds, and in that
    the marked data blocks are those the files hold and those lost.
   */
  ghost predicate Booked(d: Disk, a: Account)
  {
    var v := ViewOf(d);
    && Represents(d, a.files) && a.held.Keys == a.files.Keys && Counted(v, |a.files|)
    && (forall i | 0 <= i < DIRENTS && Live(v, i) :: SlotBooked(v, a, i))
    && Room(v.bb) == a.free && a.free + Held(v, DIRENTS) + a.lost == |d| - DATA_START
  }

  // ---- blocks given back ----

  function Returned(bb: seq<bool>, direct: seq<nat>): (r: seq<bool>)
    ensures |r| == |bb|
  {
    if direct == [] then bb
    else
      var r, p := Returned(bb, direct[..|direct| - 1]), direct[|direct| - 1];
      if 0 < p < |bb| then r[p := false] else r
  }

  lemma {:induction false} ReturnedBits(bb: seq<bool>, direct: seq<nat>, b: nat)
    requires b < |bb|
    ensures Returned(bb, direct)[b] == (bb[b] && (b == 0 || b !in direct))
    decreases |direct|
  {
    if direct != [] {
      var front := direct[..|direct| - 1];
      ReturnedBits(bb, front, b);
      assert direct == front + [direct[|direct| - 1]];
    }
  }

  lemma RoomGive(bb: seq<bool>, lba: nat)
    requires DATA_START <= lba < |bb| && bb[lba]
    ensures Room(bb[lba := false]) == Room(bb) + 1
  {
    var free := bb[lba := false];
    RoomTake(free, lba);
    assert free[lba := true] == bb;
  }

  lemma {:induction false} ReturnedRoom(bb: seq<bool>, direct: seq<nat>)
    requires forall j | 0 <= j < |direct| :: PointerOk(direct[j], bb)
    requires forall j, l | 0 <= j < l < |direct| && direct[j] != 0 :: direct[j] != direct[l]
    ensures Room(Returned(bb, direct)) == Room(bb) + Pointers(direct)
    decreases |direct|
  {
    if direct != [] {
      var k := |direct| - 1;
      var front, p := direct[..k], direct[k];
      ReturnedRoom(bb, front);
      assert PointerOk(p, bb);
      if p != 0 {
        ReturnedBits(bb, front, p);
        RoomGive(Returned(bb, front), p);
      }
    }
  }

  lemma ReleasedRoom(bb: seq<bool>, f: Inode, bb': seq<bool>)
    requires InodeOk(f, bb) && Released(bb, f, bb')
    ensures Room(bb') == Room(bb) + Pointers(f.direct)
  {
    ReturnedRoom(bb, f.direct);
    forall b | 0 <= b < |bb|
      ensures Returned(bb, f.direct)[b] == bb'[b]
    {
      ReturnedBits(bb, f.direct, b);
    }
    assert Returned(bb, f.direct) == bb';
  }

  // ---- every operation keeps the account ----

  /** Slots that keep their entry and their inode hold what they held. */
  lemma SlotKeeps(v: View, v': View, a: Account, a': Account, i: nat)
    requires i < |v.dir| == |v'.dir| && |v'.inodes| == |v.inodes| && v'.dir[i] == v.dir[i]
    requires 1 <= v.dir[i].ino <= |v.inodes| ==> InodeOfSlot(v', i) == InodeOfSlot(v, i)
    ensures HeldIn(v', i) == HeldIn(v, i)
    ensures Live(v, i) && SlotBooked(v, a, i) && v.dir[i].name in a'.held && a'.held[v.dir[i].name] == a.held[v.dir[i].name] ==>
      SlotBooked(v', a', i)
  {
  }

  lemma CreateCounted(v: View, slot: nat, ino: nat, lba: nat, name: CString, files: nat)
    requires Counted(v, files) && slot < |v.dir| && !Live(v, slot) && 2 <= ino < |v.ib| && ino <= |v.inodes| && !v.ib[ino] && lba < |v.bb|
    ensures Counted(CreateView(v, slot, ino, lba, name), files + 1)
  {
    ClearUpdate(v.ib, ino, true);
    SlotTaken(v.dir, slot, Entry(ino, MODE_FILE, name));
  }

  lemma NewPrefix(lba: nat)
    requires lba > 0
    ensures Prefix([lba, 0, 0, 0, 0, 0, 0, 0], 1) && Pointers([lba, 0, 0, 0, 0, 0, 0, 0]) == 1
  {
    PrefixPointers([lba, 0, 0, 0, 0, 0, 0, 0], 1);
  }

  lemma NewSlot(w: View, a: Account, slot: nat, name: CString, lba: nat)
    requires slot < |w.dir| && w.dir[slot].name == name && 1 <= w.dir[slot].ino <= |w.inodes| && lba > 0
    requires name in a.held && a.held[name] == 1 && InodeOfSlot(w, slot).direct == [lba, 0, 0, 0, 0, 0, 0, 0]
    ensures SlotBooked(w, a, slot)
  {
    NewPrefix(lba);
  }

  lemma LiveSlot(d: Disk, files: Files, i: nat)
    requires Represents(d, files) && i < DIRENTS && Live(ViewOf(d), i)
    ensures var v := ViewOf(d);
      && Shaped(v, |d|) && EntryOk(v, |d|, v.dir[i]) && v.dir[i].name in files
  {
    hide ViewOf;
    assert SlotHolds(d, files, i);
  }

  lemma CreateBooked(d: Disk, e: Disk, a: Account, slot: nat, ino: nat, lba: nat, name: CString)
    requires Booked(d, a) && |e| == |d| && name !in a.files && Represents(e, a.files[name := []])
    requires slot < DIRENTS && !Live(ViewOf(d), slot) && 2 <= ino <= MAX_INODES && !ViewOf(d).ib[ino]
    requires DATA_START <= lba < |d| && !ViewOf(d).bb[lba] && ViewOf(e) == CreateView(ViewOf(d), slot, ino, lba, name)
    ensures a.free > 0 && Booked(e, Account(a.files[name := []], a.held[name := 1], a.free - 1, a.lost))
  {
    hide ViewOf, Represents, Counted, SlotBooked, Prefix, Room, Pointers;
    var v, w := ViewOf(d), ViewOf(e);
    ViewShaped(d);
    CreateCounted(v, slot, ino, lba, name, |a.files|);
    RoomTake(v.bb, lba);
    var a' := Account(a.files[name := []], a.held[name := 1], a.free - 1, a.lost);
    NewPrefix(lba);
    forall i | 0 <= i < DIRENTS && i != slot
      ensures HeldIn(w, i) == HeldIn(v, i) && (Live(w, i) ==> SlotBooked(w, a', i))
    {
      if Live(v, i) {
        LiveSlot(d, a.files, i);
      }
      SlotKeeps(v, w, a, a', i);
    }
    assert SlotBooked(w, a', slot) by {
      NewSlot(w, a', slot, name, lba);
    }
    HeldChange(v, w, slot, DIRENTS);
  }

  lemma OtherInode(d: Disk, files: Files, i: nat, k: nat)
    requires Represents(d, files) && i < DIRENTS && k < DIRENTS && i != k && Live(ViewOf(d), i) && Live(ViewOf(d), k)
    ensures ViewOf(d).dir[i].ino != ViewOf(d).dir[k].ino && ViewOf(d).dir[i].name != ViewOf(d).dir[k].name
  {
    hide ViewOf, Disjoint;
    assert Apart(ViewOf(d), |d|, ViewOf(d).dir[i], ViewOf(d).dir[k]);
  }

  /** The account stays right about slots other than `i` when only that slot's entry and inode change. */
  lemma OthersBooked(d: Disk, a: Account, w: View, a': Account, i: nat)
    requires Booked(d, a) && i < DIRENTS && Live(ViewOf(d), i) && |w.dir| == DIRENTS && |w.inodes| == MAX_INODES
    requires forall j | 0 <= j < DIRENTS && j != i :: w.dir[j] == ViewOf(d).dir[j]
    requires forall j | 0 <= j < MAX_INODES && j != ViewOf(d).dir[i].ino - 1 :: w.inodes[j] == ViewOf(d).inodes[j]
    requires forall n | n in a.held && n != ViewOf(d).dir[i].name :: n in a'.held && a'.held[n] == a.held[n]
    ensures forall j: nat | j != i :: HeldIn(w, j) == HeldIn(ViewOf(d), j)
    ensures forall j | 0 <= j < DIRENTS && j != i && Live(w, j) :: SlotBooked(w, a', j)
  {
    hide ViewOf, Represents, Prefix, Room, Held, Counted, Pointers;
    var v := ViewOf(d);
    ViewShaped(d);
    forall j | 0 <= j < DIRENTS && j != i
      ensures HeldIn(w, j) == HeldIn(v, j) && (Live(w, j) ==> SlotBooked(w, a', j))
    {
      if Live(v, j) {
        OtherInode(d, a.files, i, j);
        assert SlotBooked(v, a, j);
      }
      SlotKeeps(v, w, a, a', j);
    }
  }

  lemma WriteBooked(d: Disk, e: Disk, a: Account, i: nat, data: seq<byte>)
    requires Booked(d, a) && |e| == |d| && i < DIRENTS && Live(ViewOf(d), i)
    requires 1 <= ViewOf(d).dir[i].ino <= MAX_INODES && RewrittenIn(ViewOf(d), ViewOf(e), i, |data|)
    requires Represents(e, a.files[ViewOf(d).dir[i].name := data])
    ensures var n := ViewOf(d).dir[i].name;
      n in a.files && n in a.held &&
      var more := Short(a.held[n], Needed(|data|));
      more <= a.free && Booked(e, Account(a.files[n := data], a.held[n := a.held[n] + more], a.free - more, a.lost))
  {
    hide ViewOf, Represents, Room, Pointers, Extended, Prefix, Clear, InodeOk, MoreBits, Held;
    var v, w := ViewOf(d), ViewOf(e);
    ViewShaped(d);
    var n := v.dir[i].name;
    LiveSlot(d, a.files, i);
    assert SlotBooked(v, a, i);
    var f, k, need := InodeOfSlot(v, i), a.held[n], Needed(|data|);
    var more := Short(k, need);
    PrefixLacking(f.direct, k, need);
    var a' := Account(a.files[n := data], a.held[n := k + more], a.free - more, a.lost);
    ExtendedPrefix(f, InodeOfSlot(w, i), k, need);
    PrefixPointers(f.direct, k);
    PrefixPointers(InodeOfSlot(w, i).direct, k + more);
    assert a'.files.Keys == a.files.Keys;
    OthersBooked(d, a, w, a', i);
    HeldChange(v, w, i, DIRENTS);
  }

  lemma UnlinkCounted(v: View, i: nat, bb: seq<bool>, files: nat)
    requires Counted(v, files) && files > 0 && i < |v.dir| && Live(v, i) && 2 <= v.dir[i].ino < |v.ib| && v.dir[i].ino <= |v.inodes|
    requires v.ib[v.dir[i].ino]
    ensures Counted(UnlinkView(v, i, bb), files - 1)
  {
    ClearUpdate(v.ib, v.dir[i].ino, false);
    SlotTaken(v.dir, i, NO_ENTRY);
  }

  lemma UnlinkBooked(d: Disk, e: Disk, a: Account, i: nat)
    requires Booked(d, a) && |e| == |d| && i < DIRENTS && Live(ViewOf(d), i)
    requires 1 <= ViewOf(d).dir[i].ino <= MAX_INODES && ViewOf(e) == UnlinkView(ViewOf(d), i, ViewOf(e).bb)
    requires Released(ViewOf(d).bb, InodeOfSlot(ViewOf(d), i), ViewOf(e).bb)
    requires Represents(e, a.files - {ViewOf(d).dir[i].name})
    ensures var n := ViewOf(d).dir[i].name;
      n in a.files && n in a.held && Booked(e, Account(a.files - {n}, a.held - {n}, a.free + a.held[n], a.lost))
  {
    hide ViewOf, Represents, Room, Pointers, Prefix, Released, Counted, InodeOk, Held;
    var v, w := ViewOf(d), ViewOf(e);
    ViewShaped(d);
    var n := v.dir[i].name;
    LiveSlot(d, a.files, i);
    assert SlotBooked(v, a, i);
    var f := InodeOfSlot(v, i);
    var a' := Account(a.files - {n}, a.held - {n}, a.free + a.held[n], a.lost);
    assert a.files.Keys == (a.files - {n}).Keys + {n};
    UnlinkCounted(v, i, w.bb, |a.files|);
    PrefixPointers(f.direct, a.held[n]);
    ReleasedRoom(v.bb, f, w.bb);
    OthersBooked(d, a, w, a', i);
    HeldChange(v, w, i, DIRENTS);
  }

  lemma LossBooked(d: Disk, e: Disk, a: Account)
    requires Booked(d, a) && |e| == |d| && Represents(e, a.files) && UsedUp(ViewOf(d), ViewOf(e))
    ensures Booked(e, Account(a.files, a.held, 0, a.lost + a.free))
  {
    hide ViewOf, Represents, Room, Pointers, Prefix;
    var v, w, a' := ViewOf(d), ViewOf(e), Account(a.files, a.held, 0, a.lost + a.free);
    ViewShaped(d);
    forall j | 0 <= j < DIRENTS
      ensures HeldIn(w, j) == HeldIn(v, j) && (Live(w, j) ==> SlotBooked(w, a', j))
    {
      assert Live(v, j) ==> SlotBooked(v, a, j);
      SlotKeeps(v, w, a, a', j);
    }
    HeldChange(v, w, DIRENTS, DIRENTS);
  }

  // ---- the account says what space there is ----

  lemma RootTaken(d: Disk, files: Files)
    requires Represents(d, files)
    ensures |ViewOf(d).ib| > 1 && ViewOf(d).ib[1]
  {
  }

  lemma RoomExactly(bb: seq<bool>)
    requires |bb| >= DATA_START
    ensures Room(bb) == 0 <==> FirstClear(bb, DATA_START) == |bb|
  {
    if FirstClear(bb, DATA_START) == |bb| {
      RoomNone(bb);
    } else {
      RoomTake(bb, FirstClear(bb, DATA_START));
    }
  }

  lemma NoRoomBooked(d: Disk, a: Account)
    requires Booked(d, a)
    ensures Shaped(ViewOf(d), |d|) && (NoRoom(ViewOf(d)) <==> |a.files| >= DIRENTS || a.free == 0)
  {
    hide ViewOf, Represents, Room, Held, Pointers;
    var v := ViewOf(d);
    ViewShaped(d);
    ClearNone(SlotsTaken(v.dir));
    ClearNone(v.ib);
    RootTaken(d, a.files);
    RoomExactly(v.bb);
    assert forall i | 0 <= i < DIRENTS :: SlotsTaken(v.dir)[i] == Live(v, i);
  }

  lemma FitsBooked(d: Disk, a: Account, name: CString, need: nat)
    requires Booked(d, a) && name in a.files && need <= DIRECT
    ensures name in a.held && (Fits(ViewOf(d), name, need) <==> Short(a.held[name], need) <= a.free)
  {
    hide ViewOf, Room, Held, Pointers, Prefix, Consistent, Counted, SlotHolds;
    var v := ViewOf(d);
    assert HasSlot(v, name);
    var i :| 0 <= i < |v.dir| && Live(v, i) && v.dir[i].name == name;
    ViewShaped(d);
    assert SlotBooked(v, a, i);
    RepresentsFits(d, a.files, i, name, need);
    PrefixLacking(InodeOfSlot(v, i).direct, a.held[name], need);
  }

  lemma NeededFits(size: nat)
    requires size <= MAX_FILE
    ensures 1 <= Needed(size) <= DIRECT
  {
  }

  lemma BookedParts(d: Disk, a: Account)
    requires Booked(d, a)
    ensures Represents(d, a.files) && a.held.Keys == a.files.Keys
  {
  }

  lemma SameBooked(d: Disk, e: Disk, a: Account)
    requires Booked(d, a) && |e| == |d| && ViewOf(e) == ViewOf(d) && Represents(e, a.files)
    ensures Booked(e, a)
  {
    hide ViewOf, Represents;
  }

  lemma DoCreated(d: Disk, e: Disk, a: Account, name: CString, files: Files)
    requires Booked(d, a) && |e| == |d| && Shaped(ViewOf(d), |d|) && Created(ViewOf(d), ViewOf(e), name)
    requires name !in a.files && files == a.files[name := []] && Represents(e, files)
    ensures a.free > 0 && Booked(e, Account(files, a.held[name := 1], a.free - 1, a.lost))
  {
    hide ViewOf, Represents, Booked;
    var v := ViewOf(d);
    CreateBooked(d, e, a, FirstFree(v.dir, 0), FirstClear(v.ib, 2), FirstClear(v.bb, DATA_START), name);
  }

  lemma DoWritten(d: Disk, e: Disk, a: Account, name: CString, data: seq<byte>)
    requires Booked(d, a) && |e| == |d| && Rewritten(ViewOf(d), ViewOf(e), name, |data|) && Represents(e, a.files[name := data])
    ensures name in a.files && name in a.held &&
      var more := Short(a.held[name], Needed(|data|));
      more <= a.free && Booked(e, Account(a.files[name := data], a.held[name := a.held[name] + more], a.free - more, a.lost))
  {
    hide ViewOf, Represents, Booked, RewrittenIn;
    var v := ViewOf(d);
    ViewShaped(d);
    var i :| 0 <= i < |v.dir| && Live(v, i) && v.dir[i].name == name && 1 <= v.dir[i].ino <= |v.inodes|
      && RewrittenIn(v, ViewOf(e), i, |data|);
    WriteBooked(d, e, a, i, data);
  }

  lemma DoUnlinked(d: Disk, e: Disk, a: Account, name: CString)
    requires Booked(d, a) && |e| == |d| && Unlinked(ViewOf(d), ViewOf(e), name) && Represents(e, a.files - {name})
    ensures name in a.files && name in a.held &&
      Booked(e, Account(a.files - {name}, a.held - {name}, a.free + a.held[name], a.lost))
  {
    hide ViewOf, Represents, Booked, Released, MoreBits;
    var v, w := ViewOf(d), ViewOf(e);
    ViewShaped(d);
    var i :| 0 <= i < |v.dir| && Live(v, i) && v.dir[i].name == name && 1 <= v.dir[i].ino <= |v.inodes| && v.dir[i].ino < |v.ib|
      && w == UnlinkView(v, i, w.bb) && Released(v.bb, InodeOfSlot(v, i), w.bb) && MoreBits(w.bb, v.bb);
    UnlinkBooked(d, e, a, i);
  }

  /** The account tells the code of every operation, and stays right. */
  lemma StepBooked(d: Disk, e: Disk, a: Account, op: Op, out: Out, files: Files)
    requires Booked(d, a) && |e| == |d| && Represents(e, files) && Shaped(ViewOf(d), |d|)
    requires Allowed(a.files, op, out, files) && SpaceDecides(ViewOf(d), a.files, op, out.rc)
    requires Effect(ViewOf(d), op, out.rc, ViewOf(e))
    ensures var (rc, a') := Book(a, op); out.rc == rc && files == a'.files && Booked(e, a')
  {
    hide ViewOf, Represents, Booked, NoRoom, Fits, RewrittenIn, Released, UsedUp, Short;
    BookedParts(d, a);
    if out.rc == E_NOSPC && op.DoWrite? {
      LossBooked(d, e, a);
    } else if out.rc == OK && op.DoCreate? {
      DoCreated(d, e, a, op.name, files);
    } else if out.rc == OK && op.DoWrite? {
      DoWritten(d, e, a, op.name, op.data);
    } else if out.rc == OK && op.DoUnlink? {
      DoUnlinked(d, e, a, op.name);
    } else {
      SameBooked(d, e, a);
    }
    NoRoomBooked(d, a);
    if op.DoWrite? && |op.data| <= MAX_FILE && op.name in a.files {
      NeededFits(|op.data|);
      FitsBooked(d, a, op.name, Needed(|op.data|));
    }
  }

  // ---- runs ----

  /** The account after a run, and the codes it answers with. */
  function BookAll(a: Account, ops: seq<Op>): (r: (seq<int>, Account))
    ensures |r.0| == |ops|
  {
    if ops == [] then ([], a)
    else
      var (codes, b) := BookAll(a, ops[..|ops| - 1]);
      var (rc, c) := Book(b, ops[|ops| - 1]);
      (codes + [rc], c)
  }

  lemma {:induction false} RoomAll(bb: seq<bool>)
    requires |bb| >= DATA_START && forall b | DATA_START <= b < |bb| :: !bb[b]
    ensures Room(bb) == |bb| - DATA_START
    decreases |bb|
  {
    if |bb| > DATA_START {
      RoomAll(bb[..|bb| - 1]);
    }
  }

  lemma {:induction false} NothingHeld(v: View, k: nat)
    requires forall i | 0 <= i < |v.dir| :: v.dir[i].ino == 0
    ensures Held(v, k) == 0
    decreases k
  {
    if k > 0 {
      NothingHeld(v, k - 1);
    }
  }

  lemma FormatBooked(d: Disk)
    requires Represents(d, map[]) && Blank(ViewOf(d))
    ensures Booked(d, Account(map[], map[], |d| - DATA_START, 0))
  {
    hide ViewOf, Represents;
    var v := ViewOf(d);
    ViewShaped(d);
    ClearAbove(v.ib, 2);
    ClearAbove(SlotsTaken(v.dir), 0);
    RoomAll(v.bb);
    NothingHeld(v, DIRENTS);
  }

  /**
    Every run, as long as it creates no name of 27 bytes, answers with the codes of
    the account: in particular NOSPC comes exactly when the account has no room.
   */
  method RunBooked(vol: Volume, ops: seq<Op>, ghost a: Account) returns (outs: seq<Out>)
    requires vol.Valid() && Booked(vol.Contents(), a) && a.files == vol.files
    requires forall i | 0 <= i < |ops| && ops[i].DoCreate? :: |ops[i].name| != MAX_NAME
    modifies vol`files, vol.blocks
    ensures vol.Valid() && Booked(vol.Contents(), BookAll(a, ops).1) && vol.files == BookAll(a, ops).1.files
    ensures |outs| == |ops| && forall i | 0 <= i < |ops| :: outs[i].rc == BookAll(a, ops).0[i]
  {
    hide Allowed, Represents, Booked, Book, Effect, SpaceDecides, ViewOf;
    outs := [];
    for i := 0 to |ops|
      invariant vol.Valid() && Booked(vol.Contents(), BookAll(a, ops[..i]).1) && vol.files == BookAll(a, ops[..i]).1.files
      invariant |outs| == i && forall k | 0 <= k < i :: outs[k].rc == BookAll(a, ops[..i]).0[k]
    {
      ghost var d, b := vol.Contents(), BookAll(a, ops[..i]).1;
      var out := Perform(vol, ops[i]);
      StepBooked(d, vol.Contents(), b, ops[i], out, vol.files);
      outs := outs + [out];
      assert ops[..i + 1][..i] == ops[..i];
    }
    assert ops[..|ops|] == ops;
  }

  /** The same from a format on, where every data block is free. */
  method FormatAndRun(vol: Volume, ops: seq<Op>) returns (rc: int, outs: seq<Out>)
    requires forall i | 0 <= i < |ops| && ops[i].DoCreate? :: |ops[i].name| != MAX_NAME
    modifies vol`files, vol.blocks
    ensures rc == if MIN_BLOCKS <= vol.blocks.Length <= MAX_BLOCKS then OK else E_INVAL
    ensures rc == OK ==>
      var (codes, a) := BookAll(Account(map[], map[], vol.blocks.Length - DATA_START, 0), ops);
      && vol.Valid() && Booked(vol.Contents(), a) && vol.files == a.files
      && |outs| == |ops| && forall i | 0 <= i < |ops| :: outs[i].rc == codes[i]
  {
    hide Represents, Booked, BookAll, Blank, ViewOf;
    outs := [];
    rc := vol.Format();
    if rc == OK {
      FormatBooked(vol.Contents());
      outs := RunBooked(vol, ops, Account(map[], map[], vol.blocks.Length - DATA_START, 0));
    }
  }

  // ---- lost blocks ----

  /** What is lost stays lost: in every run the lost blocks only grow. */
  lemma {:induction false} LostStaysLost(a: Account, ops: seq<Op>)
    ensures a.lost <= BookAll(a, ops).1.lost
    decreases |ops|
  {
    if ops != [] {
      LostStaysLost(a, ops[..|ops| - 1]);
    }
  }

  /** On a volume without files everything but the lost blocks is free. */
  lemma EmptyVolume(d: Disk, a: Account)
    requires Booked(d, a) && a.files == map[]
    ensures a.free + a.lost == |d| - DATA_START
  {
    hide ViewOf;
    var v := ViewOf(d);
    ViewShaped(d);
    forall i | 0 <= i < DIRENTS
      ensures v.dir[i].ino == 0
    {
      if Live(v, i) {
        LiveSlot(d, a.files, i);
      }
    }
    NothingHeld(v, DIRENTS);
  }

  lemma BookSnoc(a: Account, ops: seq<Op>, op: Op)
    ensures var (codes, b) := BookAll(a, ops);
      BookAll(a, ops + [op]) == (codes + [Book(b, op).0], Book(b, op).1)
  {
    assert (ops + [op])[..|ops|] == ops;
  }

  const A: CString := [97]
  const B: CString := [98]

  lemma PlainNames()
    ensures A != B && NameCode(A) == OK && NameCode(B) == OK
  {
    assert A[0] != B[0];
  }

  lemma TwoCreated()
    ensures Book(Account(map[], map[], 8, 0), DoCreate(A)) == (OK, Account(map[A := []], map[A := 1], 7, 0))
    ensures Book(Account(map[A := []], map[A := 1], 7, 0), DoCreate(B)) ==
      (OK, Account(map[A := []][B := []], map[A := 1][B := 1], 6, 0))
  {
    hide NameCode;
    PlainNames();
  }

  lemma WriteFails(data: seq<byte>)
    requires |data| == MAX_FILE
    ensures Book(Account(map[A := []][B := []], map[A := 1][B := 1], 6, 0), DoWrite(A, data)) ==
      (E_NOSPC, Account(map[A := []][B := []], map[A := 1][B := 1], 0, 6))
  {
    hide NameCode;
    PlainNames();
  }

  lemma TwoUnlinked()
    ensures Book(Account(map[A := []][B := []], map[A := 1][B := 1], 0, 6), DoUnlink(A)) ==
      (OK, Account(map[B := []], map[B := 1], 1, 6))
    ensures Book(Account(map[B := []], map[B := 1], 1, 6), DoUnlink(B)) == (OK, Account(map[], map[], 2, 6))
  {
    hide NameCode;
    PlainNames();
    var both: Files, one: Files := map[A := []][B := []], map[B := []];
    assert both - {A} == one && map[A := 1][B := 1] - {A} == map[B := 1];
    assert one - {B} == map[] && map[B := 1] - {B} == map[];
  }

  /** Create two files, fail to write the first, and unlink both. */
  function LosingRun(data: seq<byte>): seq<Op>
  {
    [] + [DoCreate(A)] + [DoCreate(B)] + [DoWrite(A, data)] + [DoUnlink(A)] + [DoUnlink(B)]
  }

  lemma NothingBooked(a: Account)
    ensures BookAll(a, []) == ([], a)
  {
  }

  /** On the smallest volume that leaves no file and two of the eight data blocks. */
  lemma LostWithoutFiles(data: seq<byte>)
    requires |data| == MAX_FILE
    ensures BookAll(Account(map[], map[], MIN_BLOCKS - DATA_START, 0), LosingRun(data)) ==
      ([OK, OK, E_NOSPC, OK, OK], Account(map[], map[], 2, 6))
  {
    hide Book, BookAll;
    var a := Account(map[], map[], 8, 0);
    TwoCreated();
    WriteFails(data);
    TwoUnlinked();
    NothingBooked(a);
    BookSnoc(a, [], DoCreate(A));
    BookSnoc(a, [] + [DoCreate(A)], DoCreate(B));
    BookSnoc(a, [] + [DoCreate(A)] + [DoCreate(B)], DoWrite(A, data));
    BookSnoc(a, [] + [DoCreate(A)] + [DoCreate(B)] + [DoWrite(A, data)], DoUnlink(A));
    BookSnoc(a, [] + [DoCreate(A)] + [DoCreate(B)] + [DoWrite(A, data)] + [DoUnlink(A)], DoUnlink(B));
    var none: seq<int> := [];
    assert none + [OK] + [OK] + [E_NOSPC] + [OK] + [OK] == [OK, OK, E_NOSPC, OK, OK];
  }
}
