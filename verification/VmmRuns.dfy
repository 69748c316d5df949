/**
  Runs of an address space whose page tables are built from frames of the frame
  allocator: the tables refine a partial map from page addresses to mappings, and
  table frames stay distinct.
 */
module VmmRuns {
  import opened CStrings
  import opened Bytes
  import opened PageEntry
  import opened VmmModel
  import P = PmmModel

  // ---- frames from the allocator ----

  lemma AllocHint(s: P.State)
    requires s.hint <= |s.used|
    ensures P.Alloc(s).0.hint <= |s.used|
  {
  }

  /** The answers to the next `n` allocations. */
  function Answers(s: P.State, n: nat): (r: seq<nat>)
    requires s.hint <= |s.used|
    ensures |r| == n
    decreases n
  {
    if n == 0 then [] else (AllocHint(s); [P.Alloc(s).1] + Answers(P.Alloc(s).0, n - 1))
  }

  function AllocMany(s: P.State, n: nat): (r: P.State)
    requires s.hint <= |s.used|
    ensures |r.used| == |s.used|
    decreases n
  {
    if n == 0 then s else (AllocHint(s); AllocMany(P.Alloc(s).0, n - 1))
  }

  ghost predicate Busy(s: P.State, a: nat)
  {
    a / PAGE < |s.used| ==> s.used[a / PAGE]
  }

  lemma ReadyHint(s: P.State)
    requires P.Ready(s)
    ensures s.hint <= |s.used|
  {
  }

  /** One allocation, as the tables see it. */
  lemma AllocFacts(s: P.State)
    requires P.Ready(s)
    ensures s.hint <= |s.used|
    ensures var (s', a) := P.Alloc(s);
      && P.Ready(s') && |s'.used| == |s.used|
      && (a != INVALID ==> a % PAGE == 0 && a < PAGE * |s.used| && !Busy(s, a) && Busy(s', a))
    ensures forall x :: Busy(s, x) ==> Busy(P.Alloc(s).0, x)
  {
    P.AllocTakesLowest(s);
  }

  /** The answers are frames that were free, each different, now in use. */
  lemma {:induction false} AnswersAreFresh(s: P.State, n: nat)
    requires P.Ready(s)
    ensures forall i | 0 <= i < n && Answers(s, n)[i] != INVALID ::
      Answers(s, n)[i] % PAGE == 0 && Answers(s, n)[i] < PAGE * |s.used| && !Busy(s, Answers(s, n)[i])
    ensures forall i, j | 0 <= i < j < n && Answers(s, n)[i] != INVALID :: Answers(s, n)[i] != Answers(s, n)[j]
    decreases n
  {
    hide P.Alloc, P.Ready;
    ReadyHint(s);
    if n > 0 {
      P.AllocTakesLowest(s);
      var (s1, a) := P.Alloc(s);
      AnswersAreFresh(s1, n - 1);
      ReadyHint(s1);
      AllocFacts(s);
      var r, rest := Answers(s, n), Answers(s1, n - 1);
      assert r == [a] + rest;
      forall i | 0 <= i < n && r[i] != INVALID
        ensures r[i] % PAGE == 0 && r[i] < PAGE * |s.used| && !Busy(s, r[i])
      {
        if i > 0 {
          assert r[i] == rest[i - 1];
        }
      }
      forall i, j | 0 <= i < j < n && r[i] != INVALID
        ensures r[i] != r[j]
      {
        assert r[j] == rest[j - 1];
        if i > 0 {
          assert r[i] == rest[i - 1];
        } else {
          assert Busy(s1, a) && a < PAGE * |s1.used|;
        }
      }
    }
  }

  lemma {:induction false} AllocManyKeeps(s: P.State, n: nat)
    requires P.Ready(s)
    ensures s.hint <= |s.used| && P.Ready(AllocMany(s, n))
    ensures forall x :: Busy(s, x) ==> Busy(AllocMany(s, n), x)
    ensures forall i | 0 <= i < n && Answers(s, n)[i] != INVALID :: Busy(AllocMany(s, n), Answers(s, n)[i])
    decreases n
  {
    hide P.Alloc, P.Ready, Busy;
    ReadyHint(s);
    if n > 0 {
      AllocFacts(s);
      var (s1, a) := P.Alloc(s);
      AllocManyKeeps(s1, n - 1);
      assert Answers(s, n) == [a] + Answers(s1, n - 1);
    }
  }

  lemma {:induction false} AnswersPrefix(s: P.State, k: nat, n: nat)
    requires s.hint <= |s.used| && k <= n
    ensures Answers(s, n)[..k] == Answers(s, k)
    decreases k
  {
    hide P.Alloc;
    if k > 0 {
      AllocHint(s);
      var s1 := P.Alloc(s).0;
      AnswersPrefix(s1, k - 1, n - 1);
      assert Answers(s, n)[..k] == [P.Alloc(s).1] + Answers(s1, n - 1)[..k - 1];
    }
  }

  // ---- the system ----

  datatype System = System(mem: Memory, root: nat, frames: P.State)

  /** Frames below 2^52; tables are a tree, and every table frame is in use. */
  ghost predicate Sound(s: System)
  {
    && P.Ready(s.frames) && PAGE * |s.frames.used| <= TOP
    && Tree(s.mem, s.root)
    && forall t :: IsTable(s.mem, s.root, t) ==> Busy(s.frames, t)
  }

  datatype Event =
    | MapPage(v: nat, paddr: nat, flags: nat)
    | UnmapPage(v: nat)
    | OtherAlloc
    | OtherFree(phys: nat)
    | OtherReserve(start: nat, length: nat)

  /** Other users of the allocator do not free frames that serve as tables. */
  ghost predicate Permitted(s: System, e: Event)
  {
    && (e.OtherFree? ==> !IsTable(s.mem, s.root, e.phys))
    && (e.OtherReserve? ==> e.start < U64 && e.length < U64)
  }

  function FreeAll(s: P.State, frames: seq<nat>): (r: P.State)
    ensures |r.used| == |s.used|
    decreases |frames|
  {
    if frames == [] then s else FreeAll(P.Free(s, frames[0]).0, frames[1..])
  }

  function MapStep(s: System, v: nat, paddr: nat, flags: nat): Reached
    requires s.frames.hint <= |s.frames.used|
  {
    Map(s.mem, s.root, v, paddr, flags, Answers(s.frames, 3))
  }

  function Step(s: System, e: Event): System
    requires s.frames.hint <= |s.frames.used| && (e.OtherReserve? ==> e.start < U64 && e.length < U64)
  {
    match e
    case MapPage(v, paddr, flags) =>
      var r := MapStep(s, v, paddr, flags);
      s.(mem := r.mem, frames := FreeAll(AllocMany(s.frames, r.taken), r.returned))
    case UnmapPage(v) => s.(mem := Unmap(s.mem, s.root, v).0)
    case OtherAlloc => s.(frames := P.Alloc(s.frames).0)
    case OtherFree(phys) => s.(frames := P.Free(s.frames, phys).0)
    case OtherReserve(start, length) => s.(frames := P.Reserve(s.frames, start, length).0)
  }

  lemma SourceIsFresh(s: System)
    requires Sound(s)
    ensures s.frames.hint <= |s.frames.used| && Fresh(s.mem, s.root, Answers(s.frames, 3))
  {
    hide Tree, P.Ready, IsTable;
    ReadyHint(s.frames);
    AnswersAreFresh(s.frames, 3);
  }

  /** Frames given back are none that the tables use. */
  lemma {:induction false} FreeAllKeeps(mem: Memory, root: nat, s: P.State, frames: seq<nat>)
    requires P.Ready(s) && (forall t: nat :: IsTable(mem, root, t) ==> Busy(s, t) && t in mem && t % PAGE == 0)
    requires forall f | f in frames :: f !in mem
    ensures P.Ready(FreeAll(s, frames))
    ensures forall t :: IsTable(mem, root, t) ==> Busy(FreeAll(s, frames), t)
    decreases |frames|
  {
    hide IsTable;
    if frames != [] {
      P.FreeOneKeeps(s, frames[0] / PAGE);
      FreeAllKeeps(mem, root, P.Free(s, frames[0]).0, frames[1..]);
    }
  }

  lemma {:induction false} TablesAreFrames(mem: Memory, root: nat, p: Path, t: nat)
    requires TableAt(mem, root, p, t)
    ensures t in mem && t % PAGE == 0
  {
    hide Present, Huge;
  }

  lemma {:induction false} ReachReturns(mem: Memory, t: nat, p: Path, source: seq<nat>)
    requires t in mem && IsPath(p)
    ensures forall f | f in Reach(mem, t, p, source).returned :: f !in mem
    decreases |p|
  {
    hide Present, Huge, Addr, TableEntry;
    if p != [] {
      var s := NextTable(mem, t, p[0], source);
      if s.rc == OK {
        ReachReturns(s.mem, s.table, p[1..], source[s.taken..]);
        assert forall x :: x in mem <==> x in s.mem.Keys;
      }
    }
  }

  lemma TableFacts(mem: Memory, root: nat, t: nat)
    requires IsTable(mem, root, t)
    ensures t in mem && t % PAGE == 0
  {
    var p :| TableAt(mem, root, p, t);
    TablesAreFrames(mem, root, p, t);
  }

  lemma NotInvalid(t: nat)
    requires t % PAGE == 0
    ensures t != INVALID
  {
  }

  lemma MapReturns(mem: Memory, root: nat, v: nat, paddr: nat, flags: nat, source: seq<nat>)
    ensures forall f | f in Map(mem, root, v, paddr, flags, source).returned :: f !in Map(mem, root, v, paddr, flags, source).mem
  {
    hide Present, Huge, Addr, TableEntry, LeafEntry, Page, Reach;
    var p := PathOf(v);
    if Page(v) && paddr % PAGE == 0 && root % PAGE == 0 && root in mem {
      ReachReturns(mem, root, p[..3], source);
      var r := Map(mem, root, v, paddr, flags, source);
      assert forall x :: x in r.mem <==> x in mem.Keys;
    }
  }

  lemma MapKeepsSound(s: System, v: nat, paddr: nat, flags: nat)
    requires Sound(s)
    ensures s.frames.hint <= |s.frames.used| && Sound(Step(s, MapPage(v, paddr, flags)))
  {
    hide Tree, P.Ready, IsTable, Reach, Page, Busy, Fresh, Map, Answers, AllocMany, FreeAll;
    SourceIsFresh(s);
    var source := Answers(s.frames, 3);
    var r := Map(s.mem, s.root, v, paddr, flags, source);
    MapAddsOne(s.mem, s.root, v, paddr, flags, source);
    MapReturns(s.mem, s.root, v, paddr, flags, source);
    AllocManyKeeps(s.frames, r.taken);
    AnswersPrefix(s.frames, r.taken, 3);
    var f := AllocMany(s.frames, r.taken);
    forall t: nat | IsTable(r.mem, s.root, t)
      ensures Busy(f, t) && t in r.mem && t % PAGE == 0
    {
      TableFacts(r.mem, s.root, t);
      if t in source[..r.taken] {
        NotInvalid(t);
      }
    }
    FreeAllKeeps(r.mem, s.root, f, r.returned);
  }

  lemma OnlyOneTaken(s: P.State, x: nat)
    requires P.Ready(s) && x % PAGE == 0 && s.hint <= |s.used| && Busy(P.Alloc(s).0, x) && !Busy(s, x)
    ensures x == P.Alloc(s).1
  {
    P.AllocTakesLowest(s);
  }

  lemma {:induction false} AllocManyExactly(s: P.State, n: nat)
    requires P.Ready(s)
    ensures s.hint <= |s.used|
    ensures forall x: nat | x % PAGE == 0 && Busy(AllocMany(s, n), x) :: Busy(s, x) || x in Answers(s, n)
    decreases n
  {
    hide P.Alloc, P.Ready;
    ReadyHint(s);
    if n > 0 {
      P.AllocTakesLowest(s);
      AllocFacts(s);
      var (s1, a) := P.Alloc(s);
      AllocManyExactly(s1, n - 1);
      forall x: nat | x % PAGE == 0 && Busy(AllocMany(s, n), x)
        ensures Busy(s, x) || x in Answers(s, n)
      {
        if Busy(s1, x) && !Busy(s, x) {
          OnlyOneTaken(s, x);
        }
      }
    }
  }

  lemma FreeTouchesOne(s: P.State, a: nat, x: nat)
    requires P.Ready(s) && x % PAGE == 0
    ensures P.Ready(P.Free(s, a).0) && |P.Free(s, a).0.used| == |s.used|
    ensures Busy(P.Free(s, a).0, x) <==> Busy(s, x) && !(x == a && 0 < a < PAGE * |s.used|)
  {
    P.FreeExactly(s, a);
  }

  /** Frames given back are free, and no other frame is touched. */
  lemma {:induction false} FreeAllExactly(s: P.State, frames: seq<nat>, x: nat)
    requires P.Ready(s) && x % PAGE == 0
    ensures Busy(FreeAll(s, frames), x) <==> Busy(s, x) && !(x in frames && 0 < x < PAGE * |s.used|)
    decreases |frames|
  {
    hide P.Free, P.Ready, Busy;
    if frames != [] {
      FreeTouchesOne(s, frames[0], x);
      FreeAllExactly(P.Free(s, frames[0]).0, frames[1..], x);
    }
  }

  /** Frame 0 and addresses beyond the frames are never free. */
  lemma BusyOutside(s: P.State, x: nat)
    requires P.Ready(s)
    ensures x == 0 || x >= PAGE * |s.used| ==> Busy(s, x)
  {
  }

  lemma {:induction false} ReturnedAreTaken(mem: Memory, t: nat, p: Path, source: seq<nat>)
    requires t in mem && IsPath(p)
    ensures forall f | f in Reach(mem, t, p, source).returned :: f in source && f != INVALID
    decreases |p|
  {
    hide Present, Huge, Addr, TableEntry;
    if p != [] {
      var s := NextTable(mem, t, p[0], source);
      if s.rc == OK {
        ReturnedAreTaken(s.mem, s.table, p[1..], source[s.taken..]);
      }
    }
  }

  /** What is given back was taken just before. */
  lemma MapReturnsTaken(s: System, v: nat, paddr: nat, flags: nat, x: nat)
    requires Sound(s) && s.frames.hint <= |s.frames.used|
    ensures x in MapStep(s, v, paddr, flags).returned ==> !Busy(s.frames, x)
  {
    hide Tree, P.Ready, IsTable, Page, Fresh, Answers, Busy, Reach, Present, Huge, Addr, TableEntry, LeafEntry;
    AnswersAreFresh(s.frames, 3);
    var source, p := Answers(s.frames, 3), PathOf(v);
    if Page(v) && paddr % PAGE == 0 && s.root % PAGE == 0 && s.root in s.mem {
      ReturnedAreTaken(s.mem, s.root, p[..3], source);
    }
  }

  /** Mapping a page, or failing to, takes from the allocator exactly the frames that have become tables, and gives none away. */
  lemma MapTakesTables(s: System, v: nat, paddr: nat, flags: nat)
    requires Sound(s)
    ensures s.frames.hint <= |s.frames.used|
    ensures var s' := Step(s, MapPage(v, paddr, flags));
      forall x: nat | x % PAGE == 0 :: Busy(s'.frames, x) <==> Busy(s.frames, x) || IsTable(s'.mem, s.root, x)
  {
    hide Tree, P.Ready, IsTable, Reach, Page, Fresh, Map, Answers, AllocMany, FreeAll, Busy;
    SourceIsFresh(s);
    MapKeepsSound(s, v, paddr, flags);
    var source := Answers(s.frames, 3);
    var r := Map(s.mem, s.root, v, paddr, flags, source);
    MapAccounts(s.mem, s.root, v, paddr, flags, source);
    AllocManyKeeps(s.frames, r.taken);
    AllocManyExactly(s.frames, r.taken);
    AnswersPrefix(s.frames, r.taken, 3);
    AnswersAreFresh(s.frames, 3);
    var f := AllocMany(s.frames, r.taken);
    var s' := Step(s, MapPage(v, paddr, flags));
    forall x: nat | x % PAGE == 0
      ensures Busy(s'.frames, x) <==> Busy(s.frames, x) || IsTable(s'.mem, s.root, x)
    {
      NotInvalid(x);
      FreeAllExactly(f, r.returned, x);
      MapReturnsTaken(s, v, paddr, flags, x);
      BusyOutside(s.frames, x);
      BusyOutside(s'.frames, x);
      assert x in source[..r.taken] ==> exists k :: 0 <= k < r.taken && source[k] == x;
    }
  }

  /** Every permitted event keeps the tables a tree of distinct frames that the allocator holds in use. */
  lemma StepKeepsSound(s: System, e: Event)
    requires Sound(s) && Permitted(s, e)
    ensures s.frames.hint <= |s.frames.used| && Sound(Step(s, e))
  {
    hide Tree, IsTable, Map, Unmap, P.ReserveRange;
    ReadyHint(s.frames);
    match e {
      case MapPage(v, paddr, flags) => MapKeepsSound(s, v, paddr, flags);
      case UnmapPage(v) => UnmapRemovesOne(s.mem, s.root, v);
      case OtherAlloc => AllocFacts(s.frames);
      case OtherFree(phys) =>
        P.FreeOneKeeps(s.frames, phys / PAGE);
        forall t | IsTable(s.mem, s.root, t)
          ensures Busy(P.Free(s.frames, phys).0, t)
        {
          TableFacts(s.mem, s.root, t);
        }
      case OtherReserve(start, length) => P.ReserveRangeKeeps(s.frames, start, length);
    }
  }

  // ---- the partial map ----

  ghost predicate Reflects(s: System, m: map<nat, Mapping>)
  {
    && (forall v | v in m :: Page(v))
    && (forall v :: Query(s.mem, s.root, v).1 == if v in m then Some(m[v]) else None)
  }

  /** What an event does to the partial map. */
  function MapAfter(s: System, e: Event, m: map<nat, Mapping>): map<nat, Mapping>
    requires s.frames.hint <= |s.frames.used|
  {
    match e
    case MapPage(v, paddr, flags) =>
      if MapStep(s, v, paddr, flags).rc == OK then m[v := Mapping(Addr(paddr), 1 + PageEntry.Allowed(flags))] else m
    case UnmapPage(v) => m - {v}
    case _ => m
  }

  lemma SoundTree(s: System)
    requires Sound(s)
    ensures Tree(s.mem, s.root)
  {
  }

  lemma SamePath(x: nat, v: nat)
    ensures Page(x) && Page(v) && PathOf(x) == PathOf(v) ==> x == v
  {
    hide PathOf, AddressOf, Page;
    if Page(x) && Page(v) {
      AddressRoundTrip(x);
      AddressRoundTrip(v);
    }
  }

  lemma MapReflects(s: System, v: nat, paddr: nat, flags: nat, m: map<nat, Mapping>)
    requires Tree(s.mem, s.root) && Reflects(s, m)
    requires s.frames.hint <= |s.frames.used| && Fresh(s.mem, s.root, Answers(s.frames, 3))
    requires Tree(MapStep(s, v, paddr, flags).mem, s.root)
    ensures Reflects(Step(s, MapPage(v, paddr, flags)), MapAfter(s, MapPage(v, paddr, flags), m))
    ensures MapStep(s, v, paddr, flags).rc == OK ==> v !in m
  {
    hide Tree, Fresh, Leaf, Map, Query, Page, Addr, Flags, LeafEntry, PageEntry.Allowed, PathOf, Answers, AllocMany, FreeAll;
    MapAddsOne(s.mem, s.root, v, paddr, flags, Answers(s.frames, 3));
    LeafEntryFields(paddr, flags);
    var r := MapStep(s, v, paddr, flags);
    QueryReads(s.mem, s.root, v);
    forall x
      ensures Query(r.mem, s.root, x).1 ==
        if r.rc == OK && x == v then Some(Mapping(Addr(paddr), 1 + PageEntry.Allowed(flags))) else Query(s.mem, s.root, x).1
    {
      QueryReads(s.mem, s.root, x);
      QueryReads(r.mem, s.root, x);
      SamePath(x, v);
    }
  }

  lemma UnmapReflects(s: System, v: nat, m: map<nat, Mapping>)
    requires Tree(s.mem, s.root) && Reflects(s, m) && s.frames.hint <= |s.frames.used|
    requires Tree(Unmap(s.mem, s.root, v).0, s.root)
    ensures Reflects(Step(s, UnmapPage(v)), m - {v})
    ensures Unmap(s.mem, s.root, v).1 == OK <==> v in m
  {
    hide Tree, Leaf, Unmap, Query, Page, Addr, Flags, PathOf;
    UnmapRemovesOne(s.mem, s.root, v);
    QueryReads(s.mem, s.root, v);
    var mem' := Unmap(s.mem, s.root, v).0;
    forall x
      ensures Query(mem', s.root, x).1 == if x == v then None else Query(s.mem, s.root, x).1
    {
      QueryReads(s.mem, s.root, x);
      QueryReads(mem', s.root, x);
      SamePath(x, v);
    }
  }

  lemma StepRefines(s: System, e: Event, m: map<nat, Mapping>)
    requires Sound(s) && Permitted(s, e) && Reflects(s, m)
    ensures s.frames.hint <= |s.frames.used| && Sound(Step(s, e)) && Reflects(Step(s, e), MapAfter(s, e, m))
    ensures e.MapPage? && MapStep(s, e.v, e.paddr, e.flags).rc == OK ==> e.v !in m
    ensures e.UnmapPage? ==> (Unmap(s.mem, s.root, e.v).1 == OK <==> e.v in m)
  {
    hide Sound;
    StepKeepsSound(s, e);
    SoundTree(s);
    var s', m' := Step(s, e), MapAfter(s, e, m);
    SoundTree(s');
    match e {
      case MapPage(v, paddr, flags) =>
        SourceIsFresh(s);
        MapReflects(s, v, paddr, flags, m);
      case UnmapPage(v) => UnmapReflects(s, v, m);
      case _ =>
    }
  }

  // ---- runs ----

  ghost predicate RunPermitted(s: System, es: seq<Event>)
    decreases |es|
  {
    es != [] ==>
      && Permitted(s, es[0]) && s.frames.hint <= |s.frames.used|
      && RunPermitted(Step(s, es[0]), es[1..])
  }

  ghost function Run(s: System, es: seq<Event>): System
    requires RunPermitted(s, es)
    decreases |es|
  {
    if es == [] then s else Run(Step(s, es[0]), es[1..])
  }

  ghost function MapRun(s: System, es: seq<Event>, m: map<nat, Mapping>): map<nat, Mapping>
    requires RunPermitted(s, es)
    decreases |es|
  {
    if es == [] then m else MapRun(Step(s, es[0]), es[1..], MapAfter(s, es[0], m))
  }

  /** Whatever runs, the tables translate exactly as the partial map, and no frame serves as two tables. */
  lemma {:induction false} RunRefines(s: System, es: seq<Event>, m: map<nat, Mapping>)
    requires Sound(s) && RunPermitted(s, es) && Reflects(s, m)
    ensures Sound(Run(s, es)) && Reflects(Run(s, es), MapRun(s, es, m))
    decreases |es|
  {
    hide Sound, Reflects, Step, MapAfter;
    if es != [] {
      StepRefines(s, es[0], m);
      RunRefines(Step(s, es[0]), es[1..], MapAfter(s, es[0], m));
    }
  }

  lemma {:induction false} EmptyWalk(mem: Memory, root: nat, p: Path)
    requires root % PAGE == 0 && root in mem && mem[root] == Empty() && IsPath(p)
    ensures WalkTo(mem, root, p) == if p == [] then At(root) else NoEntry
    decreases |p|
  {
    hide Present, Huge, Addr;
    if p != [] {
      EmptyWalk(mem, root, p[..|p| - 1]);
    }
  }

  /** An empty root table makes a system to start from, with nothing mapped. */
  lemma EmptyRootIsSound(mem: Memory, root: nat, frames: P.State)
    requires root % PAGE == 0 && root in mem && mem[root] == Empty()
    requires P.Ready(frames) && PAGE * |frames.used| <= TOP && Busy(frames, root)
    ensures Sound(System(mem, root, frames)) && Reflects(System(mem, root, frames), map[])
  {
    hide Present, Huge, Addr, P.Ready;
    forall p | IsPath(p)
      ensures WalkTo(mem, root, p) == if p == [] then At(root) else NoEntry
    {
      EmptyWalk(mem, root, p);
    }
    assert forall p, t :: TableAt(mem, root, p, t) ==> p == [] && t == root;
    assert forall p :: Good(mem, root, p);
  }
}
