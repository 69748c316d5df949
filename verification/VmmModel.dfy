/**
  Four-level page tables on values.  Memory is the set of frames that can be
  reached through the physical-to-virtual mapping, each holding 512 entries; a
  path lists the table indices of an address from the top level down.
 */
module VmmModel {
  import opened CStrings
  import opened PageEntry

  const INVALID: nat := 0xffff_ffff_ffff_ffff

  const OK: int := 0
  const E_INVAL: int := -1
  const E_NOMEM: int := -2
  const E_EXISTS: int := -3
  const E_NOT_FOUND: int := -4

  type Table = t: seq<nat> | |t| == 512 witness seq(512, _ => 0)

  function Empty(): (t: Table)
    ensures forall i | 0 <= i < 512 :: t[i] == 0 && !Present(t[i])
  {
    seq(512, _ => 0)
  }

  type Memory = map<nat, Table>

  // ---- walks ----

  datatype Walk = At(frame: nat) | NoEntry | BadTable

  /** Where one entry of a table leads. */
  function Follow(mem: Memory, e: nat): (w: Walk)
    ensures w.At? ==> w.frame in mem
  {
    if !Present(e) || Huge(e) then NoEntry else if Addr(e) in mem then At(Addr(e)) else BadTable
  }

  /** The table reached from the root along a path. */
  function WalkTo(mem: Memory, root: nat, p: Path): (w: Walk)
    requires IsPath(p)
    ensures w.At? ==> w.frame in mem
    decreases |p|
  {
    if p == [] then if root % PAGE == 0 && root in mem then At(root) else BadTable
    else
      var w := WalkTo(mem, root, p[..|p| - 1]);
      if w.At? then Follow(mem, mem[w.frame][p[|p| - 1]]) else w
  }

  lemma WalkOne(mem: Memory, root: nat, p: Path, i: nat)
    requires IsPath(p) && i < 512
    ensures IsPath(p + [i])
    ensures var w := WalkTo(mem, root, p);
      WalkTo(mem, root, p + [i]) == if w.At? then Follow(mem, mem[w.frame][i]) else w
  {
    hide Present, Huge, Addr, TableEntry;
    assert (p + [i])[..|p|] == p;
  }

  /** The entry that maps a page, if any. */
  function Leaf(mem: Memory, root: nat, q: Path): Option<nat>
    requires |q| == 4 && IsPath(q)
  {
    var w := WalkTo(mem, root, q[..3]);
    if w.At? && Present(mem[w.frame][q[3]]) then Some(mem[w.frame][q[3]]) else None
  }

  datatype Mapping = Mapping(paddr: nat, flags: nat)

  function Query(mem: Memory, root: nat, v: nat): (int, Option<Mapping>)
  {
    if !Page(v) then (E_INVAL, None)
    else
      var p := PathOf(v);
      var w := WalkTo(mem, root, p[..3]);
      if w.BadTable? then (E_INVAL, None)
      else if w.NoEntry? || !Present(mem[w.frame][p[3]]) then (E_NOT_FOUND, None)
      else (OK, Some(Mapping(Addr(mem[w.frame][p[3]]), Flags(mem[w.frame][p[3]]))))
  }

  ghost predicate TableAt(mem: Memory, root: nat, p: Path, t: nat)
  {
    IsPath(p) && |p| <= 3 && WalkTo(mem, root, p) == At(t)
  }

  ghost predicate IsTable(mem: Memory, root: nat, t: nat)
  {
    exists p :: TableAt(mem, root, p, t)
  }

  ghost predicate Good(mem: Memory, root: nat, p: Path)
  {
    IsPath(p) && |p| <= 3 ==> !WalkTo(mem, root, p).BadTable?
  }

  /** Every table pointer leads to memory, and tables at different places are different frames. */
  ghost predicate Tree(mem: Memory, root: nat)
  {
    && (forall p :: Good(mem, root, p))
    && (forall p, q, t :: TableAt(mem, root, p, t) && TableAt(mem, root, q, t) ==> p == q)
  }

  // ---- writing entries ----

  function SetEntry(mem: Memory, t: nat, i: nat, e: nat): Memory
    requires t in mem && i < 512
  {
    mem[t := mem[t][i := e]]
  }

  function Link(mem: Memory, t: nat, i: nat, a: nat): Memory
    requires t in mem && a in mem && i < 512
  {
    SetEntry(mem[a := Empty()], t, i, TableEntry(a))
  }

  /** A new empty table changes no walk except the one that ends at it. */
  lemma {:induction false} LinkWalk(mem: Memory, root: nat, p: Path, t: nat, i: nat, a: nat, q: Path)
    requires Tree(mem, root) && TableAt(mem, root, p, t) && |p| < 3 && i < 512 && !Present(mem[t][i])
    requires a in mem && a % PAGE == 0 && a < TOP && !IsTable(mem, root, a)
    requires IsPath(q) && |q| <= 3
    ensures WalkTo(Link(mem, t, i, a), root, q) == if q == p + [i] then At(a) else WalkTo(mem, root, q)
    decreases |q|
  {
    hide Present, Huge, Addr, TableEntry;
    var mem' := Link(mem, t, i, a);
    TableEntryFields(a);
    if q != [] {
      var k := |q| - 1;
      var q0 := q[..k];
      LinkWalk(mem, root, p, t, i, a, q0);
      if q0 == p + [i] {
        WalkOne(mem, root, p, i);
      } else {
        var w := WalkTo(mem, root, q0);
        if w.At? {
          assert TableAt(mem, root, q0, w.frame);
          assert w.frame == t ==> q0 == p;
          assert q == q0 + [q[k]];
        }
      }
    }
  }

  lemma LinkTree(mem: Memory, mem': Memory, root: nat, pi: Path, a: nat)
    requires Tree(mem, root) && IsPath(pi) && |pi| <= 3 && !IsTable(mem, root, a) && !WalkTo(mem, root, pi).At?
    requires forall q | IsPath(q) && |q| <= 3 :: WalkTo(mem', root, q) == if q == pi then At(a) else WalkTo(mem, root, q)
    ensures Tree(mem', root) && TableAt(mem', root, pi, a)
    ensures forall x :: IsTable(mem', root, x) <==> IsTable(mem, root, x) || x == a
  {
    hide Present, Huge, Addr, TableEntry;
    forall q
      ensures Good(mem', root, q)
    {
      assert Good(mem, root, q);
    }
    forall q, t | TableAt(mem', root, q, t)
      ensures if q == pi then t == a else TableAt(mem, root, q, t) && t != a
    {
    }
    forall x | IsTable(mem, root, x)
      ensures IsTable(mem', root, x)
    {
      var q :| TableAt(mem, root, q, x);
      assert TableAt(mem', root, q, x);
    }
  }

  lemma LinkLeaf(mem: Memory, root: nat, p: Path, t: nat, i: nat, a: nat, q: Path)
    requires Tree(mem, root) && TableAt(mem, root, p, t) && |p| < 3 && i < 512 && !Present(mem[t][i])
    requires a in mem && a % PAGE == 0 && a < TOP && !IsTable(mem, root, a)
    requires |q| == 4 && IsPath(q)
    ensures Leaf(Link(mem, t, i, a), root, q) == Leaf(mem, root, q)
  {
    hide Present, Huge, Addr, TableEntry;
    LinkWalk(mem, root, p, t, i, a, q[..3]);
    WalkOne(mem, root, p, i);
    var w := WalkTo(mem, root, q[..3]);
    if w.At? {
      assert TableAt(mem, root, q[..3], w.frame);
    }
  }

  lemma LinkKeeps(mem: Memory, root: nat, p: Path, t: nat, i: nat, a: nat)
    requires Tree(mem, root) && TableAt(mem, root, p, t) && |p| < 3 && i < 512 && !Present(mem[t][i])
    requires a in mem && a % PAGE == 0 && a < TOP && !IsTable(mem, root, a)
    ensures Tree(Link(mem, t, i, a), root) && TableAt(Link(mem, t, i, a), root, p + [i], a)
    ensures forall x :: IsTable(Link(mem, t, i, a), root, x) <==> IsTable(mem, root, x) || x == a
    ensures forall q | |q| == 4 && IsPath(q) :: Leaf(Link(mem, t, i, a), root, q) == Leaf(mem, root, q)
  {
    hide Present, Huge, Addr, TableEntry, Tree;
    var mem' := Link(mem, t, i, a);
    forall q | IsPath(q) && |q| <= 3
      ensures WalkTo(mem', root, q) == if q == p + [i] then At(a) else WalkTo(mem, root, q)
    {
      LinkWalk(mem, root, p, t, i, a, q);
    }
    WalkOne(mem, root, p, i);
    LinkTree(mem, mem', root, p + [i], a);
    forall q | |q| == 4 && IsPath(q)
      ensures Leaf(mem', root, q) == Leaf(mem, root, q)
    {
      LinkLeaf(mem, root, p, t, i, a, q);
    }
  }

  // ---- leaf entries ----

  lemma {:induction false} SetWalk(mem: Memory, root: nat, p: Path, t: nat, i: nat, e: nat, q: Path)
    requires Tree(mem, root) && TableAt(mem, root, p, t) && |p| == 3 && i < 512 && IsPath(q) && |q| <= 3
    ensures WalkTo(SetEntry(mem, t, i, e), root, q) == WalkTo(mem, root, q)
    decreases |q|
  {
    hide Present, Huge, Addr, TableEntry;
    if q != [] {
      var q0 := q[..|q| - 1];
      SetWalk(mem, root, p, t, i, e, q0);
      var w := WalkTo(mem, root, q0);
      assert w.At? ==> TableAt(mem, root, q0, w.frame);
    }
  }

  lemma SameWalksTree(mem: Memory, mem': Memory, root: nat)
    requires Tree(mem, root)
    requires forall q | IsPath(q) && |q| <= 3 :: WalkTo(mem', root, q) == WalkTo(mem, root, q)
    ensures Tree(mem', root) && forall x :: IsTable(mem', root, x) <==> IsTable(mem, root, x)
  {
    hide Present, Huge, Addr, TableEntry;
    forall q
      ensures Good(mem', root, q)
    {
      assert Good(mem, root, q);
    }
    forall q, t
      ensures TableAt(mem', root, q, t) == TableAt(mem, root, q, t)
    {
    }
  }

  lemma SetLeaf(mem: Memory, root: nat, p: Path, t: nat, i: nat, e: nat, q: Path)
    requires Tree(mem, root) && TableAt(mem, root, p, t) && |p| == 3 && i < 512 && |q| == 4 && IsPath(q)
    ensures Leaf(SetEntry(mem, t, i, e), root, q) ==
      if q == p + [i] then if Present(e) then Some(e) else None else Leaf(mem, root, q)
  {
    hide Present, Huge, Addr, TableEntry;
    SetWalk(mem, root, p, t, i, e, q[..3]);
    var w := WalkTo(mem, root, q[..3]);
    assert q == q[..3] + [q[3]];
    if w.At? {
      assert TableAt(mem, root, q[..3], w.frame);
    }
  }

  /** Writing one entry of a last-level table changes the translation of one page. */
  lemma SetKeeps(mem: Memory, root: nat, p: Path, t: nat, i: nat, e: nat)
    requires Tree(mem, root) && TableAt(mem, root, p, t) && |p| == 3 && i < 512
    ensures Tree(SetEntry(mem, t, i, e), root)
    ensures forall x :: IsTable(SetEntry(mem, t, i, e), root, x) <==> IsTable(mem, root, x)
    ensures forall q | |q| == 4 && IsPath(q) ::
      Leaf(SetEntry(mem, t, i, e), root, q) == if q == p + [i] then if Present(e) then Some(e) else None else Leaf(mem, root, q)
  {
    hide Present, Huge, Addr, TableEntry, Tree;
    var mem' := SetEntry(mem, t, i, e);
    forall q | IsPath(q) && |q| <= 3
      ensures WalkTo(mem', root, q) == WalkTo(mem, root, q)
    {
      SetWalk(mem, root, p, t, i, e, q);
    }
    SameWalksTree(mem, mem', root);
    forall q | |q| == 4 && IsPath(q)
      ensures Leaf(mem', root, q) == if q == p + [i] then if Present(e) then Some(e) else None else Leaf(mem, root, q)
    {
      SetLeaf(mem, root, p, t, i, e, q);
    }
  }

  // ---- the operations ----

  /** The state after an operation, its code, the table it reached, and what it asked of the frame source. */
  datatype Reached = Reached(mem: Memory, rc: int, table: nat, taken: nat, returned: seq<nat>)

  /** A frame the source may hand out that can serve as a table. */
  predicate Usable(mem: Memory, a: nat)
  {
    a != INVALID && a % PAGE == 0 && a in mem
  }

  /** The table behind an entry, made from the next frame of the source if there is none. */
  function NextTable(mem: Memory, t: nat, i: nat, source: seq<nat>): (r: Reached)
    requires t in mem && i < 512
    ensures r.mem.Keys == mem.Keys && r.taken <= |source| && (r.rc == OK ==> r.table in mem)
  {
    var e := mem[t][i];
    if Present(e) then
      if Huge(e) then Reached(mem, E_EXISTS, 0, 0, [])
      else if Addr(e) !in mem then Reached(mem, E_INVAL, 0, 0, [])
      else Reached(mem, OK, Addr(e), 0, [])
    else if source == [] then Reached(mem, E_NOMEM, 0, 0, [])
    else
      var a := source[0];
      if a == INVALID || a % PAGE != 0 then Reached(mem, E_NOMEM, 0, 1, [])
      else if a !in mem then Reached(mem, E_INVAL, 0, 1, [a])
      else Reached(Link(mem, t, i, a), OK, a, 1, [])
  }

  function Reach(mem: Memory, t: nat, p: Path, source: seq<nat>): (r: Reached)
    requires t in mem && IsPath(p)
    ensures r.mem.Keys == mem.Keys && r.taken <= |source| && (r.rc == OK ==> r.table in mem)
    decreases |p|
  {
    if p == [] then Reached(mem, OK, t, 0, [])
    else
      var s := NextTable(mem, t, p[0], source);
      if s.rc != OK then s
      else
        var r := Reach(s.mem, s.table, p[1..], source[s.taken..]);
        r.(taken := s.taken + r.taken, returned := s.returned + r.returned)
  }

  function Map(mem: Memory, root: nat, v: nat, paddr: nat, flags: nat, source: seq<nat>): (r: Reached)
    ensures r.mem.Keys == mem.Keys && r.taken <= |source|
  {
    if !Page(v) || paddr % PAGE != 0 || root % PAGE != 0 || root !in mem then Reached(mem, E_INVAL, 0, 0, [])
    else
      var p := PathOf(v);
      var r := Reach(mem, root, p[..3], source);
      if r.rc != OK then r
      else if Present(r.mem[r.table][p[3]]) then r.(rc := E_EXISTS)
      else r.(mem := SetEntry(r.mem, r.table, p[3], LeafEntry(paddr, flags)))
  }

  function Unmap(mem: Memory, root: nat, v: nat): (Memory, int)
  {
    if !Page(v) then (mem, E_INVAL)
    else
      var p := PathOf(v);
      var w := WalkTo(mem, root, p[..3]);
      if w.BadTable? then (mem, E_INVAL)
      else if w.NoEntry? || !Present(mem[w.frame][p[3]]) then (mem, E_NOT_FOUND)
      else (SetEntry(mem, w.frame, p[3], 0), OK)
  }

  /** What the frame source owes: usable frames are below 2^52, not tables already, and not handed out twice. */
  ghost predicate Fresh(mem: Memory, root: nat, source: seq<nat>)
  {
    && (forall i | 0 <= i < |source| && Usable(mem, source[i]) :: source[i] < TOP && !IsTable(mem, root, source[i]))
    && (forall i, j | 0 <= i < j < |source| && Usable(mem, source[i]) :: source[i] != source[j])
  }

  ghost predicate SameLeaves(mem: Memory, mem': Memory, root: nat)
  {
    forall q | |q| == 4 && IsPath(q) :: Leaf(mem', root, q) == Leaf(mem, root, q)
  }

  /** The tables are the old ones and frames taken from the source. */
  ghost predicate Grows(mem: Memory, mem': Memory, root: nat, taken: seq<nat>)
  {
    forall x :: IsTable(mem', root, x) ==> IsTable(mem, root, x) || x in taken
  }

  lemma NextTableKeeps(mem: Memory, root: nat, p: Path, t: nat, i: nat, source: seq<nat>)
    requires Tree(mem, root) && TableAt(mem, root, p, t) && |p| < 3 && i < 512 && Fresh(mem, root, source)
    ensures var r := NextTable(mem, t, i, source);
      && Tree(r.mem, root) && SameLeaves(mem, r.mem, root) && Grows(mem, r.mem, root, source[..r.taken])
      && (r.rc == OK ==> TableAt(r.mem, root, p + [i], r.table))
      && (r.rc == OK ==> Fresh(r.mem, root, source[r.taken..]))
  {
    hide Present, Huge, Addr, TableEntry, Tree, Leaf, WalkTo;
    WalkOne(mem, root, p, i);
    var e := mem[t][i];
    var r := NextTable(mem, t, i, source);
    if !Present(e) && r.rc == OK {
      LinkKeeps(mem, root, p, t, i, source[0]);
      assert source[..1] == [source[0]];
    } else {
      assert source[0..] == source;
    }
  }

  lemma {:induction false} ReachKeeps(mem: Memory, root: nat, p: Path, t: nat, q: Path, source: seq<nat>)
    requires Tree(mem, root) && TableAt(mem, root, p, t) && IsPath(q) && |p| + |q| <= 3 && Fresh(mem, root, source)
    ensures var r := Reach(mem, t, q, source);
      && Tree(r.mem, root) && SameLeaves(mem, r.mem, root) && Grows(mem, r.mem, root, source[..r.taken])
      && (r.rc == OK ==> TableAt(r.mem, root, p + q, r.table))
    decreases |q|
  {
    hide Present, Huge, Addr, TableEntry, Tree, Leaf, WalkTo, NextTable, Fresh;
    if q == [] {
      assert p + q == p;
    } else {
      NextTableKeeps(mem, root, p, t, q[0], source);
      var s := NextTable(mem, t, q[0], source);
      if s.rc == OK {
        ReachKeeps(s.mem, root, p + [q[0]], s.table, q[1..], source[s.taken..]);
        assert p + [q[0]] + q[1..] == p + q;
        var r := Reach(s.mem, s.table, q[1..], source[s.taken..]);
        assert source[..s.taken + r.taken] == source[..s.taken] + source[s.taken..][..r.taken];
      }
    }
  }

  lemma RootTable(mem: Memory, root: nat)
    requires Tree(mem, root)
    ensures root % PAGE == 0 && root in mem && TableAt(mem, root, [], root)
  {
    assert Good(mem, root, []);
  }

  /** Mapping adds exactly one translation, or fails and changes none. */
  lemma MapAddsOne(mem: Memory, root: nat, v: nat, paddr: nat, flags: nat, source: seq<nat>)
    requires Tree(mem, root) && Fresh(mem, root, source)
    ensures Tree(Map(mem, root, v, paddr, flags, source).mem, root)
    ensures var r := Map(mem, root, v, paddr, flags, source); Grows(mem, r.mem, root, source[..r.taken])
    ensures Map(mem, root, v, paddr, flags, source).rc == OK ==> Page(v) && paddr % PAGE == 0 && Leaf(mem, root, PathOf(v)) == None
    ensures forall q | |q| == 4 && IsPath(q) ::
      Leaf(Map(mem, root, v, paddr, flags, source).mem, root, q) ==
        if Map(mem, root, v, paddr, flags, source).rc == OK && q == PathOf(v) then Some(LeafEntry(paddr, flags))
        else Leaf(mem, root, q)
  {
    hide Present, Huge, Addr, TableEntry, LeafEntry, Page, Tree, Fresh, Reach;
    RootTable(mem, root);
    var p := PathOf(v);
    if Page(v) && paddr % PAGE == 0 {
      ReachKeeps(mem, root, [], root, p[..3], source);
      var r := Reach(mem, root, p[..3], source);
      assert [] + p[..3] == p[..3] && p == p[..3] + [p[3]];
      if r.rc == OK && !Present(r.mem[r.table][p[3]]) {
        LeafEntryFields(paddr, flags);
        SetKeeps(r.mem, root, p[..3], r.table, p[3], LeafEntry(paddr, flags));
      }
    }
  }

  /** No frame is lost: every table stays one, and every frame taken from the source has become a table or was given back. */
  ghost predicate Accounts(mem: Memory, r: Reached, root: nat, source: seq<nat>)
    requires r.taken <= |source|
  {
    && (forall x :: IsTable(mem, root, x) ==> IsTable(r.mem, root, x))
    && forall k | 0 <= k < r.taken && source[k] != INVALID && source[k] % PAGE == 0 ::
         IsTable(r.mem, root, source[k]) || source[k] in r.returned
  }

  lemma NextTableAccounts(mem: Memory, root: nat, p: Path, t: nat, i: nat, source: seq<nat>)
    requires Tree(mem, root) && TableAt(mem, root, p, t) && |p| < 3 && i < 512 && Fresh(mem, root, source)
    ensures Accounts(mem, NextTable(mem, t, i, source), root, source)
  {
    hide Present, Huge, Addr, TableEntry, Tree, Leaf, WalkTo, IsTable;
    var r := NextTable(mem, t, i, source);
    if !Present(mem[t][i]) && r.rc == OK {
      LinkKeeps(mem, root, p, t, i, source[0]);
    }
  }

  lemma {:induction false} ReachAccounts(mem: Memory, root: nat, p: Path, t: nat, q: Path, source: seq<nat>)
    requires Tree(mem, root) && TableAt(mem, root, p, t) && IsPath(q) && |p| + |q| <= 3 && Fresh(mem, root, source)
    ensures Accounts(mem, Reach(mem, t, q, source), root, source)
    decreases |q|
  {
    hide Present, Huge, Addr, TableEntry, Tree, Leaf, WalkTo, NextTable, Fresh, IsTable;
    if q != [] {
      NextTableKeeps(mem, root, p, t, q[0], source);
      NextTableAccounts(mem, root, p, t, q[0], source);
      var s := NextTable(mem, t, q[0], source);
      if s.rc == OK {
        var rest := source[s.taken..];
        ReachAccounts(s.mem, root, p + [q[0]], s.table, q[1..], rest);
        var u, r := Reach(s.mem, s.table, q[1..], rest), Reach(mem, t, q, source);
        forall k | 0 <= k < r.taken && source[k] != INVALID && source[k] % PAGE == 0
          ensures IsTable(r.mem, root, source[k]) || source[k] in r.returned
        {
          if k >= s.taken {
            assert source[k] == rest[k - s.taken];
          }
        }
      }
    }
  }

  /** A map, whether it succeeds or fails, loses no frame. */
  lemma MapAccounts(mem: Memory, root: nat, v: nat, paddr: nat, flags: nat, source: seq<nat>)
    requires Tree(mem, root) && Fresh(mem, root, source)
    ensures Accounts(mem, Map(mem, root, v, paddr, flags, source), root, source)
  {
    hide Present, Huge, Addr, TableEntry, LeafEntry, Page, Tree, Fresh, Reach, IsTable;
    RootTable(mem, root);
    var p := PathOf(v);
    if Page(v) && paddr % PAGE == 0 {
      ReachKeeps(mem, root, [], root, p[..3], source);
      ReachAccounts(mem, root, [], root, p[..3], source);
      var r := Reach(mem, root, p[..3], source);
      assert [] + p[..3] == p[..3];
      if r.rc == OK && !Present(r.mem[r.table][p[3]]) {
        SetKeeps(r.mem, root, p[..3], r.table, p[3], LeafEntry(paddr, flags));
      }
    }
  }

  lemma GoodPath(mem: Memory, root: nat, p: Path)
    requires Tree(mem, root)
    ensures Good(mem, root, p)
  {
  }

  /** Unmapping removes exactly one translation; it fails exactly where there is none. */
  lemma UnmapRemovesOne(mem: Memory, root: nat, v: nat)
    requires Tree(mem, root)
    ensures Tree(Unmap(mem, root, v).0, root) && Grows(mem, Unmap(mem, root, v).0, root, [])
    ensures Unmap(mem, root, v).1 == if !Page(v) then E_INVAL else if Leaf(mem, root, PathOf(v)) == None then E_NOT_FOUND else OK
    ensures forall q | |q| == 4 && IsPath(q) ::
      Leaf(Unmap(mem, root, v).0, root, q) == if Page(v) && q == PathOf(v) then None else Leaf(mem, root, q)
  {
    hide Huge, Addr, TableEntry, Page, Tree;
    if Page(v) {
      var p := PathOf(v);
      var w := WalkTo(mem, root, p[..3]);
      assert Good(mem, root, p[..3]) by {
        GoodPath(mem, root, p[..3]);
      }
      assert p == p[..3] + [p[3]];
      if w.At? && Present(mem[w.frame][p[3]]) {
        assert TableAt(mem, root, p[..3], w.frame);
        SetKeeps(mem, root, p[..3], w.frame, p[3], 0);
      }
    }
  }

  /** A query reports the entry that maps the page. */
  lemma QueryReads(mem: Memory, root: nat, v: nat)
    requires Tree(mem, root)
    ensures Query(mem, root, v) ==
      if !Page(v) then (E_INVAL, None)
      else match Leaf(mem, root, PathOf(v))
        case None => (E_NOT_FOUND, None)
        case Some(e) => (OK, Some(Mapping(Addr(e), Flags(e))))
  {
    hide Huge, Addr, Page, Present, Flags;
    GoodPath(mem, root, PathOf(v)[..3]);
  }

  // ---- error codes ----

  /** How far the tables of a path exist. */
  datatype Way = Open(missing: nat) | Blocked | Broken

  function WayTo(mem: Memory, t: nat, q: Path): Way
    requires t in mem && IsPath(q)
    decreases |q|
  {
    if q == [] then Open(0)
    else
      var e := mem[t][q[0]];
      if !Present(e) then Open(|q|)
      else if Huge(e) then Blocked
      else if Addr(e) !in mem then Broken
      else WayTo(mem, Addr(e), q[1..])
  }

  /** What taking `n` frames from the source comes to. */
  function SourceCode(mem: Memory, source: seq<nat>, n: nat): int
    decreases n
  {
    if n == 0 then OK
    else if source == [] || source[0] == INVALID || source[0] % PAGE != 0 then E_NOMEM
    else if source[0] !in mem then E_INVAL
    else SourceCode(mem, source[1..], n - 1)
  }

  function WayCode(mem: Memory, w: Way, source: seq<nat>): int
  {
    match w
    case Open(n) => SourceCode(mem, source, n)
    case Blocked => E_EXISTS
    case Broken => E_INVAL
  }

  /** No usable frame of the source is `t` or comes twice. */
  ghost predicate Apart(mem: Memory, t: nat, source: seq<nat>)
  {
    && (forall i | 0 <= i < |source| && Usable(mem, source[i]) :: source[i] != t)
    && (forall i, j | 0 <= i < j < |source| && Usable(mem, source[i]) :: source[i] != source[j])
  }

  lemma {:induction false} SourceCodeKeys(mem: Memory, mem': Memory, source: seq<nat>, n: nat)
    requires mem.Keys == mem'.Keys
    ensures SourceCode(mem, source, n) == SourceCode(mem', source, n)
    decreases n
  {
    if n > 0 && source != [] {
      assert source[0] in mem <==> source[0] in mem.Keys;
      assert source[0] in mem' <==> source[0] in mem'.Keys;
      SourceCodeKeys(mem, mem', source[1..], n - 1);
    }
  }

  lemma ApartNext(mem: Memory, mem': Memory, t: nat, source: seq<nat>)
    requires Apart(mem, t, source) && mem'.Keys == mem.Keys && source != [] && Usable(mem, source[0])
    ensures source[0] != t && Apart(mem', source[0], source[1..])
  {
    var rest := source[1..];
    forall i | 0 <= i < |rest|
      ensures rest[i] != source[0] && (Usable(mem', rest[i]) ==> Usable(mem, source[i + 1]))
    {
      assert rest[i] == source[i + 1];
      assert rest[i] in mem' <==> rest[i] in mem'.Keys;
    }
  }

  /** Below an empty table every level takes a frame. */
  lemma {:induction false} EmptyReach(mem: Memory, t: nat, q: Path, source: seq<nat>)
    requires t in mem && mem[t] == Empty() && IsPath(q) && Apart(mem, t, source)
    ensures Reach(mem, t, q, source).rc == SourceCode(mem, source, |q|)
    decreases |q|, 1
  {
    hide Present, Huge, Addr, TableEntry, Apart;
    if q != [] && source != [] && Usable(mem, source[0]) {
      LinkReach(mem, t, q, source);
    }
  }

  lemma {:induction false} LinkReach(mem: Memory, t: nat, q: Path, source: seq<nat>)
    requires t in mem && IsPath(q) && q != [] && !Present(mem[t][q[0]]) && Apart(mem, t, source)
    requires source != [] && Usable(mem, source[0])
    ensures Reach(mem, t, q, source).rc == SourceCode(mem, source, |q|)
    decreases |q|, 0
  {
    hide Present, Huge, Addr, TableEntry, Apart;
    var a := source[0];
    var mem' := Link(mem, t, q[0], a);
    assert mem'.Keys == mem.Keys;
    ApartNext(mem, mem', t, source);
    EmptyReach(mem', a, q[1..], source[1..]);
    SourceCodeKeys(mem, mem', source[1..], |q| - 1);
  }

  lemma FreshApart(mem: Memory, root: nat, p: Path, t: nat, source: seq<nat>)
    requires TableAt(mem, root, p, t) && Fresh(mem, root, source)
    ensures Apart(mem, t, source)
  {
  }

  lemma {:induction false} ReachCode(mem: Memory, root: nat, p: Path, t: nat, q: Path, source: seq<nat>)
    requires Tree(mem, root) && TableAt(mem, root, p, t) && IsPath(q) && |p| + |q| <= 3 && Fresh(mem, root, source)
    ensures Reach(mem, t, q, source).rc == WayCode(mem, WayTo(mem, t, q), source)
    decreases |q|
  {
    hide Present, Huge, Addr, TableEntry, Tree, WalkTo;
    if q != [] {
      var e := mem[t][q[0]];
      WalkOne(mem, root, p, q[0]);
      assert source[0..] == source;
      if Present(e) && !Huge(e) && Addr(e) in mem {
        ReachCode(mem, root, p + [q[0]], Addr(e), q[1..], source);
      } else if !Present(e) && source != [] && Usable(mem, source[0]) {
        FreshApart(mem, root, p, t, source);
        LinkReach(mem, t, q, source);
      }
    }
  }

  lemma {:induction false} NoTable(mem: Memory, root: nat, p: Path, q: Path)
    requires IsPath(p) && IsPath(q) && !WalkTo(mem, root, p).At?
    ensures IsPath(p + q) && !WalkTo(mem, root, p + q).At?
    decreases |q|
  {
    hide Present, Huge, Addr;
    if q == [] {
      assert p + q == p;
    } else {
      NoTable(mem, root, p, q[..|q| - 1]);
      assert (p + q)[..|p + q| - 1] == p + q[..|q| - 1];
    }
  }

  /** A page can only be mapped where all its tables exist. */
  lemma {:induction false} OpenLeaf(mem: Memory, root: nat, p: Path, t: nat, q: Path, i: nat)
    requires TableAt(mem, root, p, t) && t in mem && IsPath(q) && |p| + |q| == 3 && i < 512
    ensures IsPath(p + q + [i]) && (WayTo(mem, t, q) != Open(0) ==> Leaf(mem, root, p + q + [i]) == None)
    decreases |q|
  {
    hide Present, Huge, Addr;
    if q != [] {
      var e := mem[t][q[0]];
      WalkOne(mem, root, p, q[0]);
      assert p + [q[0]] + q[1..] == p + q;
      if Present(e) && !Huge(e) && Addr(e) in mem {
        OpenLeaf(mem, root, p + [q[0]], Addr(e), q[1..], i);
      } else {
        NoTable(mem, root, p + [q[0]], q[1..]);
        assert (p + q + [i])[..3] == p + q;
      }
    }
  }

  /** The code of a map in full: what is there decides first, then the frames. */
  lemma MapCode(mem: Memory, root: nat, v: nat, paddr: nat, flags: nat, source: seq<nat>)
    requires Tree(mem, root) && Fresh(mem, root, source)
    ensures root in mem
    ensures Map(mem, root, v, paddr, flags, source).rc ==
      if !Page(v) || paddr % PAGE != 0 then E_INVAL
      else
        var way := WayTo(mem, root, PathOf(v)[..3]);
        if way == Open(0) && Leaf(mem, root, PathOf(v)) != None then E_EXISTS else WayCode(mem, way, source)
  {
    hide Present, Huge, Addr, TableEntry, LeafEntry, Page, Tree, Fresh, Reach, WayTo;
    RootTable(mem, root);
    var p := PathOf(v);
    if Page(v) && paddr % PAGE == 0 {
      ReachCode(mem, root, [], root, p[..3], source);
      ReachKeeps(mem, root, [], root, p[..3], source);
      var r := Reach(mem, root, p[..3], source);
      assert [] + p[..3] == p[..3];
      OpenLeaf(mem, root, [], root, p[..3], p[3]);
      if r.rc == OK {
        assert Leaf(r.mem, root, p) == Leaf(mem, root, p);
      }
    }
  }
}
