/**
  The page-table operations as the program performs them, updating table entries
  in place.  The callbacks of the address space become fields: `source` holds the
  answers of the frame allocator that are still to come (none when there is no
  allocator), and `returned` the frames handed back to it.
 */
module Vmm {
  import opened CStrings
  import opened PageEntry
  import opened VmmModel

  /** Walking three levels one by one. */
  lemma WalkThree(mem: Memory, root: nat, p: Path)
    requires |p| == 4 && IsPath(p)
    ensures var w0 := WalkTo(mem, root, []);
      var w1 := if w0.At? then Follow(mem, mem[w0.frame][p[0]]) else w0;
      var w2 := if w1.At? then Follow(mem, mem[w1.frame][p[1]]) else w1;
      WalkTo(mem, root, p[..3]) == if w2.At? then Follow(mem, mem[w2.frame][p[2]]) else w2
  {
    hide Follow;
    WalkOne(mem, root, [], p[0]);
    WalkOne(mem, root, [p[0]], p[1]);
    WalkOne(mem, root, [p[0], p[1]], p[2]);
    assert [] + [p[0]] == [p[0]] && [p[0]] + [p[1]] == [p[0], p[1]] && [p[0], p[1]] + [p[2]] == p[..3];
  }

  lemma ReachOne(mem: Memory, t: nat, p: Path, source: seq<nat>)
    requires t in mem && IsPath(p) && p != []
    ensures var s := NextTable(mem, t, p[0], source);
      Reach(mem, t, p, source) == if s.rc != OK then s
        else
          var r := Reach(s.mem, s.table, p[1..], source[s.taken..]);
          r.(taken := s.taken + r.taken, returned := s.returned + r.returned)
  {
  }

  lemma ReachNone(mem: Memory, t: nat, source: seq<nat>)
    requires t in mem
    ensures Reach(mem, t, [], source) == Reached(mem, OK, t, 0, [])
  {
  }

  class AddressSpace {
    var mem: Memory
    var root: nat
    var source: seq<nat>
    var returned: seq<nat>

    constructor (mem: Memory, source: seq<nat>)
      ensures this.mem == mem && this.source == source && root == 0 && returned == []
    {
      this.mem, this.source, root, returned := mem, source, 0, [];
    }

    method Init(rootPaddr: nat) returns (rc: int)
      modifies `root
      ensures rc == if rootPaddr % PAGE == 0 then OK else E_INVAL
      ensures root == if rc == OK then rootPaddr else old(root)
    {
      if rootPaddr % PAGE != 0 {
        return E_INVAL;
      }
      root := rootPaddr;
      return OK;
    }

    method TableFromPhys(paddr: nat) returns (ok: bool)
      ensures ok <==> paddr % PAGE == 0 && paddr in mem
    {
      return paddr % PAGE == 0 && paddr in mem;
    }

    method ZeroPage(t: nat)
      requires t in mem
      modifies `mem
      ensures mem == old(mem)[t := Empty()]
    {
      hide Present;
      for i := 0 to 512
        invariant mem.Keys == old(mem).Keys && mem == old(mem)[t := mem[t]]
        invariant forall j | 0 <= j < i :: mem[t][j] == 0
      {
        mem := mem[t := mem[t][i := 0]];
      }
      assert mem[t] == Empty();
    }

    /** The state and the outcome are those of a step of the model. */
    ghost predicate Stepped(r: Reached, before: seq<nat>, given: seq<nat>)
      requires r.taken <= |before|
      reads this
    {
      mem == r.mem && source == before[r.taken..] && returned == given + r.returned
    }

    method GetOrAllocNextTable(t: nat, i: nat) returns (rc: int, next: nat)
      requires t in mem && i < 512
      modifies `mem, `source, `returned
      ensures var r := NextTable(old(mem), t, i, old(source));
        Stepped(r, old(source), old(returned)) && rc == r.rc && (rc == OK ==> next == r.table)
    {
      hide Present, Huge, Addr, TableEntry;
      next := 0;
      var entry := mem[t][i];
      if Present(entry) {
        if Huge(entry) {
          return E_EXISTS, 0;
        }
        var found := TableFromPhys(Addr(entry));
        if !found {
          return E_INVAL, 0;
        }
        return OK, Addr(entry);
      }
      if source == [] {
        return E_NOMEM, 0;
      }
      var paddr := source[0];
      source := source[1..];
      if paddr == INVALID || paddr % PAGE != 0 {
        return E_NOMEM, 0;
      }
      var reachable := TableFromPhys(paddr);
      if !reachable {
        returned := returned + [paddr];
        return E_INVAL, 0;
      }
      ZeroPage(paddr);
      mem := mem[t := mem[t][i := TableEntry(paddr)]];
      return OK, paddr;
    }

    method MapPage(v: nat, paddr: nat, flags: nat) returns (rc: int)
      modifies `mem, `source, `returned
      ensures var r := Map(old(mem), root, v, paddr, flags, old(source));
        Stepped(r, old(source), old(returned)) && rc == r.rc
    {
      hide Present, Page, NextTable, LeafEntry;
      if !Page(v) || paddr % PAGE != 0 {
        return E_INVAL;
      }
      var ok := TableFromPhys(root);
      if !ok {
        return E_INVAL;
      }
      var p := PathOf(v);
      var table;
      rc, table := Descend(p);
      if rc != OK {
        return rc;
      }
      if Present(mem[table][p[3]]) {
        return E_EXISTS;
      }
      mem := mem[table := mem[table][p[3] := LeafEntry(paddr, flags)]];
      return OK;
    }

    /** The three levels above the last. */
    method Descend(p: Path) returns (rc: int, table: nat)
      requires root in mem && |p| == 4 && IsPath(p)
      modifies `mem, `source, `returned
      ensures var r := Reach(old(mem), root, p[..3], old(source));
        Stepped(r, old(source), old(returned)) && rc == r.rc && (rc == OK ==> table == r.table)
    {
      hide NextTable, Reach;
      ReachOne(mem, root, p[..3], source);
      var pdpt;
      rc, pdpt := GetOrAllocNextTable(root, p[0]);
      if rc != OK {
        return rc, 0;
      }
      assert p[..3][1..] == [p[1], p[2]];
      rc, table := DescendTwo(pdpt, [p[1], p[2]]);
    }

    method DescendTwo(t: nat, p: Path) returns (rc: int, table: nat)
      requires t in mem && |p| == 2 && IsPath(p)
      modifies `mem, `source, `returned
      ensures var r := Reach(old(mem), t, p, old(source));
        Stepped(r, old(source), old(returned)) && rc == r.rc && (rc == OK ==> table == r.table)
    {
      hide NextTable, Reach;
      ReachOne(mem, t, p, source);
      var pd;
      rc, pd := GetOrAllocNextTable(t, p[0]);
      if rc != OK {
        return rc, 0;
      }
      assert p[1..] == [p[1]];
      ReachOne(mem, pd, [p[1]], source);
      rc, table := GetOrAllocNextTable(pd, p[1]);
      if rc == OK {
        assert [p[1]][1..] == [];
        ReachNone(mem, table, source);
      }
    }

    method QueryPage(v: nat) returns (rc: int, out: Option<Mapping>)
      ensures (rc, out) == Query(mem, root, v)
    {
      hide Present, Huge, Addr, Flags, Page;
      if !Page(v) {
        return E_INVAL, None;
      }
      var p := PathOf(v);
      var table;
      rc, table := Find(p);
      if rc != OK {
        return rc, None;
      }
      var e := mem[table][p[3]];
      if !Present(e) {
        return E_NOT_FOUND, None;
      }
      return OK, Some(Mapping(Addr(e), Flags(e)));
    }

    /** The last-level table of a path, if there is one. */
    method Find(p: Path) returns (rc: int, table: nat)
      requires |p| == 4 && IsPath(p)
      ensures match WalkTo(mem, root, p[..3])
        case At(t) => rc == OK && table == t && t in mem
        case NoEntry => rc == E_NOT_FOUND
        case BadTable => rc == E_INVAL
    {
      hide Present, Huge, Addr;
      WalkThree(mem, root, p);
      table := root;
      var ok := TableFromPhys(root);
      if !ok {
        return E_INVAL, 0;
      }
      var e := mem[table][p[0]];
      if !Present(e) || Huge(e) {
        return E_NOT_FOUND, 0;
      }
      table := Addr(e);
      ok := TableFromPhys(table);
      if !ok {
        return E_INVAL, 0;
      }
      e := mem[table][p[1]];
      if !Present(e) || Huge(e) {
        return E_NOT_FOUND, 0;
      }
      table := Addr(e);
      ok := TableFromPhys(table);
      if !ok {
        return E_INVAL, 0;
      }
      e := mem[table][p[2]];
      if !Present(e) || Huge(e) {
        return E_NOT_FOUND, 0;
      }
      table := Addr(e);
      ok := TableFromPhys(table);
      if !ok {
        return E_INVAL, 0;
      }
      return OK, table;
    }

    method UnmapPage(v: nat) returns (rc: int)
      modifies `mem
      ensures (mem, rc) == Unmap(old(mem), root, v)
    {
      hide Present, Huge, Addr, Page;
      if !Page(v) {
        return E_INVAL;
      }
      var p := PathOf(v);
      var table;
      rc, table := Find(p);
      if rc != OK {
        return rc;
      }
      if !Present(mem[table][p[3]]) {
        return E_NOT_FOUND;
      }
      mem := mem[table := mem[table][p[3] := 0]];
      return OK;
    }
  }
}
