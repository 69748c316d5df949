/**
  The buffer cache over devices that refuse reads.  A refused read empties the slot
  it chose, so a block can go early; it is sure to stay for `entry_count - 1` served
  misses exactly if no slot in use lay between empty ones when it was brought in.
 */
module CacheRefusals {
  import opened Bytes
  import opened CacheModel
  import opened CacheRuns

  lemma RefusedHoles<D>(c: Cache<D>, c': Cache<D>)
    requires 0 < |c.entries| == |c'.entries| && c.hand <= |c.entries| && Victim(c) < |c.entries| && !c'.entries[Victim(c)].valid
    requires forall i | 0 <= i < |c.entries| && i != Victim(c) :: c'.entries[i].valid == c.entries[i].valid
    ensures Holes(c.entries) > 0 ==> Holes(c'.entries) == Holes(c.entries)
    ensures Holes(c.entries) == 0 ==> Holes(c'.entries) == 1 && Oldest(c) == Victim(c)
  {
    hide FirstInvalid, PastLast, Holes;
    VictimEmpty(c);
    HoleMet(c.entries, Wrap(c.hand, |c.entries|));
    if Holes(c.entries) == 0 {
      AllInUse(c.entries, Wrap(c.hand, |c.entries|));
      HolesFill(c'.entries, c.entries, Victim(c));
    } else {
      HolesSame(c.entries, c'.entries);
    }
  }

  /**
    A refused read empties the slot it chose and makes the slot after it the oldest:
    in a full cache every other slot keeps its turns, otherwise the round starts anew.
   */
  lemma RefusedTurns<D>(c: Cache<D>, op: Op<D>, j: nat)
    requires Ok(c) && Sane(c.disks, op) && !Served(c, op) && Miss(c, op)
    requires j < |c.entries| && c.entries[j].valid && j != Victim(c)
    ensures var c', n, v := Step(c, op), |c.entries|, Victim(c);
      && |c'.entries| == n && v < n && c'.hand == v + 1 && !c'.entries[v].valid
      && c'.entries[j] == c.entries[j].(dirty := c'.entries[j].dirty)
      && Left(c', j) == Holes(c'.entries) + Wrap(j + n - Wrap(v + 1, n), n)
      && (Holes(c.entries) == 0 ==> Left(c', j) == Left(c, j))
      && (Holes(c.entries) > 0 ==> Holes(c'.entries) == Holes(c.entries))
  {
    hide Ok, Step, FirstInvalid, PastLast, Holes;
    OkSizes(c);
    RefusedEmpties(c, op);
    var c', n, v := Step(c, op), |c.entries|, Victim(c);
    var start' := Wrap(v + 1, n);
    assert !ValidAt(c'.entries, start', n - 1);
    PastLastIs(c'.entries, start', n);
    VictimEmpty(c);
    RefusedHoles(c, c');
  }

  // ---- a bound that holds for every continuation ----

  /**
    Seen from the slot after `v`: the empty slots are among the first `l`, the hand
    stands among these or just past them, and no more than `s` of them are in use.
   */
  predicate Sheltered<D>(c: Cache<D>, v: nat, l: nat, s: nat)
    requires 0 < |c.entries| && c.hand <= |c.entries| && v < |c.entries|
  {
    var n := |c.entries|;
    var after := Wrap(v + 1, n);
    && l < n && (forall q | l <= q < n :: ValidAt(c.entries, after, q))
    && Wrap(Wrap(c.hand, n) + n - after, n) <= l <= Holes(c.entries) + s
  }

  /** The distance of the next victim from the slot after `v`. */
  lemma VictimPlace<D>(c: Cache<D>, v: nat, l: nat, s: nat) returns (p: nat)
    requires 0 < |c.entries| && c.hand <= |c.entries| && v < |c.entries| && Sheltered(c, v, l, s)
    ensures p < |c.entries| && Wrap(Wrap(v + 1, |c.entries|) + p, |c.entries|) == Victim(c)
    ensures if Holes(c.entries) > 0 then p < l else p <= l <= s
  {
    hide FirstInvalid, Holes;
    var n := |c.entries|;
    var start, after := Wrap(c.hand, n), Wrap(v + 1, n);
    p := Wrap(Victim(c) + n - after, n);
    HoleMet(c.entries, start);
    VictimEmpty(c);
    assert ValidAt(c.entries, after, p) == c.entries[Victim(c)].valid;
  }

  lemma HolesAfter<D>(s: seq<Entry<D>>, t: seq<Entry<D>>, v: nat)
    requires |s| == |t| && v < |s| && (Holes(s) > 0 <==> !s[v].valid)
    requires forall i | 0 <= i < |s| && i != v :: s[i].valid == t[i].valid
    ensures Holes(t) + (if t[v].valid then 1 else 0) == Holes(s) + if Holes(s) > 0 then 0 else 1
  {
    hide Holes;
    if t[v].valid {
      HolesFill(s, t, v);
    } else if s[v].valid {
      HolesFill(t, s, v);
    } else {
      HolesSame(s, t);
    }
  }

  /** As long as fewer than `n - 1` misses were served, no miss takes slot `v`, and only a served one counts. */
  lemma ShelterHolds<D>(c: Cache<D>, c': Cache<D>, v: nat, l: nat, s: nat) returns (l': nat)
    requires 0 < |c.entries| == |c'.entries| && c.hand <= |c.entries| && v < |c.entries| && s < |c.entries| - 1
    requires Sheltered(c, v, l, s) && c'.hand == Victim(c) + 1 <= |c.entries|
    requires forall j | 0 <= j < |c.entries| && j != Victim(c) :: c'.entries[j].valid == c.entries[j].valid
    ensures Victim(c) != v && Sheltered(c', v, l', s + if c'.entries[Victim(c)].valid then 1 else 0)
  {
    hide Holes, Victim;
    var n, w := |c.entries|, Victim(c);
    var after := Wrap(v + 1, n);
    var p := VictimPlace(c, v, l, s);
    l' := if p < l then l else p + 1;
    VictimEmpty(c);
    HolesAfter(c.entries, c'.entries, w);
    forall q | l' <= q < n
      ensures ValidAt(c'.entries, after, q)
    {
      assert ValidAt(c.entries, after, q) && Wrap(after + q, n) != w;
    }
  }

  lemma ShelterSame<D>(c: Cache<D>, c': Cache<D>, v: nat, l: nat, s: nat)
    requires 0 < |c.entries| == |c'.entries| && c'.hand == c.hand <= |c.entries| && v < |c.entries| && Sheltered(c, v, l, s)
    requires forall j | 0 <= j < |c.entries| :: c'.entries[j].valid == c.entries[j].valid
    ensures Sheltered(c', v, l, s)
  {
    HolesSame(c.entries, c'.entries);
    var after := Wrap(v + 1, |c.entries|);
    assert forall q | 0 <= q < |c.entries| :: ValidAt(c'.entries, after, q) == ValidAt(c.entries, after, q);
  }

  /** A served request that misses. */
  predicate ServedMiss<D(==)>(c: Cache<D>, op: Op<D>)
  {
    Served(c, op) && Miss(c, op)
  }

  /** The number of misses in a run that a device served. */
  ghost function ServedMisses<D>(c: Cache<D>, ops: seq<Op<D>>): nat
    requires Ok(c) && AllSane(c.disks, ops)
    decreases |ops|
  {
    if ops == [] then 0
    else
      StepRefines(c, ops[0]);
      (if ServedMiss(c, ops[0]) then 1 else 0) + ServedMisses(Step(c, ops[0]), ops[1..])
  }

  lemma ShelteredStep<D>(c: Cache<D>, op: Op<D>, v: nat, l: nat, s: nat) returns (l': nat)
    requires Ok(c) && Sane(c.disks, op) && v < |c.entries| && c.entries[v].valid && s < |c.entries| - 1 && Sheltered(c, v, l, s)
    ensures var c' := Step(c, op);
      && |c'.entries| == |c.entries| && c'.hand <= |c.entries| && SameBlock(c, c', v)
      && Sheltered(c', v, l', s + if ServedMiss(c, op) then 1 else 0)
  {
    hide Step, Sheltered, Victim;
    OkSizes(c);
    if !Miss(c, op) {
      HitKeeps(c, op);
      ShelterSame(c, Step(c, op), v, l, s);
      l' := l;
    } else {
      if Served(c, op) {
        MissFills(c, op);
      } else {
        RefusedEmpties(c, op);
      }
      l' := ShelterHolds(c, Step(c, op), v, l, s);
    }
  }

  lemma {:induction false} ShelteredRun<D>(c: Cache<D>, ops: seq<Op<D>>, v: nat, l: nat, s: nat) returns (l': nat)
    requires Ok(c) && AllSane(c.disks, ops) && v < |c.entries| && c.entries[v].valid && Sheltered(c, v, l, s)
    requires s + ServedMisses(c, ops) < |c.entries| - 1
    ensures var c' := Run(c, ops);
      && c'.hand <= |c'.entries| == |c.entries| && SameBlock(c, c', v) && Sheltered(c', v, l', s + ServedMisses(c, ops))
    decreases |ops|
  {
    hide Ok, Step, Sheltered, ServedMiss;
    OkSizes(c);
    l' := l;
    if ops != [] {
      StepRefines(c, ops[0]);
      l' := ShelteredStep(c, ops[0], v, l, s);
      l' := ShelteredRun(Step(c, ops[0]), ops[1..], v, l', s + if ServedMiss(c, ops[0]) then 1 else 0);
    }
  }

  /** A block brought in when no slot in use lies between empty ones is sheltered. */
  lemma BroughtInSheltered<D>(c: Cache<D>, op: Op<D>)
    requires Ok(c) && ServedMiss(c, op) && c.hand <= |c.entries| && 0 < |c.entries| && Gapless(c)
    ensures var c', v := Step(c, op), Victim(c);
      && |c'.entries| == |c.entries| && v < |c.entries| && c'.hand <= |c.entries|
      && Sheltered(c', v, Holes(c'.entries), 0)
  {
    hide Ok, Step, Holes, PastLast, FirstInvalid, ValidAt, Gapless;
    OkSizes(c);
    MissFills(c, op);
    var c' := Step(c, op);
    var es, es', n, v := c.entries, c'.entries, |c.entries|, Victim(c);
    var start, start' := Wrap(c.hand, n), Wrap(v + 1, n);
    var p, r := FirstInvalid(es, start, 0), PastLast(es, start, n);
    OldestMoves(c, c');
    HoleMet(es, start);
    if p < n {
      FirstBeforeLast(es, start);
      GaplessSpan(c, p, r);
      HolesSpan(es, start, p, r);
      NextHoles(es, es', start, p, r, v, start');
    } else {
      HoleMet(es', start');
      AllInUse(es', start');
    }
  }

  lemma FoundIn<D>(es: seq<Entry<D>>, op: Op<D>, v: nat)
    requires v < |es| && !op.FlushOp? && Caches(es[v], op.dev, op.lba)
    ensures Find(es, op.dev, op.lba) < |es|
  {
  }

  /** After `ops` with fewer than `n - 1` served misses, and after one more request, the block is cached. */
  ghost predicate Stays<D>(c: Cache<D>, ops: seq<Op<D>>, last: Op<D>, dev: D, lba: nat)
    requires Ok(c)
  {
    AllSane(c.disks, ops) && Served(c, last) && ServedMisses(c, ops) < |c.entries| - 1 ==>
      var c2 := Run(c, ops);
      Find(c2.entries, dev, lba) < |c.entries| && Find(Step(c2, last).entries, dev, lba) < |c.entries|
  }

  /**
    Whatever is refused meanwhile, a block brought in when no slot in use lay between
    empty ones stays cached until `n - 1` further misses have been served.
   */
  lemma StaysDespiteRefusals<D>(c: Cache<D>, op: Op<D>, ops: seq<Op<D>>, last: Op<D>)
    requires Ok(c) && ServedMiss(c, op) && Gapless(c)
    ensures Ok(Step(c, op)) && Stays(Step(c, op), ops, last, op.dev, op.lba)
  {
    hide Ok, Step, Sheltered, Gapless, Victim, Find;
    OkSizes(c);
    StepRefines(c, op);
    MissFills(c, op);
    BroughtInSheltered(c, op);
    var c1, v := Step(c, op), Victim(c);
    if AllSane(c1.disks, ops) && Served(c1, last) && ServedMisses(c1, ops) < |c.entries| - 1 {
      var l := ShelteredRun(c1, ops, v, Holes(c1.entries), 0);
      var c2 := Run(c1, ops);
      OkSizes(c2);
      var l' := ShelteredStep(c2, last, v, l, ServedMisses(c1, ops));
      FoundIn(c2.entries, op, v);
      FoundIn(Step(c2, last).entries, op, v);
    }
  }

  // ---- and only then ----

  lemma {:induction false} Below(n: nat) returns (s: set<nat>)
    ensures |s| == n && forall x | x in s :: x < n
  {
    s := {};
    if n > 0 {
      s := Below(n - 1);
      s := s + {n - 1};
    }
  }

  lemma {:induction false} Uncached<D>(es: seq<Entry<D>>, dev: D, s: set<nat>) returns (lba: nat)
    requires |s| > |es|
    ensures lba in s && forall i | 0 <= i < |es| :: !Caches(es[i], dev, lba)
  {
    if es == [] {
      lba :| lba in s;
    } else {
      lba := Uncached(es[1..], dev, s - {es[0].lba});
      assert forall i | 1 <= i < |es| :: es[i] == es[1..][i - 1];
    }
  }

  /** On a device with more blocks than the cache has slots some block is not cached. */
  lemma SomeMiss<D>(c: Cache<D>, big: D) returns (op: Op<D>)
    requires Ok(c) && big in c.disks && |c.disks[big]| > |c.entries|
    ensures ServedMiss(c, op)
  {
    var s := Below(|c.entries| + 1);
    var lba := Uncached(c.entries, big, s);
    op := ReadOp(big, lba);
  }

  lemma {:induction false} MissingRun<D>(c: Cache<D>, big: D, k: nat) returns (ops: seq<Op<D>>)
    requires Ok(c) && big in c.disks && |c.disks[big]| > |c.entries|
    ensures AllServed(c.disks, ops) && Misses(c, ops) == k == ServedMisses(c, ops)
    decreases k
  {
    hide Ok, Step, Miss;
    ops := [];
    if k > 0 {
      var op := SomeMiss(c, big);
      OkSizes(c);
      StepRefines(c, op);
      var rest := MissingRun(Step(c, op), big, k - 1);
      ops := [op] + rest;
      assert ops[1..] == rest;
    }
  }

  /**
    A block brought in by a miss is sure to stay cached until `n - 1` further misses
    have been served if and only if no slot in use lay between empty ones.
   */
  lemma SureToStayExactly<D>(c: Cache<D>, op: Op<D>, big: D)
    requires Ok(c) && ServedMiss(c, op) && big in c.disks && |c.disks[big]| > |c.entries|
    ensures Ok(Step(c, op))
    ensures Gapless(c) <==> forall ops, last :: Stays(Step(c, op), ops, last, op.dev, op.lba)
  {
    hide Ok, Step, Gapless, Left, Victim, Find;
    OkSizes(c);
    StepRefines(c, op);
    var c1 := Step(c, op);
    if Gapless(c) {
      forall ops, last
        ensures Stays(c1, ops, last, op.dev, op.lba)
      {
        StaysDespiteRefusals(c, op, ops, last);
      }
    } else {
      BroughtIn(c, op);
      var ops := MissingRun(c1, big, Left(c1, Victim(c)));
      var last := SomeMiss(Run(c1, ops), big);
      ServedLater(c1, c, op, ops, last);
      StaysExactly(c, op, ops, last);
      assert !Stays(c1, ops, last, op.dev, op.lba);
    }
  }

  // ---- a cache of three slots ----

  /** A cache of three slots over one device of four blocks. */
  function Small(es: seq<Entry<nat>>, hand: nat): Cache<nat>
  {
    Cache(es, [[], [], []], map[0 := [[], [], [], []]], hand)
  }

  const EMPTY: Entry<nat> := Entry(false, false, 0, 0)

  function Clean(lba: nat): Entry<nat>
  {
    Entry(true, false, 0, lba)
  }

  lemma SmallMiss(es: seq<Entry<nat>>, hand: nat, lba: nat, v: nat, es': seq<Entry<nat>>)
    requires |es| == 3 && hand <= 3 && lba < 4 && v < 3 && Flushable(Small(es, hand))
    requires forall i | 0 <= i < 3 :: es[i] == EMPTY || (es[i].lba < 4 && es[i].lba != lba && es[i] == Clean(es[i].lba))
    requires var s := Wrap(hand, 3);
      if es[0].valid && es[1].valid && es[2].valid then v == s
      else if !es[s].valid then v == s
      else if !es[Wrap(s + 1, 3)].valid then v == Wrap(s + 1, 3)
      else v == Wrap(s + 2, 3)
    requires es' == es[v := Clean(lba)]
    ensures ReadStep(Small(es, hand), 0, lba) == Small(es', v + 1)
  {
    var c, s := Small(es, hand), Wrap(hand, 3);
    assert Find(es, 0, lba) == 3;
    assert ValidAt(es, s, 0) == es[s].valid;
    assert ValidAt(es, s, 1) == es[Wrap(s + 1, 3)].valid;
    assert ValidAt(es, s, 2) == es[Wrap(s + 2, 3)].valid;
    assert c.slices[v := []] == c.slices;
  }

  lemma SmallRefused(es: seq<Entry<nat>>, hand: nat)
    requires |es| == 3 && hand < 3 && es[hand] == EMPTY && Flushable(Small(es, hand))
    requires forall i | 0 <= i < 3 && es[i].valid :: es[i].lba < 4 && es[i] == Clean(es[i].lba)
    ensures ReadStep(Small(es, hand), 0, 9) == Small(es, hand + 1)
  {
    var c := Small(es, hand);
    assert Find(es, 0, 9) == 3;
    assert !ValidAt(es, hand, 0);
    assert es[hand := EMPTY] == es && c.slices[hand := c.slices[hand]] == c.slices;
  }

  /** A read of device 0. */
  function TryRead(c: Cache<nat>, lba: nat): Cache<nat>
  {
    if Flushable(c) && 0 < |c.entries| && c.hand <= |c.entries| && 0 in c.disks then ReadStep(c, 0, lba) else c
  }

  lemma FillFirst()
    ensures TryRead(Small([EMPTY, EMPTY, EMPTY], 0), 0) == Small([Clean(0), EMPTY, EMPTY], 1)
  {
    hide ReadStep;
    SmallMiss([EMPTY, EMPTY, EMPTY], 0, 0, 0, [Clean(0), EMPTY, EMPTY]);
  }

  lemma FillThenRefuse()
    ensures TryRead(TryRead(Small([EMPTY, EMPTY, EMPTY], 0), 0), 9) == Small([Clean(0), EMPTY, EMPTY], 2)
  {
    hide ReadStep;
    FillFirst();
    SmallRefused([Clean(0), EMPTY, EMPTY], 1);
  }

  lemma SkipTheHole()
    ensures TryRead(Small([Clean(0), EMPTY, EMPTY], 2), 1) == Small([Clean(0), EMPTY, Clean(1)], 3)
  {
    hide ReadStep;
    SmallMiss([Clean(0), EMPTY, EMPTY], 2, 1, 2, [Clean(0), EMPTY, Clean(1)]);
  }

  lemma FillTheHole()
    ensures TryRead(Small([Clean(0), EMPTY, Clean(1)], 3), 2) == Small([Clean(0), Clean(2), Clean(1)], 2)
  {
    hide ReadStep;
    SmallMiss([Clean(0), EMPTY, Clean(1)], 3, 2, 1, [Clean(0), Clean(2), Clean(1)]);
  }

  lemma EvictTheBlock()
    ensures TryRead(Small([Clean(0), Clean(2), Clean(1)], 2), 3) == Small([Clean(0), Clean(2), Clean(3)], 3)
  {
    hide ReadStep;
    SmallMiss([Clean(0), Clean(2), Clean(1)], 2, 3, 2, [Clean(0), Clean(2), Clean(3)]);
  }

  /**
    With device errors the bound can fail: a refused read leaves a slot in use between
    empty ones; block 1 is brought into a cache of three slots and evicted by the second
    miss that follows.
   */
  lemma RefusedReadShortensStay()
    ensures var c2 := TryRead(TryRead(Small([EMPTY, EMPTY, EMPTY], 0), 0), 9);
      var c3 := TryRead(c2, 1);
      var c5 := TryRead(TryRead(c3, 2), 3);
      && Find(c2.entries, 0, 1) == 3 && Find(c3.entries, 0, 1) < 3 && Find(c5.entries, 0, 1) == 3
      && |c2.entries| == 3 && c2.hand <= 3 && !Gapless(c2)
  {
    hide TryRead;
    FillThenRefuse();
    SkipTheHole();
    FillTheHole();
    EvictTheBlock();
    assert Caches([Clean(0), EMPTY, Clean(1)][2], 0, 1);
    var es := [Clean(0), EMPTY, EMPTY];
    assert !ValidAt(es, 2, 0) && ValidAt(es, 2, 1) && !ValidAt(es, 2, 2);
  }

  /** A refused read can also lengthen a stay: block 0 is still cached after three served misses in a cache of three slots. */
  lemma RefusedReadLengthensStay()
    ensures var c1 := TryRead(Small([EMPTY, EMPTY, EMPTY], 0), 0);
      var c5 := TryRead(TryRead(TryRead(TryRead(c1, 9), 1), 2), 3);
      && Find(c1.entries, 0, 0) < 3 && Find(c5.entries, 0, 0) < 3
      && Find(c1.entries, 0, 1) == 3 && Find(TryRead(TryRead(c1, 9), 1).entries, 0, 2) == 3
      && Find(TryRead(TryRead(TryRead(c1, 9), 1), 2).entries, 0, 3) == 3
  {
    hide TryRead;
    FillFirst();
    FillThenRefuse();
    SkipTheHole();
    FillTheHole();
    EvictTheBlock();
    assert Caches([Clean(0), EMPTY, EMPTY][0], 0, 0) && Caches([Clean(0), Clean(2), Clean(3)][0], 0, 0);
  }
}
