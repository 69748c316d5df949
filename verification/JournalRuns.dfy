/**
  Whole runs: any sequence of file writes, reboots and power cuts.  A disk the
  checker accepts stays one, files that are there stay there with their bytes,
  and nothing appears that was not written.
 */
module JournalRuns {
  import opened Bytes
  import opened JournalDisk
  import opened Journal
  import opened JournalCrash
  import opened JournalFs
  import opened JournalWrite
  import opened CStrings

  /** A disk on which recovery succeeds and the checker then finds nothing wrong. */
  ghost predicate Accepted(d: Disk)
  {
    Sound(d) && RecoverPlan(d).rc == OK && Clean(Recovered(d))
  }

  /** What a name reads as once the journal has been replayed. */
  ghost function Reads(d: Disk, name: CString): Option<seq<byte>>
    requires Accepted(d)
  {
    Lookup(Recovered(d), name)
  }

  lemma RecoveredIsEmpty(d: Disk)
    requires Sound(d) && RecoverPlan(d).rc == OK
    ensures HeaderEmpty(Recovered(d)[START]) && Recovered(Recovered(d)) == Recovered(d)
  {
    RecoverIsStatic(d);
    if !HeaderEmpty(d[START]) {
      ClearedIsEmpty(d, Replayed(Slots(d)[0..Count(d)]));
    }
  }

  /** The files after an operation: everything that was there, and the new one exactly if it is `written`. */
  ghost predicate Keeps(e: Disk, d: Disk, name: CString, data: seq<byte>, written: bool)
    requires Accepted(d)
  {
    && Accepted(e)
    && (forall n: CString | Clip(n) != Clip(name) :: Reads(e, n) == Reads(d, n))
    && Reads(e, name) == (if written then Some(data) else Reads(d, name))
  }

  /** A reboot whose recovery is cut off after `k` block writes. */
  lemma RebootKeeps(d: Disk, k: nat)
    requires Accepted(d) && k <= |RecoverPlan(d).writes|
    ensures var e := Apply(d, RecoverPlan(d).writes[..k]); Accepted(e) && Recovered(e) == Recovered(d)
  {
    CutRecovery(d, k);
  }

  lemma MountedPlan(d: Disk, name: CString, data: seq<byte>, stop: bool)
    requires Accepted(d) && 0 < |name| < MAX_NAME && |data| <= BLOCK_SIZE
    ensures WritePlan(d, name, data, stop) ==
      Plan(RecoverPlan(d).writes + FilePlan(Recovered(d), name, data, stop).writes,
           FilePlan(Recovered(d), name, data, stop).rc)
  {
    assert RecoverPlan(d).writes + [] == RecoverPlan(d).writes;
  }

  lemma CutWhileMounting(d: Disk, k: nat, name: CString, data: seq<byte>)
    requires Accepted(d) && k <= |RecoverPlan(d).writes|
    ensures Keeps(Apply(d, RecoverPlan(d).writes[..k]), d, name, data, false)
  {
    CutRecovery(d, k);
  }

  lemma CutWhileWriting(d: Disk, j: nat, name: CString, data: seq<byte>, stop: bool)
    requires Accepted(d) && |name| < MAX_NAME && |data| <= BLOCK_SIZE
    requires j <= |FilePlan(Recovered(d), name, data, stop).writes|
    ensures Keeps(Apply(Recovered(d), FilePlan(Recovered(d), name, data, stop).writes[..j]), d, name, data, j >= DECIDING)
  {
    hide FilePlan, RecoverPlan, Apply, Lookup, Clean, Sound;
    RecoveredIsEmpty(d);
    FilePlanRecovers(Recovered(d), name, data, stop, j);
  }

  lemma FileCode(d: Disk, name: CString, data: seq<byte>, stop: bool)
    requires Accepted(d) && |name| < MAX_NAME && |data| <= BLOCK_SIZE
    ensures var q := FilePlan(Recovered(d), name, data, stop);
      && (q.rc == OK ==> |q.writes| >= DECIDING && Reads(d, name) == None)
      && (q.rc != OK ==> q.writes == [])
  {
    RecoveredIsEmpty(d);
    FilePlanRecovers(Recovered(d), name, data, stop, 0);
  }

  lemma PrefixKeeps(d: Disk, ws: seq<Write>, vs: seq<Write>, k: nat, name: CString, data: seq<byte>)
    requires Accepted(d) && k <= |ws| + |vs|
    requires k <= |ws| ==> Keeps(Apply(d, ws[..k]), d, name, data, false)
    requires k > |ws| ==> Keeps(Apply(Apply(d, ws), vs[..k - |ws|]), d, name, data, k - |ws| >= DECIDING)
    ensures Keeps(Apply(d, (ws + vs)[..k]), d, name, data, k >= |ws| + DECIDING)
  {
    ApplyPrefix(d, ws, vs, k);
  }

  lemma MountedWriteKeeps(d: Disk, vs: seq<Write>, k: nat, name: CString, data: seq<byte>)
    requires Accepted(d) && k <= |RecoverPlan(d).writes| + |vs|
    requires k > |RecoverPlan(d).writes| ==>
      Keeps(Apply(Apply(d, RecoverPlan(d).writes), vs[..k - |RecoverPlan(d).writes|]), d, name, data,
            k - |RecoverPlan(d).writes| >= DECIDING)
    ensures Keeps(Apply(d, (RecoverPlan(d).writes + vs)[..k]), d, name, data, k >= |RecoverPlan(d).writes| + DECIDING)
  {
    hide *;
    if k <= |RecoverPlan(d).writes| {
      CutWhileMounting(d, k, name, data);
    }
    PrefixKeeps(d, RecoverPlan(d).writes, vs, k, name, data);
  }

  lemma RejectedKeeps(d: Disk, name: CString, data: seq<byte>, stop: bool)
    requires Accepted(d) && (name == [] || |name| >= MAX_NAME || |data| > BLOCK_SIZE)
    ensures WritePlan(d, name, data, stop).rc != OK && WritePlan(d, name, data, stop).writes == []
    ensures Keeps(Apply(d, []), d, name, data, false)
  {
  }

  /**
    A file write cut off after any number of block writes, on any disk the checker
    accepts: after recovery the checker accepts the disk, every other name reads
    the same bytes, and the name itself reads exactly its data if the commit record
    of the second transaction was written and as before otherwise.
   */
  lemma WriteKeeps(d: Disk, name: CString, data: seq<byte>, stop: bool, k: nat)
    requires Accepted(d)
    requires k <= |WritePlan(d, name, data, stop).writes|
    ensures var p := WritePlan(d, name, data, stop);
      Keeps(Apply(d, p.writes[..k]), d, name, data, p.rc == OK && k >= |RecoverPlan(d).writes| + DECIDING)
    ensures var p := WritePlan(d, name, data, stop);
      p.rc == OK ==> Reads(d, name) == None && |p.writes| >= |RecoverPlan(d).writes| + DECIDING
  {
    hide FilePlan, RecoverPlan, WritePlan, Keeps, Accepted, Apply;
    var p := WritePlan(d, name, data, stop);
    if name == [] || |name| >= MAX_NAME || |data| > BLOCK_SIZE {
      RejectedKeeps(d, name, data, stop);
      assert p.writes[..k] == [];
    } else {
      MountedPlan(d, name, data, stop);
      FileCode(d, name, data, stop);
      if k > |RecoverPlan(d).writes| {
        CutWhileWriting(d, k - |RecoverPlan(d).writes|, name, data, stop);
      }
      MountedWriteKeeps(d, FilePlan(Recovered(d), name, data, stop).writes, k, name, data);
    }
  }

  // ---- runs ----

  /** Something that happens to a disk; a negative budget means no power cut. */
  datatype Event =
    | WriteFile(name: CString, data: seq<byte>, stop: bool, budget: int)
    | Reboot(budget: int)

  function PlanOf(d: Disk, ev: Event): Plan
  {
    match ev
    case WriteFile(name, data, stop, _) => WritePlan(d, name, data, stop)
    case Reboot(_) => RecoverPlan(d)
  }

  function Step(d: Disk, ev: Event): Disk
  {
    var p := PlanOf(d, ev);
    Apply(d, p.writes[..Passed(ev.budget, |p.writes|)])
  }

  function Run(d: Disk, evs: seq<Event>): Disk
  {
    if evs == [] then d else Step(Run(d, evs[..|evs| - 1]), evs[|evs| - 1])
  }

  /** The write was carried through to its commit record. */
  predicate Acknowledged(d: Disk, ev: Event)
  {
    var p := PlanOf(d, ev);
    ev.WriteFile? && p.rc == OK && Passed(ev.budget, |p.writes|) == |p.writes|
  }

  lemma {:induction false} FindClip(dir: seq<Entry>, n: CString, m: CString, i: nat)
    requires Clip(n) == Clip(m) && i <= |dir|
    ensures FindFrom(dir, n, i) == FindFrom(dir, m, i)
    decreases |dir| - i
  {
    if i < |dir| {
      FindClip(dir, n, m, i + 1);
    }
  }

  lemma SameClip(d: Disk, n: CString, m: CString)
    requires Clean(d) && Clip(n) == Clip(m)
    ensures Lookup(d, n) == Lookup(d, m)
  {
    FindClip(ViewOf(d).dir, n, m, 0);
  }

  lemma StepKeeps(d: Disk, ev: Event, n: CString)
    requires Accepted(d)
    ensures var e := Step(d, ev);
      && Accepted(e)
      && (Reads(d, n).Some? ==> Reads(e, n) == Reads(d, n))
      && (Reads(e, n) == Reads(d, n) || (ev.WriteFile? && Clip(ev.name) == Clip(n) && Reads(e, n) == Some(ev.data)))
      && (Acknowledged(d, ev) ==> Reads(e, ev.name) == Some(ev.data))
  {
    hide WritePlan, RecoverPlan, Recovered, Apply, Lookup;
    var p := PlanOf(d, ev);
    var k := Passed(ev.budget, |p.writes|);
    match ev
    case WriteFile(name, data, stop, _) =>
      WriteKeeps(d, name, data, stop, k);
      if Clip(n) == Clip(name) {
        SameClip(Recovered(d), n, name);
        SameClip(Recovered(Step(d, ev)), n, name);
      }
    case Reboot(_) =>
      RebootKeeps(d, k);
  }

  /** In every run the checker accepts the disk at every point, and a file once readable never changes or vanishes. */
  lemma {:induction false} FilesAreDurable(d: Disk, evs: seq<Event>, i: nat, n: CString)
    requires Accepted(d) && i <= |evs|
    ensures Accepted(Run(d, evs[..i])) && Accepted(Run(d, evs))
    ensures Reads(Run(d, evs[..i]), n).Some? ==> Reads(Run(d, evs), n) == Reads(Run(d, evs[..i]), n)
    decreases |evs|
  {
    hide Step, Reads, Accepted;
    if evs == [] {
      assert evs[..i] == evs;
    } else {
      var front := evs[..|evs| - 1];
      if i == |evs| {
        assert evs[..i] == evs;
        FilesAreDurable(d, front, |front|, n);
      } else {
        assert front[..i] == evs[..i];
        FilesAreDurable(d, front, i, n);
      }
      StepKeeps(Run(d, front), evs[|evs| - 1], n);
    }
  }

  lemma RunSnoc(d: Disk, evs: seq<Event>, i: nat)
    requires i < |evs|
    ensures Run(d, evs[..i + 1]) == Step(Run(d, evs[..i]), evs[i])
  {
    assert evs[..i + 1][..i] == evs[..i];
  }

  lemma AcknowledgedReads(d: Disk, evs: seq<Event>, i: nat)
    requires Accepted(d) && i < |evs| && Acknowledged(Run(d, evs[..i]), evs[i])
    ensures Accepted(Run(d, evs[..i + 1])) && Reads(Run(d, evs[..i + 1]), evs[i].name) == Some(evs[i].data)
  {
    FilesAreDurable(d, evs, i, evs[i].name);
    RunSnoc(d, evs, i);
    StepKeeps(Run(d, evs[..i]), evs[i], evs[i].name);
  }

  /** A write that was carried through stays readable, whatever power cuts come later. */
  lemma AcknowledgedWritesSurvive(d: Disk, evs: seq<Event>, i: nat)
    requires Accepted(d) && i < |evs| && Acknowledged(Run(d, evs[..i]), evs[i])
    ensures Accepted(Run(d, evs)) && Reads(Run(d, evs), evs[i].name) == Some(evs[i].data)
  {
    AcknowledgedReads(d, evs, i);
    FilesAreDurable(d, evs, i + 1, evs[i].name);
  }

  /** Some event is a write of `data` to this name. */
  ghost predicate Written(evs: seq<Event>, n: CString, data: seq<byte>)
  {
    exists i | 0 <= i < |evs| :: evs[i].WriteFile? && Clip(evs[i].name) == Clip(n) && evs[i].data == data
  }

  /** Whatever is readable at the end was readable at the start or is the data of some write to that name. */
  lemma {:induction false} NothingAppears(d: Disk, evs: seq<Event>, n: CString)
    requires Accepted(d)
    ensures Accepted(Run(d, evs))
    ensures Reads(Run(d, evs), n) == Reads(d, n) ||
            (Reads(Run(d, evs), n).Some? && Written(evs, n, Reads(Run(d, evs), n).value))
  {
    hide Step, Reads, Accepted;
    if evs != [] {
      var front, ev := evs[..|evs| - 1], evs[|evs| - 1];
      NothingAppears(d, front, n);
      StepKeeps(Run(d, front), ev, n);
      assert forall i | 0 <= i < |front| :: evs[i] == front[i];
    }
  }
}
