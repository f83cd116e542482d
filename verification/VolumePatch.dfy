/**
 The minor-stamping patch against concurrent edits of the volume list.

 The allocator reads the definition, fills the minors in memory, and patches the
 whole list back: a JSON merge patch replaces an array outright (section 2 of
 RFC 7386). Anything may be written between the read and the patch.
 */
module VolumePatch {
  import opened Names
  import opened DrbdPool
  import opened Cluster
  import opened Runs

  datatype Stored = Stored(volumes: seq<VolumeDefinition>, version: nat)

  // The list about to be sent, the version it was read at, and whether the
  // patch body carries that version.
  datatype Draft = Draft(volumes: seq<VolumeDefinition>, read: nat, guarded: bool)

  datatype State = State(current: Stored, draft: Option<Draft>)

  datatype Step =
    | Read(taken: set<int>, range: Range, guarded: bool)
    | Patch
    | Append(number: int, sizeKib: int)
    | Resize(index: nat, sizeKib: int)
    | Remove(index: nat)
    | Touch

  function Write(s: State, volumes: seq<VolumeDefinition>): State
  {
    s.(current := Stored(volumes, s.current.version + 1))
  }

  predicate Accepted(s: State)
  {
    s.draft.Some? && (s.draft.value.guarded ==> s.draft.value.read == s.current.version)
  }

  function Next(s: State, step: Step): State
  {
    var volumes := s.current.volumes;
    match step
    case Read(taken, range, guarded) =>
      var filled := FillMinors(volumes, taken + SetMinors(volumes), range);
      s.(draft := if filled.None? then None else Some(Draft(filled.value, s.current.version, guarded)))
    case Patch =>
      (if Accepted(s) then Write(s, s.draft.value.volumes) else s).(draft := None)
    case Append(number, sizeKib) => Write(s, volumes + [VolumeDefinition(number, sizeKib, None)])
    case Resize(index, sizeKib) =>
      if index < |volumes| then Write(s, volumes[index := volumes[index].(sizeKib := sizeKib)]) else s
    case Remove(index) =>
      if index < |volumes| then Write(s, volumes[..index] + volumes[index + 1..]) else s
    case Touch => Write(s, volumes)
  }

  function Run(s: State, steps: seq<Step>): State
    decreases |steps|
  {
    if steps == [] then s else Run(Next(s, steps[0]), steps[1..])
  }

  // A draft read at the current version extends the current list.
  predicate Coherent(s: State)
  {
    s.draft.Some? ==>
      s.draft.value.read <= s.current.version
      && (s.draft.value.read == s.current.version ==> Numbers(s.current.volumes, s.draft.value.volumes))
  }

  predicate Guarded(s: State)
  {
    s.draft.Some? ==> s.draft.value.guarded
  }

  lemma StepCoherent(s: State, step: Step)
    requires Coherent(s)
    ensures Coherent(Next(s, step))
  {
    if step.Read? && Next(s, step).draft.Some? {
      FillKeeps(s.current.volumes, step.taken + SetMinors(s.current.volumes), step.range);
    }
  }

  /** A guarded patch keeps every volume, size and set minor it finds. */
  lemma PatchKeepsVolumes(s: State)
    requires Coherent(s) && Guarded(s)
    ensures Numbers(s.current.volumes, Next(s, Patch).current.volumes)
  {
  }

  // What the list holds when only the other writers' steps are counted.
  function Ledger(volumes: seq<VolumeDefinition>, steps: seq<Step>): seq<(int, int)>
    decreases |steps|
  {
    if steps == [] then seq(|volumes|, i requires 0 <= i < |volumes| => (volumes[i].number, volumes[i].sizeKib))
    else
      Ledger(match steps[0]
             case Append(number, sizeKib) => volumes + [VolumeDefinition(number, sizeKib, None)]
             case Resize(index, sizeKib) =>
               if index < |volumes| then volumes[index := volumes[index].(sizeKib := sizeKib)] else volumes
             case Remove(index) => if index < |volumes| then volumes[..index] + volumes[index + 1..] else volumes
             case _ => volumes,
             steps[1..])
  }

  predicate SameShape(a: seq<VolumeDefinition>, b: seq<VolumeDefinition>)
  {
    |a| == |b| && forall i | 0 <= i < |a| :: a[i].number == b[i].number && a[i].sizeKib == b[i].sizeKib
  }

  lemma {:induction false} LedgerShape(a: seq<VolumeDefinition>, b: seq<VolumeDefinition>, steps: seq<Step>)
    requires SameShape(a, b)
    ensures Ledger(a, steps) == Ledger(b, steps)
    decreases |steps|
  {
    if steps != [] {
      match steps[0]
      case Append(number, sizeKib) =>
        LedgerShape(a + [VolumeDefinition(number, sizeKib, None)], b + [VolumeDefinition(number, sizeKib, None)], steps[1..]);
      case Resize(index, sizeKib) =>
        if index < |a| {
          LedgerShape(a[index := a[index].(sizeKib := sizeKib)], b[index := b[index].(sizeKib := sizeKib)], steps[1..]);
        } else {
          LedgerShape(a, b, steps[1..]);
        }
      case Remove(index) =>
        if index < |a| {
          LedgerShape(a[..index] + a[index + 1..], b[..index] + b[index + 1..], steps[1..]);
        } else {
          LedgerShape(a, b, steps[1..]);
        }
      case _ => LedgerShape(a, b, steps[1..]);
    }
  }

  /** Over every interleaving with guarded patches the list is exactly what the
      other writers made it: no appended volume disappears, no removed one comes
      back, no size is reverted. */
  lemma {:induction false} NoVolumeLost(s: State, steps: seq<Step>)
    requires Coherent(s) && Guarded(s) && forall i | 0 <= i < |steps| :: steps[i].Read? ==> steps[i].guarded
    ensures Ledger(Run(s, steps).current.volumes, []) == Ledger(s.current.volumes, steps)
    decreases |steps|
  {
    if steps != [] {
      var t := Next(s, steps[0]);
      StepCoherent(s, steps[0]);
      NoVolumeLost(t, steps[1..]);
      if steps[0].Patch? {
        PatchKeepsVolumes(s);
        LedgerShape(s.current.volumes, t.current.volumes, steps[1..]);
      }
    }
  }

  /** Nor is a set minor ever changed or cleared. */
  lemma {:induction false} MinorsOutliveRaces(s: State, steps: seq<Step>, i: nat)
    requires Coherent(s) && Guarded(s) && forall k | 0 <= k < |steps| :: (steps[k].Read? ==> steps[k].guarded) && !steps[k].Remove?
    requires i < |s.current.volumes|
    ensures i < |Run(s, steps).current.volumes|
    ensures SetOnce(s.current.volumes[i].minor, Run(s, steps).current.volumes[i].minor)
    ensures s.current.volumes[i].number == Run(s, steps).current.volumes[i].number
    decreases |steps|
  {
    if steps != [] {
      StepCoherent(s, steps[0]);
      MinorsOutliveRaces(Next(s, steps[0]), steps[1..], i);
    }
  }

  // Without the version

  // Volume writes by others, between the read and the patch.
  predicate OthersOnly(steps: seq<Step>)
  {
    forall i | 0 <= i < |steps| :: !steps[i].Read? && !steps[i].Patch?
  }

  predicate DistinctNumbers(volumes: seq<VolumeDefinition>)
  {
    forall i, j | 0 <= i < j < |volumes| :: volumes[i].number != volumes[j].number
  }

  // Every minor in the later list was the same volume's before.
  predicate MinorsFrom(before: seq<VolumeDefinition>, after: seq<VolumeDefinition>)
  {
    forall i | 0 <= i < |after| && after[i].minor.Some? ::
      exists j | 0 <= j < |before| :: before[j].number == after[i].number && before[j].minor == after[i].minor
  }

  lemma OtherStep(s: State, step: Step, base: seq<VolumeDefinition>, rest: seq<Step>)
    requires !step.Read? && !step.Patch? && MinorsFrom(base, s.current.volumes)
    ensures var t := Next(s, step);
            t.draft == s.draft && MinorsFrom(base, t.current.volumes)
            && Ledger(t.current.volumes, rest) == Ledger(s.current.volumes, [step] + rest)
  {
    assert ([step] + rest)[0] == step && ([step] + rest)[1..] == rest;
    var t := Next(s, step);
    forall i | 0 <= i < |t.current.volumes| && t.current.volumes[i].minor.Some?
      ensures exists j | 0 <= j < |base| ::
                base[j].number == t.current.volumes[i].number && base[j].minor == t.current.volumes[i].minor
    {
      var k := if step.Remove? && step.index < |s.current.volumes| && i >= step.index then i + 1 else i;
      assert k < |s.current.volumes| && s.current.volumes[k].minor == t.current.volumes[i].minor
             && s.current.volumes[k].number == t.current.volumes[i].number;
    }
  }

  lemma {:induction false} OthersRun(s: State, steps: seq<Step>, base: seq<VolumeDefinition>)
    requires OthersOnly(steps) && Coherent(s) && MinorsFrom(base, s.current.volumes)
    ensures var t := Run(s, steps);
            t.draft == s.draft && Coherent(t) && MinorsFrom(base, t.current.volumes)
            && Ledger(t.current.volumes, []) == Ledger(s.current.volumes, steps)
    decreases |steps|
  {
    if steps != [] {
      OtherStep(s, steps[0], base, steps[1..]);
      StepCoherent(s, steps[0]);
      assert [steps[0]] + steps[1..] == steps;
      OthersRun(Next(s, steps[0]), steps[1..], base);
    }
  }

  lemma SameLedger(a: seq<VolumeDefinition>, b: seq<VolumeDefinition>)
    ensures Ledger(a, []) == Ledger(b, []) <==> SameShape(a, b)
  {
    var x, y := Ledger(a, []), Ledger(b, []);
    if x == y {
      forall i | 0 <= i < |a| ensures a[i].number == b[i].number && a[i].sizeKib == b[i].sizeKib {
        assert x[i] == y[i];
      }
    }
  }

  lemma SameShapeKeeps(read: seq<VolumeDefinition>, draft: seq<VolumeDefinition>, now: seq<VolumeDefinition>)
    requires Numbers(read, draft) && DistinctNumbers(read) && MinorsFrom(read, now)
    ensures Numbers(now, draft) <==> SameShape(now, read)
  {
    if SameShape(now, read) {
      forall i | 0 <= i < |now| ensures SetOnce(now[i].minor, draft[i].minor) {
        if now[i].minor.Some? {
          var j :| 0 <= j < |read| && read[j].number == now[i].number && read[j].minor == now[i].minor;
          assert read[i].number == read[j].number;
        }
      }
    }
  }

  /** Whatever others write between read and patch, a guarded patch keeps the volumes
      always, an unguarded one exactly when their writes cancelled out: the list names
      the volumes and sizes it had at the read. */
  lemma BlindPatchLosesExactly(s: State, taken: set<int>, range: Range, guarded: bool, others: seq<Step>)
    requires OthersOnly(others) && DistinctNumbers(s.current.volumes)
    requires FillMinors(s.current.volumes, taken + SetMinors(s.current.volumes), range).Some?
    ensures var before := Run(Next(s, Read(taken, range, guarded)), others);
            Numbers(before.current.volumes, Next(before, Patch).current.volumes)
            <==> guarded || Ledger(s.current.volumes, others) == Ledger(s.current.volumes, [])
  {
    var volumes := s.current.volumes;
    FillKeeps(volumes, taken + SetMinors(volumes), range);
    var read := Next(s, Read(taken, range, guarded));
    assert read.current == s.current;
    OthersRun(read, others, volumes);
    var before := Run(read, others);
    if guarded {
      PatchKeepsVolumes(before);
    } else {
      SameLedger(before.current.volumes, volumes);
      SameShapeKeeps(volumes, before.draft.value.volumes, before.current.volumes);
    }
  }
}
