/**
 Evacuation, migration and witness passes over whole runs: none of them takes a
 definition from one good copy to none.
 */
module Survival {
  import opened Names
  import opened Placement
  import opened Witness

  predicate AllUpToDate(volumes: seq<bool>)
  {
    volumes != [] && forall i | 0 <= i < |volumes| :: volumes[i]
  }

  /** A live diskful replica whose every volume is UpToDate. */
  predicate Good(s: State, n: string)
  {
    && n in s.replicas && !s.replicas[n].deleting && !s.replicas[n].diskless
    && s.replicas[n].volumes != [] && forall i | 0 <= i < |s.replicas[n].volumes| :: s.replicas[n].volumes[i]
  }

  function GoodCopies(s: State): set<string>
  {
    set n | n in s.replicas && Good(s, n)
  }

  predicate HasData(s: State)
  {
    GoodCopies(s) != {}
  }

  // Evacuation

  predicate InDrain(s: State, n: string)
  {
    n in s.nodes && Draining(s.nodes[n])
  }

  function HealthyNodes(s: State): set<string>
  {
    set n | n in s.nodes && !Draining(s.nodes[n])
  }

  // Diskful replicas off the evacuated node and off every other draining one.
  function Backups(s: State, victim: string): set<string>
  {
    set n | n in s.replicas && n != victim && !InDrain(s, n) && !s.replicas[n].diskless
  }

  function ReadyBackups(s: State, victim: string): set<string>
  {
    set n | n in Backups(s, victim) && AllUpToDate(s.replicas[n].volumes)
  }

  // The diskful count the drain must re-establish on healthy nodes.
  function Target(s: State, victim: string, placeCount: int): int
  {
    var own := if victim in s.replicas && !s.replicas[victim].diskless then 1 else 0;
    Max(placeCount, Min(|Backups(s, victim)| + own, |HealthyNodes(s)|))
  }

  predicate ReplacementReady(s: State, victim: string, target: int)
  {
    |ReadyBackups(s, victim)| >= target && |ReadyBackups(s, victim)| >= 1
  }

  // What the placer may have done: create replicas that hold no data yet on
  // healthy nodes, or promote a diskless one in place.
  predicate PlacedOne(s: State, t: State, n: string)
    requires n in t.replicas
  {
    if n in s.replicas then
      t.replicas[n] == s.replicas[n]
      || (s.replicas[n].diskless && !InDrain(s, n) && !AllUpToDate(s.replicas[n].volumes)
          && t.replicas[n] == s.replicas[n].(diskless := false, tieBreaker := false))
    else
      n in HealthyNodes(s) && t.replicas[n] == Replica(t.replicas[n].diskless, false, false, false, [], "")
  }

  predicate Placed(s: State, t: State)
  {
    && t.nodes == s.nodes && t.policy == s.policy && t.quorum == s.quorum
    && s.replicas.Keys <= t.replicas.Keys
    && forall n | n in t.replicas :: PlacedOne(s, t, n)
  }

  function Mark(s: State, n: string): State
  {
    if n in s.replicas then s.(replicas := s.replicas[n := s.replicas[n].(deleting := true)]) else s
  }

  // One drain pass over the replica on an evicted node, after the placer left
  // `placed`; a placer error ends the pass.
  function Evacuate(s: State, victim: string, placeCount: int, placed: State, failed: bool): State
  {
    if !failed && ReplacementReady(placed, victim, Target(s, victim, placeCount)) then Mark(placed, victim) else placed
  }

  // Migration

  predicate MigrationDone(s: State, dst: string)
  {
    dst in s.replicas && s.replicas[dst].migratingFrom != "" && !s.replicas[dst].deleting
    && AllUpToDate(s.replicas[dst].volumes)
  }

  // One pass over a migration target: drop the source, then forget it.
  function Migrate(s: State, dst: string): State
  {
    if !MigrationDone(s, dst) then s
    else
      var t := Mark(s, s.replicas[dst].migratingFrom);
      t.(replicas := t.replicas[dst := t.replicas[dst].(migratingFrom := "")])
  }

  // Operator verbs

  function SetDiskless(r: Replica, diskless: bool): Replica
  {
    if diskless then r.(diskless := true) else r.(diskless := false, tieBreaker := false)
  }

  // Promotes the target and names the source; TIE_BREAKER is left as it was.
  function StartMigration(s: State, dst: string, src: string): State
  {
    if src == dst || src == "" || src !in s.replicas || s.replicas[src].diskless then s
    else if dst !in s.replicas then s.(replicas := s.replicas[dst := Replica(false, false, false, false, [], src)])
    else s.(replicas := s.replicas[dst := s.replicas[dst].(migratingFrom := src, diskless := false)])
  }

  datatype Step =
    | EvacuatePass(victim: string, placeCount: int, placed: State, failed: bool)
    | MigratePass(dst: string)
    | WitnessPass(vanishes: bool)
    | Finalize(name: string)
    | Report(name: string, volumes: seq<bool>)
    | ToggleDisk(name: string, diskless: bool)
    | MigrateDisk(dst: string, src: string)
    | Create(name: string, replica: Replica)
    | Deactivate(name: string, inactive: bool)
    | Delete(name: string)
    | SetNode(name: string, node: Node)
    | RemoveNode(name: string)
    | SetPolicy(policy: Policy)

  function Next(s: State, step: Step): State
  {
    match step
    case EvacuatePass(victim, placeCount, placed, failed) => Evacuate(s, victim, placeCount, placed, failed)
    case MigratePass(dst) => Migrate(s, dst)
    case WitnessPass(vanishes) => Ensure(s, vanishes)
    case Finalize(n) =>
      if n in s.replicas && s.replicas[n].deleting then s.(replicas := s.replicas - {n}) else s
    case Report(n, volumes) => if n in s.replicas then s.(replicas := s.replicas[n := s.replicas[n].(volumes := volumes)]) else s
    case ToggleDisk(n, diskless) => if n in s.replicas then s.(replicas := s.replicas[n := SetDiskless(s.replicas[n], diskless)]) else s
    case MigrateDisk(dst, src) => StartMigration(s, dst, src)
    case Create(n, r) => if n in s.replicas then s else s.(replicas := s.replicas[n := r])
    case Deactivate(n, inactive) => if n in s.replicas then s.(replicas := s.replicas[n := s.replicas[n].(inactive := inactive)]) else s
    case Delete(n) => Mark(s, n)
    case SetNode(n, node) => s.(nodes := s.nodes[n := node])
    case RemoveNode(n) => s.(nodes := s.nodes - {n})
    case SetPolicy(policy) => s.(policy := policy)
  }

  function Run(s: State, steps: seq<Step>): State
    decreases |steps|
  {
    if steps == [] then s else Run(Next(s, steps[0]), steps[1..])
  }

  // What the passes and verbs do, on the fields

  // The diskful replicas off a node, off every evicted or lost one.
  function Elsewhere(s: State, victim: string): set<string>
  {
    set n | n in s.replicas && n != victim && !s.replicas[n].diskless && !(n in s.nodes && (s.nodes[n].evicted || s.nodes[n].lost))
  }

  function ElsewhereUpToDate(s: State, victim: string): set<string>
  {
    set n | n in Elsewhere(s, victim) && s.replicas[n].volumes != [] && false !in s.replicas[n].volumes
  }

  function Usable(s: State): set<string>
  {
    set n | n in s.nodes && !s.nodes[n].evicted && !s.nodes[n].lost
  }

  lemma GateSets(s: State, victim: string)
    ensures Elsewhere(s, victim) == Backups(s, victim) && Usable(s) == HealthyNodes(s)
    ensures ElsewhereUpToDate(s, victim) == ReadyBackups(s, victim)
  {
    assert Elsewhere(s, victim) == Backups(s, victim);
    forall n | n in s.replicas
      ensures AllUpToDate(s.replicas[n].volumes) <==> s.replicas[n].volumes != [] && false !in s.replicas[n].volumes
    {
      var v := s.replicas[n].volumes;
      assert (forall i | 0 <= i < |v| :: v[i]) <==> false !in v;
    }
  }

  /** A drain pass deletes the replica of the evacuated node exactly when, after a
      placement that went through, at least one replica elsewhere, and as many as the
      target, are diskful, off every evicted or lost node, and UpToDate throughout.
      The target is the place count, or the diskful replicas there were, capped at the
      nodes that are neither evicted nor lost, whichever is more. */
  lemma EvacuatesExactly(s: State, victim: string, placeCount: int, placed: State, failed: bool)
    requires Placed(s, placed) && victim in s.replicas && !s.replicas[victim].deleting && !s.replicas[victim].diskless
    ensures var diskful, ready := |Elsewhere(s, victim)| + 1, |ElsewhereUpToDate(placed, victim)|;
            var current := if diskful <= |Usable(s)| then diskful else |Usable(s)|;
            var t := Evacuate(s, victim, placeCount, placed, failed);
            victim in t.replicas
            && (t.replicas[victim].deleting <==> !failed && ready >= 1 && ready >= placeCount && ready >= current)
            && (forall n | n in placed.replicas && n != victim :: n in t.replicas && t.replicas[n] == placed.replicas[n])
  {
    assert PlacedOne(s, placed, victim);
    GateSets(s, victim);
    GateSets(placed, victim);
  }

  /** A migration pass deletes the source and forgets it exactly when the target names
      one, is not being deleted, and every volume it reports, at least one, is
      UpToDate; nothing else changes. */
  lemma MigratesExactly(s: State, dst: string)
    ensures var t := Migrate(s, dst);
            if dst in s.replicas && s.replicas[dst].migratingFrom != "" && !s.replicas[dst].deleting
               && s.replicas[dst].volumes != [] && false !in s.replicas[dst].volumes
            then var src := s.replicas[dst].migratingFrom;
                 dst in t.replicas && t.replicas[dst].migratingFrom == ""
                 && (src in s.replicas ==> src in t.replicas && t.replicas[src].deleting)
                 && (forall n | n in s.replicas && n != src && n != dst :: n in t.replicas && t.replicas[n] == s.replicas[n])
                 && t.replicas.Keys == s.replicas.Keys
            else t == s
  {
    if dst in s.replicas {
      var v := s.replicas[dst].volumes;
      assert (forall i | 0 <= i < |v| :: v[i]) <==> false !in v;
    }
  }

  /** Starting a migration names the source on the target and makes it diskful, creating
      it if need be; its other flags and the source stay. A source that is missing,
      diskless, unnamed or the target itself is refused. */
  lemma StartsMigration(s: State, dst: string, src: string)
    ensures var t := StartMigration(s, dst, src);
            if src != "" && src != dst && src in s.replicas && !s.replicas[src].diskless
            then dst in t.replicas && t.replicas[dst].migratingFrom == src && !t.replicas[dst].diskless
                 && (forall n | n in s.replicas && n != dst :: n in t.replicas && t.replicas[n] == s.replicas[n])
                 && (dst in s.replicas ==> t.replicas[dst].tieBreaker == s.replicas[dst].tieBreaker)
                 && (dst !in s.replicas ==> !t.replicas[dst].tieBreaker)
            else t == s
  {
  }

  // When a pass loses the last copy

  lemma PlacedKeepsGood(s: State, placed: State)
    requires Placed(s, placed)
    ensures GoodCopies(placed) == GoodCopies(s)
  {
    forall n | n in placed.replicas ensures Good(placed, n) <==> Good(s, n) {
      assert PlacedOne(s, placed, n);
    }
  }

  lemma MarkDropsGood(s: State, n: string)
    ensures GoodCopies(Mark(s, n)) == GoodCopies(s) - {n}
  {
    var t := Mark(s, n);
    forall m | m in s.replicas ensures Good(t, m) <==> Good(s, m) && m != n {
    }
  }

  /** A drain pass loses the last good copy exactly when its gate opens while
      the evacuated node holds the only one. */
  lemma EvacuationLosesExactly(s: State, victim: string, placeCount: int, placed: State, failed: bool)
    requires HasData(s) && Placed(s, placed)
    ensures !HasData(Evacuate(s, victim, placeCount, placed, failed))
            <==> !failed && ReplacementReady(placed, victim, Target(s, victim, placeCount)) && GoodCopies(s) == {victim}
  {
    PlacedKeepsGood(s, placed);
    MarkDropsGood(placed, victim);
  }

  /** A lost node's replica is dropped without a gate: the last good copy goes with it
      exactly when the node held the only one. */
  lemma LostLosesExactly(s: State, victim: string, placed: State)
    requires HasData(s) && Placed(s, placed)
    ensures !HasData(Mark(placed, victim)) <==> GoodCopies(s) == {victim}
  {
    PlacedKeepsGood(s, placed);
    MarkDropsGood(placed, victim);
  }

  /** The gate cannot open that way while no counted backup is being deleted. */
  lemma LiveBackupGuardsEvacuation(s: State, victim: string, placed: State, target: int)
    requires Placed(s, placed) && ReplacementReady(placed, victim, target)
    requires forall n | n in ReadyBackups(placed, victim) :: !placed.replicas[n].deleting
    ensures GoodCopies(s) != {victim}
  {
    PlacedKeepsGood(s, placed);
    assert ReadyBackups(placed, victim) != {};
    var n :| n in ReadyBackups(placed, victim);
    assert n in GoodCopies(placed) && n != victim;
  }

  /** A migration pass loses the last good copy exactly when it fires while the
      source holds the only one. */
  lemma MigrationLosesExactly(s: State, dst: string)
    requires HasData(s)
    ensures !HasData(Migrate(s, dst)) <==> MigrationDone(s, dst) && GoodCopies(s) == {s.replicas[dst].migratingFrom}
  {
    if MigrationDone(s, dst) {
      var src := s.replicas[dst].migratingFrom;
      var t := Mark(s, src);
      MarkDropsGood(s, src);
      var u := Migrate(s, dst);
      forall n | n in u.replicas ensures Good(u, n) <==> Good(t, n) {
      }
      assert GoodCopies(u) == GoodCopies(t);
    }
  }

  /** A witness pass loses the last good copy exactly when every good copy is
      tagged TIE_BREAKER on a draining or vanished node. */
  lemma WitnessLosesExactly(s: State, vanishes: bool)
    requires HasData(s)
    ensures !HasData(Ensure(s, vanishes)) <==> s.policy.replicated && GoodCopies(s) <= StrandedWitnesses(s)
  {
    WitnessDropsGood(s, vanishes);
    var good, lost := GoodCopies(s), StrandedWitnesses(s);
    assert forall n | n in good :: n !in lost ==> n in good - lost;
    assert good - {} == good;
  }

  lemma WitnessKeepsFields(s: State, vanishes: bool, n: string)
    requires s.policy.replicated && n in s.replicas
    ensures var t := Ensure(s, vanishes);
            n in t.replicas && t.replicas[n].(deleting := s.replicas[n].deleting) == s.replicas[n]
            && (n in StrandedWitnesses(s) ==> t.replicas[n].deleting)
            && (n !in StrandedWitnesses(s) && !s.replicas[n].diskless ==> t.replicas[n].deleting == s.replicas[n].deleting)
  {
    StrandedNotActive(s);
  }

  lemma WitnessDropsGood(s: State, vanishes: bool)
    ensures GoodCopies(Ensure(s, vanishes)) == GoodCopies(s) - if s.policy.replicated then StrandedWitnesses(s) else {}
  {
    var t := Ensure(s, vanishes);
    if s.policy.replicated {
      forall n | n in s.replicas ensures n in t.replicas && (Good(t, n) <==> Good(s, n) && n !in StrandedWitnesses(s)) {
        WitnessKeepsFields(s, vanishes, n);
      }
      assert forall n | n in t.replicas && n !in s.replicas :: t.replicas[n] == WITNESS;
    }
  }

  // Runs

  /** What every replica writer but one keeps: a witness is diskless, and no
      replica migrates from itself. */
  predicate SoundReplica(n: string, r: Replica)
  {
    (r.tieBreaker ==> r.diskless) && (r.migratingFrom == "" || r.migratingFrom != n)
  }

  predicate Sound(s: State)
  {
    forall n | n in s.replicas :: SoundReplica(n, s.replicas[n])
  }

  // The side conditions of a step: the placer's contract, no migration onto a
  // witness, and for the two dropping passes a target that is what it seems.
  predicate Careful(s: State, step: Step)
  {
    match step
    case EvacuatePass(victim, placeCount, placed, failed) =>
      Placed(s, placed) && forall n | n in ReadyBackups(placed, victim) :: !placed.replicas[n].deleting
    case MigratePass(dst) => dst in s.replicas ==> !s.replicas[dst].diskless
    case MigrateDisk(dst, src) => dst in s.replicas ==> !s.replicas[dst].tieBreaker
    case Create(n, r) => SoundReplica(n, r)
    case _ => true
  }

  // The environment does not destroy a good copy itself.
  predicate Harmless(s: State, step: Step)
  {
    match step
    case Report(n, volumes) => Good(s, n) ==> AllUpToDate(volumes)
    case ToggleDisk(n, diskless) => Good(s, n) ==> !diskless
    case Delete(n) => !Good(s, n)
    case _ => true
  }

  predicate IsPass(step: Step)
  {
    step.EvacuatePass? || step.MigratePass? || step.WitnessPass?
  }

  predicate AllCareful(s: State, steps: seq<Step>)
    decreases |steps|
  {
    steps == [] || (Careful(s, steps[0]) && AllCareful(Next(s, steps[0]), steps[1..]))
  }

  predicate AllHarmless(s: State, steps: seq<Step>)
    decreases |steps|
  {
    steps == [] || (Harmless(s, steps[0]) && AllHarmless(Next(s, steps[0]), steps[1..]))
  }

  lemma PlacedStaysSound(s: State, placed: State)
    requires Sound(s) && Placed(s, placed)
    ensures Sound(placed)
  {
    forall n | n in placed.replicas ensures SoundReplica(n, placed.replicas[n]) {
      assert PlacedOne(s, placed, n);
    }
  }

  lemma WitnessStaysSound(s: State, vanishes: bool)
    requires Sound(s)
    ensures Sound(Ensure(s, vanishes))
  {
    var t := Ensure(s, vanishes);
    if s.policy.replicated {
      forall n | n in t.replicas ensures SoundReplica(n, t.replicas[n]) {
        assert t.replicas[n] == WITNESS || n in s.replicas;
        if n in s.replicas && t.replicas[n] != WITNESS {
          assert t.replicas[n].(deleting := s.replicas[n].deleting) == s.replicas[n];
          assert SoundReplica(n, s.replicas[n]);
        }
      }
    }
  }

  /** Every step keeps a witness diskless, given that none is a migration target. */
  lemma StepStaysSound(s: State, step: Step)
    requires Sound(s) && Careful(s, step)
    ensures Sound(Next(s, step))
  {
    match step
    case EvacuatePass(victim, placeCount, placed, failed) => PlacedStaysSound(s, placed);
    case WitnessPass(vanishes) => WitnessStaysSound(s, vanishes);
    case _ =>
  }

  /** No careful pass takes a definition from a good copy to none. */
  lemma PassKeepsData(s: State, step: Step)
    requires Sound(s) && Careful(s, step) && IsPass(step) && HasData(s)
    ensures HasData(Next(s, step))
  {
    match step
    case EvacuatePass(victim, placeCount, placed, failed) =>
      EvacuationLosesExactly(s, victim, placeCount, placed, failed);
      if ReplacementReady(placed, victim, Target(s, victim, placeCount)) {
        LiveBackupGuardsEvacuation(s, victim, placed, Target(s, victim, placeCount));
      }
    case MigratePass(dst) =>
      MigrationLosesExactly(s, dst);
      if MigrationDone(s, dst) {
        assert SoundReplica(dst, s.replicas[dst]);
        assert dst in GoodCopies(s);
      }
    case WitnessPass(vanishes) =>
      WitnessLosesExactly(s, vanishes);
      var n :| n in GoodCopies(s);
      assert SoundReplica(n, s.replicas[n]);
  }

  lemma HarmlessKeepsData(s: State, step: Step)
    requires HasData(s) && Harmless(s, step) && !IsPass(step)
    ensures HasData(Next(s, step))
  {
    var n :| n in GoodCopies(s);
    assert Good(s, n);
    assert Good(Next(s, step), n);
    assert n in GoodCopies(Next(s, step));
  }

  // Every pass of the run that starts with a good copy ends with one.
  predicate PassesKeepData(s: State, steps: seq<Step>)
    decreases |steps|
  {
    steps == []
    || ((IsPass(steps[0]) && HasData(s) ==> HasData(Next(s, steps[0]))) && PassesKeepData(Next(s, steps[0]), steps[1..]))
  }

  /** In every run, however the environment behaves, no pass is the step that
      destroys the last copy. */
  lemma {:induction false} PassesNeverLoseData(s: State, steps: seq<Step>)
    requires Sound(s) && AllCareful(s, steps)
    ensures PassesKeepData(s, steps)
    decreases |steps|
  {
    if steps != [] {
      if IsPass(steps[0]) && HasData(s) {
        PassKeepsData(s, steps[0]);
      }
      StepStaysSound(s, steps[0]);
      PassesNeverLoseData(Next(s, steps[0]), steps[1..]);
    }
  }

  /** So the data outlives any number of concurrent drains, migrations (cycles
      included) and witness moves, as long as nothing else destroys it. */
  lemma {:induction false} DataSurvives(s: State, steps: seq<Step>)
    requires Sound(s) && HasData(s) && AllCareful(s, steps) && AllHarmless(s, steps)
    ensures HasData(Run(s, steps))
    decreases |steps|
  {
    if steps != [] {
      if IsPass(steps[0]) {
        PassKeepsData(s, steps[0]);
      } else {
        HarmlessKeepsData(s, steps[0]);
      }
      StepStaysSound(s, steps[0]);
      DataSurvives(Next(s, steps[0]), steps[1..]);
    }
  }

  // Counter-runs

  const UP := Node(false, false, false, true)
  const FULL := Replica(false, false, false, false, [true], "")
  const PLAIN := Policy(true, true, false, false, true)

  function Pair(second: Replica): State
  {
    State(map["a" := FULL, "b" := second], map["a" := UP, "b" := UP], PLAIN, Quorum(None, "", None, ""))
  }

  lemma RunThree(s: State, x: Step, y: Step, z: Step)
    ensures Run(s, [x, y, z]) == Next(Next(Next(s, x), y), z)
  {
    assert [x, y, z][1..] == [y, z] && [y, z][1..] == [z] && [z][1..] == [];
    assert Run(Next(s, x), [y, z]) == Run(Next(Next(s, x), y), [z]);
    assert Run(Next(Next(s, x), y), [z]) == Run(Next(Next(Next(s, x), y), z), []);
  }

  // The witness "b" after it took over the only copy.
  function TakenOver(): State
  {
    Pair(WITNESS).(replicas := map["a" := FULL.(deleting := true), "b" := Replica(false, true, false, false, [true], "")])
  }

  lemma WitnessTakesOver()
    ensures Run(Pair(WITNESS), [MigrateDisk("b", "a"), Report("b", [true]), MigratePass("b")]) == TakenOver()
  {
    RunThree(Pair(WITNESS), MigrateDisk("b", "a"), Report("b", [true]), MigratePass("b"));
  }

  lemma DrainedWitnessDeleted()
    ensures var t := TakenOver();
            HasData(t) && !Sound(t) && !HasData(Next(Next(t, SetNode("b", UP.(evicted := true))), WitnessPass(false)))
  {
    var t := TakenOver();
    assert !SoundReplica("b", t.replicas["b"]);
    assert GoodCopies(t) == {"b"};
    var u := Next(t, SetNode("b", UP.(evicted := true)));
    assert GoodCopies(u) == {"b"} && "b" in StrandedWitnesses(u);
    WitnessLosesExactly(u, false);
  }

  /** A migration onto a witness leaves it tagged TIE_BREAKER: once it holds the
      only copy, draining its node makes the witness pass delete that copy. */
  lemma MigrationOntoWitnessLosesData()
    ensures var s := Pair(WITNESS);
            var t := Run(s, [MigrateDisk("b", "a"), Report("b", [true]), MigratePass("b")]);
            Sound(s) && HasData(s) && !Sound(t) && HasData(t)
            && !HasData(Next(Next(t, SetNode("b", UP.(evicted := true))), WitnessPass(false)))
  {
    assert "a" in GoodCopies(Pair(WITNESS));
    WitnessTakesOver();
    DrainedWitnessDeleted();
  }

  /** The migration pass does not look at the DISKLESS flag of its target: a
      target demoted again before the pass takes the source with it. */
  lemma DemotedTargetLosesData()
    ensures var s := Pair(Replica(false, false, false, false, [], ""));
            var t := Run(s, [MigrateDisk("b", "a"), Report("b", [true]), ToggleDisk("b", true)]);
            Sound(s) && Sound(t) && HasData(t) && !HasData(Next(t, MigratePass("b")))
  {
    var s := Pair(Replica(false, false, false, false, [], ""));
    RunThree(s, MigrateDisk("b", "a"), Report("b", [true]), ToggleDisk("b", true));
    var t := s.(replicas := map["a" := FULL, "b" := Replica(true, false, false, false, [true], "a")]);
    assert Run(s, [MigrateDisk("b", "a"), Report("b", [true]), ToggleDisk("b", true)]) == t;
    assert GoodCopies(t) == {"a"};
    MigrationLosesExactly(t, "b");
  }

  /** The drain gate counts a backup that is already being deleted. */
  lemma DeletingBackupLosesData()
    ensures var s := Pair(FULL.(deleting := true)).(nodes := map["a" := UP.(evicted := true), "b" := UP]);
            Sound(s) && HasData(s) && Placed(s, s) && !HasData(Next(s, EvacuatePass("a", 0, s, false)))
  {
    var s := Pair(FULL.(deleting := true)).(nodes := map["a" := UP.(evicted := true), "b" := UP]);
    assert GoodCopies(s) == {"a"};
    assert HealthyNodes(s) == {"b"} && Backups(s, "a") == {"b"} && ReadyBackups(s, "a") == {"b"};
    EvacuationLosesExactly(s, "a", 0, s, false);
  }
}
