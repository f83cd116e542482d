/**
 The skip-initial-sync decision and the day-0 seeds over whole runs.
 */
module Latch {
  import opened Names
  import opened DrbdPool
  import opened Cluster
  import opened Runs
  import opened Identity

  predicate Initialized(s: State, rd: string)
  {
    rd in s.definitions && s.definitions[rd].initialized
  }

  // Replicas of a definition carrying a given stamp.
  function Stamped(s: State, rd: string, skip: bool): set<string>
  {
    set n | n in s.replicas && s.replicas[n].rd == rd && s.replicas[n].skip == Some(skip)
  }

  /** A pass that stamps a replica writes the negation of the latch it found. */
  lemma StampReadsLatch(day0: Day0, s: State, name: string)
    requires name in s.replicas && s.replicas[name].skip.None? && Reconcile(day0, s, name).Done?
    ensures var me, r := s.replicas[name], Reconcile(day0, s, name).s.replicas[name];
            r.skip.Some? ==> me.rd in s.definitions && r.skip == Some(!s.definitions[me.rd].initialized)
  {
    var me := s.replicas[name];
    if !me.deleting && !me.legacyFinalizer && me.rd != "" && !(me.applied && me.rd !in s.definitions) {
      AllocatedReplica(s, name);
      if AllocatePass(s, name).value == s {
        assert Reconcile(day0, s, name).s == Apply(day0, s, name);
      }
    }
  }

  lemma PassStamps(day0: Day0, s: State, name: string, rd: string, skip: bool)
    requires Reconcile(day0, s, name).Done?
    ensures var t := Reconcile(day0, s, name).s;
            Stamped(t, rd, skip) <= Stamped(s, rd, skip)
            || (rd in s.definitions && skip == !s.definitions[rd].initialized)
  {
    PassFrame(day0, s, name);
    if name in s.replicas && s.replicas[name].skip.None? {
      StampReadsLatch(day0, s, name);
    }
  }

  lemma TornStamps(s: State, name: string, specWritten: bool, rd: string, skip: bool)
    ensures var t := TornPass(s, name, specWritten);
            Stamped(t, rd, skip) <= Stamped(s, rd, skip)
            || (rd in s.definitions && skip == !s.definitions[rd].initialized)
  {
    TornFrame(s, name, specWritten);
    if Allocates(s, name) {
      AllocatedReplica(s, name);
    }
  }

  // Replicas of the definition are created without a stamp.
  predicate Unstamped(rd: string, step: Step)
  {
    step.CreateReplica? && step.replica.rd == rd ==> step.replica.skip.None?
  }

  lemma LatchedStep(day0: Day0, s: State, step: Step, rd: string)
    requires Initialized(s, rd) && step != RemoveDefinition(rd) && Unstamped(rd, step)
    ensures Initialized(Next(day0, s, step), rd)
    ensures Stamped(Next(day0, s, step), rd, true) <= Stamped(s, rd, true)
  {
    if step.Pass? && Reconcile(day0, s, step.name).Done? {
      PassFrame(day0, s, step.name);
      PassStamps(day0, s, step.name, rd, true);
    } else if step.Torn? {
      TornFrame(s, step.name, step.specWritten);
      TornStamps(s, step.name, step.specWritten, rd, true);
    }
  }

  /** Once latched a definition stays latched, and whatever its replicas report
      or however many of them vanish, no replica is told to skip any more. */
  lemma {:induction false} AfterTheLatch(day0: Day0, s: State, steps: seq<Step>, rd: string)
    requires Initialized(s, rd) && RemoveDefinition(rd) !in steps
    requires forall i | 0 <= i < |steps| :: Unstamped(rd, steps[i])
    ensures Initialized(Run(day0, s, steps), rd)
    ensures Stamped(Run(day0, s, steps), rd, true) <= Stamped(s, rd, true)
    decreases |steps|
  {
    if steps != [] {
      assert steps[0] in steps;
      LatchedStep(day0, s, steps[0], rd);
      AfterTheLatch(day0, Next(day0, s, steps[0]), steps[1..], rd);
    }
  }

  // A report that names no generation past day 0.
  predicate Unwritten(day0: Day0, rd: string, volumes: seq<VolumeStatus>)
  {
    forall j | 0 <= j < |volumes| :: volumes[j].gi == "" || IsDay0(day0, rd, volumes[j])
  }

  predicate Fresh(day0: Day0, s: State, rd: string)
  {
    && !Initialized(s, rd)
    && forall n | n in s.replicas && s.replicas[n].rd == rd :: Unwritten(day0, rd, s.replicas[n].volumes)
  }

  ghost predicate StaysUnwritten(day0: Day0, rd: string, s: State, step: Step)
  {
    && Unstamped(rd, step)
    && (step.CreateReplica? && step.replica.rd == rd ==> Unwritten(day0, rd, step.replica.volumes))
    && (step.Report? && step.name in s.replicas && s.replicas[step.name].rd == rd ==> Unwritten(day0, rd, step.volumes))
    && (step.CreateDefinition? && step.rd == rd ==> !step.definition.initialized)
  }

  lemma UnwrittenProvesNothing(day0: Day0, s: State, rd: string)
    requires Fresh(day0, s, rd)
    ensures !AnyHoldsData(day0, s, rd, None, true)
  {
  }

  lemma FreshPass(day0: Day0, s: State, name: string, rd: string)
    requires Fresh(day0, s, rd) && Reconcile(day0, s, name).Done?
    ensures Fresh(day0, Reconcile(day0, s, name).s, rd)
  {
    PassFrame(day0, s, name);
    UnwrittenProvesNothing(day0, s, rd);
    if name in s.replicas && s.replicas[name].rd == rd && rd in s.definitions {
      var t := Reconcile(day0, s, name).s;
      if AllocatePass(s, name).Some? {
        NumberedIfAllocated(s, name);
      }
    }
  }

  lemma NumberedIfAllocated(s: State, name: string)
    requires name in s.replicas && AllocatePass(s, name).Some? && s.replicas[name].rd in s.definitions
    ensures var rd := s.replicas[name].rd;
            AllocatePass(s, name).value.definitions[rd].initialized == s.definitions[rd].initialized
  {
    NumberedKeeps(s, s.replicas[name].rd);
  }

  lemma FreshTorn(day0: Day0, s: State, name: string, specWritten: bool, rd: string)
    requires Fresh(day0, s, rd)
    ensures Fresh(day0, TornPass(s, name, specWritten), rd)
  {
    TornFrame(s, name, specWritten);
    if Allocates(s, name) && s.replicas[name].rd in s.definitions {
      NumberedIfAllocated(s, name);
    }
  }

  lemma FreshStep(day0: Day0, s: State, step: Step, rd: string)
    requires Fresh(day0, s, rd) && StaysUnwritten(day0, rd, s, step)
    ensures Fresh(day0, Next(day0, s, step), rd)
    ensures Stamped(Next(day0, s, step), rd, false) <= Stamped(s, rd, false)
  {
    if step.Pass? {
      if Reconcile(day0, s, step.name).Done? {
        FreshPass(day0, s, step.name, rd);
        PassStamps(day0, s, step.name, rd, false);
      }
    } else if step.Torn? {
      FreshTorn(day0, s, step.name, step.specWritten, rd);
      TornStamps(s, step.name, step.specWritten, rd, false);
    } else {
      EnvironmentStaysFresh(day0, s, step, rd);
    }
  }

  // Steps on one replica.
  lemma ReplicaStaysFresh(day0: Day0, s: State, name: string, r: Replica, rd: string)
    requires Fresh(day0, s, rd) && (r.rd == rd ==> Unwritten(day0, rd, r.volumes))
    requires r.rd == rd && r.skip == Some(false) ==> name in s.replicas && s.replicas[name].rd == rd && s.replicas[name].skip == Some(false)
    ensures Fresh(day0, Edit(s, name, r), rd) && Stamped(Edit(s, name, r), rd, false) <= Stamped(s, rd, false)
  {
  }

  lemma EnvironmentStaysFresh(day0: Day0, s: State, step: Step, rd: string)
    requires !step.Pass? && !step.Torn? && Fresh(day0, s, rd) && StaysUnwritten(day0, rd, s, step)
    ensures Fresh(day0, Next(day0, s, step), rd)
    ensures Stamped(Next(day0, s, step), rd, false) <= Stamped(s, rd, false)
  {
    match step
    case CreateReplica(name, r) => ReplicaStaysFresh(day0, s, name, r, rd);
    case MarkDeleted(name) =>
      if name in s.replicas {
        ReplicaStaysFresh(day0, s, name, s.replicas[name].(deleting := true), rd);
      }
    case Report(name, volumes, connections, inUse, applied) =>
      if name in s.replicas {
        ReplicaStaysFresh(day0, s, name,
                          s.replicas[name].(volumes := volumes, connections := connections, inUse := inUse, applied := applied), rd);
      }
    case SetFlags(name, diskless, tieBreaker) =>
      if name in s.replicas {
        ReplicaStaysFresh(day0, s, name, s.replicas[name].(diskless := diskless, tieBreaker := tieBreaker), rd);
      }
    case _ =>
  }

  /** While every reported generation is empty or day 0 the latch never fires
      and every replica is told to skip. */
  lemma {:induction false} NeverWrittenNeverLatches(day0: Day0, s: State, steps: seq<Step>, rd: string)
    requires Fresh(day0, s, rd) && AllFit(day0, s, steps, (x, y) => StaysUnwritten(day0, rd, x, y))
    ensures Fresh(day0, Run(day0, s, steps), rd)
    ensures Stamped(Run(day0, s, steps), rd, false) <= Stamped(s, rd, false)
    decreases |steps|
  {
    if steps != [] {
      FreshStep(day0, s, steps[0], rd);
      NeverWrittenNeverLatches(day0, Next(day0, s, steps[0]), steps[1..], rd);
    }
  }

  // Data without the latch

  // "a" holds written data, "b" has just been created.
  function Written(gi: string): State
  {
    State(map["a" := Blank("x", "n").(specId := Some(0), statId := Some(0), specPort := Some(PORT_MIN), statPort := Some(PORT_MIN),
                                      skip := Some(true), volumes := [VolumeStatus(0, UpToDate, gi)]),
              "b" := Blank("x", "m")],
          map["x" := Definition([], None, false, None)], map[], Unset, Unset, [])
  }

  /** The stamp follows the latch, not the data: a replica reconciled while its
      peer already reports written data, before the pass that latches it, is
      told to skip. The same two passes in the other order tell it to sync. */
  lemma StampCanPrecedeLatch(day0: Day0, gi: string)
    requires gi != "" && !EqualFold(gi, day0("x", 0))
    ensures var s := Written(gi);
            AnyHoldsData(day0, s, "x", None, true)
            && "b" in Stamped(Next(day0, s, Pass("b")), "x", true)
            && "b" in Stamped(Next(day0, Next(day0, s, Pass("a")), Pass("b")), "x", false)
  {
    var s := Written(gi);
    assert HoldsData(day0, s.replicas["a"], true) by {
      assert !IsDay0(day0, "x", s.replicas["a"].volumes[0]);
    }
    FreshIdentity(s, "b");
    assert Next(day0, s, Pass("b")) == AllocatePass(s, "b").value;
    var t := Next(day0, s, Pass("a"));
    WrittenLatches(day0, gi);
    FreshIdentity(t, "b");
    assert Next(day0, t, Pass("b")) == AllocatePass(t, "b").value;
  }

  lemma FreshIdentity(s: State, name: string)
    requires name in s.replicas && s.replicas[name] == Blank("x", "m") && "x" in s.definitions && s.definitions["x"].volumes == []
    requires s.nodes == map[] && s.portText == Unset
    requires Occupied(s, name) <= {0} && PortsOnNode(s, "m", name) == {} && s.definitions["x"].preferredPort.None?
    ensures AllocatePass(s, name).Some?
    ensures AllocatePass(s, name).value != s
    ensures AllocatePass(s, name).value.replicas[name].skip == Some(!s.definitions["x"].initialized)
    ensures AllocatePass(s, name).value.replicas[name].rd == "x"
  {
    var range := Range(0, MAX_PEERS - 1);
    assert Free(Occupied(s, name), range, 1);
    assert LowestFree(Occupied(s, name), range).Some?;
    assert PortRange(s, "m") == Some(Range(PORT_MIN, PORT_MAX));
    assert Free({}, Range(PORT_MIN, PORT_MAX), PORT_MIN);
  }

  lemma WrittenLatches(day0: Day0, gi: string)
    requires gi != "" && !EqualFold(gi, day0("x", 0))
    ensures var s := Written(gi); Next(day0, s, Pass("a")) == s.(definitions := map["x" := Definition([], None, true, None)])
  {
    var s := Written(gi);
    assert HoldsData(day0, s.replicas["a"], true) by {
      assert !IsDay0(day0, "x", s.replicas["a"].volumes[0]);
    }
    var a := s.replicas["a"];
    assert Identify(s, "a") == Some(a) && Mirrored(a, None) == a;
    assert Numbered(s, "x") == Some(s.definitions["x"]);
    assert s.replicas["a" := a] == s.replicas && s.definitions["x" := s.definitions["x"]] == s.definitions;
    assert AllocatePass(s, "a") == Some(s);
  }

  // Seeds

  lemma StatusEntry(volumes: seq<VolumeStatus>, number: int)
    requires StatusOf(volumes, number).Some?
    ensures StatusOf(volumes, number).value.number == number
    ensures exists j :: 0 <= j < |volumes| && volumes[j] == StatusOf(volumes, number).value
  {
    if volumes[0].number != number {
      StatusEntry(volumes[1..], number);
      var j :| 0 <= j < |volumes[1..]| && volumes[1..][j] == StatusOf(volumes[1..], number).value;
      assert volumes[j + 1] == StatusOf(volumes, number).value;
    } else {
      assert volumes[0] == StatusOf(volumes, number).value;
    }
  }

  /** Past the data-bearing gate a picked seed is the day-0 generation exactly
      when the peer it came from is diskful or reports day 0 itself: the gate
      does not look at DISKLESS peers, the picker does. */
  lemma PickedSeedExactly(day0: Day0, s: State, name: string, number: int)
    requires name in s.replicas && SeedCandidates(s, name, number) != {}
    requires !AnyHoldsData(day0, s, s.replicas[name].rd, Some(name), false)
    ensures var peer := s.replicas[Least(SeedCandidates(s, name, number))];
            EqualFold(PickSeed(s, name, number), day0(s.replicas[name].rd, number))
            <==> (peer.diskless ==> IsDay0(day0, peer.rd, StatusOf(peer.volumes, number).value))
  {
    var n := Least(SeedCandidates(s, name, number));
    var peer := s.replicas[n];
    StatusEntry(peer.volumes, number);
    var j :| 0 <= j < |peer.volumes| && peer.volumes[j] == StatusOf(peer.volumes, number).value;
    if !peer.diskless {
      assert !HoldsData(day0, peer, false);
      assert IsDay0(day0, peer.rd, peer.volumes[j]);
    }
  }

  // No DISKLESS replica reports an observed UpToDate volume.
  predicate DisklessSilent(s: State)
  {
    forall n | n in s.replicas && s.replicas[n].diskless ::
      forall j | 0 <= j < |s.replicas[n].volumes| ::
        !s.replicas[n].volumes[j].disk.UpToDate? || s.replicas[n].volumes[j].gi == ""
  }

  predicate SeedIsDay0(day0: Day0, rd: string, v: VolumeSpec)
  {
    v.seed == "" || EqualFold(v.seed, day0(rd, v.number))
  }

  predicate SeedsAreDay0(day0: Day0, s: State)
  {
    forall n, i | n in s.replicas && 0 <= i < |s.replicas[n].specVolumes| ::
      SeedIsDay0(day0, s.replicas[n].rd, s.replicas[n].specVolumes[i])
  }

  lemma SilentPick(day0: Day0, s: State, name: string, number: int)
    requires name in s.replicas && DisklessSilent(s)
    requires !AnyHoldsData(day0, s, s.replicas[name].rd, Some(name), false)
    ensures SeedIsDay0(day0, s.replicas[name].rd, VolumeSpec(number, PickSeed(s, name, number)))
  {
    if SeedCandidates(s, name, number) != {} {
      PickedSeedExactly(day0, s, name, number);
      var peer := s.replicas[Least(SeedCandidates(s, name, number))];
      StatusEntry(peer.volumes, number);
    }
  }

  predicate AllDay0(day0: Day0, rd: string, specs: seq<VolumeSpec>)
  {
    forall i | 0 <= i < |specs| :: SeedIsDay0(day0, rd, specs[i])
  }

  lemma {:induction false} SetSeedDay0(day0: Day0, rd: string, specs: seq<VolumeSpec>, number: int, seed: string)
    requires AllDay0(day0, rd, specs) && SeedIsDay0(day0, rd, VolumeSpec(number, seed))
    ensures AllDay0(day0, rd, SetSeed(specs, number, seed))
    decreases |specs|
  {
    if specs != [] && specs[0].number != number {
      SetSeedDay0(day0, rd, specs[1..], number, seed);
    }
  }

  lemma {:induction false} SeededDay0(day0: Day0, s: State, name: string, specs: seq<VolumeSpec>, defs: seq<VolumeDefinition>)
    requires name in s.replicas && DisklessSilent(s) && AllDay0(day0, s.replicas[name].rd, specs)
    requires !AnyHoldsData(day0, s, s.replicas[name].rd, Some(name), false)
    ensures AllDay0(day0, s.replicas[name].rd, Seeded(s, name, specs, defs))
    decreases |defs|
  {
    if defs != [] {
      var number := defs[0].number;
      var seed := PickSeed(s, name, number);
      SilentPick(day0, s, name, number);
      SetSeedDay0(day0, s.replicas[name].rd, specs, number, seed);
      SeededDay0(day0, s, name,
                 if SeedSet(specs, number) || seed == "" then specs else SetSeed(specs, number, seed), defs[1..]);
    }
  }

  lemma {:induction false} PrunedDay0(day0: Day0, rd: string, specs: seq<VolumeSpec>, d: Definition)
    requires AllDay0(day0, rd, specs)
    ensures AllDay0(day0, rd, Pruned(specs, d))
    decreases |specs|
  {
    if specs != [] {
      PrunedDay0(day0, rd, specs[1..], d);
    }
  }

  lemma ProjectDay0(day0: Day0, s: State, name: string)
    requires name in s.replicas && DisklessSilent(s) && AllDay0(day0, s.replicas[name].rd, s.replicas[name].specVolumes)
    ensures AllDay0(day0, s.replicas[name].rd, Project(day0, s, name))
  {
    var me := s.replicas[name];
    if me.rd in s.definitions {
      var d := s.definitions[me.rd];
      PrunedDay0(day0, me.rd, me.specVolumes, d);
      if !AnyHoldsData(day0, s, me.rd, Some(name), false) {
        SeededDay0(day0, s, name, me.specVolumes, d.volumes);
      }
    }
  }

  // A pass leaves the volume entries alone or projects them.
  lemma PassProjects(day0: Day0, s: State, name: string)
    requires name in s.replicas && Reconcile(day0, s, name).Done?
    ensures var specs := Reconcile(day0, s, name).s.replicas[name].specVolumes;
            specs == s.replicas[name].specVolumes || specs == Project(day0, s, name)
  {
    if AllocatePass(s, name).Some? {
      AllocatedReplica(s, name);
    }
  }

  lemma PassSeeds(day0: Day0, s: State, name: string)
    requires name in s.replicas && DisklessSilent(s) && Reconcile(day0, s, name).Done?
    requires AllDay0(day0, s.replicas[name].rd, s.replicas[name].specVolumes)
    ensures AllDay0(day0, s.replicas[name].rd, Reconcile(day0, s, name).s.replicas[name].specVolumes)
  {
    ProjectDay0(day0, s, name);
    PassProjects(day0, s, name);
  }

  ghost predicate SeedsFit(day0: Day0, s: State, step: Step)
  {
    && DisklessSilent(s)
    && (step.CreateReplica? ==> AllDay0(day0, step.replica.rd, step.replica.specVolumes))
  }

  lemma TornKeepsSeedsDay0(day0: Day0, s: State, name: string, specWritten: bool)
    requires SeedsAreDay0(day0, s)
    ensures SeedsAreDay0(day0, TornPass(s, name, specWritten))
  {
    TornFrame(s, name, specWritten);
    if Allocates(s, name) {
      AllocatedReplica(s, name);
      assert TornPass(s, name, specWritten).replicas[name].specVolumes == s.replicas[name].specVolumes;
    }
  }

  lemma PassKeepsSeedsDay0(day0: Day0, s: State, name: string)
    requires SeedsAreDay0(day0, s) && DisklessSilent(s) && Reconcile(day0, s, name).Done?
    ensures SeedsAreDay0(day0, Reconcile(day0, s, name).s)
  {
    PassFrame(day0, s, name);
    if name in s.replicas {
      PassSeeds(day0, s, name);
    }
  }

  lemma StepKeepsSeedsDay0(day0: Day0, s: State, step: Step)
    requires SeedsAreDay0(day0, s) && SeedsFit(day0, s, step)
    ensures SeedsAreDay0(day0, Next(day0, s, step))
  {
    if step.Pass? {
      if Reconcile(day0, s, step.name).Done? {
        PassKeepsSeedsDay0(day0, s, step.name);
      }
    } else if step.Torn? {
      TornKeepsSeedsDay0(day0, s, step.name, step.specWritten);
    }
  }

  /** Over every run in which DISKLESS replicas report no written volume, every
      stamped seed is the day-0 generation of its volume, ignoring case. */
  lemma {:induction false} SeedsStayDay0(day0: Day0, s: State, steps: seq<Step>)
    requires SeedsAreDay0(day0, s) && AllFit(day0, s, steps, (x, y) => SeedsFit(day0, x, y))
    ensures SeedsAreDay0(day0, Run(day0, s, steps))
    decreases |steps|
  {
    if steps != [] {
      StepKeepsSeedsDay0(day0, s, steps[0]);
      SeedsStayDay0(day0, Next(day0, s, steps[0]), steps[1..]);
    }
  }

  // A settled replica `b` beside a DISKLESS replica that reports a written volume.
  function ClientReports(gi: string): State
  {
    var settled := Blank("x", "n").(specId := Some(0), statId := Some(0), specPort := Some(PORT_MIN), statPort := Some(PORT_MIN),
                                    statMinor := Some(MINOR_MIN), skip := Some(true));
    State(map["a" := settled.(diskless := true, volumes := [VolumeStatus(0, UpToDate, gi)]),
              "b" := settled.(node := "m", specId := Some(1), statId := Some(1))],
          map["x" := Definition([VolumeDefinition(0, 1024, Some(MINOR_MIN))], None, false, None)], map[], Unset, Unset, [])
  }

  /** Where a DISKLESS replica does report one, its generation becomes the seed. */
  lemma DisklessPeerSeeds(day0: Day0, gi: string)
    requires gi != "" && !EqualFold(gi, day0("x", 0))
    ensures var s := ClientReports(gi);
            SeedsAreDay0(day0, s) && Next(day0, s, Pass("b")).replicas["b"].specVolumes == [VolumeSpec(0, gi)]
  {
    var s := ClientReports(gi);
    var b := s.replicas["b"];
    assert Identify(s, "b") == Some(b) && Mirrored(b, FirstMinor(s.definitions["x"].volumes)) == b;
    assert Numbered(s, "x") == Some(s.definitions["x"]);
    assert s.replicas["b" := b] == s.replicas && s.definitions["x" := s.definitions["x"]] == s.definitions;
    assert AllocatePass(s, "b") == Some(s);
    assert !AnyHoldsData(day0, s, "x", Some("b"), false);
    ClientIsPicked(gi);
    assert Project(day0, s, "b") == [VolumeSpec(0, gi)];
  }

  lemma ClientIsPicked(gi: string)
    requires gi != ""
    ensures PickSeed(ClientReports(gi), "b", 0) == gi
    ensures Seeded(ClientReports(gi), "b", [], ClientReports(gi).definitions["x"].volumes) == [VolumeSpec(0, gi)]
  {
    var s := ClientReports(gi);
    assert StatusOf(s.replicas["a"].volumes, 0) == Some(VolumeStatus(0, UpToDate, gi));
    assert SeedCandidate(s, "b", 0, "a");
    assert SeedCandidates(s, "b", 0) == {"a"};
    var defs := s.definitions["x"].volumes;
    assert defs[1..] == [];
    assert Seeded(s, "b", [VolumeSpec(0, gi)], []) == [VolumeSpec(0, gi)];
  }
}
