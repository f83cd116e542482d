/**
 The requeue loop of the resource reconciler ends: every pass that asks for
 another one lowers a measure, and the last pass leaves nothing to write.
 */
module Converge {
  import opened Names
  import opened Cluster
  import opened Runs
  import opened Identity
  import opened Exhaustion

  function Gap(spec: Option<int>, stat: Option<int>): nat
  {
    if spec.None? then 2 else Bit(spec != stat)
  }

  function Stale(specs: seq<VolumeSpec>, d: Definition): nat
  {
    if specs == [] then 0 else Bit(!Declares(d, specs[0].number)) + Stale(specs[1..], d)
  }

  function Unseeded(specs: seq<VolumeSpec>, defs: seq<VolumeDefinition>): nat
  {
    if defs == [] then 0 else Bit(!SeedSet(specs, defs[0].number)) + Unseeded(specs, defs[1..])
  }

  // The work a definition still owes a replica.
  function Owed(me: Replica, d: Definition): nat
  {
    UnsetMinors(d.volumes) + Bit(FirstMinor(d.volumes).Some? && me.statMinor != FirstMinor(d.volumes))
    + Stale(me.specVolumes, d) + Unseeded(me.specVolumes, d.volumes) + Bit(!d.initialized)
  }

  /** Everything a requeueing pass can still do for a replica. */
  function Measure(s: State, name: string): nat
  {
    if name !in s.replicas then 0
    else
      var me := s.replicas[name];
      Bit(me.legacyFinalizer) + Gap(me.specId, me.statId) + Gap(me.specPort, me.statPort) + Bit(me.skip.None?)
      + Bit(me.diskless) + if me.rd in s.definitions then Owed(me, s.definitions[me.rd]) else 0
  }

  // Minors

  lemma {:induction false} CompleteMinors(volumes: seq<VolumeDefinition>)
    ensures Complete(volumes) <==> UnsetMinors(volumes) == 0
    decreases |volumes|
  {
    if volumes != [] {
      CompleteMinors(volumes[1..]);
      assert volumes == [volumes[0]] + volumes[1..];
    }
  }

  lemma {:induction false} SameNumbersSameUnseeded(specs: seq<VolumeSpec>, a: seq<VolumeDefinition>, b: seq<VolumeDefinition>)
    requires Numbers(a, b)
    ensures Unseeded(specs, a) == Unseeded(specs, b)
    decreases |a|
  {
    if a != [] {
      SameNumbersSameUnseeded(specs, a[1..], b[1..]);
    }
  }

  lemma {:induction false} SameNumbersSameStale(specs: seq<VolumeSpec>, a: Definition, b: Definition)
    requires Numbers(a.volumes, b.volumes)
    ensures Stale(specs, a) == Stale(specs, b)
    decreases |specs|
  {
    if specs != [] {
      SameNumbersSameStale(specs[1..], a, b);
    }
  }

  // Numbering the volumes and mirroring the first minor owes no more, and less
  // unless the definition was complete.
  lemma NumberingLowers(s: State, me: Replica, r: Replica)
    requires me.rd in s.definitions && Numbered(s, me.rd).Some? && r.specVolumes == me.specVolumes
    requires FirstMinor(Numbered(s, me.rd).value.volumes).Some? ==> r.statMinor == FirstMinor(Numbered(s, me.rd).value.volumes)
    ensures var d, e := s.definitions[me.rd], Numbered(s, me.rd).value;
            Owed(r, e) <= Owed(me, d) && (e != d ==> Owed(r, e) < Owed(me, d))
            && (e == d && FirstMinor(d.volumes).Some? && r.statMinor != me.statMinor ==> Owed(r, e) < Owed(me, d))
  {
    var d, e := s.definitions[me.rd], Numbered(s, me.rd).value;
    NumberedKeeps(s, me.rd);
    SameNumbersSameStale(me.specVolumes, d, e);
    SameNumbersSameUnseeded(me.specVolumes, d.volumes, e.volumes);
    CompleteMinors(d.volumes);
    CompleteMinors(e.volumes);
  }

  lemma AllocateLowers(s: State, name: string)
    requires name in s.replicas && AllocatePass(s, name).Some? && AllocatePass(s, name).value != s
    ensures Measure(AllocatePass(s, name).value, name) < Measure(s, name)
  {
    var me := s.replicas[name];
    var t := AllocatePass(s, name).value;
    var r := t.replicas[name];
    AllocatedReplica(s, name);
    AllocatedId(s, name);
    AllocatedPort(s, name);
    assert s.replicas[name := me] == s.replicas;
    if me.rd in s.definitions {
      assert s.definitions[me.rd := s.definitions[me.rd]] == s.definitions;
      NumberingLowers(s, me, r);
    }
  }

  // Projection

  lemma {:induction false} PruneRemovesStale(specs: seq<VolumeSpec>, d: Definition)
    ensures Stale(Pruned(specs, d), d) == 0
    ensures |Pruned(specs, d)| <= |specs| && (Pruned(specs, d) != specs ==> Stale(specs, d) > 0)
    decreases |specs|
  {
    if specs != [] {
      PruneRemovesStale(specs[1..], d);
      assert specs == [specs[0]] + specs[1..];
      if Declares(d, specs[0].number) {
        var p := Pruned(specs, d);
        assert p == [specs[0]] + Pruned(specs[1..], d);
        assert p[1..] == Pruned(specs[1..], d);
      } else {
        assert Pruned(specs, d) == Pruned(specs[1..], d);
      }
    }
  }

  lemma {:induction false} PruneKeepsSeeds(specs: seq<VolumeSpec>, d: Definition, number: int)
    requires Declares(d, number)
    ensures SeedSet(Pruned(specs, d), number) <==> SeedSet(specs, number)
    decreases |specs|
  {
    if specs != [] {
      PruneKeepsSeeds(specs[1..], d, number);
      SeedSetSplit([specs[0]], specs[1..], number);
      assert specs == [specs[0]] + specs[1..];
      var head := if Declares(d, specs[0].number) then [specs[0]] else [];
      SeedSetSplit(head, Pruned(specs[1..], d), number);
      assert SeedSet([specs[0]], number) ==> specs[0].number == number;
    }
  }

  lemma SeedSetSplit(a: seq<VolumeSpec>, b: seq<VolumeSpec>, number: int)
    ensures SeedSet(a + b, number) <==> SeedSet(a, number) || SeedSet(b, number)
  {
    if SeedSet(a, number) {
      var i :| 0 <= i < |a| && a[i].number == number && a[i].seed != "";
      assert (a + b)[i] == a[i];
    }
    if SeedSet(b, number) {
      var i :| 0 <= i < |b| && b[i].number == number && b[i].seed != "";
      assert (a + b)[|a| + i] == b[i];
    }
  }

  lemma {:induction false} UnseededMonotone(a: seq<VolumeSpec>, b: seq<VolumeSpec>, defs: seq<VolumeDefinition>)
    requires forall i | 0 <= i < |defs| :: SeedSet(a, defs[i].number) ==> SeedSet(b, defs[i].number)
    ensures Unseeded(b, defs) <= Unseeded(a, defs)
    ensures (exists i :: 0 <= i < |defs| && SeedSet(b, defs[i].number) && !SeedSet(a, defs[i].number)) ==>
              Unseeded(b, defs) < Unseeded(a, defs)
    decreases |defs|
  {
    if defs != [] {
      forall i | 0 <= i < |defs[1..]| ensures SeedSet(a, defs[1..][i].number) ==> SeedSet(b, defs[1..][i].number) {
        assert defs[1..][i] == defs[i + 1];
      }
      assert SeedSet(a, defs[0].number) ==> SeedSet(b, defs[0].number);
      UnseededMonotone(a, b, defs[1..]);
      if i :| 0 <= i < |defs| && SeedSet(b, defs[i].number) && !SeedSet(a, defs[i].number) {
        if i > 0 {
          assert defs[i] == defs[1..][i - 1];
        }
      }
    }
  }

  lemma {:induction false} SetSeedSets(specs: seq<VolumeSpec>, number: int, seed: string, other: int)
    requires seed != ""
    ensures SeedSet(SetSeed(specs, number, seed), number)
    ensures SeedSet(specs, other) ==> SeedSet(SetSeed(specs, number, seed), other)
    decreases |specs|
  {
    var r := SetSeed(specs, number, seed);
    if specs == [] {
      assert r[0].number == number && r[0].seed != "";
    } else if specs[0].number == number {
      assert r[0].number == number && r[0].seed != "";
      assert specs == [specs[0]] + specs[1..];
      SeedSetSplit([specs[0]], specs[1..], other);
      SeedSetSplit([specs[0].(seed := seed)], specs[1..], other);
      if SeedSet([specs[0]], other) {
        assert [specs[0].(seed := seed)][0].number == other;
      }
    } else {
      SetSeedSets(specs[1..], number, seed, other);
      assert specs == [specs[0]] + specs[1..];
      SeedSetSplit([specs[0]], specs[1..], other);
      SeedSetSplit([specs[0]], SetSeed(specs[1..], number, seed), other);
      SeedSetSplit([specs[0]], SetSeed(specs[1..], number, seed), number);
    }
  }

  lemma {:induction false} SetSeedNotStale(specs: seq<VolumeSpec>, number: int, seed: string, d: Definition)
    requires Declares(d, number)
    ensures Stale(SetSeed(specs, number, seed), d) == Stale(specs, d)
    decreases |specs|
  {
    var r := SetSeed(specs, number, seed);
    if specs == [] {
      assert r[1..] == [];
    } else if specs[0].number == number {
      assert r[1..] == specs[1..];
    } else {
      SetSeedNotStale(specs[1..], number, seed, d);
      assert r[1..] == SetSeed(specs[1..], number, seed);
    }
  }

  // Seeding a tail of the definition's volumes.
  lemma {:induction false} SeedingLowers(s: State, name: string, specs: seq<VolumeSpec>, d: Definition, k: nat)
    requires name in s.replicas && k <= |d.volumes|
    ensures var r := Seeded(s, name, specs, d.volumes[k..]);
            Stale(r, d) == Stale(specs, d)
            && (forall number :: SeedSet(specs, number) ==> SeedSet(r, number))
            && (r != specs ==> exists i :: k <= i < |d.volumes| && SeedSet(r, d.volumes[i].number) && !SeedSet(specs, d.volumes[i].number))
    decreases |d.volumes| - k
  {
    if k < |d.volumes| {
      var defs := d.volumes[k..];
      var number := d.volumes[k].number;
      var seed := PickSeed(s, name, number);
      assert defs[0] == d.volumes[k] && defs[1..] == d.volumes[k + 1..];
      var next := if SeedSet(specs, number) || seed == "" then specs else SetSeed(specs, number, seed);
      SeedingLowers(s, name, next, d, k + 1);
      if next != specs {
        forall other ensures SeedSet(specs, other) ==> SeedSet(next, other) {
          SetSeedSets(specs, number, seed, other);
        }
        SetSeedSets(specs, number, seed, number);
        SetSeedNotStale(specs, number, seed, d);
      }
    }
  }

  lemma ProjectLowers(day0: Day0, s: State, name: string)
    requires name in s.replicas && Project(day0, s, name) != s.replicas[name].specVolumes
    ensures s.replicas[name].rd in s.definitions
    ensures var me := s.replicas[name];
            Owed(me.(specVolumes := Project(day0, s, name)), s.definitions[me.rd]) < Owed(me, s.definitions[me.rd])
  {
    var me := s.replicas[name];
    var d := s.definitions[me.rd];
    var pruned := Pruned(me.specVolumes, d);
    var r := Project(day0, s, name);
    PruneRemovesStale(me.specVolumes, d);
    if pruned != me.specVolumes {
      forall i | 0 <= i < |d.volumes| ensures SeedSet(me.specVolumes, d.volumes[i].number) ==> SeedSet(r, d.volumes[i].number) {
        PruneKeepsSeeds(me.specVolumes, d, d.volumes[i].number);
      }
      UnseededMonotone(me.specVolumes, r, d.volumes);
    } else {
      assert d.volumes[0..] == d.volumes;
      SeedingLowers(s, name, me.specVolumes, d, 0);
      UnseededMonotone(me.specVolumes, r, d.volumes);
    }
  }

  lemma LatchLowers(me: Replica, d: Definition)
    requires !d.initialized
    ensures Owed(me, d.(initialized := true)) < Owed(me, d)
  {
    SameNumbersSameStale(me.specVolumes, d, d.(initialized := true));
  }

  // A replica edit that owes no more and settles one flag lowers the measure.
  lemma EditLowers(s: State, name: string, r: Replica, d: Definition)
    requires name in s.replicas && r.rd == s.replicas[name].rd
    requires r.rd in s.definitions ==> d == s.definitions[r.rd] && Owed(r, d) <= Owed(s.replicas[name], d)
    requires var me := s.replicas[name];
             r.specId == me.specId && r.statId == me.statId && r.specPort == me.specPort && r.statPort == me.statPort
             && r.legacyFinalizer == me.legacyFinalizer
    requires var me := s.replicas[name];
             Bit(r.skip.None?) + Bit(r.diskless) < Bit(me.skip.None?) + Bit(me.diskless)
    ensures Measure(Edit(s, name, r), name) < Measure(s, name)
  {
  }

  lemma ApplyLowers(day0: Day0, s: State, name: string)
    requires name in s.replicas && Apply(day0, s, name) != s
    ensures Measure(Apply(day0, s, name), name) < Measure(s, name)
  {
    var me := s.replicas[name];
    var specs := Project(day0, s, name);
    if specs != me.specVolumes {
      ProjectLowers(day0, s, name);
      assert Apply(day0, s, name) == Edit(s, name, me.(specVolumes := specs));
    } else if me.rd in s.definitions && !s.definitions[me.rd].initialized && AnyHoldsData(day0, s, me.rd, None, true) {
      LatchLowers(me, s.definitions[me.rd]);
    } else if me.rd in s.definitions && me.skip.None? {
      EditLowers(s, name, me.(skip := Some(!s.definitions[me.rd].initialized)), s.definitions[me.rd]);
    } else {
      var d := if me.rd in s.definitions then s.definitions[me.rd] else Definition([], None, false, None);
      EditLowers(s, name, me.(diskless := false, pool := FirstPool(s.pools, me.node)), d);
    }
  }

  /** Every pass that asks for another one lowers the measure. */
  lemma RequeueLowersMeasure(day0: Day0, s: State, name: string)
    requires Reconcile(day0, s, name).Done? && Reconcile(day0, s, name).requeue
    ensures Measure(Reconcile(day0, s, name).s, name) < Measure(s, name)
  {
    var me := s.replicas[name];
    if me.legacyFinalizer {
    } else if AllocatePass(s, name).value != s {
      AllocateLowers(s, name);
    } else {
      ApplyLowers(day0, s, name);
    }
  }

  /** The requeue loop: passes until one of them does not ask for another. */
  function Settle(day0: Day0, s: State, name: string): (p: Pass)
    ensures p.Done? ==> !p.requeue
    decreases Measure(s, name)
  {
    var p := Reconcile(day0, s, name);
    if p.Done? && p.requeue then
      RequeueLowersMeasure(day0, s, name);
      Settle(day0, p.s, name)
    else p
  }

  function Passes(day0: Day0, s: State, name: string): (k: nat)
    ensures k <= Measure(s, name) + 1
    decreases Measure(s, name)
  {
    var p := Reconcile(day0, s, name);
    if p.Done? && p.requeue then
      RequeueLowersMeasure(day0, s, name);
      1 + Passes(day0, p.s, name)
    else 1
  }

  /** A pass that does not requeue leaves nothing for the next one to write. */
  lemma QuietAfterLastPass(day0: Day0, s: State, name: string)
    requires Reconcile(day0, s, name).Done? && !Reconcile(day0, s, name).requeue
    ensures Reconcile(day0, Reconcile(day0, s, name).s, name) == Done(Reconcile(day0, s, name).s, false)
  {
    if name in s.replicas {
      var me := s.replicas[name];
      var t := Reconcile(day0, s, name).s;
      assert t.replicas[name := t.replicas[name]] == t.replicas;
    }
  }

  predicate Live(s: State, name: string)
  {
    name in s.replicas && !s.replicas[name].deleting && s.replicas[name].rd != "" && s.replicas[name].rd in s.definitions
  }

  /** What a settled replica looks like. */
  predicate Settled(day0: Day0, s: State, name: string)
    requires Live(s, name)
  {
    var me, d := s.replicas[name], s.definitions[s.replicas[name].rd];
    && me.specId.Some? && me.statId == me.specId && me.specPort.Some? && me.statPort == me.specPort && me.skip.Some?
    && Complete(d.volumes) && (FirstMinor(d.volumes).Some? ==> me.statMinor == FirstMinor(d.volumes))
    && (d.volumes != [] ==> Pruned(me.specVolumes, d) == me.specVolumes)
    && (!me.diskless && !AnyHoldsData(day0, s, me.rd, Some(name), false) ==>
          forall i | 0 <= i < |d.volumes| :: SeedSet(me.specVolumes, d.volumes[i].number) || PickSeed(s, name, d.volumes[i].number) == "")
    && (AnyHoldsData(day0, s, me.rd, None, true) ==> d.initialized)
    && (me.diskless && me.inUse && !me.tieBreaker ==> FirstPool(s.pools, me.node) == "")
  }

  // The replica has every identity it needs.
  predicate Provided(s: State, name: string)
    requires name in s.replicas
  {
    var me := s.replicas[name];
    me.specId.Some? && me.specPort.Some? && (me.rd in s.definitions ==> Complete(s.definitions[me.rd].volumes))
  }

  lemma AllocationProvides(s: State, name: string)
    requires name in s.replicas && AllocatePass(s, name).Some?
    ensures Provided(AllocatePass(s, name).value, name)
  {
    AllocatedReplica(s, name);
    AllocatedId(s, name);
    AllocatedPort(s, name);
    if s.replicas[name].rd in s.definitions {
      NumberedKeeps(s, s.replicas[name].rd);
    }
  }

  lemma FramedProvides(s: State, name: string, t: State)
    requires name in s.replicas && Provided(s, name) && Framed(s, name, t)
    ensures name in t.replicas && Provided(t, name)
  {
  }

  lemma PassProvides(day0: Day0, s: State, name: string)
    requires name in s.replicas && Provided(s, name)
    ensures var p := Reconcile(day0, s, name); p.Done? && name in p.s.replicas && Provided(p.s, name)
  {
    ExhaustedExactly(s, name);
    assert !Exhausted(s, name);
    PassFrame(day0, s, name);
    FramedProvides(s, name, Reconcile(day0, s, name).s);
  }

  // Once a replica has its identities no later pass of its loop fails.
  lemma {:induction false} ProvidedSettles(day0: Day0, s: State, name: string)
    requires name in s.replicas && Provided(s, name)
    ensures Settle(day0, s, name).Done?
    decreases Measure(s, name)
  {
    PassProvides(day0, s, name);
    var p := Reconcile(day0, s, name);
    if p.requeue {
      RequeueLowersMeasure(day0, s, name);
      ProvidedSettles(day0, p.s, name);
    }
  }

  // A replica that has to be provided for and cannot be.
  predicate Stuck(s: State, name: string)
  {
    && name in s.replicas && !s.replicas[name].deleting && s.replicas[name].rd != ""
    && !(s.replicas[name].applied && s.replicas[name].rd !in s.definitions)
    && Exhausted(s, name)
  }

  lemma SameNoMinor(s: State, t: State, rd: string)
    requires t.definitions == s.definitions && t.nodes == s.nodes && t.minorText == s.minorText && Hosts(t, rd) == Hosts(s, rd)
    ensures NoMinor(t, rd) == NoMinor(s, rd)
  {
    SameHostRange(s, t, Hosts(s, rd));
    assert TakenMinors(t, rd) == TakenMinors(s, rd);
  }

  lemma StrippedStuck(s: State, name: string)
    requires name in s.replicas
    ensures var t := Edit(s, name, s.replicas[name].(legacyFinalizer := false)); Stuck(t, name) == Stuck(s, name)
  {
    var t := Edit(s, name, s.replicas[name].(legacyFinalizer := false));
    var me := s.replicas[name];
    SameOthers(s, t, name);
    SameHosts(s, t, me.rd);
    SameNoMinor(s, t, me.rd);
  }

  lemma SameOthers(s: State, t: State, name: string)
    requires name in s.replicas && t.replicas.Keys == s.replicas.Keys && t.replicas[name].rd == s.replicas[name].rd
    requires forall n | n in s.replicas && n != name :: t.replicas[n] == s.replicas[n]
    ensures Occupied(t, name) == Occupied(s, name)
    ensures forall node :: PortsOnNode(t, node, name) == PortsOnNode(s, node, name)
  {
    assert forall id :: id in Occupied(s, name) <==> id in Occupied(t, name);
    forall node ensures PortsOnNode(t, node, name) == PortsOnNode(s, node, name) {
      assert forall port :: port in PortsOnNode(s, node, name) <==> port in PortsOnNode(t, node, name);
    }
  }

  lemma SameHosts(s: State, t: State, rd: string)
    requires t.replicas.Keys == s.replicas.Keys
    requires forall n | n in s.replicas :: t.replicas[n].rd == s.replicas[n].rd && t.replicas[n].node == s.replicas[n].node
    ensures Hosts(t, rd) == Hosts(s, rd)
  {
    forall h | h in Hosts(s, rd) ensures h in Hosts(t, rd) {
      var n :| n in s.replicas && s.replicas[n].rd == rd && s.replicas[n].node == h;
      assert n in t.replicas && t.replicas[n].rd == rd && t.replicas[n].node == h;
    }
    forall h | h in Hosts(t, rd) ensures h in Hosts(s, rd) {
      var n :| n in t.replicas && t.replicas[n].rd == rd && t.replicas[n].node == h;
      assert n in s.replicas && s.replicas[n].rd == rd && s.replicas[n].node == h;
    }
  }

  lemma {:induction false} SameHostRange(s: State, t: State, hosts: set<string>)
    requires t.nodes == s.nodes && t.minorText == s.minorText
    ensures HostRange(t, hosts) == HostRange(s, hosts)
    decreases hosts
  {
    if hosts != {} && hosts != {Least(hosts)} {
      SameHostRange(s, t, hosts - {Least(hosts)});
    }
  }

  /** The loop fails exactly when an id, port or minor pool is exhausted or its range
      malformed for a replica that has to be provided for. Otherwise it ends, after
      at most Measure + 1 passes, in a state the next pass leaves alone; for a live
      replica of an existing definition that state is settled. */
  lemma {:induction false} ReconcileConverges(day0: Day0, s: State, name: string)
    ensures var p := Settle(day0, s, name);
            (p.Failed? <==> Stuck(s, name))
            && (p.Done? ==> Reconcile(day0, p.s, name) == Done(p.s, false) && (Live(p.s, name) ==> Settled(day0, p.s, name)))
    decreases Measure(s, name)
  {
    FailsExactly(day0, s, name);
    var p := Reconcile(day0, s, name);
    if p.Done? && p.requeue {
      RequeueLowersMeasure(day0, s, name);
      ReconcileConverges(day0, p.s, name);
    } else if p.Done? {
      QuietAfterLastPass(day0, s, name);
      if Live(p.s, name) {
        QuietIsSettled(day0, p.s, name);
      }
    }
  }

  lemma {:induction false} FailsExactly(day0: Day0, s: State, name: string)
    ensures Settle(day0, s, name).Failed? <==> Stuck(s, name)
    decreases Measure(s, name)
  {
    var p := Reconcile(day0, s, name);
    if name in s.replicas {
      ExhaustedExactly(s, name);
      if p.Done? && p.requeue {
        RequeueLowersMeasure(day0, s, name);
        if s.replicas[name].legacyFinalizer {
          StrippedStuck(s, name);
          FailsExactly(day0, p.s, name);
        } else {
          AllocationProvides(s, name);
          if AllocatePass(s, name).value == s {
            PassProvides(day0, s, name);
          }
          ProvidedSettles(day0, p.s, name);
        }
      }
    }
  }

  lemma {:induction false} NothingToSeed(s: State, name: string, specs: seq<VolumeSpec>, d: Definition, k: nat)
    requires name in s.replicas && k <= |d.volumes|
    ensures Seeded(s, name, specs, d.volumes[k..]) == specs
            <==> forall i | k <= i < |d.volumes| :: SeedSet(specs, d.volumes[i].number) || PickSeed(s, name, d.volumes[i].number) == ""
    decreases |d.volumes| - k
  {
    if k < |d.volumes| {
      var number := d.volumes[k].number;
      var seed := PickSeed(s, name, number);
      assert d.volumes[k..][0] == d.volumes[k] && d.volumes[k..][1..] == d.volumes[k + 1..];
      if SeedSet(specs, number) || seed == "" {
        NothingToSeed(s, name, specs, d, k + 1);
      } else {
        SetSeedSets(specs, number, seed, number);
        SeedingLowers(s, name, SetSeed(specs, number, seed), d, k + 1);
      }
    }
  }

  /** Settled is exactly what the loop stops at. */
  lemma QuietExactlyWhenSettled(day0: Day0, s: State, name: string)
    requires Live(s, name)
    ensures Reconcile(day0, s, name) == Done(s, false) <==> Settled(day0, s, name) && !s.replicas[name].legacyFinalizer
  {
    if Reconcile(day0, s, name) == Done(s, false) {
      QuietIsSettled(day0, s, name);
    }
    if Settled(day0, s, name) && !s.replicas[name].legacyFinalizer {
      var me := s.replicas[name];
      var d := s.definitions[me.rd];
      assert s.replicas[name := me] == s.replicas && s.definitions[me.rd := d] == s.definitions;
      assert Identify(s, name) == Some(me) && Numbered(s, me.rd) == Some(d) && Mirrored(me, FirstMinor(d.volumes)) == me;
      assert d.volumes[0..] == d.volumes;
      NothingToSeed(s, name, me.specVolumes, d, 0);
      assert Project(day0, s, name) == me.specVolumes;
    }
  }

  lemma QuietIsSettled(day0: Day0, s: State, name: string)
    requires Live(s, name)
    requires Reconcile(day0, s, name) == Done(s, false)
    ensures Settled(day0, s, name)
  {
    var me := s.replicas[name];
    var d := s.definitions[me.rd];
    assert AllocatePass(s, name) == Some(s) && Apply(day0, s, name) == s;
    AllocatedPort(s, name);
    AllocatedId(s, name);
    AllocatedReplica(s, name);
    NumberedKeeps(s, me.rd);
    assert Numbered(s, me.rd) == Some(d);
    assert me == Mirrored(Identify(s, name).value, FirstMinor(d.volumes));
    assert Apply(day0, s, name).replicas[name].specVolumes == me.specVolumes;
    assert d.volumes[0..] == d.volumes;
    NothingToSeed(s, name, me.specVolumes, d, 0);
  }
}
