/**
 Node-ids and ports over whole runs: unique, settable once, never a live slot.
 */
module Identity {
  import opened Names
  import opened DrbdPool
  import opened Cluster
  import opened Runs

  predicate Apart(x: Option<int>, y: Option<int>)
  {
    x.Some? && y.Some? ==> x != y
  }

  // Node-ids

  /** No two replicas of one definition answer to the same node-id. */
  predicate IdsApart(s: State)
  {
    forall a, b | a in s.replicas && b in s.replicas && a != b && s.replicas[a].rd == s.replicas[b].rd ::
      Apart(EffectiveId(s.replicas[a]), EffectiveId(s.replicas[b]))
  }

  // A replica restored with an identity must not reuse a sibling's.
  predicate IdsFit(s: State, step: Step)
  {
    step.CreateReplica? ==>
      forall n | n in s.replicas && s.replicas[n].rd == step.replica.rd ::
        Apart(EffectiveId(step.replica), EffectiveId(s.replicas[n]))
  }

  ghost predicate AllFit(day0: Day0, s: State, steps: seq<Step>, fits: (State, Step) -> bool)
    decreases |steps|
  {
    steps == [] || (fits(s, steps[0]) && AllFit(day0, Next(day0, s, steps[0]), steps[1..], fits))
  }

  /** An allocation keeps the id a replica already answers to; a fresh one is
      the lowest the siblings neither hold nor see as a live peer slot. */
  lemma AllocatedId(s: State, name: string)
    requires name in s.replicas && AllocatePass(s, name).Some?
    ensures var id := AllocatePass(s, name).value.replicas[name].specId;
            if EffectiveId(s.replicas[name]).Some? then id == EffectiveId(s.replicas[name])
            else id.Some? && IsLowestFree(Occupied(s, name), Range(0, MAX_PEERS - 1), id.value)
  {
    AllocatedReplica(s, name);
  }

  lemma AllocatedReplica(s: State, name: string)
    requires name in s.replicas && AllocatePass(s, name).Some?
    ensures Identify(s, name).Some?
    ensures var mine, r := Identify(s, name).value, AllocatePass(s, name).value.replicas[name];
            exists m :: r == Mirrored(mine, m)
  {
  }

  lemma PassIds(day0: Day0, s: State, name: string)
    requires name in s.replicas && Reconcile(day0, s, name).Done?
    ensures var before, after := EffectiveId(s.replicas[name]), EffectiveId(Reconcile(day0, s, name).s.replicas[name]);
            after == before || (before.None? && after.Some? && after.value !in Occupied(s, name))
  {
    var me := s.replicas[name];
    if !me.deleting && !me.legacyFinalizer && me.rd != "" && !(me.applied && me.rd !in s.definitions) {
      AllocatedId(s, name);
    }
  }

  lemma FrameKeepsIdsApart(s: State, name: string, t: State)
    requires IdsApart(s) && Framed(s, name, t)
    requires name in s.replicas ==>
               var before, after := EffectiveId(s.replicas[name]), EffectiveId(t.replicas[name]);
               after == before || (before.None? && after.Some? && after.value !in Occupied(s, name))
    ensures IdsApart(t)
  {
    if name in s.replicas {
      forall n | n in s.replicas && n != name && s.replicas[n].rd == s.replicas[name].rd
        ensures EffectiveId(s.replicas[n]).Some? ==> EffectiveId(s.replicas[n]).value in Occupied(s, name)
      {
        if EffectiveId(s.replicas[n]).Some? {
          var id := EffectiveId(s.replicas[n]).value;
          assert n in s.replicas && id in Slots(s.replicas[n]);
        }
      }
    }
  }

  lemma PassKeepsIdsApart(day0: Day0, s: State, name: string)
    requires IdsApart(s) && Reconcile(day0, s, name).Done?
    ensures IdsApart(Reconcile(day0, s, name).s)
  {
    PassFrame(day0, s, name);
    if name in s.replicas {
      PassIds(day0, s, name);
    }
    FrameKeepsIdsApart(s, name, Reconcile(day0, s, name).s);
  }

  lemma TornKeepsIdsApart(s: State, name: string, specWritten: bool)
    requires IdsApart(s)
    ensures IdsApart(TornPass(s, name, specWritten))
  {
    TornFrame(s, name, specWritten);
    if Allocates(s, name) {
      AllocatedId(s, name);
    }
    FrameKeepsIdsApart(s, name, TornPass(s, name, specWritten));
  }

  lemma EnvironmentKeepsIdsApart(day0: Day0, s: State, step: Step)
    requires !step.Pass? && !step.Torn? && IdsApart(s) && IdsFit(s, step)
    ensures IdsApart(Next(day0, s, step))
  {
  }

  lemma StepKeepsIdsApart(day0: Day0, s: State, step: Step)
    requires IdsApart(s) && IdsFit(s, step)
    ensures IdsApart(Next(day0, s, step))
  {
    if step.Pass? {
      if Reconcile(day0, s, step.name).Done? {
        PassKeepsIdsApart(day0, s, step.name);
      }
    } else if step.Torn? {
      TornKeepsIdsApart(s, step.name, step.specWritten);
    } else {
      EnvironmentKeepsIdsApart(day0, s, step);
    }
  }

  /** Over every interleaving the node-ids of a definition stay pairwise distinct. */
  lemma {:induction false} NodeIdsStayApart(day0: Day0, s: State, steps: seq<Step>)
    requires IdsApart(s) && AllFit(day0, s, steps, IdsFit)
    ensures IdsApart(Run(day0, s, steps))
    decreases |steps|
  {
    if steps != [] {
      StepKeepsIdsApart(day0, s, steps[0]);
      NodeIdsStayApart(day0, Next(day0, s, steps[0]), steps[1..]);
    }
  }

  lemma StepSettles(day0: Day0, s: State, step: Step, name: string)
    requires name in s.replicas && step != RemoveReplica(name)
    ensures name in Next(day0, s, step).replicas
    ensures Settles(s.replicas[name], Next(day0, s, step).replicas[name])
  {
    if step.Pass? {
      if Reconcile(day0, s, step.name).Done? {
        PassFrame(day0, s, step.name);
        FrameSettles(s, step.name, Reconcile(day0, s, step.name).s, name);
      }
    } else if step.Torn? {
      TornFrame(s, step.name, step.specWritten);
      FrameSettles(s, step.name, TornPass(s, step.name, step.specWritten), name);
    }
  }

  lemma FrameSettles(s: State, changed: string, t: State, name: string)
    requires name in s.replicas && Framed(s, changed, t)
    ensures name in t.replicas && Settles(s.replicas[name], t.replicas[name])
  {
  }

  /** A set node-id, port or skip stamp outlives every run that does not delete
      the replica. */
  lemma {:induction false} IdentitiesSettleOnce(day0: Day0, s: State, steps: seq<Step>, name: string)
    requires name in s.replicas && RemoveReplica(name) !in steps
    ensures name in Run(day0, s, steps).replicas
    ensures Settles(s.replicas[name], Run(day0, s, steps).replicas[name])
    decreases |steps|
  {
    if steps != [] {
      assert steps[0] in steps;
      StepSettles(day0, s, steps[0], name);
      IdentitiesSettleOnce(day0, Next(day0, s, steps[0]), steps[1..], name);
    }
  }

  // Ports

  predicate PortsApart(s: State)
  {
    forall a, b | a in s.replicas && b in s.replicas && a != b && s.replicas[a].node == s.replicas[b].node ::
      Apart(s.replicas[a].specPort, s.replicas[b].specPort)
  }

  function EffectivePort(r: Replica): Option<int>
  {
    if r.specPort.Some? then r.specPort else r.statPort
  }

  predicate EffectivePortsApart(s: State)
  {
    forall a, b | a in s.replicas && b in s.replicas && a != b && s.replicas[a].node == s.replicas[b].node ::
      Apart(EffectivePort(s.replicas[a]), EffectivePort(s.replicas[b]))
  }

  // A port known from Status alone, which the next pass will copy into Spec.
  predicate AwaitsBackfill(r: Replica)
  {
    r.specPort.None? && r.statPort.Some?
  }

  predicate Migrated(s: State)
  {
    forall n | n in s.replicas :: !AwaitsBackfill(s.replicas[n])
  }

  predicate PortsFit(s: State, step: Step)
  {
    step.CreateReplica? ==>
      !AwaitsBackfill(step.replica)
      && forall n | n in s.replicas && s.replicas[n].node == step.replica.node ::
           Apart(step.replica.specPort, s.replicas[n].specPort)
  }

  lemma AllocatedPort(s: State, name: string)
    requires name in s.replicas && AllocatePass(s, name).Some?
    ensures var me, r := s.replicas[name], AllocatePass(s, name).value.replicas[name];
            r.specPort.Some? && r.statPort == r.specPort
            && if EffectivePort(me).Some? then r.specPort == EffectivePort(me)
               else r.specPort == PickPort(s, name)
                    && Free(PortsOnNode(s, me.node, name), PortRange(s, me.node).value, r.specPort.value)
  {
    AllocatedReplica(s, name);
  }

  lemma PassPorts(day0: Day0, s: State, name: string)
    requires name in s.replicas && Migrated(s) && Reconcile(day0, s, name).Done?
    ensures var me, r := s.replicas[name], Reconcile(day0, s, name).s.replicas[name];
            !AwaitsBackfill(r)
            && (r.specPort == me.specPort
                || (me.specPort.None? && r.specPort.Some? && r.specPort.value !in PortsOnNode(s, me.node, name)))
  {
    var me := s.replicas[name];
    if !me.deleting && !me.legacyFinalizer && me.rd != "" && !(me.applied && me.rd !in s.definitions) {
      AllocatedPort(s, name);
    }
  }

  lemma FrameKeepsPortsApart(s: State, name: string, t: State)
    requires PortsApart(s) && Migrated(s) && Framed(s, name, t)
    requires name in s.replicas ==>
               var me, r := s.replicas[name], t.replicas[name];
               !AwaitsBackfill(r)
               && (r.specPort == me.specPort
                   || (me.specPort.None? && r.specPort.Some? && r.specPort.value !in PortsOnNode(s, me.node, name)))
    ensures PortsApart(t) && Migrated(t)
  {
    if name in s.replicas {
      forall n | n in s.replicas && n != name && s.replicas[n].node == s.replicas[name].node && s.replicas[n].specPort.Some?
        ensures s.replicas[n].specPort.value in PortsOnNode(s, s.replicas[name].node, name)
      {
      }
    }
  }

  lemma TornKeepsPortsApart(s: State, name: string, specWritten: bool)
    requires PortsApart(s) && Migrated(s)
    ensures PortsApart(TornPass(s, name, specWritten)) && Migrated(TornPass(s, name, specWritten))
  {
    TornFrame(s, name, specWritten);
    if Allocates(s, name) {
      AllocatedPort(s, name);
    }
    FrameKeepsPortsApart(s, name, TornPass(s, name, specWritten));
  }

  lemma StepKeepsPortsApart(day0: Day0, s: State, step: Step)
    requires PortsApart(s) && Migrated(s) && PortsFit(s, step)
    ensures PortsApart(Next(day0, s, step)) && Migrated(Next(day0, s, step))
  {
    if step.Pass? {
      if Reconcile(day0, s, step.name).Done? {
        PassFrame(day0, s, step.name);
        if step.name in s.replicas {
          PassPorts(day0, s, step.name);
        }
        FrameKeepsPortsApart(s, step.name, Reconcile(day0, s, step.name).s);
      }
    } else if step.Torn? {
      TornKeepsPortsApart(s, step.name, step.specWritten);
    } else {
      EnvironmentKeepsPortsApart(day0, s, step);
    }
  }

  lemma EnvironmentKeepsPortsApart(day0: Day0, s: State, step: Step)
    requires !step.Pass? && !step.Torn? && PortsApart(s) && Migrated(s) && PortsFit(s, step)
    ensures PortsApart(Next(day0, s, step)) && Migrated(Next(day0, s, step))
  {
  }

  /** Once every replica is migrated, ports stay distinct per node over every run. */
  lemma {:induction false} PortsStayApart(day0: Day0, s: State, steps: seq<Step>)
    requires PortsApart(s) && Migrated(s) && AllFit(day0, s, steps, PortsFit)
    ensures PortsApart(Run(day0, s, steps)) && Migrated(Run(day0, s, steps))
    decreases |steps|
  {
    if steps != [] {
      StepKeepsPortsApart(day0, s, steps[0]);
      PortsStayApart(day0, Next(day0, s, steps[0]), steps[1..]);
    }
  }

  // Ports on the node that a later backfill will claim.
  function PendingPorts(s: State, node: string, name: string): set<int>
  {
    set n | n in s.replicas && n != name && s.replicas[n].node == node
            && AwaitsBackfill(s.replicas[n]) :: s.replicas[n].statPort.value
  }

  lemma FreshPortHits(s: State, name: string)
    requires name in s.replicas && EffectivePort(s.replicas[name]).None? && AllocatePass(s, name).Some?
    requires EffectivePortsApart(s)
    ensures EffectivePortsApart(AllocatePass(s, name).value)
            <==> PickPort(s, name).value !in PendingPorts(s, s.replicas[name].node, name)
  {
    var me := s.replicas[name];
    var t := AllocatePass(s, name).value;
    AllocatedPort(s, name);
    AllocateFrame(s, name);
    var port := PickPort(s, name).value;
    assert EffectivePort(t.replicas[name]) == Some(port);
    if port in PendingPorts(s, me.node, name) {
      var n :| n in s.replicas && n != name && s.replicas[n].node == me.node
               && AwaitsBackfill(s.replicas[n]) && s.replicas[n].statPort.value == port;
      assert EffectivePort(t.replicas[n]) == Some(port);
      assert !Apart(EffectivePort(t.replicas[n]), EffectivePort(t.replicas[name]));
    } else {
      forall n | n in s.replicas && n != name && s.replicas[n].node == me.node
        ensures Apart(EffectivePort(s.replicas[n]), Some(port))
      {
        if s.replicas[n].specPort.Some? {
          assert s.replicas[n].specPort.value in PortsOnNode(s, me.node, name);
        } else if s.replicas[n].statPort.Some? {
          assert s.replicas[n].statPort.value in PendingPorts(s, me.node, name);
        }
      }
    }
  }

  // The definition's preferred port, when it is free in Spec on the replica's node.
  predicate PrefersFree(s: State, name: string)
    requires name in s.replicas && PortRange(s, s.replicas[name].node).Some?
  {
    var me := s.replicas[name];
    me.rd in s.definitions && s.definitions[me.rd].preferredPort.Some?
    && Free(PortsOnNode(s, me.node, name), PortRange(s, me.node).value, s.definitions[me.rd].preferredPort.value)
  }

  /** Before the migration is over a fresh port is safe exactly when no replica on the
      node is still waiting to copy from Status the preferred port, if that one is
      free in Spec, or else the lowest port free in Spec. */
  lemma FreshPortSafeExactly(s: State, name: string)
    requires name in s.replicas && EffectivePort(s.replicas[name]).None? && AllocatePass(s, name).Some?
    requires EffectivePortsApart(s)
    ensures PortRange(s, s.replicas[name].node).Some?
    ensures var me := s.replicas[name];
            var taken, range := PortsOnNode(s, me.node, name), PortRange(s, me.node).value;
            EffectivePortsApart(AllocatePass(s, name).value)
            <==> if PrefersFree(s, name) then s.definitions[me.rd].preferredPort.value !in PendingPorts(s, me.node, name)
                 else forall p | p in PendingPorts(s, me.node, name) :: !IsLowestFree(taken, range, p)
  {
    FreshPortHits(s, name);
    var me := s.replicas[name];
    var taken, range := PortsOnNode(s, me.node, name), PortRange(s, me.node).value;
    if !PrefersFree(s, name) {
      forall p | p in PendingPorts(s, me.node, name) && IsLowestFree(taken, range, p) ensures PickPort(s, name) == Some(p) {
        LowestFreeUnique(taken, range, p);
      }
    }
  }

  function Blank(rd: string, node: string): Replica
  {
    Replica(rd, node, false, false, false, false, false, false, "", None, None, None, [], None, None, None, [], [])
  }

  /** Two replicas on one node, one with its port still in Status only: the
      fresh allocation cannot see that port, and the later backfill collides. */
  lemma BackfillCanCollide(day0: Day0) returns (s: State, steps: seq<Step>)
    ensures PortsApart(s) && EffectivePortsApart(s) && AllFit(day0, s, steps, PortsFit)
    ensures !PortsApart(Run(day0, s, steps))
  {
    var before := Blank("x", "n").(statPort := Some(PORT_MIN));
    var unset := Blank("y", "n");
    s := State(map["a" := before, "b" := unset], map[], map[], Unset, Unset, []);
    steps := [Pass("b"), Pass("a")];
    assert PortsOnNode(s, "n", "b") == {};
    assert Occupied(s, "b") == {};
    assert AllocatePass(s, "b").value.replicas["b"].specPort == Some(PORT_MIN);
    var s1 := Next(day0, s, steps[0]);
    assert s1 == AllocatePass(s, "b").value;
    assert s1.replicas["a"] == before;
    assert Occupied(s1, "a") == {};
    assert AllocatePass(s1, "a").value.replicas["a"].specPort == Some(PORT_MIN);
    var s2 := Next(day0, s1, steps[1]);
    assert s2 == AllocatePass(s1, "a").value;
    assert steps[1..] == [Pass("a")] && steps[1..][1..] == [];
    assert Run(day0, s, steps) == s2;
    assert !Apart(s2.replicas["a"].specPort, s2.replicas["b"].specPort);
  }
}
