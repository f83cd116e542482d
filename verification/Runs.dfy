/**
 Runs: reconcile passes interleaved with everything else that writes the same
 objects (operators, satellites, deletions), one step at a time.
 */
module Runs {
  import opened Names
  import opened DrbdPool
  import opened Cluster

  datatype Step =
    | Pass(name: string)
    | Torn(name: string, specWritten: bool)
    | CreateReplica(name: string, replica: Replica)
    | MarkDeleted(name: string)
    | RemoveReplica(name: string)
    | Report(name: string, volumes: seq<VolumeStatus>, connections: seq<Option<int>>, inUse: bool, applied: bool)
    | SetFlags(name: string, diskless: bool, tieBreaker: bool)
    | CreateDefinition(rd: string, definition: Definition)
    | RemoveDefinition(rd: string)
    | AppendVolume(rd: string, number: int, sizeKib: int)
    | RemoveVolume(rd: string, index: nat)
    | Configure(nodes: map<string, Node>, portText: RangeText, minorText: RangeText, pools: seq<Pool>)

  function Edit(s: State, name: string, r: Replica): State
  {
    s.(replicas := s.replicas[name := r])
  }

  function WithoutVolume(d: Definition, index: nat): Definition
    requires index < |d.volumes|
  {
    d.(volumes := d.volumes[..index] + d.volumes[index + 1..])
  }

  // The pass gets as far as its allocation, which succeeds.
  predicate Allocates(s: State, name: string)
  {
    && name in s.replicas && !s.replicas[name].deleting && !s.replicas[name].legacyFinalizer && s.replicas[name].rd != ""
    && !(s.replicas[name].applied && s.replicas[name].rd !in s.definitions)
    && AllocatePass(s, name).Some?
  }

  // An allocation that dies between its patches: the definition is written first,
  // then the replica's Spec, then the mirror in its Status.
  function TornPass(s: State, name: string, specWritten: bool): State
  {
    if !Allocates(s, name) then s
    else
      var full, me := AllocatePass(s, name).value, s.replicas[name];
      var r := if specWritten then full.replicas[name].(statId := me.statId, statPort := me.statPort, statMinor := me.statMinor) else me;
      s.(definitions := full.definitions, replicas := s.replicas[name := r])
  }

  // A step on an object that does not exist, or a create over one that does,
  // is refused by the API server.
  function Next(day0: Day0, s: State, step: Step): State
  {
    match step
    case Pass(name) =>
      var p := Reconcile(day0, s, name);
      if p.Failed? then s else p.s
    case Torn(name, specWritten) => TornPass(s, name, specWritten)
    case CreateReplica(name, r) =>
      if name in s.replicas then s else Edit(s, name, r)
    case MarkDeleted(name) =>
      if name !in s.replicas then s else Edit(s, name, s.replicas[name].(deleting := true))
    case RemoveReplica(name) => s.(replicas := s.replicas - {name})
    case Report(name, volumes, connections, inUse, applied) =>
      if name !in s.replicas then s
      else Edit(s, name, s.replicas[name].(volumes := volumes, connections := connections, inUse := inUse, applied := applied))
    case SetFlags(name, diskless, tieBreaker) =>
      if name !in s.replicas then s else Edit(s, name, s.replicas[name].(diskless := diskless, tieBreaker := tieBreaker))
    case CreateDefinition(rd, d) =>
      if rd in s.definitions then s else s.(definitions := s.definitions[rd := d])
    case RemoveDefinition(rd) => s.(definitions := s.definitions - {rd})
    case AppendVolume(rd, number, sizeKib) =>
      if rd !in s.definitions then s
      else
        var d := s.definitions[rd];
        s.(definitions := s.definitions[rd := d.(volumes := d.volumes + [VolumeDefinition(number, sizeKib, None)])])
    case RemoveVolume(rd, index) =>
      if rd !in s.definitions || index >= |s.definitions[rd].volumes| then s
      else s.(definitions := s.definitions[rd := WithoutVolume(s.definitions[rd], index)])
    case Configure(nodes, portText, minorText, pools) =>
      s.(nodes := nodes, portText := portText, minorText := minorText, pools := pools)
  }

  function Run(day0: Day0, s: State, steps: seq<Step>): State
    decreases |steps|
  {
    if steps == [] then s else Run(day0, Next(day0, s, steps[0]), steps[1..])
  }

  // What one pass may touch: the replica it is for and its definition.

  predicate SetOnce<T(==)>(before: Option<T>, after: Option<T>)
  {
    before.Some? ==> after == before
  }

  // The settable-once part of a replica.
  predicate Settles(a: Replica, b: Replica)
  {
    a.rd == b.rd && a.node == b.node
    && SetOnce(a.specId, b.specId) && SetOnce(a.specPort, b.specPort) && SetOnce(a.skip, b.skip)
  }

  predicate Grown(a: Replica, b: Replica)
  {
    Settles(a, b) && a.volumes == b.volumes && a.connections == b.connections
  }

  predicate Numbers(a: seq<VolumeDefinition>, b: seq<VolumeDefinition>)
  {
    |a| == |b| && forall i | 0 <= i < |a| ::
      a[i].number == b[i].number && a[i].sizeKib == b[i].sizeKib && SetOnce(a[i].minor, b[i].minor)
  }

  predicate Kept(a: Definition, b: Definition)
  {
    Numbers(a.volumes, b.volumes) && a.baseMinor == b.baseMinor && a.preferredPort == b.preferredPort
    && (a.initialized ==> b.initialized)
  }

  predicate Framed(s: State, name: string, t: State)
  {
    && s.replicas.Keys == t.replicas.Keys && s.definitions.Keys == t.definitions.Keys
    && s.nodes == t.nodes && s.portText == t.portText && s.minorText == t.minorText && s.pools == t.pools
    && (forall n | n in s.replicas && n != name :: t.replicas[n] == s.replicas[n])
    && (name in s.replicas ==> Grown(s.replicas[name], t.replicas[name]))
    && (forall rd | rd in s.definitions ::
          Kept(s.definitions[rd], t.definitions[rd])
          && ((name in s.replicas && s.replicas[name].rd == rd) || t.definitions[rd] == s.definitions[rd]))
  }

  lemma {:induction false} FillKeeps(volumes: seq<VolumeDefinition>, taken: set<int>, range: Range)
    requires FillMinors(volumes, taken, range).Some?
    ensures Numbers(volumes, FillMinors(volumes, taken, range).value)
    ensures Complete(FillMinors(volumes, taken, range).value)
    decreases |volumes|
  {
    if volumes != [] {
      if volumes[0].minor.Some? {
        FillKeeps(volumes[1..], taken, range);
      } else {
        FillKeeps(volumes[1..], taken + {LowestFree(taken, range).value}, range);
      }
    }
  }

  lemma NumberedKeeps(s: State, rd: string)
    requires rd in s.definitions && Numbered(s, rd).Some?
    ensures Kept(s.definitions[rd], Numbered(s, rd).value)
    ensures Complete(Numbered(s, rd).value.volumes)
    ensures Numbered(s, rd).value.initialized == s.definitions[rd].initialized
  {
    var d := s.definitions[rd];
    if !Complete(d.volumes) {
      var b := BackfilledVolumes(d);
      FillKeeps(b, TakenMinors(s, rd) + SetMinors(b), HostRange(s, Hosts(s, rd)).value);
    }
  }

  lemma EditFrames(s: State, name: string, r: Replica)
    requires name in s.replicas && Grown(s.replicas[name], r)
    ensures Framed(s, name, Edit(s, name, r))
  {
  }

  lemma LatchFrames(s: State, name: string)
    requires name in s.replicas && s.replicas[name].rd in s.definitions
    ensures var rd := s.replicas[name].rd;
            Framed(s, name, s.(definitions := s.definitions[rd := s.definitions[rd].(initialized := true)]))
  {
  }

  lemma AllocateFrame(s: State, name: string)
    requires name in s.replicas && AllocatePass(s, name).Some?
    ensures Framed(s, name, AllocatePass(s, name).value)
  {
    var mine := Identify(s, name).value;
    if mine.rd in s.definitions {
      NumberedKeeps(s, mine.rd);
    } else {
      EditFrames(s, name, Mirrored(mine, None));
    }
  }

  lemma ApplyFrame(day0: Day0, s: State, name: string)
    requires name in s.replicas
    ensures Framed(s, name, Apply(day0, s, name))
  {
    var me := s.replicas[name];
    var specs := Project(day0, s, name);
    if specs != me.specVolumes {
      EditFrames(s, name, me.(specVolumes := specs));
    } else if me.rd in s.definitions && !s.definitions[me.rd].initialized && AnyHoldsData(day0, s, me.rd, None, true) {
      LatchFrames(s, name);
    } else if me.rd in s.definitions && me.skip.None? {
      EditFrames(s, name, me.(skip := Some(!s.definitions[me.rd].initialized)));
    } else if me.diskless && me.inUse && !me.tieBreaker && FirstPool(s.pools, me.node) != "" {
      EditFrames(s, name, me.(diskless := false, pool := FirstPool(s.pools, me.node)));
    } else {
      FrameReflexive(s, name);
    }
  }

  lemma FrameReflexive(s: State, name: string)
    ensures Framed(s, name, s)
  {
  }

  /** A pass touches its own replica and definition only, and there every
      identity, minor, stamp and the latch is settable once. */
  lemma PassFrame(day0: Day0, s: State, name: string)
    requires Reconcile(day0, s, name).Done?
    ensures Framed(s, name, Reconcile(day0, s, name).s)
  {
    if name in s.replicas {
      var me := s.replicas[name];
      if me.deleting || me.legacyFinalizer {
        EditFrames(s, name, me.(legacyFinalizer := false));
      } else if me.rd == "" {
      } else if me.applied && me.rd !in s.definitions {
        EditFrames(s, name, me.(deleting := true));
      } else {
        AllocateFrame(s, name);
        ApplyFrame(day0, s, name);
      }
    }
  }

  lemma TornFrame(s: State, name: string, specWritten: bool)
    ensures Framed(s, name, TornPass(s, name, specWritten))
  {
    if Allocates(s, name) {
      AllocateFrame(s, name);
      assert s.replicas[name := s.replicas[name]] == s.replicas;
    } else {
      FrameReflexive(s, name);
    }
  }
}
