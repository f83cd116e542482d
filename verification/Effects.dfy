/**
 What one pass over a replica does, said on the fields of the objects alone: the
 identities it hands out, the latch, the seeds, the pruning and the promotion.
 */
module Effects {
  import opened Names
  import opened DrbdPool
  import opened Cluster
  import opened Runs
  import opened Identity
  import opened Exhaustion
  import opened Minors
  import opened Latch
  import opened Converge

  // Ranges

  /** The range of a node: none when the cluster's text is malformed; else what is pinned
      on the node, else its text if that parses, else the cluster's text, else the
      default. */
  lemma PortRangeIs(s: State, node: string)
    ensures PortRange(s, node) ==
            if s.portText.Malformed? then None
            else
              var common := if s.portText.Parsed? then s.portText.range else Range(20000, 20999);
              if node !in s.nodes then Some(common)
              else if s.nodes[node].portRange.Some? then s.nodes[node].portRange
              else if s.nodes[node].portText.Parsed? then Some(s.nodes[node].portText.range)
              else if s.nodes[node].portText.Malformed? then None
              else Some(common)
  {
  }

  lemma MinorRangeIs(s: State, node: string)
    ensures MinorRange(s, node) ==
            if s.minorText.Malformed? then None
            else
              var common := if s.minorText.Parsed? then s.minorText.range else Range(20000, 65535);
              if node !in s.nodes then Some(common)
              else if s.nodes[node].minorRange.Some? then s.nodes[node].minorRange
              else if s.nodes[node].minorText.Parsed? then Some(s.nodes[node].minorText.range)
              else if s.nodes[node].minorText.Malformed? then None
              else Some(common)
  {
  }

  // Node-ids

  // The replica holds the id, in Spec or, before its backfill, in Status, or reports
  // it as the slot of a live peer.
  predicate Shows(r: Replica, id: int)
  {
    r.specId == Some(id) || (r.specId == None && r.statId == Some(id))
    || exists j | 0 <= j < |r.connections| :: r.connections[j] == Some(id)
  }

  predicate SiblingShows(s: State, name: string, id: int)
    requires name in s.replicas
  {
    exists n | n in s.replicas :: n != name && s.replicas[n].rd == s.replicas[name].rd && Shows(s.replicas[n], id)
  }

  lemma OccupiedShows(s: State, name: string, id: int)
    requires name in s.replicas
    ensures id in Occupied(s, name) <==> SiblingShows(s, name, id)
  {
    if id in Occupied(s, name) {
      var n :| n in s.replicas && n != name && s.replicas[n].rd == s.replicas[name].rd && id in Slots(s.replicas[n]);
      assert Shows(s.replicas[n], id);
    }
    if SiblingShows(s, name, id) {
      var n :| n in s.replicas && n != name && s.replicas[n].rd == s.replicas[name].rd && Shows(s.replicas[n], id);
      assert id in Slots(s.replicas[n]);
    }
  }

  /** The node-id after an allocation: what was in Spec, else what was in Status, else
      the lowest of 0 to 15 that no sibling holds or still sees as a live peer slot.
      Status mirrors it. */
  lemma IdGiven(s: State, name: string)
    requires name in s.replicas && AllocatePass(s, name).Some?
    ensures var me, r := s.replicas[name], AllocatePass(s, name).value.replicas[name];
            r.specId.Some? && r.statId == r.specId
            && (me.specId.Some? ==> r.specId == me.specId)
            && (me.specId.None? && me.statId.Some? ==> r.specId == me.statId)
            && (me.specId.None? && me.statId.None? ==>
                  0 <= r.specId.value <= 15 && !SiblingShows(s, name, r.specId.value)
                  && forall u | 0 <= u < r.specId.value :: SiblingShows(s, name, u))
  {
    AllocatedReplica(s, name);
    AllocatedId(s, name);
    var r := AllocatePass(s, name).value.replicas[name];
    OccupiedShows(s, name, r.specId.value);
    forall u | 0 <= u < r.specId.value ensures u in Occupied(s, name) <==> SiblingShows(s, name, u) {
      OccupiedShows(s, name, u);
    }
  }

  // Ports

  predicate PortHeld(s: State, name: string, port: int)
    requires name in s.replicas
  {
    exists n | n in s.replicas :: n != name && s.replicas[n].node == s.replicas[name].node && s.replicas[n].specPort == Some(port)
  }

  /** The port after an allocation: what was in Spec, else what was in Status, else the
      definition's preferred one if it is in the node's range and no other replica there
      holds it in Spec, else the lowest such one. Status mirrors it. */
  lemma PortGiven(s: State, name: string)
    requires name in s.replicas && AllocatePass(s, name).Some?
    ensures var me, r := s.replicas[name], AllocatePass(s, name).value.replicas[name];
            r.specPort.Some? && r.statPort == r.specPort
            && (me.specPort.Some? ==> r.specPort == me.specPort)
            && (me.specPort.None? && me.statPort.Some? ==> r.specPort == me.statPort)
            && (me.specPort.None? && me.statPort.None? ==>
                  PortRange(s, me.node).Some?
                  && var range, p := PortRange(s, me.node).value, r.specPort.value;
                     range.low <= p <= range.high && !PortHeld(s, name, p)
                     && var preferred := if me.rd in s.definitions then s.definitions[me.rd].preferredPort else None;
                        if preferred.Some? && range.low <= preferred.value <= range.high && !PortHeld(s, name, preferred.value)
                        then p == preferred.value
                        else forall u | range.low <= u < p :: PortHeld(s, name, u))
  {
    AllocatedPort(s, name);
    var me := s.replicas[name];
    forall u ensures u in PortsOnNode(s, me.node, name) <==> PortHeld(s, name, u) {
      HeldOnNode(s, name, u);
    }
  }

  lemma HeldOnNode(s: State, name: string, u: int)
    requires name in s.replicas
    ensures u in PortsOnNode(s, s.replicas[name].node, name) <==> PortHeld(s, name, u)
  {
    if PortHeld(s, name, u) {
      var n :| n in s.replicas && n != name && s.replicas[n].node == s.replicas[name].node && s.replicas[n].specPort == Some(u);
      assert s.replicas[n].specPort.value == u;
    }
  }

  // Minors

  // A definition keeps a minor from the others: one of its volumes has it, or none has
  // any and it lies in the block its legacy base opens, one minor for each volume and
  // one at least.
  predicate Keeps(d: Definition, m: int)
  {
    (exists i | 0 <= i < |d.volumes| :: d.volumes[i].minor == Some(m))
    || ((forall i | 0 <= i < |d.volumes| :: d.volumes[i].minor == None)
        && d.baseMinor.Some? && d.baseMinor.value <= m < d.baseMinor.value + (if d.volumes == [] then 1 else |d.volumes|))
  }

  predicate OthersKeep(s: State, rd: string, m: int)
  {
    exists x | x in s.definitions :: x != rd && Keeps(s.definitions[x], m)
  }

  // Every node with a replica of the definition can serve the minor; with no replica
  // the default range decides.
  predicate HostsServe(s: State, rd: string, m: int)
  {
    if forall n | n in s.replicas :: s.replicas[n].rd != rd then 20000 <= m <= 65535
    else forall n | n in s.replicas && s.replicas[n].rd == rd ::
           MinorRange(s, s.replicas[n].node).Some?
           && MinorRange(s, s.replicas[n].node).value.low <= m <= MinorRange(s, s.replicas[n].node).value.high
  }

  lemma KeepsReserved(d: Definition, m: int)
    ensures Keeps(d, m) <==> m in Reserved(d)
  {
    if AnyMinorSet(d) {
      var i :| 0 <= i < |d.volumes| && d.volumes[i].minor.Some?;
      assert d.volumes[i].minor != None;
    }
    if m in SetMinors(d.volumes) {
      var i :| 0 <= i < |d.volumes| && d.volumes[i].minor.Some? && d.volumes[i].minor.value == m;
      assert d.volumes[i].minor == Some(m);
    }
    if exists i | 0 <= i < |d.volumes| :: d.volumes[i].minor == Some(m) {
      var i :| 0 <= i < |d.volumes| && d.volumes[i].minor == Some(m);
      assert d.volumes[i].minor.value in SetMinors(d.volumes);
    }
  }

  lemma OthersTaken(s: State, rd: string, m: int)
    ensures OthersKeep(s, rd, m) <==> m in TakenMinors(s, rd)
  {
    forall x | x in s.definitions ensures Keeps(s.definitions[x], m) <==> m in Reserved(s.definitions[x]) {
      KeepsReserved(s.definitions[x], m);
    }
  }

  lemma HostsServeRange(s: State, rd: string, m: int)
    requires HostRange(s, Hosts(s, rd)).Some?
    ensures HostsServe(s, rd, m) <==> Within(HostRange(s, Hosts(s, rd)).value, m)
  {
    var hosts := Hosts(s, rd);
    if forall n | n in s.replicas :: s.replicas[n].rd != rd {
      assert hosts == {};
    } else {
      var n :| n in s.replicas && s.replicas[n].rd == rd;
      assert s.replicas[n].node in hosts;
      HostRangeExact(s, hosts);
      forall n | n in s.replicas && s.replicas[n].rd == rd ensures MinorRange(s, s.replicas[n].node).Some? {
        assert s.replicas[n].node in hosts;
      }
      if HostsServe(s, rd, m) {
        forall h | h in hosts ensures Within(MinorRange(s, h).value, m) {
          var k :| k in s.replicas && s.replicas[k].rd == rd && s.replicas[k].node == h;
        }
      }
      if Within(HostRange(s, hosts).value, m) {
        forall k | k in s.replicas && s.replicas[k].rd == rd
          ensures Within(MinorRange(s, s.replicas[k].node).value, m)
        {
          assert s.replicas[k].node in hosts;
        }
      }
    }
  }

  /** The common range fails exactly when the range of some node with a replica of the
      definition does. */
  lemma RangeFailsExactly(s: State, rd: string)
    ensures HostRange(s, Hosts(s, rd)).None?
            <==> exists n | n in s.replicas :: s.replicas[n].rd == rd && MinorRange(s, s.replicas[n].node).None?
  {
    var hosts := Hosts(s, rd);
    if hosts != {} {
      HostRangeExact(s, hosts);
      if HostRange(s, hosts).None? {
        var h :| h in hosts && MinorRange(s, h).None?;
        var n :| n in s.replicas && s.replicas[n].rd == rd && s.replicas[n].node == h;
      }
    }
    if exists n | n in s.replicas :: s.replicas[n].rd == rd && MinorRange(s, s.replicas[n].node).None? {
      var n :| n in s.replicas && s.replicas[n].rd == rd && MinorRange(s, s.replicas[n].node).None?;
      assert s.replicas[n].node in hosts;
    }
  }

  /** The minors after a numbering: set ones stay; if none was set and there is a legacy
      base, base + volume number; any other is one that every host can serve and no other
      definition keeps, and every lower such one went to a volume of this definition. */
  lemma MinorGiven(s: State, rd: string, i: nat)
    requires rd in s.definitions && Numbered(s, rd).Some? && ClaimsApart(s.definitions[rd]) && i < |s.definitions[rd].volumes|
    ensures var d, e := s.definitions[rd], Numbered(s, rd).value;
            |e.volumes| == |d.volumes| && e.volumes[i].minor.Some?
            && e.volumes[i].number == d.volumes[i].number && e.volumes[i].sizeKib == d.volumes[i].sizeKib
            && (d.volumes[i].minor.Some? ==> e.volumes[i].minor == d.volumes[i].minor)
            && ((forall j | 0 <= j < |d.volumes| :: d.volumes[j].minor == None) && d.baseMinor.Some? ==>
                  e.volumes[i].minor == Some(d.baseMinor.value + d.volumes[i].number))
            && (d.volumes[i].minor == None
                && (d.baseMinor.None? || exists j | 0 <= j < |d.volumes| :: d.volumes[j].minor != None) ==>
                  var m := e.volumes[i].minor.value;
                  HostsServe(s, rd, m) && !OthersKeep(s, rd, m)
                  && forall u | u < m && HostsServe(s, rd, u) ::
                       OthersKeep(s, rd, u) || exists j | 0 <= j < |e.volumes| :: e.volumes[j].minor == Some(u))
  {
    var d, e := s.definitions[rd], Numbered(s, rd).value;
    NumberedClaims(s, rd);
    NumberedKeeps(s, rd);
    assert AnyMinorSet(d) <==> exists j | 0 <= j < |d.volumes| :: d.volumes[j].minor != None;
    if Claim(d, i).None? {
      var m := e.volumes[i].minor.value;
      OthersTaken(s, rd, m);
      HostsServeRange(s, rd, m);
      forall u | u < m && HostsServe(s, rd, u)
        ensures OthersKeep(s, rd, u) || exists j | 0 <= j < |e.volumes| :: e.volumes[j].minor == Some(u)
      {
        LowerIsGone(s, rd, i, u);
      }
    }
  }

  lemma LowerIsGone(s: State, rd: string, i: nat, u: int)
    requires rd in s.definitions && Numbered(s, rd).Some? && ClaimsApart(s.definitions[rd]) && i < |s.definitions[rd].volumes|
    requires Claim(s.definitions[rd], i).None? && HostsServe(s, rd, u)
    requires var e := Numbered(s, rd).value; i < |e.volumes| && e.volumes[i].minor.Some? && u < e.volumes[i].minor.value
    ensures var e := Numbered(s, rd).value;
            OthersKeep(s, rd, u) || exists j | 0 <= j < |e.volumes| :: e.volumes[j].minor == Some(u)
  {
    var d, e := s.definitions[rd], Numbered(s, rd).value;
    var m := e.volumes[i].minor.value;
    NumberedKeeps(s, rd);
    assert d.volumes[i].minor.None?;
    FreshMinorsAre(s, rd, m);
    FreshMinorsAre(s, rd, u);
    var range := HostRange(s, Hosts(s, rd)).value;
    var spoken := Spoken(s, rd);
    HostsServeRange(s, rd, u);
    OthersTaken(s, rd, u);
    if u in FreeValues(spoken, range) {
      assert FreeBelow(spoken, range, u) <= FreeBelow(spoken, range, m);
      SubsetSize(FreeBelow(spoken, range, u), FreeBelow(spoken, range, m));
    } else if u !in TakenMinors(s, rd) {
      var b := BackfilledVolumes(d);
      assert u in SetMinors(b);
      var j :| 0 <= j < |b| && b[j].minor.Some? && b[j].minor.value == u;
      assert Claim(d, j) == Some(u);
      NumberedClaims(s, rd);
    }
  }

  /** Status mirrors the minor of the first volume numbered 0, if it has one. */
  lemma FirstMinorMirrored(s: State, name: string, i: nat)
    requires name in s.replicas && AllocatePass(s, name).Some? && s.replicas[name].rd in s.definitions
    requires var d := AllocatePass(s, name).value.definitions[s.replicas[name].rd];
             i < |d.volumes| && d.volumes[i].number == 0 && forall j | 0 <= j < i :: d.volumes[j].number != 0
    ensures var t := AllocatePass(s, name).value;
            t.replicas[name].statMinor == t.definitions[s.replicas[name].rd].volumes[i].minor
  {
    var t := AllocatePass(s, name).value;
    var d := t.definitions[s.replicas[name].rd];
    NumberedKeeps(s, s.replicas[name].rd);
    FirstMinorAt(d.volumes, i);
  }

  lemma {:induction false} FirstMinorAt(volumes: seq<VolumeDefinition>, i: nat)
    requires i < |volumes| && volumes[i].number == 0 && forall j | 0 <= j < i :: volumes[j].number != 0
    ensures FirstMinor(volumes) == volumes[i].minor
    decreases |volumes|
  {
    if i > 0 {
      FirstMinorAt(volumes[1..], i - 1);
    }
  }

  // The latch

  // A diskful replica reports a volume with data: UpToDate, Consistent or Outdated, of
  // a generation that is not its day-0 one. `observed` asks for a generation at all.
  predicate ReportsData(day0: Day0, r: Replica, observed: bool)
  {
    !r.diskless
    && exists j | 0 <= j < |r.volumes| ::
         && (r.volumes[j].disk == UpToDate || r.volumes[j].disk == Consistent || r.volumes[j].disk == Outdated)
         && (observed ==> r.volumes[j].gi != "")
         && (r.volumes[j].gi == "" || !EqualFold(r.volumes[j].gi, day0(r.rd, r.volumes[j].number)))
  }

  predicate SomeReportsData(day0: Day0, s: State, rd: string, except: Option<string>, observed: bool)
  {
    exists n | n in s.replicas :: s.replicas[n].rd == rd && Some(n) != except && ReportsData(day0, s.replicas[n], observed)
  }

  lemma ReportsAre(day0: Day0, s: State, rd: string, except: Option<string>, observed: bool)
    ensures SomeReportsData(day0, s, rd, except, observed) <==> AnyHoldsData(day0, s, rd, except, observed)
  {
    forall n | n in s.replicas && s.replicas[n].rd == rd
      ensures ReportsData(day0, s.replicas[n], observed) <==> !s.replicas[n].diskless && HoldsData(day0, s.replicas[n], observed)
    {
      var r := s.replicas[n];
      if !r.diskless && HoldsData(day0, r, observed) {
        var j :| 0 <= j < |r.volumes| && !r.volumes[j].disk.NoData? && !(observed && r.volumes[j].gi == "")
                 && !IsDay0(day0, r.rd, r.volumes[j]);
        assert r.volumes[j].disk == UpToDate || r.volumes[j].disk == Consistent || r.volumes[j].disk == Outdated;
      }
      if ReportsData(day0, r, observed) {
        var j :| 0 <= j < |r.volumes|
                 && (r.volumes[j].disk == UpToDate || r.volumes[j].disk == Consistent || r.volumes[j].disk == Outdated)
                 && (observed ==> r.volumes[j].gi != "")
                 && (r.volumes[j].gi == "" || !EqualFold(r.volumes[j].gi, day0(r.rd, r.volumes[j].number)));
        assert !r.volumes[j].disk.NoData? && !IsDay0(day0, r.rd, r.volumes[j]);
      }
    }
  }

  /** A pass with nothing to allocate or project leaves the definition latched exactly
      when it was, or some diskful replica of it reports data with an observed
      generation. */
  lemma LatchesExactly(day0: Day0, s: State, name: string)
    requires Live(s, name) && !s.replicas[name].legacyFinalizer
    requires AllocatePass(s, name) == Some(s) && Project(day0, s, name) == s.replicas[name].specVolumes
    ensures var p, rd := Reconcile(day0, s, name), s.replicas[name].rd;
            p.Done? && rd in p.s.definitions
            && (p.s.definitions[rd].initialized
                <==> s.definitions[rd].initialized || SomeReportsData(day0, s, rd, None, true))
  {
    ReportsAre(day0, s, s.replicas[name].rd, None, true);
  }

  /** So where passes have gone quiet a definition with reported data is latched. */
  lemma QuietIsLatched(day0: Day0, s: State, name: string)
    requires Live(s, name) && Reconcile(day0, s, name) == Done(s, false)
    ensures SomeReportsData(day0, s, s.replicas[name].rd, None, true) ==> s.definitions[s.replicas[name].rd].initialized
  {
    QuietIsSettled(day0, s, name);
    ReportsAre(day0, s, s.replicas[name].rd, None, true);
  }

  // Volumes and seeds

  predicate Declared(d: Definition, number: int)
  {
    exists i | 0 <= i < |d.volumes| :: d.volumes[i].number == number
  }

  lemma {:induction false} PrunedAre(specs: seq<VolumeSpec>, d: Definition, v: VolumeSpec)
    ensures v in Pruned(specs, d) <==> v in specs && Declared(d, v.number)
    decreases |specs|
  {
    if specs != [] {
      PrunedAre(specs[1..], d, v);
      assert specs == [specs[0]] + specs[1..];
      assert Declares(d, specs[0].number) <==> Declared(d, specs[0].number);
    }
  }

  lemma {:induction false} PrunedAll(specs: seq<VolumeSpec>, d: Definition)
    requires forall i | 0 <= i < |specs| :: Declared(d, specs[i].number)
    ensures Pruned(specs, d) == specs
    decreases |specs|
  {
    if specs != [] {
      assert Declares(d, specs[0].number);
      PrunedAll(specs[1..], d);
    }
  }

  /** Entries for volumes the definition no longer has are dropped, the others kept;
      nothing is seeded in the same pass. A definition without volumes drops nothing. */
  lemma PrunesExactly(day0: Day0, s: State, name: string, v: VolumeSpec)
    requires name in s.replicas && s.replicas[name].rd in s.definitions
    requires exists i | 0 <= i < |s.replicas[name].specVolumes| ::
               !Declared(s.definitions[s.replicas[name].rd], s.replicas[name].specVolumes[i].number)
    ensures var me, d := s.replicas[name], s.definitions[s.replicas[name].rd];
            v in Project(day0, s, name) <==> v in me.specVolumes && (d.volumes == [] || Declared(d, v.number))
  {
    var me, d := s.replicas[name], s.definitions[s.replicas[name].rd];
    PrunedAre(me.specVolumes, d, v);
    var i :| 0 <= i < |me.specVolumes| && !Declared(d, me.specVolumes[i].number);
    PrunedAre(me.specVolumes, d, me.specVolumes[i]);
    assert me.specVolumes[i] in me.specVolumes;
  }

  /** Beside a peer that reports data, with or without an observed generation, and on a
      DISKLESS replica, no volume is seeded: every entry after the pass was there. */
  lemma NoSeedBesideData(day0: Day0, s: State, name: string, v: VolumeSpec)
    requires name in s.replicas
    requires s.replicas[name].diskless || SomeReportsData(day0, s, s.replicas[name].rd, Some(name), false)
    ensures v in Project(day0, s, name) ==> v in s.replicas[name].specVolumes
  {
    var me := s.replicas[name];
    ReportsAre(day0, s, me.rd, Some(name), false);
    if me.rd in s.definitions {
      PrunedAre(me.specVolumes, s.definitions[me.rd], v);
    }
  }

  // The peer's first report of the volume is UpToDate with an observed generation.
  predicate Offers(s: State, name: string, number: int, n: string, gi: string)
    requires name in s.replicas
  {
    n in s.replicas && n != name && s.replicas[n].rd == s.replicas[name].rd && gi != ""
    && exists j | 0 <= j < |s.replicas[n].volumes| ::
         s.replicas[n].volumes[j] == VolumeStatus(number, UpToDate, gi)
         && forall k | 0 <= k < j :: s.replicas[n].volumes[k].number != number
  }

  lemma {:induction false} StatusIs(volumes: seq<VolumeStatus>, number: int, v: VolumeStatus)
    ensures StatusOf(volumes, number) == Some(v)
            <==> exists j | 0 <= j < |volumes| :: volumes[j] == v && v.number == number
                                                  && forall k | 0 <= k < j :: volumes[k].number != number
    decreases |volumes|
  {
    if volumes != [] {
      var rest := volumes[1..];
      StatusIs(rest, number, v);
      if volumes[0].number == number {
        if v == volumes[0] {
          assert volumes[0] == v;
        }
      } else {
        if StatusOf(rest, number) == Some(v) {
          var j :| 0 <= j < |rest| && rest[j] == v && v.number == number && forall k | 0 <= k < j :: rest[k].number != number;
          assert volumes[j + 1] == v;
          assert forall k | 0 < k < j + 1 :: volumes[k] == rest[k - 1];
        }
        if exists j | 0 <= j < |volumes| :: volumes[j] == v && v.number == number
                                            && forall k | 0 <= k < j :: volumes[k].number != number
        {
          var j :| 0 <= j < |volumes| && volumes[j] == v && v.number == number && forall k | 0 <= k < j :: volumes[k].number != number;
          assert j > 0 && rest[j - 1] == v;
          assert forall k | 0 <= k < j - 1 :: rest[k] == volumes[k + 1];
        }
      }
    }
  }

  lemma OffersAre(s: State, name: string, number: int, n: string, gi: string)
    requires name in s.replicas && n in s.replicas
    ensures Offers(s, name, number, n, gi)
            <==> SeedCandidate(s, name, number, n) && StatusOf(s.replicas[n].volumes, number).value.gi == gi
  {
    StatusIs(s.replicas[n].volumes, number, VolumeStatus(number, UpToDate, gi));
    if SeedCandidate(s, name, number, n) {
      StatusEntry(s.replicas[n].volumes, number);
    }
  }

  /** The seed picked for a volume is the one offered by the first peer, in name order,
      that offers any. */
  lemma PicksExactly(s: State, name: string, number: int, n: string, gi: string)
    requires name in s.replicas && Offers(s, name, number, n, gi)
    requires forall m, x | m in s.replicas && Offers(s, name, number, m, x) :: m == n || Less(n, m)
    ensures PickSeed(s, name, number) == gi
  {
    OffersAre(s, name, number, n, gi);
    var c := SeedCandidates(s, name, number);
    assert n in c;
    forall m | m in c ensures m == n || Less(n, m) {
      var x := StatusOf(s.replicas[m].volumes, number).value.gi;
      OffersAre(s, name, number, m, x);
    }
    LeastUnique(c);
    assert IsLeast(n, c) && IsLeast(Least(c), c);
  }

  lemma {:induction false} SeededHas(s: State, name: string, specs: seq<VolumeSpec>, defs: seq<VolumeDefinition>, k: nat)
    requires name in s.replicas && k < |defs| && !SeedSet(specs, defs[k].number) && PickSeed(s, name, defs[k].number) != ""
    requires forall i | 0 <= i < k :: defs[i].number != defs[k].number
    ensures VolumeSpec(defs[k].number, PickSeed(s, name, defs[k].number)) in Seeded(s, name, specs, defs)
    decreases |defs|
  {
    var number, seed := defs[0].number, PickSeed(s, name, defs[0].number);
    if k == 0 {
      var with := SetSeed(specs, number, seed);
      SetSeedHas(specs, number, seed);
      SeededKeeps(s, name, with, defs[1..], VolumeSpec(number, seed));
    } else {
      var next := if SeedSet(specs, number) || seed == "" then specs else SetSeed(specs, number, seed);
      SetSeedOnly(specs, number, seed, defs[k].number);
      SeededHas(s, name, next, defs[1..], k - 1);
    }
  }

  lemma {:induction false} SetSeedOnly(specs: seq<VolumeSpec>, number: int, seed: string, other: int)
    requires other != number && !SeedSet(specs, other)
    ensures !SeedSet(SetSeed(specs, number, seed), other)
    decreases |specs|
  {
    if specs != [] {
      assert specs == [specs[0]] + specs[1..];
      SeedSetSplit([specs[0]], specs[1..], other);
      if specs[0].number == number {
        SeedSetSplit([specs[0].(seed := seed)], specs[1..], other);
      } else {
        SetSeedOnly(specs[1..], number, seed, other);
        SeedSetSplit([specs[0]], SetSeed(specs[1..], number, seed), other);
      }
    }
  }

  lemma {:induction false} SetSeedHas(specs: seq<VolumeSpec>, number: int, seed: string)
    ensures VolumeSpec(number, seed) in SetSeed(specs, number, seed)
    decreases |specs|
  {
    if specs != [] && specs[0].number != number {
      SetSeedHas(specs[1..], number, seed);
    }
  }

  lemma {:induction false} SetSeedKeeps(specs: seq<VolumeSpec>, number: int, seed: string, v: VolumeSpec)
    requires v in specs && v.number != number
    ensures v in SetSeed(specs, number, seed)
    decreases |specs|
  {
    if specs[0] != v && specs[0].number != number {
      assert specs == [specs[0]] + specs[1..];
      SetSeedKeeps(specs[1..], number, seed, v);
    }
  }

  lemma {:induction false} SeededKeeps(s: State, name: string, specs: seq<VolumeSpec>, defs: seq<VolumeDefinition>, v: VolumeSpec)
    requires name in s.replicas && v in specs && v.seed != ""
    ensures v in Seeded(s, name, specs, defs)
    decreases |defs|
  {
    if defs != [] {
      var number, seed := defs[0].number, PickSeed(s, name, defs[0].number);
      if SeedSet(specs, number) || seed == "" {
        SeededKeeps(s, name, specs, defs[1..], v);
      } else {
        var i :| 0 <= i < |specs| && specs[i] == v;
        assert v.number != number;
        SetSeedKeeps(specs, number, seed, v);
        SeededKeeps(s, name, SetSeed(specs, number, seed), defs[1..], v);
      }
    }
  }

  /** A diskful replica with nothing to prune and no peer that reports data takes for a
      declared volume without a seed the one offered first by name. */
  lemma SeedGiven(day0: Day0, s: State, name: string, k: nat, n: string, gi: string)
    requires name in s.replicas && s.replicas[name].rd in s.definitions && !s.replicas[name].diskless
    requires var me, d := s.replicas[name], s.definitions[s.replicas[name].rd];
             && k < |d.volumes| && (forall i | 0 <= i < k :: d.volumes[i].number != d.volumes[k].number)
             && (forall i | 0 <= i < |me.specVolumes| :: Declared(d, me.specVolumes[i].number))
             && (forall i | 0 <= i < |me.specVolumes| :: me.specVolumes[i].number == d.volumes[k].number ==> me.specVolumes[i].seed == "")
             && !SomeReportsData(day0, s, me.rd, Some(name), false)
             && Offers(s, name, d.volumes[k].number, n, gi)
             && (forall m, x | m in s.replicas && Offers(s, name, d.volumes[k].number, m, x) :: m == n || Less(n, m))
    ensures VolumeSpec(s.definitions[s.replicas[name].rd].volumes[k].number, gi) in Project(day0, s, name)
  {
    var me, d := s.replicas[name], s.definitions[s.replicas[name].rd];
    ReportsAre(day0, s, me.rd, Some(name), false);
    PrunedAll(me.specVolumes, d);
    PicksExactly(s, name, d.volumes[k].number, n, gi);
    SeededHas(s, name, me.specVolumes, d.volumes, k);
  }

  // Promotion and orphans

  lemma {:induction false} FirstPoolIs(pools: seq<Pool>, node: string, k: nat)
    requires k < |pools| && pools[k].node == node && !pools[k].diskless
    requires forall i | 0 <= i < k :: pools[i].node != node || pools[i].diskless
    ensures FirstPool(pools, node) == pools[k].name
    decreases |pools|
  {
    if k > 0 {
      FirstPoolIs(pools[1..], node, k - 1);
    }
  }

  lemma {:induction false} NoPoolIs(pools: seq<Pool>, node: string)
    requires forall i | 0 <= i < |pools| :: pools[i].node != node || pools[i].diskless
    ensures FirstPool(pools, node) == ""
    decreases |pools|
  {
    if pools != [] {
      NoPoolIs(pools[1..], node);
    }
  }

  /** With nothing else to do, a pass promotes a replica exactly when it is DISKLESS, in
      use, no TIE_BREAKER, and its node has a diskful pool with a name: it gets the first
      of them. */
  lemma PromotesExactly(day0: Day0, s: State, name: string, k: nat)
    requires name in s.replicas && k <= |s.pools| && Project(day0, s, name) == s.replicas[name].specVolumes
    requires var me := s.replicas[name];
             me.rd in s.definitions ==> me.skip.Some? && (s.definitions[me.rd].initialized || !SomeReportsData(day0, s, me.rd, None, true))
    requires forall i | 0 <= i < k :: s.pools[i].node != s.replicas[name].node || s.pools[i].diskless
    requires k < |s.pools| ==> s.pools[k].node == s.replicas[name].node && !s.pools[k].diskless
    ensures var me := s.replicas[name];
            Apply(day0, s, name) ==
            if me.diskless && me.inUse && !me.tieBreaker && k < |s.pools| && s.pools[k].name != ""
            then Edit(s, name, me.(diskless := false, pool := s.pools[k].name))
            else s
  {
    ReportsAre(day0, s, s.replicas[name].rd, None, true);
    if k < |s.pools| {
      FirstPoolIs(s.pools, s.replicas[name].node, k);
    } else {
      NoPoolIs(s.pools, s.replicas[name].node);
    }
  }

  /** The early ends of a pass: a replica being deleted only loses its legacy finalizer,
      one that carries it loses it first, one without a definition's name is left
      alone, and one that was applied and whose definition is gone is deleted. */
  lemma EndsEarly(day0: Day0, s: State, name: string)
    requires name in s.replicas
    ensures var me, p := s.replicas[name], Reconcile(day0, s, name);
            if me.deleting then p == Done(Edit(s, name, me.(legacyFinalizer := false)), false)
            else if me.legacyFinalizer then p == Done(Edit(s, name, me.(legacyFinalizer := false)), true)
            else if me.rd == "" then p == Done(s, false)
            else me.applied && me.rd !in s.definitions ==> p == Done(Edit(s, name, me.(deleting := true)), false)
  {
  }

  /** The order of a pass's writes: identities, the stamp and minors first, then the volume
      entries, then the latch; each of them ends the pass and asks for another. */
  lemma WritesInOrder(day0: Day0, s: State, name: string)
    requires Allocates(s, name)
    ensures var me, t, p := s.replicas[name], AllocatePass(s, name).value, Reconcile(day0, s, name);
            p.Done?
            && (t != s ==> p == Done(t, true))
            && (t == s && me.rd in s.definitions ==> me.skip.Some?)
            && (t == s && Project(day0, s, name) != me.specVolumes ==>
                  p == Done(Edit(s, name, me.(specVolumes := Project(day0, s, name))), true))
            && (t == s && Project(day0, s, name) == me.specVolumes && me.rd in s.definitions
                && !s.definitions[me.rd].initialized && SomeReportsData(day0, s, me.rd, None, true) ==>
                  p == Done(s.(definitions := s.definitions[me.rd := s.definitions[me.rd].(initialized := true)]), true))
  {
    var me := s.replicas[name];
    ReportsAre(day0, s, me.rd, None, true);
    if me.rd in s.definitions && !s.definitions[me.rd].initialized {
      var t := s.(definitions := s.definitions[me.rd := s.definitions[me.rd].(initialized := true)]);
      assert t.definitions[me.rd].initialized;
    }
    if Project(day0, s, name) != me.specVolumes {
      var t := Edit(s, name, me.(specVolumes := Project(day0, s, name)));
      assert t.replicas[name].specVolumes != me.specVolumes;
    }
  }

  /** What a pass that died has written: the definition's minors, and in its Spec all or
      none of the replica's identities; its Status not yet. */
  lemma TornWrites(s: State, name: string, specWritten: bool)
    requires Allocates(s, name)
    ensures var me, t, full := s.replicas[name], TornPass(s, name, specWritten), AllocatePass(s, name).value;
            t.definitions == full.definitions
            && t.replicas[name].statId == me.statId && t.replicas[name].statPort == me.statPort
            && t.replicas[name].statMinor == me.statMinor
            && (if specWritten
                then t.replicas[name].specId == full.replicas[name].specId
                     && t.replicas[name].specPort == full.replicas[name].specPort && t.replicas[name].skip == full.replicas[name].skip
                else t.replicas[name] == me)
  {
  }
}
