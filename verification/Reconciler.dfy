/**
 The resource reconciler as it runs: loops over API lists in whatever order the
 server returns them, updating its objects in place. Every method is proved
 against the functions of module Cluster, so no result depends on list order.
 */
module Reconciler {
  import opened Names
  import opened DrbdPool
  import opened Cluster
  import opened Runs
  import opened Identity
  import opened Minors

  // The part of a list already visited.

  function OccupiedBy(s: State, name: string, seen: set<string>): set<int>
    requires name in s.replicas && seen <= s.replicas.Keys
  {
    set n, id | n in seen && n != name && s.replicas[n].rd == s.replicas[name].rd && id in Slots(s.replicas[n]) :: id
  }

  function PortsAmong(s: State, node: string, name: string, seen: set<string>): set<int>
    requires seen <= s.replicas.Keys
  {
    set n | n in seen && n != name && s.replicas[n].node == node && s.replicas[n].specPort.Some? :: s.replicas[n].specPort.value
  }

  function ReservedAmong(s: State, rd: string, seen: set<string>): set<int>
    requires seen <= s.definitions.Keys
  {
    set x, m | x in seen && x != rd && m in Reserved(s.definitions[x]) :: m
  }

  function HostsAmong(s: State, rd: string, seen: set<string>): set<string>
    requires seen <= s.replicas.Keys
  {
    set n | n in seen && s.replicas[n].rd == rd :: s.replicas[n].node
  }

  lemma OccupiedStep(s: State, name: string, seen: set<string>, n: string)
    requires name in s.replicas && seen <= s.replicas.Keys && n in s.replicas
    ensures OccupiedBy(s, name, seen + {n})
            == OccupiedBy(s, name, seen)
               + if n != name && s.replicas[n].rd == s.replicas[name].rd then Slots(s.replicas[n]) else {}
  {
    if n != name && s.replicas[n].rd == s.replicas[name].rd {
      forall id | id in Slots(s.replicas[n]) ensures id in OccupiedBy(s, name, seen + {n}) {
        assert n in seen + {n};
      }
    }
  }

  lemma ReservedStep(s: State, rd: string, seen: set<string>, x: string)
    requires seen <= s.definitions.Keys && x in s.definitions
    ensures ReservedAmong(s, rd, seen + {x}) == ReservedAmong(s, rd, seen) + if x != rd then Reserved(s.definitions[x]) else {}
  {
    if x != rd {
      forall m | m in Reserved(s.definitions[x]) ensures m in ReservedAmong(s, rd, seen + {x}) {
        assert x in seen + {x};
      }
    }
  }

  lemma BackfilledIs(r: Replica, b: Replica)
    requires b.specId == EffectiveId(r) && b.specPort == EffectivePort(r) && b.(specId := r.specId, specPort := r.specPort) == r
    ensures b == Backfilled(r)
  {
  }

  lemma IdentifyFrom(s: State, name: string, id: Option<int>, port: Option<int>, skip: Option<bool>)
    requires name in s.replicas && id.Some? && port.Some?
    requires var b := Backfilled(s.replicas[name]);
             id == (if b.specId.Some? then b.specId else LowestFree(Occupied(s, name), Range(0, MAX_PEERS - 1)))
             && port == (if b.specPort.Some? then b.specPort else PickPort(s, name))
             && skip == if b.skip.None? && b.rd in s.definitions then Some(!s.definitions[b.rd].initialized) else b.skip
    ensures Identify(s, name) == Some(Backfilled(s.replicas[name]).(specId := id, specPort := port, skip := skip))
  {
  }

  predicate ExactMeet(s: State, hosts: set<string>, r: Range)
  {
    && (forall h | h in hosts :: MinorRange(s, h).Some? && MinorRange(s, h).value.low <= r.low && r.high <= MinorRange(s, h).value.high)
    && (exists h :: h in hosts && MinorRange(s, h).value.low == r.low)
    && (exists h :: h in hosts && MinorRange(s, h).value.high == r.high)
  }

  lemma {:induction false} HostRangeIsMeet(s: State, hosts: set<string>)
    requires hosts != {} && HostRange(s, hosts).Some?
    ensures ExactMeet(s, hosts, HostRange(s, hosts).value)
    decreases hosts
  {
    var first := Least(hosts);
    assert first in hosts;
    if hosts != {first} {
      var rest := hosts - {first};
      assert rest != {} && hosts == rest + {first};
      HostRangeIsMeet(s, rest);
    }
  }

  lemma MeetUnique(s: State, hosts: set<string>, r: Range)
    requires hosts != {} && ExactMeet(s, hosts, r)
    ensures HostRange(s, hosts) == Some(r)
  {
    HostRangeExact(s, hosts);
    HostRangeIsMeet(s, hosts);
  }

  class ResourceReconciler {
    var s: State
    const day0: Day0

    constructor (day0: Day0, s: State)
      ensures this.s == s && this.day0 == day0
    {
      this.day0 := day0;
      this.s := s;
    }

    /** Node-ids held or still seen by the siblings of a replica. */
    method CollectTakenNodeIds(name: string) returns (taken: seq<int>)
      requires name in s.replicas
      ensures Elems(taken) == Occupied(s, name)
    {
      var items := ListKeys(s.replicas.Keys);
      var occupied: set<int> := {};
      var k := 0;
      while k < |items|
        invariant 0 <= k <= |items|
        invariant occupied == OccupiedBy(s, name, Elems(items[..k]))
      {
        Visit(items, k);
        OccupiedStep(s, name, Elems(items[..k]), items[k]);
        if items[k] != name && s.replicas[items[k]].rd == s.replicas[name].rd {
          var slots := OccupiedSlots(s.replicas[items[k]]);
          occupied := occupied + slots;
        }
        k := k + 1;
      }
      VisitedAll(items);
      taken := ListKeys(occupied);
    }

    /** A sibling's own node-id and every peer slot it still reports. */
    method OccupiedSlots(r: Replica) returns (slots: set<int>)
      ensures slots == Slots(r)
    {
      slots := {};
      if r.specId.Some? {
        slots := {r.specId.value};
      } else if r.statId.Some? {
        slots := {r.statId.value};
      }
      ghost var own := slots;
      for j := 0 to |r.connections|
        invariant slots == own + set i | 0 <= i < j && r.connections[i].Some? :: r.connections[i].value
      {
        if r.connections[j].Some? {
          slots := slots + {r.connections[j].value};
        }
      }
    }

    /** Ports claimed in Spec on a node by other replicas. */
    method TakenPortsOnNode(node: string, name: string) returns (out: seq<int>)
      ensures Elems(out) == PortsOnNode(s, node, name)
    {
      var items := ListKeys(s.replicas.Keys);
      out := [];
      for k := 0 to |items|
        invariant Elems(out) == PortsAmong(s, node, name, Elems(items[..k]))
      {
        Visit(items, k);
        var r := s.replicas[items[k]];
        if r.node == node && items[k] != name && r.specPort.Some? {
          assert Elems(out + [r.specPort.value]) == Elems(out) + {r.specPort.value};
          out := out + [r.specPort.value];
        }
      }
      VisitedAll(items);
    }

    /** Minors reserved by every other definition, legacy bases expanded. */
    method TakenMinorsCluster(rd: string) returns (out: seq<int>)
      ensures Elems(out) == TakenMinors(s, rd)
    {
      var items := ListKeys(s.definitions.Keys);
      out := [];
      for k := 0 to |items|
        invariant Elems(out) == ReservedAmong(s, rd, Elems(items[..k]))
      {
        Visit(items, k);
        ReservedStep(s, rd, Elems(items[..k]), items[k]);
        if items[k] != rd {
          var more := ReservedMinors(s.definitions[items[k]]);
          assert Elems(out + more) == Elems(out) + Elems(more);
          out := out + more;
        }
      }
      VisitedAll(items);
    }

    method ReservedMinors(d: Definition) returns (out: seq<int>)
      ensures Elems(out) == Reserved(d)
    {
      out := [];
      var any := false;
      for j := 0 to |d.volumes|
        invariant any <==> exists i :: 0 <= i < j && d.volumes[i].minor.Some?
        invariant Elems(out) == SetMinors(d.volumes[..j])
      {
        assert d.volumes[..j + 1] == d.volumes[..j] + [d.volumes[j]];
        SetMinorsSnoc(d.volumes[..j], d.volumes[j]);
        if d.volumes[j].minor.Some? {
          assert Elems(out + [d.volumes[j].minor.value]) == Elems(out) + {d.volumes[j].minor.value};
          out := out + [d.volumes[j].minor.value];
          any := true;
        }
      }
      assert d.volumes[..|d.volumes|] == d.volumes;
      if d.baseMinor.Some? && !any {
        assert SetMinors(d.volumes) == {};
        var count := if |d.volumes| == 0 then 1 else |d.volumes|;
        for off := 0 to count
          invariant Elems(out) == Block(d.baseMinor.value, off)
        {
          assert Elems(out + [d.baseMinor.value + off]) == Elems(out) + {d.baseMinor.value + off};
          out := out + [d.baseMinor.value + off];
        }
      }
    }

    lemma SetMinorsSnoc(volumes: seq<VolumeDefinition>, v: VolumeDefinition)
      ensures SetMinors(volumes + [v]) == SetMinors(volumes) + if v.minor.Some? then {v.minor.value} else {}
    {
      var all := volumes + [v];
      forall m | m in SetMinors(volumes) ensures m in SetMinors(all) {
        var i :| 0 <= i < |volumes| && volumes[i].minor == Some(m);
        assert all[i].minor == Some(m);
      }
      if v.minor.Some? {
        assert all[|volumes|].minor.value in SetMinors(all);
      }
    }

    /** Nodes hosting a definition, each once. */
    method HostingNodes(rd: string) returns (out: seq<string>)
      ensures Lists(out, Hosts(s, rd))
    {
      var items := ListKeys(s.replicas.Keys);
      out := [];
      for k := 0 to |items|
        invariant Lists(out, HostsAmong(s, rd, Elems(items[..k])))
      {
        Visit(items, k);
        var r := s.replicas[items[k]];
        if r.rd == rd && r.node !in out {
          assert Elems(out + [r.node]) == Elems(out) + {r.node};
          out := out + [r.node];
        }
      }
      VisitedAll(items);
    }

    /** Intersection of the hosts' minor ranges. */
    method IntersectRange(hosts: seq<string>) returns (r: Option<Range>)
      ensures r == HostRange(s, Elems(hosts))
    {
      var low, high := MINOR_MIN, MINOR_MAX;
      var first := true;
      for k := 0 to |hosts|
        invariant first <==> k == 0
        invariant k > 0 ==> ExactMeet(s, Elems(hosts[..k]), Range(low, high))
        invariant first ==> low == MINOR_MIN && high == MINOR_MAX
      {
        Visit(hosts, k);
        var range := MinorRange(s, hosts[k]);
        if range.None? {
          assert hosts[k] in Elems(hosts);
          HostRangeExact(s, Elems(hosts));
          return None;
        }
        if first {
          low, high, first := range.value.low, range.value.high, false;
        } else {
          if range.value.low > low {
            low := range.value.low;
          }
          if range.value.high < high {
            high := range.value.high;
          }
        }
      }
      assert hosts[..|hosts|] == hosts;
      if hosts != [] {
        assert hosts[0] in Elems(hosts);
        MeetUnique(s, Elems(hosts), Range(low, high));
      }
      return Some(Range(low, high));
    }

    /** Set every unset minor of a definition: backfill from the legacy base,
        then the lowest free values of the common range. */
    method AllocateVolumeMinors(rd: string) returns (r: Option<Definition>)
      requires rd in s.definitions && !Complete(s.definitions[rd].volumes)
      ensures r == Numbered(s, rd)
    {
      var d := s.definitions[rd];
      var volumes := BackfillMinors(d);
      ghost var b := BackfilledVolumes(d);
      var hosts := HostingNodes(rd);
      var range := IntersectRange(hosts);
      if range.None? {
        return None;
      }
      var taken := TakenMinorsCluster(rd);
      ghost var foreign := Elems(taken);
      for k := 0 to |volumes|
        invariant Elems(taken) == foreign + SetMinors(volumes[..k])
      {
        assert volumes[..k + 1] == volumes[..k] + [volumes[k]];
        SetMinorsSnoc(volumes[..k], volumes[k]);
        if volumes[k].minor.Some? {
          assert Elems(taken + [volumes[k].minor.value]) == Elems(taken) + {volumes[k].minor.value};
          taken := taken + [volumes[k].minor.value];
        }
      }
      assert volumes[..|volumes|] == volumes;
      var filled := FillUnset(volumes, taken, range.value);
      return if filled.None? then None else Some(d.(volumes := filled.value));
    }

    method FillUnset(initial: seq<VolumeDefinition>, reserved: seq<int>, range: Range) returns (r: Option<seq<VolumeDefinition>>)
      ensures r == FillMinors(initial, Elems(reserved), range)
    {
      var volumes, taken := initial, reserved;
      ghost var goal := FillMinors(initial, Elems(reserved), range);
      assert volumes[0..] == volumes && volumes[..0] == [];
      assert goal.Some? ==> [] + goal.value == goal.value;
      var k := 0;
      while k < |volumes|
        invariant 0 <= k <= |volumes|
        invariant goal == Prepend(volumes[..k], FillMinors(volumes[k..], Elems(taken), range))
      {
        assert volumes[k..][0] == volumes[k] && volumes[k..][1..] == volumes[k + 1..];
        if volumes[k].minor.Some? {
          assert volumes[..k + 1] == volumes[..k] + [volumes[k]];
          PrependAssoc(volumes[..k], volumes[k], FillMinors(volumes[k + 1..], Elems(taken), range));
          k := k + 1;
          continue;
        }
        var minor := DrbdPool.Allocate(taken, range);
        if minor.None? {
          return None;
        }
        ghost var prefix := volumes[..k];
        ghost var tail := volumes[k + 1..];
        assert Elems(taken + [minor.value]) == Elems(taken) + {minor.value};
        taken := taken + [minor.value];
        volumes := volumes[k := volumes[k].(minor := minor)];
        assert volumes[k + 1..] == tail && volumes[..k + 1] == prefix + [volumes[k]];
        PrependAssoc(prefix, volumes[k], FillMinors(tail, Elems(taken), range));
        k := k + 1;
      }
      assert volumes[k..] == [] && volumes[..k] == volumes && volumes + [] == volumes;
      return Some(volumes);
    }

    method BackfillMinors(d: Definition) returns (volumes: seq<VolumeDefinition>)
      ensures volumes == BackfilledVolumes(d)
    {
      volumes := d.volumes;
      if d.baseMinor.None? {
        return;
      }
      for k := 0 to |volumes|
        invariant forall i | 0 <= i < k :: volumes[i].minor.None?
      {
        if volumes[k].minor.Some? {
          return;
        }
      }
      for k := 0 to |volumes|
        invariant |volumes| == |d.volumes|
        invariant forall i | 0 <= i < k :: volumes[i] == d.volumes[i].(minor := Some(d.baseMinor.value + d.volumes[i].number))
        invariant forall i | k <= i < |volumes| :: volumes[i] == d.volumes[i]
      {
        volumes := volumes[k := volumes[k].(minor := Some(d.baseMinor.value + volumes[k].number))];
      }
    }

    /** Any diskful replica of the definition holding data past day 0. */
    method ScanDataBearing(rd: string, except: Option<string>, strict: bool) returns (found: bool)
      ensures found == AnyHoldsData(day0, s, rd, except, strict)
    {
      var items := ListKeys(s.replicas.Keys);
      for k := 0 to |items|
        invariant forall i | 0 <= i < k ::
          s.replicas[items[i]].rd == rd && Some(items[i]) != except && !s.replicas[items[i]].diskless ==>
            !HoldsData(day0, s.replicas[items[i]], strict)
      {
        assert items[k] in Elems(items);
        var r := s.replicas[items[k]];
        if r.rd != rd || Some(items[k]) == except || r.diskless {
          continue;
        }
        for j := 0 to |r.volumes|
          invariant forall i | 0 <= i < j ::
            r.volumes[i].disk.NoData? || (strict && r.volumes[i].gi == "") || IsDay0(day0, r.rd, r.volumes[i])
        {
          var v := r.volumes[j];
          if !v.disk.NoData? && !(strict && v.gi == "") && !IsDay0(day0, r.rd, v) {
            assert HoldsData(day0, r, strict);
            return true;
          }
        }
      }
      forall n | n in s.replicas && s.replicas[n].rd == rd && Some(n) != except && !s.replicas[n].diskless
        ensures !HoldsData(day0, s.replicas[n], strict)
      {
        assert n in Elems(items);
        var i :| 0 <= i < |items| && items[i] == n;
      }
      return false;
    }

    /** The generation offered by the first UpToDate peer in name order. */
    method PickSeedFromPeers(name: string, number: int) returns (seed: string)
      requires name in s.replicas
      ensures seed == PickSeed(s, name, number)
    {
      var items := ListKeys(s.replicas.Keys);
      var candidates: seq<string> := [];
      for k := 0 to |items|
        invariant Elems(candidates) == set n | n in Elems(items[..k]) && SeedCandidate(s, name, number, n)
      {
        Visit(items, k);
        if SeedCandidate(s, name, number, items[k]) {
          assert Elems(candidates + [items[k]]) == Elems(candidates) + {items[k]};
          candidates := candidates + [items[k]];
        }
      }
      VisitedAll(items);
      assert Elems(candidates) == SeedCandidates(s, name, number);
      if candidates == [] {
        return "";
      }
      assert candidates[0] in Elems(candidates);
      var first := FirstByName(candidates);
      return StatusOf(s.replicas[first].volumes, number).value.gi;
    }

    method FirstByName(names: seq<string>) returns (first: string)
      requires names != []
      ensures Elems(names) != {} && first == Least(Elems(names))
    {
      first := names[0];
      for k := 1 to |names|
        invariant IsLeast(first, Elems(names[..k]))
      {
        Visit(names, k);
        LessTotal(first, names[k]);
        if Less(names[k], first) {
          forall x | x in Elems(names[..k]) ensures Less(names[k], x) {
            if x != first {
              LessTransitive(names[k], first, x);
            }
          }
          first := names[k];
        }
      }
      assert names[..|names|] == names;
      assert first in Elems(names);
      LeastUnique(Elems(names));
    }

    /** Prune volumes the definition dropped; if none, seed the unseeded ones. */
    method ProjectVolumes(name: string) returns (specs: seq<VolumeSpec>)
      requires name in s.replicas
      ensures specs == Project(day0, s, name)
    {
      var me := s.replicas[name];
      specs := me.specVolumes;
      if me.rd !in s.definitions || s.definitions[me.rd].volumes == [] {
        return;
      }
      var d := s.definitions[me.rd];
      var survivors := PruneStale(specs, d);
      if |survivors| != |specs| {
        return survivors;
      }
      assert survivors == specs by { PrunedShorter(specs, d); }
      if me.diskless {
        return;
      }
      var holds := ScanDataBearing(me.rd, Some(name), false);
      if holds {
        return;
      }
      assert d.volumes[0..] == d.volumes;
      for k := 0 to |d.volumes|
        invariant Seeded(s, name, specs, d.volumes[k..]) == Seeded(s, name, me.specVolumes, d.volumes)
      {
        assert d.volumes[k..][0] == d.volumes[k] && d.volumes[k..][1..] == d.volumes[k + 1..];
        if SeedSet(specs, d.volumes[k].number) {
          continue;
        }
        var seed := PickSeedFromPeers(name, d.volumes[k].number);
        if seed == "" {
          continue;
        }
        specs := SetSeedFromGi(specs, d.volumes[k].number, seed);
      }
    }

    method PruneStale(specs: seq<VolumeSpec>, d: Definition) returns (survivors: seq<VolumeSpec>)
      ensures survivors == Pruned(specs, d)
    {
      survivors := [];
      for k := 0 to |specs|
        invariant survivors == Pruned(specs[..k], d)
      {
        assert specs[..k + 1] == specs[..k] + [specs[k]];
        PrunedSnoc(specs[..k], specs[k], d);
        if Declares(d, specs[k].number) {
          survivors := survivors + [specs[k]];
        }
      }
      assert specs[..|specs|] == specs;
    }

    /** Per-replica identities: legacy copies first, then fresh ones. */
    method IdentifyReplica(name: string) returns (r: Option<Replica>)
      requires name in s.replicas
      ensures r == Identify(s, name)
    {
      var me := BackfillFromStatus(s.replicas[name]);
      BackfilledIs(s.replicas[name], me);
      var id := me.specId;
      if id.None? {
        id := AllocateNodeId(name);
        if id.None? {
          return None;
        }
      }
      var port := me.specPort;
      if port.None? {
        port := AllocatePortForNode(name);
        if port.None? {
          return None;
        }
      }
      var skip := me.skip;
      if skip.None? && me.rd in s.definitions {
        skip := Some(!s.definitions[me.rd].initialized);
      }
      IdentifyFrom(s, name, id, port, skip);
      return Some(me.(specId := id, specPort := port, skip := skip));
    }

    /** One-time copy of the legacy Status identities: afterwards Spec holds what the
        replica answers to, nothing that was set has changed, and nothing else has. */
    method BackfillFromStatus(r: Replica) returns (b: Replica)
      ensures b.specId == EffectiveId(r) && b.specPort == EffectivePort(r)
      ensures Settles(r, b) && b.(specId := r.specId, specPort := r.specPort) == r
    {
      b := r;
      if b.specPort.None? {
        b := b.(specPort := b.statPort);
      }
      if b.specId.None? {
        b := b.(specId := b.statId);
      }
    }

    method AllocateNodeId(name: string) returns (id: Option<int>)
      requires name in s.replicas
      ensures id == LowestFree(Occupied(s, name), Range(0, MAX_PEERS - 1))
    {
      var taken := CollectTakenNodeIds(name);
      id := DrbdPool.Allocate(taken, Range(0, MAX_PEERS - 1));
    }

    method EnsureVolumeMinors(rd: string) returns (r: Option<Definition>)
      requires rd in s.definitions
      ensures r == Numbered(s, rd)
    {
      var d := s.definitions[rd];
      if Complete(d.volumes) {
        return Some(d);
      }
      r := AllocateVolumeMinors(rd);
    }

    /** The allocation half of a pass; a failure leaves every object as it was. */
    method AllocateAndApply(name: string) returns (failed: bool, mutated: bool)
      requires name in s.replicas
      modifies this
      ensures failed <==> AllocatePass(old(s), name).None?
      ensures failed ==> s == old(s) && !mutated
      ensures !failed ==> Some(s) == AllocatePass(old(s), name) && mutated == (s != old(s))
    {
      var before := s;
      var identified := IdentifyReplica(name);
      if identified.None? {
        return true, false;
      }
      var me := identified.value;
      var minor: Option<int> := None;
      if me.rd in s.definitions {
        var numbered := EnsureVolumeMinors(me.rd);
        if numbered.None? {
          return true, false;
        }
        s := s.(definitions := s.definitions[me.rd := numbered.value]);
        minor := FirstMinor(numbered.value.volumes);
      }
      s := s.(replicas := s.replicas[name := Mirrored(me, minor)]);
      return false, s != before;
    }

    /** The definition's preferred port if it is free here, else the lowest. */
    method AllocatePortForNode(name: string) returns (port: Option<int>)
      requires name in s.replicas
      ensures port == PickPort(s, name)
    {
      var me := s.replicas[name];
      var range := PortRange(s, me.node);
      if range.None? {
        return None;
      }
      var taken := TakenPortsOnNode(me.node, name);
      if me.rd in s.definitions && s.definitions[me.rd].preferredPort.Some? {
        var preferred := s.definitions[me.rd].preferredPort.value;
        if range.value.low <= preferred <= range.value.high && preferred !in taken {
          assert preferred !in Elems(taken);
          return Some(preferred);
        }
      }
      port := DrbdPool.Allocate(taken, range.value);
    }

    /** The apply half of a pass. */
    method RunApply(name: string) returns (requeue: bool)
      requires name in s.replicas
      modifies this
      ensures s == Apply(day0, old(s), name) && requeue == (s != old(s))
    {
      var me := s.replicas[name];
      var specs := ProjectVolumes(name);
      if specs != me.specVolumes {
        s := s.(replicas := s.replicas[name := me.(specVolumes := specs)]);
        return true;
      }
      if me.rd in s.definitions {
        if !s.definitions[me.rd].initialized {
          var written := ScanDataBearing(me.rd, None, true);
          if written {
            s := s.(definitions := s.definitions[me.rd := s.definitions[me.rd].(initialized := true)]);
            return true;
          }
        }
        if me.skip.None? {
          s := s.(replicas := s.replicas[name := me.(skip := Some(!s.definitions[me.rd].initialized))]);
          return true;
        }
      }
      if me.diskless && me.inUse && !me.tieBreaker {
        var pool := FirstAvailablePool(me.node);
        if pool != "" {
          s := s.(replicas := s.replicas[name := me.(diskless := false, pool := pool)]);
          return true;
        }
      }
      return false;
    }

    method FirstAvailablePool(node: string) returns (pool: string)
      ensures pool == FirstPool(s.pools, node)
    {
      assert s.pools[0..] == s.pools;
      for k := 0 to |s.pools|
        invariant FirstPool(s.pools[k..], node) == FirstPool(s.pools, node)
      {
        assert s.pools[k..][0] == s.pools[k] && s.pools[k..][1..] == s.pools[k + 1..];
        if s.pools[k].node == node && !s.pools[k].diskless {
          return s.pools[k].name;
        }
      }
      return "";
    }

    /** One reconcile pass over a replica. */
    method Reconcile(name: string) returns (failed: bool, requeue: bool)
      modifies this
      ensures (if failed then Failed else Done(s, requeue)) == Cluster.Reconcile(day0, old(s), name)
      ensures failed ==> s == old(s)
    {
      if name !in s.replicas {
        return false, false;
      }
      var me := s.replicas[name];
      if me.deleting || me.legacyFinalizer {
        s := s.(replicas := s.replicas[name := me.(legacyFinalizer := false)]);
        return false, !me.deleting;
      }
      if me.rd == "" {
        return false, false;
      }
      if me.applied && me.rd !in s.definitions {
        s := s.(replicas := s.replicas[name := me.(deleting := true)]);
        return false, false;
      }
      var exhausted, mutated := AllocateAndApply(name);
      if exhausted || mutated {
        return exhausted, mutated;
      }
      requeue := RunApply(name);
      return false, requeue;
    }

    method SetSeedFromGi(specs: seq<VolumeSpec>, number: int, seed: string) returns (r: seq<VolumeSpec>)
      ensures r == SetSeed(specs, number, seed)
    {
      for i := 0 to |specs|
        invariant forall k | 0 <= k < i :: specs[k].number != number
      {
        if specs[i].number == number {
          SetSeedAt(specs, i, number, seed);
          return specs[i := specs[i].(seed := seed)];
        }
      }
      SetSeedAppends(specs, number, seed);
      r := specs + [VolumeSpec(number, seed)];
    }
  }

  lemma {:induction false} SetSeedAt(specs: seq<VolumeSpec>, i: nat, number: int, seed: string)
    requires i < |specs| && specs[i].number == number
    requires forall k | 0 <= k < i :: specs[k].number != number
    ensures SetSeed(specs, number, seed) == specs[i := specs[i].(seed := seed)]
    decreases |specs|
  {
    if i > 0 {
      SetSeedAt(specs[1..], i - 1, number, seed);
    }
  }

  lemma {:induction false} SetSeedAppends(specs: seq<VolumeSpec>, number: int, seed: string)
    requires forall k | 0 <= k < |specs| :: specs[k].number != number
    ensures SetSeed(specs, number, seed) == specs + [VolumeSpec(number, seed)]
    decreases |specs|
  {
    if specs != [] {
      SetSeedAppends(specs[1..], number, seed);
    }
  }

  function Prepend(done: seq<VolumeDefinition>, rest: Option<seq<VolumeDefinition>>): Option<seq<VolumeDefinition>>
  {
    if rest.None? then None else Some(done + rest.value)
  }

  lemma PrependAssoc(done: seq<VolumeDefinition>, v: VolumeDefinition, rest: Option<seq<VolumeDefinition>>)
    ensures Prepend(done, if rest.None? then None else Some([v] + rest.value)) == Prepend(done + [v], rest)
  {
    if rest.Some? {
      assert done + ([v] + rest.value) == done + [v] + rest.value;
    }
  }

  lemma {:induction false} PrunedSnoc(specs: seq<VolumeSpec>, last: VolumeSpec, d: Definition)
    ensures Pruned(specs + [last], d) == Pruned(specs, d) + if Declares(d, last.number) then [last] else []
    decreases |specs|
  {
    var all := specs + [last];
    if specs == [] {
      assert all[1..] == [];
    } else {
      assert all[1..] == specs[1..] + [last];
      PrunedSnoc(specs[1..], last, d);
    }
  }

  lemma PrunedShorter(specs: seq<VolumeSpec>, d: Definition)
    ensures |Pruned(specs, d)| <= |specs| && (|Pruned(specs, d)| == |specs| ==> Pruned(specs, d) == specs)
  {
    if specs != [] {
      PrunedShorter(specs[1..], d);
      assert specs == [specs[0]] + specs[1..];
    }
  }
}
