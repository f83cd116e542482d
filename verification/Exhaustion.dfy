/**
 When an allocation fails: the numbering of volumes takes the lowest free minors
 of the common range, so it runs out exactly when there are fewer than it needs.
 */
module Exhaustion {
  import opened Names
  import opened DrbdPool
  import opened Cluster
  import opened Identity

  function Bit(b: bool): nat { if b then 1 else 0 }

  function UnsetMinors(volumes: seq<VolumeDefinition>): nat
  {
    if volumes == [] then 0 else Bit(volumes[0].minor.None?) + UnsetMinors(volumes[1..])
  }

  function FreeValues(taken: set<int>, range: Range): set<int>
  {
    set v | range.low <= v <= range.high && v !in taken
  }

  function FreeBelow(taken: set<int>, range: Range, u: int): set<int>
  {
    set v | v in FreeValues(taken, range) && v < u
  }

  lemma LowestOfFree(taken: set<int>, range: Range)
    ensures LowestFree(taken, range).None? <==> FreeValues(taken, range) == {}
    ensures LowestFree(taken, range).Some? ==>
              var m := LowestFree(taken, range).value;
              m in FreeValues(taken, range) && FreeBelow(taken, range, m) == {}
              && FreeValues(taken + {m}, range) == FreeValues(taken, range) - {m}
  {
    if LowestFree(taken, range).Some? {
      assert LowestFree(taken, range).value in FreeValues(taken, range);
    }
  }

  // The minors given to the volumes that had none.
  function Given(volumes: seq<VolumeDefinition>, filled: seq<VolumeDefinition>): set<int>
    requires |volumes| == |filled|
  {
    if volumes == [] then {}
    else (if volumes[0].minor.None? && filled[0].minor.Some? then {filled[0].minor.value} else {})
         + Given(volumes[1..], filled[1..])
  }

  lemma BelowAfter(taken: set<int>, range: Range, m: int, u: int)
    requires LowestFree(taken, range) == Some(m) && u in FreeValues(taken, range) && u != m
    ensures |FreeBelow(taken + {m}, range, u)| == |FreeBelow(taken, range, u)| - 1
  {
    LowestOfFree(taken, range);
    assert m < u && m in FreeBelow(taken, range, u);
    assert FreeBelow(taken + {m}, range, u) == FreeBelow(taken, range, u) - {m};
  }

  /** Filling succeeds exactly when there are enough free minors, and gives out the
      lowest of them: a free value exactly when fewer free ones lie below it than
      there are volumes to number. */
  lemma {:induction false} FillExactly(volumes: seq<VolumeDefinition>, taken: set<int>, range: Range, u: int)
    ensures FillMinors(volumes, taken, range).Some? <==> UnsetMinors(volumes) <= |FreeValues(taken, range)|
    ensures FillMinors(volumes, taken, range).Some? ==>
              |FillMinors(volumes, taken, range).value| == |volumes|
              && (u in Given(volumes, FillMinors(volumes, taken, range).value)
                  <==> u in FreeValues(taken, range) && |FreeBelow(taken, range, u)| < UnsetMinors(volumes))
    decreases |volumes|
  {
    if volumes != [] {
      var rest := volumes[1..];
      if volumes[0].minor.Some? {
        FillExactly(rest, taken, range, u);
      } else {
        LowestOfFree(taken, range);
        if LowestFree(taken, range).Some? {
          var m := LowestFree(taken, range).value;
          FillExactly(rest, taken + {m}, range, u);
          if u in FreeValues(taken, range) && u != m {
            BelowAfter(taken, range, m, u);
          }
        }
      }
      if FillMinors(volumes, taken, range).Some? {
        var r := FillMinors(volumes, taken, range).value;
        assert r[1..] == FillMinors(rest, if volumes[0].minor.Some? then taken else taken + {LowestFree(taken, range).value}, range).value;
      }
    }
  }

  // What a pass can run out of

  predicate NoId(s: State, name: string)
    requires name in s.replicas
  {
    EffectiveId(s.replicas[name]).None? && FreeValues(Occupied(s, name), Range(0, MAX_PEERS - 1)) == {}
  }

  predicate NoPort(s: State, name: string)
    requires name in s.replicas
  {
    var node := s.replicas[name].node;
    EffectivePort(s.replicas[name]).None?
    && (PortRange(s, node).None? || FreeValues(PortsOnNode(s, node, name), PortRange(s, node).value) == {})
  }

  // Minors that numbering a definition must not hand out.
  function Spoken(s: State, rd: string): set<int>
    requires rd in s.definitions
  {
    TakenMinors(s, rd) + SetMinors(BackfilledVolumes(s.definitions[rd]))
  }

  predicate NoMinor(s: State, rd: string)
  {
    rd in s.definitions && !Complete(s.definitions[rd].volumes)
    && (HostRange(s, Hosts(s, rd)).None?
        || |FreeValues(Spoken(s, rd), HostRange(s, Hosts(s, rd)).value)| < UnsetMinors(BackfilledVolumes(s.definitions[rd])))
  }

  predicate Exhausted(s: State, name: string)
    requires name in s.replicas
  {
    NoId(s, name) || NoPort(s, name) || NoMinor(s, s.replicas[name].rd)
  }

  lemma PortExactly(s: State, name: string)
    requires name in s.replicas
    ensures EffectivePort(s.replicas[name]).None? && PickPort(s, name).None? <==> NoPort(s, name)
  {
    var me := s.replicas[name];
    if PortRange(s, me.node).Some? {
      var taken, range := PortsOnNode(s, me.node, name), PortRange(s, me.node).value;
      LowestOfFree(taken, range);
      if me.rd in s.definitions && s.definitions[me.rd].preferredPort.Some?
         && Free(taken, range, s.definitions[me.rd].preferredPort.value) {
        assert s.definitions[me.rd].preferredPort.value in FreeValues(taken, range);
      }
    }
  }

  lemma NumberedExactly(s: State, rd: string)
    requires rd in s.definitions
    ensures Numbered(s, rd).None? <==> NoMinor(s, rd)
  {
    var b := BackfilledVolumes(s.definitions[rd]);
    if HostRange(s, Hosts(s, rd)).Some? {
      FillExactly(b, Spoken(s, rd), HostRange(s, Hosts(s, rd)).value, 0);
    }
  }

  /** An allocation fails exactly when every peer id is occupied, the port range of
      the node is malformed or full, or the hosts' common range is malformed or has
      fewer free minors than the definition has volumes without one. */
  lemma ExhaustedExactly(s: State, name: string)
    requires name in s.replicas
    ensures AllocatePass(s, name).None? <==> Exhausted(s, name)
  {
    LowestOfFree(Occupied(s, name), Range(0, MAX_PEERS - 1));
    PortExactly(s, name);
    if s.replicas[name].rd in s.definitions {
      NumberedExactly(s, s.replicas[name].rd);
    }
  }
}
