/**
 The witness reconciler as it runs: filters and counts over lists, deletes and
 creates as it goes. Proved against the witness pass of module Placement.
 */
module TieBreaker {
  import opened Names
  import opened Placement
  import opened Witness

  function LiveAmong(s: State, seen: set<string>): set<string>
    requires seen <= s.replicas.Keys
  {
    set n | n in seen && !Stranded(s, n)
  }

  function TaggedAmong(s: State, seen: set<string>): set<string>
  {
    set n | n in seen && n in s.replicas && s.replicas[n].tieBreaker
  }

  class Reconciler {
    var s: State

    constructor (s: State)
      ensures this.s == s
    {
      this.s := s;
    }

    /** Replicas on live nodes, and those on draining or vanished ones. */
    method SplitByNode(replicas: seq<string>) returns (live: seq<string>, stranded: seq<string>)
      requires Lists(replicas, s.replicas.Keys)
      ensures Lists(live, LiveAmong(s, s.replicas.Keys))
      ensures Elems(stranded) == s.replicas.Keys - LiveAmong(s, s.replicas.Keys)
    {
      live, stranded := [], [];
      for k := 0 to |replicas|
        invariant Lists(live, LiveAmong(s, Elems(replicas[..k])))
        invariant Elems(stranded) == Elems(replicas[..k]) - LiveAmong(s, Elems(replicas[..k]))
      {
        var n := replicas[k];
        assert n in Elems(replicas);
        Visit(replicas, k);
        ghost var seen := Elems(replicas[..k]);
        assert n !in seen;
        if n in s.nodes && !Draining(s.nodes[n]) {
          assert LiveAmong(s, seen + {n}) == LiveAmong(s, seen) + {n};
          ListAppend(live, LiveAmong(s, seen), n);
          live := live + [n];
        } else {
          assert LiveAmong(s, seen + {n}) == LiveAmong(s, seen);
          assert Elems(stranded + [n]) == Elems(stranded) + {n};
          stranded := stranded + [n];
        }
      }
      assert replicas[..|replicas|] == replicas;
    }

    /** Delete the witnesses among stranded replicas. */
    method RemoveStrandedWitnesses(stranded: seq<string>)
      requires Elems(stranded) <= s.replicas.Keys
      modifies this
      ensures s == old(s).(replicas := Marked(old(s).replicas, set n | n in Elems(stranded) && old(s).replicas[n].tieBreaker))
    {
      ghost var before := s;
      MarkedNone(s.replicas);
      for k := 0 to |stranded|
        invariant s == before.(replicas := Marked(before.replicas, TaggedAmong(before, Elems(stranded[..k]))))
      {
        var n := stranded[k];
        assert n in Elems(stranded);
        Visit(stranded, k);
        ghost var seen := Elems(stranded[..k]);
        if s.replicas[n].tieBreaker {
          MarkedIdempotent(before.replicas, TaggedAmong(before, seen), {n});
          assert TaggedAmong(before, seen + {n}) == TaggedAmong(before, seen) + {n};
          DeleteReplica(n);
        } else {
          assert TaggedAmong(before, seen + {n}) == TaggedAmong(before, seen);
        }
      }
      assert stranded[..|stranded|] == stranded;
      assert TaggedAmong(before, Elems(stranded)) == set n | n in Elems(stranded) && before.replicas[n].tieBreaker;
    }

    /** Live replicas; witnesses on draining or vanished nodes are deleted. */
    method DropStranded(replicas: seq<string>) returns (live: seq<string>)
      requires Lists(replicas, s.replicas.Keys)
      modifies this
      ensures s == old(s).(replicas := Marked(old(s).replicas, StrandedWitnesses(old(s))))
      ensures Lists(live, LiveAmong(old(s), old(s).replicas.Keys))
    {
      var stranded;
      live, stranded := SplitByNode(replicas);
      assert (set n | n in Elems(stranded) && s.replicas[n].tieBreaker) == StrandedWitnesses(s);
      RemoveStrandedWitnesses(stranded);
    }

    method DeleteReplica(n: string)
      requires n in s.replicas
      modifies this
      ensures s == old(s).(replicas := Marked(old(s).replicas, {n}))
    {
      s := s.(replicas := s.replicas[n := s.replicas[n].(deleting := true)]);
      assert s.replicas == Marked(old(s).replicas, {n});
    }

    /** Active replicas split by disk, the witnesses among the diskless ones, and
        whether an inactive replica was left out. */
    method Split(live: seq<string>) returns (diskful: seq<string>, diskless: seq<string>, breakers: seq<string>, hasInactive: bool)
      requires Lists(live, LiveAmong(s, s.replicas.Keys))
      ensures Lists(diskful, Diskful(s)) && Lists(diskless, Diskless(s)) && Lists(breakers, Witnesses(s))
      ensures hasInactive == HasInactive(s)
    {
      diskful, diskless, breakers, hasInactive := [], [], [], false;
      assert forall i | 0 <= i < |live| :: live[i] in Elems(live);
      for k := 0 to |live|
        invariant Lists(diskful, Diskful(s) * Elems(live[..k]))
        invariant Lists(diskless, Diskless(s) * Elems(live[..k]))
        invariant Lists(breakers, Witnesses(s) * Elems(live[..k]))
        invariant hasInactive <==> exists i :: 0 <= i < k && s.replicas[live[i]].inactive
      {
        var n := live[k];
        assert n in Elems(live);
        Visit(live, k);
        assert n !in Elems(live[..k]);
        var r := s.replicas[n];
        if r.inactive {
          hasInactive := true;
          assert Diskful(s) * Elems(live[..k + 1]) == Diskful(s) * Elems(live[..k]);
          assert Diskless(s) * Elems(live[..k + 1]) == Diskless(s) * Elems(live[..k]);
          assert Witnesses(s) * Elems(live[..k + 1]) == Witnesses(s) * Elems(live[..k]);
          continue;
        }
        assert n in Active(s);
        if r.diskless {
          ListAppend(diskless, Diskless(s) * Elems(live[..k]), n);
          assert Diskless(s) * Elems(live[..k + 1]) == Diskless(s) * Elems(live[..k]) + {n};
          assert Diskful(s) * Elems(live[..k + 1]) == Diskful(s) * Elems(live[..k]);
          diskless := diskless + [n];
          if r.tieBreaker {
            ListAppend(breakers, Witnesses(s) * Elems(live[..k]), n);
            assert Witnesses(s) * Elems(live[..k + 1]) == Witnesses(s) * Elems(live[..k]) + {n};
            breakers := breakers + [n];
          } else {
            assert Witnesses(s) * Elems(live[..k + 1]) == Witnesses(s) * Elems(live[..k]);
          }
        } else {
          ListAppend(diskful, Diskful(s) * Elems(live[..k]), n);
          assert Diskful(s) * Elems(live[..k + 1]) == Diskful(s) * Elems(live[..k]) + {n};
          assert Diskless(s) * Elems(live[..k + 1]) == Diskless(s) * Elems(live[..k]);
          assert Witnesses(s) * Elems(live[..k + 1]) == Witnesses(s) * Elems(live[..k]);
          diskful := diskful + [n];
        }
      }
      assert live[..|live|] == live;
      assert Diskful(s) * Elems(live) == Diskful(s) && Diskless(s) * Elems(live) == Diskless(s);
      assert Witnesses(s) * Elems(live) == Witnesses(s);
      forall n | n in s.replicas && !Stranded(s, n) && s.replicas[n].inactive ensures hasInactive {
        assert n in Elems(live);
        var i :| 0 <= i < |live| && live[i] == n;
      }
      if hasInactive {
        var i :| 0 <= i < |live| && s.replicas[live[i]].inactive;
        assert live[i] in Elems(live);
      }
    }

    /** The first eligible node, in name order, that hosts no replica. */
    method PickTieBreakerNode(hosting: set<string>) returns (host: Option<string>)
      requires hosting == s.replicas.Keys
      ensures host == if Candidates(s) == {} then None else Some(Least(Candidates(s)))
    {
      var nodes := ListKeys(s.nodes.Keys);
      host := None;
      for k := 0 to |nodes|
        invariant host.None? ==> Candidates(s) * Elems(nodes[..k]) == {}
        invariant host.Some? ==> IsLeast(host.value, Candidates(s) * Elems(nodes[..k]))
      {
        var n := nodes[k];
        assert n in Elems(nodes);
        Visit(nodes, k);
        if n in hosting || Draining(s.nodes[n]) || s.nodes[n].excluded || !s.nodes[n].satellite {
          assert Candidates(s) * Elems(nodes[..k + 1]) == Candidates(s) * Elems(nodes[..k]);
          continue;
        }
        assert Candidates(s) * Elems(nodes[..k + 1]) == Candidates(s) * Elems(nodes[..k]) + {n};
        if host.None? {
          host := Some(n);
        } else {
          LessTotal(host.value, n);
          if Less(n, host.value) {
            forall x | x in Candidates(s) * Elems(nodes[..k]) ensures Less(n, x) {
              if x != host.value {
                LessTransitive(n, host.value, x);
              }
            }
            host := Some(n);
          }
        }
      }
      assert nodes[..|nodes|] == nodes;
      assert Candidates(s) * Elems(nodes) == Candidates(s);
      LeastUnique(Candidates(s));
    }

    method RemoveWitnesses(breakers: seq<string>)
      requires Elems(breakers) <= s.replicas.Keys
      modifies this
      ensures s == old(s).(replicas := Marked(old(s).replicas, Elems(breakers)))
    {
      ghost var before := s;
      assert Marked(s.replicas, {}) == s.replicas;
      for k := 0 to |breakers|
        invariant s == before.(replicas := Marked(before.replicas, Elems(breakers[..k])))
      {
        assert breakers[k] in Elems(breakers);
        Visit(breakers, k);
        DeleteReplica(breakers[k]);
      }
      assert breakers[..|breakers|] == breakers;
    }

    /** Create or remove the witness; the diskless count the quorum is computed from. */
    method ApplyWitnessDecision(ghost before: State, diskless: seq<string>, breakers: seq<string>, wanted: bool) returns (after: int)
      requires s == before.(replicas := Marked(before.replicas, StrandedWitnesses(before)))
      requires Lists(diskless, Diskless(before)) && Lists(breakers, Witnesses(before)) && wanted == Wanted(before)
      modifies this
      ensures s == before.(replicas := DecideWitness(before, false).0) && after == DecideWitness(before, false).1
    {
      ListSize(diskless, Diskless(before));
      ListSize(breakers, Witnesses(before));
      after := |diskless|;
      if wanted && |breakers| == 0 {
        MarkedSameView(before, s, StrandedWitnesses(before));
        var host := PickTieBreakerNode(s.replicas.Keys);
        if host.Some? {
          s := s.(replicas := s.replicas[host.value := WITNESS]);
          after := after + 1;
        }
      } else if !wanted && |breakers| > 0 {
        StrandedNotActive(before);
        RemoveWitnesses(breakers);
        after := |diskless| - |breakers|;
        assert |Diskless(before) - Witnesses(before)| == |Diskless(before)| - |Witnesses(before)|;
      }
    }

    /** One pass over the witness and the quorum policy. */
    method EnsureTiebreaker()
      modifies this
      ensures s == EnsureTieBreaker(old(s))
    {
      if !s.policy.replicated {
        return;
      }
      ghost var before := s;
      var replicas := ListKeys(s.replicas.Keys);
      var live := DropStranded(replicas);
      MarkedSameView(before, s, StrandedWitnesses(before));
      assert LiveAmong(before, before.replicas.Keys) == LiveAmong(s, s.replicas.Keys);
      var diskful, diskless, breakers, hasInactive := Split(live);
      ListSize(diskful, Diskful(before));
      ListSize(diskless, Diskless(before));
      ListSize(breakers, Witnesses(before));
      var wanted := ShouldExist(s.policy, |diskful|, |diskless|, |breakers|, hasInactive);
      var after := ApplyWitnessDecision(before, diskless, breakers, wanted);
      if s.policy.autoQuorum {
        SetQuorumProps(QuorumPolicy(|diskful|, after));
      }
    }

    /** Stamp the policy in both slots; an on-no-quorum value already there wins. */
    method SetQuorumProps(value: string)
      modifies this
      ensures s == old(s).(quorum := SetQuorum(old(s).quorum, value))
    {
      if QuorumSet(s.quorum, value) {
        return;
      }
      var q := s.quorum.(prop := Some(value), typed := value);
      if value == MAJORITY {
        if q.onLossProp.None? {
          q := q.(onLossProp := Some(SUSPEND));
        }
        if q.onLossTyped == "" {
          q := q.(onLossTyped := SUSPEND);
        }
      }
      s := s.(quorum := q);
    }
  }
}
