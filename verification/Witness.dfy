/**
 The witness machine never flaps, and the quorum it stamps is the quorum the
 remaining voters can hold.
 */
module Witness {
  import opened Names
  import opened Placement

  // Marking changes no flag the decision reads.
  lemma MarkedSameView(s: State, t: State, doomed: set<string>)
    requires t.replicas == Marked(s.replicas, doomed) && t.nodes == s.nodes && t.policy == s.policy
    ensures Active(t) == Active(s) && Diskful(t) == Diskful(s) && Diskless(t) == Diskless(s) && Witnesses(t) == Witnesses(s)
    ensures HasInactive(t) == HasInactive(s) && Candidates(t) == Candidates(s) && StrandedWitnesses(t) == StrandedWitnesses(s)
  {
  }

  lemma MarkedIdempotent(replicas: map<string, Replica>, a: set<string>, b: set<string>)
    ensures Marked(Marked(replicas, a), a) == Marked(replicas, a)
    ensures Marked(Marked(Marked(replicas, a), b), a) == Marked(Marked(replicas, a), b)
    ensures Marked(Marked(replicas, a), b) == Marked(replicas, a + b)
  {
  }

  // Adding the witness the pass decided on.
  lemma CreatedView(s: State, t: State, host: string)
    requires host in Candidates(s) && t.nodes == s.nodes && t.policy == s.policy
    requires t.replicas == Marked(s.replicas, StrandedWitnesses(s))[host := WITNESS]
    ensures Active(t) == Active(s) + {host} && Diskful(t) == Diskful(s) && Diskless(t) == Diskless(s) + {host}
    ensures Witnesses(t) == Witnesses(s) + {host} && HasInactive(t) == HasInactive(s)
    ensures StrandedWitnesses(t) == StrandedWitnesses(s) && Candidates(t) == Candidates(s) - {host}
  {
    assert host !in s.replicas && !Stranded(s, host);
    assert HasInactive(t) == HasInactive(s) by {
      if HasInactive(s) {
        var n :| n in s.replicas && !Stranded(s, n) && s.replicas[n].inactive;
        assert n in t.replicas && t.replicas[n].inactive && !Stranded(t, n);
      }
    }
  }

  lemma QuorumFixed(q: Quorum, value: string)
    ensures QuorumSet(SetQuorum(q, value), value) && SetQuorum(SetQuorum(q, value), value) == SetQuorum(q, value)
  {
  }

  predicate Creates(s: State)
  {
    s.policy.replicated && Wanted(s) && Witnesses(s) == {} && Candidates(s) != {}
  }

  // The witnesses a pass takes away from live nodes.
  function Removed(s: State): set<string>
  {
    if Wanted(s) then {} else Witnesses(s)
  }

  // The replicas a pass asks to be deleted.
  function Requested(s: State): set<string>
  {
    StrandedWitnesses(s) + Removed(s)
  }

  function Stamp(s: State, diskless: int): Quorum
  {
    if s.policy.autoQuorum then SetQuorum(s.quorum, QuorumPolicy(|Diskful(s)|, diskless)) else s.quorum
  }

  // A pass that creates nothing only marks.
  lemma OtherPass(s: State)
    requires s.policy.replicated && !Creates(s)
    ensures EnsureTieBreaker(s)
            == s.(replicas := Marked(s.replicas, Requested(s)), quorum := Stamp(s, |Diskless(s) - Removed(s)|))
    ensures DecideWitness(s, false).1 == |Diskless(s) - Removed(s)|
  {
    MarkedIdempotent(s.replicas, StrandedWitnesses(s), Removed(s));
    assert StrandedWitnesses(s) + {} == StrandedWitnesses(s) && Diskless(s) - {} == Diskless(s);
  }

  lemma FixedAfterCreate(s: State)
    requires Creates(s)
    ensures EnsureTieBreaker(EnsureTieBreaker(s)) == EnsureTieBreaker(s)
  {
    var t := EnsureTieBreaker(s);
    var host := Least(Candidates(s));
    CreatedView(s, t, host);
    assert |Diskless(t)| == |Diskless(s)| + 1 && |Witnesses(t)| == 1;
    assert Wanted(t);
    var reaped := Marked(s.replicas, StrandedWitnesses(s));
    assert host !in s.replicas;
    assert Marked(t.replicas, StrandedWitnesses(t)) == t.replicas;
    QuorumFixed(s.quorum, QuorumPolicy(|Diskful(s)|, |Diskless(s)| + 1));
  }

  lemma FixedOtherwise(s: State)
    requires s.policy.replicated && !Creates(s)
    ensures EnsureTieBreaker(EnsureTieBreaker(s)) == EnsureTieBreaker(s)
  {
    var t := EnsureTieBreaker(s);
    OtherPass(s);
    MarkedSameView(s, t, Requested(s));
    OtherPass(t);
    MarkedIdempotent(s.replicas, Requested(s), {});
    QuorumFixed(s.quorum, QuorumPolicy(|Diskful(s)|, DecideWitness(s, false).1));
  }

  /** From any state one pass reaches a fixed point: a second pass creates,
      deletes and updates nothing. */
  lemma OnePassSettles(s: State)
    ensures EnsureTieBreaker(EnsureTieBreaker(s)) == EnsureTieBreaker(s)
  {
    if Creates(s) {
      FixedAfterCreate(s);
    } else if s.policy.replicated {
      FixedOtherwise(s);
    }
  }

  // Deletions

  // The same state once some deletions have finished.
  function Finished(s: State, gone: set<string>): State
  {
    s.(replicas := s.replicas - gone)
  }

  lemma StrandedNotActive(s: State)
    ensures StrandedWitnesses(s) !! Active(s) && Witnesses(s) <= Diskless(s) <= Active(s) && Removed(s) <= Witnesses(s)
  {
  }

  // The view after removing witnesses, stranded or not.
  lemma RemovedView(s: State, gone: set<string>)
    requires gone <= StrandedWitnesses(s) + Witnesses(s)
    ensures var u := Finished(s, gone);
            Diskful(u) == Diskful(s) && Diskless(u) == Diskless(s) - gone && Witnesses(u) == Witnesses(s) - gone
            && StrandedWitnesses(u) == StrandedWitnesses(s) - gone && HasInactive(u) == HasInactive(s)
  {
    var u := Finished(s, gone);
    if HasInactive(s) {
      var n :| n in s.replicas && !Stranded(s, n) && s.replicas[n].inactive;
      assert n in u.replicas && u.replicas[n].inactive && !Stranded(u, n);
    }
  }

  lemma RemovedCandidates(s: State, gone: set<string>)
    requires gone <= StrandedWitnesses(s)
    ensures Candidates(Finished(s, gone)) == Candidates(s)
  {
    forall n | n in Candidates(Finished(s, gone)) ensures n in Candidates(s) {
      assert n in gone ==> Stranded(s, n);
    }
  }

  lemma DropSizes(diskless: set<string>, witnesses: set<string>, gone: set<string>)
    requires witnesses <= diskless && gone * diskless <= witnesses
    ensures |diskless - gone| == |diskless| - |gone * witnesses| && |witnesses - gone| == |witnesses| - |gone * witnesses|
  {
    var left := gone * witnesses;
    assert diskless - gone == diskless - left && witnesses - gone == witnesses - left;
    assert left <= diskless;
  }

  // Whether a witness is wanted does not depend on unwanted ones being there.
  lemma UnwantedDropped(policy: Policy, diskful: int, diskless: int, witnesses: int, hasInactive: bool, k: int)
    requires 0 <= k <= witnesses && !ShouldExist(policy, diskful, diskless, witnesses, hasInactive)
    ensures !ShouldExist(policy, diskful, diskless - k, witnesses - k, hasInactive)
  {
  }

  lemma RemovedWanted(s: State, gone: set<string>)
    requires gone <= Requested(s)
    ensures Wanted(Finished(s, gone)) == Wanted(s)
  {
    StrandedNotActive(s);
    RemovedView(s, gone);
    DropSizes(Diskless(s), Witnesses(s), gone);
    var k := |gone * Witnesses(s)|;
    SubsetSize(gone * Witnesses(s), Witnesses(s));
    if Wanted(s) {
      assert gone * Witnesses(s) == {};
    } else {
      UnwantedDropped(s.policy, |Diskful(s)|, |Diskless(s)|, |Witnesses(s)|, HasInactive(s), k);
    }
  }

  lemma CreatePass(s: State)
    requires Creates(s)
    ensures EnsureTieBreaker(s)
            == s.(replicas := Marked(s.replicas, StrandedWitnesses(s))[Least(Candidates(s)) := WITNESS],
                  quorum := Stamp(s, |Diskless(s)| + 1))
  {
  }

  lemma MarkedRemoved(replicas: map<string, Replica>, doomed: set<string>, gone: set<string>)
    ensures Marked(replicas, doomed) - gone == Marked(replicas - gone, doomed - gone)
  {
  }

  lemma StrandedGone(s: State, gone: set<string>)
    requires gone <= StrandedWitnesses(s)
    ensures var r := Finished(s, gone);
            Candidates(r) == Candidates(s) && Diskful(r) == Diskful(s) && Diskless(r) == Diskless(s)
            && Witnesses(r) == Witnesses(s) && StrandedWitnesses(r) == StrandedWitnesses(s) - gone
  {
    StrandedNotActive(s);
    RemovedView(s, gone);
    RemovedCandidates(s, gone);
    assert gone !! Diskless(s);
  }

  lemma StillCreates(s: State, gone: set<string>)
    requires Creates(s) && gone <= StrandedWitnesses(s)
    ensures var r := Finished(s, gone);
            Creates(r) && Candidates(r) == Candidates(s) && Diskful(r) == Diskful(s) && Diskless(r) == Diskless(s)
            && StrandedWitnesses(r) == StrandedWitnesses(s) - gone
  {
    StrandedGone(s, gone);
    RemovedWanted(s, gone);
  }

  lemma CreateCommutes(s: State, gone: set<string>)
    requires Creates(s) && gone <= StrandedWitnesses(s)
    ensures Finished(EnsureTieBreaker(s), gone) == EnsureTieBreaker(Finished(s, gone))
  {
    var host := Least(Candidates(s));
    StillCreates(s, gone);
    CreatePass(s);
    CreatePass(Finished(s, gone));
    MarkedRemoved(s.replicas, StrandedWitnesses(s), gone);
    assert host !in gone;
    var marked := Marked(s.replicas, StrandedWitnesses(s));
    assert marked[host := WITNESS] - gone == (marked - gone)[host := WITNESS];
  }

  lemma DropRequested(diskless: set<string>, stranded: set<string>, removed: set<string>, gone: set<string>)
    requires stranded !! diskless && removed <= diskless && gone <= stranded + removed
    ensures (stranded - gone) + (removed - gone) == (stranded + removed) - gone
    ensures (diskless - gone) - (removed - gone) == diskless - removed
  {
  }

  lemma RemovedAfter(s: State, gone: set<string>)
    requires gone <= Requested(s)
    ensures Removed(Finished(s, gone)) == Removed(s) - gone
    ensures Wanted(s) ==> gone <= StrandedWitnesses(s)
  {
    StrandedNotActive(s);
    RemovedView(s, gone);
    RemovedWanted(s, gone);
  }

  lemma StaysUncreated(s: State, gone: set<string>)
    requires s.policy.replicated && !Creates(s) && gone <= Requested(s)
    ensures !Creates(Finished(s, gone))
  {
    RemovedWanted(s, gone);
    RemovedAfter(s, gone);
    if Wanted(s) {
      StrandedGone(s, gone);
    }
  }

  // The view of the rest of a pass that creates nothing.
  lemma OtherView(s: State, gone: set<string>)
    requires s.policy.replicated && !Creates(s) && gone <= Requested(s)
    ensures var r := Finished(s, gone);
            Requested(r) == Requested(s) - gone && Diskful(r) == Diskful(s)
            && Diskless(r) - Removed(r) == Diskless(s) - Removed(s)
  {
    StrandedNotActive(s);
    RemovedView(s, gone);
    RemovedAfter(s, gone);
    DropRequested(Diskless(s), StrandedWitnesses(s), Removed(s), gone);
  }

  lemma OtherCommutes(s: State, gone: set<string>)
    requires s.policy.replicated && !Creates(s) && gone <= Requested(s)
    ensures Finished(EnsureTieBreaker(s), gone) == EnsureTieBreaker(Finished(s, gone))
  {
    OtherView(s, gone);
    StaysUncreated(s, gone);
    OtherPass(s);
    OtherPass(Finished(s, gone));
    MarkedRemoved(s.replicas, Requested(s), gone);
  }

  /** Nor does the pass act again when deletions it asked for finish, whichever of
      them have: reaping commutes with the pass. */
  lemma SettledAfterTeardown(s: State, gone: set<string>)
    requires gone <= Requested(s)
    ensures Finished(EnsureTieBreaker(s), gone) == EnsureTieBreaker(Finished(s, gone))
    ensures var u := Finished(EnsureTieBreaker(s), gone); EnsureTieBreaker(u) == u
  {
    if Creates(s) {
      assert Removed(s) == {};
      CreateCommutes(s, gone);
    } else if s.policy.replicated {
      OtherCommutes(s, gone);
    }
    OnePassSettles(Finished(s, gone));
  }

  /** A pass never raises the number of active witnesses above one, and a new
      one stands alone on the first eligible node that holds no replica. */
  lemma AtMostOneWitnessAdded(s: State)
    ensures var t := EnsureTieBreaker(s);
            |Witnesses(t)| <= |Witnesses(s)|
            || (Witnesses(s) == {} && Candidates(s) != {} && Witnesses(t) == {Least(Candidates(s))})
  {
    var t := EnsureTieBreaker(s);
    if Creates(s) {
      CreatedView(s, t, Least(Candidates(s)));
    } else if s.policy.replicated {
      OtherPass(s);
      MarkedSameView(s, t, Requested(s));
    }
  }

  /** Nothing but witnesses is ever created or deleted. */
  lemma OnlyWitnessesTouched(s: State, n: string)
    requires n in s.replicas
    ensures var t := EnsureTieBreaker(s);
            n in t.replicas && (t.replicas[n] == s.replicas[n]
                                || (s.replicas[n].tieBreaker && t.replicas[n] == s.replicas[n].(deleting := true)))
  {
  }

  lemma MarkedNone(replicas: map<string, Replica>)
    ensures Marked(replicas, {}) == replicas
  {
  }

  // Quorum

  // Replicas that will still vote: on a live node, active, not being deleted.
  function Voters(s: State): set<string>
  {
    set n | n in Active(s) && !s.replicas[n].deleting
  }

  function DiskfulVoters(s: State): set<string>
  {
    set n | n in Voters(s) && !s.replicas[n].diskless
  }

  function DisklessVoters(s: State): set<string>
  {
    set n | n in Voters(s) && s.replicas[n].diskless
  }

  function Deserved(s: State): string
  {
    QuorumPolicy(|DiskfulVoters(s)|, |DisklessVoters(s)|)
  }

  predicate StampedIs(s: State, value: string)
  {
    s.quorum.prop == Some(value) && s.quorum.typed == value
  }

  predicate NoneDeleting(s: State)
  {
    forall n | n in s.replicas :: !s.replicas[n].deleting
  }

  // Diskless replicas the pass counts, and those among them that will vote.
  function CountedDiskless(s: State): int
  {
    if Creates(s) then |Diskless(s)| + 1 else |Diskless(s) - Removed(s)|
  }

  function VotingDiskless(s: State): int
  {
    if Creates(s) then |DisklessVoters(s)| + 1 else |DisklessVoters(s) - Removed(s)|
  }

  lemma CreatedVoters(s: State, t: State, host: string)
    requires host in Candidates(s) && t.nodes == s.nodes
    requires t.replicas == Marked(s.replicas, StrandedWitnesses(s))[host := WITNESS]
    ensures DiskfulVoters(t) == DiskfulVoters(s) && DisklessVoters(t) == DisklessVoters(s) + {host}
  {
    forall n | n in s.replicas && !Stranded(s, n) ensures n != host && t.replicas[n] == s.replicas[n] {
    }
    assert !Stranded(t, host) && host in Voters(t);
    assert Voters(t) == Voters(s) + {host};
  }

  lemma MarkedVoters(s: State, t: State, doomed: set<string>)
    requires t.replicas == Marked(s.replicas, doomed) && t.nodes == s.nodes
    ensures DiskfulVoters(t) == DiskfulVoters(s) - doomed && DisklessVoters(t) == DisklessVoters(s) - doomed
  {
  }

  lemma VotersRequested(s: State)
    ensures DiskfulVoters(s) - Requested(s) == DiskfulVoters(s)
    ensures DisklessVoters(s) - Requested(s) == DisklessVoters(s) - Removed(s)
  {
    StrandedNotActive(s);
    assert StrandedWitnesses(s) !! Voters(s);
    assert Removed(s) !! DiskfulVoters(s);
  }

  lemma VotersAfterOther(s: State)
    requires s.policy.replicated && !Creates(s)
    ensures var t := EnsureTieBreaker(s);
            DiskfulVoters(t) == DiskfulVoters(s) && DisklessVoters(t) == DisklessVoters(s) - Removed(s)
  {
    VotersRequested(s);
    OtherPass(s);
    MarkedVoters(s, EnsureTieBreaker(s), Requested(s));
  }

  lemma VotersAfter(s: State)
    requires s.policy.replicated
    ensures var t := EnsureTieBreaker(s);
            DiskfulVoters(t) == DiskfulVoters(s) && |DisklessVoters(t)| == VotingDiskless(s)
            && t.quorum == Stamp(s, CountedDiskless(s))
  {
    if Creates(s) {
      CreatePass(s);
      CreatedVoters(s, EnsureTieBreaker(s), Least(Candidates(s)));
      assert Least(Candidates(s)) !in DisklessVoters(s);
    } else {
      VotersAfterOther(s);
      OtherPass(s);
    }
  }

  /** After an undisturbed pass both quorum slots hold what the remaining voters
      deserve exactly when leaving out the replicas already being deleted would not
      have changed the verdict. */
  lemma QuorumExactly(s: State)
    requires s.policy.replicated && s.policy.autoQuorum
    ensures var t := EnsureTieBreaker(s);
            StampedIs(t, Deserved(t))
            <==> QuorumPolicy(|Diskful(s)|, CountedDiskless(s)) == QuorumPolicy(|DiskfulVoters(s)|, VotingDiskless(s))
  {
    VotersAfter(s);
    assert MAJORITY != OFF;
  }

  /** With none being deleted it always does: majority exactly when two diskful voters
      and a diskless one, or three diskful ones, remain; and no on-no-quorum value
      that was there is overwritten, deletions or not. */
  lemma QuorumMatchesVoters(s: State)
    requires s.policy.replicated && s.policy.autoQuorum
    ensures var t := EnsureTieBreaker(s);
            (NoneDeleting(s) ==>
               StampedIs(t, Deserved(t))
               && (StampedIs(t, MAJORITY) <==> (|DiskfulVoters(t)| == 2 && |DisklessVoters(t)| >= 1) || |DiskfulVoters(t)| >= 3))
            && (s.quorum.onLossProp.Some? ==> t.quorum.onLossProp == s.quorum.onLossProp)
            && (s.quorum.onLossTyped != "" ==> t.quorum.onLossTyped == s.quorum.onLossTyped)
            && (StampedIs(t, MAJORITY) ==> t.quorum.onLossProp.Some? && t.quorum.onLossTyped != "")
  {
    VotersAfter(s);
    QuorumExactly(s);
    assert MAJORITY != OFF;
    if NoneDeleting(s) {
      assert Voters(s) == Active(s) && DiskfulVoters(s) == Diskful(s) && DisklessVoters(s) == Diskless(s);
    }
  }

  /** If the chosen host vanishes during the pass, a voter is counted that does not
      exist; the stamp is right exactly when three diskful voters remain anyway. */
  lemma PhantomVoterExactly(s: State)
    requires Creates(s) && s.policy.autoQuorum
    ensures var t := Ensure(s, true); StampedIs(t, Deserved(t)) <==> |DiskfulVoters(s)| >= 3
  {
    var t := Ensure(s, true);
    StrandedNotActive(s);
    assert |Diskful(s)| >= 2 && |Diskless(s)| == 0;
    assert Diskless(s) == {};
    assert DiskfulVoters(t) == DiskfulVoters(s);
    assert DisklessVoters(t) == {};
    assert MAJORITY != OFF;
  }

  /** Such a pass: two diskful replicas, and the one free node is gone once its witness
      was created. Majority is stamped for two voters. */
  lemma PhantomVoterCounted() returns (s: State)
    ensures Creates(s) && s.policy.autoQuorum
    ensures var t := Ensure(s, true); StampedIs(t, MAJORITY) && Deserved(t) == OFF
  {
    var up := Node(false, false, false, true);
    var full := Replica(false, false, false, false, [true], "");
    s := State(map["a" := full, "b" := full], map["a" := up, "b" := up, "c" := up],
               Policy(true, true, false, false, true), Quorum(None, "", None, ""));
    assert Diskful(s) == {"a", "b"} && Diskless(s) == {} && Witnesses(s) == {} && "c" in Candidates(s);
    assert Wanted(s);
    assert DiskfulVoters(s) == {"a", "b"};
    PhantomVoterExactly(s);
    assert MAJORITY != OFF;
  }

  /** A replica already being deleted is counted as a voter all the same. */
  lemma DeletingReplicaCounted() returns (s: State)
    ensures s.policy.replicated && s.policy.autoQuorum && !NoneDeleting(s)
    ensures var t := EnsureTieBreaker(s); StampedIs(t, MAJORITY) && Deserved(t) == OFF
  {
    var up := Node(false, false, false, true);
    var full := Replica(false, false, false, false, [true], "");
    s := State(map["a" := full, "b" := full.(deleting := true), "c" := WITNESS],
               map["a" := up, "b" := up, "c" := up],
               Policy(true, true, false, false, true), Quorum(None, "", None, ""));
    assert Diskful(s) == {"a", "b"} && Diskless(s) == {"c"} && Witnesses(s) == {"c"};
    assert s.replicas["b"].deleting;
    assert Wanted(s);
    assert StrandedWitnesses(s) == {};
    var t := EnsureTieBreaker(s);
    assert t.replicas == s.replicas;
    assert DiskfulVoters(t) == {"a"};
  }

  // The decision, on the fields of replicas, nodes and policy

  // On a node that is there, neither evicted nor lost.
  predicate Standing(s: State, n: string)
  {
    n in s.nodes && !s.nodes[n].evicted && !s.nodes[n].lost
  }

  function Full(s: State): set<string>
  {
    set n | n in s.replicas && Standing(s, n) && !s.replicas[n].inactive && !s.replicas[n].diskless
  }

  function Thin(s: State): set<string>
  {
    set n | n in s.replicas && Standing(s, n) && !s.replicas[n].inactive && s.replicas[n].diskless
  }

  function Tagged(s: State): set<string>
  {
    set n | n in Thin(s) && s.replicas[n].tieBreaker
  }

  // Nodes that are up, may be placed on, and hold no replica.
  function Open(s: State): set<string>
  {
    set n | n in s.nodes && Standing(s, n) && !s.nodes[n].excluded && s.nodes[n].satellite && n !in s.replicas
  }

  predicate SomeInactive(s: State)
  {
    exists n | n in s.replicas :: Standing(s, n) && s.replicas[n].inactive
  }

  lemma ViewsAgree(s: State)
    ensures Full(s) == Diskful(s) && Thin(s) == Diskless(s) && Tagged(s) == Witnesses(s) && Open(s) == Candidates(s)
    ensures SomeInactive(s) <==> HasInactive(s)
    ensures forall n | n in s.replicas :: Stranded(s, n) <==> !Standing(s, n)
  {
    if HasInactive(s) {
      var n :| n in s.replicas && !Stranded(s, n) && s.replicas[n].inactive;
      assert Standing(s, n);
    }
    if SomeInactive(s) {
      var n :| n in s.replicas && Standing(s, n) && s.replicas[n].inactive;
      assert !Stranded(s, n);
    }
  }

  /** A pass adds a witness exactly when the definition is replicated, wants tie-breakers
      and is not suppressed, its active diskful replicas are an even number, two at
      least, no active replica is diskless, and a node is open for one. It is then one
      diskless TIE_BREAKER on the first open node by name. */
  lemma AddsExactly(s: State)
    ensures var t := EnsureTieBreaker(s);
            (exists n :: n in t.replicas && n !in s.replicas)
            <==> s.policy.replicated && s.policy.autoTieBreaker && !s.policy.suppressed
                 && |Full(s)| >= 2 && |Full(s)| % 2 == 0 && Thin(s) == {} && Open(s) != {}
    ensures var t := EnsureTieBreaker(s);
            forall n | n in t.replicas && n !in s.replicas ::
              IsLeast(n, Open(s)) && t.replicas[n] == Replica(true, true, false, false, [], "")
  {
    ViewsAgree(s);
    if Creates(s) {
      CreatePass(s);
      assert Least(Candidates(s)) in EnsureTieBreaker(s).replicas && Least(Candidates(s)) !in s.replicas;
      assert Diskless(s) == {};
    } else if s.policy.replicated {
      OtherPass(s);
      assert Witnesses(s) <= Diskless(s);
    }
  }

  // An existing witness is kept: an inactive replica may come back, the operator asked
  // to keep it, it breaks a tie of two, or a new one would be made.
  predicate Keeps(s: State)
  {
    s.policy.autoTieBreaker
    && ((SomeInactive(s) && |Full(s)| >= 1)
        || (s.policy.keepTieBreaker && |Full(s)| >= 1)
        || |Full(s)| == 2
        || (!s.policy.suppressed && |Full(s)| >= 2 && |Full(s)| % 2 == 0 && Thin(s) == Tagged(s)))
  }

  lemma KeepsExactly(s: State)
    requires Tagged(s) != {}
    ensures Keeps(s) <==> Wanted(s)
  {
    ViewsAgree(s);
    StrandedNotActive(s);
    SubsetSize(Witnesses(s), Diskless(s));
    assert |Witnesses(s)| > 0;
  }

  /** A pass deletes a replica exactly when the definition is replicated and it is a
      TIE_BREAKER on a node that is gone, evicted or lost, or one of the active
      witnesses while none of the reasons to keep them holds. */
  lemma DeletesExactly(s: State, n: string)
    requires n in s.replicas && !s.replicas[n].deleting
    ensures var t := EnsureTieBreaker(s);
            n in t.replicas
            && (t.replicas[n].deleting
                <==> s.policy.replicated
                     && ((s.replicas[n].tieBreaker && !Standing(s, n)) || (n in Tagged(s) && !Keeps(s))))
  {
    ViewsAgree(s);
    if Tagged(s) != {} {
      KeepsExactly(s);
    }
    if Creates(s) {
      CreatePass(s);
    } else if s.policy.replicated {
      OtherPass(s);
    }
  }

  /** The quorum a pass stamps, with no replica being deleted: majority for two diskful
      replicas and a diskless one, or three diskful ones, off otherwise, in both slots;
      with majority an on-no-quorum slot that was empty says suspend-io. */
  lemma StampsExactly(s: State)
    requires s.policy.replicated && s.policy.autoQuorum && NoneDeleting(s)
    ensures var t := EnsureTieBreaker(s);
            var full := set n | n in t.replicas && Standing(t, n) && !t.replicas[n].inactive && !t.replicas[n].deleting && !t.replicas[n].diskless;
            var thin := set n | n in t.replicas && Standing(t, n) && !t.replicas[n].inactive && !t.replicas[n].deleting && t.replicas[n].diskless;
            var value := if |full| >= 3 || (|full| == 2 && |thin| >= 1) then "majority" else "off";
            t.quorum.prop == Some(value) && t.quorum.typed == value
            && t.quorum.onLossProp == (if s.quorum.onLossProp.None? && value == "majority" then Some("suspend-io") else s.quorum.onLossProp)
            && t.quorum.onLossTyped == (if s.quorum.onLossTyped == "" && value == "majority" then "suspend-io" else s.quorum.onLossTyped)
  {
    var t := EnsureTieBreaker(s);
    VotersAfter(s);
    QuorumMatchesVoters(s);
    ViewsAgree(t);
    var full := set n | n in t.replicas && Standing(t, n) && !t.replicas[n].inactive && !t.replicas[n].deleting && !t.replicas[n].diskless;
    var thin := set n | n in t.replicas && Standing(t, n) && !t.replicas[n].inactive && !t.replicas[n].deleting && t.replicas[n].diskless;
    assert full == DiskfulVoters(t) && thin == DisklessVoters(t);
  }

  /** A definition that is not replicated, or whose quorum is not automatic, keeps its
      replicas or its quorum as they are. */
  lemma LeftAlone(s: State)
    ensures !s.policy.replicated ==> EnsureTieBreaker(s) == s
    ensures !s.policy.autoQuorum ==> EnsureTieBreaker(s).quorum == s.quorum
  {
  }
}
