/**
 The reconcile loops of all replicas together: passes over different replicas in
 any order, and a pass that is repeated after dying half-way.
 */
module Fleet {
  import opened Names
  import opened Cluster
  import opened Runs
  import opened Identity
  import opened Exhaustion
  import opened Minors
  import opened Converge

  // A pass that died

  // With the Spec written there is nothing left to pick.
  lemma WrittenIdentified(s: State, t: State, name: string)
    requires Allocates(s, name) && t == TornPass(s, name, true)
    ensures Identify(t, name) == Identify(s, name)
  {
    AllocatedReplica(s, name);
    TornFrame(s, name, true);
  }

  // Without it the same values are picked again.
  lemma UnwrittenIdentified(s: State, t: State, name: string)
    requires Allocates(s, name) && t == TornPass(s, name, false)
    ensures Identify(t, name) == Identify(s, name)
  {
    assert t.replicas == s.replicas;
    assert Occupied(t, name) == Occupied(s, name);
    assert PortsOnNode(t, s.replicas[name].node, name) == PortsOnNode(s, s.replicas[name].node, name);
    if s.replicas[name].rd in s.definitions {
      NumberedKeeps(s, s.replicas[name].rd);
    }
  }

  lemma TornIdentified(s: State, t: State, name: string, specWritten: bool)
    requires Allocates(s, name) && t == TornPass(s, name, specWritten)
    ensures Identify(t, name) == Identify(s, name)
  {
    if specWritten {
      WrittenIdentified(s, t, name);
    } else {
      UnwrittenIdentified(s, t, name);
    }
  }

  lemma TornNumbered(s: State, t: State, name: string, specWritten: bool)
    requires Allocates(s, name) && t == TornPass(s, name, specWritten) && s.replicas[name].rd in s.definitions
    ensures var rd := s.replicas[name].rd; rd in t.definitions && Numbered(t, rd) == Numbered(s, rd)
  {
    NumberedKeeps(s, s.replicas[name].rd);
  }

  /** Wherever an allocation died between its patches, the next pass over the replica
      ends where one uninterrupted pass would have. */
  lemma TornRetry(s: State, name: string, specWritten: bool)
    requires Allocates(s, name)
    ensures name in TornPass(s, name, specWritten).replicas
    ensures AllocatePass(TornPass(s, name, specWritten), name) == AllocatePass(s, name)
  {
    var t := TornPass(s, name, specWritten);
    var rd := s.replicas[name].rd;
    TornIdentified(s, t, name, specWritten);
    var r := AllocatePass(s, name).value.replicas[name];
    assert t.replicas[name := r] == s.replicas[name := r];
    if rd in s.definitions {
      TornNumbered(s, t, name, specWritten);
      assert t.definitions[rd := Numbered(s, rd).value] == s.definitions[rd := Numbered(s, rd).value];
    }
  }

  /** So its loop ends in the same state, or fails the same way, as if it had not died. */
  lemma TornSettles(day0: Day0, s: State, name: string, specWritten: bool)
    ensures Settle(day0, TornPass(s, name, specWritten), name) == Settle(day0, s, name)
  {
    if Allocates(s, name) {
      var t, full := TornPass(s, name, specWritten), AllocatePass(s, name).value;
      TornRetry(s, name, specWritten);
      TornAllocates(s, name, specWritten);
      SettleAfterAllocation(day0, s, name, full);
      SettleAfterAllocation(day0, t, name, full);
    }
  }

  lemma TornAllocates(s: State, name: string, specWritten: bool)
    requires Allocates(s, name)
    ensures Allocates(TornPass(s, name, specWritten), name)
  {
    TornFrame(s, name, specWritten);
    TornRetry(s, name, specWritten);
    AllocatedReplica(s, name);
  }

  lemma SettleAfterAllocation(day0: Day0, s: State, name: string, full: State)
    requires Allocates(s, name) && AllocatePass(s, name) == Some(full)
    ensures Settle(day0, s, name) == Settle(day0, full, name)
  {
    if full != s {
      assert Reconcile(day0, s, name) == Done(full, true);
    }
  }

  // Everybody's passes

  // What the passes can still do for a replica, orphan removal included.
  function Weight(s: State, name: string): nat
  {
    Measure(s, name) + Bit(name in s.replicas && !s.replicas[name].deleting)
  }

  function Total(s: State, names: set<string>): nat
    decreases names
  {
    if names == {} then 0 else var n := Least(names); Weight(s, n) + Total(s, names - {n})
  }

  lemma {:induction false} TotalAtMost(s: State, t: State, names: set<string>)
    requires forall n | n in names :: Weight(t, n) <= Weight(s, n)
    ensures Total(t, names) <= Total(s, names)
    decreases names
  {
    if names != {} {
      TotalAtMost(s, t, names - {Least(names)});
    }
  }

  lemma {:induction false} TotalLower(s: State, t: State, names: set<string>, name: string)
    requires name in names && Weight(t, name) < Weight(s, name)
    requires forall n | n in names :: Weight(t, n) <= Weight(s, n)
    ensures Total(t, names) < Total(s, names)
    decreases names
  {
    var n := Least(names);
    if n == name {
      TotalAtMost(s, t, names - {n});
    } else {
      TotalLower(s, t, names - {n}, name);
    }
  }

  // A definition numbered or latched by somebody else owes a replica no more.
  lemma NumberedOwesNoMore(s: State, me: Replica)
    requires me.rd in s.definitions && Numbered(s, me.rd).Some?
    ensures Owed(me, Numbered(s, me.rd).value) <= Owed(me, s.definitions[me.rd])
  {
    var d, e := s.definitions[me.rd], Numbered(s, me.rd).value;
    NumberedKeeps(s, me.rd);
    SameNumbersSameStale(me.specVolumes, d, e);
    SameNumbersSameUnseeded(me.specVolumes, d.volumes, e.volumes);
    CompleteMinors(d.volumes);
    CompleteMinors(e.volumes);
  }

  lemma LatchedOwesNoMore(me: Replica, d: Definition)
    ensures Owed(me, d.(initialized := true)) <= Owed(me, d)
  {
    SameNumbersSameStale(me.specVolumes, d, d.(initialized := true));
  }

  lemma SiblingWeight(day0: Day0, s: State, name: string, n: string)
    requires Reconcile(day0, s, name).Done? && n in s.replicas && n != name
    ensures Weight(Reconcile(day0, s, name).s, n) <= Weight(s, n)
  {
    PassFrame(day0, s, name);
    var t, me := Reconcile(day0, s, name).s, s.replicas[n];
    if name in s.replicas && me.rd == s.replicas[name].rd && me.rd in s.definitions {
      PassDefinition(day0, s, name);
      if t.definitions == s.definitions[me.rd := s.definitions[me.rd].(initialized := true)] {
        LatchedOwesNoMore(me, s.definitions[me.rd]);
      } else if t.definitions != s.definitions {
        NumberedOwesNoMore(s, me);
      }
    }
  }

  lemma OwnWeight(day0: Day0, s: State, name: string)
    requires name in s.replicas && Reconcile(day0, s, name).Done? && Reconcile(day0, s, name).s != s
    ensures Weight(Reconcile(day0, s, name).s, name) < Weight(s, name)
  {
    var p, me := Reconcile(day0, s, name), s.replicas[name];
    if p.requeue {
      RequeueLowersMeasure(day0, s, name);
      KeepsDeleting(day0, s, name);
    } else if me.deleting {
      assert s.replicas[name := me] == s.replicas;
    }
  }

  // Only the orphan branch marks a replica, and it does not requeue.
  lemma KeepsDeleting(day0: Day0, s: State, name: string)
    requires name in s.replicas && Reconcile(day0, s, name).Done? && Reconcile(day0, s, name).requeue
    ensures name in Reconcile(day0, s, name).s.replicas
    ensures Reconcile(day0, s, name).s.replicas[name].deleting == s.replicas[name].deleting
  {
    if Allocates(s, name) {
      AllocatedReplica(s, name);
    }
  }

  /** Every pass that writes anything lowers the total over all replicas. */
  lemma WritingLowersTotal(day0: Day0, s: State, name: string)
    requires Reconcile(day0, s, name).Done? && Reconcile(day0, s, name).s != s
    ensures var t := Reconcile(day0, s, name).s;
            t.replicas.Keys == s.replicas.Keys && Total(t, s.replicas.Keys) < Total(s, s.replicas.Keys)
  {
    var t := Reconcile(day0, s, name).s;
    PassFrame(day0, s, name);
    OwnWeight(day0, s, name);
    forall n | n in s.replicas.Keys ensures Weight(t, n) <= Weight(s, n) {
      if n != name {
        SiblingWeight(day0, s, name, n);
      }
    }
    TotalLower(s, t, s.replicas.Keys, name);
  }

  // Passes over the named replicas, one after the other, and how many of them wrote.
  function PassAll(day0: Day0, s: State, names: seq<string>): State
    decreases |names|
  {
    if names == [] then s else PassAll(day0, Next(day0, s, Pass(names[0])), names[1..])
  }

  function Writes(day0: Day0, s: State, names: seq<string>): nat
    decreases |names|
  {
    if names == [] then 0
    else
      var t := Next(day0, s, Pass(names[0]));
      Bit(t != s) + Writes(day0, t, names[1..])
  }

  /** In whatever order and however often the replicas are reconciled, only so many
      passes write: what they do for one replica never makes work for another without
      end. */
  lemma {:induction false} PassesQuiesce(day0: Day0, s: State, names: seq<string>)
    ensures PassAll(day0, s, names).replicas.Keys == s.replicas.Keys
    ensures Writes(day0, s, names) + Total(PassAll(day0, s, names), s.replicas.Keys) <= Total(s, s.replicas.Keys)
    decreases |names|
  {
    if names != [] {
      var t := Next(day0, s, Pass(names[0]));
      if t != s {
        WritingLowersTotal(day0, s, names[0]);
      }
      PassesQuiesce(day0, t, names[1..]);
    }
  }

  predicate AllQuiet(day0: Day0, s: State, names: seq<string>)
  {
    forall i | 0 <= i < |names| :: Next(day0, s, Pass(names[i])) == s
  }

  lemma {:induction false} NoWrites(day0: Day0, s: State, names: seq<string>)
    requires Writes(day0, s, names) == 0
    ensures PassAll(day0, s, names) == s && AllQuiet(day0, s, names)
    decreases |names|
  {
    if names != [] {
      NoWrites(day0, s, names[1..]);
      assert forall i | 0 < i < |names| :: names[i] == names[1..][i - 1];
    }
  }

  function Rounds(day0: Day0, s: State, names: seq<string>, n: nat): State
    decreases n
  {
    if n == 0 then s else Rounds(day0, PassAll(day0, s, names), names, n - 1)
  }

  lemma {:induction false} QuietRounds(day0: Day0, s: State, names: seq<string>, n: nat)
    requires PassAll(day0, s, names) == s
    ensures Rounds(day0, s, names, n) == s
    decreases n
  {
    if n > 0 {
      QuietRounds(day0, s, names, n - 1);
    }
  }

  lemma {:induction false} SplitRounds(day0: Day0, s: State, names: seq<string>, k: nat, n: nat)
    requires k <= n
    ensures Rounds(day0, s, names, n) == Rounds(day0, Rounds(day0, s, names, k), names, n - k)
    decreases k
  {
    if k > 0 {
      SplitRounds(day0, PassAll(day0, s, names), names, k - 1, n - 1);
    }
  }

  // Some round writes nothing, no later than the total at the start.
  lemma {:induction false} SilentRound(day0: Day0, s: State, names: seq<string>) returns (k: nat)
    ensures k <= Total(s, s.replicas.Keys) && Writes(day0, Rounds(day0, s, names, k), names) == 0
    decreases Total(s, s.replicas.Keys)
  {
    PassesQuiesce(day0, s, names);
    if Writes(day0, s, names) == 0 {
      k := 0;
    } else {
      var later := SilentRound(day0, PassAll(day0, s, names), names);
      k := later + 1;
    }
  }

  /** Joint quiescence: once every replica has had as many rounds of passes as the total
      at the start, no pass over any of them writes anything any more. */
  lemma RoundsQuiesce(day0: Day0, s: State, names: seq<string>, n: nat)
    requires n >= Total(s, s.replicas.Keys)
    ensures AllQuiet(day0, Rounds(day0, s, names, n), names)
  {
    var k := SilentRound(day0, s, names);
    var u := Rounds(day0, s, names, k);
    NoWrites(day0, u, names);
    SplitRounds(day0, s, names, k, n);
    QuietRounds(day0, u, names, n - k);
  }

  lemma QuietReplica(day0: Day0, u: State, name: string)
    requires Live(u, name) && Next(day0, u, Pass(name)) == u
    ensures Settled(day0, u, name) || Stuck(u, name)
  {
    var p := Reconcile(day0, u, name);
    if p.Done? {
      assert p == Done(u, false);
      QuietIsSettled(day0, u, name);
    } else {
      ExhaustedExactly(u, name);
    }
  }

  /** And there every replica of an existing definition is settled, or stuck because an
      id, port or minor it needs is not to be had. */
  lemma RoundsSettle(day0: Day0, s: State, names: seq<string>, n: nat, i: nat)
    requires n >= Total(s, s.replicas.Keys) && i < |names| && Live(Rounds(day0, s, names, n), names[i])
    ensures var u := Rounds(day0, s, names, n); Settled(day0, u, names[i]) || Stuck(u, names[i])
  {
    RoundsQuiesce(day0, s, names, n);
    QuietReplica(day0, Rounds(day0, s, names, n), names[i]);
  }
}
