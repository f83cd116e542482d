/**
 How a drain proceeds: when it places, when it prunes, and when its target holds
 still. The node and migration reconcilers as they run, with their loops.
 */
module Drain {
  import opened Names
  import opened Placement
  import opened Survival

  // A drain in progress: a diskful victim on a draining node, every replica on
  // a node that still exists.
  predicate Evacuating(s: State, victim: string)
  {
    && victim in s.replicas && !s.replicas[victim].diskless && InDrain(s, victim)
    && s.replicas.Keys <= s.nodes.Keys
  }

  // A placer that reaches its target as far as healthy nodes allow.
  predicate Fills(s: State, placed: State, victim: string, target: int)
  {
    && Placed(s, placed)
    && |Backups(placed, victim)| == Max(|Backups(s, victim)|, Min(target, |HealthyNodes(s)|))
  }

  lemma BackupsAreHealthy(s: State, victim: string)
    requires Evacuating(s, victim)
    ensures ReadyBackups(s, victim) <= Backups(s, victim) <= HealthyNodes(s)
    ensures |ReadyBackups(s, victim)| <= |Backups(s, victim)| <= |HealthyNodes(s)|
  {
    SubsetSize(Backups(s, victim), HealthyNodes(s));
    SubsetSize(ReadyBackups(s, victim), Backups(s, victim));
  }

  lemma PlacedDrains(s: State, placed: State, victim: string)
    requires Evacuating(s, victim) && Placed(s, placed)
    ensures Evacuating(placed, victim) && HealthyNodes(placed) == HealthyNodes(s) && placed.replicas[victim] == s.replicas[victim]
    ensures ReadyBackups(placed, victim) == ReadyBackups(s, victim) && Backups(s, victim) <= Backups(placed, victim)
  {
    forall n | n in placed.replicas ensures n in placed.nodes && (n in s.replicas || !AllUpToDate(placed.replicas[n].volumes)) {
      assert PlacedOne(s, placed, n);
    }
    forall n | n in s.replicas && !s.replicas[n].diskless ensures placed.replicas[n] == s.replicas[n] {
      assert PlacedOne(s, placed, n);
    }
    forall n | n in ReadyBackups(placed, victim) ensures n in ReadyBackups(s, victim) {
      assert PlacedOne(s, placed, n);
    }
  }

  /** The source is dropped exactly when every healthy node already held an
      UpToDate copy before the pass, and the place count does not ask for more. */
  lemma PrunesExactly(s: State, victim: string, placeCount: int, placed: State)
    requires Evacuating(s, victim) && Fills(s, placed, victim, Target(s, victim, placeCount))
    ensures ReplacementReady(placed, victim, Target(s, victim, placeCount))
            <==> ReadyBackups(s, victim) == HealthyNodes(s) && HealthyNodes(s) != {} && placeCount <= |HealthyNodes(s)|
  {
    PlacedDrains(s, placed, victim);
    BackupsAreHealthy(s, victim);
    SubsetSize(ReadyBackups(s, victim), HealthyNodes(s));
  }

  /** Until then every pass raises the number of healthy diskful replicas. */
  lemma EveryPassRaises(s: State, victim: string, placeCount: int, placed: State)
    requires Evacuating(s, victim) && Fills(s, placed, victim, Target(s, victim, placeCount))
    ensures |Backups(placed, victim)| >= Min(|Backups(s, victim)| + 1, |HealthyNodes(s)|)
    ensures |HealthyNodes(placed)| == |HealthyNodes(s)|
  {
    BackupsAreHealthy(s, victim);
    PlacedDrains(s, placed, victim);
  }

  /** The target survives a pass unchanged exactly when the healthy nodes do not
      outnumber the diskful replicas, or the place count covers them already. */
  lemma TargetStableExactly(s: State, victim: string, placeCount: int, placed: State)
    requires Evacuating(s, victim) && Fills(s, placed, victim, Target(s, victim, placeCount))
    ensures Target(placed, victim, placeCount) == Target(s, victim, placeCount)
            <==> |HealthyNodes(s)| <= |Backups(s, victim)| + 1 || placeCount >= |HealthyNodes(s)|
  {
    PlacedDrains(s, placed, victim);
    BackupsAreHealthy(s, victim);
  }

  /** A target that grows: one copy to drain, two healthy nodes, no place count. The
      pass places one replacement, and the next asks for two. */
  lemma TargetCanGrow()
    ensures var s := State(map["a" := FULL], map["a" := UP.(evicted := true), "b" := UP, "c" := UP], PLAIN, Quorum(None, "", None, ""));
            var placed := s.(replicas := s.replicas["b" := Replica(false, false, false, false, [], "")]);
            Evacuating(s, "a") && Fills(s, placed, "a", Target(s, "a", 0))
            && Target(s, "a", 0) == 1 && Target(placed, "a", 0) == 2
  {
    var s := State(map["a" := FULL], map["a" := UP.(evicted := true), "b" := UP, "c" := UP], PLAIN, Quorum(None, "", None, ""));
    var placed := s.(replicas := s.replicas["b" := Replica(false, false, false, false, [], "")]);
    assert HealthyNodes(s) == {"b", "c"} && HealthyNodes(placed) == {"b", "c"};
    assert Backups(s, "a") == {} && Backups(placed, "a") == {"b"};
  }

  // Runs of one drain: passes, and satellites reporting in between.

  datatype Step = DrainPass(placed: State) | Observe(name: string, volumes: seq<bool>)

  function Next(s: State, victim: string, placeCount: int, step: Step): State
  {
    match step
    case DrainPass(placed) => Evacuate(s, victim, placeCount, placed, false)
    case Observe(n, volumes) => if n in s.replicas then s.(replicas := s.replicas[n := s.replicas[n].(volumes := volumes)]) else s
  }

  function Run(s: State, victim: string, placeCount: int, steps: seq<Step>): State
    decreases |steps|
  {
    if steps == [] then s else Run(Next(s, victim, placeCount, steps[0]), victim, placeCount, steps[1..])
  }

  predicate Placing(s: State, victim: string, placeCount: int, steps: seq<Step>)
    decreases |steps|
  {
    steps == []
    || ((steps[0].DrainPass? ==> Fills(s, steps[0].placed, victim, Target(s, victim, placeCount)))
        && Placing(Next(s, victim, placeCount, steps[0]), victim, placeCount, steps[1..]))
  }

  function Passes(steps: seq<Step>): nat
    decreases |steps|
  {
    if steps == [] then 0 else (if steps[0].DrainPass? then 1 else 0) + Passes(steps[1..])
  }

  lemma StepDrains(s: State, victim: string, placeCount: int, step: Step)
    requires Evacuating(s, victim) && (step.DrainPass? ==> Fills(s, step.placed, victim, Target(s, victim, placeCount)))
    ensures var t := Next(s, victim, placeCount, step);
            Evacuating(t, victim) && HealthyNodes(t) == HealthyNodes(s)
            && |Backups(t, victim)| >= Min(|Backups(s, victim)| + (if step.DrainPass? then 1 else 0), |HealthyNodes(s)|)
  {
    BackupsAreHealthy(s, victim);
    var t := Next(s, victim, placeCount, step);
    match step
    case DrainPass(placed) =>
      PlacedDrains(s, placed, victim);
      EveryPassRaises(s, victim, placeCount, placed);
      assert Backups(t, victim) == Backups(placed, victim);
    case Observe(n, volumes) =>
      assert Backups(t, victim) == Backups(s, victim);
  }

  /** Over every run k passes put a replica on k more healthy nodes, or on all of
      them: the drain can only wait for syncs, never for placements. */
  lemma {:induction false} DrainProgresses(s: State, victim: string, placeCount: int, steps: seq<Step>)
    requires Evacuating(s, victim) && Placing(s, victim, placeCount, steps)
    ensures var t := Run(s, victim, placeCount, steps);
            Evacuating(t, victim) && HealthyNodes(t) == HealthyNodes(s)
            && |Backups(t, victim)| >= Min(|Backups(s, victim)| + Passes(steps), |HealthyNodes(s)|)
    decreases |steps|
  {
    BackupsAreHealthy(s, victim);
    if steps != [] {
      StepDrains(s, victim, placeCount, steps[0]);
      DrainProgresses(Next(s, victim, placeCount, steps[0]), victim, placeCount, steps[1..]);
    }
  }

  /** So it completes: after as many passes as there are healthy nodes, the first pass
      that finds every copy UpToDate drops the source, unless the place count asks
      for more copies than there are healthy nodes. */
  lemma DrainCompletes(s: State, victim: string, placeCount: int, steps: seq<Step>, placed: State)
    requires Evacuating(s, victim) && Placing(s, victim, placeCount, steps) && Passes(steps) >= |HealthyNodes(s)|
    requires HealthyNodes(s) != {} && placeCount <= |HealthyNodes(s)|
    requires var t := Run(s, victim, placeCount, steps);
             ReadyBackups(t, victim) == Backups(t, victim) && Fills(t, placed, victim, Target(t, victim, placeCount))
    ensures var u := Next(Run(s, victim, placeCount, steps), victim, placeCount, DrainPass(placed));
            victim in u.replicas && u.replicas[victim].deleting
  {
    DrainProgresses(s, victim, placeCount, steps);
    var t := Run(s, victim, placeCount, steps);
    BackupsAreHealthy(t, victim);
    SubsetSize(Backups(t, victim), HealthyNodes(t));
    PrunesExactly(t, victim, placeCount, placed);
    PlacedDrains(t, placed, victim);
  }

  // The reconcilers

  function Counted(s: State, victim: string): set<string>
  {
    set n | n in s.replicas && (n == victim || !InDrain(s, n)) && !s.replicas[n].diskless
  }

  lemma CountedBackups(s: State, victim: string)
    ensures |Counted(s, victim)| == |Backups(s, victim)| + if victim in s.replicas && !s.replicas[victim].diskless then 1 else 0
  {
    if victim in s.replicas && !s.replicas[victim].diskless {
      assert Counted(s, victim) == Backups(s, victim) + {victim};
    } else {
      assert Counted(s, victim) == Backups(s, victim);
    }
  }

  class Reconciler {
    var s: State

    constructor (s: State)
      ensures this.s == s
    {
      this.s := s;
    }

    method AllVolumesUpToDate(volumes: seq<bool>) returns (ready: bool)
      ensures ready == AllUpToDate(volumes)
    {
      if |volumes| == 0 {
        return false;
      }
      for i := 0 to |volumes|
        invariant forall j | 0 <= j < i :: volumes[j]
      {
        if !volumes[i] {
          return false;
        }
      }
      return true;
    }

    method CountHealthyNodes() returns (healthy: int)
      ensures healthy == |HealthyNodes(s)|
    {
      var nodes := ListKeys(s.nodes.Keys);
      healthy := 0;
      for k := 0 to |nodes|
        invariant healthy == |HealthyNodes(s) * Elems(nodes[..k])|
      {
        assert nodes[k] in Elems(nodes);
        MeetCount(HealthyNodes(s), nodes, k);
        if !Draining(s.nodes[nodes[k]]) {
          healthy := healthy + 1;
        }
      }
      assert nodes[..|nodes|] == nodes && HealthyNodes(s) * Elems(nodes) == HealthyNodes(s);
    }

    /** Diskful replicas, leaving out other draining nodes but not the victim's. */
    method CountDiskful(victim: string) returns (count: int)
      ensures count == |Counted(s, victim)|
    {
      var replicas := ListKeys(s.replicas.Keys);
      count := 0;
      for k := 0 to |replicas|
        invariant count == |Counted(s, victim) * Elems(replicas[..k])|
      {
        var n := replicas[k];
        assert n in Elems(replicas);
        MeetCount(Counted(s, victim), replicas, k);
        if n != victim && n in s.nodes && Draining(s.nodes[n]) {
          continue;
        }
        if s.replicas[n].diskless {
          continue;
        }
        count := count + 1;
      }
      assert replicas[..|replicas|] == replicas && Counted(s, victim) * Elems(replicas) == Counted(s, victim);
    }

    /** The diskful redundancy a drain must preserve. */
    method CurrentDiskfulTarget(victim: string, placeCount: int) returns (target: int)
      ensures target == Target(s, victim, placeCount)
    {
      var healthy := CountHealthyNodes();
      var count := CountDiskful(victim);
      CountedBackups(s, victim);
      if count > healthy {
        count := healthy;
      }
      target := if placeCount < count then count else placeCount;
    }

    /** Whether a replica is an UpToDate copy that outlives the drain. */
    method CountsAsBackup(n: string, victim: string) returns (ready: bool)
      requires n in s.replicas
      ensures ready == (n in ReadyBackups(s, victim))
    {
      if n == victim || (n in s.nodes && Draining(s.nodes[n])) || s.replicas[n].diskless {
        return false;
      }
      ready := AllVolumesUpToDate(s.replicas[n].volumes);
    }

    /** The add-before-drop gate. */
    method EvacuationReplacementReady(victim: string, target: int) returns (ready: bool)
      ensures ready == ReplacementReady(s, victim, target)
    {
      var replicas := ListKeys(s.replicas.Keys);
      ghost var backups := ReadyBackups(s, victim);
      var upToDate := 0;
      for k := 0 to |replicas|
        invariant upToDate == |backups * Elems(replicas[..k])|
      {
        assert replicas[k] in Elems(replicas);
        MeetCount(backups, replicas, k);
        var counts := CountsAsBackup(replicas[k], victim);
        if counts {
          upToDate := upToDate + 1;
        }
      }
      VisitedAll(replicas);
      assert backups * Elems(replicas) == backups;
      return upToDate >= target && upToDate >= 1;
    }

    /** One pass over a replica on a draining node; `placed` is the store after the
        placer ran. Without a resource group the move is refused and reported; a
        lost node's replica is dropped without waiting for a replacement. */
    method MigrateResource(victim: string, group: Option<int>, placed: State, failed: bool, lost: bool) returns (blocked: bool)
      requires Placed(s, placed)
      modifies this
      ensures blocked <==> group.None?
      ensures s == if blocked then old(s)
                   else if lost && !failed then Mark(placed, victim)
                   else Evacuate(old(s), victim, group.value, placed, failed)
    {
      if group.None? {
        return true;
      }
      blocked := false;
      var target := CurrentDiskfulTarget(victim, group.value);
      s := placed;
      if failed {
        return;
      }
      var ready := lost;
      if !lost {
        ready := EvacuationReplacementReady(victim, target);
      }
      if ready && victim in s.replicas {
        s := s.(replicas := s.replicas[victim := s.replicas[victim].(deleting := true)]);
      }
    }

    /** One pass over a migration target. */
    method ReconcileMigration(dst: string)
      modifies this
      ensures s == Migrate(old(s), dst)
    {
      if dst !in s.replicas || s.replicas[dst].migratingFrom == "" || s.replicas[dst].deleting {
        return;
      }
      var ready := AllVolumesUpToDate(s.replicas[dst].volumes);
      if !ready {
        return;
      }
      var src := s.replicas[dst].migratingFrom;
      if src in s.replicas {
        s := s.(replicas := s.replicas[src := s.replicas[src].(deleting := true)]);
      }
      s := s.(replicas := s.replicas[dst := s.replicas[dst].(migratingFrom := "")]);
    }
  }
}
