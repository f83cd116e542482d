/**
 The replicas of one definition over the nodes of the cluster, and the witness
 pass over them as a function.

 A delete marks the replica; it stays listed, flags and status included, until
 its satellite has finished the teardown.
 */
module Placement {
  import opened Names

  // `volumes` says of each reported volume whether it is UpToDate.
  datatype Replica = Replica(
    diskless: bool, tieBreaker: bool, inactive: bool, deleting: bool,
    volumes: seq<bool>, migratingFrom: string)

  datatype Node = Node(evicted: bool, lost: bool, excluded: bool, satellite: bool)

  // Quorum settings live in a property bag and in a typed slot that overrides it.
  datatype Quorum = Quorum(
    prop: Option<string>, typed: string, onLossProp: Option<string>, onLossTyped: string)

  datatype Policy = Policy(
    replicated: bool, autoTieBreaker: bool, suppressed: bool, keepTieBreaker: bool, autoQuorum: bool)

  datatype State = State(
    replicas: map<string, Replica>, nodes: map<string, Node>, policy: Policy, quorum: Quorum)

  const WITNESS := Replica(true, true, false, false, [], "")
  const MAJORITY := "majority"
  const OFF := "off"
  const SUSPEND := "suspend-io"

  predicate Draining(n: Node)
  {
    n.evicted || n.lost
  }

  // The replica's node is draining or no longer exists.
  predicate Stranded(s: State, node: string)
  {
    node !in s.nodes || Draining(s.nodes[node])
  }

  function Active(s: State): set<string>
  {
    set n | n in s.replicas && !Stranded(s, n) && !s.replicas[n].inactive
  }

  function Diskful(s: State): set<string>
  {
    set n | n in Active(s) && !s.replicas[n].diskless
  }

  function Diskless(s: State): set<string>
  {
    set n | n in Active(s) && s.replicas[n].diskless
  }

  function Witnesses(s: State): set<string>
  {
    set n | n in Active(s) && s.replicas[n].diskless && s.replicas[n].tieBreaker
  }

  predicate HasInactive(s: State)
  {
    exists n | n in s.replicas :: !Stranded(s, n) && s.replicas[n].inactive
  }

  predicate ShouldExist(policy: Policy, diskful: int, diskless: int, witnesses: int, hasInactive: bool)
  {
    && policy.autoTieBreaker
    && (|| (hasInactive && witnesses > 0 && diskful >= 1)
        || (!policy.suppressed && diskful >= 2 && diskful % 2 == 0 && diskless - witnesses == 0)
        || (witnesses > 0 && ((diskful >= 1 && policy.keepTieBreaker) || diskful == 2)))
  }

  predicate Wanted(s: State)
  {
    ShouldExist(s.policy, |Diskful(s)|, |Diskless(s)|, |Witnesses(s)|, HasInactive(s))
  }

  // Nodes a witness may be placed on.
  function Candidates(s: State): set<string>
  {
    set n | n in s.nodes && n !in s.replicas && !Draining(s.nodes[n]) && !s.nodes[n].excluded && s.nodes[n].satellite
  }

  function Marked(replicas: map<string, Replica>, doomed: set<string>): (r: map<string, Replica>)
    ensures r.Keys == replicas.Keys
  {
    map n | n in replicas :: if n in doomed then replicas[n].(deleting := true) else replicas[n]
  }

  function StrandedWitnesses(s: State): set<string>
  {
    set n | n in s.replicas && Stranded(s, n) && s.replicas[n].tieBreaker
  }

  function QuorumPolicy(diskful: int, diskless: int): string
  {
    if (diskful == 2 && diskless >= 1) || diskful >= 3 then MAJORITY else OFF
  }

  predicate QuorumSet(q: Quorum, value: string)
  {
    q.prop == Some(value) && q.typed == value && (value == MAJORITY ==> q.onLossProp.Some? && q.onLossTyped != "")
  }

  function SetQuorum(q: Quorum, value: string): Quorum
  {
    if QuorumSet(q, value) then q
    else Quorum(Some(value), value,
                if value == MAJORITY && q.onLossProp.None? then Some(SUSPEND) else q.onLossProp,
                if value == MAJORITY && q.onLossTyped == "" then SUSPEND else q.onLossTyped)
  }

  // The witness step: replicas afterwards, and the diskless count the quorum is
  // computed from. `vanishes` says the chosen host disappears right after the
  // create, which rolls the witness back but is still reported as created.
  function DecideWitness(s: State, vanishes: bool): (r: (map<string, Replica>, int))
  {
    var reaped := Marked(s.replicas, StrandedWitnesses(s));
    if Wanted(s) && Witnesses(s) == {} then
      if Candidates(s) == {} then (reaped, |Diskless(s)|)
      else (if vanishes then reaped else reaped[Least(Candidates(s)) := WITNESS], |Diskless(s)| + 1)
    else if !Wanted(s) && Witnesses(s) != {} then
      (Marked(reaped, Witnesses(s)), |Diskless(s) - Witnesses(s)|)
    else (reaped, |Diskless(s)|)
  }

  function Ensure(s: State, vanishes: bool): (t: State)
  {
    if !s.policy.replicated then s
    else
      var (replicas, diskless) := DecideWitness(s, vanishes);
      var nodes := if vanishes && Wanted(s) && Witnesses(s) == {} && Candidates(s) != {}
                   then s.nodes - {Least(Candidates(s))} else s.nodes;
      s.(replicas := replicas, nodes := nodes,
         quorum := if s.policy.autoQuorum then SetQuorum(s.quorum, QuorumPolicy(|Diskful(s)|, diskless)) else s.quorum)
  }

  /** One undisturbed pass over the witness and the quorum policy. */
  function EnsureTieBreaker(s: State): (t: State)
  {
    Ensure(s, false)
  }
}
