/**
 The objects the resource reconciler reads and writes, and one reconcile pass
 over a replica as a function of them.

 A pass runs under the cluster-wide allocation mutex with reads that bypass the
 cache, so it is one atomic step on this state. `Failed` is a pass that returned
 an error: it stops before its first write.
 */
module Cluster {
  import opened Names
  import opened DrbdPool

  // The deterministic day-0 generation identifier of a volume. Its digest is
  // outside this model, so it stays a parameter.
  type Day0 = (string, int) -> string

  // Every disk state that names no committed data is `NoData`.
  datatype DiskState = UpToDate | Consistent | Outdated | NoData

  datatype VolumeStatus = VolumeStatus(number: int, disk: DiskState, gi: string)

  datatype VolumeSpec = VolumeSpec(number: int, seed: string)

  datatype Replica = Replica(
    rd: string, node: string,
    deleting: bool, legacyFinalizer: bool, applied: bool,
    diskless: bool, tieBreaker: bool, inUse: bool, pool: string,
    specId: Option<int>, specPort: Option<int>, skip: Option<bool>,
    specVolumes: seq<VolumeSpec>,
    statId: Option<int>, statPort: Option<int>, statMinor: Option<int>,
    volumes: seq<VolumeStatus>, connections: seq<Option<int>>)

  datatype VolumeDefinition = VolumeDefinition(number: int, sizeKib: int, minor: Option<int>)

  datatype Definition = Definition(
    volumes: seq<VolumeDefinition>, baseMinor: Option<int>,
    initialized: bool, preferredPort: Option<int>)

  // A textual range property.
  datatype RangeText = Unset | Malformed | Parsed(range: Range)

  datatype Node = Node(
    portRange: Option<Range>, portText: RangeText,
    minorRange: Option<Range>, minorText: RangeText)

  datatype Pool = Pool(node: string, name: string, diskless: bool)

  datatype State = State(
    replicas: map<string, Replica>, definitions: map<string, Definition>,
    nodes: map<string, Node>, portText: RangeText, minorText: RangeText,
    pools: seq<Pool>)

  datatype Pass = Failed | Done(s: State, requeue: bool)

  // Ranges: node pin, then node property, then cluster property, then default.

  function ResolveRange(typed: Option<Range>, text: RangeText, fallback: Range): (r: Option<Range>)
  {
    if typed.Some? then typed
    else match text
      case Unset => Some(fallback)
      case Malformed => None
      case Parsed(range) => Some(range)
  }

  function PortRange(s: State, node: string): (r: Option<Range>)
  {
    match s.portText
    case Malformed => None
    case Unset => NodePortRange(s, node, Range(PORT_MIN, PORT_MAX))
    case Parsed(range) => NodePortRange(s, node, range)
  }

  function NodePortRange(s: State, node: string, fallback: Range): Option<Range>
  {
    if node !in s.nodes then Some(fallback)
    else ResolveRange(s.nodes[node].portRange, s.nodes[node].portText, fallback)
  }

  function MinorRange(s: State, node: string): (r: Option<Range>)
  {
    match s.minorText
    case Malformed => None
    case Unset => NodeMinorRange(s, node, Range(MINOR_MIN, MINOR_MAX))
    case Parsed(range) => NodeMinorRange(s, node, range)
  }

  function NodeMinorRange(s: State, node: string, fallback: Range): Option<Range>
  {
    if node !in s.nodes then Some(fallback)
    else ResolveRange(s.nodes[node].minorRange, s.nodes[node].minorText, fallback)
  }

  function Hosts(s: State, rd: string): set<string>
  {
    set n | n in s.replicas && s.replicas[n].rd == rd :: s.replicas[n].node
  }

  // The minors every hosting node can serve; the cluster default without hosts.
  function HostRange(s: State, hosts: set<string>): (r: Option<Range>)
    decreases hosts
  {
    if hosts == {} then Some(Range(MINOR_MIN, MINOR_MAX))
    else
      var first := Least(hosts);
      var mine := MinorRange(s, first);
      if hosts == {first} then mine
      else
        var rest := HostRange(s, hosts - {first});
        if mine.None? || rest.None? then None
        else Some(Range(Max(mine.value.low, rest.value.low), Min(mine.value.high, rest.value.high)))
  }

  // Identities

  // The node-id a replica answers to: Spec, else the legacy Status value.
  function EffectiveId(r: Replica): Option<int>
  {
    if r.specId.Some? then r.specId else r.statId
  }

  function Slots(r: Replica): set<int>
  {
    (if EffectiveId(r).Some? then {EffectiveId(r).value} else {})
    + (set j | 0 <= j < |r.connections| && r.connections[j].Some? :: r.connections[j].value)
  }

  // Node-ids the siblings of a replica hold or still see as a live peer slot.
  function Occupied(s: State, name: string): set<int>
    requires name in s.replicas
  {
    set n, id | n in s.replicas && n != name && s.replicas[n].rd == s.replicas[name].rd
                && id in Slots(s.replicas[n]) :: id
  }

  // Ports held on a node in Spec by replicas other than `name`.
  function PortsOnNode(s: State, node: string, name: string): set<int>
  {
    set n | n in s.replicas && n != name && s.replicas[n].node == node
            && s.replicas[n].specPort.Some? :: s.replicas[n].specPort.value
  }

  function Backfilled(r: Replica): Replica
  {
    r.(specPort := if r.specPort.None? then r.statPort else r.specPort,
       specId := if r.specId.None? then r.statId else r.specId)
  }

  function PickPort(s: State, name: string): (r: Option<int>)
    requires name in s.replicas
  {
    var me := s.replicas[name];
    var range := PortRange(s, me.node);
    if range.None? then None
    else
      var taken := PortsOnNode(s, me.node, name);
      if me.rd in s.definitions && s.definitions[me.rd].preferredPort.Some?
         && Free(taken, range.value, s.definitions[me.rd].preferredPort.value)
      then s.definitions[me.rd].preferredPort
      else LowestFree(taken, range.value)
  }

  // The replica with every per-replica Spec identity set, or None when a pool
  // is exhausted or a range does not parse.
  function Identify(s: State, name: string): (r: Option<Replica>)
    requires name in s.replicas
  {
    var b := Backfilled(s.replicas[name]);
    var id := if b.specId.Some? then b.specId else LowestFree(Occupied(s, name), Range(0, MAX_PEERS - 1));
    var port := if b.specPort.Some? then b.specPort else PickPort(s, name);
    if id.None? || port.None? then None
    else
      var skip := if b.skip.None? && b.rd in s.definitions
                  then Some(!s.definitions[b.rd].initialized) else b.skip;
      Some(b.(specId := id, specPort := port, skip := skip))
  }

  // Minors

  predicate AnyMinorSet(d: Definition)
  {
    exists i | 0 <= i < |d.volumes| :: d.volumes[i].minor.Some?
  }

  predicate Complete(volumes: seq<VolumeDefinition>)
  {
    forall i | 0 <= i < |volumes| :: volumes[i].minor.Some?
  }

  // Carries a pre-upgrade base minor that no volume has taken over yet.
  predicate Legacy(d: Definition)
  {
    d.baseMinor.Some? && !AnyMinorSet(d)
  }

  function SetMinors(volumes: seq<VolumeDefinition>): set<int>
  {
    set i | 0 <= i < |volumes| && volumes[i].minor.Some? :: volumes[i].minor.value
  }

  function Block(base: int, n: nat): (r: set<int>)
    ensures forall m :: m in r <==> base <= m < base + n
  {
    if n == 0 then {} else Block(base, n - 1) + {base + n - 1}
  }

  // What another definition keeps reserved: its minors, or base+index per volume.
  function Reserved(d: Definition): set<int>
  {
    if Legacy(d) then Block(d.baseMinor.value, if |d.volumes| == 0 then 1 else |d.volumes|)
    else SetMinors(d.volumes)
  }

  function TakenMinors(s: State, rd: string): set<int>
  {
    set x, m | x in s.definitions && x != rd && m in Reserved(s.definitions[x]) :: m
  }

  function BackfilledVolumes(d: Definition): (r: seq<VolumeDefinition>)
  {
    if Legacy(d)
    then seq(|d.volumes|, i requires 0 <= i < |d.volumes| =>
             d.volumes[i].(minor := Some(d.baseMinor.value + d.volumes[i].number)))
    else d.volumes
  }

  // Fill unset minors left to right with the lowest free value.
  function FillMinors(volumes: seq<VolumeDefinition>, taken: set<int>, range: Range): (r: Option<seq<VolumeDefinition>>)
  {
    if volumes == [] then Some([])
    else if volumes[0].minor.Some? then
      var rest := FillMinors(volumes[1..], taken, range);
      if rest.None? then None else Some([volumes[0]] + rest.value)
    else
      var m := LowestFree(taken, range);
      if m.None? then None
      else
        var rest := FillMinors(volumes[1..], taken + {m.value}, range);
        if rest.None? then None else Some([volumes[0].(minor := m)] + rest.value)
  }

  // The definition with every volume minor set, or None on a bad range or an
  // exhausted pool.
  function Numbered(s: State, rd: string): (r: Option<Definition>)
    requires rd in s.definitions
  {
    var d := s.definitions[rd];
    if Complete(d.volumes) then Some(d)
    else
      var range := HostRange(s, Hosts(s, rd));
      if range.None? then None
      else
        var b := BackfilledVolumes(d);
        var filled := FillMinors(b, TakenMinors(s, rd) + SetMinors(b), range.value);
        if filled.None? then None else Some(d.(volumes := filled.value))
  }

  function FirstMinor(volumes: seq<VolumeDefinition>): Option<int>
  {
    if volumes == [] then None
    else if volumes[0].number == 0 then volumes[0].minor
    else FirstMinor(volumes[1..])
  }

  function Mirrored(r: Replica, minor: Option<int>): Replica
  {
    r.(statPort := if r.specPort.Some? then r.specPort else r.statPort,
       statId := if r.specId.Some? then r.specId else r.statId,
       statMinor := if minor.Some? then minor else r.statMinor)
  }

  // The allocation half of a pass: identities into Spec, minors onto the
  // definition, both mirrored onto Status.
  function AllocatePass(s: State, name: string): (r: Option<State>)
    requires name in s.replicas
  {
    var mine := Identify(s, name);
    if mine.None? then None
    else if mine.value.rd !in s.definitions then
      Some(s.(replicas := s.replicas[name := Mirrored(mine.value, None)]))
    else
      var rd := mine.value.rd;
      var d := Numbered(s, rd);
      if d.None? then None
      else Some(s.(replicas := s.replicas[name := Mirrored(mine.value, FirstMinor(d.value.volumes))],
                   definitions := s.definitions[rd := d.value]))
  }

  // Volumes and seeds

  predicate Declares(d: Definition, number: int)
  {
    exists i | 0 <= i < |d.volumes| :: d.volumes[i].number == number
  }

  function Pruned(specs: seq<VolumeSpec>, d: Definition): (r: seq<VolumeSpec>)
  {
    if specs == [] then []
    else (if Declares(d, specs[0].number) then [specs[0]] else []) + Pruned(specs[1..], d)
  }

  // A volume's status entry: the first one of that number.
  function StatusOf(volumes: seq<VolumeStatus>, number: int): Option<VolumeStatus>
  {
    if volumes == [] then None
    else if volumes[0].number == number then Some(volumes[0])
    else StatusOf(volumes[1..], number)
  }

  predicate IsDay0(day0: Day0, rd: string, v: VolumeStatus)
  {
    v.gi != "" && EqualFold(v.gi, day0(rd, v.number))
  }

  predicate HoldsData(day0: Day0, r: Replica, strict: bool)
  {
    exists j | 0 <= j < |r.volumes| ::
      !r.volumes[j].disk.NoData? && !(strict && r.volumes[j].gi == "") && !IsDay0(day0, r.rd, r.volumes[j])
  }

  // Some diskful replica of the definition, other than `except`, holds data.
  predicate AnyHoldsData(day0: Day0, s: State, rd: string, except: Option<string>, strict: bool)
  {
    exists n | n in s.replicas && s.replicas[n].rd == rd ::
      Some(n) != except && !s.replicas[n].diskless && HoldsData(day0, s.replicas[n], strict)
  }

  predicate SeedCandidate(s: State, name: string, number: int, n: string)
    requires name in s.replicas && n in s.replicas
  {
    var v := StatusOf(s.replicas[n].volumes, number);
    n != name && s.replicas[n].rd == s.replicas[name].rd && v.Some? && v.value.gi != "" && v.value.disk.UpToDate?
  }

  function SeedCandidates(s: State, name: string, number: int): set<string>
    requires name in s.replicas
  {
    set n | n in s.replicas && SeedCandidate(s, name, number, n)
  }

  // The seed offered by the first candidate in name order.
  function PickSeed(s: State, name: string, number: int): (seed: string)
    requires name in s.replicas
  {
    var candidates := SeedCandidates(s, name, number);
    if candidates == {} then ""
    else StatusOf(s.replicas[Least(candidates)].volumes, number).value.gi
  }

  predicate SeedSet(specs: seq<VolumeSpec>, number: int)
  {
    exists i | 0 <= i < |specs| :: specs[i].number == number && specs[i].seed != ""
  }

  function SetSeed(specs: seq<VolumeSpec>, number: int, seed: string): (r: seq<VolumeSpec>)
  {
    if specs == [] then [VolumeSpec(number, seed)]
    else if specs[0].number == number then [specs[0].(seed := seed)] + specs[1..]
    else [specs[0]] + SetSeed(specs[1..], number, seed)
  }

  function Seeded(s: State, name: string, specs: seq<VolumeSpec>, defs: seq<VolumeDefinition>): (r: seq<VolumeSpec>)
    requires name in s.replicas
    decreases |defs|
  {
    if defs == [] then specs
    else
      var number := defs[0].number;
      var seed := PickSeed(s, name, number);
      Seeded(s, name,
             if SeedSet(specs, number) || seed == "" then specs else SetSeed(specs, number, seed),
             defs[1..])
  }

  // The projection half: prune volumes the definition dropped, else seed.
  function Project(day0: Day0, s: State, name: string): (specs: seq<VolumeSpec>)
    requires name in s.replicas
  {
    var me := s.replicas[name];
    if me.rd !in s.definitions || s.definitions[me.rd].volumes == [] then me.specVolumes
    else
      var d := s.definitions[me.rd];
      var pruned := Pruned(me.specVolumes, d);
      if pruned != me.specVolumes then pruned
      else if me.diskless || AnyHoldsData(day0, s, me.rd, Some(name), false) then me.specVolumes
      else Seeded(s, name, me.specVolumes, d.volumes)
  }

  function FirstPool(pools: seq<Pool>, node: string): string
  {
    if pools == [] then ""
    else if pools[0].node == node && !pools[0].diskless then pools[0].name
    else FirstPool(pools[1..], node)
  }

  // The apply half: projection, latch, stamp, auto-diskful promotion; the first
  // one that writes ends the pass.
  function Apply(day0: Day0, s: State, name: string): (r: State)
    requires name in s.replicas
  {
    var me := s.replicas[name];
    var specs := Project(day0, s, name);
    if specs != me.specVolumes then s.(replicas := s.replicas[name := me.(specVolumes := specs)])
    else if me.rd in s.definitions && !s.definitions[me.rd].initialized && AnyHoldsData(day0, s, me.rd, None, true) then
      s.(definitions := s.definitions[me.rd := s.definitions[me.rd].(initialized := true)])
    else if me.rd in s.definitions && me.skip.None? then
      s.(replicas := s.replicas[name := me.(skip := Some(!s.definitions[me.rd].initialized))])
    else if me.diskless && me.inUse && !me.tieBreaker && FirstPool(s.pools, me.node) != "" then
      s.(replicas := s.replicas[name := me.(diskless := false, pool := FirstPool(s.pools, me.node))])
    else s
  }

  // One reconcile pass over a replica.
  function Reconcile(day0: Day0, s: State, name: string): (p: Pass)
  {
    if name !in s.replicas then Done(s, false)
    else
      var me := s.replicas[name];
      var stripped := s.(replicas := s.replicas[name := me.(legacyFinalizer := false)]);
      if me.deleting then Done(stripped, false)
      else if me.legacyFinalizer then Done(stripped, true)
      else if me.rd == "" then Done(s, false)
      else if me.applied && me.rd !in s.definitions then
        Done(s.(replicas := s.replicas[name := me.(deleting := true)]), false)
      else
        var identified := AllocatePass(s, name);
        if identified.None? then Failed
        else if identified.value != s then Done(identified.value, true)
        else
          var applied := Apply(day0, s, name);
          Done(applied, applied != s)
  }
}
