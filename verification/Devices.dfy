/**
 Claiming raw devices for a storage pool: concurrent commands, refusals, and a
 command that is run again after a crash.
 */
module Devices {
  import opened Names

  datatype Attach = Attach(
    pool: string, kind: string, vg: string, thinPool: string, zpool: string, directory: string, wipe: bool)

  datatype Device = Device(
    stableId: string, path: string, currentPath: string, phase: string, free: Option<bool>, attach: Option<Attach>)

  datatype Pool = Pool(kind: string, props: map<string, string>)

  // The devices and pools of one node.
  datatype State = State(devices: map<string, Device>, pools: map<string, Pool>)

  datatype Outcome = Outcome(s: State, ok: bool)

  predicate Matches(name: string, d: Device, token: string)
  {
    name == token || d.stableId == token || d.path == token || d.currentPath == token
  }

  function Named(s: State, token: string): set<string>
  {
    set n | n in s.devices && Matches(n, s.devices[n], token)
  }

  // The one device a token names; None when there is none or more than one.
  function Resolve(s: State, token: string): (r: Option<string>)
  {
    if |Named(s, token)| == 1 then Some(Least(Named(s, token))) else None
  }

  // Everything that decides where the data lands; `wipe` is not part of it.
  predicate SameAttach(a: Attach, b: Attach)
  {
    a.(wipe := b.wipe) == b
  }

  predicate Claimable(d: Device, attach: Attach)
  {
    if d.attach.Some? then SameAttach(d.attach.value, attach)
    else (d.phase == "" || d.phase == "Available") && d.free != Some(false)
  }

  function Claim(d: Device, attach: Attach): Device
  {
    if d.attach.Some? then d else d.(attach := Some(attach))
  }

  // One atomic patch; refused for a device that is gone or not claimable.
  function Patch(s: State, name: string, attach: Attach): Outcome
  {
    if name in s.devices && Claimable(s.devices[name], attach)
    then Outcome(s.(devices := s.devices[name := Claim(s.devices[name], attach)]), true)
    else Outcome(s, false)
  }

  // Patch the named devices in order, stopping at the first refusal.
  function Stamp(s: State, names: seq<string>, attach: Attach): Outcome
    decreases |names|
  {
    if names == [] then Outcome(s, true)
    else
      var one := Patch(s, names[0], attach);
      if one.ok then Stamp(one.s, names[1..], attach) else one
  }

  predicate AllResolve(s: State, tokens: seq<string>)
  {
    forall i | 0 <= i < |tokens| :: Resolve(s, tokens[i]).Some?
  }

  function ResolveAll(s: State, tokens: seq<string>): (names: seq<string>)
    requires AllResolve(s, tokens)
    ensures |names| == |tokens|
  {
    seq(|tokens|, i requires 0 <= i < |tokens| => Resolve(s, tokens[i]).value)
  }

  predicate Adoptable(existing: Pool, wanted: Pool)
  {
    existing.kind == wanted.kind && forall k | k in wanted.props :: k in existing.props && existing.props[k] == wanted.props[k]
  }

  function Registered(s: State, attach: Attach, wanted: Pool): State
  {
    if attach.pool in s.pools then s else s.(pools := s.pools[attach.pool := wanted])
  }

  predicate Refused(s: State, attach: Attach, wanted: Pool)
  {
    attach.pool in s.pools && !Adoptable(s.pools[attach.pool], wanted)
  }

  // The command, dying after `reach` patches (all of them when it does not):
  // register or adopt the pool, resolve every token, then patch.
  function Command(s: State, tokens: seq<string>, attach: Attach, wanted: Pool, reach: nat): Outcome
    requires reach <= |tokens|
  {
    if Refused(s, attach, wanted) then Outcome(s, false)
    else
      var t := Registered(s, attach, wanted);
      if !AllResolve(t, tokens) then Outcome(t, false)
      else Stamp(t, ResolveAll(t, tokens)[..reach], attach)
  }

  // Single steps

  /** A patch never replaces a claim by another one, and claims anew only a
      device that is available and not known to be busy. */
  lemma PatchIsSafe(s: State, name: string, attach: Attach, n: string)
    requires n in s.devices
    ensures var t := Patch(s, name, attach).s;
            n in t.devices
            && (s.devices[n].attach.Some? ==> t.devices[n] == s.devices[n])
            && (t.devices[n] != s.devices[n] ==>
                  (s.devices[n].phase == "" || s.devices[n].phase == "Available") && s.devices[n].free != Some(false)
                  && t.devices[n] == s.devices[n].(attach := Some(attach)))
  {
  }

  /** A patch goes through exactly when the device is there and either claimed for the
      same pool, kind, volume group, thin pool, zpool and directory, or unclaimed,
      available and not known to be busy. */
  lemma PatchExactly(s: State, name: string, attach: Attach)
    ensures Patch(s, name, attach).ok <==>
            name in s.devices
            && var d := s.devices[name];
               if d.attach.Some? then
                 var a := d.attach.value;
                 a.pool == attach.pool && a.kind == attach.kind && a.vg == attach.vg && a.thinPool == attach.thinPool
                 && a.zpool == attach.zpool && a.directory == attach.directory
               else (d.phase == "" || d.phase == "Available") && d.free != Some(false)
  {
  }

  /** A command leaves the pool registered as wanted, unless one of that name is there:
      then it is kept, and the command refused exactly when its kind or one of the
      wanted properties differs. Nothing is claimed by a refused one. */
  lemma PoolRegistered(s: State, tokens: seq<string>, attach: Attach, wanted: Pool)
    ensures var t := Command(s, tokens, attach, wanted, 0);
            if attach.pool !in s.pools then t.s.pools == s.pools[attach.pool := wanted]
            else t.s.pools == s.pools
                 && (s.pools[attach.pool].kind != wanted.kind
                     || (exists k | k in wanted.props ::
                           k !in s.pools[attach.pool].props || s.pools[attach.pool].props[k] != wanted.props[k])
                     ==> Command(s, tokens, attach, wanted, |tokens|) == Outcome(s, false))
                 && (AllResolve(s, tokens) && !t.ok ==>
                       s.pools[attach.pool].kind != wanted.kind
                       || exists k | k in wanted.props ::
                            k !in s.pools[attach.pool].props || s.pools[attach.pool].props[k] != wanted.props[k])
  {
  }

  datatype Step =
    | Claiming(name: string, attach: Attach)
    | Observe(name: string, phase: string, free: Option<bool>, currentPath: string)
    | Publish(name: string, device: Device)
    | Finish(name: string)

  function Next(s: State, step: Step): State
  {
    match step
    case Claiming(name, attach) => Patch(s, name, attach).s
    case Observe(name, phase, free, currentPath) =>
      if name in s.devices
      then s.(devices := s.devices[name := s.devices[name].(phase := phase, free := free, currentPath := currentPath)]) else s
    case Publish(name, device) => if name in s.devices then s else s.(devices := s.devices[name := device])
    case Finish(name) => s.(devices := s.devices - {name})
  }

  function Run(s: State, steps: seq<Step>): State
    decreases |steps|
  {
    if steps == [] then s else Run(Next(s, steps[0]), steps[1..])
  }

  /** Over every interleaving of commands and satellite reports a claim stands
      until the satellite deletes the device. */
  lemma {:induction false} ClaimsNeverReplaced(s: State, steps: seq<Step>, n: string)
    requires n in s.devices && s.devices[n].attach.Some? && Finish(n) !in steps
    ensures n in Run(s, steps).devices && Run(s, steps).devices[n].attach == s.devices[n].attach
    decreases |steps|
  {
    if steps != [] {
      assert steps[0] in steps;
      ClaimsNeverReplaced(Next(s, steps[0]), steps[1..], n);
    }
  }

  // Whole commands

  // Claims change nothing a token is matched against.
  predicate SameNames(s: State, t: State)
  {
    s.devices.Keys == t.devices.Keys
    && forall n | n in s.devices :: s.devices[n].(attach := None) == t.devices[n].(attach := None)
  }

  lemma SameNamesResolve(s: State, t: State, token: string)
    requires SameNames(s, t)
    ensures Resolve(t, token) == Resolve(s, token)
  {
    forall n | n in s.devices ensures Matches(n, t.devices[n], token) == Matches(n, s.devices[n], token) {
      assert s.devices[n].(attach := None) == t.devices[n].(attach := None);
      assert s.devices[n].(attach := None).stableId == s.devices[n].stableId;
      assert t.devices[n].(attach := None).stableId == t.devices[n].stableId;
    }
    assert Named(t, token) == Named(s, token);
  }

  lemma {:induction false} StampKeepsNames(s: State, names: seq<string>, attach: Attach)
    ensures SameNames(s, Stamp(s, names, attach).s) && Stamp(s, names, attach).s.pools == s.pools
    decreases |names|
  {
    if names != [] {
      var one := Patch(s, names[0], attach);
      if one.ok {
        StampKeepsNames(one.s, names[1..], attach);
      }
    }
  }

  /** A command with an unknown or ambiguous token claims nothing at all. */
  lemma UnresolvedTokenStampsNothing(s: State, tokens: seq<string>, attach: Attach, wanted: Pool, reach: nat, i: nat)
    requires reach <= |tokens| && i < |tokens| && |Named(s, tokens[i])| != 1
    ensures Command(s, tokens, attach, wanted, reach).s.devices == s.devices
    ensures !Command(s, tokens, attach, wanted, reach).ok
  {
    var t := Registered(s, attach, wanted);
    assert Named(t, tokens[i]) == Named(s, tokens[i]);
    assert Resolve(t, tokens[i]).None?;
  }

  // A device this command has dealt with: claimed for it.
  predicate Mine(s: State, name: string, attach: Attach)
  {
    name in s.devices && s.devices[name].attach.Some? && SameAttach(s.devices[name].attach.value, attach)
  }

  lemma PatchMine(s: State, n: string, attach: Attach)
    requires Mine(s, n, attach)
    ensures Patch(s, n, attach) == Outcome(s, true)
  {
    assert s.devices[n := s.devices[n]] == s.devices;
  }

  predicate AllClaimable(s: State, names: seq<string>, attach: Attach)
  {
    forall i | 0 <= i < |names| :: names[i] in s.devices && Claimable(s.devices[names[i]], attach)
  }

  // The devices after every name in the list was claimed.
  function Claimed(s: State, names: seq<string>, attach: Attach): State
  {
    s.(devices := map n | n in s.devices :: if n in names then Claim(s.devices[n], attach) else s.devices[n])
  }

  lemma ClaimedTail(s: State, names: seq<string>, attach: Attach)
    requires names != [] && names[0] in s.devices && Claimable(s.devices[names[0]], attach)
    ensures var one := Patch(s, names[0], attach).s;
            (AllClaimable(one, names[1..], attach) <==> AllClaimable(s, names, attach))
            && Claimed(one, names[1..], attach) == Claimed(s, names, attach)
  {
    var one := Patch(s, names[0], attach).s;
    assert SameAttach(attach, attach);
    assert forall i | 0 < i < |names| :: names[i] == names[1..][i - 1];
    if AllClaimable(one, names[1..], attach) {
      forall i | 0 <= i < |names| ensures names[i] in s.devices && Claimable(s.devices[names[i]], attach) {
      }
    }
    assert Claimed(one, names[1..], attach).devices == Claimed(s, names, attach).devices;
  }

  /** The patches all go through exactly when every device could be claimed from
      the start, and then claim just those. */
  lemma {:induction false} StampExactly(s: State, names: seq<string>, attach: Attach)
    ensures Stamp(s, names, attach).ok <==> AllClaimable(s, names, attach)
    ensures Stamp(s, names, attach).ok ==> Stamp(s, names, attach).s == Claimed(s, names, attach)
    decreases |names|
  {
    if names == [] {
      assert Claimed(s, names, attach).devices == s.devices;
    } else if Patch(s, names[0], attach).ok {
      StampExactly(Patch(s, names[0], attach).s, names[1..], attach);
      ClaimedTail(s, names, attach);
    }
  }

  /** A run that is refused stops at the first device that cannot be claimed and keeps
      what it has claimed before. */
  lemma {:induction false} RefusedAt(s: State, names: seq<string>, attach: Attach, i: nat)
    requires i < |names| && AllClaimable(s, names[..i], attach)
    requires !(names[i] in s.devices && Claimable(s.devices[names[i]], attach))
    ensures Stamp(s, names, attach) == Outcome(Claimed(s, names[..i], attach), false)
  {
    StampExactly(s, names[..i], attach);
    StampSplit(s, names, i, attach);
    var t := Claimed(s, names[..i], attach);
    assert names[i..][0] == names[i];
  }

  // A run over a list is the run over a prefix followed by the rest.
  lemma {:induction false} StampSplit(s: State, names: seq<string>, k: nat, attach: Attach)
    requires k <= |names|
    ensures var first := Stamp(s, names[..k], attach);
            Stamp(s, names, attach) == if first.ok then Stamp(first.s, names[k..], attach) else first
    decreases k
  {
    if k == 0 {
      assert names[..0] == [] && names[0..] == names;
    } else {
      assert names[..k][0] == names[0] && names[..k][1..] == names[1..][..k - 1] && names[1..][k - 1..] == names[k..];
      StampSplit(Patch(s, names[0], attach).s, names[1..], k - 1, attach);
    }
  }

  lemma {:induction false} StampKeepsMine(s: State, names: seq<string>, attach: Attach, n: string)
    requires Mine(s, n, attach)
    ensures Mine(Stamp(s, names, attach).s, n, attach)
    decreases |names|
  {
    if names != [] && Patch(s, names[0], attach).ok {
      StampKeepsMine(Patch(s, names[0], attach).s, names[1..], attach, n);
    }
  }

  // Stamping a prefix again, before going on, changes nothing.
  lemma {:induction false} StampAgain(t: State, names: seq<string>, k: nat, attach: Attach)
    requires k <= |names| && forall i | 0 <= i < k :: Mine(t, names[i], attach)
    ensures Stamp(t, names, attach) == Stamp(t, names[k..], attach)
    decreases k
  {
    if k == 0 {
      assert names[0..] == names;
    } else {
      PatchMine(t, names[0], attach);
      assert names[1..][k - 1..] == names[k..];
      StampAgain(t, names[1..], k - 1, attach);
    }
  }

  // A refused run leaves the refused device as it was, so it is refused again.
  lemma {:induction false} RefusedAgain(s: State, names: seq<string>, attach: Attach)
    requires !Stamp(s, names, attach).ok
    ensures Stamp(Stamp(s, names, attach).s, names, attach) == Stamp(s, names, attach)
    decreases |names|
  {
    var one := Patch(s, names[0], attach);
    if one.ok {
      RefusedAgain(one.s, names[1..], attach);
      assert SameAttach(attach, attach) && Mine(one.s, names[0], attach);
      StampKeepsMine(one.s, names[1..], attach, names[0]);
      PatchMine(Stamp(s, names, attach).s, names[0], attach);
    }
  }

  /** Stamping a prefix, dying, and stamping everything again reaches what one
      uninterrupted run reaches. */
  lemma StampRetry(s: State, names: seq<string>, k: nat, attach: Attach)
    requires k <= |names|
    ensures Stamp(Stamp(s, names[..k], attach).s, names, attach) == Stamp(s, names, attach)
  {
    var first := Stamp(s, names[..k], attach);
    StampSplit(s, names, k, attach);
    if first.ok {
      StampExactly(s, names[..k], attach);
      forall i | 0 <= i < k ensures Mine(first.s, names[i], attach) {
        assert names[..k][i] == names[i] && SameAttach(attach, attach);
      }
      StampAgain(first.s, names, k, attach);
    } else {
      RefusedAgain(s, names[..k], attach);
      StampSplit(first.s, names, k, attach);
    }
  }

  // Between a crash and the retry

  // A report of the satellite: on a device claimed for this command anything goes,
  // on any other only the path it is found under moves.
  predicate Working(s: State, step: Step, attach: Attach)
  {
    step.Observe?
    && (step.name in s.devices ==>
          Mine(s, step.name, attach)
          || (step.phase == s.devices[step.name].phase && step.free == s.devices[step.name].free))
  }

  predicate AllWorking(s: State, steps: seq<Step>, attach: Attach)
    decreases |steps|
  {
    steps == [] || (Working(s, steps[0], attach) && AllWorking(Next(s, steps[0]), steps[1..], attach))
  }

  predicate SameButReported(d: Device, e: Device, mine: bool)
  {
    e == d.(currentPath := e.currentPath) || (mine && e == d.(currentPath := e.currentPath, phase := e.phase, free := e.free))
  }

  // What such reports leave alone.
  predicate Progressed(a: State, b: State, attach: Attach)
  {
    && a.pools == b.pools && a.devices.Keys == b.devices.Keys
    && forall n | n in a.devices :: SameButReported(a.devices[n], b.devices[n], Mine(a, n, attach))
  }

  lemma {:induction false} WorkingProgresses(s: State, steps: seq<Step>, attach: Attach)
    requires AllWorking(s, steps, attach)
    ensures Progressed(s, Run(s, steps), attach)
    decreases |steps|
  {
    if steps != [] {
      var t := Next(s, steps[0]);
      WorkingProgresses(t, steps[1..], attach);
      assert Progressed(s, t, attach);
      forall n | n in s.devices
        ensures SameButReported(s.devices[n], Run(t, steps[1..]).devices[n], Mine(s, n, attach))
      {
        assert SameButReported(s.devices[n], t.devices[n], Mine(s, n, attach));
        assert SameButReported(t.devices[n], Run(t, steps[1..]).devices[n], Mine(t, n, attach));
      }
    }
  }

  lemma {:induction false} StampProgressed(a: State, b: State, names: seq<string>, attach: Attach)
    requires Progressed(a, b, attach)
    ensures Stamp(a, names, attach).ok == Stamp(b, names, attach).ok
    ensures Progressed(Stamp(a, names, attach).s, Stamp(b, names, attach).s, attach)
    decreases |names|
  {
    if names != [] {
      assert names[0] in a.devices ==>
          SameButReported(a.devices[names[0]], b.devices[names[0]], Mine(a, names[0], attach));
      if Patch(a, names[0], attach).ok {
        StampProgressed(Patch(a, names[0], attach).s, Patch(b, names[0], attach).s, names[1..], attach);
      }
    }
  }

  function Claims(s: State): map<string, Option<Attach>>
  {
    map n | n in s.devices :: s.devices[n].attach
  }

  lemma ProgressedClaims(a: State, b: State, attach: Attach)
    requires Progressed(a, b, attach)
    ensures Claims(a) == Claims(b)
  {
    forall n | n in a.devices ensures a.devices[n].attach == b.devices[n].attach {
      assert SameButReported(a.devices[n], b.devices[n], Mine(a, n, attach));
    }
  }

  lemma RetryAtOnce(s: State, tokens: seq<string>, attach: Attach, wanted: Pool, k: nat)
    requires k <= |tokens|
    ensures var half := Command(s, tokens, attach, wanted, k).s;
            Command(half, tokens, attach, wanted, |tokens|) == Command(s, tokens, attach, wanted, |tokens|)
            && forall token :: Resolve(half, token) == Resolve(s, token)
  {
    var t := Registered(s, attach, wanted);
    var half := Command(s, tokens, attach, wanted, k).s;
    if !Refused(s, attach, wanted) && AllResolve(t, tokens) {
      StampKeepsNames(t, ResolveAll(t, tokens)[..k], attach);
    }
    forall token ensures Resolve(half, token) == Resolve(s, token) {
      SameNamesResolve(s, half, token);
      SameNamesResolve(s, t, token);
    }
    if !Refused(s, attach, wanted) && AllResolve(t, tokens) {
      var names := ResolveAll(t, tokens);
      assert ResolveAll(half, tokens) == names;
      assert names[..|tokens|] == names;
      StampRetry(t, names, k, attach);
    }
  }

  lemma RetryLater(half: State, mid: State, tokens: seq<string>, attach: Attach, wanted: Pool)
    requires Progressed(half, mid, attach)
    requires forall i | 0 <= i < |tokens| :: Resolve(mid, tokens[i]) == Resolve(half, tokens[i])
    ensures var once, again := Command(half, tokens, attach, wanted, |tokens|), Command(mid, tokens, attach, wanted, |tokens|);
            again.ok == once.ok && Claims(again.s) == Claims(once.s) && again.s.pools == once.s.pools
  {
    var t, u := Registered(half, attach, wanted), Registered(mid, attach, wanted);
    assert Progressed(t, u, attach);
    ProgressedClaims(half, mid, attach);
    ProgressedClaims(t, u, attach);
    forall i | 0 <= i < |tokens| ensures Resolve(u, tokens[i]) == Resolve(t, tokens[i]) {
      SameNamesResolve(half, t, tokens[i]);
      SameNamesResolve(mid, u, tokens[i]);
    }
    if !Refused(half, attach, wanted) && AllResolve(t, tokens) {
      var names := ResolveAll(t, tokens);
      assert ResolveAll(u, tokens) == names && names[..|tokens|] == names;
      StampProgressed(t, u, names, attach);
      ProgressedClaims(Stamp(t, names, attach).s, Stamp(u, names, attach).s, attach);
    }
  }

  /** Crash and retry: wherever the first attempt died and however far the satellite
      got with the devices it had claimed, running the command again ends with the
      same claims, pools and verdict as one uninterrupted run, as long as no device
      was deleted and every token still resolves as it did. */
  lemma CrashThenRetry(s: State, tokens: seq<string>, attach: Attach, wanted: Pool, k: nat, steps: seq<Step>)
    requires k <= |tokens|
    requires var half := Command(s, tokens, attach, wanted, k).s;
             AllWorking(half, steps, attach)
             && forall i | 0 <= i < |tokens| :: Resolve(Run(half, steps), tokens[i]) == Resolve(s, tokens[i])
    ensures var mid := Run(Command(s, tokens, attach, wanted, k).s, steps);
            var once, again := Command(s, tokens, attach, wanted, |tokens|), Command(mid, tokens, attach, wanted, |tokens|);
            again.ok == once.ok && Claims(again.s) == Claims(once.s) && again.s.pools == once.s.pools
  {
    var half := Command(s, tokens, attach, wanted, k).s;
    RetryAtOnce(s, tokens, attach, wanted, k);
    WorkingProgresses(half, steps, attach);
    RetryLater(half, Run(half, steps), tokens, attach, wanted);
  }

  // Claims stand whatever else happens to the devices and pools, short of a delete.
  lemma {:induction false} MineStands(s: State, steps: seq<Step>, n: string, attach: Attach)
    requires Mine(s, n, attach) && Finish(n) !in steps
    ensures Mine(Run(s, steps), n, attach)
    decreases |steps|
  {
    ClaimsNeverReplaced(s, steps, n);
  }

  lemma {:induction false} StepsKeepPools(s: State, steps: seq<Step>)
    ensures Run(s, steps).pools == s.pools
    decreases |steps|
  {
    if steps != [] {
      StepsKeepPools(Next(s, steps[0]), steps[1..]);
    }
  }

  /** Among any other steps, new devices and other commands' claims included, a retry
      goes through exactly when what the first attempt had not claimed can be claimed
      still; and then it has claimed everything. */
  lemma RetryAmongOthersExactly(s: State, tokens: seq<string>, attach: Attach, wanted: Pool, k: nat, steps: seq<Step>)
    requires k <= |tokens| && Command(s, tokens, attach, wanted, |tokens|).ok
    requires var mid := Run(Command(s, tokens, attach, wanted, k).s, steps);
             forall i | 0 <= i < |tokens| :: Resolve(mid, tokens[i]) == Resolve(s, tokens[i])
    requires forall i | 0 <= i < |tokens| :: Resolve(s, tokens[i]).Some? ==> Finish(Resolve(s, tokens[i]).value) !in steps
    ensures var mid := Run(Command(s, tokens, attach, wanted, k).s, steps);
            var again := Command(mid, tokens, attach, wanted, |tokens|);
            AllResolve(mid, tokens)
            && (again.ok <==> AllClaimable(mid, ResolveAll(mid, tokens)[k..], attach))
            && (again.ok ==> forall i | 0 <= i < |tokens| :: Mine(again.s, ResolveAll(mid, tokens)[i], attach))
  {
    var t := Registered(s, attach, wanted);
    CommandClaims(s, tokens, attach, wanted, k);
    var names := ResolveAll(t, tokens);
    var half := Claimed(t, names[..k], attach);
    var mid := Run(half, steps);
    StepsKeepPools(half, steps);
    forall i | 0 <= i < |tokens| ensures Resolve(mid, tokens[i]) == Resolve(t, tokens[i]) {
      SameNamesResolve(s, t, tokens[i]);
    }
    assert ResolveAll(mid, tokens) == names && names[..|tokens|] == names;
    assert SameAttach(attach, attach) && Adoptable(wanted, wanted);
    forall i | 0 <= i < k ensures Mine(mid, names[i], attach) {
      SameNamesResolve(s, t, tokens[i]);
      assert names[..k][i] == names[i] && Mine(half, names[i], attach);
      MineStands(half, steps, names[i], attach);
    }
    RestClaimable(mid, names, k, attach);
    StampExactly(mid, names, attach);
  }

  lemma RestClaimable(mid: State, names: seq<string>, k: nat, attach: Attach)
    requires k <= |names| && forall i | 0 <= i < k :: Mine(mid, names[i], attach)
    ensures AllClaimable(mid, names, attach) <==> AllClaimable(mid, names[k..], attach)
    ensures AllClaimable(mid, names, attach) ==>
              forall i | 0 <= i < |names| :: Mine(Claimed(mid, names, attach), names[i], attach)
  {
    assert SameAttach(attach, attach);
    assert forall i | k <= i < |names| :: names[k..][i - k] == names[i];
    if AllClaimable(mid, names[k..], attach) {
      forall i | 0 <= i < |names| ensures names[i] in mid.devices && Claimable(mid.devices[names[i]], attach) {
        assert i < k ==> Mine(mid, names[i], attach);
      }
    }
  }

  // When a token no longer names what it did

  /** A report changes what a token names exactly when the device goes by that
      token under its old or its new path only. */
  lemma ReportRenamesExactly(s: State, n: string, phase: string, free: Option<bool>, path: string, token: string)
    requires n in s.devices
    ensures var d := s.devices[n];
            Named(Next(s, Observe(n, phase, free, path)), token) == Named(s, token)
            <==> token in [n, d.stableId, d.path] || (token == path <==> token == d.currentPath)
  {
    var d, t := s.devices[n], Next(s, Observe(n, phase, free, path));
    assert n in Named(t, token) <==> token in [n, d.stableId, d.path] || token == path;
    assert n in Named(s, token) <==> token in [n, d.stableId, d.path] || token == d.currentPath;
    assert forall m | m != n :: m in Named(t, token) <==> m in Named(s, token);
  }

  lemma SameResolutionExactly(s: State, t: State, token: string)
    requires |Named(s, token)| == 1
    ensures Resolve(t, token) == Resolve(s, token) <==> Named(t, token) == Named(s, token)
  {
    var n := Least(Named(s, token));
    SubsetSize({n}, Named(s, token));
    if Resolve(t, token) == Some(n) {
      SubsetSize({n}, Named(t, token));
    }
  }

  // Every token names one device, all of them this command's, and between them the
  // tokens name what is still to be claimed.
  predicate TokensStand(once: State, mid: State, tokens: seq<string>, attach: Attach)
  {
    AllResolve(mid, tokens) && NamesStand(once, mid, ResolveAll(mid, tokens), attach)
  }

  predicate NamesStand(once: State, mid: State, names: seq<string>, attach: Attach)
  {
    && (forall i | 0 <= i < |names| :: Mine(once, names[i], attach))
    && (forall n | n in mid.devices && Mine(once, n, attach) :: Mine(mid, n, attach) || n in names)
  }

  // `mid` is on the way to `once`: what it has claimed is claimed there, and the
  // rest is as it was at the start.
  predicate OnTheWay(start: State, once: State, mid: State, names: seq<string>, attach: Attach)
  {
    && AllClaimable(start, names, attach) && once == Claimed(start, names, attach)
    && start.devices.Keys == mid.devices.Keys
    && forall n | n in start.devices ::
         if Mine(mid, n, attach) then Mine(once, n, attach) && once.devices[n].attach == mid.devices[n].attach
         else mid.devices[n] == start.devices[n].(currentPath := mid.devices[n].currentPath)
  }

  lemma AgreeingStands(start: State, once: State, mid: State, names: seq<string>, later: seq<string>, attach: Attach)
    requires OnTheWay(start, once, mid, names, attach) && AllClaimable(mid, later, attach)
    requires Claims(Claimed(mid, later, attach)) == Claims(once)
    ensures NamesStand(once, mid, later, attach)
  {
    var again := Claimed(mid, later, attach);
    assert SameAttach(attach, attach);
    forall n | n in mid.devices ensures again.devices[n].attach == once.devices[n].attach {
      assert Claims(again)[n] == Claims(once)[n];
    }
    forall i | 0 <= i < |later| ensures Mine(once, later[i], attach) {
      assert again.devices[later[i]].attach == once.devices[later[i]].attach;
    }
    forall n | n in mid.devices && Mine(once, n, attach) ensures Mine(mid, n, attach) || n in later {
      assert again.devices[n].attach == once.devices[n].attach;
    }
  }

  lemma StandingAgrees(start: State, once: State, mid: State, names: seq<string>, later: seq<string>, attach: Attach)
    requires OnTheWay(start, once, mid, names, attach) && NamesStand(once, mid, later, attach)
    ensures AllClaimable(mid, later, attach) && Claims(Claimed(mid, later, attach)) == Claims(once)
  {
    var again := Claimed(mid, later, attach);
    assert SameAttach(attach, attach);
    forall n | n in mid.devices && Mine(once, n, attach) && !Mine(mid, n, attach)
      ensures n in names && Claimable(mid.devices[n], attach)
    {
      if n in names {
        var i :| 0 <= i < |names| && names[i] == n;
        assert Claimable(start.devices[names[i]], attach);
      }
    }
    forall i | 0 <= i < |later| ensures later[i] in mid.devices && Claimable(mid.devices[later[i]], attach) {
      assert Mine(once, later[i], attach);
    }
    forall n | n in mid.devices ensures again.devices[n].attach == once.devices[n].attach {
      if n in later {
        var i :| 0 <= i < |later| && later[i] == n;
        assert Mine(once, later[i], attach);
      }
    }
  }

  lemma HalfOnTheWay(start: State, mid: State, names: seq<string>, k: nat, attach: Attach)
    requires k <= |names| && AllClaimable(start, names, attach)
    requires Progressed(Claimed(start, names[..k], attach), mid, attach)
    ensures OnTheWay(start, Claimed(start, names, attach), mid, names, attach)
  {
    var half, once := Claimed(start, names[..k], attach), Claimed(start, names, attach);
    assert SameAttach(attach, attach);
    forall n | n in start.devices
      ensures if Mine(mid, n, attach) then Mine(once, n, attach) && once.devices[n].attach == mid.devices[n].attach
              else mid.devices[n] == start.devices[n].(currentPath := mid.devices[n].currentPath)
    {
      assert SameButReported(half.devices[n], mid.devices[n], Mine(half, n, attach));
      if n in names[..k] {
        var i :| 0 <= i < k && names[..k][i] == n;
        assert names[i] == n && Claimable(start.devices[names[i]], attach);
      }
    }
  }

  // A command that goes through, and its first k patches.
  lemma CommandClaims(s: State, tokens: seq<string>, attach: Attach, wanted: Pool, k: nat)
    requires k <= |tokens| && Command(s, tokens, attach, wanted, |tokens|).ok
    ensures var t := Registered(s, attach, wanted);
            !Refused(s, attach, wanted) && AllResolve(t, tokens) && AllClaimable(t, ResolveAll(t, tokens), attach)
            && Command(s, tokens, attach, wanted, k) == Outcome(Claimed(t, ResolveAll(t, tokens)[..k], attach), true)
  {
    var t := Registered(s, attach, wanted);
    var names := ResolveAll(t, tokens);
    assert names[..|tokens|] == names;
    StampExactly(t, names, attach);
    assert forall i | 0 <= i < k :: names[..k][i] == names[i];
    StampExactly(t, names[..k], attach);
  }

  lemma RetryOnTheWay(start: State, once: State, mid: State, names: seq<string>, tokens: seq<string>, attach: Attach, wanted: Pool)
    requires OnTheWay(start, once, mid, names, attach)
    requires attach.pool in mid.pools && !Refused(mid, attach, wanted)
    ensures var again := Command(mid, tokens, attach, wanted, |tokens|);
            again.ok && Claims(again.s) == Claims(once) <==> TokensStand(once, mid, tokens, attach)
  {
    if AllResolve(mid, tokens) {
      var later := ResolveAll(mid, tokens);
      assert later[..|tokens|] == later;
      StampExactly(mid, later, attach);
      if AllClaimable(mid, later, attach) && Claims(Claimed(mid, later, attach)) == Claims(once) {
        AgreeingStands(start, once, mid, names, later, attach);
      }
      if NamesStand(once, mid, later, attach) {
        StandingAgrees(start, once, mid, names, later, attach);
      }
    }
  }

  /** The exact condition: after an attempt that would have gone through, a retry
      reaches the same claims and verdict exactly when every token names one device
      of this command and the tokens name all that is still to be claimed. */
  lemma RetryAgreesExactly(s: State, tokens: seq<string>, attach: Attach, wanted: Pool, k: nat, steps: seq<Step>)
    requires k <= |tokens| && Command(s, tokens, attach, wanted, |tokens|).ok
    requires AllWorking(Command(s, tokens, attach, wanted, k).s, steps, attach)
    ensures var mid := Run(Command(s, tokens, attach, wanted, k).s, steps);
            var once, again := Command(s, tokens, attach, wanted, |tokens|), Command(mid, tokens, attach, wanted, |tokens|);
            again.ok && Claims(again.s) == Claims(once.s) <==> TokensStand(once.s, mid, tokens, attach)
  {
    var t := Registered(s, attach, wanted);
    CommandClaims(s, tokens, attach, wanted, k);
    CommandClaims(s, tokens, attach, wanted, |tokens|);
    var names := ResolveAll(t, tokens);
    assert names[..|tokens|] == names;
    var half := Claimed(t, names[..k], attach);
    WorkingProgresses(half, steps, attach);
    var mid := Run(half, steps);
    HalfOnTheWay(t, mid, names, k, attach);
    assert Adoptable(wanted, wanted);
    RetryOnTheWay(t, Claimed(t, names, attach), mid, names, tokens, attach, wanted);
  }

  function Holders(s: State): set<string>
  {
    set n | n in s.devices && s.devices[n].attach.Some?
  }

  // Two free disks found under /dev/sda and /dev/sdb.
  function TwoDisks(): State
  {
    State(map["a" := Device("id-a", "/dev/a", "/dev/sda", "", None, None),
              "b" := Device("id-b", "/dev/b", "/dev/sdb", "", None, None)], map[])
  }

  const SOME_POOL := Attach("pool", "LVM", "vg", "", "", "", false)

  lemma OneNamed(s: State, token: string, n: string)
    requires Named(s, token) == {n}
    ensures Resolve(s, token) == Some(n)
  {
  }

  lemma ClaimOnly(s: State, token: string, n: string, wanted: Pool)
    requires Named(s, token) == {n} && SOME_POOL.pool in s.pools && s.pools[SOME_POOL.pool] == wanted
    requires n in s.devices && Claimable(s.devices[n], SOME_POOL)
    ensures Command(s, [token], SOME_POOL, wanted, 1)
            == Outcome(s.(devices := s.devices[n := Claim(s.devices[n], SOME_POOL)]), true)
  {
    OneNamed(s, token, n);
    var names := ResolveAll(s, [token]);
    assert names == [n] && names[..1] == [n];
    assert Stamp(Patch(s, n, SOME_POOL).s, [n][1..], SOME_POOL).ok;
  }

  // The first disk was claimed and the satellite is attaching it.
  function Attaching(wanted: Pool, path: string, other: string): State
  {
    State(map["a" := Device("id-a", "/dev/a", path, "Attaching", Some(false), Some(SOME_POOL)),
              "b" := Device("id-b", "/dev/b", other, "", None, None)], map["pool" := wanted])
  }

  lemma FirstDiskClaimed(wanted: Pool, path: string, other: string, steps: seq<Step>)
    requires steps == [Observe("a", "Attaching", Some(false), path), Observe("b", "", None, other)]
    ensures var half := Command(TwoDisks(), ["/dev/sda"], SOME_POOL, wanted, 1);
            half.ok && AllWorking(half.s, steps, SOME_POOL) && Run(half.s, steps) == Attaching(wanted, path, other)
            && Holders(half.s) == {"a"}
  {
    var s := TwoDisks().(pools := map["pool" := wanted]);
    assert Named(TwoDisks(), "/dev/sda") == {"a"} && Named(s, "/dev/sda") == {"a"};
    ClaimOnly(s, "/dev/sda", "a", wanted);
    var half := Command(TwoDisks(), ["/dev/sda"], SOME_POOL, wanted, 1);
    assert half == Command(s, ["/dev/sda"], SOME_POOL, wanted, 1) by {
      assert TwoDisks().pools[SOME_POOL.pool := wanted] == s.pools;
      OneNamed(TwoDisks(), "/dev/sda", "a");
    }
    assert SameAttach(SOME_POOL, SOME_POOL);
    var mid := Next(half.s, steps[0]);
    assert steps[1..] == [steps[1]] && steps[1..][1..] == [];
    assert Run(half.s, steps) == Run(mid, [steps[1]]);
    assert Run(mid, [steps[1]]) == Next(mid, steps[1]);
    assert Next(mid, steps[1]).devices == Attaching(wanted, path, other).devices;
  }

  /** The paths moved between crash and retry: two disks that swap them make the
      retry claim a second one. */
  lemma SwappedPathsClaimAnother(wanted: Pool)
    ensures var steps := [Observe("a", "Attaching", Some(false), "/dev/sdb"), Observe("b", "", None, "/dev/sda")];
            var once := Command(TwoDisks(), ["/dev/sda"], SOME_POOL, wanted, 1);
            var again := Command(Run(once.s, steps), ["/dev/sda"], SOME_POOL, wanted, 1);
            AllWorking(once.s, steps, SOME_POOL) && once.ok && again.ok
            && Holders(once.s) == {"a"} && Holders(again.s) == {"a", "b"}
  {
    FirstDiskClaimed(wanted, "/dev/sdb", "/dev/sda",
                     [Observe("a", "Attaching", Some(false), "/dev/sdb"), Observe("b", "", None, "/dev/sda")]);
    var mid := Attaching(wanted, "/dev/sdb", "/dev/sda");
    assert Named(mid, "/dev/sda") == {"b"};
    ClaimOnly(mid, "/dev/sda", "b", wanted);
  }

  /** A second disk found under the first one's path makes the retry refuse. */
  lemma SharedPathRefusesRetry(wanted: Pool)
    ensures var steps := [Observe("a", "Attaching", Some(false), "/dev/sda"), Observe("b", "", None, "/dev/sda")];
            var once := Command(TwoDisks(), ["/dev/sda"], SOME_POOL, wanted, 1);
            var again := Command(Run(once.s, steps), ["/dev/sda"], SOME_POOL, wanted, 1);
            AllWorking(once.s, steps, SOME_POOL) && once.ok && !again.ok
  {
    FirstDiskClaimed(wanted, "/dev/sda", "/dev/sda",
                     [Observe("a", "Attaching", Some(false), "/dev/sda"), Observe("b", "", None, "/dev/sda")]);
    var mid := Attaching(wanted, "/dev/sda", "/dev/sda");
    assert Named(mid, "/dev/sda") == {"a", "b"};
    assert ["/dev/sda"][0] == "/dev/sda";
    UnresolvedTokenStampsNothing(mid, ["/dev/sda"], SOME_POOL, wanted, 1, 0);
  }

  lemma OnlyOne(matched: seq<string>, s: set<string>)
    requires Lists(matched, s) && |matched| == 1
    ensures s == {matched[0]} && Least(s) == matched[0]
  {
    assert matched == [matched[0]];
  }

  class Inventory {
    var s: State

    constructor (s: State)
      ensures this.s == s
    {
      this.s := s;
    }

    method ResolveDevice(token: string) returns (r: Option<string>)
      ensures r == Resolve(s, token)
    {
      var known := ListKeys(s.devices.Keys);
      var matched: seq<string> := [];
      for i := 0 to |known|
        invariant Lists(matched, Named(s, token) * Elems(known[..i]))
      {
        Visit(known, i);
        Meet(Named(s, token), Elems(known[..i]), known[i]);
        if Matches(known[i], s.devices[known[i]], token) {
          ListAppend(matched, Named(s, token) * Elems(known[..i]), known[i]);
          matched := matched + [known[i]];
        }
      }
      VisitedAll(known);
      assert Named(s, token) * Elems(known) == Named(s, token);
      ListSize(matched, Named(s, token));
      if |matched| == 1 {
        OnlyOne(matched, Named(s, token));
        return Some(matched[0]);
      }
      return None;
    }

    /** Resolve every token before the first write, then claim in order. */
    method StampDevices(tokens: seq<string>, attach: Attach) returns (ok: bool)
      modifies this
      ensures AllResolve(old(s), tokens) ==> Outcome(s, ok) == Stamp(old(s), ResolveAll(old(s), tokens), attach)
      ensures !AllResolve(old(s), tokens) ==> s == old(s) && !ok
    {
      var names: seq<string> := [];
      for i := 0 to |tokens|
        invariant |names| == i && forall j | 0 <= j < i :: Resolve(s, tokens[j]) == Some(names[j])
        invariant s == old(s)
      {
        var name := ResolveDevice(tokens[i]);
        if name.None? {
          return false;
        }
        names := names + [name.value];
      }
      assert names == ResolveAll(s, tokens);
      assert names[0..] == names;
      for i := 0 to |names|
        invariant Stamp(s, names[i..], attach) == Stamp(old(s), names, attach)
      {
        assert names[i..][0] == names[i] && names[i..][1..] == names[i + 1..];
        if names[i] !in s.devices {
          return false;
        }
        var d := s.devices[names[i]];
        if d.attach.Some? {
          if !SameAttach(d.attach.value, attach) {
            return false;
          }
          PatchMine(s, names[i], attach);
          continue;
        }
        if (d.phase != "" && d.phase != "Available") || d.free == Some(false) {
          return false;
        }
        s := s.(devices := s.devices[names[i] := d.(attach := Some(attach))]);
      }
      return true;
    }
  }
}
