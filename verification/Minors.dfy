/**
 Device minors over whole runs: unique across all volumes of all definitions,
 settable once, and inside the range of every hosting node.
 */
module Minors {
  import opened Names
  import opened DrbdPool
  import opened Cluster
  import opened Runs
  import opened Identity
  import opened Exhaustion

  // The minor a volume has, or will be given by the one-time backfill.
  function Claim(d: Definition, i: nat): Option<int>
    requires i < |d.volumes|
  {
    if d.volumes[i].minor.Some? then d.volumes[i].minor
    else if Legacy(d) then Some(d.baseMinor.value + d.volumes[i].number)
    else None
  }

  predicate ClaimsApart(d: Definition)
  {
    forall i, j | 0 <= i < j < |d.volumes| :: Apart(Claim(d, i), Claim(d, j))
  }

  predicate ForeignApart(d: Definition, e: Definition)
  {
    forall i, j | 0 <= i < |d.volumes| && 0 <= j < |e.volumes| :: Apart(Claim(d, i), Claim(e, j))
  }

  /** No minor is claimed twice anywhere in the cluster. */
  predicate MinorsApart(s: State)
  {
    && (forall x | x in s.definitions :: ClaimsApart(s.definitions[x]))
    && (forall x, y | x in s.definitions && y in s.definitions && x != y ::
          ForeignApart(s.definitions[x], s.definitions[y]))
  }

  // Volume numbers 0..n-1 while a base minor waits for its backfill.
  predicate Dense(d: Definition)
  {
    Legacy(d) ==> forall i | 0 <= i < |d.volumes| :: 0 <= d.volumes[i].number < |d.volumes|
  }

  predicate AllDense(s: State)
  {
    forall x | x in s.definitions :: Dense(s.definitions[x])
  }

  // No volume anywhere has or will be given this minor.
  predicate Unclaimed(s: State, m: int)
  {
    forall x, j | x in s.definitions && 0 <= j < |s.definitions[x].volumes| :: Claim(s.definitions[x], j) != Some(m)
  }

  function WithVolume(d: Definition, number: int, sizeKib: int): Definition
  {
    d.(volumes := d.volumes + [VolumeDefinition(number, sizeKib, None)])
  }

  // The volumes of a legacy definition have different numbers, and no other
  // definition claims what they will be given.
  predicate NumbersFit(s: State, rd: string, e: Definition)
    requires e.baseMinor.Some?
  {
    && (forall i, j | 0 <= i < j < |e.volumes| :: e.volumes[i].number != e.volumes[j].number)
    && (forall i, x, j | 0 <= i < |e.volumes| && x in s.definitions && x != rd && 0 <= j < |s.definitions[x].volumes| ::
          Claim(s.definitions[x], j) != Some(e.baseMinor.value + e.volumes[i].number))
  }

  // Edits keep the numbers of a definition that waits for its backfill dense. A
  // volume appended to one will be given a minor nobody claims; so will the volumes
  // of one that waits again because its last set minor was removed.
  predicate MinorsFit(s: State, step: Step)
  {
    match step
    case CreateDefinition(rd, d) =>
      Dense(d) && ClaimsApart(d) && forall x | x in s.definitions :: ForeignApart(d, s.definitions[x])
    case AppendVolume(rd, number, sizeKib) =>
      rd in s.definitions && Legacy(s.definitions[rd]) ==>
        Dense(WithVolume(s.definitions[rd], number, sizeKib)) && Unclaimed(s, s.definitions[rd].baseMinor.value + number)
    case RemoveVolume(rd, index) =>
      rd in s.definitions && index < |s.definitions[rd].volumes| ==>
        var d, e := s.definitions[rd], WithoutVolume(s.definitions[rd], index);
        Dense(e) && (Legacy(e) && !Legacy(d) ==> NumbersFit(s, rd, e))
    case _ => true
  }

  lemma ReservesItsClaims(d: Definition, i: nat)
    requires Dense(d) && i < |d.volumes| && Claim(d, i).Some?
    ensures Claim(d, i).value in Reserved(d)
  {
  }

  // Filling

  predicate SetApart(volumes: seq<VolumeDefinition>)
  {
    forall i, j | 0 <= i < j < |volumes| :: Apart(volumes[i].minor, volumes[j].minor)
  }

  lemma {:induction false} FillFresh(volumes: seq<VolumeDefinition>, taken: set<int>, range: Range)
    requires FillMinors(volumes, taken, range).Some? && SetMinors(volumes) <= taken && SetApart(volumes)
    ensures var r := FillMinors(volumes, taken, range).value;
            Numbers(volumes, r) && Complete(r) && SetApart(r)
            && forall i | 0 <= i < |volumes| && volumes[i].minor.None? :: Free(taken, range, r[i].minor.value)
    decreases |volumes|
  {
    FillKeeps(volumes, taken, range);
    if volumes != [] {
      var rest := volumes[1..];
      var r := FillMinors(volumes, taken, range).value;
      assert forall i | 0 <= i < |rest| :: rest[i] == volumes[i + 1];
      assert SetMinors(rest) <= SetMinors(volumes);
      if volumes[0].minor.Some? {
        FillFresh(rest, taken, range);
        assert volumes[0].minor.value in SetMinors(volumes);
      } else {
        var m := LowestFree(taken, range).value;
        FillFresh(rest, taken + {m}, range);
        forall k | 1 <= k < |r| ensures Apart(Some(m), r[k].minor) {
          if rest[k - 1].minor.Some? {
            assert rest[k - 1].minor.value in SetMinors(rest);
          }
        }
      }
      assert r[1..] == FillMinors(rest, if volumes[0].minor.Some? then taken else taken + {LowestFree(taken, range).value}, range).value;
      forall i, j | 0 <= i < j < |r| ensures Apart(r[i].minor, r[j].minor) {
        assert r[j] == r[1..][j - 1];
        if i > 0 { assert r[i] == r[1..][i - 1]; }
        else if volumes[0].minor.Some? {
          if rest[j - 1].minor.Some? { assert Apart(volumes[0].minor, volumes[j].minor); }
        }
      }
    }
  }

  /** Numbering a definition turns every claim into that minor; any other volume
      gets one nobody in the cluster has reserved, inside the common range. */
  lemma NumberedClaims(s: State, rd: string)
    requires rd in s.definitions && Numbered(s, rd).Some? && ClaimsApart(s.definitions[rd])
    ensures var d, e := s.definitions[rd], Numbered(s, rd).value;
            Kept(d, e) && Complete(e.volumes) && ClaimsApart(e)
            && forall i | 0 <= i < |d.volumes| ::
                 if Claim(d, i).Some? then e.volumes[i].minor == Claim(d, i)
                 else HostRange(s, Hosts(s, rd)).Some?
                      && Free(TakenMinors(s, rd), HostRange(s, Hosts(s, rd)).value, e.volumes[i].minor.value)
  {
    NumberedKeeps(s, rd);
    var d := s.definitions[rd];
    if !Complete(d.volumes) {
      var b := BackfilledVolumes(d);
      var range := HostRange(s, Hosts(s, rd)).value;
      forall i, j | 0 <= i < j < |b| ensures Apart(b[i].minor, b[j].minor) {
        assert Apart(Claim(d, i), Claim(d, j));
      }
      FillFresh(b, TakenMinors(s, rd) + SetMinors(b), range);
    }
    var e := Numbered(s, rd).value;
    forall i, j | 0 <= i < j < |e.volumes| ensures Apart(Claim(e, i), Claim(e, j)) {
      assert d == e ==> Apart(Claim(d, i), Claim(d, j));
    }
  }

  lemma NumberingKeepsApart(s: State, rd: string)
    requires rd in s.definitions && Numbered(s, rd).Some? && MinorsApart(s) && AllDense(s)
    ensures var t := s.(definitions := s.definitions[rd := Numbered(s, rd).value]); MinorsApart(t) && AllDense(t)
  {
    NumberedClaims(s, rd);
    var d, e := s.definitions[rd], Numbered(s, rd).value;
    forall x | x in s.definitions && x != rd
      ensures ForeignApart(e, s.definitions[x]) && ForeignApart(s.definitions[x], e)
    {
      var f := s.definitions[x];
      assert ForeignApart(d, f);
      forall i, j | 0 <= i < |e.volumes| && 0 <= j < |f.volumes| ensures Apart(Claim(e, i), Claim(f, j)) {
        assert Apart(Claim(d, i), Claim(f, j));
        if Claim(f, j).Some? {
          ReservesItsClaims(f, j);
          var m := Claim(f, j).value;
          assert m in Reserved(s.definitions[x]);
          assert m in TakenMinors(s, rd);
        }
      }
    }
    assert Complete(e.volumes) && (e.volumes == [] || e.volumes[0].minor.Some?);
  }

  // Runs

  lemma PassKeepsMinorsApart(day0: Day0, s: State, name: string)
    requires MinorsApart(s) && AllDense(s) && Reconcile(day0, s, name).Done?
    ensures MinorsApart(Reconcile(day0, s, name).s) && AllDense(Reconcile(day0, s, name).s)
  {
    var t := Reconcile(day0, s, name).s;
    if name in s.replicas && s.replicas[name].rd in s.definitions {
      var rd := s.replicas[name].rd;
      PassDefinition(day0, s, name);
      if Numbered(s, rd).Some? {
        NumberingKeepsApart(s, rd);
      }
      SameVolumesKeepApart(s, t, rd);
    } else {
      PassFrame(day0, s, name);
      assert t.definitions == s.definitions;
    }
  }

  lemma TornKeepsMinorsApart(s: State, name: string, specWritten: bool)
    requires MinorsApart(s) && AllDense(s)
    ensures MinorsApart(TornPass(s, name, specWritten)) && AllDense(TornPass(s, name, specWritten))
  {
    if Allocates(s, name) && s.replicas[name].rd in s.definitions {
      NumberingKeepsApart(s, s.replicas[name].rd);
    }
  }

  // The definitions after a pass: untouched, latched, or numbered.
  lemma PassDefinition(day0: Day0, s: State, name: string)
    requires name in s.replicas && s.replicas[name].rd in s.definitions && Reconcile(day0, s, name).Done?
    ensures var rd, t := s.replicas[name].rd, Reconcile(day0, s, name).s;
            t.definitions == s.definitions
            || t.definitions == s.definitions[rd := s.definitions[rd].(initialized := true)]
            || (Numbered(s, rd).Some? && t.definitions == s.definitions[rd := Numbered(s, rd).value])
  {
    var me := s.replicas[name];
    var t := Reconcile(day0, s, name).s;
    if !me.deleting && !me.legacyFinalizer && me.rd != "" {
      if AllocatePass(s, name).value == s {
        assert t == Apply(day0, s, name);
      }
    }
  }

  lemma SameVolumesKeepApart(s: State, t: State, rd: string)
    requires MinorsApart(s) && AllDense(s) && rd in s.definitions
    requires t.definitions == s.definitions
             || t.definitions == s.definitions[rd := s.definitions[rd].(initialized := true)]
             || (Numbered(s, rd).Some? && t.definitions == s.definitions[rd := Numbered(s, rd).value])
    requires Numbered(s, rd).Some? ==>
               var u := s.(definitions := s.definitions[rd := Numbered(s, rd).value]); MinorsApart(u) && AllDense(u)
    ensures MinorsApart(t) && AllDense(t)
  {
    var d := s.definitions[rd];
    var e := d.(initialized := true);
    if t.definitions == s.definitions[rd := e] {
      assert forall i | 0 <= i < |d.volumes| :: Claim(e, i) == Claim(d, i);
      assert ClaimsApart(d) && ClaimsApart(e);
      forall x | x in s.definitions && x != rd
        ensures ForeignApart(e, s.definitions[x]) && ForeignApart(s.definitions[x], e)
      {
        assert ForeignApart(d, s.definitions[x]) && ForeignApart(s.definitions[x], d);
      }
      assert Dense(d) && Dense(e);
    }
  }

  // Editing one definition keeps the cluster apart exactly when its new claims are
  // apart from each other and from everybody else's.
  lemma EditExactly(s: State, rd: string, e: Definition)
    requires MinorsApart(s) && rd in s.definitions
    ensures MinorsApart(s.(definitions := s.definitions[rd := e]))
            <==> ClaimsApart(e) && forall x | x in s.definitions && x != rd :: ForeignApart(e, s.definitions[x])
  {
    var t := s.(definitions := s.definitions[rd := e]);
    if MinorsApart(t) {
      assert t.definitions[rd] == e;
      forall x | x in s.definitions && x != rd ensures ForeignApart(e, s.definitions[x]) {
        assert t.definitions[x] == s.definitions[x] && ForeignApart(t.definitions[rd], t.definitions[x]);
      }
    } else if forall x | x in s.definitions && x != rd :: ForeignApart(e, s.definitions[x]) {
      forall x | x in s.definitions && x != rd ensures ForeignApart(s.definitions[x], e) {
        assert ForeignApart(e, s.definitions[x]);
      }
    }
  }

  lemma AppendedClaims(d: Definition, number: int, sizeKib: int)
    ensures var e := WithVolume(d, number, sizeKib);
            Legacy(e) == Legacy(d)
            && (forall i | 0 <= i < |d.volumes| :: Claim(e, i) == Claim(d, i))
            && Claim(e, |d.volumes|) == if Legacy(d) then Some(d.baseMinor.value + number) else None
  {
    var e := WithVolume(d, number, sizeKib);
    if AnyMinorSet(d) {
      var i :| 0 <= i < |d.volumes| && d.volumes[i].minor.Some?;
      assert e.volumes[i].minor.Some?;
    }
  }

  lemma AppendedApart(s: State, rd: string, number: int, sizeKib: int)
    requires MinorsApart(s) && rd in s.definitions
    ensures var d, e := s.definitions[rd], WithVolume(s.definitions[rd], number, sizeKib);
            ClaimsApart(e) && (forall x | x in s.definitions && x != rd :: ForeignApart(e, s.definitions[x]))
            <==> (Legacy(d) ==> Unclaimed(s, d.baseMinor.value + number))
  {
    var d, e := s.definitions[rd], WithVolume(s.definitions[rd], number, sizeKib);
    var last := |d.volumes|;
    AppendedClaims(d, number, sizeKib);
    assert ClaimsApart(d);
    if ClaimsApart(e) && (forall x | x in s.definitions && x != rd :: ForeignApart(e, s.definitions[x])) && Legacy(d) {
      forall x, j | x in s.definitions && 0 <= j < |s.definitions[x].volumes|
        ensures Claim(s.definitions[x], j) != Some(d.baseMinor.value + number)
      {
        if x == rd {
          assert Apart(Claim(e, j), Claim(e, last));
        } else {
          assert ForeignApart(e, s.definitions[x]);
          assert Apart(Claim(e, last), Claim(s.definitions[x], j));
        }
      }
    }
    if Legacy(d) ==> Unclaimed(s, d.baseMinor.value + number) {
      forall i, j | 0 <= i < j < |e.volumes| ensures Apart(Claim(e, i), Claim(e, j)) {
        if j < last {
          assert Apart(Claim(d, i), Claim(d, j));
        }
      }
      forall x | x in s.definitions && x != rd ensures ForeignApart(e, s.definitions[x]) {
        assert ForeignApart(d, s.definitions[x]);
        forall i, j | 0 <= i < |e.volumes| && 0 <= j < |s.definitions[x].volumes|
          ensures Apart(Claim(e, i), Claim(s.definitions[x], j))
        {
          if i < last {
            assert Apart(Claim(d, i), Claim(s.definitions[x], j));
          }
        }
      }
    }
  }

  /** Appending to a definition that waits for its backfill keeps minors unique
      exactly when no volume anywhere claims base + number. */
  lemma AppendLegacyExactly(day0: Day0, s: State, rd: string, number: int, sizeKib: int)
    requires MinorsApart(s) && rd in s.definitions && Legacy(s.definitions[rd])
    ensures MinorsApart(Next(day0, s, AppendVolume(rd, number, sizeKib)))
            <==> Unclaimed(s, s.definitions[rd].baseMinor.value + number)
  {
    AppendedApart(s, rd, number, sizeKib);
    EditExactly(s, rd, WithVolume(s.definitions[rd], number, sizeKib));
  }

  // Index in the list before a removal.
  function Before(i: nat, index: nat): nat
  {
    if i < index then i else i + 1
  }

  lemma RemovedClaims(d: Definition, index: nat)
    requires index < |d.volumes|
    ensures var e := WithoutVolume(d, index);
            (Legacy(d) ==> Legacy(e))
            && forall i | 0 <= i < |e.volumes| ::
                 e.volumes[i] == d.volumes[Before(i, index)]
                 && Claim(e, i) == if Legacy(e) && !Legacy(d) then Some(e.baseMinor.value + e.volumes[i].number)
                                   else Claim(d, Before(i, index))
  {
    var e := WithoutVolume(d, index);
    if AnyMinorSet(e) {
      var i :| 0 <= i < |e.volumes| && e.volumes[i].minor.Some?;
      assert e.volumes[i] == d.volumes[Before(i, index)];
    }
    forall i | 0 <= i < |e.volumes| ensures e.volumes[i] == d.volumes[Before(i, index)] {
    }
  }

  lemma KeptClaimsApart(s: State, rd: string, e: Definition, index: nat)
    requires MinorsApart(s) && rd in s.definitions && |e.volumes| == |s.definitions[rd].volumes| - 1 && index <= |e.volumes|
    requires forall i | 0 <= i < |e.volumes| :: Claim(e, i) == Claim(s.definitions[rd], Before(i, index))
    ensures ClaimsApart(e) && forall x | x in s.definitions && x != rd :: ForeignApart(e, s.definitions[x])
  {
    var d := s.definitions[rd];
    assert ClaimsApart(d);
    forall i, j | 0 <= i < j < |e.volumes| ensures Apart(Claim(e, i), Claim(e, j)) {
      assert Apart(Claim(d, Before(i, index)), Claim(d, Before(j, index)));
    }
    forall x | x in s.definitions && x != rd ensures ForeignApart(e, s.definitions[x]) {
      assert ForeignApart(d, s.definitions[x]);
    }
  }

  lemma LegacyClaimsApart(s: State, rd: string, e: Definition)
    requires Legacy(e)
    requires forall i | 0 <= i < |e.volumes| :: Claim(e, i) == Some(e.baseMinor.value + e.volumes[i].number)
    ensures ClaimsApart(e) && (forall x | x in s.definitions && x != rd :: ForeignApart(e, s.definitions[x]))
            <==> NumbersFit(s, rd, e)
  {
    if ClaimsApart(e) && (forall x | x in s.definitions && x != rd :: ForeignApart(e, s.definitions[x])) {
      forall i, j | 0 <= i < j < |e.volumes| ensures e.volumes[i].number != e.volumes[j].number {
        assert Apart(Claim(e, i), Claim(e, j));
      }
      forall i, x, j | 0 <= i < |e.volumes| && x in s.definitions && x != rd && 0 <= j < |s.definitions[x].volumes|
        ensures Claim(s.definitions[x], j) != Some(e.baseMinor.value + e.volumes[i].number)
      {
        assert ForeignApart(e, s.definitions[x]);
        assert Apart(Claim(e, i), Claim(s.definitions[x], j));
      }
    }
  }

  /** Removing a volume keeps minors unique, except exactly when it was the last one
      set over a base and the base then gives two volumes one minor or one that
      another definition claims. */
  lemma RemoveExactly(day0: Day0, s: State, rd: string, index: nat)
    requires MinorsApart(s) && rd in s.definitions && index < |s.definitions[rd].volumes|
    ensures var d, e := s.definitions[rd], WithoutVolume(s.definitions[rd], index);
            MinorsApart(Next(day0, s, RemoveVolume(rd, index))) <==> (Legacy(e) && !Legacy(d) ==> NumbersFit(s, rd, e))
  {
    var d, e := s.definitions[rd], WithoutVolume(s.definitions[rd], index);
    RemovedClaims(d, index);
    EditExactly(s, rd, e);
    if Legacy(e) && !Legacy(d) {
      LegacyClaimsApart(s, rd, e);
    } else {
      KeptClaimsApart(s, rd, e, index);
    }
  }

  lemma AppendedDense(d: Definition, number: int, sizeKib: int)
    requires !Legacy(d)
    ensures Dense(WithVolume(d, number, sizeKib))
  {
    AppendedClaims(d, number, sizeKib);
  }

  lemma EditKeepsDense(s: State, rd: string, e: Definition)
    requires AllDense(s) && Dense(e)
    ensures AllDense(s.(definitions := s.definitions[rd := e]))
  {
  }

  lemma AppendKeepsMinorsApart(day0: Day0, s: State, rd: string, number: int, sizeKib: int)
    requires MinorsApart(s) && AllDense(s) && MinorsFit(s, AppendVolume(rd, number, sizeKib)) && rd in s.definitions
    ensures var t := Next(day0, s, AppendVolume(rd, number, sizeKib)); MinorsApart(t) && AllDense(t)
  {
    AppendedApart(s, rd, number, sizeKib);
    EditExactly(s, rd, WithVolume(s.definitions[rd], number, sizeKib));
    if !Legacy(s.definitions[rd]) {
      AppendedDense(s.definitions[rd], number, sizeKib);
    }
    EditKeepsDense(s, rd, WithVolume(s.definitions[rd], number, sizeKib));
  }

  lemma StepKeepsMinorsApart(day0: Day0, s: State, step: Step)
    requires MinorsApart(s) && AllDense(s) && MinorsFit(s, step)
    ensures MinorsApart(Next(day0, s, step)) && AllDense(Next(day0, s, step))
  {
    match step
    case Pass(name) =>
      if Reconcile(day0, s, name).Done? {
        PassKeepsMinorsApart(day0, s, name);
      }
    case Torn(name, specWritten) => TornKeepsMinorsApart(s, name, specWritten);
    case CreateDefinition(rd, d) =>
      if rd !in s.definitions {
        forall x | x in s.definitions ensures ForeignApart(s.definitions[x], d) {
          assert ForeignApart(d, s.definitions[x]);
        }
      }
    case AppendVolume(rd, number, sizeKib) =>
      if rd in s.definitions {
        AppendKeepsMinorsApart(day0, s, rd, number, sizeKib);
      }
    case RemoveVolume(rd, index) =>
      if rd in s.definitions && index < |s.definitions[rd].volumes| {
        RemoveExactly(day0, s, rd, index);
        EditKeepsDense(s, rd, WithoutVolume(s.definitions[rd], index));
      }
    case _ =>
  }

  /** Over every interleaving no two volumes of the cluster hold one minor. */
  lemma {:induction false} MinorsStayApart(day0: Day0, s: State, steps: seq<Step>)
    requires MinorsApart(s) && AllDense(s) && AllFit(day0, s, steps, MinorsFit)
    ensures MinorsApart(Run(day0, s, steps)) && AllDense(Run(day0, s, steps))
    decreases |steps|
  {
    if steps != [] {
      StepKeepsMinorsApart(day0, s, steps[0]);
      MinorsStayApart(day0, Next(day0, s, steps[0]), steps[1..]);
    }
  }

  // The volume list only grew and its minors only got set.
  predicate Extends(before: seq<VolumeDefinition>, after: seq<VolumeDefinition>)
  {
    |before| <= |after| && Numbers(before, after[..|before|])
  }

  lemma FrameExtends(s: State, changed: string, t: State, rd: string)
    requires rd in s.definitions && Framed(s, changed, t)
    ensures rd in t.definitions && Extends(s.definitions[rd].volumes, t.definitions[rd].volumes)
  {
    var b := t.definitions[rd].volumes;
    assert b[..|b|] == b;
  }

  lemma EnvironmentExtends(day0: Day0, s: State, step: Step, rd: string)
    requires rd in s.definitions && step != RemoveDefinition(rd) && !(step.RemoveVolume? && step.rd == rd)
             && !step.Pass? && !step.Torn?
    ensures rd in Next(day0, s, step).definitions
    ensures Extends(s.definitions[rd].volumes, Next(day0, s, step).definitions[rd].volumes)
  {
    var a := s.definitions[rd].volumes;
    assert a[..|a|] == a;
    if step.AppendVolume? && step.rd == rd {
      var v := VolumeDefinition(step.number, step.sizeKib, None);
      assert (a + [v])[..|a|] == a;
      assert Next(day0, s, step).definitions[rd].volumes == a + [v];
    } else {
      assert Next(day0, s, step).definitions[rd] == s.definitions[rd];
    }
  }

  lemma StepExtends(day0: Day0, s: State, step: Step, rd: string)
    requires rd in s.definitions && step != RemoveDefinition(rd) && !(step.RemoveVolume? && step.rd == rd)
    ensures rd in Next(day0, s, step).definitions
    ensures Extends(s.definitions[rd].volumes, Next(day0, s, step).definitions[rd].volumes)
  {
    if step.Pass? {
      if Reconcile(day0, s, step.name).Done? {
        PassFrame(day0, s, step.name);
        FrameExtends(s, step.name, Reconcile(day0, s, step.name).s, rd);
      }
    } else if step.Torn? {
      TornFrame(s, step.name, step.specWritten);
      FrameExtends(s, step.name, TornPass(s, step.name, step.specWritten), rd);
    } else {
      EnvironmentExtends(day0, s, step, rd);
    }
  }

  /** No pass drops a volume or changes a set minor: while the operator removes
      nothing, the volume list only grows and its minors only get set. */
  lemma {:induction false} MinorsSettleOnce(day0: Day0, s: State, steps: seq<Step>, rd: string)
    requires rd in s.definitions && RemoveDefinition(rd) !in steps
    requires forall i | 0 <= i < |steps| :: !(steps[i].RemoveVolume? && steps[i].rd == rd)
    ensures rd in Run(day0, s, steps).definitions
    ensures Extends(s.definitions[rd].volumes, Run(day0, s, steps).definitions[rd].volumes)
    decreases |steps|
  {
    if steps != [] {
      var t := Next(day0, s, steps[0]);
      assert steps[0] in steps;
      StepExtends(day0, s, steps[0], rd);
      MinorsSettleOnce(day0, t, steps[1..], rd);
    }
  }

  // Ranges

  predicate Within(r: Range, m: int)
  {
    r.low <= m <= r.high
  }

  /** The common range is exactly the intersection: it fails when some host's
      range does not parse, and holds the minors that every host can serve. */
  lemma {:induction false} HostRangeExact(s: State, hosts: set<string>)
    requires hosts != {}
    ensures HostRange(s, hosts).None? <==> exists h :: h in hosts && MinorRange(s, h).None?
    ensures HostRange(s, hosts).Some? ==>
              forall m :: Within(HostRange(s, hosts).value, m) <==> forall h | h in hosts :: Within(MinorRange(s, h).value, m)
    decreases hosts
  {
    var first := Least(hosts);
    if hosts == {first} {
      assert HostRange(s, hosts) == MinorRange(s, first);
      if MinorRange(s, first).Some? {
        forall m ensures Within(HostRange(s, hosts).value, m) <==> forall h | h in hosts :: Within(MinorRange(s, h).value, m) {
          assert first in hosts;
        }
      } else {
        assert first in hosts;
      }
    } else {
      var rest := hosts - {first};
      assert rest != {} && hosts == rest + {first};
      HostRangeExact(s, rest);
      if HostRange(s, hosts).Some? {
        forall m ensures Within(HostRange(s, hosts).value, m) <==> forall h | h in hosts :: Within(MinorRange(s, h).value, m) {
          assert Within(HostRange(s, hosts).value, m)
                 <==> Within(HostRange(s, rest).value, m) && Within(MinorRange(s, first).value, m);
        }
      }
    }
  }

  /** A fresh minor lies in the range of every node hosting the definition. */
  lemma FreshMinorFitsHosts(s: State, rd: string, i: nat)
    requires rd in s.definitions && Numbered(s, rd).Some? && ClaimsApart(s.definitions[rd]) && Hosts(s, rd) != {}
    requires i < |s.definitions[rd].volumes| && Claim(s.definitions[rd], i).None?
    ensures var e := Numbered(s, rd).value;
            i < |e.volumes| && e.volumes[i].minor.Some?
            && forall h | h in Hosts(s, rd) ::
                 MinorRange(s, h).Some? && Within(MinorRange(s, h).value, e.volumes[i].minor.value)
  {
    NumberedClaims(s, rd);
    HostRangeExact(s, Hosts(s, rd));
    var m := Numbered(s, rd).value.volumes[i].minor.value;
    assert Within(HostRange(s, Hosts(s, rd)).value, m);
  }

  // Where uniqueness ends

  // Minors a definition will be given that it has not reserved.
  function Unreserved(d: Definition): set<int>
  {
    set i | 0 <= i < |d.volumes| && Claim(d, i).Some? && Claim(d, i).value !in Reserved(d) :: Claim(d, i).value
  }

  /** A definition reserves all it will be given exactly when its legacy volume
      numbers are 0..n-1. */
  lemma ReservationCoversExactly(d: Definition)
    ensures Unreserved(d) == {} <==> Dense(d)
  {
    if Unreserved(d) == {} && Legacy(d) {
      forall i | 0 <= i < |d.volumes| ensures 0 <= d.volumes[i].number < |d.volumes| {
        assert Claim(d, i).value !in Unreserved(d);
        assert Claim(d, i).value in Reserved(d);
      }
    }
  }

  // Only a fresh minor can hit another definition, and only what that one had not
  // reserved.
  lemma FreshMinorHits(s: State, rd: string, x: string)
    requires rd in s.definitions && x in s.definitions && x != rd
    requires Numbered(s, rd).Some? && ClaimsApart(s.definitions[rd])
    requires ForeignApart(s.definitions[rd], s.definitions[x])
    ensures var d, e, f := s.definitions[rd], Numbered(s, rd).value, s.definitions[x];
            |e.volumes| == |d.volumes| && Complete(e.volumes)
            && (ForeignApart(e, f)
                <==> forall i | 0 <= i < |d.volumes| && Claim(d, i).None? :: e.volumes[i].minor.value !in Unreserved(f))
  {
    var d, e, f := s.definitions[rd], Numbered(s, rd).value, s.definitions[x];
    NumberedClaims(s, rd);
    forall i, j | 0 <= i < |d.volumes| && 0 <= j < |f.volumes| && Claim(f, j).Some?
      ensures Claim(e, i) == e.volumes[i].minor
      ensures !Apart(Claim(e, i), Claim(f, j)) ==> Claim(d, i).None? && Claim(f, j).value in Unreserved(f)
    {
      assert Claim(d, i).Some? ==> Apart(Claim(d, i), Claim(f, j));
      var m := Claim(f, j).value;
      assert m in Reserved(s.definitions[x]) ==> m in TakenMinors(s, rd);
    }
    if ForeignApart(e, f) {
      forall i | 0 <= i < |d.volumes| && Claim(d, i).None? ensures e.volumes[i].minor.value !in Unreserved(f) {
        forall j | 0 <= j < |f.volumes| && Claim(f, j).Some? ensures Claim(f, j).value != e.volumes[i].minor.value {
          assert Apart(Claim(e, i), Claim(f, j));
        }
      }
    }
  }

  lemma {:induction false} GivenAt(volumes: seq<VolumeDefinition>, filled: seq<VolumeDefinition>, u: int)
    requires |volumes| == |filled|
    ensures u in Given(volumes, filled)
            <==> exists i :: 0 <= i < |volumes| && volumes[i].minor.None? && filled[i].minor == Some(u)
    decreases |volumes|
  {
    if volumes != [] {
      GivenAt(volumes[1..], filled[1..], u);
      if exists i :: 0 <= i < |volumes| && volumes[i].minor.None? && filled[i].minor == Some(u) {
        var i :| 0 <= i < |volumes| && volumes[i].minor.None? && filled[i].minor == Some(u);
        if i > 0 {
          assert volumes[1..][i - 1] == volumes[i] && filled[1..][i - 1] == filled[i];
        }
      }
      if u in Given(volumes[1..], filled[1..]) {
        var i :| 0 <= i < |volumes[1..]| && volumes[1..][i].minor.None? && filled[1..][i].minor == Some(u);
        assert volumes[i + 1].minor.None? && filled[i + 1].minor == Some(u);
      }
    }
  }

  // The minors a numbering gives out are the lowest free ones of the common range.
  lemma FreshMinorsAre(s: State, rd: string, u: int)
    requires rd in s.definitions && Numbered(s, rd).Some? && !Complete(s.definitions[rd].volumes)
    ensures var d, e := s.definitions[rd], Numbered(s, rd).value;
            HostRange(s, Hosts(s, rd)).Some? && |e.volumes| == |d.volumes|
            && ((exists i :: 0 <= i < |d.volumes| && Claim(d, i).None? && e.volumes[i].minor == Some(u))
                <==> var range := HostRange(s, Hosts(s, rd)).value;
                     u in FreeValues(Spoken(s, rd), range)
                     && |FreeBelow(Spoken(s, rd), range, u)| < UnsetMinors(BackfilledVolumes(d)))
  {
    var d, e := s.definitions[rd], Numbered(s, rd).value;
    var b := BackfilledVolumes(d);
    FillExactly(b, Spoken(s, rd), HostRange(s, Hosts(s, rd)).value, u);
    GivenAt(b, e.volumes, u);
    assert forall i | 0 <= i < |d.volumes| :: Claim(d, i).None? <==> b[i].minor.None?;
  }

  // Every free minor of the common range that another definition will be given but
  // has not reserved has as many free ones below it as there are volumes to number.
  predicate LeavesUnreserved(s: State, rd: string, x: string)
    requires rd in s.definitions && x in s.definitions && HostRange(s, Hosts(s, rd)).Some?
  {
    var range := HostRange(s, Hosts(s, rd)).value;
    forall u | u in Unreserved(s.definitions[x]) && u in FreeValues(Spoken(s, rd), range) ::
      |FreeBelow(Spoken(s, rd), range, u)| >= UnsetMinors(BackfilledVolumes(s.definitions[rd]))
  }

  lemma GivenLeaves(s: State, rd: string, x: string)
    requires rd in s.definitions && x in s.definitions && x != rd && !Complete(s.definitions[rd].volumes)
    requires Numbered(s, rd).Some? && ClaimsApart(s.definitions[rd]) && ForeignApart(s.definitions[rd], s.definitions[x])
    ensures HostRange(s, Hosts(s, rd)).Some?
    ensures ForeignApart(Numbered(s, rd).value, s.definitions[x]) <==> LeavesUnreserved(s, rd, x)
  {
    var d, e, f := s.definitions[rd], Numbered(s, rd).value, s.definitions[x];
    FreshMinorHits(s, rd, x);
    FreshMinorsAre(s, rd, 0);
    var range := HostRange(s, Hosts(s, rd)).value;
    forall u ensures (exists i :: 0 <= i < |d.volumes| && Claim(d, i).None? && e.volumes[i].minor == Some(u))
                     <==> u in FreeValues(Spoken(s, rd), range)
                          && |FreeBelow(Spoken(s, rd), range, u)| < UnsetMinors(BackfilledVolumes(d)) {
      FreshMinorsAre(s, rd, u);
    }
    if !(forall i | 0 <= i < |d.volumes| && Claim(d, i).None? :: e.volumes[i].minor.value !in Unreserved(f)) {
      var i :| 0 <= i < |d.volumes| && Claim(d, i).None? && e.volumes[i].minor.value in Unreserved(f);
      var u := e.volumes[i].minor.value;
      assert e.volumes[i].minor == Some(u);
    }
  }

  /** Numbering a definition keeps clear of another one exactly when it is numbered
      already, or every free minor of the common range that the other will be given
      but has not reserved has as many free ones below it as there are volumes to
      number. */
  lemma FreshMinorSafeExactly(s: State, rd: string, x: string)
    requires rd in s.definitions && x in s.definitions && x != rd
    requires Numbered(s, rd).Some? && ClaimsApart(s.definitions[rd]) && ForeignApart(s.definitions[rd], s.definitions[x])
    ensures ForeignApart(Numbered(s, rd).value, s.definitions[x])
            <==> Complete(s.definitions[rd].volumes) || (HostRange(s, Hosts(s, rd)).Some? && LeavesUnreserved(s, rd, x))
  {
    if !Complete(s.definitions[rd].volumes) {
      GivenLeaves(s, rd, x);
    }
  }

  function OneVolume(number: int, base: Option<int>): Definition
  {
    Definition([VolumeDefinition(number, 1, None)], base, false, None)
  }

  // A state with one replica "a" of the fresh definition "y" and one, "b", of
  // the definition "x" that still waits for its backfill.
  function Upgrading(number: int): State
  {
    State(map["a" := Blank("y", "n"), "b" := Blank("x", "n")],
          map["x" := OneVolume(number, Some(MINOR_MIN)), "y" := OneVolume(0, None)], map[], Unset, Unset, [])
  }

  // The same state after "y" was numbered: it took the minor above the base.
  predicate Upgraded(t: State, x: Definition)
  {
    && t.definitions.Keys == {"x", "y"} && t.definitions["x"] == x
    && t.definitions["y"].volumes == [VolumeDefinition(0, 1, Some(MINOR_MIN + 1))]
    && t.replicas.Keys == {"a", "b"} && t.replicas["b"] == Blank("x", "n")
    && t.replicas["a"].rd == "y" && t.replicas["a"].specPort == Some(PORT_MIN)
    && t.nodes == map[] && t.portText == Unset && t.minorText == Unset
  }

  lemma UpgradingNumbered(number: int)
    ensures var s := Upgrading(number);
            Numbered(s, "y") == Some(s.definitions["y"].(volumes := [VolumeDefinition(0, 1, Some(MINOR_MIN + 1))]))
  {
    var s := Upgrading(number);
    var y := s.definitions["y"];
    var range := Range(MINOR_MIN, MINOR_MAX);
    assert s.replicas["a"].rd == "y" && s.replicas["a"].node == "n";
    assert Hosts(s, "y") == {"n"};
    assert HostRange(s, {"n"}) == Some(range) by { assert Least({"n"}) == "n"; }
    assert Reserved(s.definitions["x"]) == {MINOR_MIN} by {
      assert Block(MINOR_MIN, 1) == {MINOR_MIN};
    }
    assert TakenMinors(s, "y") == {MINOR_MIN};
    assert SetMinors(y.volumes) == {} && BackfilledVolumes(y) == y.volumes;
    LowestFreeUnique({MINOR_MIN}, range, MINOR_MIN + 1);
    assert {MINOR_MIN} + {} == {MINOR_MIN};
    assert y.volumes[1..] == [];
    assert FillMinors([], {MINOR_MIN} + {MINOR_MIN + 1}, range) == Some([]);
    var filled := [VolumeDefinition(0, 1, Some(MINOR_MIN + 1))];
    assert filled + [] == filled;
    assert FillMinors(y.volumes, {MINOR_MIN}, range) == Some(filled);
    assert y.volumes[0].minor.None? && !Complete(y.volumes);
  }

  lemma UpgradingIdentified(number: int)
    ensures var s := Upgrading(number);
            Identify(s, "a") == Some(Blank("y", "n").(specId := Some(0), specPort := Some(PORT_MIN), skip := Some(true)))
  {
    var s := Upgrading(number);
    assert PortsOnNode(s, "n", "a") == {} && Occupied(s, "a") == {};
    LowestFreeUnique({}, Range(0, MAX_PEERS - 1), 0);
    LowestFreeUnique({}, Range(PORT_MIN, PORT_MAX), PORT_MIN);
  }

  lemma UpgradingPassA(day0: Day0, number: int)
    ensures Upgraded(Next(day0, Upgrading(number), Pass("a")), OneVolume(number, Some(MINOR_MIN)))
  {
    var s := Upgrading(number);
    UpgradingIdentified(number);
    UpgradingNumbered(number);
    assert AllocatePass(s, "a").value.replicas["a"].specPort == Some(PORT_MIN);
  }

  // A pass over a replica of a definition whose base minor waits for backfill.
  lemma BackfillPass(day0: Day0, s: State, name: string, rd: string)
    requires name in s.replicas && rd in s.definitions && s.replicas[name] == Blank(rd, "n") && rd != ""
    requires s.nodes == map[] && s.portText == Unset && s.minorText == Unset
    requires Legacy(s.definitions[rd]) && s.definitions[rd].volumes != []
    requires PortsOnNode(s, "n", name) <= {PORT_MIN} && Occupied(s, name) == {}
    ensures var t := Next(day0, s, Pass(name));
            t.definitions == s.definitions[rd := s.definitions[rd].(volumes := BackfilledVolumes(s.definitions[rd]))]
  {
    var d := s.definitions[rd];
    var b := BackfilledVolumes(d);
    var range := Range(PORT_MIN, PORT_MAX);
    var taken := PortsOnNode(s, "n", name);
    assert Free(taken, range, PORT_MIN + 1);
    assert PickPort(s, name).Some?;
    assert forall h | h in Hosts(s, rd) :: MinorRange(s, h).Some?;
    if Hosts(s, rd) != {} {
      HostRangeExact(s, Hosts(s, rd));
    }
    FillComplete(b, TakenMinors(s, rd) + SetMinors(b), HostRange(s, Hosts(s, rd)).value);
    assert d.volumes[0].minor.None?;
    assert b[0].minor.Some?;
    assert Numbered(s, rd) == Some(d.(volumes := b));
  }

  lemma FillComplete(volumes: seq<VolumeDefinition>, taken: set<int>, range: Range)
    requires Complete(volumes)
    ensures FillMinors(volumes, taken, range) == Some(volumes)
  {
    if volumes != [] {
      assert volumes == [volumes[0]] + volumes[1..];
    }
  }

  lemma BackfillHitsTaken(day0: Day0, t: State, x: Definition, i: nat)
    requires Upgraded(t, x) && Legacy(x) && x.baseMinor == Some(MINOR_MIN) && i < |x.volumes| && x.volumes[i].number == 1
    ensures !MinorsApart(Next(day0, t, Pass("b")))
  {
    assert PortsOnNode(t, "n", "b") <= {PORT_MIN};
    assert Occupied(t, "b") == {};
    BackfillPass(day0, t, "b", "x");
    var u := Next(day0, t, Pass("b"));
    assert u.definitions["x"].volumes[i].minor == Some(MINOR_MIN + 1);
    assert Claim(u.definitions["x"], i) == Claim(u.definitions["y"], 0);
    assert !ForeignApart(u.definitions["x"], u.definitions["y"]);
  }

  lemma RunTwo(day0: Day0, s: State, a: Step, b: Step)
    ensures Run(day0, s, [a, b]) == Next(day0, Next(day0, s, a), b)
  {
    assert [a, b][1..] == [b] && [b][1..] == [];
    assert Run(day0, Next(day0, s, a), [b]) == Run(day0, Next(day0, Next(day0, s, a), b), []);
  }

  lemma UpgradingApart(number: int)
    requires number >= 0
    ensures MinorsApart(Upgrading(number)) && (AllDense(Upgrading(number)) <==> number == 0)
  {
    var s := Upgrading(number);
    assert Legacy(s.definitions["x"]) && !Legacy(s.definitions["y"]);
    assert s.definitions["x"].volumes[0].number == number;
    assert Dense(s.definitions["x"]) <==> number == 0;
  }

  /** With a gap in the volume numbers the reservation misses the minor that the
      backfill will write, and another definition takes it first. */
  lemma SparseNumbersCollide(day0: Day0)
    ensures MinorsApart(Upgrading(1)) && !AllDense(Upgrading(1))
    ensures !MinorsApart(Run(day0, Upgrading(1), [Pass("a"), Pass("b")]))
  {
    UpgradingApart(1);
    UpgradingPassA(day0, 1);
    BackfillHitsTaken(day0, Next(day0, Upgrading(1), Pass("a")), OneVolume(1, Some(MINOR_MIN)), 0);
    RunTwo(day0, Upgrading(1), Pass("a"), Pass("b"));
  }

  lemma AppendToUpgraded(day0: Day0, t: State)
    requires Upgraded(t, OneVolume(0, Some(MINOR_MIN)))
    ensures var x := OneVolume(0, Some(MINOR_MIN)).(volumes := [VolumeDefinition(0, 1, None), VolumeDefinition(1, 1, None)]);
            Upgraded(Next(day0, t, AppendVolume("x", 1, 1)), x) && Legacy(x)
  {
    assert [VolumeDefinition(0, 1, None)] + [VolumeDefinition(1, 1, None)] == [VolumeDefinition(0, 1, None), VolumeDefinition(1, 1, None)];
  }

  /** Volume numbers 0..n-1 are not enough over a run: a volume appended before
      the backfill is given a minor nothing had reserved. */
  lemma AppendBeforeBackfillCollides(day0: Day0)
    ensures MinorsApart(Upgrading(0)) && AllDense(Upgrading(0))
    ensures !MinorsApart(Next(day0, Run(day0, Upgrading(0), [Pass("a"), AppendVolume("x", 1, 1)]), Pass("b")))
  {
    UpgradingApart(0);
    UpgradingPassA(day0, 0);
    var t := Next(day0, Upgrading(0), Pass("a"));
    AppendToUpgraded(day0, t);
    var u := Next(day0, t, AppendVolume("x", 1, 1));
    BackfillHitsTaken(day0, u, u.definitions["x"], 1);
    RunTwo(day0, Upgrading(0), Pass("a"), AppendVolume("x", 1, 1));
  }

  // A definition whose first volume holds its base, beside one that holds the next
  // minor.
  function OneLeft(): State
  {
    State(map[],
          map["x" := Definition([VolumeDefinition(0, 1, Some(MINOR_MIN)), VolumeDefinition(1, 1, None)], Some(MINOR_MIN), false, None),
              "y" := Definition([VolumeDefinition(0, 1, Some(MINOR_MIN + 1))], None, false, None)],
          map[], Unset, Unset, [])
  }

  lemma TwoApart(s: State, x: string, y: string)
    requires x != y && s.definitions.Keys == {x, y}
    requires ClaimsApart(s.definitions[x]) && ClaimsApart(s.definitions[y]) && ForeignApart(s.definitions[x], s.definitions[y])
    ensures MinorsApart(s)
  {
    assert ForeignApart(s.definitions[y], s.definitions[x]);
  }

  lemma OneLeftClaims(x: Definition, y: Definition)
    requires x == OneLeft().definitions["x"] && y == OneLeft().definitions["y"]
    ensures !Legacy(x) && !Legacy(y)
    ensures Claim(x, 0) == Some(MINOR_MIN) && Claim(x, 1) == None && Claim(y, 0) == Some(MINOR_MIN + 1)
  {
    assert x.volumes[0].minor.Some? && y.volumes[0].minor.Some?;
  }

  lemma OneLeftApart()
    ensures MinorsApart(OneLeft()) && AllDense(OneLeft())
    ensures !Legacy(OneLeft().definitions["x"]) && Claim(OneLeft().definitions["y"], 0) == Some(MINOR_MIN + 1)
  {
    OneLeftClaims(OneLeft().definitions["x"], OneLeft().definitions["y"]);
    TwoApart(OneLeft(), "x", "y");
  }

  lemma PromisedTwice(s: State, rd: string, e: Definition, y: string)
    requires e.baseMinor.Some? && |e.volumes| > 0 && y in s.definitions && y != rd && |s.definitions[y].volumes| > 0
    requires Claim(s.definitions[y], 0) == Some(e.baseMinor.value + e.volumes[0].number)
    ensures !NumbersFit(s, rd, e)
  {
  }

  /** A definition that loses its last set minor waits for its backfill again, and is
      then promised a minor another one holds. */
  lemma RemovedLastMinorCollides(day0: Day0)
    ensures MinorsApart(OneLeft()) && AllDense(OneLeft()) && !MinorsApart(Next(day0, OneLeft(), RemoveVolume("x", 0)))
  {
    OneLeftApart();
    var e := WithoutVolume(OneLeft().definitions["x"], 0);
    assert e.volumes == [VolumeDefinition(1, 1, None)];
    PromisedTwice(OneLeft(), "x", e, "y");
    RemoveExactly(day0, OneLeft(), "x", 0);
  }
}
