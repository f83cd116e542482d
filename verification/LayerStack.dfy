/**
 The layer stack of a definition: what the passes and the operator name it, and
 what the data on disk really lies under.
 */
module LayerStack {
  import opened Names

  const DEFAULT: seq<string> := ["DRBD", "STORAGE"]

  // `disk` is the stack the storage was really built with, which nothing in the
  // controller can read; `annotation` is "" when absent.
  datatype State = State(
    stack: seq<string>, inGroup: bool, group: Option<seq<string>>, annotation: string,
    initialized: bool, metadataCreated: bool, hasDevice: bool, disk: Option<seq<string>>)

  predicate InStack(stack: seq<string>, layer: string)
  {
    exists i | 0 <= i < |stack| :: EqualFold(stack[i], layer)
  }

  predicate Lacks(stack: seq<string>, group: seq<string>)
  {
    exists i | 0 <= i < |group| :: !InStack(stack, group[i])
  }

  function Join(layers: seq<string>): string
  {
    if layers == [] then ""
    else if |layers| == 1 then layers[0]
    else layers[0] + "," + Join(layers[1..])
  }

  predicate HoldsData(s: State)
  {
    s.initialized || s.metadataCreated || s.hasDevice
  }

  // The group stack a definition falls short of, or "".
  function Shortfall(s: State): string
  {
    if s.inGroup && s.group.Some? && Lacks(s.stack, s.group.value) then Join(s.group.value) else ""
  }

  function Pin(s: State): State
  {
    if s.stack != [] then s.(annotation := Shortfall(s))
    else if !s.inGroup || s.group.None? || s.group.value == [] then s
    else
      var pinned := s.(stack := if HoldsData(s) then DEFAULT else s.group.value);
      if Lacks(pinned.stack, s.group.value) then pinned.(annotation := Join(s.group.value)) else pinned
  }

  // The stack the satellite builds with.
  function Effective(s: State): seq<string>
  {
    if s.stack == [] then DEFAULT else s.stack
  }

  datatype Step =
    | PinPass
    | EditGroup(group: Option<seq<string>>)
    | Reparent(inGroup: bool, group: Option<seq<string>>)
    | ModifyStack(stack: seq<string>)
    | Build
    | Latch
    | Report(metadataCreated: bool, hasDevice: bool)

  function Next(s: State, step: Step): State
  {
    match step
    case PinPass => Pin(s)
    case EditGroup(group) => s.(group := group)
    case Reparent(inGroup, group) => s.(inGroup := inGroup, group := group)
    case ModifyStack(stack) => if stack == [] then s else s.(stack := stack)
    case Build => if s.disk.Some? then s else s.(disk := Some(Effective(s)), hasDevice := true)
    case Latch => s.(initialized := true)
    case Report(metadataCreated, hasDevice) => s.(metadataCreated := metadataCreated, hasDevice := hasDevice)
  }

  function Run(s: State, steps: seq<Step>): State
    decreases |steps|
  {
    if steps == [] then s else Run(Next(s, steps[0]), steps[1..])
  }

  // Data on disk is always visible to the controller.
  predicate Visible(s: State)
  {
    s.disk.Some? ==> s.initialized || s.metadataCreated || s.hasDevice
  }

  /** Whatever is on disk lies under the stack the definition names. */
  predicate Faithful(s: State)
  {
    s.disk.Some? ==> s.disk.value == Effective(s)
  }

  // A pass that pins a group's own stack over a disk it cannot see.
  predicate BlindPin(s: State)
  {
    && s.stack == [] && s.inGroup && s.group.Some? && s.group.value != [] && s.group.value != DEFAULT
    && s.disk.Some? && !s.initialized && !s.metadataCreated && !s.hasDevice
  }

  // A step that names another stack than the data lies under.
  predicate Breaks(s: State, step: Step)
  {
    match step
    case PinPass => BlindPin(s)
    case ModifyStack(stack) => stack != [] && s.disk.Some? && s.disk.value != stack
    case _ => false
  }

  // An operator who names the stack the data lies under.
  predicate Repairs(s: State, step: Step)
  {
    step.ModifyStack? && step.stack != [] && s.disk == Some(step.stack)
  }

  // Data written while no stack was named lies under the default.
  predicate UnnamedDefault(s: State)
  {
    s.stack == [] && s.disk.Some? ==> s.disk.value == DEFAULT
  }

  /** What one step does: afterwards the two are in step exactly when it repairs them,
      or they were and it breaks nothing. A stack the operator names is right exactly
      when nothing is on disk yet or it is the one on disk. */
  lemma StepFaithfulExactly(s: State, step: Step)
    requires UnnamedDefault(s)
    ensures UnnamedDefault(Next(s, step))
    ensures Faithful(Next(s, step)) <==> Repairs(s, step) || (Faithful(s) && !Breaks(s, step))
    ensures step.ModifyStack? && step.stack != [] ==>
              (Faithful(Next(s, step)) <==> s.disk.None? || s.disk.value == step.stack)
  {
    assert DEFAULT != [];
  }

  lemma {:induction false} RunSnoc(s: State, steps: seq<Step>, last: Step)
    ensures Run(s, steps + [last]) == Next(Run(s, steps), last)
    decreases |steps|
  {
    var all := steps + [last];
    if steps == [] {
      assert all[1..] == [];
    } else {
      assert all[1..] == steps[1..] + [last];
      RunSnoc(Next(s, steps[0]), steps[1..], last);
    }
  }

  // The state before the i-th step of a run.
  function At(s: State, steps: seq<Step>, i: nat): State
    requires i <= |steps|
  {
    Run(s, steps[..i])
  }

  // Every break of the run is repaired later in it.
  predicate Mended(s: State, steps: seq<Step>)
  {
    forall i | 0 <= i < |steps| && Breaks(At(s, steps, i), steps[i]) ::
      exists j | i < j < |steps| :: Repairs(At(s, steps, j), steps[j])
  }

  lemma MendedSnoc(s: State, steps: seq<Step>, last: Step)
    ensures Mended(s, steps + [last])
            <==> Repairs(Run(s, steps), last) || (Mended(s, steps) && !Breaks(Run(s, steps), last))
  {
    var all, n := steps + [last], |steps|;
    assert all[..n] == steps && all[n] == last;
    forall i | 0 <= i < n ensures At(s, all, i) == At(s, steps, i) && all[i] == steps[i] {
      assert all[..i] == steps[..i];
    }
    assert At(s, all, n) == Run(s, steps);
    if Mended(s, all) && !Repairs(Run(s, steps), last) {
      assert !Breaks(At(s, all, n), all[n]);
      forall i | 0 <= i < n && Breaks(At(s, steps, i), steps[i])
        ensures exists j | i < j < n :: Repairs(At(s, steps, j), steps[j])
      {
        assert Breaks(At(s, all, i), all[i]);
        var j :| i < j < |all| && Repairs(At(s, all, j), all[j]);
        assert j < n;
      }
    }
    if Repairs(Run(s, steps), last) {
      assert Repairs(At(s, all, n), all[n]);
      assert !Breaks(At(s, all, n), all[n]);
    } else if Mended(s, steps) && !Breaks(Run(s, steps), last) {
      forall i | 0 <= i < |all| && Breaks(At(s, all, i), all[i])
        ensures exists j | i < j < |all| :: Repairs(At(s, all, j), all[j])
      {
        assert i < n;
        var j :| i < j < n && Repairs(At(s, steps, j), steps[j]);
        assert Repairs(At(s, all, j), all[j]);
      }
    }
  }

  /** Over every run of group edits, re-parenting, pins, stack edits, builds and
      reports the data ends under the stack the definition names exactly when every
      blind pin and every edit to another stack than the one on disk was followed by
      an edit back to it. */
  lemma {:induction false} RunFaithfulExactly(s: State, steps: seq<Step>)
    requires Faithful(s)
    ensures Faithful(Run(s, steps)) <==> Mended(s, steps)
    ensures UnnamedDefault(Run(s, steps))
    decreases |steps|
  {
    if steps != [] {
      var n := |steps| - 1;
      var init, last := steps[..n], steps[n];
      assert steps == init + [last];
      RunFaithfulExactly(s, init);
      RunSnoc(s, init, last);
      MendedSnoc(s, init, last);
      StepFaithfulExactly(Run(s, init), last);
    }
  }

  // Data on disk stays visible, and the operator names no stack over data of another.
  predicate Guarded(s: State, steps: seq<Step>)
    decreases |steps|
  {
    && Visible(s)
    && (steps == []
        || ((steps[0].ModifyStack? ==> s.disk.None? || steps[0].stack in [[], s.disk.value])
            && Guarded(Next(s, steps[0]), steps[1..])))
  }

  /** So it never leaves that stack in a run in which data on disk stays visible and
      no stack is named over data of another. */
  lemma {:induction false} StackStaysFaithful(s: State, steps: seq<Step>)
    requires Faithful(s) && Guarded(s, steps)
    ensures Faithful(Run(s, steps))
    decreases |steps|
  {
    if steps != [] {
      StepFaithfulExactly(s, steps[0]);
      StackStaysFaithful(Next(s, steps[0]), steps[1..]);
    }
  }

  const ENCRYPTED: seq<string> := ["DRBD", "LUKS", "STORAGE"]

  /** Naming another stack over visible data goes through and leaves the definition
      wrong about it; naming the old one again puts it right. */
  lemma ModifyOverDataBreaks()
    ensures var s := State(DEFAULT, false, None, "", false, false, false, None);
            var t := Run(s, [Build, ModifyStack(ENCRYPTED)]);
            Faithful(s) && Visible(t) && t.disk == Some(DEFAULT) && t.stack == ENCRYPTED && !Faithful(t)
            && Faithful(Next(t, ModifyStack(DEFAULT)))
  {
    var s := State(DEFAULT, false, None, "", false, false, false, None);
    var steps := [Build, ModifyStack(ENCRYPTED)];
    var t := Next(Next(s, Build), ModifyStack(ENCRYPTED));
    assert steps[1..] == [ModifyStack(ENCRYPTED)] && steps[1..][1..] == [];
    assert Run(s, steps) == Run(Next(s, Build), steps[1..]) == Run(t, []) == t;
    assert |DEFAULT| != |ENCRYPTED|;
  }

  // The stack named last, by the definition or by an edit of it.
  function LastNamed(stack: seq<string>, steps: seq<Step>): seq<string>
    decreases |steps|
  {
    if steps == [] then stack
    else LastNamed(if steps[0].ModifyStack? && steps[0].stack != [] then steps[0].stack else stack, steps[1..])
  }

  /** A named stack is decided: no pass, group edit, build or report ever changes it,
      only the operator does, and nothing empties it again. */
  lemma {:induction false} StackDecidedOnce(s: State, steps: seq<Step>)
    requires s.stack != []
    ensures Run(s, steps).stack == LastNamed(s.stack, steps) && Run(s, steps).stack != []
    decreases |steps|
  {
    if steps != [] {
      StackDecidedOnce(Next(s, steps[0]), steps[1..]);
    }
  }

  /** What a pass names: a stack that is there stays; without one a group's stack is
      taken over, unless the definition is latched, has metadata or a device, and then
      it is the default. */
  lemma PinNames(s: State)
    ensures Pin(s).stack ==
            if s.stack != [] || !s.inGroup || s.group.None? then s.stack
            else if s.group.value == [] then []
            else if s.initialized || s.metadataCreated || s.hasDevice then ["DRBD", "STORAGE"]
            else s.group.value
    ensures Pin(s) == s.(stack := Pin(s).stack, annotation := Pin(s).annotation)
  {
  }

  // The annotation

  /** A layer more in the list is one more name behind a comma. */
  lemma {:induction false} JoinAppends(layers: seq<string>, last: string)
    ensures Join([last]) == last
    ensures layers != [] ==> Join(layers + [last]) == Join(layers) + "," + last
    decreases |layers|
  {
    var all := layers + [last];
    if |layers| > 1 {
      assert all[1..] == layers[1..] + [last];
      JoinAppends(layers[1..], last);
    } else if |layers| == 1 {
      assert all[1..] == [last];
    }
  }

  lemma JoinEmptyExactly(layers: seq<string>)
    ensures Join(layers) == "" <==> layers == [] || layers == [""]
  {
    if |layers| > 1 {
      assert |Join(layers)| >= 1;
    }
  }

  // The annotation says exactly whether the stack falls short of the group's.
  predicate Truthful(s: State)
  {
    s.annotation != "" <==>
      && s.inGroup && s.group.Some? && s.group.value != [""]
      && exists i | 0 <= i < |s.group.value| ::
           forall j | 0 <= j < |s.stack| :: !EqualFold(s.stack[j], s.group.value[i])
  }

  lemma RefreshIsTruthful(s: State)
    requires s.stack != []
    ensures Pin(s).stack == s.stack && Truthful(Pin(s)) && Pin(Pin(s)) == Pin(s)
    ensures Pin(s).annotation != "" ==> s.group.Some? && Pin(s).annotation == Join(s.group.value)
  {
    if s.group.Some? {
      JoinEmptyExactly(s.group.value);
    }
  }

  /** One pass on a named stack, two on an unnamed one, make the annotation tell
      the truth: present exactly when the stack lacks a layer of its group's,
      the one exception being a group whose only layer has no name. Further
      passes change nothing. */
  lemma AnnotationConverges(s: State)
    ensures var t := Pin(Pin(s));
            Pin(t) == t && (t.stack != [] ==> Truthful(t)) && (s.stack != [] ==> Pin(s) == t)
  {
    var once := Pin(s);
    if s.stack != [] {
      RefreshIsTruthful(s);
    } else if once.stack != [] {
      RefreshIsTruthful(once);
    } else {
      assert once == s;
    }
  }

  lemma OwnStackSuffices(group: seq<string>)
    ensures !Lacks(group, group)
  {
    forall i | 0 <= i < |group| ensures InStack(group, group[i]) {
      assert EqualFold(group[i], group[i]);
    }
  }

  /** On a definition that has no stack yet, one pass is enough exactly when it names
      none, finds no annotation, or replaces the one it finds. */
  lemma OnePassSufficesExactly(s: State)
    ensures Pin(Pin(s)) == Pin(s)
            <==> s.stack != [] || !s.inGroup || s.group.None? || s.group.value == []
                 || s.annotation == "" || ((s.initialized || s.metadataCreated || s.hasDevice) && Lacks(DEFAULT, s.group.value))
  {
    assert DEFAULT != [];
    if s.group.Some? {
      JoinEmptyExactly(s.group.value);
      OwnStackSuffices(s.group.value);
    }
  }

  // No annotation without a stack.
  predicate AnnotatedWithStack(s: State)
  {
    s.stack == [] ==> s.annotation == ""
  }

  lemma {:induction false} AnnotationNeedsStack(s: State, steps: seq<Step>)
    requires AnnotatedWithStack(s)
    ensures AnnotatedWithStack(Run(s, steps))
    decreases |steps|
  {
    if steps != [] {
      assert DEFAULT != [];
      AnnotationNeedsStack(Next(s, steps[0]), steps[1..]);
    }
  }

  /** So one pass is always enough: in every state of every run from a definition that
      was not created with a stray annotation, a pass leaves the annotation telling the
      truth about a named stack, and a second pass changes nothing. */
  lemma OnePassAnnotates(s: State, steps: seq<Step>)
    requires AnnotatedWithStack(s)
    ensures var t := Run(s, steps); Pin(Pin(t)) == Pin(t) && (Pin(t).stack != [] ==> Truthful(Pin(t)))
  {
    AnnotationNeedsStack(s, steps);
    var t := Run(s, steps);
    OnePassSufficesExactly(t);
    if Pin(t).stack != [] {
      RefreshIsTruthful(Pin(t));
    }
  }

  // The steps of one `modify` command: only what the operator named.
  function Edits(group: string, groups: map<string, seq<string>>, layers: Option<seq<string>>): seq<Step>
    requires group == "" || group in groups
  {
    (if group == "" then [] else [Reparent(true, Some(groups[group]))])
    + (if layers.None? then [] else [ModifyStack(layers.value)])
  }

  lemma RunEdits(s: State, group: string, groups: map<string, seq<string>>, layers: Option<seq<string>>)
    requires group == "" || group in groups
    ensures var t := if group == "" then s else Next(s, Reparent(true, Some(groups[group])));
            Run(s, Edits(group, groups, layers)) == if layers.None? then t else Next(t, ModifyStack(layers.value))
  {
    var edits := Edits(group, groups, layers);
    var rest: seq<Step> := if layers.None? then [] else [ModifyStack(layers.value)];
    assert layers.Some? ==> rest[1..] == [];
    if group == "" {
      assert edits == rest;
    } else {
      assert edits[1..] == rest;
    }
    assert forall t :: layers.Some? ==> Run(t, rest) == Run(Next(t, rest[0]), rest[1..]);
  }

  class Definition {
    var s: State

    constructor (s: State)
      ensures this.s == s
    {
      this.s := s;
    }

    method LacksLayerOf(stack: seq<string>, group: seq<string>) returns (lacks: bool)
      ensures lacks == Lacks(stack, group)
    {
      for i := 0 to |group|
        invariant forall k | 0 <= k < i :: InStack(stack, group[k])
      {
        var found := false;
        for j := 0 to |stack|
          invariant found <==> exists k :: 0 <= k < j && EqualFold(stack[k], group[i])
        {
          if EqualFold(stack[j], group[i]) {
            found := true;
          }
        }
        if !found {
          return true;
        }
      }
      return false;
    }

    /** Decide the stack of a definition that leaves it to its group; keep the
        annotation of one that does not true to the group. */
    method PinLayerStack()
      modifies this
      ensures s == Pin(old(s))
    {
      if |s.stack| > 0 {
        RefreshUnappliedGroupStack();
        return;
      }
      if !s.inGroup || s.group.None? || |s.group.value| == 0 {
        return;
      }
      var group := s.group.value;
      var stack := if HoldsData(s) then DEFAULT else group;
      s := s.(stack := stack);
      var unapplied := LacksLayerOf(stack, group);
      if unapplied {
        s := s.(annotation := Join(group));
      }
    }

    method RefreshUnappliedGroupStack()
      modifies this
      ensures s == old(s).(annotation := Shortfall(old(s)))
    {
      var want := "";
      if s.inGroup && s.group.Some? {
        var lacks := LacksLayerOf(s.stack, s.group.value);
        if lacks {
          want := Join(s.group.value);
        }
      }
      if want == s.annotation {
        return;
      }
      s := s.(annotation := want);
    }

    /** The operator's `modify`: `groups` are the groups there are with their stacks,
        `layers` the list given, `valid` whether it is one. A refused command writes
        nothing; the API server refuses to empty a stack. */
    method ModifyDefinition(group: string, groups: map<string, seq<string>>, layers: Option<seq<string>>, valid: bool)
      returns (ok: bool)
      modifies this
      ensures ok <==> (group != "" || layers.Some?) && (group == "" || group in groups)
                      && (layers.Some? ==> valid && (layers.value != [] || old(s).stack == []))
      ensures s == if ok then Run(old(s), Edits(group, groups, layers)) else old(s)
    {
      if group == "" && layers.None? {
        return false;
      }
      var edited := s;
      if group != "" {
        if group !in groups {
          return false;
        }
        edited := edited.(inGroup := true, group := Some(groups[group]));
      }
      if layers.Some? {
        if !valid {
          return false;
        }
        edited := edited.(stack := layers.value);
      }
      if s.stack != [] && edited.stack == [] {
        return false;
      }
      RunEdits(s, group, groups, layers);
      s := edited;
      return true;
    }
  }
}
