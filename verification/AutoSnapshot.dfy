/**
 Auto-snapshots of one definition: ids, cadence and retention over ticks that
 may crash between creating a snapshot and stamping the definition.
 */
module AutoSnapshot {
  import opened Names
  import opened Decimal

  const DEFAULT_KEEP := 10
  const PREFIX := "auto-snap-"

  datatype Snapshot = Snapshot(auto: bool, created: int, deleting: bool)

  // `nextId` and `keep` are the raw property texts; `log` records every auto
  // snapshot ever created, with its id and time; `clock` is the last tick.
  datatype State = State(
    nextId: string, lastAt: Option<int>, keep: Option<string>,
    snapshots: map<string, Snapshot>, log: seq<(int, int)>, clock: int)

  function SnapshotName(id: int): string
    requires id >= 0
  {
    PREFIX + Pad(Format(id))
  }

  /** Two ids never share a name. */
  lemma NameInjective(a: int, b: int)
    requires a >= 0 && b >= 0 && SnapshotName(a) == SnapshotName(b)
    ensures a == b
  {
    PadKeepsValue(Format(a));
    PadKeepsValue(Format(b));
    assert Pad(Format(a)) == SnapshotName(a)[|PREFIX|..] && Pad(Format(b)) == SnapshotName(b)[|PREFIX|..];
  }

  // The id of the next snapshot; None when the property does not parse.
  function NextId(text: string): (r: Option<int>)
    ensures r.Some? ==> r.value >= 1
  {
    if text == "" then Some(1)
    else
      var n := ParseInt(text);
      if n.None? then None else if n.value < 1 then Some(1) else n
  }

  /** A stamped id is read back as itself, a missing one as the first, and any other
      text exactly when it spells a 64-bit number: that number, but never below one. */
  lemma NextIdReads(text: string, id: int)
    requires 1 <= id <= INT64_MAX
    ensures NextId(Format(id)) == Some(id) && NextId("") == Some(1)
    ensures NextId(text) == Some(id) <==>
            (id == 1 && text == "") || (ParseInt(text).Some? && (ParseInt(text).value == id || (id == 1 && ParseInt(text).value < 1)))
    ensures NextId(text) == None <==> text != "" && ParseInt(text).None?
  {
    ParseFormat(id);
    assert ParseInt("").None?;
  }

  // The retention budget; None when the property does not parse.
  function Budget(keep: Option<string>): (r: Option<nat>)
    ensures r.Some? ==> r.value >= 1
  {
    if keep.None? then Some(DEFAULT_KEEP)
    else
      var n := ParseInt(keep.value);
      if n.None? then None else if n.value > 0 then Some(n.value) else Some(DEFAULT_KEEP)
  }

  /** Keep is the number given when it is positive, ten when it is not given or not
      positive, and an error when it is no 64-bit number. */
  lemma BudgetReads(keep: Option<string>)
    ensures Budget(keep) ==
            if keep.None? then Some(10)
            else if ParseInt(keep.value).None? then None
            else if ParseInt(keep.value).value >= 1 then ParseInt(keep.value)
            else Some(10)
  {
  }

  /** Ids are padded to five digits. */
  lemma NamesPadded()
    ensures SnapshotName(7) == "auto-snap-00007"
  {
    assert Format(7) == "7";
    assert Pad("7") == Pad("07") == Pad("007") == Pad("0007") == Pad("00007") == "00007" by {
      assert "0" + "7" == "07" && "0" + "07" == "007" && "0" + "007" == "0007" && "0" + "0007" == "00007";
    }
  }

  function Autos(s: State): set<string>
  {
    set n | n in s.snapshots && s.snapshots[n].auto
  }

  // A list call sorted oldest first; the order of equal times is not fixed.
  predicate OldestFirst(s: State, order: seq<string>)
  {
    && Lists(order, Autos(s))
    && forall i, j | 0 <= i < j < |order| && order[i] in s.snapshots && order[j] in s.snapshots ::
         s.snapshots[order[i]].created <= s.snapshots[order[j]].created
  }

  // The snapshots a prune pass deletes: past the budget, not already going, not
  // the source of a restore.
  function Pruned(s: State, order: seq<string>, inUse: set<string>): set<string>
  {
    if Budget(s.keep).None? || |order| <= Budget(s.keep).value then {}
    else set i | 0 <= i < |order| - Budget(s.keep).value && order[i] in s.snapshots
                 && !s.snapshots[order[i]].deleting && order[i] !in inUse :: order[i]
  }

  function Deleted(snapshots: map<string, Snapshot>, doomed: set<string>): map<string, Snapshot>
  {
    map n | n in snapshots :: if n in doomed then snapshots[n].(deleting := true) else snapshots[n]
  }

  function Prune(s: State, order: seq<string>, inUse: set<string>): State
  {
    s.(snapshots := Deleted(s.snapshots, Pruned(s, order, inUse)))
  }

  predicate Due(s: State, runEvery: int, now: int)
  {
    s.lastAt.None? || now - s.lastAt.value >= runEvery
  }

  // Create the snapshot of an id; an existing object of that name is success.
  function Created(s: State, id: int, now: int): State
    requires id >= 0
  {
    if SnapshotName(id) in s.snapshots then s
    else s.(snapshots := s.snapshots[SnapshotName(id) := Snapshot(true, now, false)], log := s.log + [(id, now)])
  }

  datatype Step =
    | Tick(now: int, crash: bool, order: seq<string>, inUse: set<string>)
    | Finalize(name: string)
    | CreateManual(name: string, now: int)
    | Delete(name: string)
    | SetKeep(keep: Option<string>)

  // One tick; a crash stops it between the create and the stamp.
  function DoTick(s: State, runEvery: int, now: int, crash: bool, order: seq<string>, inUse: set<string>): State
  {
    var at := s.(clock := now);
    if !Due(s, runEvery, now) then Prune(at, order, inUse)
    else
      var id := NextId(s.nextId);
      if id.None? then at
      else
        var created := Created(at, id.value, now);
        if crash then created
        else
          Prune(created.(nextId := Format(id.value + 1), lastAt := Some(now)), order, inUse)
  }

  function Next(s: State, runEvery: int, step: Step): State
  {
    match step
    case Tick(now, crash, order, inUse) => DoTick(s, runEvery, now, crash, order, inUse)
    case Finalize(n) => if n in s.snapshots && s.snapshots[n].deleting then s.(snapshots := s.snapshots - {n}) else s
    case CreateManual(n, now) => if n in s.snapshots then s else s.(snapshots := s.snapshots[n := Snapshot(false, now, false)])
    case Delete(n) => s.(snapshots := Deleted(s.snapshots, {n}))
    case SetKeep(keep) => s.(keep := keep)
  }

  function Run(s: State, runEvery: int, steps: seq<Step>): State
    decreases |steps|
  {
    if steps == [] then s else Run(Next(s, runEvery, steps[0]), runEvery, steps[1..])
  }

  // The id of a snapshot that was created but not stamped yet.
  predicate Unstamped(s: State, n: string)
  {
    s.log != [] && NextId(s.nextId) == Some(|s.log|) && n == SnapshotName(|s.log|)
  }

  // Clocks do not run backwards, counters fit 64 bits, nobody takes a name the
  // cron will want, and nobody deletes a snapshot before it is stamped.
  ghost predicate Fits(s: State, step: Step)
  {
    match step
    case Tick(now, crash, order, inUse) => now >= s.clock && |s.log| + 2 <= INT64_MAX
    case CreateManual(n, now) => !exists id :: id > |s.log| && n == SnapshotName(id)
    case Delete(n) => !Unstamped(s, n)
    case _ => true
  }

  ghost predicate AllFit(s: State, runEvery: int, steps: seq<Step>)
    decreases |steps|
  {
    steps == [] || (Fits(s, steps[0]) && AllFit(Next(s, runEvery, steps[0]), runEvery, steps[1..]))
  }

  // The ids created so far are 1..k, in order, at least runEvery apart.
  predicate Prefix(log: seq<(int, int)>, runEvery: int)
  {
    && (forall i | 0 <= i < |log| :: log[i].0 == i + 1)
    && (forall i | 0 < i < |log| :: log[i].1 - log[i - 1].1 >= runEvery)
  }

  // Names in use among the cron's own belong to ids already created.
  ghost predicate NamesLogged(s: State)
  {
    forall id | id >= 1 && SnapshotName(id) in s.snapshots :: id <= |s.log|
  }

  // The bookkeeping: either stamped up to date, or one create ahead of it and
  // still due.
  predicate Stamped(s: State)
  {
    && NextId(s.nextId) == Some(|s.log| + 1)
    && (s.log != [] ==> s.lastAt.Some? && s.log[|s.log| - 1].1 <= s.lastAt.value)
  }

  predicate Ahead(s: State, runEvery: int)
  {
    && s.log != [] && NextId(s.nextId) == Some(|s.log|)
    && SnapshotName(|s.log|) in s.snapshots && !s.snapshots[SnapshotName(|s.log|)].deleting
    && s.log[|s.log| - 1].1 <= s.clock && Due(s, runEvery, s.clock)
  }

  ghost predicate Inv(s: State, runEvery: int)
  {
    && Prefix(s.log, runEvery) && NamesLogged(s)
    && (Stamped(s) || Ahead(s, runEvery))
  }

  lemma DeletedKeepsNames(snapshots: map<string, Snapshot>, doomed: set<string>)
    ensures Deleted(snapshots, doomed).Keys == snapshots.Keys
  {
  }

  lemma CreateKeepsInv(s: State, runEvery: int, now: int)
    requires runEvery > 0 && Inv(s, runEvery) && now >= s.clock && Due(s, runEvery, now)
    ensures var id := NextId(s.nextId).value; var t := Created(s.(clock := now), id, now);
            Prefix(t.log, runEvery) && NamesLogged(t) && id == |t.log|
            && SnapshotName(id) in t.snapshots
            && t.log[|t.log| - 1].1 <= now && (t.log == s.log || t.snapshots[SnapshotName(id)] == Snapshot(true, now, false))
            && (t.log == s.log ==> t.snapshots == s.snapshots && Ahead(s, runEvery))
  {
    var id := NextId(s.nextId).value;
    var t := Created(s.(clock := now), id, now);
    if SnapshotName(id) !in s.snapshots {
      assert Stamped(s);
      forall other | other >= 1 && SnapshotName(other) in t.snapshots ensures other <= |t.log| {
        if SnapshotName(other) !in s.snapshots {
          NameInjective(other, id);
        }
      }
    }
  }

  lemma PruneKeepsInv(s: State, runEvery: int, order: seq<string>, inUse: set<string>)
    requires Prefix(s.log, runEvery) && NamesLogged(s) && Stamped(s)
    ensures Inv(Prune(s, order, inUse), runEvery)
  {
    var t := Prune(s, order, inUse);
    DeletedKeepsNames(s.snapshots, Pruned(s, order, inUse));
    assert Stamped(t);
  }

  lemma StampKeepsInv(created: State, runEvery: int, id: int, now: int)
    requires Prefix(created.log, runEvery) && NamesLogged(created) && id == |created.log| >= 1
    requires created.log[id - 1].1 <= now && id + 1 <= INT64_MAX
    ensures var t := created.(nextId := Format(id + 1), lastAt := Some(now));
            Prefix(t.log, runEvery) && NamesLogged(t) && Stamped(t)
  {
    ParseFormat(id + 1);
  }

  lemma DueTickKeepsInv(s: State, runEvery: int, now: int, crash: bool, order: seq<string>, inUse: set<string>)
    requires runEvery > 0 && Inv(s, runEvery) && now >= s.clock && |s.log| + 2 <= INT64_MAX && Due(s, runEvery, now)
    ensures Inv(DoTick(s, runEvery, now, crash, order, inUse), runEvery)
  {
    CreateKeepsInv(s, runEvery, now);
    var id := NextId(s.nextId).value;
    var created := Created(s.(clock := now), id, now);
    if crash {
      assert Ahead(created, runEvery);
    } else {
      StampKeepsInv(created, runEvery, id, now);
      PruneKeepsInv(created.(nextId := Format(id + 1), lastAt := Some(now)), runEvery, order, inUse);
    }
  }

  lemma TickKeepsInv(s: State, runEvery: int, now: int, crash: bool, order: seq<string>, inUse: set<string>)
    requires runEvery > 0 && Inv(s, runEvery) && now >= s.clock && |s.log| + 2 <= INT64_MAX
    ensures Inv(DoTick(s, runEvery, now, crash, order, inUse), runEvery)
  {
    if Due(s, runEvery, now) {
      DueTickKeepsInv(s, runEvery, now, crash, order, inUse);
    } else {
      assert Stamped(s);
      PruneKeepsInv(s.(clock := now), runEvery, order, inUse);
    }
  }

  /** Over every run, crashes included, the ids created are 1, 2, 3, ... with no
      gap and no repeat, and at least RunEvery apart. */
  lemma {:induction false} IdsGapFreeAndSpaced(s: State, runEvery: int, steps: seq<Step>)
    requires runEvery > 0 && Inv(s, runEvery) && AllFit(s, runEvery, steps)
    ensures Prefix(Run(s, runEvery, steps).log, runEvery) && Inv(Run(s, runEvery, steps), runEvery)
    decreases |steps|
  {
    if steps != [] {
      StepKeepsInv(s, runEvery, steps[0]);
      IdsGapFreeAndSpaced(Next(s, runEvery, steps[0]), runEvery, steps[1..]);
    }
  }

  lemma StepKeepsInv(s: State, runEvery: int, step: Step)
    requires runEvery > 0 && Inv(s, runEvery) && Fits(s, step)
    ensures Inv(Next(s, runEvery, step), runEvery)
  {
    match step
    case Tick(now, crash, order, inUse) => TickKeepsInv(s, runEvery, now, crash, order, inUse);
    case Finalize(n) => OthersKeepInv(s, Next(s, runEvery, step), runEvery);
    case CreateManual(n, now) => OthersKeepInv(s, Next(s, runEvery, step), runEvery);
    case Delete(n) => OthersKeepInv(s, Next(s, runEvery, step), runEvery);
    case SetKeep(keep) => OthersKeepInv(s, Next(s, runEvery, step), runEvery);
  }

  lemma OthersKeepInv(s: State, t: State, runEvery: int)
    requires Inv(s, runEvery)
    requires t.nextId == s.nextId && t.lastAt == s.lastAt && t.log == s.log && t.clock == s.clock
    requires forall id | id > |s.log| && SnapshotName(id) in t.snapshots :: SnapshotName(id) in s.snapshots
    requires forall n | n in s.snapshots && !s.snapshots[n].deleting && Unstamped(s, n) ::
               n in t.snapshots && t.snapshots[n] == s.snapshots[n]
    ensures Inv(t, runEvery)
  {
  }

  // The state of a definition the cron has never served.
  function Blank(keep: Option<string>, clock: int): State
  {
    State("", None, keep, map[], [], clock)
  }

  /** A definition the cron has never served starts right. */
  lemma BlankInv(keep: Option<string>, clock: int, runEvery: int)
    ensures Inv(Blank(keep, clock), runEvery)
  {
  }

  // What goes wrong otherwise

  // The operator deletes a snapshot and its satellites finish.
  function Gone(s: State, runEvery: int, n: string): State
  {
    Next(Next(s, runEvery, Delete(n)), runEvery, Finalize(n))
  }

  lemma GoneDrops(s: State, runEvery: int, n: string)
    ensures Gone(s, runEvery, n) == s.(snapshots := s.snapshots - {n})
  {
    assert Gone(s, runEvery, n).snapshots == s.snapshots - {n};
  }

  // What one tick adds to the log.
  lemma TickLogs(u: State, runEvery: int, now: int, crash: bool, order: seq<string>, inUse: set<string>)
    ensures var id := NextId(u.nextId);
            Next(u, runEvery, Tick(now, crash, order, inUse)).log
            == if Due(u, runEvery, now) && id.Some? && SnapshotName(id.value) !in u.snapshots
               then u.log + [(id.value, now)] else u.log
  {
  }

  /** A deleted snapshot makes the next tick repeat an id exactly when it was the
      one created but not stamped yet. */
  lemma DeleteRepeatsExactly(s: State, runEvery: int, n: string, now: int, crash: bool, order: seq<string>, inUse: set<string>)
    requires runEvery > 0 && Inv(s, runEvery) && now >= s.clock
    ensures var t := Next(Gone(s, runEvery, n), runEvery, Tick(now, crash, order, inUse));
            (Prefix(t.log, runEvery) <==> !Unstamped(s, n))
            && (Unstamped(s, n) ==> t.log == s.log + [(|s.log|, now)])
  {
    GoneDrops(s, runEvery, n);
    var u := Gone(s, runEvery, n);
    TickLogs(u, runEvery, now, crash, order, inUse);
    if Due(u, runEvery, now) {
      var id := NextId(s.nextId).value;
      if Unstamped(s, n) {
        assert (s.log + [(id, now)])[|s.log|].0 != |s.log| + 1;
      } else if Ahead(s, runEvery) {
        assert SnapshotName(id) in u.snapshots;
      } else {
        assert SnapshotName(id) !in u.snapshots;
      }
    }
  }

  /** Such a run: a crash between create and stamp, the delete, and the next tick. */
  lemma DeleteBeforeStampRepeats(runEvery: int, order: seq<string>)
    requires runEvery > 0
    ensures var s := Next(Blank(None, 0), runEvery, Tick(0, true, [], {}));
            Next(Gone(s, runEvery, SnapshotName(1)), runEvery, Tick(1, false, order, {})).log == [(1, 0), (1, 1)]
  {
    var s := Next(Blank(None, 0), runEvery, Tick(0, true, [], {}));
    BlankInv(None, 0, runEvery);
    TickKeepsInv(Blank(None, 0), runEvery, 0, true, [], {});
    assert s.log == [(1, 0)];
    DeleteRepeatsExactly(s, runEvery, SnapshotName(1), 1, false, order, {});
  }

  /** A due tick creates the next id exactly when nobody holds its name; if somebody
      does, it stamps the id as done all the same. */
  lemma TakenNameExactly(s: State, runEvery: int, now: int, crash: bool, order: seq<string>, inUse: set<string>)
    requires Stamped(s) && Due(s, runEvery, now) && |s.log| + 2 <= INT64_MAX
    ensures var t := Next(s, runEvery, Tick(now, crash, order, inUse));
            (t.log == s.log + [(|s.log| + 1, now)] <==> SnapshotName(|s.log| + 1) !in s.snapshots)
            && (SnapshotName(|s.log| + 1) in s.snapshots ==>
                  t.log == s.log && (!crash ==> NextId(t.nextId) == Some(|s.log| + 2) && t.lastAt == Some(now)))
            && t.snapshots.Keys <= s.snapshots.Keys + {SnapshotName(|s.log| + 1)}
  {
    var t := Next(s, runEvery, Tick(now, crash, order, inUse));
    assert |t.log| == |s.log| <==> SnapshotName(|s.log| + 1) in s.snapshots;
    ParseFormat(|s.log| + 2);
  }

  /** That id is never created: from any such state the next one on the log skips it. */
  lemma TakenNameLeavesGap(s: State, runEvery: int, now: int, later: int, order: seq<string>, inUse: set<string>)
    requires runEvery > 0 && Stamped(s) && Due(s, runEvery, now) && later - now >= runEvery && |s.log| + 2 <= INT64_MAX
    requires SnapshotName(|s.log| + 1) in s.snapshots && SnapshotName(|s.log| + 2) !in s.snapshots
    ensures var t := Next(s, runEvery, Tick(now, false, order, inUse));
            var u := Next(t, runEvery, Tick(later, false, order, inUse));
            u.log == s.log + [(|s.log| + 2, later)] && !Prefix(u.log, runEvery)
  {
    TakenNameExactly(s, runEvery, now, false, order, inUse);
    var t := Next(s, runEvery, Tick(now, false, order, inUse));
    var u := Next(t, runEvery, Tick(later, false, order, inUse));
    assert SnapshotName(|s.log| + 2) !in t.snapshots;
    assert u.log == s.log + [(|s.log| + 2, later)];
    assert u.log[|s.log|].0 == |s.log| + 2;
  }

  /** Such a run: a manual snapshot under the first auto name, then two ticks. */
  lemma ManualNameLeavesGap(runEvery: int)
    requires runEvery > 0
    ensures var s := Next(Blank(None, 0), runEvery, CreateManual(SnapshotName(1), 0));
            var t := Next(s, runEvery, Tick(0, false, [], {}));
            Next(t, runEvery, Tick(runEvery, false, [], {})).log == [(2, runEvery)]
  {
    var s := Next(Blank(None, 0), runEvery, CreateManual(SnapshotName(1), 0));
    assert s.snapshots.Keys == {SnapshotName(1)};
    if SnapshotName(2) == SnapshotName(1) {
      NameInjective(2, 1);
    }
    TakenNameLeavesGap(s, runEvery, 0, runEvery, [], {});
  }

  // Retention

  function Newer(s: State, n: string): set<string>
    requires n in s.snapshots
  {
    set m | m in s.snapshots && s.snapshots[m].auto && s.snapshots[m].created > s.snapshots[n].created
  }

  function NotOlder(s: State, n: string): set<string>
    requires n in s.snapshots
  {
    set m | m in s.snapshots && s.snapshots[m].auto && s.snapshots[m].created >= s.snapshots[n].created
  }

  lemma SuffixSize(order: seq<string>, i: nat)
    requires i <= |order| && Distinct(order)
    ensures |Elems(order[i..])| == |order| - i
  {
    ListSize(order[i..], Elems(order[i..]));
  }

  lemma PrunedIndex(s: State, order: seq<string>, i: nat)
    requires OldestFirst(s, order) && Budget(s.keep).Some? && i < |order|
    ensures order[i] in Autos(s)
    ensures order[i] in Pruned(s, order, {}) <==> i < |order| - Budget(s.keep).value && !s.snapshots[order[i]].deleting
  {
    assert order[i] in Elems(order);
  }

  // At most |order| - i - 1 snapshots are newer than the i-th oldest.
  lemma NewerIsLater(s: State, order: seq<string>, i: nat)
    requires OldestFirst(s, order) && i < |order| && order[i] in s.snapshots
    ensures |Newer(s, order[i])| <= |order| - i - 1
  {
    var n := order[i];
    forall m | m in Newer(s, n) ensures m in Elems(order[i + 1..]) {
      assert m in Elems(order);
      var j :| 0 <= j < |order| && order[j] == m;
      assert order[i + 1..][j - i - 1] == m;
    }
    SubsetSize(Newer(s, n), Elems(order[i + 1..]));
    SuffixSize(order, i + 1);
  }

  // At least |order| - i snapshots are not older than the i-th oldest.
  lemma LaterIsNotOlder(s: State, order: seq<string>, i: nat)
    requires OldestFirst(s, order) && i < |order| && order[i] in s.snapshots
    ensures |NotOlder(s, order[i])| >= |order| - i
  {
    forall m | m in Elems(order[i..]) ensures m in NotOlder(s, order[i]) {
      var j :| 0 <= j < |order[i..]| && order[i..][j] == m;
      assert order[i + j] == m && m in Elems(order);
    }
    SubsetSize(Elems(order[i..]), NotOlder(s, order[i]));
    SuffixSize(order, i);
  }

  /** A prune pass with no restore in use leaves standing only snapshots among
      the Keep newest, those being deleted counted, and every one that is certainly
      among them. */
  lemma PruneKeepsNewest(s: State, order: seq<string>, n: string)
    requires OldestFirst(s, order) && Budget(s.keep).Some? && n in s.snapshots && s.snapshots[n].auto
    ensures var k, t := Budget(s.keep).value, Prune(s, order, {});
            (!t.snapshots[n].deleting ==> |Newer(s, n)| < k)
            && (|NotOlder(s, n)| <= k ==> t.snapshots[n] == s.snapshots[n])
  {
    assert n in Elems(order);
    var i :| 0 <= i < |order| && order[i] == n;
    PrunedIndex(s, order, i);
    NewerIsLater(s, order, i);
    LaterIsNotOlder(s, order, i);
  }

  // The same, read off the state after the pass.
  lemma PruneLeaves(c: State, order: seq<string>, n: string)
    requires var t := Prune(c, order, {});
             OldestFirst(t, order) && Budget(c.keep).Some? && n in t.snapshots && t.snapshots[n].auto
    ensures var t := Prune(c, order, {});
            !t.snapshots[n].deleting ==> |Newer(t, n)| < Budget(c.keep).value
  {
    var t := Prune(c, order, {});
    assert Autos(t) == Autos(c);
    PruneKeepsNewest(c, order, n);
    assert Newer(t, n) == Newer(c, n);
  }

  /** Every tick that does not crash prunes, due or not: afterwards a snapshot of the cron
      stands only if fewer than Keep are newer. */
  lemma TickPrunes(s: State, runEvery: int, now: int, order: seq<string>, n: string)
    requires (Due(s, runEvery, now) ==> NextId(s.nextId).Some?) && Budget(s.keep).Some?
    requires var t := Next(s, runEvery, Tick(now, false, order, {}));
             OldestFirst(t, order) && n in t.snapshots && t.snapshots[n].auto
    ensures var t := Next(s, runEvery, Tick(now, false, order, {}));
            !t.snapshots[n].deleting ==> |Newer(t, n)| < Budget(s.keep).value
  {
    var at := s.(clock := now);
    if !Due(s, runEvery, now) {
      PruneLeaves(at, order, n);
    } else {
      var id := NextId(s.nextId).value;
      PruneLeaves(Created(at, id, now).(nextId := Format(id + 1), lastAt := Some(now)), order, n);
    }
  }

  /** Nor one that a restore still reads from, nor anything while Keep does not parse. */
  lemma InUseUntouched(s: State, order: seq<string>, inUse: set<string>, n: string)
    requires OldestFirst(s, order) && n in s.snapshots && (n in inUse || Budget(s.keep).None?)
    ensures Prune(s, order, inUse).snapshots[n] == s.snapshots[n]
  {
  }

  /** When a tick creates: the last stamp is at least RunEvery ago, or there is none. */
  lemma TicksWhenDue(s: State, runEvery: int, now: int, crash: bool, order: seq<string>, inUse: set<string>)
    requires Stamped(s) && SnapshotName(|s.log| + 1) !in s.snapshots
    ensures Next(s, runEvery, Tick(now, crash, order, inUse)).log != s.log
            <==> s.lastAt.None? || s.lastAt.value + runEvery <= now
  {
    assert |s.log + [(|s.log| + 1, now)]| == |s.log| + 1;
  }

  /** No prune pass touches a snapshot the cron did not create. */
  lemma ManualUntouched(s: State, order: seq<string>, inUse: set<string>, n: string)
    requires OldestFirst(s, order) && n in s.snapshots && !s.snapshots[n].auto
    ensures Prune(s, order, inUse).snapshots[n] == s.snapshots[n]
  {
    assert Pruned(s, order, inUse) <= Elems(order) == Autos(s);
  }

  predicate Sorted(snapshots: map<string, Snapshot>, order: seq<string>)
  {
    && Distinct(order) && (forall i | 0 <= i < |order| :: order[i] in snapshots)
    && (forall i, j | 0 <= i < j < |order| :: snapshots[order[i]].created <= snapshots[order[j]].created)
  }

  lemma InsertSorted(snapshots: map<string, Snapshot>, order: seq<string>, p: nat, n: string)
    requires Sorted(snapshots, order) && p <= |order| && n in snapshots && n !in order
    requires forall i | 0 <= i < p :: snapshots[order[i]].created <= snapshots[n].created
    requires forall i | p <= i < |order| :: snapshots[n].created <= snapshots[order[i]].created
    ensures Sorted(snapshots, order[..p] + [n] + order[p..])
  {
    var r := order[..p] + [n] + order[p..];
    assert forall i | 0 <= i < |r| :: r[i] == if i < p then order[i] else if i == p then n else order[i - 1];
    forall i, j | 0 <= i < j < |r|
      ensures r[i] in snapshots && r[j] in snapshots && r[i] != r[j] && snapshots[r[i]].created <= snapshots[r[j]].created
    {
    }
    assert forall i | 0 <= i < |r| :: r[i] in snapshots;
  }

  class Cron {
    var s: State

    constructor (s: State)
      ensures this.s == s
    {
      this.s := s;
    }

    /** One tick over the definition; `crash` is a failed or lost stamp. */
    method ProcessDefinition(runEvery: int, now: int, crash: bool, inUse: set<string>) returns (ghost order: seq<string>)
      modifies this
      ensures s == DoTick(old(s), runEvery, now, crash, order, inUse)
    {
      var due := s.lastAt.None? || now - s.lastAt.value >= runEvery;
      s := s.(clock := now);
      order := [];
      if due {
        var id := NextId(s.nextId);
        if id.None? {
          return;
        }
        var name := SnapshotName(id.value);
        if name !in s.snapshots {
          s := s.(snapshots := s.snapshots[name := Snapshot(true, now, false)], log := s.log + [(id.value, now)]);
        }
        if crash {
          return;
        }
        s := s.(nextId := Format(id.value + 1), lastAt := Some(now));
      }
      var failed;
      failed, order := PruneOldAutoSnapshots(inUse);
    }

    /** Insert a name into a list sorted oldest first. */
    method Insert(order: seq<string>, n: string) returns (r: seq<string>)
      requires Sorted(s.snapshots, order) && n in s.snapshots && n !in order
      ensures Sorted(s.snapshots, r) && Elems(r) == Elems(order) + {n}
    {
      var p := |order|;
      while p > 0 && s.snapshots[order[p - 1]].created > s.snapshots[n].created
        invariant 0 <= p <= |order|
        invariant forall i | p <= i < |order| :: s.snapshots[order[i]].created > s.snapshots[n].created
      {
        p := p - 1;
      }
      InsertSorted(s.snapshots, order, p, n);
      InsertElems(order, p, n);
      r := order[..p] + [n] + order[p..];
    }

    /** Delete the oldest auto-snapshots past the budget. */
    method PruneOldAutoSnapshots(inUse: set<string>) returns (failed: bool, ghost order: seq<string>)
      modifies this
      ensures OldestFirst(old(s), order) && s == Prune(old(s), order, inUse)
      ensures failed <==> Budget(old(s).keep).None?
    {
      ghost var before := s;
      var listed := ListKeys(Autos(s));
      var sorted: seq<string> := [];
      for i := 0 to |listed|
        invariant Sorted(s.snapshots, sorted) && Elems(sorted) == Elems(listed[..i]) && s == before
      {
        assert listed[i] in Elems(listed);
        assert listed[..i + 1] == listed[..i] + [listed[i]];
        assert listed[i] !in Elems(listed[..i]);
        sorted := Insert(sorted, listed[i]);
      }
      assert listed[..|listed|] == listed;
      order := sorted;
      var budget := Budget(s.keep);
      DeletedNone(s.snapshots);
      if budget.None? {
        return true, order;
      }
      if |sorted| <= budget.value {
        return false, order;
      }
      for i := 0 to |sorted| - budget.value
        invariant s == before.(snapshots := Deleted(before.snapshots, FirstPruned(before, sorted, i, inUse)))
      {
        var n := sorted[i];
        assert n in Elems(sorted);
        FirstPrunedStep(before, sorted, i, inUse);
        if s.snapshots[n].deleting || n in inUse {
          continue;
        }
        s := s.(snapshots := s.snapshots[n := s.snapshots[n].(deleting := true)]);
      }
      return false, order;
    }
  }

  // What the first i rounds of the delete loop mark.
  function FirstPruned(s: State, order: seq<string>, i: nat, inUse: set<string>): set<string>
    requires i <= |order|
  {
    set j | 0 <= j < i && order[j] in s.snapshots && !s.snapshots[order[j]].deleting && order[j] !in inUse :: order[j]
  }

  lemma FirstPrunedStep(s: State, order: seq<string>, i: nat, inUse: set<string>)
    requires i < |order| && order[i] in s.snapshots && Distinct(order)
    ensures order[i] !in FirstPruned(s, order, i, inUse)
    ensures FirstPruned(s, order, i + 1, inUse)
            == FirstPruned(s, order, i, inUse) + if s.snapshots[order[i]].deleting || order[i] in inUse then {} else {order[i]}
  {
  }

  lemma DeletedNone(snapshots: map<string, Snapshot>)
    ensures Deleted(snapshots, {}) == snapshots
  {
  }
}
