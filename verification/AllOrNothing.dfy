/**
 Commands that create a list of objects and take back what they added when one
 of them fails: restoring a snapshot's volumes onto a definition, and taking a
 group of snapshots. Any number of them run against one store, interleaved
 between the single creates and deletes, which the store makes atomic.
 */
module AllOrNothing {
  import opened Names

  // `leaked` holds the objects whose delete failed and that are still there.
  datatype Phase<K> =
    | Starting
    | Creating(done: nat)
    | Unwinding(left: seq<K>, leaked: set<K>)
    | Succeeded
    | Failed(leaked: set<K>)

  // `checks` says the command first refuses a target that has any of its keys.
  datatype Worker<K> = Worker(keys: seq<K>, checks: bool, phase: Phase<K>)

  // Who created each object; None for objects no command here created.
  datatype State<K> = State(owner: map<K, Option<nat>>, workers: map<nat, Worker<K>>)

  datatype Step<K> =
    | Begin(id: nat, keys: seq<K>, checks: bool)
    | Check(id: nat)
    | Create(id: nat, fault: bool)
    | Unwind(id: nat, fault: bool)
    | Foreign(key: K)
    | Remove(key: K)

  function Advance<K(==)>(s: State<K>, id: nat, phase: Phase<K>): State<K>
    requires id in s.workers
  {
    s.(workers := s.workers[id := s.workers[id].(phase := phase)])
  }

  function Next<K(==)>(s: State<K>, step: Step<K>): State<K>
  {
    match step
    case Begin(id, keys, checks) =>
      if id in s.workers then s else s.(workers := s.workers[id := Worker(keys, checks, Starting)])
    case Check(id) =>
      if id !in s.workers || !s.workers[id].phase.Starting? then s
      else
        var w := s.workers[id];
        if w.keys == [] || (w.checks && exists k | k in w.keys :: k in s.owner)
        then Advance(s, id, Failed({})) else Advance(s, id, Creating(0))
    case Create(id, fault) =>
      if id !in s.workers || !s.workers[id].phase.Creating? then s
      else
        var w, i := s.workers[id], s.workers[id].phase.done;
        if i >= |w.keys| then Advance(s, id, Succeeded)
        else if fault || w.keys[i] in s.owner then Advance(s, id, Unwinding(w.keys[..i], {}))
        else Advance(s.(owner := s.owner[w.keys[i] := Some(id)]), id, Creating(i + 1))
    case Unwind(id, fault) =>
      if id !in s.workers || !s.workers[id].phase.Unwinding? then s
      else
        var p := s.workers[id].phase;
        if p.left == [] then Advance(s, id, Failed(p.leaked))
        else if fault then Advance(s, id, Unwinding(p.left[1..], p.leaked + {p.left[0]}))
        else Advance(s.(owner := s.owner - {p.left[0]}), id, Unwinding(p.left[1..], p.leaked))
    case Foreign(key) => if key in s.owner then s else s.(owner := s.owner[key := None])
    case Remove(key) =>
      s.(owner := s.owner - {key}, workers := map id | id in s.workers :: s.workers[id].(phase := Cleaned(s.workers[id].phase, key)))
  }

  // Somebody else deleted an object: if it was a leftover it is one no more.
  function Cleaned<K>(p: Phase<K>, key: K): Phase<K>
  {
    match p
    case Unwinding(left, leaked) => Unwinding(left, leaked - {key})
    case Failed(leaked) => Failed(leaked - {key})
    case _ => p
  }

  function Run<K(==)>(s: State<K>, steps: seq<Step<K>>): State<K>
    decreases |steps|
  {
    if steps == [] then s else Run(Next(s, steps[0]), steps[1..])
  }

  function Owned<K(==)>(s: State<K>, id: nat): set<K>
  {
    set k | k in s.owner && s.owner[k] == Some(id)
  }

  // What a worker has in the store, by its own account.
  predicate Accounts<K(==)>(owned: set<K>, w: Worker<K>)
  {
    match w.phase
    case Starting => owned == {}
    case Creating(done) => done <= |w.keys| && Distinct(w.keys[..done]) && owned == Elems(w.keys[..done])
    case Unwinding(left, leaked) => Distinct(left) && owned == Elems(left) + leaked && Elems(left) !! leaked
    case Succeeded => Distinct(w.keys) && owned == Elems(w.keys)
    case Failed(leaked) => owned == leaked
  }

  ghost predicate Consistent<K>(s: State<K>)
  {
    && (forall id | id in s.workers :: Accounts(Owned(s, id), s.workers[id]))
    && (forall id: nat :: id !in s.workers ==> Owned(s, id) == {})
  }

  // An object no command counts on: nobody's here, or a leftover.
  predicate Loose<K(==)>(s: State<K>, key: K)
  {
    key in s.owner && s.owner[key].Some? ==>
      var id := s.owner[key].value;
      id in s.workers
      && (s.workers[id].phase.Unwinding? || s.workers[id].phase.Failed?) && key in s.workers[id].phase.leaked
  }

  predicate AllLoose<K(==)>(s: State<K>, steps: seq<Step<K>>)
    decreases |steps|
  {
    steps == [] || ((steps[0].Remove? ==> Loose(s, steps[0].key)) && AllLoose(Next(s, steps[0]), steps[1..]))
  }

  /** A command starts creating exactly when its list is not empty and, if it checks
      first, none of the objects is there. */
  lemma StartsExactly<K>(s: State<K>, id: nat)
    requires id in s.workers && s.workers[id].phase.Starting?
    ensures Next(s, Check(id)).workers[id].phase ==
            if s.workers[id].keys != []
               && (s.workers[id].checks ==> forall i | 0 <= i < |s.workers[id].keys| :: s.workers[id].keys[i] !in s.owner)
            then Creating(0) else Failed({})
    ensures Next(s, Check(id)).owner == s.owner
  {
    var keys := s.workers[id].keys;
    if forall i | 0 <= i < |keys| :: keys[i] !in s.owner {
      assert forall k | k in keys :: k !in s.owner;
    }
  }

  lemma OthersUntouched<K>(s: State<K>, t: State<K>, id: nat)
    requires Consistent(s) && id in s.workers && t.workers.Keys == s.workers.Keys
    requires forall other | other in s.workers && other != id :: t.workers[other] == s.workers[other]
    requires forall other: nat :: other != id ==> Owned(t, other) == Owned(s, other)
    requires Accounts(Owned(t, id), t.workers[id])
    ensures Consistent(t)
  {
  }

  lemma CreateConsistent<K>(s: State<K>, id: nat, fault: bool)
    requires Consistent(s) && id in s.workers && s.workers[id].phase.Creating?
    ensures Consistent(Next(s, Create(id, fault)))
  {
    var t := Next(s, Create(id, fault));
    var w, i := s.workers[id], s.workers[id].phase.done;
    assert Accounts(Owned(s, id), w);
    if i >= |w.keys| {
      assert w.keys[..i] == w.keys;
      assert Owned(t, id) == Owned(s, id);
    } else if fault || w.keys[i] in s.owner {
      assert Owned(t, id) == Owned(s, id);
    } else {
      var key := w.keys[i];
      assert w.keys[..i + 1] == w.keys[..i] + [key];
      assert Owned(t, id) == Owned(s, id) + {key};
      assert key !in Owned(s, id);
      assert key !in Elems(w.keys[..i]);
      assert Elems(w.keys[..i + 1]) == Elems(w.keys[..i]) + {key};
      forall other: nat | other != id ensures Owned(t, other) == Owned(s, other) {
      }
    }
    OthersUntouched(s, t, id);
  }

  lemma UnwindConsistent<K>(s: State<K>, id: nat, fault: bool)
    requires Consistent(s) && id in s.workers && s.workers[id].phase.Unwinding?
    ensures Consistent(Next(s, Unwind(id, fault)))
  {
    var t := Next(s, Unwind(id, fault));
    var p := s.workers[id].phase;
    assert Accounts(Owned(s, id), s.workers[id]);
    if p.left != [] {
      var key := p.left[0];
      assert p.left == [key] + p.left[1..];
      assert Elems(p.left) == {key} + Elems(p.left[1..]);
      assert key !in Elems(p.left[1..]);
      assert key in Owned(s, id);
      if fault {
        assert Owned(t, id) == Owned(s, id);
      } else {
        assert Owned(t, id) == Owned(s, id) - {key};
      }
    } else {
      assert Owned(t, id) == Owned(s, id);
    }
    OthersUntouched(s, t, id);
  }

  lemma RemovedAccount<K>(owned: set<K>, w: Worker<K>, key: K)
    requires Accounts(owned, w)
    requires key in owned ==> (w.phase.Unwinding? || w.phase.Failed?) && key in w.phase.leaked
    ensures Accounts(owned - {key}, w.(phase := Cleaned(w.phase, key)))
  {
    if key !in owned {
      assert owned - {key} == owned;
    }
  }

  lemma LostAccount<K>(owned: set<K>, w: Worker<K>, key: K)
    requires Accounts(owned, w) && key in owned
    requires !((w.phase.Unwinding? || w.phase.Failed?) && key in w.phase.leaked)
    ensures !Accounts(owned - {key}, w.(phase := Cleaned(w.phase, key)))
  {
    assert key !in owned - {key};
  }

  /** A delete by somebody else keeps the accounts exact exactly when no command
      counts on the object: it belongs to none of them, or is a leftover. */
  lemma RemoveKeepsExactly<K>(s: State<K>, key: K)
    requires Consistent(s)
    ensures Consistent(Next(s, Remove(key))) <==> Loose(s, key)
  {
    var t := Next(s, Remove(key));
    forall id: nat ensures Owned(t, id) == Owned(s, id) - {key} {
    }
    if Loose(s, key) {
      forall id | id in t.workers ensures Accounts(Owned(t, id), t.workers[id]) {
        assert Accounts(Owned(s, id), s.workers[id]);
        RemovedAccount(Owned(s, id), s.workers[id], key);
      }
    } else {
      var id := s.owner[key].value;
      assert key in Owned(s, id);
      if id in s.workers {
        assert Accounts(Owned(s, id), s.workers[id]);
        LostAccount(Owned(s, id), s.workers[id], key);
        assert !Accounts(Owned(t, id), t.workers[id]);
      }
    }
  }

  lemma StepConsistent<K>(s: State<K>, step: Step<K>)
    requires Consistent(s) && (step.Remove? ==> Loose(s, step.key))
    ensures Consistent(Next(s, step))
  {
    match step
    case Create(id, fault) =>
      if id in s.workers && s.workers[id].phase.Creating? {
        CreateConsistent(s, id, fault);
      }
    case Unwind(id, fault) =>
      if id in s.workers && s.workers[id].phase.Unwinding? {
        UnwindConsistent(s, id, fault);
      }
    case Check(id) =>
      if id in s.workers && s.workers[id].phase.Starting? {
        var t := Next(s, step);
        assert Accounts(Owned(s, id), s.workers[id]);
        assert Owned(t, id) == Owned(s, id);
        assert s.workers[id].keys[..0] == [];
        OthersUntouched(s, t, id);
      }
    case Begin(id, keys, checks) =>
      var t := Next(s, step);
      forall other: nat ensures Owned(t, other) == Owned(s, other) {
      }
    case Foreign(key) =>
      var t := Next(s, step);
      forall other: nat ensures Owned(t, other) == Owned(s, other) {
      }
    case Remove(key) => RemoveKeepsExactly(s, key);
  }

  /** Every interleaving keeps each worker's account of its own objects exact. */
  lemma {:induction false} AccountsStayExact<K>(s: State<K>, steps: seq<Step<K>>)
    requires Consistent(s) && AllLoose(s, steps)
    ensures Consistent(Run(s, steps))
    decreases |steps|
  {
    if steps != [] {
      StepConsistent(s, steps[0]);
      AccountsStayExact(Next(s, steps[0]), steps[1..]);
    }
  }

  /** An unwinding command deletes only objects it created itself. */
  lemma UnwindTakesOnlyItsOwn<K>(s: State<K>, id: nat, fault: bool, key: K)
    requires Consistent(s) && key in s.owner && s.owner[key] != Some(id)
    ensures var t := Next(s, Unwind(id, fault)); key in t.owner && t.owner[key] == s.owner[key]
  {
    if id in s.workers && s.workers[id].phase.Unwinding? {
      assert Accounts(Owned(s, id), s.workers[id]);
      var left := s.workers[id].phase.left;
      if left != [] {
        assert left[0] in Elems(left);
        assert left[0] in Owned(s, id);
      }
    }
  }

  lemma SucceededOwns<K>(t: State<K>, id: nat, key: K)
    requires Consistent(t) && id in t.workers && t.workers[id].phase.Succeeded? && key in t.workers[id].keys
    ensures key in t.owner && t.owner[key] == Some(id)
  {
    assert Accounts(Owned(t, id), t.workers[id]);
    assert key in Owned(t, id);
  }

  predicate Won<K(==)>(t: State<K>, id: nat, key: K)
  {
    id in t.workers && key in t.workers[id].keys && t.workers[id].phase.Succeeded?
  }

  /** Of all the commands that share a key at most one ever succeeds. */
  lemma AtMostOneSucceeds<K>(s: State<K>, steps: seq<Step<K>>, a: nat, b: nat, key: K)
    requires Consistent(s) && AllLoose(s, steps) && a != b
    ensures !(Won(Run(s, steps), a, key) && Won(Run(s, steps), b, key))
  {
    AccountsStayExact(s, steps);
    var t := Run(s, steps);
    if Won(t, a, key) {
      SucceededOwns(t, a, key);
    }
    if Won(t, b, key) {
      SucceededOwns(t, b, key);
    }
  }

  /** A finished command leaves all of its objects, as many as it has keys, or
      only those whose delete failed; none when every delete succeeded. */
  lemma AllOrNothing<K>(s: State<K>, steps: seq<Step<K>>, id: nat)
    requires Consistent(s) && AllLoose(s, steps)
    ensures var t := Run(s, steps);
            id in t.workers ==>
              (t.workers[id].phase.Succeeded? ==> Owned(t, id) == Elems(t.workers[id].keys) && |Owned(t, id)| == |t.workers[id].keys|)
              && (t.workers[id].phase.Failed? ==> Owned(t, id) == t.workers[id].phase.leaked)
  {
    AccountsStayExact(s, steps);
    var t := Run(s, steps);
    if id in t.workers {
      assert Accounts(Owned(t, id), t.workers[id]);
      if t.workers[id].phase.Succeeded? {
        ListSize(t.workers[id].keys, Owned(t, id));
      }
    }
  }

  // A delete that is not harmless

  function UnwindAll<K(==)>(s: State<K>, id: nat, n: nat): State<K>
    decreases n
  {
    if n == 0 then s else UnwindAll(Next(s, Unwind(id, false)), id, n - 1)
  }

  lemma {:induction false} UnwindAllDeletes<K>(s: State<K>, id: nat)
    requires id in s.workers && s.workers[id].phase.Unwinding?
    ensures UnwindAll(s, id, |s.workers[id].phase.left|).owner == s.owner - Elems(s.workers[id].phase.left)
    decreases |s.workers[id].phase.left|
  {
    var left := s.workers[id].phase.left;
    if left == [] {
      assert s.owner - Elems(left) == s.owner;
    } else {
      UnwindAllDeletes(Next(s, Unwind(id, false)), id);
      assert left == [left[0]] + left[1..];
      assert Elems(left) == {left[0]} + Elems(left[1..]);
      assert s.owner - {left[0]} - Elems(left[1..]) == s.owner - Elems(left);
    }
  }

  /** An object that somebody deletes and creates anew while a command unwinds
      survives the unwind exactly when the command had not got it left to delete. */
  lemma RecreatedSurvivesExactly<K>(s: State<K>, id: nat, key: K)
    requires Consistent(s) && id in s.workers && s.workers[id].phase.Unwinding?
    ensures var t := Next(Next(s, Remove(key)), Foreign(key));
            id in t.workers && t.workers[id].phase.Unwinding? && t.workers[id].phase.left == s.workers[id].phase.left
            && (key in UnwindAll(t, id, |t.workers[id].phase.left|).owner <==> key !in s.workers[id].phase.left)
  {
    var t := Next(Next(s, Remove(key)), Foreign(key));
    assert t.workers[id].phase.left == s.workers[id].phase.left;
    UnwindAllDeletes(t, id);
  }

  // Who loses where

  // The keys a command has in the store, read off its phase.
  predicate Holds<K(==)>(w: Worker<K>, key: K)
  {
    match w.phase
    case Starting => false
    case Creating(done) => done <= |w.keys| && key in w.keys[..done]
    case Unwinding(left, leaked) => key in left || key in leaked
    case Succeeded => key in w.keys
    case Failed(leaked) => key in leaked
  }

  lemma HoldsOwned<K>(s: State<K>, id: nat, key: K)
    requires Consistent(s) && id in s.workers
    ensures key in Owned(s, id) <==> Holds(s.workers[id], key)
  {
    assert Accounts(Owned(s, id), s.workers[id]);
  }

  /** A create fails exactly when the store refuses it, the object was there all
      along, the list names it twice, or another command holds it at that moment. */
  lemma LosesExactly<K>(s: State<K>, b: nat, fault: bool)
    requires Consistent(s) && b in s.workers && s.workers[b].phase.Creating? && s.workers[b].phase.done < |s.workers[b].keys|
    ensures var keys, i := s.workers[b].keys, s.workers[b].phase.done;
            Next(s, Create(b, fault)).workers[b].phase.Unwinding?
            <==> fault || (keys[i] in s.owner && s.owner[keys[i]] == None) || keys[i] in keys[..i]
                 || exists a :: a in s.workers && a != b && Holds(s.workers[a], keys[i])
  {
    var keys, i := s.workers[b].keys, s.workers[b].phase.done;
    HoldsOwned(s, b, keys[i]);
    forall a | a in s.workers ensures keys[i] in Owned(s, a) <==> Holds(s.workers[a], keys[i]) {
      HoldsOwned(s, a, keys[i]);
    }
    if keys[i] in s.owner && s.owner[keys[i]].Some? {
      var a := s.owner[keys[i]].value;
      assert keys[i] in Owned(s, a);
      assert a in s.workers;
    }
  }

  // A command still creating, or done, holds its first key if it holds any.
  lemma HoldsFirst<K>(w: Worker<K>, key: K)
    ensures (w.phase.Creating? || w.phase.Succeeded?) && Holds(w, key) ==> w.keys != [] && Holds(w, w.keys[0])
  {
    assert w.phase.Creating? && 0 < w.phase.done <= |w.keys| ==> w.keys[..w.phase.done][0] == w.keys[0];
  }

  /** Of two commands over one list, one that is past its first create loses to the
      other exactly while that one is unwinding the object, or could not delete it. */
  lemma LateLossExactly<K>(s: State<K>, a: nat, b: nat, i: nat)
    requires Consistent(s) && a in s.workers && b in s.workers && a != b && s.workers[a].keys == s.workers[b].keys
    requires s.workers[b].phase == Creating(i) && 0 < i < |s.workers[b].keys|
    ensures var key, p := s.workers[b].keys[i], s.workers[a].phase;
            Holds(s.workers[a], key)
            <==> (p.Unwinding? && (key in p.left || key in p.leaked)) || (p.Failed? && key in p.leaked)
  {
    var keys := s.workers[b].keys;
    HoldsOwned(s, b, keys[0]);
    HoldsOwned(s, a, keys[0]);
    assert keys[..i][0] == keys[0];
    assert keys[0] !in Owned(s, a);
    HoldsFirst(s.workers[a], keys[i]);
  }

  // Two restores of the volumes 0, 1, 2, both past their check.
  function TwoRestores(): State<int>
  {
    State(map[], map[1 := Worker([0, 1, 2], true, Creating(0)), 2 := Worker([0, 1, 2], true, Creating(0))])
  }

  /** That does happen: the first fails on its last volume and has unwound
      only its first one when the second creates that and fails on the next. */
  lemma LoserCanFailLate()
    ensures Consistent(TwoRestores())
    ensures var t := Run(TwoRestores(), [Create(1, false), Create(1, false), Create(1, true), Unwind(1, false)]);
            Next(Next(t, Create(2, false)), Create(2, false)).workers[2].phase == Unwinding([0], {})
  {
    var s := TwoRestores();
    assert [0, 1, 2][..0] == [];
    forall id: nat ensures Owned(s, id) == {} {
    }
    var steps := [Create(1, false), Create(1, false), Create(1, true), Unwind(1, false)];
    var s1 := Next(s, steps[0]);
    var s2 := Next(s1, steps[1]);
    var s3 := Next(s2, steps[2]);
    var s4 := Next(s3, steps[3]);
    assert s1.workers[1].phase == Creating(1) && s1.owner == map[0 := Some(1)];
    assert s2.workers[1].phase == Creating(2) && s2.owner == map[0 := Some(1), 1 := Some(1)];
    assert s3.workers[1].phase == Unwinding([0, 1, 2][..2], {}) && s3.owner == s2.owner;
    assert s4.owner == map[1 := Some(1)] && s4.workers[2] == s.workers[2];
    assert steps[1..][1..][1..][1..] == [];
    assert Run(s, steps) == Run(s1, steps[1..]) == Run(s2, steps[1..][1..]) == Run(s3, steps[1..][1..][1..])
           == Run(s4, steps[1..][1..][1..][1..]) == s4;
    var s5 := Next(s4, Create(2, false));
    assert s5.workers[2].phase == Creating(1) && 1 in s5.owner;
    assert [0, 1, 2][..1] == [0];
  }

  // One restore past its check, another not begun, both of volume 0.
  function OneAfterAnother(): State<int>
  {
    State(map[], map[1 := Worker([0], true, Creating(0)), 2 := Worker([0], true, Starting)])
  }

  // The first has succeeded.
  function FirstDone(): State<int>
  {
    State(map[0 := Some(1)], map[1 := Worker([0], true, Succeeded), 2 := Worker([0], true, Starting)])
  }

  lemma FirstSucceeds()
    ensures Consistent(OneAfterAnother())
    ensures Next(Next(OneAfterAnother(), Create(1, false)), Create(1, false)) == FirstDone()
  {
    var s := OneAfterAnother();
    assert [0][..0] == [];
    forall id: nat ensures Owned(s, id) == {} {
    }
    var s1 := Next(s, Create(1, false));
    assert s1.owner == map[0 := Some(1)] && s1.workers[1].phase == Creating(1);
    assert Next(s1, Create(1, false)).workers == FirstDone().workers;
  }

  /** Two commands over one key can both succeed when somebody deletes what the first
      one made before the second begins. */
  lemma DeletedBetweenBothSucceed()
    ensures Consistent(OneAfterAnother())
    ensures var t := Next(Next(OneAfterAnother(), Create(1, false)), Create(1, false));
            var u := Next(Next(Next(Next(t, Remove(0)), Check(2)), Create(2, false)), Create(2, false));
            !Loose(t, 0) && Won(t, 1, 0) && Won(u, 1, 0) && Won(u, 2, 0)
  {
    FirstSucceeds();
    var t := FirstDone();
    var t1 := Next(t, Remove(0));
    assert t1.owner == map[] && t1.workers == t.workers;
    var t2 := Next(t1, Check(2));
    assert t2.owner == map[] && t2.workers[2].phase == Creating(0);
    var t3 := Next(t2, Create(2, false));
    assert t3.workers[2].phase == Creating(1);
  }

  // One command on its own

  function Claims<K(==)>(keys: seq<K>, id: nat): map<K, Option<nat>>
  {
    map k | k in keys :: Some(id)
  }

  lemma ClaimsTail<K>(before: map<K, Option<nat>>, keys: seq<K>, id: nat)
    requires keys != [] && keys[0] !in before && keys[0] !in keys[1..]
    ensures before + Claims(keys, id) - {keys[0]} == before + Claims(keys[1..], id)
  {
    assert forall k :: k in keys <==> k == keys[0] || k in keys[1..];
  }

  lemma ClaimsSnoc<K>(before: map<K, Option<nat>>, keys: seq<K>, key: K, id: nat)
    ensures (before + Claims(keys, id))[key := Some(id)] == before + Claims(keys + [key], id)
  {
  }

  // The first n creates go through: no fault, nothing there, no key twice.
  predicate Clear<K(==)>(keys: seq<K>, faults: seq<bool>, n: nat, before: map<K, Option<nat>>)
    requires n <= |keys| == |faults|
  {
    Distinct(keys[..n]) && forall i | 0 <= i < n :: keys[i] !in before && !faults[i]
  }

  lemma NotClear<K>(keys: seq<K>, faults: seq<bool>, i: nat, before: map<K, Option<nat>>)
    requires i < |keys| == |faults| && (faults[i] || keys[i] in before || keys[i] in keys[..i])
    ensures !Clear(keys, faults, |keys|, before)
  {
    assert keys[..|keys|] == keys;
  }

  class Store<K(==)> {
    var owner: map<K, Option<nat>>

    /** Create every key in order; on the first failure delete what was added. */
    method CreateAll(id: nat, keys: seq<K>, faults: seq<bool>) returns (ok: bool)
      requires |faults| == |keys|
      modifies this
      ensures ok <==> Clear(keys, faults, |keys|, old(owner))
      ensures owner == if ok then old(owner) + Claims(keys, id) else old(owner)
    {
      ghost var before := owner;
      var added: seq<K> := [];
      assert before + Claims([], id) == before;
      for i := 0 to |keys|
        invariant added == keys[..i] && Clear(keys, faults, i, before)
        invariant owner == before + Claims(added, id)
      {
        if faults[i] || keys[i] in owner {
          NotClear(keys, faults, i, before);
          Unwind(added, before, id);
          return false;
        }
        ClaimsSnoc(before, added, keys[i], id);
        owner := owner[keys[i] := Some(id)];
        added := added + [keys[i]];
      }
      assert keys[..|keys|] == keys;
      return true;
    }

    /** Delete what a failed command had added. */
    method Unwind(added: seq<K>, ghost before: map<K, Option<nat>>, ghost id: nat)
      requires Distinct(added) && forall j | 0 <= j < |added| :: added[j] !in before
      requires owner == before + Claims(added, id)
      modifies this
      ensures owner == before
    {
      assert added[0..] == added;
      for i := 0 to |added|
        invariant owner == before + Claims(added[i..], id)
      {
        assert added[i..][0] == added[i] && added[i..][1..] == added[i + 1..];
        ClaimsTail(before, added[i..], id);
        owner := owner - {added[i]};
      }
      assert before + Claims([], id) == before;
    }
  }
}
