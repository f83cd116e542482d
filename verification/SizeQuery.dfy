/**
 The largest volume a resource group can place: one pool per node, the widest
 first, bounded by the tightest pool of a full replica set.
 */
module SizeQuery {
  import opened Names

  datatype Pool = Pool(node: string, name: string, diskless: bool, missing: bool, free: int)

  predicate Eligible(p: Pool, filter: seq<string>)
  {
    !p.diskless && !p.missing && (filter == [] || p.name in filter)
  }

  // The index of the first eligible pool of its node.
  predicate IsFirst(all: seq<Pool>, filter: seq<string>, i: nat)
    requires i < |all|
  {
    Eligible(all[i], filter) && forall j | 0 <= j < i :: Eligible(all[j], filter) ==> all[j].node != all[i].node
  }

  function Chosen(all: seq<Pool>, filter: seq<string>): set<Pool>
  {
    set i | 0 <= i < |all| && IsFirst(all, filter, i) :: all[i]
  }

  predicate NodesDistinct(pools: seq<Pool>)
  {
    forall i, j | 0 <= i < j < |pools| :: pools[i].node != pools[j].node
  }

  predicate WidestFirst(pools: seq<Pool>)
  {
    forall i, j | 0 <= i < j < |pools| :: pools[i].free >= pools[j].free
  }

  // Nodes among a set of pools that can hold a volume of a given size.
  function CanHold(pools: set<Pool>, size: int): set<string>
  {
    set p | p in pools && p.free >= size :: p.node
  }

  function EligiblePools(all: seq<Pool>, filter: seq<string>): set<Pool>
  {
    set i | 0 <= i < |all| && Eligible(all[i], filter) :: all[i]
  }

  function Replicas(placeCount: int): nat
  {
    if placeCount <= 0 then 1 else placeCount
  }

  function MaxVolumeSize(pools: seq<Pool>, placeCount: int): int
  {
    var k := Replicas(placeCount);
    if |pools| < k || pools[k - 1].free < 0 then 0 else pools[k - 1].free
  }

  // Order statistics

  /** No diskless, missing or filtered-out pool is ever kept, and of each node with any
      other the first listed is. */
  lemma KeptExactly(all: seq<Pool>, filter: seq<string>, p: Pool)
    ensures p in Chosen(all, filter) <==>
            exists i :: 0 <= i < |all| && all[i] == p
                        && !p.diskless && !p.missing && (filter == [] || p.name in filter)
                        && forall j | 0 <= j < i :: all[j].node == p.node ==>
                             all[j].diskless || all[j].missing || (filter != [] && all[j].name !in filter)
  {
    if p in Chosen(all, filter) {
      var i :| 0 <= i < |all| && IsFirst(all, filter, i) && all[i] == p;
      forall j | 0 <= j < i && all[j].node == p.node
        ensures all[j].diskless || all[j].missing || (filter != [] && all[j].name !in filter)
      {
        assert !Eligible(all[j], filter);
      }
    }
    if exists i :: 0 <= i < |all| && all[i] == p
                   && !p.diskless && !p.missing && (filter == [] || p.name in filter)
                   && forall j | 0 <= j < i :: all[j].node == p.node ==>
                        all[j].diskless || all[j].missing || (filter != [] && all[j].name !in filter)
    {
      var i :| 0 <= i < |all| && all[i] == p
               && !p.diskless && !p.missing && (filter == [] || p.name in filter)
               && forall j | 0 <= j < i :: all[j].node == p.node ==>
                    all[j].diskless || all[j].missing || (filter != [] && all[j].name !in filter);
      assert IsFirst(all, filter, i);
    }
  }

  lemma {:induction false} NodeCount(pools: seq<Pool>)
    requires NodesDistinct(pools)
    ensures |set i | 0 <= i < |pools| :: pools[i].node| == |pools|
    decreases |pools|
  {
    var nodes := set i | 0 <= i < |pools| :: pools[i].node;
    if pools != [] {
      var init := pools[..|pools| - 1];
      var last := pools[|pools| - 1];
      var rest := set i | 0 <= i < |init| :: init[i].node;
      NodeCount(init);
      assert forall i | 0 <= i < |init| :: init[i] == pools[i];
      assert nodes == rest + {last.node};
      assert last.node !in rest;
    } else {
      assert nodes == {};
    }
  }

  /** In a list with one pool per node, widest first, the k-th entry is the k-th
      largest: k nodes hold that much, and fewer than k hold any more. */
  lemma KthLargest(pools: seq<Pool>, k: nat)
    requires NodesDistinct(pools) && WidestFirst(pools) && 1 <= k <= |pools|
    ensures var v := pools[k - 1].free;
            |CanHold(Elems(pools), v)| >= k && forall w :: w > v ==> |CanHold(Elems(pools), w)| < k
  {
    var v := pools[k - 1].free;
    var head := pools[..k];
    var nodes := set i | 0 <= i < |head| :: head[i].node;
    NodeCount(head);
    forall n | n in nodes ensures n in CanHold(Elems(pools), v) {
      var i :| 0 <= i < k && head[i].node == n;
      assert pools[i] in Elems(pools) && pools[i].free >= v;
    }
    SubsetSize(nodes, CanHold(Elems(pools), v));
    forall w | w > v ensures |CanHold(Elems(pools), w)| < k {
      var shorter := pools[..k - 1];
      var above := set i | 0 <= i < |shorter| :: shorter[i].node;
      NodeCount(shorter);
      forall n | n in CanHold(Elems(pools), w) ensures n in above {
        var p :| p in Elems(pools) && p.free >= w && p.node == n;
        var i :| 0 <= i < |pools| && pools[i] == p;
        assert i < k - 1;
        assert shorter[i] == p;
      }
      SubsetSize(CanHold(Elems(pools), w), above);
    }
  }

  lemma WiderHoldsMore(a: set<Pool>, b: set<Pool>, size: int)
    requires forall p | p in a :: exists q :: q in b && q.node == p.node && q.free >= p.free
    ensures CanHold(a, size) <= CanHold(b, size)
  {
    forall n | n in CanHold(a, size) ensures n in CanHold(b, size) {
      var p :| p in a && p.free >= size && p.node == n;
      var q :| q in b && q.node == p.node && q.free >= p.free;
    }
  }

  lemma ChosenAreEligible(all: seq<Pool>, filter: seq<string>, size: int)
    ensures Chosen(all, filter) <= EligiblePools(all, filter)
    ensures CanHold(Chosen(all, filter), size) <= CanHold(EligiblePools(all, filter), size)
  {
    assert Chosen(all, filter) <= EligiblePools(all, filter);
  }

  // One eligible pool for every node that has any.
  predicate Selection(all: seq<Pool>, filter: seq<string>, c: set<Pool>)
  {
    && c <= EligiblePools(all, filter)
    && (forall p, q | p in c && q in c :: p.node == q.node ==> p == q)
    && (forall p | p in EligiblePools(all, filter) :: exists q :: q in c && q.node == p.node)
  }

  predicate IsCandidateList(all: seq<Pool>, filter: seq<string>, pools: seq<Pool>)
  {
    NodesDistinct(pools) && WidestFirst(pools) && Elems(pools) == Chosen(all, filter)
  }

  // The largest size that k nodes can each hold, or zero when no positive size is.
  ghost predicate IsBound(pools: set<Pool>, k: nat, size: int)
  {
    && size >= 0
    && (size > 0 ==> |CanHold(pools, size)| >= k)
    && forall w :: w > size ==> |CanHold(pools, w)| < k
  }

  lemma BoundMonotone(a: set<Pool>, b: set<Pool>, k: nat, m: int, n: int)
    requires IsBound(a, k, m) && IsBound(b, k, n)
    requires CanHold(a, m) <= CanHold(b, m)
    ensures m <= n
  {
    SubsetSize(CanHold(a, m), CanHold(b, m));
  }

  lemma FewNodesHoldNothing(pools: seq<Pool>, k: nat, w: int)
    requires NodesDistinct(pools) && |pools| < k
    ensures |CanHold(Elems(pools), w)| < k
  {
    var nodes := set i | 0 <= i < |pools| :: pools[i].node;
    NodeCount(pools);
    forall n | n in CanHold(Elems(pools), w) ensures n in nodes {
      var p :| p in Elems(pools) && p.free >= w && p.node == n;
      var i :| 0 <= i < |pools| && pools[i] == p;
    }
    SubsetSize(CanHold(Elems(pools), w), nodes);
  }

  /** The entry read off the sorted list is the bound of the kept pools. */
  lemma AnswerIsBound(all: seq<Pool>, filter: seq<string>, pools: seq<Pool>, placeCount: int)
    requires IsCandidateList(all, filter, pools)
    ensures IsBound(Chosen(all, filter), if placeCount > 0 then placeCount else 1, MaxVolumeSize(pools, placeCount))
  {
    var k := Replicas(placeCount);
    if |pools| < k {
      forall w | w > 0 ensures |CanHold(Chosen(all, filter), w)| < k {
        FewNodesHoldNothing(pools, k, w);
      }
    } else {
      KthLargest(pools, k);
    }
  }

  /** A positive answer fits: enough distinct nodes each have an eligible pool with
      room for it. */
  lemma AnswerFits(all: seq<Pool>, filter: seq<string>, k: nat, m: int)
    requires IsBound(Chosen(all, filter), k, m) && m > 0
    ensures |CanHold(EligiblePools(all, filter), m)| >= k
  {
    ChosenAreEligible(all, filter, m);
    SubsetSize(CanHold(Chosen(all, filter), m), CanHold(EligiblePools(all, filter), m));
  }

  lemma EveryNodeKept(all: seq<Pool>, filter: seq<string>, i: nat)
    requires i < |all| && Eligible(all[i], filter)
    ensures exists p :: p in Chosen(all, filter) && p.node == all[i].node
  {
    if IsFirst(all, filter, i) {
      assert all[i] in Chosen(all, filter);
    } else {
      var j :| 0 <= j < i && Eligible(all[j], filter) && all[j].node == all[i].node;
      EveryNodeKept(all, filter, j);
    }
  }

  /** The kept pools are one of the selections the query could have made. */
  lemma ChosenIsSelection(all: seq<Pool>, filter: seq<string>)
    ensures Selection(all, filter, Chosen(all, filter))
  {
    ChosenAreEligible(all, filter, 0);
    forall p | p in EligiblePools(all, filter) ensures exists q :: q in Chosen(all, filter) && q.node == p.node {
      var i :| 0 <= i < |all| && Eligible(all[i], filter) && all[i] == p;
      EveryNodeKept(all, filter, i);
    }
  }

  /** No selection that is at least as wide on every node has a smaller bound. */
  lemma WiderSelectionNoWorse(all: seq<Pool>, filter: seq<string>, c: set<Pool>, k: nat, m: int, n: int)
    requires Selection(all, filter, c)
    requires forall p, q | p in Chosen(all, filter) && q in c && p.node == q.node :: q.free >= p.free
    requires IsBound(Chosen(all, filter), k, m) && IsBound(c, k, n)
    ensures m <= n
  {
    forall p | p in Chosen(all, filter) ensures exists q :: q in c && q.node == p.node && q.free >= p.free {
      assert p in EligiblePools(all, filter);
      var q :| q in c && q.node == p.node;
    }
    WiderHoldsMore(Chosen(all, filter), c, m);
    BoundMonotone(Chosen(all, filter), c, k, m, n);
  }

  // Every kept pool is the widest eligible one of its node.
  predicate KeptAreWidest(all: seq<Pool>, filter: seq<string>)
  {
    forall p, q | p in Chosen(all, filter) && q in EligiblePools(all, filter) && p.node == q.node :: q.free <= p.free
  }

  /** If so, the answer is the best bound any selection of pools can reach. */
  lemma WidestKeptIsBest(all: seq<Pool>, filter: seq<string>, c: set<Pool>, k: nat, m: int, n: int)
    requires KeptAreWidest(all, filter) && Selection(all, filter, c)
    requires IsBound(Chosen(all, filter), k, m) && IsBound(c, k, n)
    ensures n <= m
  {
    forall q | q in c
      ensures exists p :: p in Chosen(all, filter) && p.node == q.node && p.free >= q.free
    {
      var i :| 0 <= i < |all| && Eligible(all[i], filter) && all[i] == q;
      EveryNodeKept(all, filter, i);
    }
    WiderHoldsMore(c, Chosen(all, filter), n);
    BoundMonotone(c, Chosen(all, filter), k, n, m);
  }

  /** The answer never exceeds what the eligible pools allow, and reaches it exactly
      when for no size the kept pools reach too few nodes and the eligible ones
      enough. */
  lemma AnswerIsBestExactly(all: seq<Pool>, filter: seq<string>, k: nat, m: int, best: int)
    requires IsBound(Chosen(all, filter), k, m) && IsBound(EligiblePools(all, filter), k, best)
    ensures m <= best
    ensures m == best <==>
            !exists w :: w >= 1 && |CanHold(Chosen(all, filter), w)| < k <= |CanHold(EligiblePools(all, filter), w)|
  {
    ChosenAreEligible(all, filter, m);
    BoundMonotone(Chosen(all, filter), EligiblePools(all, filter), k, m, best);
    if m < best {
      assert |CanHold(Chosen(all, filter), best)| < k <= |CanHold(EligiblePools(all, filter), best)|;
    } else {
      forall w | w >= 1 && |CanHold(Chosen(all, filter), w)| < k ensures |CanHold(EligiblePools(all, filter), w)| < k {
        if w <= m {
          assert CanHold(Chosen(all, filter), m) <= CanHold(Chosen(all, filter), w);
          SubsetSize(CanHold(Chosen(all, filter), m), CanHold(Chosen(all, filter), w));
        }
      }
    }
  }

  // The widest eligible pool of its node; the first listed among equals.
  predicate IsWidest(all: seq<Pool>, filter: seq<string>, i: nat)
    requires i < |all|
  {
    Eligible(all[i], filter)
    && forall j | 0 <= j < |all| && Eligible(all[j], filter) && all[j].node == all[i].node ::
         all[j].free < all[i].free || (all[j].free == all[i].free && i <= j)
  }

  function Widest(all: seq<Pool>, filter: seq<string>): set<Pool>
  {
    set i | 0 <= i < |all| && IsWidest(all, filter, i) :: all[i]
  }

  // How many pools would be preferred to the i-th.
  function Preferred(all: seq<Pool>, filter: seq<string>, i: nat): set<nat>
    requires i < |all|
  {
    set j: nat | 0 <= j < |all| && Eligible(all[j], filter) && all[j].node == all[i].node
                 && (all[j].free > all[i].free || (all[j].free == all[i].free && j < i))
  }

  lemma {:induction false} WidestFound(all: seq<Pool>, filter: seq<string>, i: nat) returns (w: nat)
    requires i < |all| && Eligible(all[i], filter)
    ensures w < |all| && IsWidest(all, filter, w) && all[w].node == all[i].node && all[w].free >= all[i].free
    decreases Preferred(all, filter, i)
  {
    if Preferred(all, filter, i) == {} {
      forall j | 0 <= j < |all| && Eligible(all[j], filter) && all[j].node == all[i].node
        ensures all[j].free < all[i].free || (all[j].free == all[i].free && i <= j)
      {
        assert j !in Preferred(all, filter, i);
      }
      w := i;
    } else {
      var j :| j in Preferred(all, filter, i);
      assert Preferred(all, filter, j) < Preferred(all, filter, i) by {
        assert j !in Preferred(all, filter, j);
      }
      w := WidestFound(all, filter, j);
    }
  }

  lemma WidestUnique(all: seq<Pool>, filter: seq<string>, p: Pool, q: Pool)
    requires p in Widest(all, filter) && q in Widest(all, filter) && p.node == q.node
    ensures p == q
  {
    var i :| 0 <= i < |all| && IsWidest(all, filter, i) && all[i] == p;
    var j :| 0 <= j < |all| && IsWidest(all, filter, j) && all[j] == q;
    assert i <= j && j <= i;
  }

  lemma WidestCovers(all: seq<Pool>, filter: seq<string>, p: Pool)
    requires p in EligiblePools(all, filter)
    ensures exists q :: q in Widest(all, filter) && q.node == p.node && q.free >= p.free
  {
    var i :| 0 <= i < |all| && Eligible(all[i], filter) && all[i] == p;
    var w := WidestFound(all, filter, i);
    assert all[w] in Widest(all, filter);
  }

  lemma WidestIsSelection(all: seq<Pool>, filter: seq<string>)
    ensures Selection(all, filter, Widest(all, filter))
  {
    forall p, q | p in Widest(all, filter) && q in Widest(all, filter) && p.node == q.node ensures p == q {
      WidestUnique(all, filter, p, q);
    }
    forall p | p in EligiblePools(all, filter) ensures exists q :: q in Widest(all, filter) && q.node == p.node {
      WidestCovers(all, filter, p);
    }
  }

  lemma FewerHoldFewer(a: set<Pool>, b: set<Pool>, w: int)
    requires a <= b
    ensures CanHold(a, w) <= CanHold(b, w)
  {
  }

  lemma WidestHolds(all: seq<Pool>, filter: seq<string>, w: int)
    ensures CanHold(Widest(all, filter), w) == CanHold(EligiblePools(all, filter), w)
  {
    forall p | p in EligiblePools(all, filter)
      ensures exists q :: q in Widest(all, filter) && q.node == p.node && q.free >= p.free
    {
      WidestCovers(all, filter, p);
    }
    FewerHoldFewer(Widest(all, filter), EligiblePools(all, filter), w);
    WiderHoldsMore(EligiblePools(all, filter), Widest(all, filter), w);
  }

  lemma SameBound(a: set<Pool>, b: set<Pool>, k: nat, size: int)
    requires forall w :: CanHold(a, w) == CanHold(b, w)
    requires IsBound(b, k, size)
    ensures IsBound(a, k, size)
  {
    forall w | w > size ensures |CanHold(a, w)| < k {
      assert CanHold(a, w) == CanHold(b, w);
    }
  }

  /** The bound of the eligible pools is the best there is: no selection exceeds it, and
      the widest pool of every node reaches it. */
  lemma BestIsAttained(all: seq<Pool>, filter: seq<string>, k: nat, best: int, c: set<Pool>, n: int)
    requires IsBound(EligiblePools(all, filter), k, best) && Selection(all, filter, c) && IsBound(c, k, n)
    ensures n <= best
    ensures Selection(all, filter, Widest(all, filter)) && IsBound(Widest(all, filter), k, best)
  {
    FewerHoldFewer(c, EligiblePools(all, filter), n);
    BoundMonotone(c, EligiblePools(all, filter), k, n, best);
    WidestIsSelection(all, filter);
    forall w ensures CanHold(Widest(all, filter), w) == CanHold(EligiblePools(all, filter), w) {
      WidestHolds(all, filter, w);
    }
    SameBound(Widest(all, filter), EligiblePools(all, filter), k, best);
  }

  /** It can fall short: a node listed with a narrow pool first. */
  lemma NarrowFirstPoolHidesRoom()
    ensures var all := [Pool("n", "small", false, false, 1), Pool("n", "large", false, false, 9)];
            IsBound(Chosen(all, []), 1, 1) && Selection(all, [], {all[1]}) && IsBound({all[1]}, 1, 9)
  {
    var all := [Pool("n", "small", false, false, 1), Pool("n", "large", false, false, 9)];
    assert IsFirst(all, [], 0) && !IsFirst(all, [], 1);
    assert Chosen(all, []) == {all[0]};
    assert EligiblePools(all, []) == {all[0], all[1]};
    OnePoolBound(all[0]);
    OnePoolBound(all[1]);
  }

  lemma OnePoolBound(p: Pool)
    requires p.free > 0
    ensures IsBound({p}, 1, p.free)
  {
    assert CanHold({p}, p.free) == {p.node};
    forall w | w > p.free ensures |CanHold({p}, w)| < 1 {
      assert CanHold({p}, w) == {};
    }
  }

  // The query as it runs

  function FirstsAmong(all: seq<Pool>, filter: seq<string>, k: nat): set<Pool>
    requires k <= |all|
  {
    set i | 0 <= i < k && IsFirst(all, filter, i) :: all[i]
  }

  lemma InsertOrdered(pools: seq<Pool>, p: Pool, at: nat)
    requires NodesDistinct(pools) && WidestFirst(pools) && at <= |pools|
    requires forall i | 0 <= i < |pools| :: pools[i].node != p.node
    requires forall i | 0 <= i < at :: pools[i].free >= p.free
    requires forall i | at <= i < |pools| :: pools[i].free < p.free
    ensures NodesDistinct(pools[..at] + [p] + pools[at..]) && WidestFirst(pools[..at] + [p] + pools[at..])
  {
    var r := pools[..at] + [p] + pools[at..];
    assert forall i | 0 <= i < |r| :: r[i] == if i < at then pools[i] else if i == at then p else pools[i - 1];
  }

  /** Places a pool behind every pool that is at least as wide. */
  method Insert(pools: seq<Pool>, p: Pool) returns (r: seq<Pool>)
    requires NodesDistinct(pools) && WidestFirst(pools)
    requires forall i | 0 <= i < |pools| :: pools[i].node != p.node
    ensures NodesDistinct(r) && WidestFirst(r) && Elems(r) == Elems(pools) + {p}
  {
    var at := |pools|;
    while at > 0 && pools[at - 1].free < p.free
      invariant 0 <= at <= |pools|
      invariant forall i | at <= i < |pools| :: pools[i].free < p.free
    {
      at := at - 1;
    }
    InsertOrdered(pools, p, at);
    InsertElems(pools, at, p);
    r := pools[..at] + [p] + pools[at..];
  }

  function SeenNodes(all: seq<Pool>, filter: seq<string>, k: nat): set<string>
    requires k <= |all|
  {
    set i | 0 <= i < k && Eligible(all[i], filter) :: all[i].node
  }

  lemma FirstsGrow(all: seq<Pool>, filter: seq<string>, k: nat)
    requires k < |all|
    ensures forall p | p in FirstsAmong(all, filter, k) :: p.node in SeenNodes(all, filter, k)
    ensures IsFirst(all, filter, k) <==> Eligible(all[k], filter) && all[k].node !in SeenNodes(all, filter, k)
    ensures FirstsAmong(all, filter, k + 1)
         == FirstsAmong(all, filter, k) + if IsFirst(all, filter, k) then {all[k]} else {}
    ensures SeenNodes(all, filter, k + 1)
         == SeenNodes(all, filter, k) + if Eligible(all[k], filter) then {all[k].node} else {}
  {
  }

  /** One eligible pool per node, the first listed, ordered widest first. */
  method CandidatePools(all: seq<Pool>, filter: seq<string>) returns (pools: seq<Pool>)
    ensures IsCandidateList(all, filter, pools)
  {
    pools := [];
    var seen: set<string> := {};
    for k := 0 to |all|
      invariant NodesDistinct(pools) && WidestFirst(pools)
      invariant Elems(pools) == FirstsAmong(all, filter, k)
      invariant seen == SeenNodes(all, filter, k)
    {
      var p := all[k];
      FirstsGrow(all, filter, k);
      if p.diskless || p.missing || (filter != [] && p.name !in filter) || p.node in seen {
        continue;
      }
      forall i | 0 <= i < |pools| ensures pools[i].node != p.node {
        assert pools[i] in Elems(pools);
      }
      seen := seen + {p.node};
      pools := Insert(pools, p);
    }
    assert FirstsAmong(all, filter, |all|) == Chosen(all, filter);
  }

  datatype Group = Group(storagePool: string, storagePoolList: seq<string>, placeCount: int)

  function Wanted(group: Group): (names: seq<string>)
    ensures forall name :: name in names <==>
              (name == group.storagePool && name != "") || name in group.storagePoolList
  {
    if group.storagePool != "" then [group.storagePool] + group.storagePoolList else group.storagePoolList
  }

  /** The size query of a resource group. */
  method QuerySize(group: Group, all: seq<Pool>) returns (size: int, pools: seq<Pool>)
    ensures IsCandidateList(all, Wanted(group), pools)
    ensures IsBound(Chosen(all, Wanted(group)), if group.placeCount > 0 then group.placeCount else 1, size)
  {
    pools := CandidatePools(all, Wanted(group));
    size := MaxVolumeSize(pools, group.placeCount);
    AnswerIsBound(all, Wanted(group), pools, group.placeCount);
  }
}
