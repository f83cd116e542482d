/**
 The DRBD identity pools: the lowest value of a range that nobody holds.
 */
module DrbdPool {
  import opened Names

  const MAX_PEERS := 16
  const PORT_MIN := 20000
  const PORT_MAX := 20999
  const MINOR_MIN := 20000
  const MINOR_MAX := 65535

  datatype Range = Range(low: int, high: int)

  predicate Free(taken: set<int>, range: Range, v: int)
  {
    range.low <= v <= range.high && v !in taken
  }

  predicate IsLowestFree(taken: set<int>, range: Range, v: int)
  {
    Free(taken, range, v) && forall u | range.low <= u < v :: u in taken
  }

  function LowestFree(taken: set<int>, range: Range): (r: Option<int>)
    ensures r.None? ==> forall v | range.low <= v <= range.high :: v in taken
    ensures r.Some? ==> IsLowestFree(taken, range, r.value)
    decreases range.high - range.low
  {
    if range.low > range.high then None
    else if range.low !in taken then Some(range.low)
    else LowestFree(taken, Range(range.low + 1, range.high))
  }

  /** Two lowest free values of one pool are the same value. */
  lemma LowestFreeUnique(taken: set<int>, range: Range, v: int)
    requires IsLowestFree(taken, range, v)
    ensures LowestFree(taken, range) == Some(v)
  {
    var r := LowestFree(taken, range);
    assert r.Some?;
    assert !(v < r.value) && !(r.value < v);
  }

  /** The allocator loop: mark what is used inside the range, then scan up. */
  method Allocate(taken: seq<int>, range: Range) returns (r: Option<int>)
    ensures r == LowestFree(Elems(taken), range)
  {
    var used: set<int> := {};
    for k := 0 to |taken|
      invariant used == set x | x in taken[..k] && range.low <= x <= range.high
    {
      assert taken[..k + 1] == taken[..k] + [taken[k]];
      if range.low <= taken[k] <= range.high {
        used := used + {taken[k]};
      }
    }
    assert taken[..|taken|] == taken;
    ghost var all := Elems(taken);
    var i := range.low;
    while i <= range.high
      invariant range.low <= i
      invariant range.low <= range.high ==> i <= range.high + 1
      invariant forall u | range.low <= u < i :: u in all
      decreases range.high + 1 - i
    {
      if i !in used {
        LowestFreeUnique(all, range, i);
        return Some(i);
      }
      i := i + 1;
    }
    return None;
  }
}
