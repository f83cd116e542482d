/**
 Shared vocabulary: optional values, object names and their order, and the
 list calls of the API server.

 Object names are ordered as Go orders strings; the reconcilers use that order
 to break ties so that two racing passes reach the same answer.
 */
module Names {

  datatype Option<+T> = None | Some(value: T)

  // Names

  predicate Less(a: string, b: string)
  {
    b != [] && (a == [] || a[0] < b[0] || (a[0] == b[0] && Less(a[1..], b[1..])))
  }

  lemma LessTotal(a: string, b: string)
    ensures a == b || Less(a, b) || Less(b, a)
  {
    if a != [] && b != [] && a[0] == b[0] {
      LessTotal(a[1..], b[1..]);
      assert a == [a[0]] + a[1..] && b == [b[0]] + b[1..];
    }
  }

  lemma LessAsymmetric(a: string, b: string)
    requires Less(a, b)
    ensures !Less(b, a) && a != b
  {
  }

  lemma LessTransitive(a: string, b: string, c: string)
    requires Less(a, b) && Less(b, c)
    ensures Less(a, c)
  {
  }

  /** The first character in which two names differ decides. */
  lemma {:induction false} LessAtDifference(a: string, b: string, i: nat)
    requires i < |a| && i < |b| && a[..i] == b[..i] && a[i] != b[i]
    ensures Less(a, b) <==> a[i] < b[i]
    decreases i
  {
    if i > 0 {
      assert a[..i][0] == b[..i][0];
      assert a[1..][..i - 1] == a[..i][1..] && b[1..][..i - 1] == b[..i][1..];
      LessAtDifference(a[1..], b[1..], i - 1);
    }
  }

  /** And a name comes before any that continues it. */
  lemma {:induction false} LessPrefix(a: string, b: string)
    requires a < b
    ensures Less(a, b)
    decreases |a|
  {
    if a != [] {
      LessPrefix(a[1..], b[1..]);
    }
  }

  predicate IsLeast(m: string, s: set<string>)
  {
    m in s && forall x | x in s :: x == m || Less(m, x)
  }

  lemma LeastExists(s: set<string>)
    requires s != {}
    ensures exists m :: IsLeast(m, s)
  {
    var x :| x in s;
    var rest := s - {x};
    if rest == {} {
      assert s == {x};
      assert IsLeast(x, s);
    } else {
      LeastExists(rest);
      var m :| IsLeast(m, rest);
      LessTotal(x, m);
      var w := if Less(x, m) then x else m;
      forall y | y in s ensures y == w || Less(w, y) {
        if y != x && w == x && y != m {
          LessTransitive(x, m, y);
        }
      }
      assert IsLeast(w, s);
    }
  }

  lemma LeastUnique(s: set<string>)
    ensures forall m, n :: IsLeast(m, s) && IsLeast(n, s) ==> m == n
  {
    forall m, n | IsLeast(m, s) && IsLeast(n, s) ensures m == n {
      if m != n {
        LessAsymmetric(m, n);
      }
    }
  }

  /** The first name of a non-empty set in name order. */
  function Least(s: set<string>): (m: string)
    requires s != {}
    ensures IsLeast(m, s)
  {
    LeastExists(s);
    LeastUnique(s);
    var m :| IsLeast(m, s);
    m
  }

  // Case folding

  function FoldChar(c: char): char
  {
    if 'A' <= c <= 'Z' then c - 'A' + 'a' else c
  }

  function Fold(s: string): (r: string)
    ensures |r| == |s|
  {
    if s == [] then [] else [FoldChar(s[0])] + Fold(s[1..])
  }

  predicate EqualFold(a: string, b: string)
  {
    Fold(a) == Fold(b)
  }

  lemma {:induction false} FoldAt(s: string, i: nat)
    requires i < |s|
    ensures Fold(s)[i] == FoldChar(s[i])
    decreases |s|
  {
    if i > 0 {
      FoldAt(s[1..], i - 1);
    }
  }

  // The same character, or one ASCII letter in both cases.
  predicate SameLetter(c: char, d: char)
  {
    c == d || ('A' <= c <= 'Z' && d as int == c as int + 32) || ('A' <= d <= 'Z' && c as int == d as int + 32)
  }

  lemma FoldCharExactly(c: char, d: char)
    ensures FoldChar(c) == FoldChar(d) <==> SameLetter(c, d)
  {
  }

  /** Equal but for the case of letters. */
  lemma EqualFoldExactly(a: string, b: string)
    ensures EqualFold(a, b) <==> |a| == |b| && forall i | 0 <= i < |a| :: SameLetter(a[i], b[i])
  {
    if |a| == |b| {
      forall i | 0 <= i < |a| ensures Fold(a)[i] == Fold(b)[i] <==> SameLetter(a[i], b[i]) {
        FoldAt(a, i);
        FoldAt(b, i);
        FoldCharExactly(a[i], b[i]);
      }
    }
  }

  function Max(a: int, b: int): int { if a >= b then a else b }

  function Min(a: int, b: int): int { if a <= b then a else b }

  // Lists

  function Elems<T(==)>(s: seq<T>): set<T>
  {
    set x | x in s
  }

  predicate Distinct<T(==)>(s: seq<T>)
  {
    forall i, j | 0 <= i < j < |s| :: s[i] != s[j]
  }

  predicate Lists<T(==)>(items: seq<T>, s: set<T>)
  {
    Distinct(items) && Elems(items) == s
  }

  /** A list call: every key once, in an order the caller may not rely on. */
  method ListKeys<T(==)>(s: set<T>) returns (items: seq<T>)
    ensures Lists(items, s)
  {
    items := [];
    var rest := s;
    while rest != {}
      invariant rest <= s
      invariant Distinct(items)
      invariant Elems(items) == s - rest
      decreases rest
    {
      var x :| x in rest;
      rest := rest - {x};
      assert Elems(items + [x]) == Elems(items) + {x};
      items := items + [x];
    }
  }

  lemma ListSize<T>(items: seq<T>, s: set<T>)
    requires Lists(items, s)
    ensures |items| == |s|
    decreases |items|
  {
    if items == [] {
      assert s == {};
    } else {
      var last := items[|items| - 1];
      var init := items[..|items| - 1];
      assert items == init + [last];
      assert Elems(items) == Elems(init) + {last};
      ListSize(init, s - {last});
    }
  }

  // Walking a list: what the first k+1 items hold.
  lemma Visit<T>(items: seq<T>, k: nat)
    requires k < |items|
    ensures Elems(items[..k + 1]) == Elems(items[..k]) + {items[k]} && items[k] in Elems(items)
    ensures Distinct(items) ==> items[k] !in Elems(items[..k])
  {
    assert items[..k + 1] == items[..k] + [items[k]];
  }

  lemma VisitedAll<T>(items: seq<T>)
    ensures Elems(items[..|items|]) == Elems(items)
  {
    assert items[..|items|] == items;
  }

  lemma ListAppend<T>(out: seq<T>, s: set<T>, x: T)
    requires Lists(out, s) && x !in s
    ensures Lists(out + [x], s + {x})
  {
    assert Elems(out + [x]) == Elems(out) + {x};
    assert x !in Elems(out);
  }

  // The part of a set met so far grows by the item if it belongs to the set.
  lemma Meet<T>(a: set<T>, seen: set<T>, x: T)
    ensures a * (seen + {x}) == a * seen + if x in a then {x} else {}
  {
  }

  lemma MeetCount<T>(a: set<T>, items: seq<T>, k: nat)
    requires k < |items| && Distinct(items)
    ensures |a * Elems(items[..k + 1])| == |a * Elems(items[..k])| + if items[k] in a then 1 else 0
  {
    Visit(items, k);
    Meet(a, Elems(items[..k]), items[k]);
  }

  lemma {:induction false} SubsetSize<T>(a: set<T>, b: set<T>)
    requires a <= b
    ensures |a| <= |b| && (|a| == |b| ==> a == b)
    decreases b
  {
    if a != b {
      var x :| x in b && x !in a;
      SubsetSize(a, b - {x});
    }
  }

  lemma InsertElems<T>(items: seq<T>, at: nat, x: T)
    requires at <= |items|
    ensures Elems(items[..at] + [x] + items[at..]) == Elems(items) + {x}
  {
    assert items == items[..at] + items[at..];
  }
}
