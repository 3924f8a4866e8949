/**
 * Finite sets of share indices and their ascending enumeration, the order in
 * which `keys().sorted()` and `sort_by_key` visit the indices of a map.
 */
module NatSets {

  predicate IsMin(s: set<nat>, m: nat)
  {
    m in s && forall y :: y in s ==> m <= y
  }

  lemma {:induction false} HasMin(s: set<nat>)
    requires s != {}
    ensures exists m :: IsMin(s, m)
    decreases s
  {
    var x :| x in s;
    if s - {x} == {} {
      assert s == {x};
      assert IsMin(s, x);
    } else {
      HasMin(s - {x});
      var m :| IsMin(s - {x}, m);
      assert forall y :: y in s ==> y == x || y in s - {x};
      if x < m {
        assert IsMin(s, x);
      } else {
        assert IsMin(s, m);
      }
    }
  }

  /** The smallest element of a non-empty set. */
  function SetMin(s: set<nat>): (m: nat)
    requires s != {}
    ensures IsMin(s, m)
  {
    HasMin(s);
    var m :| IsMin(s, m);
    m
  }

  predicate StrictlyIncreasing(r: seq<nat>)
  {
    forall i, j :: 0 <= i < j < |r| ==> r[i] < r[j]
  }

  /** The elements of a set in ascending order. */
  function Sorted(s: set<nat>): (r: seq<nat>)
    ensures |r| == |s|
    ensures forall i :: 0 <= i < |r| ==> r[i] in s
    decreases s
  {
    if s == {} then []
    else
      var m := SetMin(s);
      var rest := Sorted(s - {m});
      assert |s - {m}| == |s| - 1;
      [m] + rest
  }

  /** The enumeration is strictly increasing. */
  lemma {:induction false} SortedIncreasing(s: set<nat>)
    ensures StrictlyIncreasing(Sorted(s))
    decreases s
  {
    if s != {} {
      var m := SetMin(s);
      var rest := Sorted(s - {m});
      SortedIncreasing(s - {m});
      PrependMin(s, m, rest);
    }
  }

  lemma PrependMin(s: set<nat>, m: nat, rest: seq<nat>)
    requires IsMin(s, m)
    requires forall i :: 0 <= i < |rest| ==> rest[i] in s - {m}
    requires StrictlyIncreasing(rest)
    ensures StrictlyIncreasing([m] + rest)
  {
    var r := [m] + rest;
    assert forall i :: 1 <= i < |r| ==> r[i] == rest[i - 1];
  }

  /** Every element of the set occurs in the enumeration. */
  lemma {:induction false} SortedCovers(s: set<nat>, k: nat)
    requires k in s
    ensures k in Sorted(s)
    decreases s
  {
    var m := SetMin(s);
    if k != m {
      SortedCovers(s - {m}, k);
      assert Sorted(s) == [m] + Sorted(s - {m});
    }
  }

  /** The position of an element in a sequence that holds it. */
  function IndexOf(r: seq<nat>, k: nat): (i: nat)
    requires k in r
    ensures i < |r| && r[i] == k
  {
    if r[0] == k then 0 else 1 + IndexOf(r[1..], k)
  }

  /** In a strictly increasing sequence an element sits at exactly one position. */
  lemma IndexOfUnique(r: seq<nat>, k: nat, i: nat)
    requires StrictlyIncreasing(r)
    requires i < |r| && r[i] == k
    ensures IndexOf(r, k) == i
  {
  }

  /** {0, ..., n-1}. */
  function RangeSet(n: nat): (s: set<nat>)
    ensures forall j: nat :: j in s <==> j < n
  {
    if n == 0 then {} else RangeSet(n - 1) + {n - 1}
  }

  /** {a, ..., b-1}. */
  function Interval(a: nat, b: nat): (s: set<nat>)
    ensures forall j: nat :: j in s <==> a <= j < b
    decreases b - a
  {
    if b <= a then {} else {a} + Interval(a + 1, b)
  }

  /** The enumeration starts with the minimum, followed by the rest. */
  lemma SortedUnfold(s: set<nat>, m: nat)
    requires IsMin(s, m)
    ensures Sorted(s) == [m] + Sorted(s - {m})
  {
    assert SetMin(s) == m;
  }

  /** The indices a, ..., b-1 are enumerated as themselves. */
  lemma {:induction false} SortedInterval(a: nat, b: nat)
    requires a <= b
    ensures |Sorted(Interval(a, b))| == b - a
    ensures forall i :: 0 <= i < b - a ==> Sorted(Interval(a, b))[i] == a + i
    decreases b - a
  {
    if a < b {
      SortedUnfold(Interval(a, b), a);
      assert Interval(a, b) - {a} == Interval(a + 1, b);
      SortedInterval(a + 1, b);
    }
  }

  /** The share indices 0..n-1 are visited in the order 0, 1, ..., n-1. */
  lemma SortedRange(n: nat)
    ensures |Sorted(RangeSet(n))| == n
    ensures forall i :: 0 <= i < n ==> Sorted(RangeSet(n))[i] == i
  {
    assert RangeSet(n) == Interval(0, n);
    SortedInterval(0, n);
  }

  /** The values of a map in ascending key order, as a `BTreeMap` yields them. */
  function ValuesInKeyOrder<T>(m: map<nat, T>): (vs: seq<T>)
    ensures |vs| == |m.Keys|
    ensures forall i :: 0 <= i < |vs| ==> Sorted(m.Keys)[i] in m && vs[i] == m[Sorted(m.Keys)[i]]
  {
    var keys := Sorted(m.Keys);
    seq(|keys|, i requires 0 <= i < |keys| => m[keys[i]])
  }

  /** Every key of a map has a position in the key order, holding its value. */
  lemma PositionInKeyOrder<T>(m: map<nat, T>, k: nat) returns (i: nat)
    requires k in m
    ensures i < |ValuesInKeyOrder(m)| && Sorted(m.Keys)[i] == k && ValuesInKeyOrder(m)[i] == m[k]
  {
    SortedCovers(m.Keys, k);
    i := IndexOf(Sorted(m.Keys), k);
  }
}
