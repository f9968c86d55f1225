/** What std::sort is relied on for: the sorted list of distinct vertices. */
module Sorting {

  ghost predicate StrictlySorted(s: seq<nat>) {
    forall a, b :: 0 <= a < b < |s| ==> s[a] < s[b]
  }

  ghost predicate Distinct<T>(s: seq<T>) {
    forall a, b :: 0 <= a < b < |s| ==> s[a] != s[b]
  }

  ghost function Elements(s: seq<nat>): set<nat> {
    set v | v in s
  }

  function Insert(x: nat, s: seq<nat>): (r: seq<nat>)
    requires StrictlySorted(s) && x !in s
    ensures StrictlySorted(r) && forall v: nat :: v in r <==> v == x || v in s
  {
    if s == [] || x < s[0] then [x] + s
    else
      var t := Insert(x, s[1..]);
      assert forall v :: v in s[1..] ==> s[0] < v;
      assert forall v: nat :: v in t ==> s[0] < v;
      assert forall b :: 0 <= b < |t| ==> t[b] in t;
      [s[0]] + t
  }

  function Sort(s: seq<nat>): (r: seq<nat>)
    requires Distinct(s)
    ensures StrictlySorted(r) && forall v: nat :: v in r <==> v in s
  {
    if s == [] then []
    else
      assert s[0] !in s[1..];
      Insert(s[0], Sort(s[1..]))
  }

  predicate IsLeast(s: set<int>, m: int) {
    m in s && forall y :: y in s ==> m <= y
  }

  /** The first element of an ordered set. */
  function Least(s: set<int>): (m: int)
    requires s != {}
    ensures m in s && forall y :: y in s ==> m <= y
  {
    LeastExists(s);
    var m :| m in s && IsLeast(s, m);
    m
  }

  lemma {:induction false} LeastExists(s: set<int>)
    requires s != {}
    ensures exists m :: IsLeast(s, m)
  {
    assert (forall a :: a !in s) ==> s == {};
    var a :| a in s;
    if s == {a} {
      assert IsLeast(s, a);
    } else {
      var rest := s - {a};
      assert s == rest + {a};
      LeastExists(rest);
      var m :| IsLeast(rest, m);
      assert IsLeast(s, if a < m then a else m);
    }
  }

  /** A set can be sorted in one way only. */
  lemma {:induction false} SortedIsUnique(a: seq<nat>, b: seq<nat>)
    requires StrictlySorted(a) && StrictlySorted(b) && Elements(a) == Elements(b)
    ensures a == b
  {
    NoElements(a);
    NoElements(b);
    if a != [] && b != [] {
      SameFirst(a, b);
      SameFirst(b, a);
      assert Elements(a[1..]) == Elements(a) - {a[0]} by { TailElements(a); }
      assert Elements(b[1..]) == Elements(b) - {b[0]} by { TailElements(b); }
      SortedIsUnique(a[1..], b[1..]);
    }
  }

  lemma NoElements(a: seq<nat>)
    ensures Elements(a) == {} <==> a == []
  {
    if a != [] { assert a[0] in Elements(a); }
  }

  lemma SameFirst(a: seq<nat>, b: seq<nat>)
    requires StrictlySorted(a) && a != [] && b != [] && Elements(a) == Elements(b)
    ensures a[0] <= b[0]
  {
    assert b[0] in Elements(a);
  }

  lemma TailElements(a: seq<nat>)
    requires StrictlySorted(a) && a != []
    ensures Elements(a[1..]) == Elements(a) - {a[0]}
  {
    forall v: nat
      ensures v in a[1..] <==> v in a && v != a[0]
    {
    }
  }

  /** There are no more distinct vertices than there are vertices. */
  lemma {:induction false} DistinctFits(n: nat, s: seq<nat>)
    requires Distinct(s) && forall a :: 0 <= a < |s| ==> s[a] < n
    ensures |s| <= n
  {
    if s != [] {
      assert s[0] < n;
      if a :| 0 <= a < |s| && s[a] == n - 1 {
        DistinctFits(n - 1, s[..a] + s[a + 1..]);
      } else {
        DistinctFits(n - 1, s);
      }
    }
  }

  /** A set in ascending order. */
  function Ascending(s: set<nat>): (r: seq<nat>)
    ensures StrictlySorted(r) && forall v: nat :: v in r <==> v in s
  {
    if s == {} then []
    else
      var m: nat := Least(s);
      var rest := Ascending(s - {m});
      assert forall a :: 0 <= a < |rest| ==> rest[a] in rest;
      [m] + rest
  }
}
