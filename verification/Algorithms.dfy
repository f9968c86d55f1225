/** The in-place removals of cmAlgorithms. */
module Algorithms {

  /** The sequence with its parts from i to m, and from m to j, exchanged. */
  function Rotation<T>(t: seq<T>, i: nat, m: nat, j: nat): seq<T>
    requires i <= m <= j <= |t|
  {
    t[..i] + t[m..j] + t[i..m] + t[j..]
  }

  /** A range whose middle has become its beginning; returns where the old beginning is. */
  method CmRotate<T>(a: array<T>, first: nat, middle: nat, last: nat) returns (newMiddle: nat)
    requires first <= middle <= last <= a.Length
    modifies a
    ensures newMiddle == first + (last - middle)
    ensures a[..] == Rotation(old(a[..]), first, middle, last)
  {
    ghost var t := a[..];
    assert a[middle..last] == t[middle..last] && a[first..middle] == t[first..middle];
    var moved := a[middle..last] + a[first..middle];
    forall i | first <= i < last {
      a[i] := moved[i - first];
    }
    assert a[first..last] == moved;
    assert a[..first] == t[..first] && a[last..] == t[last..];
    assert a[..] == a[..first] + a[first..last] + a[last..];
    newMiddle := first + (last - middle);
  }

  /** Move the first n elements of a range to its end. */
  method RemoveN<T>(a: array<T>, i1: nat, i2: nat, n: nat) returns (newEnd: nat)
    requires i1 + n <= i2 <= a.Length
    modifies a
    ensures newEnd == i2 - n
    ensures a[..] == Rotation(old(a[..]), i1, i1 + n, i2)
  {
    newEnd := CmRotate(a, i1, i1 + n, i2);
  }

  // ----- removing the elements at given indices

  ghost predicate Ascending(rem: seq<nat>, n: nat) {
    && (forall i, j :: 0 <= i < j < |rem| ==> rem[i] < rem[j])
    && (forall i :: 0 <= i < |rem| ==> rem[i] < n)
  }

  /** The elements among the first n whose index is not one of those given. */
  function Kept<T>(s: seq<T>, rem: seq<nat>, n: nat): seq<T>
    requires n <= |s|
  {
    if n == 0 then []
    else Kept(s, rem, n - 1) + if n - 1 in rem then [] else [s[n - 1]]
  }

  function Picked<T>(s: seq<T>, rem: seq<nat>): (p: seq<T>)
    requires forall i :: 0 <= i < |rem| ==> rem[i] < |s|
    ensures |p| == |rem|
  {
    seq(|rem|, i requires 0 <= i < |rem| => s[rem[i]])
  }

  lemma {:induction false} KeptRun<T>(s: seq<T>, rem: seq<nat>, m: nat, n: nat)
    requires m <= n <= |s| && forall i :: m <= i < n ==> i !in rem
    ensures Kept(s, rem, n) == Kept(s, rem, m) + s[m..n]
  {
    if m < n {
      KeptRun(s, rem, m, n - 1);
      assert s[m..n] == s[m..n - 1] + [s[n - 1]];
    } else {
      assert s[m..n] == [];
    }
  }

  /** The elements before the index rem[k], those at the indices up to it, and the rest. */
  ghost predicate Removing<T>(s: seq<T>, t: seq<T>, rem: seq<nat>, k: nat)
    requires Ascending(rem, |s|) && k < |rem|
  {
    && |Kept(s, rem, rem[k])| == rem[k] - k
    && t == Kept(s, rem, rem[k]) + Picked(s, rem[..k + 1]) + s[rem[k] + 1..]
  }

  lemma RemovingStarts<T>(s: seq<T>, rem: seq<nat>)
    requires Ascending(rem, |s|) && |rem| > 0
    ensures Removing(s, s, rem, 0)
  {
    KeptRun(s, rem, 0, rem[0]);
    assert s == s[..rem[0]] + [s[rem[0]]] + s[rem[0] + 1..];
  }

  /** Rotating the removed elements past a run of kept ones. */
  lemma Rotated<T>(s: seq<T>, t: seq<T>, rem: seq<nat>, k: nat, end: nat)
    requires Ascending(rem, |s|) && k < |rem| && Removing(s, t, rem, k)
    requires rem[k] < end <= |s| && (k + 1 < |rem| ==> end == rem[k + 1]) && (k + 1 == |rem| ==> end == |s|)
    ensures var w := rem[k] - k;
      && 0 <= w && w + k + 1 <= end && |t| == |s|
      && t[..w] + t[w + k + 1..end] == Kept(s, rem, end) && |Kept(s, rem, end)| == end - k - 1
      && t[w..w + k + 1] == Picked(s, rem[..k + 1]) && t[end..] == s[end..]
  {
    hide Picked, Kept;
    var front, picked := Kept(s, rem, rem[k]), Picked(s, rem[..k + 1]);
    NoneBetween(s, rem, k, end);
    KeptRun(s, rem, rem[k] + 1, end);
    KeptSkip(s, rem, rem[k]);
    Slices(s, front, picked, rem[k] + 1, end);
  }

  lemma KeptSkip<T>(s: seq<T>, rem: seq<nat>, i: nat)
    requires i < |s| && i in rem
    ensures Kept(s, rem, i + 1) == Kept(s, rem, i)
  {
  }

  lemma Slices<T>(s: seq<T>, front: seq<T>, picked: seq<T>, m: nat, end: nat)
    requires |front| + |picked| == m <= end <= |s|
    ensures var t, w := front + picked + s[m..], |front|;
      && |t| == |s| && t[..w] + t[m..end] == front + s[m..end] && t[w..m] == picked && t[end..] == s[end..]
  {
    var t := front + picked + s[m..];
    assert t[..|front|] == front && t[m..end] == s[m..end];
  }

  lemma NoneBetween<T>(s: seq<T>, rem: seq<nat>, k: nat, end: nat)
    requires Ascending(rem, |s|) && k < |rem|
    requires rem[k] < end <= |s| && (k + 1 < |rem| ==> end == rem[k + 1])
    ensures forall i :: rem[k] + 1 <= i < end ==> i !in rem
  {
    forall i | rem[k] + 1 <= i < end
      ensures i !in rem
    {
      forall j | 0 <= j < |rem|
        ensures rem[j] != i
      {
        if k + 1 < j { assert rem[k + 1] < rem[j]; }
        if j < k { assert rem[j] < rem[k]; }
      }
    }
  }

  lemma RotatedOn<T>(s: seq<T>, t: seq<T>, u: seq<T>, rem: seq<nat>, k: nat)
    requires Ascending(rem, |s|) && k + 1 < |rem| && Removing(s, t, rem, k) && |t| == |s|
    requires var w, p := rem[k] - k, rem[k + 1];
      0 <= w && w + k + 1 <= p <= |t| && u == Rotation(t, w, w + k + 1, p)
    ensures Removing(s, u, rem, k + 1)
  {
    var p := rem[k + 1];
    Rotated(s, t, rem, k, p);
    assert rem[..k + 2] == rem[..k + 1] + [p];
    assert s[p..] == [s[p]] + s[p + 1..];
    PickedOn(s, rem, k + 1);
  }

  lemma AscendingAt(rem: seq<nat>, n: nat, k: nat)
    requires Ascending(rem, n) && k < |rem|
    ensures k <= rem[k] < n && (k + 1 < |rem| ==> rem[k] < rem[k + 1])
    ensures forall i :: 0 <= i < |rem| ==> rem[i] < n
  {
    if k > 0 { AscendingAt(rem, n, k - 1); }
  }

  lemma NothingRemoved<T>(s: seq<T>)
    ensures Kept(s, [], |s|) == s && Picked(s, []) == []
  {
    KeptRun(s, [], 0, |s|);
  }

  /** Gather the other elements in front, in their order, and the removed ones behind
      them; returns the end of the former. */
  method CmRemoveIndices<T>(r: array<T>, rem: seq<nat>) returns (newEnd: nat)
    requires Ascending(rem, r.Length)
    modifies r
    ensures newEnd == r.Length - |rem|
    ensures r[..newEnd] == Kept(old(r[..]), rem, r.Length)
    ensures r[newEnd..] == Picked(old(r[..]), rem)
  {
    hide Removing, Kept, Picked, Ascending, Rotation;
    ghost var s := r[..];
    var remIt, remEnd := 0, |rem|;
    var rangeEnd := r.Length;
    if remIt == remEnd {
      NothingRemoved(s);
      return rangeEnd;
    }

    var writer := rem[remIt];
    var pivot := writer;
    var prevRem := rem[remIt];
    remIt := remIt + 1;
    var count := 1;
    RemovingStarts(s, rem);
    AscendingAt(rem, |s|, 0);
    while writer != rangeEnd && remIt != remEnd
      invariant 1 <= remIt <= remEnd && count == remIt
      invariant pivot == prevRem == rem[remIt - 1] && writer == prevRem - (remIt - 1)
      invariant Removing(s, r[..], rem, remIt - 1)
      decreases remEnd - remIt
    {
      AscendingAt(rem, |s|, remIt - 1);
      AscendingAt(rem, |s|, remIt);
      pivot := pivot + (rem[remIt] - prevRem);
      prevRem := rem[remIt];
      ghost var t, k := r[..], remIt - 1;
      writer := RemoveN(r, writer, pivot, count);
      RotatedOn(s, t, r[..], rem, k);
      count := count + 1;
      remIt := remIt + 1;
    }
    ghost var t := r[..];
    AscendingAt(rem, |s|, remIt - 1);
    newEnd := RemoveN(r, writer, rangeEnd, count);
    Finished(s, t, rem);
  }

  lemma Finished<T>(s: seq<T>, t: seq<T>, rem: seq<nat>)
    requires Ascending(rem, |s|) && |rem| > 0 && Removing(s, t, rem, |rem| - 1) && |t| == |s|
    ensures var k := |rem| - 1;
      && 0 <= rem[k] - k && rem[k] + 1 <= |s|
      && var u, m := Rotation(t, rem[k] - k, rem[k] + 1, |s|), |s| - |rem|;
         0 <= m && |u| == |s| && u[..m] == Kept(s, rem, |s|) && u[m..] == Picked(s, rem)
  {
    hide Removing, Kept, Picked, Rotation;
    var k := |rem| - 1;
    AscendingAt(rem, |s|, k);
    Rotated(s, t, rem, k, |s|);
    assert rem[..k + 1] == rem;
    Ends(t, rem[k] - k, k + 1);
  }

  lemma Ends<T>(t: seq<T>, w: nat, n: nat)
    requires w + n <= |t|
    ensures var u, m := Rotation(t, w, w + n, |t|), |t| - n;
      |u| == |t| && u[..m] == t[..w] + t[w + n..|t|] && u[m..] == t[w..w + n]
  {
  }

  /** The first k of the given indices are those below n. */
  ghost predicate Below(rem: seq<nat>, n: nat, k: nat) {
    k <= |rem| && forall i :: 0 <= i < |rem| ==> (rem[i] < n <==> i < k)
  }

  /** Nothing is lost: what is kept and what is removed make up the whole range. */
  lemma RemovedIsPermutation<T>(s: seq<T>, rem: seq<nat>)
    requires Ascending(rem, |s|)
    ensures multiset(Kept(s, rem, |s|) + Picked(s, rem)) == multiset(s)
    ensures |Kept(s, rem, |s|)| == |s| - |rem|
  {
    assert Below(rem, |s|, |rem|);
    assert rem[..|rem|] == rem && s[..|s|] == s;
    PrefixPermutation(s, rem, |s|, |rem|);
  }

  lemma {:induction false} PrefixPermutation<T>(s: seq<T>, rem: seq<nat>, n: nat, k: nat)
    requires Ascending(rem, |s|) && n <= |s| && Below(rem, n, k)
    ensures multiset(Kept(s, rem, n) + Picked(s, rem[..k])) == multiset(s[..n])
    ensures |Kept(s, rem, n)| == n - k
  {
    hide Picked, Kept, Below;
    if n == 0 {
      NoneBelow(s, rem, k);
    } else {
      assert s[..n] == s[..n - 1] + [s[n - 1]];
      LastBelow(s, rem, n, k);
      if n - 1 in rem {
        PrefixPermutation(s, rem, n - 1, k - 1);
        PickedOn(s, rem, k - 1);
        KeptSkip(s, rem, n - 1);
        MoveLast(Kept(s, rem, n), Picked(s, rem[..k - 1]), [], s[n - 1]);
      } else {
        PrefixPermutation(s, rem, n - 1, k);
        KeptRun(s, rem, n - 1, n);
        assert s[n - 1..n] == [s[n - 1]];
        MoveLast(Kept(s, rem, n - 1), [], Picked(s, rem[..k]), s[n - 1]);
      }
    }
  }

  lemma NoneBelow<T>(s: seq<T>, rem: seq<nat>, k: nat)
    requires Below(rem, 0, k)
    ensures k == 0 && Kept(s, rem, 0) == [] && Picked(s, rem[..0]) == []
  {
    assert forall i :: 0 <= i < |rem| ==> rem[i] >= 0;
    assert |rem| > 0 ==> rem[0] >= 0;
    assert rem[..0] == [];
  }

  lemma LastBelow<T>(s: seq<T>, rem: seq<nat>, n: nat, k: nat)
    requires Ascending(rem, |s|) && n > 0 && Below(rem, n, k)
    ensures k <= |rem| && (n - 1 in rem ==> k > 0 && rem[k - 1] == n - 1 && Below(rem, n - 1, k - 1))
    ensures n - 1 !in rem ==> Below(rem, n - 1, k)
  {
    if i :| 0 <= i < |rem| && rem[i] == n - 1 {
      assert rem[k - 1] < n;
    }
  }

  lemma MoveLast<T>(a: seq<T>, b: seq<T>, c: seq<T>, x: T)
    ensures multiset(a + (b + [x]) + c) == multiset(a + b + c) + multiset{x}
    ensures multiset(a + [x] + b + c) == multiset(a + b + c) + multiset{x}
  {
  }

  lemma PickedOn<T>(s: seq<T>, rem: seq<nat>, k: nat)
    requires k < |rem| && forall i :: 0 <= i < |rem| ==> rem[i] < |s|
    ensures Picked(s, rem[..k + 1]) == Picked(s, rem[..k]) + [s[rem[k]]]
  {
  }

  /** Each element that is not removed stands where those before it leave it, and their
      order is that of the range. */
  lemma {:induction false} KeptInPlace<T>(s: seq<T>, rem: seq<nat>, n: nat, j: nat)
    requires j < n <= |s|
    ensures |Kept(s, rem, j)| <= |Kept(s, rem, n)|
    ensures j !in rem ==>
      |Kept(s, rem, j)| < |Kept(s, rem, n)| && Kept(s, rem, n)[|Kept(s, rem, j)|] == s[j]
  {
    if j < n - 1 { KeptInPlace(s, rem, n - 1, j); }
  }

  /** Where each element goes in a rotation. */
  lemma RotationAt<T>(t: seq<T>, i: nat, m: nat, j: nat, k: nat)
    requires i <= m <= j <= |t| && k < |t|
    ensures |Rotation(t, i, m, j)| == |t|
    ensures var r := Rotation(t, i, m, j);
      && (k < i || j <= k ==> r[k] == t[k])
      && (m <= k < j ==> r[k - (m - i)] == t[k])
      && (i <= k < m ==> r[k + (j - m)] == t[k])
  {
  }
}
