/**
 * The set routines of numpy that the clustering applies to lists of particle
 * indices: `intersect1d` and `setdiff1d`. Both return sorted lists without
 * duplicates; on an ascending input list that is the input order filtered.
 */
module SetOps {

  /** Strictly ascending, hence free of duplicates. */
  predicate Increasing(s: seq<int>) {
    forall a, b :: 0 <= a < b < |s| ==> s[a] < s[b]
  }

  /** Putting a value below every element in front keeps a list ascending. */
  lemma ConsIncreasing(x: int, s: seq<int>)
    ensures Increasing(s) && (forall y :: y in s ==> x < y) ==> Increasing([x] + s)
  {
    if Increasing(s) && forall y :: y in s ==> x < y {
      forall a, b | 0 <= a < b < |s| + 1
        ensures ([x] + s)[a] < ([x] + s)[b]
      {
        if a == 0 { assert s[b - 1] in s; }
      }
    }
  }

  /** The tail of an ascending list is ascending and lies above the head. */
  lemma TailAbove(s: seq<int>)
    requires |s| > 0
    ensures Increasing(s) ==> Increasing(s[1..]) && forall y :: y in s[1..] ==> s[0] < y
  {
    if Increasing(s) {
      forall y | y in s[1..] ensures s[0] < y {
        var k :| 0 <= k < |s[1..]| && s[1..][k] == y;
        assert s[k + 1] == y;
      }
    }
  }

  /** A list drawn from a list of values below `n` holds only values below `n`. */
  lemma MembersBelow(r: seq<nat>, a: seq<nat>, n: nat)
    requires forall x :: x in r ==> x in a
    requires forall k :: 0 <= k < |a| ==> a[k] < n
    ensures forall k :: 0 <= k < |r| ==> r[k] < n
  {
    forall k | 0 <= k < |r| ensures r[k] < n {
      assert r[k] in a;
    }
  }

  /** `intersect1d(a, b)` for an ascending `a`: the elements of `a` that occur in `b`. */
  function Intersect(a: seq<nat>, b: seq<nat>): (r: seq<nat>)
    ensures forall x :: x in r <==> x in a && x in b
    ensures Increasing(a) ==> Increasing(r)
    ensures |r| <= |a|
  {
    if a == [] then []
    else
      var rest := Intersect(a[1..], b);
      if a[0] !in b then rest
      else
        TailAbove(a);
        ConsIncreasing(a[0], rest);
        [a[0]] + rest
  }

  /** `setdiff1d(a, b)` for an ascending `a`: the elements of `a` that do not occur in `b`. */
  function SetDiff(a: seq<nat>, b: seq<nat>): (r: seq<nat>)
    ensures forall x :: x in r <==> x in a && x !in b
    ensures Increasing(a) ==> Increasing(r)
    ensures |r| <= |a|
    ensures |a| > 0 && a[0] in b ==> |r| < |a|
  {
    if a == [] then []
    else
      var rest := SetDiff(a[1..], b);
      if a[0] in b then rest
      else
        TailAbove(a);
        ConsIncreasing(a[0], rest);
        [a[0]] + rest
  }

  /** Intersecting with nothing gives nothing. */
  lemma {:induction false} IntersectNothing(a: seq<nat>)
    ensures Intersect(a, []) == []
  {
    if a != [] {
      IntersectNothing(a[1..]);
    }
  }

  /** Removing nothing leaves the list as it was. */
  lemma {:induction false} SetDiffNothing(a: seq<nat>)
    ensures SetDiff(a, []) == a
  {
    if a != [] {
      SetDiffNothing(a[1..]);
      assert a == [a[0]] + a[1..];
    }
  }
}
