/**
 * The cluster distribution of ComputeClusters.py (lines 70-75): one row per
 * distinct label, in ascending label order, holding the number of particles
 * that carry the label; then the first row is removed. The centroid columns
 * are not modelled (floating-point means), so a row is its particle count.
 */
module Aggregate {
  import opened SetOps
  import opened Contacts

  /** `sum(labels == v)`: how many entries of `s` equal `v`. */
  function Count(s: seq<int>, v: int): (r: nat)
    ensures r <= |s|
    ensures r > 0 <==> v in s
  {
    if s == [] then 0
    else (if s[0] == v then 1 else 0) + Count(s[1..], v)
  }

  /** Two different positions holding `v` make a count of at least two. */
  lemma {:induction false} CountTwo(s: seq<int>, v: int, a: nat, b: nat)
    requires a < |s| && b < |s| && a != b && s[a] == v && s[b] == v
    ensures Count(s, v) >= 2
  {
    if a == 0 {
      assert s[1..][b - 1] == v;
    } else if b == 0 {
      assert s[1..][a - 1] == v;
    } else {
      CountTwo(s[1..], v, a - 1, b - 1);
    }
  }

  /** A value occurs once in a list without duplicates that holds it. */
  lemma {:induction false} CountOnce(u: seq<int>, x: int)
    requires Increasing(u) && x in u
    ensures Count(u, x) == 1
  {
    TailAbove(u);
    if u[0] != x {
      CountOnce(u[1..], x);
    }
  }

  /** Put `x` into its place in an ascending list, unless it is already there. */
  function Insert(u: seq<int>, x: int): (r: seq<int>)
    ensures forall y :: y in r <==> y in u || y == x
    ensures Increasing(u) ==> Increasing(r)
  {
    if u == [] then [x]
    else if x < u[0] then
      ConsIncreasing(x, u);
      [x] + u
    else if x == u[0] then u
    else
      var rest := Insert(u[1..], x);
      TailAbove(u);
      ConsIncreasing(u[0], rest);
      [u[0]] + rest
  }

  /** `np.unique`: the distinct values of `s`, ascending. */
  function Unique(s: seq<int>): (u: seq<int>)
    ensures Increasing(u)
    ensures forall x :: x in u <==> x in s
  {
    if s == [] then [] else Insert(Unique(s[1..]), s[0])
  }

  /** Column 0 of the distribution: the count of each value of `u` in `s`. */
  function Counts(s: seq<int>, u: seq<int>): (r: seq<nat>)
    ensures |r| == |u|
    ensures forall k :: 0 <= k < |u| ==> r[k] == Count(s, u[k])
  {
    if u == [] then [] else [Count(s, u[0])] + Counts(s, u[1..])
  }

  function Sum(r: seq<nat>): nat {
    if r == [] then 0 else r[0] + Sum(r[1..])
  }

  /** Sums add up over a concatenation. */
  lemma {:induction false} SumAppend(a: seq<nat>, b: seq<nat>)
    ensures Sum(a + b) == Sum(a) + Sum(b)
  {
    if a == [] {
      assert a + b == b;
    } else {
      SumAppend(a[1..], b);
      assert (a + b)[1..] == a[1..] + b;
    }
  }

  /** Nothing to count gives only zero counts. */
  lemma {:induction false} CountsOfNothing(u: seq<int>)
    ensures Sum(Counts([], u)) == 0
  {
    if u != [] {
      CountsOfNothing(u[1..]);
    }
  }

  /** The first entry of `s` adds one to the count of each occurrence of it in `u`. */
  lemma {:induction false} CountsSplit(s: seq<int>, u: seq<int>)
    requires |s| > 0
    ensures Sum(Counts(s, u)) == Count(u, s[0]) + Sum(Counts(s[1..], u))
  {
    if u != [] {
      CountsSplit(s, u[1..]);
    }
  }

  /**
   * The counts over a list of distinct values covering `s` add up to `|s|`:
   * every particle is counted in exactly one row.
   */
  lemma {:induction false} CountsCover(s: seq<int>, u: seq<int>)
    requires Increasing(u) && forall x :: x in s ==> x in u
    ensures Sum(Counts(s, u)) == |s|
  {
    if s == [] {
      CountsOfNothing(u);
    } else {
      CountsSplit(s, u);
      CountOnce(u, s[0]);
      CountsCover(s[1..], u);
    }
  }

  /**
   * Lines 71-74: one row per distinct label, filled in a loop; row `k`
   * counts the particles carrying the `k`-th smallest label.
   */
  method Distribution(labels: seq<int>) returns (rows: array<nat>)
    ensures fresh(rows)
    ensures rows[..] == Counts(labels, Unique(labels))
  {
    var u := Unique(labels);
    rows := new nat[|u|];
    for k := 0 to |u|
      invariant forall m :: 0 <= m < k ==> rows[m] == Count(labels, u[m])
    {
      rows[k] := Count(labels, u[k]);
    }
  }

  /** Every row counts a label that some particle carries, and the rows count every particle once. */
  lemma DistributionCounts(labels: seq<int>)
    ensures var rows := Counts(labels, Unique(labels));
      && (forall k :: 0 <= k < |rows| ==> rows[k] > 0)
      && Sum(rows) == |labels|
  {
    CountsCover(labels, Unique(labels));
  }

  /** Line 75 as written: the first row goes, whatever label it stands for. */
  function DropFirstRow(rows: seq<nat>): (r: seq<nat>)
    ensures |rows| > 0 ==> rows == [rows[0]] + r
    ensures |rows| == 0 ==> r == []
  {
    if |rows| == 0 then [] else rows[1..]
  }

  /** The report as the source computes it. */
  function ReportAsWritten(labels: seq<int>): seq<nat> {
    DropFirstRow(Counts(labels, Unique(labels)))
  }

  /** The report as intended: only the row of label 0, the isolated particles, goes. */
  function Report(labels: seq<int>): seq<nat> {
    var u := Unique(labels);
    var rows := Counts(labels, u);
    if |u| > 0 && u[0] == 0 then rows[1..] else rows
  }

  /** Distinct labels without 0. */
  function ClusterLabels(labels: seq<int>): (u: seq<int>)
    requires NonNegative(labels)
    ensures Increasing(u)
    ensures forall x :: x in u <==> x in labels && x != 0
  {
    var all := Unique(labels);
    if |all| == 0 then []
    else
      TailAbove(all);
      assert all[0] in labels;
      if all[0] == 0 then all[1..] else all
  }

  /** With non-negative labels the first row is the row of label 0 exactly when 0 occurs. */
  lemma FirstRowIsZeroRow(labels: seq<int>)
    requires NonNegative(labels) && |labels| > 0
    ensures Unique(labels)[0] == 0 <==> 0 in labels
  {
    var u := Unique(labels);
    assert labels[0] in u;
    TailAbove(u);
    assert u[0] in labels;
  }

  /**
   * The intended report has one row per non-zero label, counting the
   * particles that carry it; together the rows count every particle whose
   * label is not 0.
   */
  lemma ReportCountsClusters(labels: seq<int>)
    requires NonNegative(labels)
    ensures Report(labels) == Counts(labels, ClusterLabels(labels))
    ensures Sum(Report(labels)) + Count(labels, 0) == |labels|
  {
    var u := Unique(labels);
    CountsCover(labels, u);
    if |labels| > 0 {
      FirstRowIsZeroRow(labels);
    }
    if |u| > 0 && u[0] == 0 {
      var rows := Counts(labels, u);
      assert rows == [rows[0]] + rows[1..];
      SumAppend([rows[0]], rows[1..]);
    } else {
      assert Count(labels, 0) == 0;
    }
  }

  /**
   * When no particle carries label 0 the source's report loses the row of
   * the smallest cluster label and the particles it counts.
   */
  lemma AsWrittenLosesCluster(labels: seq<int>)
    requires |labels| > 0 && 0 !in labels
    ensures |ReportAsWritten(labels)| == |Report(labels)| - 1
    ensures Sum(ReportAsWritten(labels)) < Sum(Report(labels))
  {
  }

  /** Two particles in one cluster: the source reports no cluster at all. */
  lemma AsWrittenPairReport()
    ensures ReportAsWritten([1, 1]) == []
    ensures Report([1, 1]) == [2]
  {
  }
}
