/**
 * The second pass of ComputeClusters.py (lines 58-67): equivalence merge.
 * Every particle that was never a seed, in increasing index order, looks at
 * the labels E held by its contacts; when E holds more than one label, every
 * particle whose label is in E takes min(E).
 */
module SecondPass {
  import opened SetOps
  import opened Contacts
  import opened FirstPass

  /** `neighbormatrix[particlesincontact, 1]`: the labels of the contacts of `i`, in index order. */
  function ContactLabels(c: Relation, labels: seq<int>, i: nat): seq<int>
    requires i < |c| && |c[i]| == |c| && |labels| == |c|
  {
    var contacts := ContactList(c, i);
    seq(|contacts|, k requires 0 <= k < |contacts| => assert contacts[k] in contacts; labels[contacts[k]])
  }

  /** The labels of the contacts of `i` are exactly the labels of the particles `i` touches. */
  lemma ContactLabelsHeld(c: Relation, labels: seq<int>, i: nat)
    requires i < |c| && |c[i]| == |c| && |labels| == |c|
    ensures forall j :: InContact(c, i, j) ==> labels[j] in ContactLabels(c, labels, i)
    ensures forall x :: x in ContactLabels(c, labels, i) ==> exists j :: InContact(c, i, j) && labels[j] == x
  {
    var contacts := ContactList(c, i);
    var held := ContactLabels(c, labels, i);
    forall j | InContact(c, i, j) ensures labels[j] in held {
      assert j in contacts;
      var k :| 0 <= k < |contacts| && contacts[k] == j;
      assert held[k] == labels[j];
    }
    forall x | x in held ensures exists j :: InContact(c, i, j) && labels[j] == x {
      var k :| 0 <= k < |held| && held[k] == x;
      assert contacts[k] in contacts;
    }
  }

  /** `np.min`: the least element of a non-empty list. */
  function MinOf(s: seq<int>): (m: int)
    requires |s| > 0
    ensures m in s && forall x :: x in s ==> m <= x
  {
    if |s| == 1 then s[0]
    else
      var rest := MinOf(s[1..]);
      assert forall x :: x in s ==> x == s[0] || x in s[1..];
      if s[0] <= rest then s[0] else rest
  }

  /** `neighbormatrix[np.isin(neighbormatrix[:, 1], E), 1] = m` */
  function Relabel(labels: seq<int>, E: set<int>, m: int): seq<int> {
    seq(|labels|, j requires 0 <= j < |labels| => if labels[j] in E then m else labels[j])
  }

  /** One round of the `for` loop at lines 59-67, for particle `i`. */
  function Merge(c: Relation, visited: seq<bool>, labels: seq<int>, i: nat): (r: seq<int>)
    requires i < |c| && |c[i]| == |c| && |labels| == |c| && |visited| == |c|
    ensures |r| == |labels|
  {
    if visited[i] then labels
    else
      var held := ContactLabels(c, labels, i);
      var E := set x | x in held;
      if |E| > 1 then
        assert held[0] in E;
        Relabel(labels, E, MinOf(held))
      else labels
  }

  /** The loop from particle `i` on. */
  function Sweep(c: Relation, visited: seq<bool>, labels: seq<int>, i: nat): (r: seq<int>)
    requires (forall k :: 0 <= k < |c| ==> |c[k]| == |c|)
    requires |labels| == |c| && |visited| == |c| && i <= |c|
    ensures |r| == |labels|
    decreases |c| - i
  {
    if i == |c| then labels else Sweep(c, visited, Merge(c, visited, labels, i), i + 1)
  }

  /** A set with at most one element has no two different elements. */
  lemma AtMostOne(E: set<int>, x: int, y: int)
    requires |E| <= 1 && x in E && y in E
    ensures x == y
  {
    assert |E - {x}| == |E| - 1;
    assert x != y ==> y in E - {x};
  }

  /**
   * The effect of merging at particle `i`: a visited particle changes
   * nothing; otherwise every particle whose label some contact of `i`
   * holds ends with the label of `i`, which is the least such label and one
   * that a contact held; labels no contact holds are untouched, and
   * particles that shared a label still share one.
   */
  lemma MergeEffect(c: Relation, visited: seq<bool>, labels: seq<int>, i: nat)
    requires IsContactRelation(c) && |labels| == |c| && |visited| == |c| && i < |c|
    ensures var r := Merge(c, visited, labels, i);
      && (visited[i] ==> r == labels)
      && (exists k :: InContact(c, i, k) && r[i] == labels[k])
      && (forall j :: 0 <= j < |c| && (forall k :: InContact(c, i, k) ==> labels[k] != labels[j]) ==>
            r[j] == labels[j])
      && (!visited[i] ==> forall j, k :: 0 <= j < |c| && InContact(c, i, k) && labels[j] == labels[k] ==>
            r[j] == r[i] && r[i] <= labels[j])
      && (forall a, b :: 0 <= a < |c| && 0 <= b < |c| && labels[a] == labels[b] ==> r[a] == r[b])
  {
    var r := Merge(c, visited, labels, i);
    ContactLabelsHeld(c, labels, i);
    assert InContact(c, i, i);
    if !visited[i] {
      var held := ContactLabels(c, labels, i);
      var E := set x | x in held;
      if |E| > 1 {
        var m := MinOf(held);
        assert r == Relabel(labels, E, m);
        assert labels[i] in held;
        assert r[i] == m;
        var k :| InContact(c, i, k) && labels[k] == m;
        assert r[i] == labels[k];
      } else {
        forall j, k | 0 <= j < |c| && InContact(c, i, k) && labels[j] == labels[k]
          ensures r[j] == r[i] && r[i] <= labels[j]
        {
          assert labels[k] in E && labels[i] in E;
          AtMostOne(E, labels[k], labels[i]);
        }
      }
    }
  }

  /** Every unvisited particle before `i` shares its label with each of its contacts. */
  ghost predicate AgreeBefore(c: Relation, visited: seq<bool>, labels: seq<int>, i: nat)
    requires |labels| == |c| && |visited| == |c|
  {
    forall a, b :: 0 <= a < i && a < |c| && !visited[a] && InContact(c, a, b) ==> labels[a] == labels[b]
  }

  /** Zero never occurs among the labels merged, so the meaning of label 0 survives. */
  lemma MergeKeepsZero(c: Relation, visited: seq<bool>, labels: seq<int>, i: nat)
    requires Outcome(c, labels, visited) && i < |c|
    ensures ZeroIffIsolated(c, Merge(c, visited, labels, i))
    ensures NonNegative(Merge(c, visited, labels, i))
  {
    var r := Merge(c, visited, labels, i);
    MergeEffect(c, visited, labels, i);
    if !visited[i] {
      var k0 :| InContact(c, i, k0) && r[i] == labels[k0];
      assert InContact(c, k0, i);
      assert !Isolated(c, k0);
      forall j | 0 <= j < |c| ensures (r[j] == 0 <==> Isolated(c, j)) && r[j] >= 0 {
        if exists k :: InContact(c, i, k) && labels[k] == labels[j] {
          var k :| InContact(c, i, k) && labels[k] == labels[j];
          assert InContact(c, k, i);
          assert !Isolated(c, k) && !Isolated(c, j);
        }
      }
    }
  }

  /** Merging keeps chains behind shared labels: all merged particles are chained through `i`. */
  lemma MergeKeepsCoherent(c: Relation, visited: seq<bool>, labels: seq<int>, i: nat)
    requires Outcome(c, labels, visited) && i < |c|
    ensures Coherent(c, Merge(c, visited, labels, i))
  {
    var r := Merge(c, visited, labels, i);
    MergeEffect(c, visited, labels, i);
    forall a, b | 0 <= a < |c| && 0 <= b < |c| && r[a] == r[b] != 0
      ensures Linked(c, a, b)
    {
      var aIn := exists k :: InContact(c, i, k) && labels[k] == labels[a];
      var bIn := exists k :: InContact(c, i, k) && labels[k] == labels[b];
      if visited[i] || (!aIn && !bIn) {
        assert labels[a] == labels[b];
      } else if aIn && bIn {
        var ka :| InContact(c, i, ka) && labels[ka] == labels[a];
        var kb :| InContact(c, i, kb) && labels[kb] == labels[b];
        ChainThrough(c, labels, i, a, ka);
        ChainThrough(c, labels, i, b, kb);
        LinkedTrans(c, a, i, b);
      } else {
        assert false;
      }
    }
  }

  /**
   * A particle whose label a contact `k` of `i` holds is chained to `i`,
   * and `i` to it.
   */
  lemma ChainThrough(c: Relation, labels: seq<int>, i: nat, a: nat, k: int)
    requires IsContactRelation(c) && |labels| == |c| && Coherent(c, labels) && ZeroIffIsolated(c, labels)
    requires a < |c| && InContact(c, i, k) && labels[k] == labels[a] && !Isolated(c, i)
    ensures Linked(c, a, i) && Linked(c, i, a)
  {
    if k != i {
      assert InContact(c, k, i);
      assert !Isolated(c, k);
      LinkedEdge(c, k, i);
      LinkedEdge(c, i, k);
      LinkedTrans(c, a, k, i);
      LinkedTrans(c, i, k, a);
    }
  }

  /** A merge keeps everything the first pass established. */
  lemma MergeKeepsOutcome(c: Relation, visited: seq<bool>, labels: seq<int>, i: nat)
    requires Outcome(c, labels, visited) && i < |c|
    ensures Outcome(c, Merge(c, visited, labels, i), visited)
  {
    MergeKeepsZero(c, visited, labels, i);
    MergeKeepsCoherent(c, visited, labels, i);
  }

  /** Agreement reached earlier survives a merge, and the merge adds agreement at `i`. */
  lemma MergeKeepsAgreement(c: Relation, visited: seq<bool>, labels: seq<int>, i: nat)
    requires IsContactRelation(c) && |labels| == |c| && |visited| == |c| && i < |c|
    requires AgreeBefore(c, visited, labels, i)
    ensures AgreeBefore(c, visited, Merge(c, visited, labels, i), i + 1)
  {
    MergeEffect(c, visited, labels, i);
  }

  /** The loop from `i` is the merge at `i` followed by the loop from `i + 1`. */
  lemma SweepUnfold(c: Relation, visited: seq<bool>, labels: seq<int>, i: nat)
    requires (forall k :: 0 <= k < |c| ==> |c[k]| == |c|)
    requires |labels| == |c| && |visited| == |c| && i < |c|
    ensures Sweep(c, visited, labels, i) == Sweep(c, visited, Merge(c, visited, labels, i), i + 1)
  {
  }

  /** The rest of the loop, from particle `i`, keeps everything the first pass established. */
  lemma SweepKeeps(c: Relation, visited: seq<bool>, labels: seq<int>, i: nat)
    requires Outcome(c, labels, visited) && i <= |c|
    ensures Outcome(c, Sweep(c, visited, labels, i), visited)
  {
    var l, k := labels, i;
    while k < |c|
      invariant k <= |c| && Outcome(c, l, visited)
      invariant Sweep(c, visited, l, k) == Sweep(c, visited, labels, i)
      decreases |c| - k
    {
      MergeKeepsOutcome(c, visited, l, k);
      SweepUnfold(c, visited, l, k);
      l, k := Merge(c, visited, l, k), k + 1;
    }
  }

  /** The rest of the loop ends with every non-seed sharing its label with all of its contacts. */
  lemma SweepAgrees(c: Relation, visited: seq<bool>, labels: seq<int>, i: nat)
    requires IsContactRelation(c) && |labels| == |c| && |visited| == |c| && i <= |c|
    requires AgreeBefore(c, visited, labels, i)
    ensures AgreeBefore(c, visited, Sweep(c, visited, labels, i), |c|)
  {
    var l, k := labels, i;
    while k < |c|
      invariant k <= |c| && |l| == |c|
      invariant AgreeBefore(c, visited, l, k)
      invariant Sweep(c, visited, l, k) == Sweep(c, visited, labels, i)
      decreases |c| - k
    {
      var next := Merge(c, visited, l, k);
      MergeKeepsAgreement(c, visited, l, k);
      SweepUnfold(c, visited, l, k);
      l, k := next, k + 1;
    }
  }

  /**
   * The second pass completes the clustering: since no two seeds touch, every
   * contact has an unvisited end, whose merge made both ends agree for good.
   */
  lemma SweepFindsClusters(c: Relation, visited: seq<bool>, labels: seq<int>)
    requires Outcome(c, labels, visited)
    ensures IsClustering(c, Sweep(c, visited, labels, 0))
    ensures NonNegative(Sweep(c, visited, labels, 0))
  {
    var r := Sweep(c, visited, labels, 0);
    SweepKeeps(c, visited, labels, 0);
    SweepAgrees(c, visited, labels, 0);
    forall a, b | InContact(c, a, b) ensures r[a] == r[b] {
      assert InContact(c, b, a);
    }
    ComponentsFromEdges(c, r);
  }

  /** Lines 60-67: the body of the loop, for particle `i`. */
  method MergeAt(c: Relation, labels: array<int>, visited: array<bool>, i: nat)
    requires (forall k :: 0 <= k < |c| ==> |c[k]| == |c|)
    requires labels.Length == |c| && visited.Length == |c| && i < |c|
    modifies labels
    ensures labels[..] == Merge(c, visited[..], old(labels[..]), i)
  {
    if !visited[i] {
      var held := ContactLabels(c, labels[..], i);
      var E := set x | x in held;
      if |E| > 1 {
        assert held[0] in E;
        var m := MinOf(held);
        forall j | 0 <= j < labels.Length {
          labels[j] := if labels[j] in E then m else labels[j];
        }
      }
    }
  }

  /** Lines 58-67: merge equivalent labels in place, particle by particle. */
  method ResolveEquivalences(c: Relation, labels: array<int>, visited: array<bool>)
    requires IsContactRelation(c) && labels.Length == |c| && visited.Length == |c|
    modifies labels
    ensures labels[..] == Sweep(c, visited[..], old(labels[..]), 0)
    ensures Outcome(c, old(labels[..]), visited[..]) ==> IsClustering(c, labels[..])
  {
    for i := 0 to labels.Length
      invariant Sweep(c, visited[..], labels[..], i) == Sweep(c, visited[..], old(labels[..]), 0)
    {
      MergeAt(c, labels, visited, i);
    }
    if Outcome(c, old(labels[..]), visited[..]) {
      SweepFindsClusters(c, visited[..], old(labels[..]));
    }
  }
}
