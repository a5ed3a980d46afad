/**
 * The proximity graph of the particles. The distance test of the source
 * (`dist < dp`) is abstracted as a square boolean matrix `c`: `c[i][j]`
 * holds when particles `i` and `j` are closer than `dp`. Chains of
 * contacts, and the labellings that the clustering aims at, are defined here.
 */
module Contacts {
  import opened SetOps

  type Relation = seq<seq<bool>>

  /** Both indices are particles and they touch. */
  predicate InContact(c: Relation, i: int, j: int) {
    0 <= i < |c| && 0 <= j < |c| && j < |c[i]| && c[i][j]
  }

  /**
   * The relation the distance test produces when dp > 0: every particle is
   * closer than dp to itself, and the Euclidean distance is symmetric.
   */
  ghost predicate IsContactRelation(c: Relation) {
    && (forall i :: 0 <= i < |c| ==> |c[i]| == |c|)
    && (forall i :: 0 <= i < |c| ==> c[i][i])
    && (forall i, j :: InContact(c, i, j) ==> InContact(c, j, i))
  }

  /**
   * The relation the distance test produces when dp <= 0: a distance is
   * never negative, so no particle is closer than dp to any other, nor to itself.
   */
  ghost predicate NoContacts(c: Relation) {
    && (forall i :: 0 <= i < |c| ==> |c[i]| == |c|)
    && (forall i, j :: !InContact(c, i, j))
  }

  /** The ascending indices `j` with `row[j]`, from `lo` on: `np.where`. */
  function Where(row: seq<bool>, lo: nat): (r: seq<nat>)
    requires lo <= |row|
    ensures forall j :: j in r <==> lo <= j < |row| && row[j]
    ensures Increasing(r)
    decreases |row| - lo
  {
    if lo == |row| then []
    else
      var rest := Where(row, lo + 1);
      if !row[lo] then rest
      else
        ConsIncreasing(lo, rest);
        [lo] + rest
  }

  /** When at most `v` is set from `lo` on, `np.where` finds `v` or nothing. */
  lemma {:induction false} WhereOnly(row: seq<bool>, lo: nat, v: nat)
    requires lo <= |row|
    requires forall j :: lo <= j < |row| && row[j] ==> j == v
    ensures Where(row, lo) == if lo <= v < |row| && row[v] then [v] else []
    decreases |row| - lo
  {
    if lo < |row| {
      WhereOnly(row, lo + 1, v);
    }
  }

  /** `particlesincontact`: the contacts of particle `i`, ascending (lines 46-47). */
  function ContactList(c: Relation, i: nat): (r: seq<nat>)
    requires i < |c| && |c[i]| == |c|
    ensures forall j :: j in r <==> InContact(c, i, j)
    ensures Increasing(r)
  {
    Where(c[i], 0)
  }

  /** A particle whose only contact is itself. */
  ghost predicate Isolated(c: Relation, i: int) {
    forall j :: InContact(c, i, j) ==> j == i
  }

  /** The source's test `len(particlesincontact) == 1` is the test for an isolated particle. */
  lemma SingleContactIffIsolated(c: Relation, i: nat)
    requires IsContactRelation(c) && i < |c|
    ensures |ContactList(c, i)| == 1 <==> Isolated(c, i)
  {
    var r := ContactList(c, i);
    assert i in r;
    if |r| == 1 {
      forall j | InContact(c, i, j) ensures j == i {
        assert j in r;
      }
    }
    if Isolated(c, i) {
      WhereOnly(c[i], 0, i);
    }
  }

  /** A chain of particles, each in contact with the next. */
  ghost predicate IsPath(c: Relation, p: seq<int>) {
    && |p| > 0
    && (forall k :: 0 <= k < |p| ==> 0 <= p[k] < |c|)
    && (forall k :: 0 < k < |p| ==> InContact(c, p[k - 1], p[k]))
  }

  /** Particles `i` and `j` are joined by a chain of contacts. */
  ghost predicate Linked(c: Relation, i: int, j: int) {
    exists p :: IsPath(c, p) && p[0] == i && p[|p| - 1] == j
  }

  lemma LinkedEdge(c: Relation, i: int, j: int)
    requires InContact(c, i, j)
    ensures Linked(c, i, j)
  {
    assert IsPath(c, [i, j]);
  }

  /** Chains compose. */
  lemma LinkedTrans(c: Relation, i: int, j: int, k: int)
    requires Linked(c, i, j) && Linked(c, j, k)
    ensures Linked(c, i, k)
  {
    var p :| IsPath(c, p) && p[0] == i && p[|p| - 1] == j;
    var q :| IsPath(c, q) && q[0] == j && q[|q| - 1] == k;
    var pq := p + q[1..];
    forall m | 0 < m < |pq| ensures InContact(c, pq[m - 1], pq[m]) {
      if m >= |p| {
        assert pq[m] == q[m - |p| + 1];
        assert pq[m - 1] == q[m - |p|];
      }
    }
    assert IsPath(c, pq);
  }

  /** Every particle with a label is in contact with another particle. */
  ghost predicate ZeroIffIsolated(c: Relation, labels: seq<int>)
    requires |labels| == |c|
  {
    forall j :: 0 <= j < |c| ==> (labels[j] == 0 <==> Isolated(c, j))
  }

  /** Particles that share a non-zero label are joined by a chain of contacts. */
  ghost predicate Coherent(c: Relation, labels: seq<int>)
    requires |labels| == |c|
  {
    forall i, j :: 0 <= i < |c| && 0 <= j < |c| && labels[i] == labels[j] != 0 ==> Linked(c, i, j)
  }

  /** Particles in contact share their label. */
  ghost predicate EdgesAgree(c: Relation, labels: seq<int>)
    requires |labels| == |c|
  {
    forall a, b :: InContact(c, a, b) ==> labels[a] == labels[b]
  }

  predicate NonNegative(labels: seq<int>) {
    forall j :: 0 <= j < |labels| ==> labels[j] >= 0
  }

  /**
   * The aim of cluster detection: isolated particles carry label 0, and two
   * other particles share a label exactly when a chain of contacts joins them.
   */
  ghost predicate IsClustering(c: Relation, labels: seq<int>)
    requires |labels| == |c|
  {
    && ZeroIffIsolated(c, labels)
    && forall i, j :: 0 <= i < |c| && 0 <= j < |c| && !Isolated(c, i) && !Isolated(c, j) ==>
         (labels[i] == labels[j] <==> Linked(c, i, j))
  }

  /** A label that agrees across every contact agrees along every chain. */
  lemma {:induction false} PathAgrees(c: Relation, labels: seq<int>, p: seq<int>)
    requires |labels| == |c| && EdgesAgree(c, labels) && IsPath(c, p)
    ensures labels[p[|p| - 1]] == labels[p[0]]
    decreases |p|
  {
    if |p| > 1 {
      var q := p[..|p| - 1];
      assert IsPath(c, q) by {
        forall k | 0 < k < |q| ensures InContact(c, q[k - 1], q[k]) {
          assert q[k - 1] == p[k - 1] && q[k] == p[k];
        }
      }
      PathAgrees(c, labels, q);
      assert InContact(c, p[|p| - 2], p[|p| - 1]);
    }
  }

  /**
   * A labelling is the clustering as soon as zero marks exactly the isolated
   * particles, shared non-zero labels imply a chain, and contacts agree.
   */
  lemma ComponentsFromEdges(c: Relation, labels: seq<int>)
    requires |labels| == |c|
    requires ZeroIffIsolated(c, labels) && Coherent(c, labels) && EdgesAgree(c, labels)
    ensures IsClustering(c, labels)
  {
    forall i, j | 0 <= i < |c| && 0 <= j < |c| && !Isolated(c, i) && !Isolated(c, j) && Linked(c, i, j)
      ensures labels[i] == labels[j]
    {
      var p :| IsPath(c, p) && p[0] == i && p[|p| - 1] == j;
      PathAgrees(c, labels, p);
    }
  }
}
