/**
 * The whole of ComputeClusters.py's cluster detection: the first pass,
 * the second pass and the distribution of cluster sizes, with what the
 * three together achieve.
 */
module Clusters {
  import opened Contacts
  import opened FirstPass
  import opened SecondPass
  import opened Aggregate

  /** The labels column once both passes are done. */
  ghost function FinalLabels(c: Relation): (r: seq<int>)
    requires IsContactRelation(c)
    ensures |r| == |c|
  {
    Sweep(c, Provisional(c).visited, Provisional(c).labels, 0)
  }

  /**
   * Both passes together find the clusters exactly: isolated particles end
   * with label 0 and two other particles share a label exactly when a chain
   * of contacts joins them, however long the chain.
   */
  lemma TwoPassesFindClusters(c: Relation)
    requires IsContactRelation(c)
    ensures IsClustering(c, FinalLabels(c))
    ensures NonNegative(FinalLabels(c))
  {
    var t := Provisional(c);
    ProvisionalFacts(c);
    SweepFindsClusters(c, t.visited, t.labels);
  }

  /** A particle with a non-zero label shares it with another particle. */
  lemma LabelShared(c: Relation, labels: seq<int>, i: nat)
    requires IsContactRelation(c) && |labels| == |c| && IsClustering(c, labels)
    requires i < |c| && labels[i] != 0
    ensures Count(labels, labels[i]) >= 2
  {
    var j :| InContact(c, i, j) && j != i;
    assert InContact(c, j, i);
    assert !Isolated(c, j);
    LinkedEdge(c, i, j);
    CountTwo(labels, labels[i], i, j);
  }

  /**
   * The corrected report has one row per cluster, each of at least two
   * particles, and its rows count exactly the particles that are not isolated.
   */
  lemma ReportedClustersAreReal(c: Relation)
    requires IsContactRelation(c)
    ensures var labels := FinalLabels(c);
      var rows := Report(labels);
      && NonNegative(labels)
      && |rows| == |ClusterLabels(labels)|
      && (forall k :: 0 <= k < |rows| ==> rows[k] >= 2)
      && Sum(rows) + Count(labels, 0) == |c|
  {
    var labels := FinalLabels(c);
    TwoPassesFindClusters(c);
    ReportCountsClusters(labels);
    var u := ClusterLabels(labels);
    forall k | 0 <= k < |u| ensures Count(labels, u[k]) >= 2 {
      assert u[k] in u;
      var i :| 0 <= i < |labels| && labels[i] == u[k];
      LabelShared(c, labels, i);
    }
  }

  /**
   * The row line 75 drops is the row of the isolated particles exactly when
   * some particle is isolated.
   */
  lemma FirstRowIsIsolated(c: Relation)
    requires IsContactRelation(c) && |c| > 0
    ensures Unique(FinalLabels(c))[0] == 0 <==> exists i :: 0 <= i < |c| && Isolated(c, i)
  {
    var labels := FinalLabels(c);
    TwoPassesFindClusters(c);
    FirstRowIsZeroRow(labels);
    if exists i :: 0 <= i < |c| && Isolated(c, i) {
      var i :| 0 <= i < |c| && Isolated(c, i);
      assert labels[i] == 0;
    }
  }

  /**
   * When no particle is isolated, line 75 as written drops the row of a real
   * cluster, and its particles vanish from the report.
   */
  lemma AsWrittenDropsCluster(c: Relation)
    requires IsContactRelation(c) && |c| > 0
    requires forall i :: 0 <= i < |c| ==> !Isolated(c, i)
    ensures |ReportAsWritten(FinalLabels(c))| == |Report(FinalLabels(c))| - 1
    ensures Sum(ReportAsWritten(FinalLabels(c))) < Sum(Report(FinalLabels(c)))
  {
    var labels := FinalLabels(c);
    TwoPassesFindClusters(c);
    assert 0 !in labels;
    AsWrittenLosesCluster(labels);
  }

  /**
   * The script: label the particles in place in two passes, then report
   * the particle counts, once with line 75 as written and once corrected to
   * drop only the row of the isolated particles.
   */
  method ComputeClusters(c: Relation) returns (labels: array<int>, rowsAsWritten: seq<nat>, rows: seq<nat>)
    requires IsContactRelation(c)
    ensures fresh(labels)
    ensures labels[..] == FinalLabels(c)
    ensures IsClustering(c, labels[..])
    ensures rowsAsWritten == ReportAsWritten(labels[..])
    ensures rows == Report(labels[..])
  {
    var visited, clusterIndex;
    labels, visited, clusterIndex := LabelProvisionally(c);
    ResolveEquivalences(c, labels, visited);
    TwoPassesFindClusters(c);
    var distribution := Distribution(labels[..]);
    rowsAsWritten := DropFirstRow(distribution[..]);
    var u := Unique(labels[..]);
    rows := if |u| > 0 && u[0] == 0 then distribution[1..] else distribution[..];
  }
}
