/**
 * The first pass of ComputeClusters.py (lines 26-55): provisional labels.
 * The smallest pending particle becomes the seed and is marked visited; an
 * isolated seed just leaves the pending list, any other seed opens a new
 * label that goes to every pending contact, and those contacts leave the
 * pending list (`func_updatelist`).
 */
module FirstPass {
  import opened SetOps
  import opened Contacts

  /**
   * Columns 1 and 2 of `neighbormatrix` (label and visited flag), the pending
   * list and the running `clusterindex`.
   */
  datatype Table = Table(labels: seq<int>, visited: seq<bool>, pending: seq<nat>, clusterIndex: nat)

  predicate WellFormed(c: Relation, t: Table) {
    && |t.labels| == |c| && |t.visited| == |c|
    && (forall k :: 0 <= k < |t.pending| ==> t.pending[k] < |c|)
    && Increasing(t.pending)
  }

  /** `np.arange(n)` */
  function Range(n: nat): seq<nat> {
    seq(n, k requires 0 <= k < n => k)
  }

  /** The table after lines 33-39: every label 0, nothing visited, everything pending. */
  function Initial(n: nat): Table {
    Table(seq(n, _ => 0), seq(n, _ => false), Range(n), 0)
  }

  /** `neighbormatrix[group, 1] = index` */
  function Assign(labels: seq<int>, group: seq<nat>, index: int): seq<int> {
    seq(|labels|, j requires 0 <= j < |labels| => if j in group then index else labels[j])
  }

  /** One round of the `while` loop at lines 42-55. */
  function Step(c: Relation, t: Table): (r: Table)
    requires (forall i :: 0 <= i < |c| ==> |c[i]| == |c|)
    requires WellFormed(c, t) && t.pending != []
    ensures WellFormed(c, r)
    ensures InContact(c, t.pending[0], t.pending[0]) ==> |r.pending| < |t.pending|
  {
    var seed := t.pending[0];
    var contacts := ContactList(c, seed);
    var visited := t.visited[seed := true];
    if |contacts| == 1 then
      var pending := SetDiff(t.pending, [seed]);
      MembersBelow(pending, t.pending, |c|);
      Table(t.labels, visited, pending, t.clusterIndex)
    else
      var index := t.clusterIndex + 1;
      var group := Intersect(t.pending, contacts);
      var pending := SetDiff(t.pending, group);
      MembersBelow(pending, t.pending, |c|);
      Table(Assign(t.labels, group, index), visited, pending, index)
  }

  /** The rest of the `while` loop from table `t`: it runs until nothing is pending. */
  function Run(c: Relation, t: Table): (r: Table)
    requires IsContactRelation(c) && WellFormed(c, t)
    ensures WellFormed(c, r) && r.pending == []
    decreases |t.pending|
  {
    if t.pending == [] then t else Run(c, Step(c, t))
  }

  /** The table the first pass leaves behind. */
  ghost function Provisional(c: Relation): Table
    requires IsContactRelation(c)
  {
    Run(c, Initial(|c|))
  }

  /**
   * What one round does: the seed, and only the seed, is marked visited; the
   * pending contacts of the seed, and only they, leave the pending list; they
   * receive a fresh label unless the seed is isolated; no other label moves.
   */
  lemma StepEffect(c: Relation, t: Table)
    requires IsContactRelation(c) && WellFormed(c, t) && t.pending != []
    ensures var seed, r := t.pending[0], Step(c, t);
      && r.visited == t.visited[seed := true]
      && r.clusterIndex == (if Isolated(c, seed) then t.clusterIndex else t.clusterIndex + 1)
      && (forall p :: p in r.pending <==> p in t.pending && !InContact(c, seed, p))
      && (forall j :: 0 <= j < |c| ==>
            r.labels[j] == if j in t.pending && InContact(c, seed, j) && !Isolated(c, seed)
                           then r.clusterIndex else t.labels[j])
  {
    SingleContactIffIsolated(c, t.pending[0]);
  }

  /**
   * With dp <= 0 no particle is in contact with anything, not even itself:
   * a round marks the seed visited, leaves every label and the pending list
   * as they were, and only bumps the label counter.
   */
  lemma {:induction false} StepStallsWithoutSelfContact(c: Relation, t: Table)
    requires forall i :: 0 <= i < |c| ==> |c[i]| == |c|
    requires WellFormed(c, t) && t.pending != []
    requires forall j :: !InContact(c, t.pending[0], j)
    ensures Step(c, t).pending == t.pending
    ensures Step(c, t).labels == t.labels
    ensures Step(c, t).visited == t.visited[t.pending[0] := true]
    ensures Step(c, t).clusterIndex == t.clusterIndex + 1
  {
    var seed := t.pending[0];
    forall j | 0 <= j < |c| ensures !c[seed][j] {
      assert !InContact(c, seed, j);
    }
    WhereOnly(c[seed], 0, |c|);
    IntersectNothing(t.pending);
    SetDiffNothing(t.pending);
  }

  /**
   * `k` rounds of the loop at line 42 when no particle touches any other:
   * the pending list never changes, so the loop never ends.
   */
  function Rounds(c: Relation, t: Table, k: nat): (r: Table)
    requires WellFormed(c, t) && t.pending != [] && NoContacts(c)
    ensures WellFormed(c, r)
    ensures r.pending == t.pending && r.labels == t.labels
    ensures r.clusterIndex == t.clusterIndex + k
    decreases k
  {
    if k == 0 then t
    else
      StepStallsWithoutSelfContact(c, t);
      Rounds(c, Step(c, t), k - 1)
  }

  /** A single particle with dp <= 0: the first round leaves it pending. */
  lemma OneParticleStalls()
    ensures Step([[false]], Initial(1)) == Table([0], [true], [0], 1)
  {
  }

  /**
   * Line 50 corrected: a seed without any contact, as every particle is when
   * dp <= 0, is treated like an isolated seed.
   */
  function StepFixed(c: Relation, t: Table): (r: Table)
    requires (forall i :: 0 <= i < |c| ==> |c[i]| == |c|)
    requires WellFormed(c, t) && t.pending != []
    ensures WellFormed(c, r)
    ensures InContact(c, t.pending[0], t.pending[0]) || NoContacts(c) ==> |r.pending| < |t.pending|
  {
    var seed := t.pending[0];
    if |ContactList(c, seed)| == 0 then
      var pending := SetDiff(t.pending, [seed]);
      MembersBelow(pending, t.pending, |c|);
      Table(t.labels, t.visited[seed := true], pending, t.clusterIndex)
    else
      assert InContact(c, seed, ContactList(c, seed)[0]);
      Step(c, t)
  }

  /** The corrected loop: it ends for dp > 0 and for dp <= 0 alike. */
  function RunFixed(c: Relation, t: Table): (r: Table)
    requires IsContactRelation(c) || NoContacts(c)
    requires (forall i :: 0 <= i < |c| ==> |c[i]| == |c|)
    requires WellFormed(c, t)
    ensures WellFormed(c, r) && r.pending == []
    decreases |t.pending|
  {
    if t.pending == [] then t else RunFixed(c, StepFixed(c, t))
  }

  /** For dp > 0 the correction changes nothing: the corrected loop is the loop as written. */
  lemma {:induction false} RunFixedAgrees(c: Relation, t: Table)
    requires IsContactRelation(c) && WellFormed(c, t)
    ensures RunFixed(c, t) == Run(c, t)
    decreases |t.pending|
  {
    if t.pending != [] {
      assert t.pending[0] in ContactList(c, t.pending[0]);
      RunFixedAgrees(c, Step(c, t));
    }
  }

  /** Without contacts a corrected run leaves labels and counter as they were. */
  lemma {:induction false} RunFixedKeepsLabels(c: Relation, t: Table)
    requires NoContacts(c) && WellFormed(c, t)
    ensures RunFixed(c, t).labels == t.labels
    ensures RunFixed(c, t).clusterIndex == t.clusterIndex
    decreases |t.pending|
  {
    if t.pending != [] {
      var seed := t.pending[0];
      forall j | 0 <= j < |c| ensures !c[seed][j] {
        assert !InContact(c, seed, j);
      }
      WhereOnly(c[seed], 0, |c|);
      RunFixedKeepsLabels(c, StepFixed(c, t));
    }
  }

  /**
   * With dp <= 0 the corrected first pass ends with every particle
   * isolated and labelled 0, which is the clustering.
   */
  lemma RunFixedWithoutContacts(c: Relation)
    requires NoContacts(c)
    ensures var t := RunFixed(c, Initial(|c|));
      && t.pending == []
      && (forall j :: 0 <= j < |c| ==> t.labels[j] == 0)
      && IsClustering(c, t.labels)
  {
    var t := Initial(|c|);
    forall a, b | 0 <= a < b < |t.pending| ensures t.pending[a] < t.pending[b] { }
    RunFixedKeepsLabels(c, t);
  }

  // The invariant of the `while` loop, conjunct by conjunct.

  /** Pending particles still carry label 0 and are not visited. */
  ghost predicate PendingFresh(c: Relation, t: Table)
    requires WellFormed(c, t)
  {
    forall p :: p in t.pending ==> t.labels[p] == 0 && !t.visited[p]
  }

  /** Every seed so far is smaller than, and not in contact with, every pending particle. */
  ghost predicate SeedsBeforePending(c: Relation, t: Table)
    requires WellFormed(c, t)
  {
    forall s, p :: 0 <= s < |c| && t.visited[s] && p in t.pending ==> s < p && !InContact(c, s, p)
  }

  /** No two seeds are in contact. */
  ghost predicate SeedsApart(c: Relation, visited: seq<bool>)
    requires |visited| == |c|
  {
    forall s, s' :: 0 <= s < |c| && 0 <= s' < |c| && visited[s] && visited[s'] && s != s' ==>
      !InContact(c, s, s')
  }

  /** Settled particles carry label 0 exactly when they are isolated. */
  ghost predicate SettledZeroIffIsolated(c: Relation, t: Table)
    requires WellFormed(c, t)
  {
    forall j :: 0 <= j < |c| && j !in t.pending ==> (t.labels[j] == 0 <==> Isolated(c, j))
  }

  /** Settled isolated particles were seeds. */
  ghost predicate SettledIsolatedVisited(c: Relation, t: Table)
    requires WellFormed(c, t)
  {
    forall j :: 0 <= j < |c| && j !in t.pending && Isolated(c, j) ==> t.visited[j]
  }

  /** Labels lie in 0..clusterindex. */
  ghost predicate LabelsBounded(t: Table) {
    forall j :: 0 <= j < |t.labels| ==> 0 <= t.labels[j] <= t.clusterIndex
  }

  /** Some seed holds label `l`. */
  ghost predicate HeldBySeed(t: Table, l: int)
    requires |t.labels| == |t.visited|
  {
    exists s :: 0 <= s < |t.labels| && t.visited[s] && t.labels[s] == l
  }

  /** Each label 1..clusterindex is held by a seed, the one that opened it. */
  ghost predicate SeedOwnsLabel(t: Table)
    requires |t.labels| == |t.visited|
  {
    forall l :: 1 <= l <= t.clusterIndex ==> HeldBySeed(t, l)
  }

  /** Every label opened used up a pending particle, so the counter never outruns the particles. */
  ghost predicate CounterBudget(c: Relation, t: Table) {
    t.clusterIndex + |t.pending| <= |c|
  }

  ghost predicate Invariant(c: Relation, t: Table) {
    && IsContactRelation(c)
    && WellFormed(c, t)
    && PendingFresh(c, t)
    && SeedsBeforePending(c, t)
    && SeedsApart(c, t.visited)
    && SettledZeroIffIsolated(c, t)
    && SettledIsolatedVisited(c, t)
    && LabelsBounded(t)
    && SeedOwnsLabel(t)
    && Coherent(c, t.labels)
    && CounterBudget(c, t)
  }

  lemma InitialInvariant(c: Relation)
    requires IsContactRelation(c)
    ensures Invariant(c, Initial(|c|))
  {
    var t := Initial(|c|);
    forall j | 0 <= j < |c| ensures j in t.pending {
      assert t.pending[j] == j;
    }
    forall a, b | 0 <= a < b < |t.pending| ensures t.pending[a] < t.pending[b] { }
  }

  /** Pending particles stay unlabelled and unvisited, and labels stay within the counter. */
  lemma StepKeepsFresh(c: Relation, t: Table)
    requires IsContactRelation(c) && WellFormed(c, t) && t.pending != []
    requires PendingFresh(c, t) && LabelsBounded(t)
    ensures PendingFresh(c, Step(c, t)) && LabelsBounded(Step(c, t))
  {
  }

  /** The new seed lies below the particles still pending and touches none of them. */
  lemma StepKeepsSeedsBeforePending(c: Relation, t: Table)
    requires IsContactRelation(c) && WellFormed(c, t) && t.pending != []
    requires SeedsBeforePending(c, t)
    ensures SeedsBeforePending(c, Step(c, t))
  {
  }

  /** The new seed touches no earlier seed, since earlier seeds touch nothing pending. */
  lemma StepKeepsSeedsApart(c: Relation, t: Table)
    requires IsContactRelation(c) && WellFormed(c, t) && t.pending != []
    requires SeedsApart(c, t.visited) && SeedsBeforePending(c, t)
    ensures SeedsApart(c, Step(c, t).visited)
  {
  }

  /** Settled particles keep the meaning of label 0 across a round. */
  lemma StepKeepsSettled(c: Relation, t: Table)
    requires IsContactRelation(c) && WellFormed(c, t) && t.pending != []
    requires PendingFresh(c, t) && SettledZeroIffIsolated(c, t) && SettledIsolatedVisited(c, t)
    ensures var r := Step(c, t);
      SettledZeroIffIsolated(c, r) && SettledIsolatedVisited(c, r)
  {
    StepEffect(c, t);
    var seed, r := t.pending[0], Step(c, t);
    assert InContact(c, seed, seed);
    forall j | 0 <= j < |c| && j !in r.pending && j in t.pending
      ensures (r.labels[j] == 0 <==> Isolated(c, j)) && (Isolated(c, j) ==> r.visited[j])
    {
      assert InContact(c, seed, j) && InContact(c, j, seed);
    }
  }

  /** Every label still has its seed after a round. */
  lemma StepKeepsOwnership(c: Relation, t: Table)
    requires IsContactRelation(c) && WellFormed(c, t) && t.pending != []
    requires PendingFresh(c, t) && SeedOwnsLabel(t)
    ensures SeedOwnsLabel(Step(c, t))
  {
    StepEffect(c, t);
    var seed, r := t.pending[0], Step(c, t);
    assert InContact(c, seed, seed);
    forall l | 1 <= l <= r.clusterIndex ensures HeldBySeed(r, l) {
      if l <= t.clusterIndex {
        assert HeldBySeed(t, l);
        var s :| 0 <= s < |t.labels| && t.visited[s] && t.labels[s] == l;
        assert r.labels[s] == l && r.visited[s];
      } else {
        assert r.labels[seed] == l && r.visited[seed];
      }
    }
  }

  /** Particles sharing a label stay chained after a round: the fresh label goes to contacts of one seed. */
  lemma StepKeepsCoherent(c: Relation, t: Table)
    requires IsContactRelation(c) && WellFormed(c, t) && t.pending != []
    requires Coherent(c, t.labels) && LabelsBounded(t)
    ensures Coherent(c, Step(c, t).labels)
  {
    StepEffect(c, t);
    var seed, r := t.pending[0], Step(c, t);
    forall i, j | 0 <= i < |c| && 0 <= j < |c| && r.labels[i] == r.labels[j] != 0
      ensures Linked(c, i, j)
    {
      var iNew := i in t.pending && InContact(c, seed, i) && !Isolated(c, seed);
      var jNew := j in t.pending && InContact(c, seed, j) && !Isolated(c, seed);
      if iNew && jNew {
        assert InContact(c, i, seed);
        LinkedEdge(c, i, seed);
        LinkedEdge(c, seed, j);
        LinkedTrans(c, i, seed, j);
      } else if !iNew && !jNew {
        assert t.labels[i] == t.labels[j];
      } else {
        assert false;
      }
    }
  }

  /** A round that opens a label also removes its seed from the pending list. */
  lemma StepKeepsBudget(c: Relation, t: Table)
    requires IsContactRelation(c) && WellFormed(c, t) && t.pending != []
    requires CounterBudget(c, t)
    ensures CounterBudget(c, Step(c, t))
  {
  }

  lemma StepKeepsInvariant(c: Relation, t: Table)
    requires Invariant(c, t) && t.pending != []
    ensures Invariant(c, Step(c, t))
  {
    StepKeepsFresh(c, t);
    StepKeepsSeedsBeforePending(c, t);
    StepKeepsSeedsApart(c, t);
    StepKeepsSettled(c, t);
    StepKeepsOwnership(c, t);
    StepKeepsCoherent(c, t);
    StepKeepsBudget(c, t);
  }

  lemma {:induction false} RunKeepsInvariant(c: Relation, t: Table)
    requires Invariant(c, t)
    ensures Invariant(c, Run(c, t))
    decreases |t.pending|
  {
    if t.pending != [] {
      StepKeepsInvariant(c, t);
      RunKeepsInvariant(c, Step(c, t));
    }
  }

  /**
   * Labels are written at most once: a particle that has left the pending
   * list keeps its label, and its visited flag, to the end of the pass.
   */
  lemma {:induction false} RunKeepsSettled(c: Relation, t: Table, j: int)
    requires IsContactRelation(c) && WellFormed(c, t)
    requires 0 <= j < |c| && j !in t.pending
    ensures Run(c, t).labels[j] == t.labels[j]
    ensures Run(c, t).visited[j] == t.visited[j]
    decreases |t.pending|
  {
    if t.pending != [] {
      StepEffect(c, t);
      RunKeepsSettled(c, Step(c, t), j);
    }
  }

  /**
   * Seeds are taken in increasing index order: the next seed is not yet
   * visited and lies above every particle visited so far.
   */
  lemma SeedsIncrease(c: Relation, t: Table)
    requires Invariant(c, t) && t.pending != []
    ensures !t.visited[t.pending[0]]
    ensures forall s :: 0 <= s < |c| && t.visited[s] ==> s < t.pending[0]
  {
  }

  /** What the later passes rely on: the table left by the first pass. */
  ghost predicate Outcome(c: Relation, labels: seq<int>, visited: seq<bool>) {
    && IsContactRelation(c)
    && |labels| == |c| && |visited| == |c|
    && ZeroIffIsolated(c, labels)
    && Coherent(c, labels)
    && NonNegative(labels)
    && SeedsApart(c, visited)
    && (forall j :: 0 <= j < |c| && Isolated(c, j) ==> visited[j])
  }

  /**
   * After the first pass nothing is pending; label 0 marks exactly the
   * isolated particles; labels lie in 0..clusterindex, clusterindex is at
   * most the number of particles, and each value
   * 1..clusterindex is held by a seed; no two seeds are in contact; every
   * isolated particle was a seed; particles sharing a label are chained.
   */
  lemma ProvisionalFacts(c: Relation)
    requires IsContactRelation(c)
    ensures var t := Provisional(c);
      && t.pending == []
      && Outcome(c, t.labels, t.visited)
      && LabelsBounded(t)
      && t.clusterIndex <= |c|
      && SeedOwnsLabel(t)
  {
    InitialInvariant(c);
    RunKeepsInvariant(c, Initial(|c|));
  }

  /** `func_updatelist` (lines 26-30): label the group and drop it from the pending list. */
  method UpdateList(group: seq<nat>, index: int, labels: array<int>, pending: seq<nat>)
    returns (pending': seq<nat>)
    modifies labels
    ensures labels[..] == Assign(old(labels[..]), group, index)
    ensures pending' == SetDiff(pending, group)
  {
    forall j | 0 <= j < labels.Length && j in group {
      labels[j] := index;
    }
    pending' := SetDiff(pending, group);
  }

  /** One round of the `while` loop (lines 43-55), on the table in place. */
  method Round(c: Relation, labels: array<int>, visited: array<bool>, pending: seq<nat>, clusterIndex: nat)
    returns (pending': seq<nat>, clusterIndex': nat)
    requires IsContactRelation(c)
    requires WellFormed(c, Table(labels[..], visited[..], pending, clusterIndex)) && pending != []
    modifies labels, visited
    ensures Table(labels[..], visited[..], pending', clusterIndex')
         == Step(c, Table(old(labels[..]), old(visited[..]), pending, clusterIndex))
  {
    var seed := pending[0];
    visited[seed] := true;
    var contacts := ContactList(c, seed);
    if |contacts| == 1 {
      pending', clusterIndex' := SetDiff(pending, [seed]), clusterIndex;
    } else {
      clusterIndex' := clusterIndex + 1;
      pending' := UpdateList(Intersect(pending, contacts), clusterIndex', labels, pending);
    }
  }

  /** Lines 32-55: build the table and run the first pass over it. */
  method LabelProvisionally(c: Relation) returns (labels: array<int>, visited: array<bool>, clusterIndex: nat)
    requires IsContactRelation(c)
    ensures fresh(labels) && fresh(visited)
    ensures labels[..] == Provisional(c).labels && visited[..] == Provisional(c).visited
    ensures clusterIndex == Provisional(c).clusterIndex
    ensures Outcome(c, labels[..], visited[..])
  {
    var n := |c|;
    labels := new int[n](_ => 0);
    visited := new bool[n](_ => false);
    var pending := Range(n);
    clusterIndex := 0;
    assert Table(labels[..], visited[..], pending, clusterIndex) == Initial(n);
    InitialInvariant(c);
    while pending != []
      invariant WellFormed(c, Table(labels[..], visited[..], pending, clusterIndex))
      invariant Run(c, Table(labels[..], visited[..], pending, clusterIndex)) == Provisional(c)
      decreases |pending|
    {
      pending, clusterIndex := Round(c, labels, visited, pending, clusterIndex);
    }
    ProvisionalFacts(c);
  }
}
