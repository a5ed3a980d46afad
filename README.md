# Cluster detection of ComputeClusters.py, in Dafny

ComputeClusters.py detects clusters of particles. Two particles are in
contact when their centroids are closer than the particle size `dp`, and a
cluster is a set of particles joined by chains of contacts. The script works
on the table `neighbormatrix`, where column 1 holds a label and column 2 a
visited flag. It runs in three steps:

- **First pass (lines 26-55).** The smallest pending particle becomes a seed
  and is marked visited. An isolated seed just leaves the pending list. Any
  other seed opens a new label, `func_updatelist` writes that label to every
  pending contact, and those contacts leave the pending list.
- **Second pass (lines 58-67).** Every particle that never was a seed is
  taken in index order. When its contacts hold more than one label, every
  particle carrying one of those labels takes the smallest of them.
- **Aggregation (lines 70-75).** There is one row per distinct label, in
  ascending order, counting its particles. Then the first row is removed.

The model keeps the script's imperative form:

- The label and visited columns are `array<int>` and `array<bool>`.
- The first pass is a `while` loop over a sorted pending list
  (`FirstPass.LabelProvisionally`).
- The second pass relabels in place in a `for` loop
  (`SecondPass.ResolveEquivalences`).
- The distribution is filled row by row (`Aggregate.Distribution`).

Each method is proved equal to a value-level function: `FirstPass.Step` and
`FirstPass.Run` for the first pass, `SecondPass.Merge` and `SecondPass.Sweep`
for the second, `Aggregate.Counts` and `Aggregate.Unique` for aggregation.
The properties are proved about those functions.

The distance test `dist < dp` is abstracted as a square boolean matrix `c`.
`Contacts.IsContactRelation` requires it to be reflexive, which holds exactly
when `dp > 0`, and symmetric, which holds because the squared differences
are symmetric. numpy's `where`, `setdiff1d`, `intersect1d` and `unique` are modelled on
ascending lists of indices or labels (module `SetOps` and
`Aggregate.Unique`). `np.min` is taken over the contacts' labels in index
order (`SecondPass.MinOf`), and `np.isin` tests membership in the set of
those labels (`SecondPass.Relabel`).

The two passes are proved to find the connected components exactly
(`Clusters.TwoPassesFindClusters`), however long the chains of equivalent
labels are. It is sometimes said that a single merge sweep might not resolve
chains that need more than one indirection. That does not happen here:

- No two seeds are in contact, so every contact has an endpoint that is not
  a seed.
- The merge at that endpoint gives both ends the same label.
- Later merges never split a class, so the two ends stay equal.

For `dp <= 0` no particle is in contact even with itself
(`Contacts.NoContacts`), and the first pass as written never ends. The
corrected loop `FirstPass.RunFixed` treats a seed without contacts like an
isolated one. It is proved to end with every particle labelled 0 when
`dp <= 0`, and to equal the loop as written when `dp > 0`
(`FirstPass.RunFixedAgrees`). So every result the model proves for
`dp > 0` holds for the corrected loop too.

## Model

| member | source | states |
|---|---|---|
| SetOps.Intersect | ComputeClusters.py:55 | `intersect1d` of an ascending list: exactly the common elements, still ascending, no longer than the first list |
| SetOps.SetDiff | ComputeClusters.py:29 | `setdiff1d`: exactly the elements of the first list absent from the second, ascending; removing a present head shortens the list |
| Contacts.ContactList | ComputeClusters.py:46-47 | the contacts found by `np.where`: exactly the particles in contact with `i`, ascending |
| Contacts.SingleContactIffIsolated | ComputeClusters.py:50 | the test `len(particlesincontact) == 1` holds exactly when the particle touches nothing but itself |
| FirstPass.Step | ComputeClusters.py:42-55 | one round keeps the table well formed; when the seed touches itself the pending list strictly shrinks, so the loop terminates |
| FirstPass.Run | ComputeClusters.py:42-55 | the loop runs until the pending list is empty and leaves a well-formed table |
| FirstPass.StepEffect | ComputeClusters.py:43-55 | a round marks only the seed visited; exactly the pending contacts of the seed leave pending; they, and only they, get the new label unless the seed is isolated; the counter grows by one exactly for a non-isolated seed |
| FirstPass.StepStallsWithoutSelfContact | ComputeClusters.py:42-55 | when the seed touches nothing, not even itself (`dp <= 0`), a round marks the seed visited, leaves the pending list and every label unchanged, and bumps `clusterindex` |
| FirstPass.Rounds | ComputeClusters.py:42-55 | with no contacts at all, any number `k` of rounds leaves the pending list and the labels unchanged and raises `clusterindex` by `k`: the loop never ends |
| FirstPass.OneParticleStalls | ComputeClusters.py:42-55 | a single particle with `dp <= 0`: after the first round it is still pending, visited, with label 0 and `clusterindex` 1 |
| FirstPass.StepFixed | ComputeClusters.py:50-55 | line 50 corrected to treat an empty contact list like an isolated seed: the round keeps the table well formed and shrinks the pending list for `dp > 0` and for `dp <= 0` |
| FirstPass.RunFixed | ComputeClusters.py:42-55 | the corrected loop ends, with nothing pending, for `dp > 0` and for `dp <= 0` |
| FirstPass.RunFixedAgrees | ComputeClusters.py:42-55 | for `dp > 0` the corrected loop gives exactly the table of the loop as written |
| FirstPass.RunFixedKeepsLabels | ComputeClusters.py:50-51 | with no contacts the corrected loop changes no label and opens no label |
| FirstPass.RunFixedWithoutContacts | ComputeClusters.py:42-55 | with `dp <= 0` the corrected first pass ends with every particle labelled 0, which is the clustering: every particle is isolated |
| FirstPass.StepKeepsBudget | ComputeClusters.py:50-55 | a round that opens a label also removes its seed from pending, so `clusterindex` plus the pending count never exceeds the number of particles |
| FirstPass.StepKeepsInvariant | ComputeClusters.py:42-55 | each round keeps the loop invariant: pending particles are unlabelled and unvisited, seeds precede pending particles, no two seeds touch, labels are bounded by the counter and each is held by its seed, and shared labels are chained |
| FirstPass.RunKeepsSettled | ComputeClusters.py:27-29 | a label is written at most once: a particle that left the pending list keeps its label and visited flag to the end of the pass |
| FirstPass.SeedsIncrease | ComputeClusters.py:43-44 | seeds are taken in increasing index order: the next seed is unvisited and lies above every visited particle |
| FirstPass.ProvisionalFacts | ComputeClusters.py:41-55 | after the first pass nothing is pending; label 0 marks exactly the isolated particles; labels lie in `0..clusterindex`, `clusterindex` is at most the number of particles, and each of `1..clusterindex` is held by its seed; no two seeds touch; isolated particles were seeds; shared labels are chained |
| FirstPass.UpdateList | ComputeClusters.py:26-30 | `func_updatelist`: the group, and only the group, gets the label in place, and the group leaves the pending list |
| FirstPass.Round | ComputeClusters.py:43-55 | one round on the arrays in place has exactly the effect of `FirstPass.Step` on the table |
| FirstPass.LabelProvisionally | ComputeClusters.py:32-55 | the `while` loop on fresh arrays leaves the table of `FirstPass.Run` from the initial table, with all the first-pass facts |
| SecondPass.ContactLabelsHeld | ComputeClusters.py:64 | the labels collected for particle `i` are exactly the labels of its contacts |
| SecondPass.MinOf | ComputeClusters.py:66 | `np.min`: an element of the list no greater than any other |
| SecondPass.MergeEffect | ComputeClusters.py:64-67 | a seed changes nothing; otherwise every particle whose label a contact holds takes the label of `i`, which is the least such label and one a contact held; other labels are unchanged; equal labels stay equal |
| SecondPass.MergeKeepsZero | ComputeClusters.py:64-67 | 0 never occurs among the merged labels, so label 0 still marks exactly the isolated particles and labels stay non-negative |
| SecondPass.MergeKeepsCoherent | ComputeClusters.py:64-67 | a merge only unites particles that a chain of contacts joins |
| SecondPass.MergeKeepsAgreement | ComputeClusters.py:59-67 | after the merge at `i` every contact of `i` shares its label, and agreement reached at earlier particles persists |
| SecondPass.SweepKeeps | ComputeClusters.py:59-67 | the rest of the loop keeps the first-pass facts: label 0 exactly for isolated particles, non-negative labels, shared labels chained |
| SecondPass.SweepAgrees | ComputeClusters.py:59-67 | the rest of the loop ends with every non-seed sharing its label with all of its contacts |
| SecondPass.SweepFindsClusters | ComputeClusters.py:57-67 | after the second pass the labels are the clustering: label 0 exactly for isolated particles, and a shared label exactly for particles joined by a chain |
| SecondPass.MergeAt | ComputeClusters.py:60-67 | the loop body relabels the array in place exactly as `SecondPass.Merge` does |
| SecondPass.ResolveEquivalences | ComputeClusters.py:58-67 | the `for` loop leaves the labels of `SecondPass.Sweep`, and these are the clustering when the first pass produced the table |
| Aggregate.Count | ComputeClusters.py:73 | `sum(labels == v)` is at most the number of particles, and positive exactly when some particle carries `v` |
| Aggregate.CountTwo | ComputeClusters.py:73 | two particles carrying `v` give a count of at least two |
| Aggregate.Unique | ComputeClusters.py:71 | `np.unique`: ascending without duplicates, and holding exactly the values that occur |
| Aggregate.CountsCover | ComputeClusters.py:71-73 | over distinct values covering all labels, the counts add up to the number of particles |
| Aggregate.Distribution | ComputeClusters.py:71-74 | the loop fills one row per distinct label, in ascending label order, with that label's particle count |
| Aggregate.DistributionCounts | ComputeClusters.py:71-74 | every row counts at least one particle and the rows together count every particle once |
| Aggregate.DropFirstRow | ComputeClusters.py:75 | line 75 as written: the first row is removed, whatever label it stands for, and nothing else changes |
| Aggregate.FirstRowIsZeroRow | ComputeClusters.py:75 | with non-negative labels the first row is the row of label 0 exactly when label 0 occurs |
| Aggregate.ClusterLabels | ComputeClusters.py:71-75 | the distinct labels without 0, ascending |
| Aggregate.ReportCountsClusters | ComputeClusters.py:71-75 | the corrected report has one row per non-zero label with its count, and its rows plus the particles labelled 0 count every particle |
| Aggregate.AsWrittenLosesCluster | ComputeClusters.py:75 | without label 0 the report as written has one row fewer than the corrected one and counts fewer particles |
| Aggregate.AsWrittenPairReport | ComputeClusters.py:75 | for labels `[1, 1]` the report as written is empty while the corrected report is `[2]` |
| Clusters.TwoPassesFindClusters | ComputeClusters.py:41-67 | both passes together label isolated particles 0 and give two other particles the same label exactly when a chain of contacts joins them |
| Clusters.LabelShared | ComputeClusters.py:2-5 | in a clustering every non-zero label is carried by at least two particles |
| Clusters.ReportedClustersAreReal | ComputeClusters.py:70-75 | the corrected report has one row per cluster, each row counts at least two particles, and the rows count exactly the particles that are not isolated |
| Clusters.FirstRowIsIsolated | ComputeClusters.py:75 | the row line 75 drops is the row of isolated particles exactly when some particle is isolated |
| Clusters.AsWrittenDropsCluster | ComputeClusters.py:75 | when no particle is isolated, the report as written loses one cluster's row and its particles |
| Clusters.ComputeClusters | ComputeClusters.py:32-75 | the whole script on fresh arrays: the final labels are the clustering; it returns the report with line 75 as written and the corrected report |

## Left out

- The IPython reset, `np.loadtxt`, the hard-coded `dp = 0.6` and the timing print (lines 14-15, 21-22, 25, 77) are environment and I/O. The particle positions and `dp` enter only through the contact matrix `c`.
- The floating-point distance `sqrt(sum((a - b)**2)) < dp` (lines 46-47, 61-62) is replaced by the contact matrix. The model assumes it is reflexive (`dp > 0`) and symmetric.
- The first pass as written is modelled only for `dp > 0`: `FirstPass.Run` and the methods require a reflexive relation, because for `dp <= 0` the loop does not end (see Findings). The corrected loop `FirstPass.RunFixed` covers both cases.
- Centroid columns (line 74) are floating-point means. A row is modelled as its particle count only.
- `currentlist` (lines 28, 36-37) is appended to and never read, so it is not modelled.
- Line 66 overwrites `clusterindex` with the minimum label. Nothing reads it afterwards, so the second pass does not model that variable.
- Aggregate.Distribution: takes the labels column as a sequence rather than the `neighbormatrix` array, because that step only reads it.
- Labels are unbounded integers. numpy's default integer width is not modelled, because labels never exceed `clusterindex`, which never exceeds the number of particles (`FirstPass.ProvisionalFacts`).

## Findings

| source | as written | input that shows it | evidently intended | confidence | as-written member | corrected member |
|---|---|---|---|---|---|---|
| ComputeClusters.py:75 | `clusterdistribution[1:,:]` removes the first row whatever its label | two particles closer than `dp` (labels `[1, 1]`): the report as written is empty | remove only the row of label 0, the isolated particles, when that label occurs | high; not executed | Aggregate.AsWrittenPairReport | Aggregate.ReportCountsClusters |
| ComputeClusters.py:42-55 | the test `len(particlesincontact) == 1` at line 50 misses an empty contact list; the `else` branch then bumps `clusterindex`, intersects the pending list with nothing and removes nothing, so the `while` loop never ends | `dp <= 0` with a single particle: the distance 0 is not below `dp`, so the particle has no contact and stays pending | every particle counts as isolated with label 0, and the loop ends | high; not executed | FirstPass.OneParticleStalls | FirstPass.RunFixedWithoutContacts |
