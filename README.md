# Percolation on a square lattice

This project models the percolation analyses of `Percolation/percolation.py` and `Percolation/percolation_old.py`. Each analysis has two implementations, and both are modelled side by side.

- **Burning.** The spanning test asks whether some occupied site in the top row is joined to the last row by occupied 4-neighbours.
  - The newer version burns in rounds: every site labelled `t` lights its unlabelled occupied neighbours with `t + 1`.
  - The older version is a depth-first search. It uses an explicit stack and a `visited` grid.
- **Hoshen–Kopelman labelling.** Both labelers scan the lattice in row-major order and look only at the top and left neighbours.
  - The newer one keeps a `label_map`. A positive entry is the size of a root label. A negative entry `-k` redirects to the smaller label `k`.
  - The older one keeps a `parent` union–find forest. Its `find` halves paths. At the end every label is resolved to its root.
- **Monte Carlo drivers.** Only their integer bookkeeping is modelled: the spanning count, the sum of the largest cluster sizes, and the merged cluster distribution. The lattices of the trials are inputs.

The lattice is a value `seq<seq<int>>`, and a site is occupied when its entry is `1`, the test the source makes. The grids the algorithms write (`labels`, `visited`) are Dafny `array2`s updated in place. Each is shadowed by a ghost value `Labels` that the proofs reason about.

Both algorithms are proved against pure definitions in `lattice.dfy`:
- `Connected` means a path of occupied 4-neighbours.
- `Spans` means an occupied top-row site is connected to a last-row site.
- `Component` is the cluster of a site.
- `NumClusters(g, s)` is the number of clusters of size `s`. It counts each cluster once, by its first site in row-major order.

The two burning methods differ on a 1 x 1 lattice.
- The older one tests `x == L - 1` on every popped site, so it reports `[[1]]` as spanning.
- The newer one answers `True` only when it newly burns a last-row neighbour. On a 1 x 1 lattice there is none, so it always answers `False`.

The model keeps both behaviours. `Burning.BurningMethod` promises completeness only for `L >= 2`. The newer driver counts a trial as spanning exactly when `Burns(g)` holds, that is `L >= 2 && Spans(g)`.

## Model

| member | source | states |
|---|---|---|
| Mirror.SetSite | Percolation/percolation.py:37 | Writing one cell of a 2-D array (`labels[ni, nj] = t + 1`, and `visited[x, y] = True` at Percolation/percolation_old.py:31) changes that cell of the array's value mirror and no other. |
| Burning.BurningMethod | Percolation/percolation.py:21-45 | `True` only when the lattice spans. When `L >= 2`, `True` whenever it spans. Never `True` when `L <= 1`. Across the rounds, a site labelled after the top row is seeded was unlabelled then and holds a round number from 3 to the current `t`. |
| Burning.BurnRound | Percolation/percolation.py:30-43 | One round expands every site labelled `t` in row-major order. Afterwards every such site has spread and the round invariant holds for `t + 1`. With no new label, no label exceeds `t`. The count of unburnt sites never grows, and drops when something burnt. Reaching the last row implies the lattice spans. A round changes only unlabelled sites, and only to `t + 1`. |
| Burning.ExpandSite | Percolation/percolation.py:34-40 | Every occupied neighbour of a site labelled `t` ends up labelled. The scan moves past the site. An expansion that burnt something lowered the unburnt count. Only unlabelled sites change, and only to `t + 1`. |
| Burning.BurnNeighbourSite | Percolation/percolation.py:35-40 | It burns exactly when `(ni, nj)` is in range, occupied and unlabelled. A burn writes `t + 1` at `(ni, nj)` and leaves every other label unchanged. Otherwise nothing changes. A burn lowers the unburnt count by one. Hitting the last row happens only when `ni = L - 1`, and it proves the lattice spans. |
| Burning.LinkedReached | Percolation/percolation.py:26-37 | Because each label `l > 2` sits next to an `l - 1` and label `2` is only in row 0, every labelled site is reached from the top. |
| Burning.GrowsTrans | Percolation/percolation.py:35-37 | Two growth steps with positive labels compose: sites labelled in either step were unlabelled at the start. |
| Burning.BottomSpans | Percolation/percolation.py:39-40 | A burnt last-row site proves the lattice spans. |
| Burning.BurntClosed | Percolation/percolation.py:41-42 | When a round burns nothing, the burnt sites form a set closed under occupied adjacency. |
| Burning.Extinguished | Percolation/percolation.py:41-45 | A round that ends with no new burning and no last-row hit leaves a lattice (`L >= 2`) that does not span. |
| BurningOld.BurningMethod | Percolation/percolation_old.py:21-35 | Returns `True` exactly when the lattice spans, for every `L`. |
| BurningOld.PushNeighbours | Percolation/percolation_old.py:32-34 | The new stack is the old one followed by the in-range, occupied, unvisited neighbours in the order up, down, left, right. The search invariant holds again. |
| BurningOld.Unvisited | Percolation/percolation_old.py:33 | Every site it keeps is one of the given neighbours, occupied and unvisited. |
| BurningOld.UnvisitedStep | Percolation/percolation_old.py:32-34 | Filtering one more neighbour appends it exactly when it is occupied and unvisited. |
| BurningOld.PushStep | Percolation/percolation_old.py:32-34 | Pushing the `k`-th neighbour when it is occupied and unvisited extends the frontier to `k + 1` neighbours. |
| BurningOld.PopVisited | Percolation/percolation_old.py:26-30 | Popping an already visited site keeps the search invariant. |
| BurningOld.MarkVisited | Percolation/percolation_old.py:30-31 | Marking the popped site as visited keeps every stacked site reachable from the top. It lowers the count of unvisited sites by one, which is why the loop ends. |
| BurningOld.Found | Percolation/percolation_old.py:27-29 | A popped last-row site proves the lattice spans. |
| BurningOld.Exhausted | Percolation/percolation_old.py:26-35 | An empty stack under the search invariant proves the lattice does not span. |
| UnionFind.RepIsRoot | Percolation/percolation_old.py:44-48 | The representative of every element is a root, that is `parent[r] == r`. |
| UnionFind.RepUnique | Percolation/percolation_old.py:44-48 | A `parent` forest determines the representatives uniquely. |
| UnionFind.MakeSet | Percolation/percolation_old.py:72 | Adding a fresh self-parented label keeps the forest well formed. |
| UnionFind.Find | Percolation/percolation_old.py:44-48 | Returns the representative of `x`, a root. Path halving keeps the keys, the forest and every element's representative. |
| UnionFind.LinkKeepsForest | Percolation/percolation_old.py:53-54 | Linking two distinct roots gives a forest whose representatives are the merged classes. |
| UnionFind.Union | Percolation/percolation_old.py:50-54 | The new representatives are the old classes of `x` and `y` merged. The keys are unchanged. |
| UnionFind.MergedClasses | Percolation/percolation_old.py:50-54 | After the union, two elements share a class exactly when they already did, or one was with `x` and the other with `y`. |
| UnionFind.UnionJoins | Percolation/percolation_old.py:50-54 | After the union, `x` and `y` share a representative. Elements in neither class keep theirs. |
| LabelMap.Root | Percolation/percolation.py:54-59 | Following redirects from a label ends at a key whose entry is positive and which is no larger than the label. |
| LabelMap.FindRoot | Percolation/percolation.py:54-59 | `find_root` returns that root. Redirects point to strictly smaller labels, so it terminates. |
| LabelMap.RootMap | Percolation/percolation.py:92-96 | Maps every label of the map to its root. |
| LabelMap.RootOfRoot | Percolation/percolation.py:54-59 | A root is its own root. |
| LabelMap.ValidAfterFresh | Percolation/percolation.py:74-76 | A fresh label with size 1 keeps every redirect pointing to a smaller present label. |
| LabelMap.RootAfterFresh | Percolation/percolation.py:74-76 | A fresh label changes no existing label's root. |
| LabelMap.ValidAfterGrow | Percolation/percolation.py:83 | Growing a root's size keeps the map well formed. |
| LabelMap.RootAfterGrow | Percolation/percolation.py:83 | Growing a root's size changes no label's root. |
| LabelMap.ValidAfterMerge | Percolation/percolation.py:86-89 | Redirecting root `q` to the smaller root `p` keeps the map well formed. |
| LabelMap.RootAfterMerge | Percolation/percolation.py:86-89 | After the merge, labels rooted at `q` are rooted at `p` and every other root is unchanged. |
| LabelMap.MergeKeepsSum | Percolation/percolation.py:86-89 | Moving the absorbed root's size into `primary_label` keeps the sum of the positive entries. |
| LabelMap.PosSumUpdate | Percolation/percolation.py:83 | Overwriting one entry changes the positive-entry sum by the old and new positive parts. |
| Counters.CounterOf | Percolation/percolation_old.py:80 | `Counter(xs)` maps each value to its number of occurrences, and its keys are exactly the values that occur. |
| Counters.Update | Percolation/percolation.py:122 | `Counter.update` sums counts key-wise, and the keys are the union. |
| Counters.MaxKey | Percolation/percolation.py:120 | `max(c.keys())` is the largest key, and there is none for an empty counter. |
| Counters.MaxValue | Percolation/percolation_old.py:98 | `max(c.values())` is a largest count, and there is none for an empty counter. |
| Counters.OccurrencesSum | Percolation/percolation_old.py:80 | The occurrence counts of values in a range add up to the length of the sequence. |
| Counters.RangeSumOfCounter | Percolation/percolation_old.py:80 | Summing a counter over a key range equals summing the multiset it counts. |
| Labelling.MinOf | Percolation/percolation.py:79 | `min` returns an element no larger than any other. |
| Labelling.LabelledNeighbours | Percolation/percolation.py:65-71 | Collects the positive labels of the top and then the left neighbour. |
| Labelling.Relabelled | Percolation/percolation.py:92-96 | Every positive label is replaced by its image and every other label is kept. |
| Labelling.RelabelDone | Percolation/percolation.py:93-96 | A finished row-major relabelling pass yields exactly `Relabelled`. |
| Labelling.FlattenLabels | Percolation/percolation_old.py:80 | `labels.flatten()` lists the grid in row-major order. |
| Labelling.FlattenCount | Percolation/percolation_old.py:80 | A value occurs in the flattened grid as often as there are cells holding it. |
| Labelling.FlattenLength | Percolation/percolation_old.py:80 | Flattening `n` rows of width `w` gives `n * w` entries. |
| Clusters.CellsCount | Percolation/percolation_old.py:80 | An `L x L` lattice has `L * L` sites. |
| Clusters.ComponentBound | Percolation/percolation.py:120 | No cluster has more than `L * L` sites. |
| Clusters.ClusterOfSize | Percolation/percolation.py:99-101 | A size with a cluster is the size of some occupied site's cluster. |
| Clusters.LargestIsLargest | Percolation/percolation.py:120 | `Largest(g)` is an actual cluster size (or 0 with no clusters), with no larger cluster. |
| Clusters.LargestUnique | Percolation/percolation.py:120 | Any size with that property equals `Largest(g)`. |
| Clusters.LargestBounds | Percolation/percolation.py:120 | Every occupied site's cluster is positive and at most `Largest(g)`. |
| HoshenKopelman.HoshenKopelman | Percolation/percolation.py:48-103 | Occupied sites get labels `>= 2`, empty ones 0, and equal labels lie in one cluster. With `update_labels`, two occupied sites share a label exactly when they are connected. `cluster_sizes[s]` is the number of clusters of size `s`, and its keys are exactly the sizes that occur. |
| HoshenKopelman.ScanLattice | Percolation/percolation.py:62-89 | The row-major scan ends in the finished scan invariant. |
| HoshenKopelman.ScanRow | Percolation/percolation.py:63-89 | Scanning one row carries the scan invariant to the start of the next row. |
| HoshenKopelman.Visit | Percolation/percolation.py:64-89 | Processing one occupied site keeps the scan invariant: label keys, roots, agreement with neighbours, creators, root sizes and their sum. |
| HoshenKopelman.FindRoots | Percolation/percolation.py:78 | `root_labels` is the root of each neighbour label, in order. |
| HoshenKopelman.Roots | Percolation/percolation.py:78 | The list of roots has one entry per neighbour label, each its root. |
| HoshenKopelman.JoinRoots | Percolation/percolation.py:79-89 | The primary label is the least root. The map adds one to its size and, if the other root differs, absorbs it. |
| HoshenKopelman.RootsJoin | Percolation/percolation.py:78-89 | The roots of the labelled neighbours form a valid join case for the site. |
| HoshenKopelman.NoNeighbours | Percolation/percolation.py:73-76 | An empty neighbour list means neither the top nor the left neighbour is occupied. |
| HoshenKopelman.CollectSizes | Percolation/percolation.py:99-101 | Collects the positive entries of the map over all labels handed out. |
| HoshenKopelman.PositiveSizesCount | Percolation/percolation.py:99-101 | Size `s` appears among the collected sizes once per root of size `s`. |
| HoshenKopelman.ResolveLabels | Percolation/percolation.py:92-96 | The `update_labels` pass replaces every positive label by its root. |
| HoshenKopelman.ResolvedLabels | Percolation/percolation.py:92-96 | After the pass, two occupied sites share a label exactly when they are connected. |
| HoshenKopelman.SizesAreClusters | Percolation/percolation.py:99-101 | The number of roots of size `s` equals the number of clusters of size `s`. |
| HoshenKopelman.LabelsResult | Percolation/percolation.py:92-103 | The returned labels mark exactly the occupied sites and stay within clusters. With `update_labels` they name the clusters. |
| HoshenKopelman.CountResult | Percolation/percolation.py:99-101 | The counter built from the collected sizes is the cluster-size histogram. |
| ScanInvariant.ScanStart | Percolation/percolation.py:50-52 | The empty map and `current_label = 2` satisfy the scan invariant. |
| ScanInvariant.FreshStep | Percolation/percolation.py:73-76 | Opening label `current_label` with size 1 keeps the invariant. |
| ScanInvariant.JoinStep | Percolation/percolation.py:77-89 | Labelling with the primary root, growing it and merging the other keeps the invariant. |
| ScanInvariant.JoinSum | Percolation/percolation.py:83-89 | The join step raises the sum of the positive map entries by exactly one, the new site. |
| ScanInvariant.FinishedLabelled | Percolation/percolation.py:62-89 | After the scan, exactly the occupied sites are labelled, and each label is a key with a positive-size root. |
| ScanInvariant.ConnectedSameRoot | Percolation/percolation.py:62-89 | Connected occupied sites end with the same root. |
| ScanInvariant.SameRootConnected | Percolation/percolation.py:62-89 | Occupied sites with the same root are connected. |
| ScanInvariant.MembersComponent | Percolation/percolation.py:83-89 | The sites under a root are exactly the cluster of the site that created it. |
| ScanInvariant.CreatorLeader | Percolation/percolation.py:73-76 | The site that created a root is the first site of its cluster. |
| ScanInvariant.LeadersAreCreators | Percolation/percolation.py:99-101 | Clusters of size `s` match the roots of size `s` one to one. |
| ScanInvariant.ClustersAreRoots | Percolation/percolation.py:99-101 | The number of roots of size `s` is the number of clusters of size `s`. |
| OldScanInvariant.ScanStart | Percolation/percolation_old.py:40-42 | The empty `parent` and `label = 1` satisfy the scan invariant. |
| OldScanInvariant.FreshStep | Percolation/percolation_old.py:70-73 | Opening `label` as its own parent keeps the invariant. |
| OldScanInvariant.JoinStep | Percolation/percolation_old.py:65-69 | Labelling with the least neighbour label and uniting the classes keeps the invariant. |
| OldScanInvariant.FinishedLabelled | Percolation/percolation_old.py:56-73 | After the scan, exactly the occupied sites are labelled, with keys of `parent` between 1 and the last label. |
| OldScanInvariant.ConnectedSameRep | Percolation/percolation_old.py:56-73 | Connected occupied sites end in one class. |
| OldScanInvariant.SameRepConnected | Percolation/percolation_old.py:56-73 | Occupied sites of one class are connected. |
| HoshenKopelmanOld.HoshenKopelmanOld | Percolation/percolation_old.py:38-81 | Occupied sites get labels `>= 1` and empty ones 0. Two occupied sites share a label exactly when they are connected. `cluster_sizes[0]` counts the empty sites, and each occupied site's label counts its cluster. The keys are 0 (when some site is empty) and the labels. The counts add up to `L * L`. |
| HoshenKopelmanOld.NeighboursScanned | Percolation/percolation_old.py:59-63 | At most two neighbour labels, exactly those of the occupied top and left neighbours, all keys of `parent`. |
| HoshenKopelmanOld.JoinUnions | Percolation/percolation_old.py:68-69 | Uniting the least label with every neighbour label merges their classes. |
| HoshenKopelmanOld.ScanLattice | Percolation/percolation_old.py:56-73 | The row-major scan ends in the finished scan invariant. |
| HoshenKopelmanOld.ScanRow | Percolation/percolation_old.py:57-73 | Scanning one row carries the scan invariant to the next row. |
| HoshenKopelmanOld.Visit | Percolation/percolation_old.py:58-73 | Processing one occupied site keeps the scan invariant. |
| HoshenKopelmanOld.ResolveLabels | Percolation/percolation_old.py:75-78 | Every positive label is replaced by its representative. `find` keeps the forest and the representatives. |
| HoshenKopelmanOld.ResolvedRoots | Percolation/percolation_old.py:75-78 | After resolution, every occupied label `l` has `parent[l] == l`. |
| HoshenKopelmanOld.ResolvedLabels | Percolation/percolation_old.py:75-78 | After resolution, occupied sites get labels `>= 1`, and two share a label exactly when they are connected. |
| HoshenKopelmanOld.LabelCells | Percolation/percolation_old.py:80 | The cells carrying an occupied site's label are exactly its cluster. |
| HoshenKopelmanOld.ZeroCells | Percolation/percolation_old.py:80 | The cells carrying 0 are exactly the empty sites. |
| HoshenKopelmanOld.CountZero | Percolation/percolation_old.py:80 | `cluster_sizes[0]` is the number of empty sites. |
| HoshenKopelmanOld.CountLabels | Percolation/percolation_old.py:80 | The count of an occupied site's label is the size of its cluster. |
| HoshenKopelmanOld.FlatValue | Percolation/percolation_old.py:80 | Every key of the counter is a non-negative label. |
| HoshenKopelmanOld.CountKeys | Percolation/percolation_old.py:80 | The keys are 0 (when some site is empty) and the labels of occupied sites. |
| HoshenKopelmanOld.CountTotal | Percolation/percolation_old.py:80 | The counts add up to `L * L`. |
| MonteCarlo.Trial | Percolation/percolation.py:116-122 | A trial's spanning flag is `L >= 2` and spanning. Its counter is the cluster-size histogram. |
| MonteCarlo.MaxKeyIsLargest | Percolation/percolation.py:120 | `max(cluster_sizes.keys())` is defined exactly when some site is occupied, and then it is the largest cluster size. |
| MonteCarlo.TrialsAsWritten | Percolation/percolation.py:111-122 | The driver as written fails exactly when some lattice has no occupied site. Otherwise `P_flow` counts the spanning trials, `smax_total` sums the largest cluster sizes, and the distribution is the per-size sum of the trials' cluster counts. Its keys are exactly the sizes with a nonzero total. |
| MonteCarlo.EmptyLatticeStops | Percolation/percolation.py:120 | The single trial `[[0]]` is square and has no occupied site, so the driver as written fails on it. |
| MonteCarlo.Trials | Percolation/percolation.py:111-122 | With an empty lattice counted as largest size 0, the same totals and the same keys hold for every sequence of square lattices. |
| MonteCarlo.SpanningTrialsBounds | Percolation/percolation.py:117 | `0 <= P_flow <= T` before the division. |
| MonteCarlo.LargestZero | Percolation/percolation.py:120 | The largest cluster size is 0 exactly when no site is occupied. |
| MonteCarlo.LargestAtMost | Percolation/percolation.py:120 | The largest cluster size lies between 0 and `L * L`. |
| MonteCarlo.LargestSumBounds | Percolation/percolation.py:120 | `0 <= smax_total <= T * L * L`. |
| MonteCarlo.ClustersOverSizes | Percolation/percolation.py:122 | The distribution has no sizes outside `1 .. L * L`. |
| MonteCarlo.PrefixStep | Percolation/percolation.py:115-122 | Each trial adds its own spanning flag, largest size and cluster counts to the running totals. |
| MonteCarlo.TallyStep | Percolation/percolation.py:122 | Updating the distribution with one more trial's histogram gives the per-size totals and the key set over one more trial. |
| MonteCarloOld.Trial | Percolation/percolation_old.py:94-96 | A trial's spanning flag is `Spans`. Its counter is the label counter: empty sites under 0, clusters under their labels, total `L * L`. |
| MonteCarloOld.ClusterValue | Percolation/percolation_old.py:96-98 | An occupied site's label is a nonzero key whose count is its cluster's size. |
| MonteCarloOld.ValueCluster | Percolation/percolation_old.py:96-98 | Every nonzero key counts the size of some cluster. |
| MonteCarloOld.MaxValueAsWritten | Percolation/percolation_old.py:98 | `max(cluster_sizes.values())` is undefined only when `L = 0`, and otherwise it is the larger of the empty-site count and the largest cluster size. |
| MonteCarloOld.MaxLabelValue | Percolation/percolation_old.py:98 | Leaving out key 0, the largest count is the largest cluster size, or 0 with no clusters. |
| MonteCarloOld.CornerCountsEmpty | Percolation/percolation_old.py:98 | On `[[1, 0], [0, 0]]` the expression as written gives 3 while the largest cluster has size 1. |
| MonteCarloOld.TrialAsWritten | Percolation/percolation_old.py:94-98 | A trial as written: spanning is `Spans`, and the maximum is that larger-of value, undefined only for `L = 0`. |
| MonteCarloOld.TrialCorrected | Percolation/percolation_old.py:94-98 | A trial whose maximum leaves out key 0 gives the largest cluster size. |
| MonteCarloOld.TrialsAsWritten | Percolation/percolation_old.py:89-100 | The driver as written fails exactly when some lattice has `L = 0`. Otherwise `P_flow` counts spanning lattices and `smax_total` sums the larger-of values. The distribution is the key-wise sum of the trials' label counters, its keys are those occurring in some trial's counter, and its key 0 totals the empty sites. |
| MonteCarloOld.Trials | Percolation/percolation_old.py:89-100 | The corrected driver: the same totals and keys, with `smax_total` the sum of the largest cluster sizes. |
| MonteCarloOld.SpanningLatticesBounds | Percolation/percolation_old.py:95 | `0 <= P_flow <= T` before the division. |
| MonteCarloOld.SumAtZero | Percolation/percolation_old.py:100 | Key 0 of the merged distribution is the total number of empty sites over the trials. |
| MonteCarloOld.PrefixStep | Percolation/percolation_old.py:93-100 | Each trial adds its own spanning flag and maximum to the running totals. |
| MonteCarloOld.TallyStep | Percolation/percolation_old.py:100 | `cluster_distribution.update(cluster_sizes)` keeps the distribution the key-wise sum of the counters, with one more counter. |
| Example.SampleSpans | Percolation/percolation.py:21-45 | The lattice `1 0 1 / 1 1 0 / 0 1 1` spans, through the path (0,0) (1,0) (1,1) (2,1). |
| Example.SampleComponents | Percolation/percolation.py:62-89 | Its clusters are the five sites joined to (0,0) and the single site (0,2). |
| Example.SampleLeaders | Percolation/percolation.py:73-76 | Only (0,0) and (0,2) are the row-major-first sites of their clusters. |
| Example.SampleClusters | Percolation/percolation.py:99-101 | It has one cluster of size 5, one of size 1, and none of any other size. |
| Example.SampleHistogram | Percolation/percolation.py:99-101 | A counter that matches its cluster counts is exactly `{5: 1, 1: 1}`. |
| Example.SampleRun | Percolation/percolation.py:48-103 | On this lattice both burning methods return `True`, and `hoshen_kopelman` with `update_labels` returns the size counter `{5: 1, 1: 1}`. |

## Left out

- `generate_lattice` draws random lattices. The drivers take the sequence of lattices as an input instead.
- `read_input`, the result files written by both drivers, and the `tqdm` progress bars are I/O and are not modelled.
- The `np.arange` probability sweeps and the outer loop over `p` are left out. So are the divisions `P_flow /= T` and `smax_total / T`, and the file-name formatting. All of these are floating point; only the integer numerators are modelled.
- `Flocking/` and `ZipfLaw/` are not part of this model. They are float vector rendering and text statistics, unrelated to percolation.
- The lattice is assumed square, as `lattice.shape[0]` is used for both dimensions. Entries other than 0 and 1 are treated as empty, as the source's `== 1` tests do.
- UnionFind.Find: `parent` is a dictionary that the enclosing `hoshen_kopelman` shares with `find` and `union`. Here it is a map value passed in and returned.
- HoshenKopelmanOld.ResolveLabels: `find` compresses paths during resolution, which is why the final `parent` is returned as well. Its root property is stated separately in `HoshenKopelmanOld.ResolvedRoots`.
- Burning.BurningMethod: the bound of at most `L * L` rounds is not stated as a number. Termination is proved by the count of unburnt sites, which every continuing round lowers.
- HoshenKopelman.HoshenKopelman: without `update_labels`, the labels may be non-root labels of their cluster. The contract then promises only that equal labels are connected, not the converse.
- MonteCarloOld.TrialsAsWritten: the merged distribution is stated through the ghost per-trial counters it sums, each characterised by `LabelCounts`. The labels it counts have no meaning across trials.

## Findings

| source | as written | input that shows it | evidently intended | confidence | as-written member | corrected member |
|---|---|---|---|---|---|---|
| Percolation/percolation.py:120 | `max(cluster_sizes.keys())` on the size histogram of a lattice with no occupied site is `max` of an empty sequence, which raises | one trial with lattice `[[0]]` (any `p = 0` trial) | an empty lattice contributes a largest cluster size of 0 | high (not executed) | MonteCarlo.TrialsAsWritten, MonteCarlo.EmptyLatticeStops | MonteCarlo.Trials |
| Percolation/percolation_old.py:98 | `max(cluster_sizes.values())` also counts key 0, the number of empty sites, so it can exceed every cluster size | lattice `[[1, 0], [0, 0]]`: gives 3, the largest cluster has size 1 | the size of the largest cluster, leaving out key 0 | high (not executed) | MonteCarloOld.TrialsAsWritten, MonteCarloOld.CornerCountsEmpty | MonteCarloOld.Trials |
