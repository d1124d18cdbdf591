/** hoshen_kopelman of Percolation/percolation.py: the row-major labelling
    scan, the optional rewriting of every label to its root, and the count
    of cluster sizes. */
module HoshenKopelman {
  import opened Lattice
  import opened Mirror
  import opened LabelMap
  import opened Counters
  import opened ScanInvariant
  import opened Labelling

  /** The roots of a list of labels. */
  ghost function Roots(m: LabelMap, ls: seq<int>): (rs: seq<int>)
    requires Valid(m) && forall k :: 0 <= k < |ls| ==> ls[k] in m
    ensures |rs| == |ls| && forall k :: 0 <= k < |ls| ==> rs[k] == Root(m, ls[k])
  {
    if ls == [] then [] else [Root(m, ls[0])] + Roots(m, ls[1..])
  }

  /** An occupied site with no labelled top or left neighbour has no
      occupied one. */
  lemma NoNeighbours(g: Grid, lab: Labels, m: LabelMap, cur: int, i: int, j: int)
    requires Base(g, lab, m, cur, Site(i, j)) && 0 <= i < |g| && 0 <= j < |g|
    requires NeighbourLabels(lab, i, j) == []
    ensures (i == 0 || g[i - 1][j] != 1) && (j == 0 || g[i][j - 1] != 1)
  {
  }

  /** The labels of the neighbours are handed-out labels. */
  lemma NeighbourLabelsIn(g: Grid, lab: Labels, m: LabelMap, cur: int, i: int, j: int)
    requires Base(g, lab, m, cur, Site(i, j)) && 0 <= i < |g| && 0 <= j < |g|
    ensures forall k :: 0 <= k < |NeighbourLabels(lab, i, j)| ==> NeighbourLabels(lab, i, j)[k] in m
  {
  }

  /** With the smallest root p of the neighbours, and q the other one, the
      join lemmas apply. */
  lemma RootsJoin(g: Grid, lab: Labels, m: LabelMap, cur: int, i: int, j: int, rs: seq<int>, p: int, q: int)
    requires Base(g, lab, m, cur, Site(i, j)) && 0 <= i < |g| && 0 <= j < |g| && g[i][j] == 1
    requires NeighbourLabels(lab, i, j) != []
    requires forall k :: 0 <= k < |NeighbourLabels(lab, i, j)| ==> NeighbourLabels(lab, i, j)[k] in m
    requires rs == Roots(m, NeighbourLabels(lab, i, j)) && p == MinOf(rs) && q == OtherRoot(rs, p)
    ensures JoinCase(g, lab, m, cur, i, j, p, q)
  {
    var top := i > 0 && lab[i - 1][j] > 0;
    var left := j > 0 && lab[i][j - 1] > 0;
    assert top <==> i > 0 && g[i - 1][j] == 1;
    assert left <==> j > 0 && g[i][j - 1] == 1;
    if top && left {
      assert rs == [RootAt(m, lab, i - 1, j), RootAt(m, lab, i, j - 1)];
    } else if top {
      assert rs == [RootAt(m, lab, i - 1, j)];
    } else {
      assert rs == [RootAt(m, lab, i, j - 1)];
    }
  }

  /** The positive entries of labels lo .. hi - 1, in label order. */
  function PositiveSizes(m: LabelMap, lo: int, hi: int): seq<int>
    decreases hi - lo
  {
    if hi <= lo then [] else PositiveSizes(m, lo, hi - 1) + (if hi - 1 in m && m[hi - 1] > 0 then [m[hi - 1]] else [])
  }

  /** The labels lo .. hi - 1 whose entry is the positive size s. */
  ghost function RootsBetween(m: LabelMap, lo: int, hi: int, s: int): set<int> {
    set l | lo <= l < hi && l in m && m[l] > 0 && m[l] == s
  }

  /** Each size occurs in the list once per root of that size, and only
      positive sizes occur. */
  lemma RootsBetweenStep(m: LabelMap, lo: int, hi: int, s: int)
    requires lo < hi
    ensures |RootsBetween(m, lo, hi, s)| ==
      |RootsBetween(m, lo, hi - 1, s)| + (if hi - 1 in m && m[hi - 1] > 0 && m[hi - 1] == s then 1 else 0)
  {
    var k := hi - 1;
    if k in m && m[k] > 0 && m[k] == s {
      assert k !in RootsBetween(m, lo, hi - 1, s);
      assert RootsBetween(m, lo, hi, s) == RootsBetween(m, lo, hi - 1, s) + {k};
    } else {
      assert RootsBetween(m, lo, hi, s) == RootsBetween(m, lo, hi - 1, s);
    }
  }

  lemma PositiveSizesStep(m: LabelMap, lo: int, hi: int, s: int)
    requires lo < hi
    ensures multiset(PositiveSizes(m, lo, hi))[s] ==
      multiset(PositiveSizes(m, lo, hi - 1))[s] + (if hi - 1 in m && m[hi - 1] > 0 && m[hi - 1] == s then 1 else 0)
  {
    var k := hi - 1;
    var last := if k in m && m[k] > 0 then [m[k]] else [];
    assert PositiveSizes(m, lo, hi) == PositiveSizes(m, lo, hi - 1) + last;
    assert multiset(PositiveSizes(m, lo, hi)) == multiset(PositiveSizes(m, lo, hi - 1)) + multiset(last);
  }

  lemma {:induction false} PositiveSizesCount(m: LabelMap, lo: int, hi: int, s: int)
    ensures multiset(PositiveSizes(m, lo, hi))[s] == |RootsBetween(m, lo, hi, s)|
    decreases hi - lo
  {
    if hi > lo {
      PositiveSizesCount(m, lo, hi - 1, s);
      PositiveSizesStep(m, lo, hi, s);
      RootsBetweenStep(m, lo, hi, s);
    } else {
      assert RootsBetween(m, lo, hi, s) == {};
    }
  }

  /** Only positive sizes are collected. */
  lemma PositiveSizesPositive(m: LabelMap, lo: int, hi: int, s: int)
    requires s <= 0
    ensures multiset(PositiveSizes(m, lo, hi))[s] == 0
  {
    PositiveSizesCount(m, lo, hi, s);
    assert RootsBetween(m, lo, hi, s) == {};
  }

  /** The sizes the cluster count is built from: label_map's positive
      values, in insertion order. */
  method CollectSizes(m: LabelMap, cur: int) returns (sizes: seq<int>)
    requires 2 <= cur && forall l :: 2 <= l < cur ==> l in m
    ensures sizes == PositiveSizes(m, 2, cur)
  {
    sizes := [];
    for l := 2 to cur
      invariant sizes == PositiveSizes(m, 2, l)
    {
      if m[l] > 0 {
        sizes := sizes + [m[l]];
      }
    }
  }

  /** root_labels: the root of every neighbour label, by find_root. */
  method FindRoots(m: LabelMap, neighbours: seq<int>) returns (rootLabels: seq<int>)
    requires Valid(m) && forall k :: 0 <= k < |neighbours| ==> neighbours[k] in m
    ensures rootLabels == Roots(m, neighbours)
  {
    rootLabels := [];
    for k := 0 to |neighbours|
      invariant |rootLabels| == k && forall t :: 0 <= t < k ==> rootLabels[t] == Root(m, neighbours[t])
    {
      var root := FindRoot(m, neighbours[k]);
      rootLabels := rootLabels + [root];
    }
  }

  /** The site joins the smallest root, whose size grows by one; every other
      root hands its size to it and is redirected to it. */
  method JoinRoots(m: LabelMap, rootLabels: seq<int>) returns (primary: int, m': LabelMap)
    requires Valid(m) && 0 < |rootLabels| <= 2
    requires forall k :: 0 <= k < |rootLabels| ==> rootLabels[k] in m && m[rootLabels[k]] > 0
    ensures primary == MinOf(rootLabels)
    ensures m' == JoinMap(m, primary, OtherRoot(rootLabels, primary))
  {
    primary := MinOf(rootLabels);
    m' := m[primary := m[primary] + 1];
    ghost var q := OtherRoot(rootLabels, primary);
    ghost var qi := if rootLabels[0] != primary then 0 else |rootLabels| - 1;
    for k := 0 to |rootLabels|
      invariant m' == JoinMap(m, primary, if k > qi then q else primary)
    {
      if rootLabels[k] != primary {
        assert k == qi && rootLabels[k] == q;
        m' := m'[primary := m'[primary] + m'[rootLabels[k]]];
        m' := m'[rootLabels[k] := -primary];
      }
    }
  }

  /** The body of the scan at an occupied site (i, j): either a fresh label
      is opened, or the site joins the smallest root of its labelled top and
      left neighbours and the other root, if any, is merged into it. */
  method Visit(g: Grid, labels: array2<int>, m: LabelMap, cur: int, i: int, j: int,
               ghost lab: Labels, ghost cr: map<int, Site>)
    returns (m': LabelMap, cur': int, ghost lab': Labels, ghost cr': map<int, Site>)
    requires ScanInv(g, lab, m, cur, cr, Site(i, j)) && Mirrors(labels, lab)
    requires 0 <= i < |g| && 0 <= j < |g| && g[i][j] == 1
    modifies labels
    ensures Mirrors(labels, lab') && ScanInv(g, lab', m', cur', cr', Site(i, j + 1))
  {
    var neighbours := LabelledNeighbours(labels, i, j, lab);
    if neighbours == [] {
      NoNeighbours(g, lab, m, cur, i, j);
      lab' := SetSite(labels, i, j, cur, lab);
      m' := m[cur := 1];
      cur' := cur + 1;
      cr' := cr[cur := Site(i, j)];
      FreshStep(g, lab, m, cur, cr, i, j, lab', m', cur', cr');
    } else {
      NeighbourLabelsIn(g, lab, m, cur, i, j);
      var rootLabels := FindRoots(m, neighbours);
      var primary;
      primary, m' := JoinRoots(m, rootLabels);
      ghost var q := OtherRoot(rootLabels, primary);
      RootsJoin(g, lab, m, cur, i, j, rootLabels, primary, q);
      lab' := SetSite(labels, i, j, primary, lab);
      cur', cr' := cur, cr;
      JoinStep(g, lab, m, cur, cr, i, j, primary, q, lab', m');
    }
  }

  // ----- What the labeler promises -----

  /** The finished scan marks exactly the occupied sites, and a label never
      spans two clusters. */
  lemma ScanLabels(g: Grid, lab: Labels, m: LabelMap, cur: int, cr: map<int, Site>)
    requires Finished(g, lab, m, cur, cr)
    ensures MarksOccupied(g, lab, 2) && SameLabelConnected(g, lab) && LabelsIn(m, lab)
  {
    forall a | InGrid(|g|, a)
      ensures (lab[a.row][a.col] != 0 <==> Open(g, a)) && (lab[a.row][a.col] != 0 ==> 2 <= lab[a.row][a.col])
    {
      FinishedLabelled(g, lab, m, cur, cr, a);
    }
    forall a, b | InGrid(|g|, a) && InGrid(|g|, b) && lab[a.row][a.col] != 0 && lab[a.row][a.col] == lab[b.row][b.col]
      ensures Connected(g, a, b)
    {
      FinishedLabelled(g, lab, m, cur, cr, a);
      FinishedLabelled(g, lab, m, cur, cr, b);
      SameRootConnected(g, lab, m, cur, cr, a, b);
    }
  }

  // ----- The optional rewriting of labels to their roots -----

  /** update_labels: every positive label is replaced by its root, found
      with find_root, in row-major order. */
  method ResolveLabels(labels: array2<int>, m: LabelMap, ghost lab0: Labels) returns (ghost lab: Labels)
    requires Mirrors(labels, lab0) && IsGrid(lab0, |lab0|) && Valid(m) && LabelsIn(m, lab0)
    modifies labels
    ensures Mirrors(labels, lab) && lab == Relabelled(RootMap(m), lab0)
  {
    lab := lab0;
    for i := 0 to labels.Length0
      invariant Mirrors(labels, lab) && RelabelledBefore(RootMap(m), lab0, lab, Site(i, 0))
    {
      assert labels.Length1 == |lab0[i]| == |lab0|;
      for j := 0 to labels.Length1
        invariant Mirrors(labels, lab) && RelabelledBefore(RootMap(m), lab0, lab, Site(i, j))
      {
        ghost var prev := lab;
        if labels[i, j] > 0 {
          var root := FindRoot(m, labels[i, j]);
          lab := SetSite(labels, i, j, root, lab);
        }
        RelabelStep(RootMap(m), lab0, prev, lab, i, j);
      }
      RelabelRowEnd(RootMap(m), lab0, lab, i);
    }
    RelabelDone(RootMap(m), lab0, lab);
  }

  /** After the rewriting, the label of an occupied site is its root, so
      the labels name the clusters. */
  lemma ResolvedLabels(g: Grid, lab: Labels, m: LabelMap, cur: int, cr: map<int, Site>)
    requires Finished(g, lab, m, cur, cr) && LabelsIn(m, lab)
    ensures MarksOccupied(g, Relabelled(RootMap(m), lab), 2)
    ensures SameLabelConnected(g, Relabelled(RootMap(m), lab)) && LabelsNameClusters(g, Relabelled(RootMap(m), lab))
  {
    var res := Relabelled(RootMap(m), lab);
    forall a | InGrid(|g|, a)
      ensures (res[a.row][a.col] != 0 <==> Open(g, a)) && (res[a.row][a.col] != 0 ==> 2 <= res[a.row][a.col])
      ensures Open(g, a) ==> res[a.row][a.col] == RootOfSite(m, lab, a)
    {
      FinishedLabelled(g, lab, m, cur, cr, a);
    }
    forall a, b | InGrid(|g|, a) && InGrid(|g|, b) && Open(g, a) && Open(g, b)
      ensures res[a.row][a.col] == res[b.row][b.col] <==> Connected(g, a, b)
    {
      if res[a.row][a.col] == res[b.row][b.col] {
        SameRootConnected(g, lab, m, cur, cr, a, b);
      }
      if Connected(g, a, b) {
        ConnectedSameRoot(g, lab, m, a, b);
      }
    }
  }

  // ----- The cluster-size count -----

  /** Each size occurs among the collected sizes once per cluster of that
      size. */
  lemma SizesAreClusters(g: Grid, lab: Labels, m: LabelMap, cur: int, cr: map<int, Site>, s: int)
    requires Finished(g, lab, m, cur, cr)
    ensures multiset(PositiveSizes(m, 2, cur))[s] == NumClusters(g, s)
  {
    PositiveSizesCount(m, 2, cur, s);
    if s > 0 {
      assert RootsBetween(m, 2, cur, s) == RootsOfSize(m, s);
      ClustersAreRoots(g, lab, m, cur, cr, s);
    } else {
      assert RootsBetween(m, 2, cur, s) == {};
      NoEmptyClusters(g, s);
    }
  }

  /** What the labels promise, for the labels as scanned or as rewritten. */
  lemma LabelsResult(g: Grid, labels: array2<int>, updateLabels: bool,
                     scanned: Labels, m: LabelMap, cur: int, cr: map<int, Site>)
    requires Finished(g, scanned, m, cur, cr) && LabelsIn(m, scanned)
    requires Mirrors(labels, if updateLabels then Relabelled(RootMap(m), scanned) else scanned)
    ensures MarksOccupied(g, Snapshot(labels), 2) && SameLabelConnected(g, Snapshot(labels))
    ensures updateLabels ==> LabelsNameClusters(g, Snapshot(labels))
  {
    if updateLabels {
      SnapshotOf(labels, Relabelled(RootMap(m), scanned));
      ResolvedLabels(g, scanned, m, cur, cr);
    } else {
      SnapshotOf(labels, scanned);
      ScanLabels(g, scanned, m, cur, cr);
    }
  }

  /** What the cluster count promises. */
  lemma CountResult(g: Grid, scanned: Labels, m: LabelMap, cur: int, cr: map<int, Site>,
                    sizes: seq<int>, c: Counter)
    requires Finished(g, scanned, m, cur, cr) && sizes == PositiveSizes(m, 2, cur)
    requires forall v :: Get(c, v) == multiset(sizes)[v]
    requires forall v :: v in c <==> v in sizes
    ensures forall s :: Get(c, s) == NumClusters(g, s)
    ensures forall s :: s in c <==> NumClusters(g, s) > 0
  {
    forall s ensures Get(c, s) == NumClusters(g, s) {
      SizesAreClusters(g, scanned, m, cur, cr, s);
    }
  }

  /** The scan of row i, column by column. */
  method ScanRow(g: Grid, labels: array2<int>, m: LabelMap, cur: int, i: int,
                 ghost lab: Labels, ghost cr: map<int, Site>)
    returns (m': LabelMap, cur': int, ghost lab': Labels, ghost cr': map<int, Site>)
    requires Mirrors(labels, lab) && ScanInv(g, lab, m, cur, cr, Site(i, 0)) && 0 <= i < |g|
    modifies labels
    ensures Mirrors(labels, lab') && ScanInv(g, lab', m', cur', cr', Site(i + 1, 0))
  {
    m', cur', lab', cr' := m, cur, lab, cr;
    for j := 0 to |g|
      invariant Mirrors(labels, lab') && ScanInv(g, lab', m', cur', cr', Site(i, j))
    {
      if g[i][j] == 1 {
        m', cur', lab', cr' := Visit(g, labels, m', cur', i, j, lab', cr');
      } else {
        ScanSkip(g, lab', m', cur', cr', i, j);
      }
    }
    ScanRowEnd(g, lab', m', cur', cr', i);
  }

  /** The labelling scan over all rows. */
  method ScanLattice(g: Grid, labels: array2<int>, ghost lab0: Labels)
    returns (m: LabelMap, cur: int, ghost lab: Labels, ghost cr: map<int, Site>)
    requires IsSquare(g) && lab0 == Filled(|g|, 0) && Mirrors(labels, lab0)
    modifies labels
    ensures Mirrors(labels, lab) && Finished(g, lab, m, cur, cr)
  {
    lab, m, cur, cr := lab0, map[], 2, map[];
    ScanStart(g, lab, m, cur, cr);
    for i := 0 to |g|
      invariant Mirrors(labels, lab) && ScanInv(g, lab, m, cur, cr, Site(i, 0))
    {
      m, cur, lab, cr := ScanRow(g, labels, m, cur, i, lab, cr);
    }
  }

  /** hoshen_kopelman: one row-major scan labels every occupied site; the
      optional second pass rewrites each label to its root; the count maps
      each cluster size to the number of clusters of that size. */
  method HoshenKopelman(g: Grid, updateLabels: bool) returns (labels: array2<int>, clusterSizes: Counter)
    requires IsSquare(g)
    ensures labels.Length0 == |g| && labels.Length1 == |g|
    ensures MarksOccupied(g, Snapshot(labels), 2) && SameLabelConnected(g, Snapshot(labels))
    ensures updateLabels ==> LabelsNameClusters(g, Snapshot(labels))
    ensures forall s :: Get(clusterSizes, s) == NumClusters(g, s)
    ensures forall s :: s in clusterSizes <==> NumClusters(g, s) > 0
  {
    var L := |g|;
    labels := new int[L, L]((r, c) => 0);
    ghost var lab0: Labels := Filled(L, 0);
    var m, cur, scanned, cr := ScanLattice(g, labels, lab0);
    ScanLabels(g, scanned, m, cur, cr);
    if updateLabels {
      ghost var lab := ResolveLabels(labels, m, scanned);
    }
    var sizes := CollectSizes(m, cur);
    clusterSizes := CounterOf(sizes);
    LabelsResult(g, labels, updateLabels, scanned, m, cur, cr);
    CountResult(g, scanned, m, cur, cr, sizes, clusterSizes);
  }
}
