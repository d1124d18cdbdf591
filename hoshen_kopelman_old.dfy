/** `hoshen_kopelman` of Percolation/percolation_old.py: a row-major scan
    labels every occupied site, joining the labels of touching sites in a
    union-find dictionary `parent`; a second pass replaces every label by
    its root; and a Counter of the flattened label grid gives, for each
    label, the size of its cluster (and, under 0, the number of empty
    sites). */
module HoshenKopelmanOld {
  import opened Lattice
  import opened Mirror
  import opened UnionFind
  import opened Counters
  import opened Labelling
  import opened OldScanInvariant

  // ----- The scan -----

  /** The labelled top and left neighbours are exactly the occupied ones,
      and their labels are keys of `parent`. */
  lemma NeighboursScanned(g: Grid, lab: Labels, parent: Parent, rep: map<int, int>, d: map<int, nat>,
                          next: int, i: int, j: int)
    requires Base(g, lab, parent, rep, d, next, Site(i, j)) && 0 <= i < |g| && 0 <= j < |g|
    ensures |NeighbourLabels(lab, i, j)| <= 2
    ensures forall v :: v in NeighbourLabels(lab, i, j) <==> NeighbourLabel(g, lab, i, j, v)
    ensures forall v :: v in NeighbourLabels(lab, i, j) ==> v in parent
    ensures NeighbourLabels(lab, i, j) == [] <==> (i == 0 || g[i - 1][j] != 1) && (j == 0 || g[i][j - 1] != 1)
  {
    ScannedAt(g, lab, parent, rep, d, next, Site(i, j), if i > 0 then i - 1 else i, j);
    ScannedAt(g, lab, parent, rep, d, next, Site(i, j), i, if j > 0 then j - 1 else j);
  }

  /** for n in neighbors: union(min_label, n). Uniting min_label with
      itself changes nothing, so the classes of min_label and of the other
      neighbour label end up merged. */
  method JoinUnions(parent: Parent, neighbours: seq<int>, minLabel: int, ghost rep: map<int, int>, ghost d: map<int, nat>)
    returns (parent': Parent, ghost rep': map<int, int>, ghost d': map<int, nat>)
    requires Forest(parent, rep, d) && minLabel in neighbours
    requires forall v :: v in neighbours ==> v in parent
    requires forall v :: v in neighbours ==> v == minLabel || v == OtherRoot(neighbours, minLabel)
    ensures Forest(parent', rep', d') && parent'.Keys == parent.Keys
    ensures rep' == Merged(rep, rep[minLabel], rep[OtherRoot(neighbours, minLabel)])
  {
    ghost var b := OtherRoot(neighbours, minLabel);
    ghost var merged := Merged(rep, rep[minLabel], rep[b]);
    assert b in neighbours;
    assert Merged(rep, rep[minLabel], rep[minLabel]) == rep;
    parent', rep', d' := parent, rep, d;
    for k := 0 to |neighbours|
      invariant Forest(parent', rep', d') && parent'.Keys == parent.Keys
      invariant rep' == if b in neighbours[..k] then merged else rep
    {
      assert neighbours[..k + 1] == neighbours[..k] + [neighbours[k]];
      assert neighbours[k] in neighbours;
      ghost var before := rep';
      assert Merged(before, before[minLabel], before[minLabel]) == before;
      parent', rep', d' := Union(parent', minLabel, neighbours[k], rep', d');
    }
    assert neighbours[..|neighbours|] == neighbours;
  }

  /** The body of the scan at an occupied site (i, j): with no labelled top
      or left neighbour it opens label `label`; otherwise it takes the
      smallest neighbour label and unites it with each neighbour label. */
  method Visit(g: Grid, labels: array2<int>, parent: Parent, next: int, i: int, j: int,
               ghost lab: Labels, ghost rep: map<int, int>, ghost d: map<int, nat>, ghost cr: map<int, Site>)
    returns (parent': Parent, next': int, ghost lab': Labels, ghost rep': map<int, int>,
             ghost d': map<int, nat>, ghost cr': map<int, Site>)
    requires ScanInv(g, lab, parent, rep, d, next, cr, Site(i, j)) && Mirrors(labels, lab)
    requires 0 <= i < |g| && 0 <= j < |g| && g[i][j] == 1
    modifies labels
    ensures Mirrors(labels, lab') && ScanInv(g, lab', parent', rep', d', next', cr', Site(i, j + 1))
  {
    var neighbours := LabelledNeighbours(labels, i, j, lab);
    NeighboursScanned(g, lab, parent, rep, d, next, i, j);
    if neighbours != [] {
      var minLabel := MinOf(neighbours);
      ghost var other := OtherRoot(neighbours, minLabel);
      assert other in neighbours;
      lab' := SetSite(labels, i, j, minLabel, lab);
      parent', rep', d' := JoinUnions(parent, neighbours, minLabel, rep, d);
      next', cr' := next, cr;
      JoinStep(g, lab, parent, rep, d, next, cr, i, j, minLabel, other, lab', parent', rep', d');
    } else {
      lab' := SetSite(labels, i, j, next, lab);
      parent' := parent[next := next];
      rep', d' := rep[next := next], d[next := 0];
      next' := next + 1;
      cr' := cr[next := Site(i, j)];
      FreshStep(g, lab, parent, rep, d, next, cr, i, j, lab', parent', rep', d', next', cr');
    }
  }

  /** The scan of row i, column by column. */
  method ScanRow(g: Grid, labels: array2<int>, parent: Parent, next: int, i: int,
                 ghost lab: Labels, ghost rep: map<int, int>, ghost d: map<int, nat>, ghost cr: map<int, Site>)
    returns (parent': Parent, next': int, ghost lab': Labels, ghost rep': map<int, int>,
             ghost d': map<int, nat>, ghost cr': map<int, Site>)
    requires Mirrors(labels, lab) && ScanInv(g, lab, parent, rep, d, next, cr, Site(i, 0)) && 0 <= i < |g|
    modifies labels
    ensures Mirrors(labels, lab') && ScanInv(g, lab', parent', rep', d', next', cr', Site(i + 1, 0))
  {
    parent', next', lab', rep', d', cr' := parent, next, lab, rep, d, cr;
    for j := 0 to |g|
      invariant Mirrors(labels, lab') && ScanInv(g, lab', parent', rep', d', next', cr', Site(i, j))
    {
      if g[i][j] == 1 {
        parent', next', lab', rep', d', cr' := Visit(g, labels, parent', next', i, j, lab', rep', d', cr');
      } else {
        ScanSkip(g, lab', parent', rep', d', next', cr', i, j);
      }
    }
    ScanRowEnd(g, lab', parent', rep', d', next', cr', i);
  }

  /** The labelling scan over all rows, starting from label 1. */
  method ScanLattice(g: Grid, labels: array2<int>, ghost lab0: Labels)
    returns (parent: Parent, next: int, ghost lab: Labels, ghost rep: map<int, int>,
             ghost d: map<int, nat>, ghost cr: map<int, Site>)
    requires IsSquare(g) && lab0 == Filled(|g|, 0) && Mirrors(labels, lab0)
    modifies labels
    ensures Mirrors(labels, lab) && Finished(g, lab, parent, rep, d, next, cr)
  {
    lab, parent, rep, d, next, cr := lab0, map[], map[], map[], 1, map[];
    ScanStart(g, lab, parent, rep, d, next, cr);
    for i := 0 to |g|
      invariant Mirrors(labels, lab) && ScanInv(g, lab, parent, rep, d, next, cr, Site(i, 0))
    {
      parent, next, lab, rep, d, cr := ScanRow(g, labels, parent, next, i, lab, rep, d, cr);
    }
  }

  // ----- The rewriting of labels to their roots -----

  /** Every positive label is replaced by find(label), in row-major order;
      the path halving of each find keeps the classes. */
  method ResolveLabels(labels: array2<int>, parent: Parent, ghost lab0: Labels, ghost rep: map<int, int>, ghost d: map<int, nat>)
    returns (parent': Parent, ghost lab: Labels)
    requires Mirrors(labels, lab0) && IsGrid(lab0, |lab0|) && Forest(parent, rep, d) && LabelsIn(rep, lab0)
    modifies labels
    ensures Forest(parent', rep, d) && parent'.Keys == parent.Keys
    ensures Mirrors(labels, lab) && lab == Relabelled(rep, lab0)
  {
    parent', lab := parent, lab0;
    for i := 0 to labels.Length0
      invariant Forest(parent', rep, d) && parent'.Keys == parent.Keys
      invariant Mirrors(labels, lab) && RelabelledBefore(rep, lab0, lab, Site(i, 0))
    {
      assert labels.Length1 == |lab0[i]| == |lab0|;
      for j := 0 to labels.Length1
        invariant Forest(parent', rep, d) && parent'.Keys == parent.Keys
        invariant Mirrors(labels, lab) && RelabelledBefore(rep, lab0, lab, Site(i, j))
      {
        ghost var prev := lab;
        if labels[i, j] > 0 {
          var root;
          root, parent' := Find(parent', labels[i, j], rep, d);
          lab := SetSite(labels, i, j, root, lab);
        }
        RelabelStep(rep, lab0, prev, lab, i, j);
      }
      RelabelRowEnd(rep, lab0, lab, i);
    }
    RelabelDone(rep, lab0, lab);
  }

  /** Once rewritten, every site that had a positive label carries a root
      of the forest. */
  lemma ResolvedRoots(parent: Parent, rep: map<int, int>, d: map<int, nat>, lab0: Labels)
    requires Forest(parent, rep, d) && LabelsIn(rep, lab0)
    ensures forall r, c :: 0 <= r < |lab0| && 0 <= c < |lab0[r]| && lab0[r][c] > 0 ==>
      Relabelled(rep, lab0)[r][c] in parent && parent[Relabelled(rep, lab0)[r][c]] == Relabelled(rep, lab0)[r][c]
  {
    forall r, c | 0 <= r < |lab0| && 0 <= c < |lab0[r]| && lab0[r][c] > 0
      ensures Relabelled(rep, lab0)[r][c] in parent && parent[Relabelled(rep, lab0)[r][c]] == Relabelled(rep, lab0)[r][c]
    {
      RepIsRoot(parent, rep, d, lab0[r][c]);
    }
  }

  // ----- What the labeler promises -----

  /** After the rewriting, the label of an occupied site is its class's
      root, so the labels name the clusters. */
  lemma ResolvedLabels(g: Grid, lab: Labels, parent: Parent, rep: map<int, int>, d: map<int, nat>,
                       next: int, cr: map<int, Site>)
    requires Finished(g, lab, parent, rep, d, next, cr)
    ensures LabelsIn(rep, lab)
    ensures MarksOccupied(g, Relabelled(rep, lab), 1)
    ensures SameLabelConnected(g, Relabelled(rep, lab)) && LabelsNameClusters(g, Relabelled(rep, lab))
  {
    forall r, c | 0 <= r < |lab| && 0 <= c < |lab[r]| && lab[r][c] > 0 ensures lab[r][c] in rep {
      FinishedLabelled(g, lab, parent, rep, d, next, cr, Site(r, c));
    }
    var res := Relabelled(rep, lab);
    forall a | InGrid(|g|, a)
      ensures (res[a.row][a.col] != 0 <==> Open(g, a)) && (res[a.row][a.col] != 0 ==> 1 <= res[a.row][a.col])
      ensures Open(g, a) ==> res[a.row][a.col] == RepOfSite(rep, lab, a)
    {
      FinishedLabelled(g, lab, parent, rep, d, next, cr, a);
    }
    forall a, b | InGrid(|g|, a) && InGrid(|g|, b) && Open(g, a) && Open(g, b)
      ensures res[a.row][a.col] == res[b.row][b.col] <==> Connected(g, a, b)
    {
      if res[a.row][a.col] == res[b.row][b.col] {
        SameRepConnected(g, lab, parent, rep, d, next, cr, a, b);
      }
      if Connected(g, a, b) {
        ConnectedSameRep(g, lab, rep, a, b);
      }
    }
  }

  /** The cells carrying an occupied site's label form its cluster. */
  lemma LabelCells(g: Grid, lab: Labels, a: Site)
    requires IsSquare(g) && MarksOccupied(g, lab, 1) && LabelsNameClusters(g, lab) && InGrid(|g|, a) && Open(g, a)
    ensures CellsWith(lab, lab[a.row][a.col]) == Component(g, a)
  {
    var v := lab[a.row][a.col];
    forall s | s in CellsWith(lab, v) ensures s in Component(g, a) {
      ComponentMember(g, a, s);
    }
    forall s | s in Component(g, a) ensures s in CellsWith(lab, v) {
      ComponentMember(g, a, s);
      ConnectedOpen(g, a, s);
      assert s == Site(s.row, s.col);
    }
  }

  /** The cells carrying 0 are the empty sites. */
  lemma ZeroCells(g: Grid, lab: Labels)
    requires IsSquare(g) && MarksOccupied(g, lab, 1)
    ensures CellsWith(lab, 0) == EmptySites(g)
  {
    forall s | s in EmptySites(g) ensures s in CellsWith(lab, 0) {
      assert InGrid(|g|, s);
    }
  }

  /** The facts `Counter(labels.flatten())` is built from. */
  ghost predicate CountsOf(g: Grid, lab: Labels, flat: seq<int>, c: Counter) {
    IsSquare(g) && MarksOccupied(g, lab, 1) && LabelsNameClusters(g, lab) && flat == Flatten(lab) &&
    (forall v :: Get(c, v) == multiset(flat)[v]) && (forall v :: v in c <==> v in flat)
  }

  /** Under 0: the number of empty sites. */
  lemma CountZero(g: Grid, lab: Labels, flat: seq<int>, c: Counter)
    requires CountsOf(g, lab, flat, c)
    ensures Get(c, 0) == |EmptySites(g)|
  {
    FlattenCount(lab, 0);
    ZeroCells(g, lab);
  }

  /** Under the label of an occupied site: the size of its cluster. */
  lemma CountLabels(g: Grid, lab: Labels, flat: seq<int>, c: Counter)
    requires CountsOf(g, lab, flat, c)
    ensures forall a :: InGrid(|g|, a) && Open(g, a) ==> Get(c, lab[a.row][a.col]) == |Component(g, a)|
  {
    forall a | InGrid(|g|, a) && Open(g, a) ensures Get(c, lab[a.row][a.col]) == |Component(g, a)| {
      FlattenCount(lab, lab[a.row][a.col]);
      LabelCells(g, lab, a);
    }
  }

  /** A value present in the flattened grid is a label or 0. */
  lemma FlatValue(g: Grid, lab: Labels, flat: seq<int>, c: Counter, v: int)
    requires CountsOf(g, lab, flat, c) && v in c
    ensures v >= 0
  {
    FlattenCount(lab, v);
    var s :| s in CellsWith(lab, v);
    assert InGrid(|g|, s);
  }

  /** The labels carried by occupied sites. */
  ghost function LabelsOf(g: Grid, lab: Labels): set<int> {
    set r, c | 0 <= r < |lab| && 0 <= c < |lab[r]| && Open(g, Site(r, c)) :: lab[r][c]
  }

  /** 0 when some site is empty. */
  ghost function EmptyKey(g: Grid): set<int> {
    if |EmptySites(g)| > 0 then {0} else {}
  }

  /** The keys are 0 when a site is empty and the labels of occupied sites. */
  lemma CountKeys(g: Grid, lab: Labels, flat: seq<int>, c: Counter)
    requires CountsOf(g, lab, flat, c)
    ensures c.Keys == EmptyKey(g) + LabelsOf(g, lab)
  {
    forall v | v in c ensures v in EmptyKey(g) + LabelsOf(g, lab) {
      FlattenCount(lab, v);
      var s :| s in CellsWith(lab, v);
      assert InGrid(|g|, s);
      if v == 0 {
        ZeroCells(g, lab);
      } else {
        assert Open(g, Site(s.row, s.col));
      }
    }
    forall v | v in EmptyKey(g) + LabelsOf(g, lab) ensures v in c {
      FlattenCount(lab, v);
      if v in EmptyKey(g) {
        ZeroCells(g, lab);
        var s :| s in EmptySites(g);
      } else {
        var r, c' :| 0 <= r < |lab| && 0 <= c' < |lab[r]| && Open(g, Site(r, c')) && lab[r][c'] == v;
        assert Site(r, c') in CellsWith(lab, v);
      }
    }
  }

  /** The counts add up to the number of sites. */
  lemma CountTotal(g: Grid, lab: Labels, flat: seq<int>, c: Counter)
    requires CountsOf(g, lab, flat, c)
    ensures forall k :: (forall v :: v in c ==> v < k) ==> RangeSum(c, 0, k) == |g| * |g|
  {
    FlattenLength(lab, |g|);
    forall k | forall v :: v in c ==> v < k
      ensures RangeSum(c, 0, k) == |g| * |g|
    {
      forall n | 0 <= n < |flat| ensures 0 <= flat[n] < k {
        assert flat[n] in flat;
        FlatValue(g, lab, flat, c, flat[n]);
      }
      if |flat| > 0 {
        assert 0 <= flat[0] < k;
      }
      if k >= 0 {
        RangeSumOfCounter(c, multiset(flat), 0, k);
        OccurrencesSum(flat, 0, k);
      }
    }
  }

  /** hoshen_kopelman: the labels name the clusters with positive labels,
      and the Counter of the flattened labels gives each label's cluster
      size and the number of empty sites under 0. */
  method HoshenKopelmanOld(g: Grid) returns (labels: array2<int>, clusterSizes: Counter)
    requires IsSquare(g)
    ensures labels.Length0 == |g| && labels.Length1 == |g|
    ensures MarksOccupied(g, Snapshot(labels), 1)
    ensures SameLabelConnected(g, Snapshot(labels)) && LabelsNameClusters(g, Snapshot(labels))
    ensures Get(clusterSizes, 0) == |EmptySites(g)|
    ensures forall a :: InGrid(|g|, a) && Open(g, a) ==> Get(clusterSizes, Snapshot(labels)[a.row][a.col]) == |Component(g, a)|
    ensures clusterSizes.Keys == EmptyKey(g) + LabelsOf(g, Snapshot(labels))
    ensures forall k :: (forall v :: v in clusterSizes ==> v < k) ==> RangeSum(clusterSizes, 0, k) == |g| * |g|
  {
    var L := |g|;
    labels := new int[L, L]((r, c) => 0);
    ghost var lab0: Labels := Filled(L, 0);
    var parent, next, scanned, rep, d, cr := ScanLattice(g, labels, lab0);
    ResolvedLabels(g, scanned, parent, rep, d, next, cr);
    var parent', lab := ResolveLabels(labels, parent, scanned, rep, d);
    var flat := FlattenLabels(labels, lab);
    clusterSizes := CounterOf(flat);
    SnapshotOf(labels, lab);
    CountZero(g, lab, flat, clusterSizes);
    CountLabels(g, lab, flat, clusterSizes);
    CountKeys(g, lab, flat, clusterSizes);
    CountTotal(g, lab, flat, clusterSizes);
  }
}
