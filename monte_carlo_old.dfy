/** The integer bookkeeping of `monte_carlo_simulation` in
    Percolation/percolation_old.py for one occupation probability: over T
    trial lattices it counts the spanning ones (`P_flow`), adds up
    `max(cluster_sizes.values())` of each (`smax_total`), and merges the
    per-trial label -> number-of-cells Counters (`cluster_distribution`).
    The lattices are supplied instead of drawn at random. */
module MonteCarloOld {
  import opened Lattice
  import opened Mirror
  import opened Counters
  import opened Labelling
  import opened Clusters
  import opened MonteCarlo
  import BurningOld
  import HoshenKopelmanOld

  /** The Counter of a lattice maps 0 to its number of empty sites and the
      label of each occupied site to the size of that site's cluster, and
      has no other keys. */
  ghost predicate SizeCounts(g: Grid, lab: Labels, c: Counter) {
    IsSquare(g) && MarksOccupied(g, lab, 1) &&
    Get(c, 0) == |EmptySites(g)| &&
    (forall a :: InGrid(|g|, a) && Open(g, a) ==> Get(c, lab[a.row][a.col]) == |Component(g, a)|) &&
    c.Keys == HoshenKopelmanOld.EmptyKey(g) + HoshenKopelmanOld.LabelsOf(g, lab)
  }

  /** The counts of a Counter with nonnegative keys add up to the number of
      sites. */
  ghost predicate CellsTotal(g: Grid, c: Counter) {
    forall k :: (forall v :: v in c ==> v < k) ==> RangeSum(c, 0, k) == |g| * |g|
  }

  /** What `hoshen_kopelman` of this file promises about its labels and
      its Counter. */
  ghost predicate LabelCounts(g: Grid, lab: Labels, c: Counter) {
    SizeCounts(g, lab, c) && LabelsNameClusters(g, lab) && CellsTotal(g, c)
  }

  /** What `max(cluster_sizes.values())` gives for a lattice of side at
      least 1: the larger of the number of empty sites and the largest
      cluster size. */
  ghost function LargestOrEmpty(g: Grid): int {
    if |EmptySites(g)| > Largest(g) then |EmptySites(g)| else Largest(g)
  }

  /** Every trial lattice has at least one site. */
  ghost predicate AllSided(lattices: seq<Grid>) {
    forall k :: 0 <= k < |lattices| ==> |lattices[k]| > 0
  }

  /** Every trial's Counter counts the cells of its lattice under their
      labels. */
  ghost predicate AllCounted(lattices: seq<Grid>, labs: seq<Labels>, counters: seq<Counter>) {
    |labs| == |lattices| && |counters| == |lattices| &&
    forall k :: 0 <= k < |lattices| ==> LabelCounts(lattices[k], labs[k], counters[k])
  }

  /** The number of spanning trials. */
  ghost function SpanningLattices(lattices: seq<Grid>): int {
    if lattices == [] then 0
    else SpanningLattices(lattices[..|lattices| - 1]) + (if Spans(lattices[|lattices| - 1]) then 1 else 0)
  }

  /** `max(cluster_sizes.values())` of the trials added up. */
  ghost function LargestOrEmptySum(lattices: seq<Grid>): int {
    if lattices == [] then 0 else LargestOrEmptySum(lattices[..|lattices| - 1]) + LargestOrEmpty(lattices[|lattices| - 1])
  }

  /** The empty sites of the trials added up. */
  ghost function EmptyTotal(lattices: seq<Grid>): int {
    if lattices == [] then 0 else EmptyTotal(lattices[..|lattices| - 1]) + |EmptySites(lattices[|lattices| - 1])|
  }

  /** The counts of key v in a sequence of Counters added up. */
  function SumAt(counters: seq<Counter>, v: int): int {
    if counters == [] then 0 else SumAt(counters[..|counters| - 1], v) + Get(counters[|counters| - 1], v)
  }

  /** Key v occurs in some Counter of the sequence. */
  predicate HasKey(counters: seq<Counter>, v: int) {
    counters != [] && (HasKey(counters[..|counters| - 1], v) || v in counters[|counters| - 1])
  }

  /** 0 <= P_flow <= T. */
  lemma {:induction false} SpanningLatticesBounds(lattices: seq<Grid>)
    ensures 0 <= SpanningLattices(lattices) <= |lattices|
  {
    if lattices != [] {
      SpanningLatticesBounds(lattices[..|lattices| - 1]);
    }
  }

  /** The tallies over the first k + 1 trials extend those over the first
      k by trial k. */
  lemma PrefixStep(lattices: seq<Grid>, k: int)
    requires 0 <= k < |lattices|
    ensures SpanningLattices(lattices[..k + 1]) == SpanningLattices(lattices[..k]) + if Spans(lattices[k]) then 1 else 0
    ensures LargestOrEmptySum(lattices[..k + 1]) == LargestOrEmptySum(lattices[..k]) + LargestOrEmpty(lattices[k])
    ensures LargestSum(lattices[..k + 1]) == LargestSum(lattices[..k]) + Largest(lattices[k])
  {
    assert lattices[..k + 1][..k] == lattices[..k];
  }

  /** Adding one more Counter adds its counts and its keys. */
  lemma SumAtStep(counters: seq<Counter>, c: Counter)
    ensures forall v :: SumAt(counters + [c], v) == SumAt(counters, v) + Get(c, v)
    ensures forall v :: HasKey(counters + [c], v) <==> HasKey(counters, v) || v in c
  {
    assert (counters + [c])[..|counters|] == counters;
  }

  /** Updating a distribution that tallies `counters` with `c` tallies
      `counters + [c]`. */
  lemma TallyStep(distribution: Counter, counters: seq<Counter>, c: Counter, updated: Counter)
    requires forall v :: Get(distribution, v) == SumAt(counters, v)
    requires forall v :: v in distribution <==> HasKey(counters, v)
    requires forall v :: Get(updated, v) == Get(distribution, v) + Get(c, v)
    requires updated.Keys == distribution.Keys + c.Keys
    ensures forall v :: Get(updated, v) == SumAt(counters + [c], v)
    ensures forall v :: v in updated <==> HasKey(counters + [c], v)
  {
    SumAtStep(counters, c);
  }

  /** The counts of key 0 over the trials are their empty sites. */
  lemma {:induction false} SumAtZero(lattices: seq<Grid>, labs: seq<Labels>, counters: seq<Counter>)
    requires AllCounted(lattices, labs, counters)
    ensures SumAt(counters, 0) == EmptyTotal(lattices)
    decreases |lattices|
  {
    if lattices != [] {
      var n := |lattices| - 1;
      assert LabelCounts(lattices[n], labs[n], counters[n]);
      forall k | 0 <= k < n ensures LabelCounts(lattices[..n][k], labs[..n][k], counters[..n][k]) {
        assert LabelCounts(lattices[k], labs[k], counters[k]);
      }
      SumAtZero(lattices[..n], labs[..n], counters[..n]);
    }
  }

  /** The first k + 1 lattices all have a site when the first k do and
      lattice k does. */
  lemma SidedStep(lattices: seq<Grid>, k: int)
    requires 0 <= k < |lattices|
    ensures AllSided(lattices[..k + 1]) <==> AllSided(lattices[..k]) && |lattices[k]| > 0
  {
    var longer, shorter := lattices[..k + 1], lattices[..k];
    assert longer[k] == lattices[k];
    forall j | 0 <= j < k ensures longer[j] == shorter[j] {
    }
  }

  /** The first k + 1 trials are counted when the first k are and trial k
      is. */
  lemma CountedStep(lattices: seq<Grid>, labs: seq<Labels>, counters: seq<Counter>, k: int, lab: Labels, c: Counter)
    requires 0 <= k < |lattices| && AllCounted(lattices[..k], labs, counters)
    requires LabelCounts(lattices[k], lab, c)
    ensures AllCounted(lattices[..k + 1], labs + [lab], counters + [c])
  {
    var longer, shorter := lattices[..k + 1], lattices[..k];
    assert longer[k] == lattices[k];
    forall j | 0 <= j < k ensures longer[j] == shorter[j] {
    }
  }

  /** One trial: the spanning test, and the labels and label Counter of
      its lattice. */
  method Trial(g: Grid) returns (spans: bool, clusterSizes: Counter, ghost lab: Labels)
    requires IsSquare(g)
    ensures spans <==> Spans(g)
    ensures LabelCounts(g, lab, clusterSizes)
  {
    spans := BurningOld.BurningMethod(g);
    var labels, sizes := HoshenKopelmanOld.HoshenKopelmanOld(g);
    lab := Snapshot(labels);
    clusterSizes := sizes;
  }

  /** An occupied site's cluster size is one of the Counter's values. */
  lemma ClusterValue(g: Grid, lab: Labels, c: Counter, a: Site)
    requires SizeCounts(g, lab, c) && InGrid(|g|, a) && Open(g, a)
    ensures lab[a.row][a.col] in c && lab[a.row][a.col] != 0 && c[lab[a.row][a.col]] == |Component(g, a)|
  {
  }

  /** A value under a nonzero key is some occupied site's cluster size. */
  lemma ValueCluster(g: Grid, lab: Labels, c: Counter, v: int) returns (a: Site)
    requires SizeCounts(g, lab, c) && v in c && v != 0
    ensures InGrid(|g|, a) && Open(g, a) && c[v] == |Component(g, a)|
  {
    assert v in HoshenKopelmanOld.LabelsOf(g, lab);
    var r, c' :| 0 <= r < |lab| && 0 <= c' < |lab[r]| && Open(g, Site(r, c')) && lab[r][c'] == v;
    a := Site(r, c');
  }

  /** max(cluster_sizes.values()) as written: it raises only on a lattice
      without sites, and otherwise counts the empty sites as a candidate. */
  lemma MaxValueAsWritten(g: Grid, lab: Labels, c: Counter, r: Option<int>)
    requires SizeCounts(g, lab, c)
    requires r.None? <==> c == map[]
    requires r.Some? ==> (exists k :: k in c && c[k] == r.value) && forall k :: k in c ==> c[k] <= r.value
    ensures r.None? <==> |g| == 0
    ensures r.Some? ==> r.value == LargestOrEmpty(g)
  {
    if |g| > 0 {
      var s := Site(0, 0);
      if Open(g, s) {
        ClusterValue(g, lab, c, s);
      } else {
        assert s in EmptySites(g);
        assert 0 in HoshenKopelmanOld.EmptyKey(g);
      }
    } else {
      assert EmptySites(g) == {};
      assert c.Keys == {};
    }
    if r.Some? {
      var k :| k in c && c[k] == r.value;
      if k != 0 {
        var a := ValueCluster(g, lab, c, k);
        LargestBounds(g, a);
      }
      LargestIsLargest(g);
      if Largest(g) > 0 {
        var a := ClusterOfSize(g, Largest(g));
        ClusterValue(g, lab, c, a);
        assert Largest(g) <= r.value;
      }
      if |EmptySites(g)| > 0 {
        assert 0 in HoshenKopelmanOld.EmptyKey(g);
        assert |EmptySites(g)| <= r.value;
      }
      LargestZero(g);
    }
  }

  /** Removing key 0 keeps every other key and its count. */
  lemma KeptKey(c: Counter, k: int)
    ensures k in c - {0} <==> k in c && k != 0
    ensures k in c - {0} ==> (c - {0})[k] == c[k]
  {
  }

  /** The largest value under a nonzero key is the largest cluster size,
      and there is none exactly when no site is occupied. */
  lemma MaxLabelValue(g: Grid, lab: Labels, c: Counter, r: Option<int>)
    requires SizeCounts(g, lab, c)
    requires r.None? <==> c - {0} == map[]
    requires r.Some? ==> (exists k :: k in c - {0} && (c - {0})[k] == r.value) && forall k :: k in c - {0} ==> (c - {0})[k] <= r.value
    ensures (if r.Some? then r.value else 0) == Largest(g)
  {
    var m := c - {0};
    LargestIsLargest(g);
    if r.Some? {
      var k :| k in m && m[k] == r.value;
      KeptKey(c, k);
      var a := ValueCluster(g, lab, c, k);
      LargestBounds(g, a);
      assert 0 < r.value <= Largest(g);
    }
    if Largest(g) > 0 {
      var a := ClusterOfSize(g, Largest(g));
      ClusterValue(g, lab, c, a);
      var l := lab[a.row][a.col];
      KeptKey(c, l);
      assert l in m && m[l] == Largest(g);
      assert r.Some? && Largest(g) <= r.value;
    }
    LargestZero(g);
  }

  /** One trial of the loop as written, with
      `max(cluster_sizes.values())` (None where it raises). */
  method TrialAsWritten(g: Grid) returns (spans: bool, largest: Option<int>, clusterSizes: Counter, ghost lab: Labels)
    requires IsSquare(g)
    ensures spans <==> Spans(g)
    ensures largest.None? <==> |g| == 0
    ensures largest.Some? ==> largest.value == LargestOrEmpty(g)
    ensures LabelCounts(g, lab, clusterSizes)
  {
    spans, clusterSizes, lab := Trial(g);
    largest := MaxValue(clusterSizes);
    MaxValueAsWritten(g, lab, clusterSizes, largest);
  }

  /** One trial with the largest value under a nonzero key in place of
      `max(cluster_sizes.values())`. */
  method TrialCorrected(g: Grid) returns (spans: bool, largest: int, clusterSizes: Counter, ghost lab: Labels)
    requires IsSquare(g)
    ensures spans <==> Spans(g)
    ensures largest == Largest(g)
    ensures LabelCounts(g, lab, clusterSizes)
  {
    spans, clusterSizes, lab := Trial(g);
    var r := MaxValue(clusterSizes - {0});
    MaxLabelValue(g, lab, clusterSizes, r);
    largest := if r.Some? then r.value else 0;
  }

  /** The trial loop as written: `max(cluster_sizes.values())` includes
      the count of label 0, the empty sites, and raises (None) only on a
      lattice without sites. */
  method TrialsAsWritten(lattices: seq<Grid>) returns (r: Option<Tally>, ghost counters: seq<Counter>, ghost labs: seq<Labels>)
    requires AllSquare(lattices)
    ensures r.None? <==> !AllSided(lattices)
    ensures r.Some? ==> r.value.pFlow == SpanningLattices(lattices) && r.value.smaxTotal == LargestOrEmptySum(lattices)
    ensures r.Some? ==> Get(r.value.distribution, 0) == EmptyTotal(lattices)
    ensures r.Some? ==> forall v :: Get(r.value.distribution, v) == SumAt(counters, v)
    ensures r.Some? ==> forall v :: v in r.value.distribution <==> HasKey(counters, v)
    ensures r.Some? ==> AllCounted(lattices, labs, counters)
  {
    var pFlow, smaxTotal, distribution := 0, 0, map[];
    counters, labs := [], [];
    for k := 0 to |lattices|
      invariant AllSided(lattices[..k])
      invariant pFlow == SpanningLattices(lattices[..k]) && smaxTotal == LargestOrEmptySum(lattices[..k])
      invariant forall v :: Get(distribution, v) == SumAt(counters, v)
      invariant forall v :: v in distribution <==> HasKey(counters, v)
      invariant AllCounted(lattices[..k], labs, counters)
    {
      var spans, largest, clusterSizes, lab := TrialAsWritten(lattices[k]);
      CountedStep(lattices, labs, counters, k, lab, clusterSizes);
      PrefixStep(lattices, k);
      SidedStep(lattices, k);
      ghost var tallied, before := distribution, counters;
      counters, labs := counters + [clusterSizes], labs + [lab];
      pFlow := pFlow + if spans then 1 else 0;
      if largest.None? {
        return None, counters, labs;
      }
      smaxTotal := smaxTotal + largest.value;
      distribution := Update(distribution, clusterSizes);
      TallyStep(tallied, before, clusterSizes, distribution);
    }
    assert lattices[..|lattices|] == lattices;
    SumAtZero(lattices, labs, counters);
    r := Some(Tally(pFlow, smaxTotal, distribution));
  }

  /** The trial loop with the largest value under a nonzero key, the
      largest cluster size, in place of `max(cluster_sizes.values())`. */
  method Trials(lattices: seq<Grid>) returns (t: Tally, ghost counters: seq<Counter>, ghost labs: seq<Labels>)
    requires AllSquare(lattices)
    ensures t.pFlow == SpanningLattices(lattices) && t.smaxTotal == LargestSum(lattices)
    ensures Get(t.distribution, 0) == EmptyTotal(lattices)
    ensures forall v :: Get(t.distribution, v) == SumAt(counters, v)
    ensures forall v :: v in t.distribution <==> HasKey(counters, v)
    ensures AllCounted(lattices, labs, counters)
  {
    var pFlow, smaxTotal, distribution := 0, 0, map[];
    counters, labs := [], [];
    for k := 0 to |lattices|
      invariant pFlow == SpanningLattices(lattices[..k]) && smaxTotal == LargestSum(lattices[..k])
      invariant forall v :: Get(distribution, v) == SumAt(counters, v)
      invariant forall v :: v in distribution <==> HasKey(counters, v)
      invariant AllCounted(lattices[..k], labs, counters)
    {
      var spans, largest, clusterSizes, lab := TrialCorrected(lattices[k]);
      CountedStep(lattices, labs, counters, k, lab, clusterSizes);
      PrefixStep(lattices, k);
      ghost var tallied, before := distribution, counters;
      counters, labs := counters + [clusterSizes], labs + [lab];
      pFlow := pFlow + if spans then 1 else 0;
      smaxTotal := smaxTotal + largest;
      distribution := Update(distribution, clusterSizes);
      TallyStep(tallied, before, clusterSizes, distribution);
    }
    assert lattices[..|lattices|] == lattices;
    SumAtZero(lattices, labs, counters);
    t := Tally(pFlow, smaxTotal, distribution);
  }

  /** The 2 x 2 lattice with only its top-left site occupied. */
  function Corner(): Grid {
    [[1, 0], [0, 0]]
  }

  /** On Corner, `max(cluster_sizes.values())` gives the count of label 0,
      its three empty sites, where the largest cluster has one site. */
  lemma CornerCountsEmpty()
    ensures IsSquare(Corner()) && |Corner()| > 0
    ensures LargestOrEmpty(Corner()) == 3 && Largest(Corner()) == 1
  {
    var g := Corner();
    var a := Site(0, 0);
    assert IsSquare(g);
    forall y | Open(g, y) ensures y == a {
    }
    assert Closed(g, {a});
    forall b ensures b in Component(g, a) <==> b == a {
      ComponentMember(g, a, b);
      if Connected(g, a, b) {
        ClosedKeepsConnected(g, {a}, a, b);
      }
      if b == a {
        ConnectedRefl(g, a);
      }
    }
    assert Component(g, a) == {a};
    LargestBounds(g, a);
    LargestIsLargest(g);
    var l := ClusterOfSize(g, Largest(g));
    assert Largest(g) == 1;
    assert EmptySites(g) == {Site(0, 1), Site(1, 0), Site(1, 1)};
  }
}
