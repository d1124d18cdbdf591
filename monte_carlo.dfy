/** The integer bookkeeping of `monte_carlo_simulation` in
    Percolation/percolation.py for one occupation probability: over T
    trial lattices it counts the spanning ones (`P_flow`), adds up the
    largest cluster size of each (`smax_total`), and merges the per-trial
    size -> number-of-clusters Counters (`cluster_distribution`). The
    lattices are supplied instead of drawn at random. */
module MonteCarlo {
  import opened Lattice
  import opened Counters
  import opened Clusters
  import Burning
  import HoshenKopelman

  /** The integer results of the trials at one probability. */
  datatype Tally = Tally(pFlow: int, smaxTotal: int, distribution: Counter)

  /** What burning_method of this file reports: a spanning lattice of side
      at least 2. */
  ghost predicate Burns(g: Grid) {
    |g| >= 2 && Spans(g)
  }

  /** Every trial lattice is square. */
  ghost predicate AllSquare(lattices: seq<Grid>) {
    forall k :: 0 <= k < |lattices| ==> IsSquare(lattices[k])
  }

  /** A lattice with an occupied site. */
  ghost predicate Occupied(g: Grid) {
    exists a :: Open(g, a)
  }

  /** Every trial lattice has an occupied site. */
  ghost predicate AllOccupied(lattices: seq<Grid>) {
    forall k :: 0 <= k < |lattices| ==> Occupied(lattices[k])
  }

  /** The number of trials whose lattice burns through. */
  ghost function SpanningTrials(lattices: seq<Grid>): int {
    if lattices == [] then 0
    else SpanningTrials(lattices[..|lattices| - 1]) + (if Burns(lattices[|lattices| - 1]) then 1 else 0)
  }

  /** The largest cluster sizes of the trials added up. */
  ghost function LargestSum(lattices: seq<Grid>): int {
    if lattices == [] then 0 else LargestSum(lattices[..|lattices| - 1]) + Largest(lattices[|lattices| - 1])
  }

  /** The number of clusters of size s over all trials. */
  ghost function ClustersOver(lattices: seq<Grid>, s: int): nat {
    if lattices == [] then 0 else ClustersOver(lattices[..|lattices| - 1], s) + NumClusters(lattices[|lattices| - 1], s)
  }

  /** 0 <= P_flow <= T. */
  lemma {:induction false} SpanningTrialsBounds(lattices: seq<Grid>)
    ensures 0 <= SpanningTrials(lattices) <= |lattices|
  {
    if lattices != [] {
      SpanningTrialsBounds(lattices[..|lattices| - 1]);
    }
  }

  /** A largest cluster has at least one site when some site is occupied,
      and none otherwise. */
  lemma LargestZero(g: Grid)
    requires IsSquare(g)
    ensures Largest(g) >= 0
    ensures Largest(g) == 0 <==> !Occupied(g)
  {
    LargestIsLargest(g);
    if Occupied(g) {
      var a :| Open(g, a);
      LargestBounds(g, a);
    } else if Largest(g) != 0 {
      var a := ClusterOfSize(g, Largest(g));
    }
  }

  /** A largest cluster has at most L * L sites. */
  lemma LargestAtMost(g: Grid)
    requires IsSquare(g)
    ensures 0 <= Largest(g) <= |g| * |g|
  {
    LargestZero(g);
    LargestIsLargest(g);
    if Largest(g) > 0 {
      var a := ClusterOfSize(g, Largest(g));
      ComponentBound(g, a);
    }
  }

  /** t copies of m are t - 1 copies and one more. */
  lemma MulStep(t: int, m: int)
    ensures t * m == (t - 1) * m + m
  {
  }

  /** smax_total is at most T * L * L. */
  lemma {:induction false} LargestSumBounds(lattices: seq<Grid>, n: nat)
    requires AllSquare(lattices) && forall k :: 0 <= k < |lattices| ==> |lattices[k]| == n
    ensures 0 <= LargestSum(lattices) <= |lattices| * (n * n)
  {
    if lattices != [] {
      var T := |lattices|;
      LargestSumBounds(lattices[..T - 1], n);
      LargestAtMost(lattices[T - 1]);
      MulStep(T, n * n);
    }
  }

  /** The distribution only has sizes 1 .. L * L. */
  lemma {:induction false} ClustersOverSizes(lattices: seq<Grid>, n: nat, s: int)
    requires AllSquare(lattices) && forall k :: 0 <= k < |lattices| ==> |lattices[k]| == n
    requires s <= 0 || s > n * n
    ensures ClustersOver(lattices, s) == 0
  {
    if lattices != [] {
      var last := lattices[|lattices| - 1];
      ClustersOverSizes(lattices[..|lattices| - 1], n, s);
      if s <= 0 {
        NoEmptyClusters(last, s);
      } else {
        LargestIsLargest(last);
        if Largest(last) > 0 {
          var a := ClusterOfSize(last, Largest(last));
          ComponentBound(last, a);
        }
      }
    }
  }

  /** The three tallies over the first k + 1 trials extend those over the
      first k by trial k. */
  lemma PrefixStep(lattices: seq<Grid>, k: int)
    requires 0 <= k < |lattices|
    ensures SpanningTrials(lattices[..k + 1]) == SpanningTrials(lattices[..k]) + if Burns(lattices[k]) then 1 else 0
    ensures LargestSum(lattices[..k + 1]) == LargestSum(lattices[..k]) + Largest(lattices[k])
    ensures forall s :: ClustersOver(lattices[..k + 1], s) == ClustersOver(lattices[..k], s) + NumClusters(lattices[k], s)
  {
    assert lattices[..k + 1][..k] == lattices[..k];
  }

  /** The first k + 1 lattices are all occupied when the first k are and
      lattice k is. */
  lemma OccupiedStep(lattices: seq<Grid>, k: int)
    requires 0 <= k < |lattices|
    ensures AllOccupied(lattices[..k + 1]) <==> AllOccupied(lattices[..k]) && Occupied(lattices[k])
  {
    var longer, shorter := lattices[..k + 1], lattices[..k];
    assert longer[k] == lattices[k];
    forall j | 0 <= j < k ensures longer[j] == shorter[j] {
    }
  }

  /** One trial: the spanning test and the cluster-size Counter of its
      lattice. */
  method Trial(g: Grid) returns (spans: bool, clusterSizes: Counter)
    requires IsSquare(g)
    ensures spans <==> Burns(g)
    ensures forall s :: Get(clusterSizes, s) == NumClusters(g, s)
    ensures forall s :: s in clusterSizes <==> NumClusters(g, s) > 0
  {
    spans := Burning.BurningMethod(g);
    var _, sizes := HoshenKopelman.HoshenKopelman(g, false);
    clusterSizes := sizes;
  }

  /** The largest key of a trial's Counter is its largest cluster size;
      there is none exactly when no site is occupied. */
  lemma MaxKeyIsLargest(g: Grid, clusterSizes: Counter, r: Option<int>)
    requires IsSquare(g)
    requires forall s :: Get(clusterSizes, s) == NumClusters(g, s)
    requires forall s :: s in clusterSizes <==> NumClusters(g, s) > 0
    requires r.None? <==> clusterSizes == map[]
    requires r.Some? ==> r.value in clusterSizes && forall k :: k in clusterSizes ==> k <= r.value
    ensures r.None? <==> !Occupied(g)
    ensures r.Some? ==> r.value == Largest(g)
    ensures r.None? ==> Largest(g) == 0
  {
    LargestZero(g);
    LargestIsLargest(g);
    if r.Some? {
      assert IsLargest(g, r.value);
      LargestUnique(g, r.value);
    }
  }

  /** Updating the distribution over the first k lattices with the
      histogram of lattice k gives the distribution over the first k + 1. */
  lemma TallyStep(lattices: seq<Grid>, k: int, distribution: Counter, clusterSizes: Counter, updated: Counter)
    requires 0 <= k < |lattices|
    requires forall s :: Get(distribution, s) == ClustersOver(lattices[..k], s)
    requires forall s :: s in distribution <==> ClustersOver(lattices[..k], s) > 0
    requires forall s :: Get(clusterSizes, s) == NumClusters(lattices[k], s)
    requires forall s :: s in clusterSizes <==> NumClusters(lattices[k], s) > 0
    requires forall s :: Get(updated, s) == Get(distribution, s) + Get(clusterSizes, s)
    requires updated.Keys == distribution.Keys + clusterSizes.Keys
    ensures forall s :: Get(updated, s) == ClustersOver(lattices[..k + 1], s)
    ensures forall s :: s in updated <==> ClustersOver(lattices[..k + 1], s) > 0
  {
    PrefixStep(lattices, k);
  }

  /** The trial loop as written: `max(cluster_sizes.keys())` raises on the
      empty Counter of a lattice without occupied sites, which ends the
      run (None). */
  method TrialsAsWritten(lattices: seq<Grid>) returns (r: Option<Tally>)
    requires AllSquare(lattices)
    ensures r.None? <==> !AllOccupied(lattices)
    ensures r.Some? ==> r.value.pFlow == SpanningTrials(lattices) && r.value.smaxTotal == LargestSum(lattices)
    ensures r.Some? ==> forall s :: Get(r.value.distribution, s) == ClustersOver(lattices, s)
    ensures r.Some? ==> forall s :: s in r.value.distribution <==> ClustersOver(lattices, s) > 0
  {
    var pFlow, smaxTotal, distribution := 0, 0, map[];
    for k := 0 to |lattices|
      invariant AllOccupied(lattices[..k])
      invariant pFlow == SpanningTrials(lattices[..k]) && smaxTotal == LargestSum(lattices[..k])
      invariant forall s :: Get(distribution, s) == ClustersOver(lattices[..k], s)
      invariant forall s :: s in distribution <==> ClustersOver(lattices[..k], s) > 0
    {
      PrefixStep(lattices, k);
      OccupiedStep(lattices, k);
      var spans, clusterSizes := Trial(lattices[k]);
      pFlow := pFlow + if spans then 1 else 0;
      var largest := MaxKey(clusterSizes);
      MaxKeyIsLargest(lattices[k], clusterSizes, largest);
      if largest.None? {
        return None;
      }
      smaxTotal := smaxTotal + largest.value;
      ghost var tallied := distribution;
      distribution := Update(distribution, clusterSizes);
      TallyStep(lattices, k, tallied, clusterSizes, distribution);
    }
    assert lattices[..|lattices|] == lattices;
    r := Some(Tally(pFlow, smaxTotal, distribution));
  }

  /** The trial loop with 0 taken as the largest cluster size of a lattice
      without occupied sites. */
  method Trials(lattices: seq<Grid>) returns (t: Tally)
    requires AllSquare(lattices)
    ensures t.pFlow == SpanningTrials(lattices) && t.smaxTotal == LargestSum(lattices)
    ensures forall s :: Get(t.distribution, s) == ClustersOver(lattices, s)
    ensures forall s :: s in t.distribution <==> ClustersOver(lattices, s) > 0
  {
    var pFlow, smaxTotal, distribution := 0, 0, map[];
    for k := 0 to |lattices|
      invariant pFlow == SpanningTrials(lattices[..k]) && smaxTotal == LargestSum(lattices[..k])
      invariant forall s :: Get(distribution, s) == ClustersOver(lattices[..k], s)
      invariant forall s :: s in distribution <==> ClustersOver(lattices[..k], s) > 0
    {
      PrefixStep(lattices, k);
      var spans, clusterSizes := Trial(lattices[k]);
      pFlow := pFlow + if spans then 1 else 0;
      var largest := MaxKey(clusterSizes);
      MaxKeyIsLargest(lattices[k], clusterSizes, largest);
      smaxTotal := smaxTotal + if largest.Some? then largest.value else 0;
      ghost var tallied := distribution;
      distribution := Update(distribution, clusterSizes);
      TallyStep(lattices, k, tallied, clusterSizes, distribution);
    }
    assert lattices[..|lattices|] == lattices;
    t := Tally(pFlow, smaxTotal, distribution);
  }

  /** A single trial on a 1 x 1 lattice with its site empty makes the
      trial loop as written stop (TrialsAsWritten answers None). */
  lemma EmptyLatticeStops()
    ensures AllSquare([[[0]]]) && !AllOccupied([[[0]]])
  {
    var g: Grid := [[0]];
    assert [[[0]]][0] == g;
    assert IsSquare(g);
    assert !Occupied(g) by {
      forall a ensures !Open(g, a) {
      }
    }
  }
}
