/** The size of the largest cluster of a lattice, which both Monte Carlo
    drivers add up over their trials, and the facts about cluster sizes it
    rests on: every cluster has a leader, and no cluster is larger than the
    lattice. */
module Clusters {
  import opened Lattice
  import opened Mirror
  import opened Labelling
  import opened Counters

  /** An n x n lattice has n * n sites. */
  lemma CellsCount(n: nat)
    ensures |Cells(n)| == n * n
  {
    var m := Filled(n, 1);
    assert CellsWith(m, 1) == Cells(n);
    FlattenCount(m, 1);
    FlattenLength(m, n);
    FlattenBounded(m, 1, 2);
    OccurrencesSum(Flatten(m), 1, 2);
  }

  /** A cluster holds at most every site of the lattice. */
  lemma ComponentBound(g: Grid, a: Site)
    ensures |Component(g, a)| <= |g| * |g|
  {
    forall s | s in Component(g, a) ensures s in Cells(|g|) {
      CellsMember(|g|, s);
    }
    SubsetCard(Component(g, a), Cells(|g|));
    CellsCount(|g|);
  }

  /** A subset is no larger than its superset. */
  lemma {:induction false} SubsetCard(A: set<Site>, B: set<Site>)
    requires A <= B
    ensures |A| <= |B|
    decreases |B|
  {
    if A != {} {
      var x :| x in A;
      SubsetCard(A - {x}, B - {x});
    }
  }

  /** A non-empty set of sites has a first one in row-major order. */
  lemma {:induction false} HasFirst(S: set<Site>) returns (m: Site)
    requires S != {}
    ensures m in S && forall x :: x in S ==> !Before(x, m)
    decreases |S|
  {
    var x :| x in S;
    if S == {x} {
      m := x;
    } else {
      var m' := HasFirst(S - {x});
      m := if Before(x, m') then x else m';
      forall y | y in S ensures !Before(y, m) {
        if y != x {
          assert !Before(y, m');
        }
      }
    }
  }

  /** The first site of an occupied site's cluster leads that cluster. */
  lemma LeaderOf(g: Grid, a: Site) returns (b: Site)
    requires IsSquare(g) && Open(g, a)
    ensures Leader(g, b) && InGrid(|g|, b) && Component(g, b) == Component(g, a)
  {
    ConnectedRefl(g, a);
    ComponentMember(g, a, a);
    b := HasFirst(Component(g, a));
    ComponentMember(g, a, b);
    ConnectedOpen(g, a, b);
    forall y | Connected(g, b, y) ensures !Before(y, b) {
      ConnectedTrans(g, a, b, y);
      ComponentMember(g, a, y);
    }
    forall y ensures y in Component(g, b) <==> y in Component(g, a) {
      ComponentMember(g, a, y);
      ComponentMember(g, b, y);
      if Connected(g, a, y) {
        ConnectedSym(g, a, b);
        ConnectedTrans(g, b, a, y);
      }
      if Connected(g, b, y) {
        ConnectedTrans(g, a, b, y);
      }
    }
  }

  /** Every occupied site's cluster is counted among the clusters of its
      size. */
  lemma ClusterCounted(g: Grid, a: Site)
    requires IsSquare(g) && Open(g, a)
    ensures NumClusters(g, |Component(g, a)|) > 0
  {
    var b := LeaderOf(g, a);
    LeadersOfSizeMember(g, |Component(g, a)|, b);
  }

  /** A size with a cluster is the size of some occupied site's cluster. */
  lemma ClusterOfSize(g: Grid, s: int) returns (a: Site)
    requires IsSquare(g) && NumClusters(g, s) > 0
    ensures InGrid(|g|, a) && Open(g, a) && |Component(g, a)| == s
  {
    var L := LeadersOfSize(g, s);
    assert L != {};
    a :| a in L;
    LeadersOfSizeMember(g, s, a);
  }

  /** The largest cluster size at most n (0 when there is none). */
  ghost function LargestUpTo(g: Grid, n: int): int
    decreases n
  {
    if n <= 0 then 0 else if NumClusters(g, n) > 0 then n else LargestUpTo(g, n - 1)
  }

  /** The size of a largest cluster of the lattice (0 when it has none). */
  ghost function Largest(g: Grid): int {
    LargestUpTo(g, |g| * |g|)
  }

  lemma {:induction false} LargestUpToSpec(g: Grid, n: int)
    ensures LargestUpTo(g, n) == 0 || (0 < LargestUpTo(g, n) <= n && NumClusters(g, LargestUpTo(g, n)) > 0)
    ensures forall t :: LargestUpTo(g, n) < t <= n ==> NumClusters(g, t) == 0
    decreases n
  {
    if n > 0 && NumClusters(g, n) == 0 {
      LargestUpToSpec(g, n - 1);
    }
  }

  /** Largest really is the largest cluster size. */
  lemma LargestIsLargest(g: Grid)
    requires IsSquare(g)
    ensures IsLargest(g, Largest(g))
  {
    LargestUpToSpec(g, |g| * |g|);
    forall t | t > |g| * |g| ensures NumClusters(g, t) == 0 {
      if NumClusters(g, t) > 0 {
        var a := ClusterOfSize(g, t);
        ComponentBound(g, a);
      }
    }
  }

  /** The largest cluster size is unique. */
  lemma LargestUnique(g: Grid, s: int)
    requires IsSquare(g) && IsLargest(g, s)
    ensures s == Largest(g)
  {
    LargestIsLargest(g);
    var l := Largest(g);
    if s < 0 {
      NoEmptyClusters(g, s);
    }
    if l < 0 {
      NoEmptyClusters(g, l);
    }
  }

  /** No cluster is larger than Largest, and any cluster makes it positive. */
  lemma LargestBounds(g: Grid, a: Site)
    requires IsSquare(g) && Open(g, a)
    ensures 0 < |Component(g, a)| <= Largest(g)
  {
    ClusterCounted(g, a);
    ConnectedRefl(g, a);
    ComponentMember(g, a, a);
    LargestIsLargest(g);
  }
}
