/** The 3 x 3 lattice

      1 0 1
      1 1 0
      0 1 1

    worked through both analyses: it spans, and it has one cluster of five
    sites and one of a single site, so the size histogram is {5: 1, 1: 1}. */
module Example {
  import opened Lattice
  import opened Counters
  import Burning
  import BurningOld
  import HoshenKopelman

  function Sample(): Grid {
    [[1, 0, 1], [1, 1, 0], [0, 1, 1]]
  }

  /** The cluster of the top-left site. */
  function Big(): set<Site> {
    {Site(0, 0), Site(1, 0), Site(1, 1), Site(2, 1), Site(2, 2)}
  }

  /** The cluster of the top-right site. */
  function Lone(): set<Site> {
    {Site(0, 2)}
  }

  /** The occupied sites of the sample are those of the two clusters. */
  lemma SampleOpen(a: Site)
    ensures Open(Sample(), a) <==> a in Big() || a in Lone()
  {
  }

  lemma BigClosed()
    ensures Closed(Sample(), Big())
  {
    forall x, y | x in Big() && Open(Sample(), y) && Adjacent(x, y) ensures y in Big() {
      SampleOpen(y);
    }
  }

  /** No occupied site neighbours (0, 2). */
  lemma LoneClosed()
    ensures Closed(Sample(), Lone())
  {
  }

  /** Every site of Big is joined to the top-left site. */
  lemma BigConnected(b: Site)
    requires b in Big()
    ensures Connected(Sample(), Site(0, 0), b)
  {
    var g := Sample();
    ConnectedRefl(g, Site(0, 0));
    ConnectedStep(g, Site(0, 0), Site(0, 0), Site(1, 0));
    ConnectedStep(g, Site(0, 0), Site(1, 0), Site(1, 1));
    ConnectedStep(g, Site(0, 0), Site(1, 1), Site(2, 1));
    ConnectedStep(g, Site(0, 0), Site(2, 1), Site(2, 2));
  }

  /** The two clusters of the sample. */
  lemma SampleComponents()
    ensures Component(Sample(), Site(0, 0)) == Big()
    ensures Component(Sample(), Site(0, 2)) == Lone()
  {
    var g := Sample();
    BigClosed();
    LoneClosed();
    forall y ensures y in Component(g, Site(0, 0)) <==> y in Big() {
      ComponentMember(g, Site(0, 0), y);
      if y in Big() {
        BigConnected(y);
      }
      if Connected(g, Site(0, 0), y) {
        ClosedKeepsConnected(g, Big(), Site(0, 0), y);
      }
    }
    forall y ensures y in Component(g, Site(0, 2)) <==> y in Lone() {
      ComponentMember(g, Site(0, 2), y);
      if y == Site(0, 2) {
        ConnectedRefl(g, y);
      }
      if Connected(g, Site(0, 2), y) {
        ClosedKeepsConnected(g, Lone(), Site(0, 2), y);
      }
    }
  }

  /** The leaders of the sample's clusters are its two top-row sites. */
  lemma SampleLeaders(a: Site)
    ensures Leader(Sample(), a) <==> a == Site(0, 0) || a == Site(0, 2)
  {
    var g := Sample();
    BigClosed();
    LoneClosed();
    if a == Site(0, 0) || a == Site(0, 2) {
      forall b | Connected(g, a, b) ensures !Before(b, a) {
        ConnectedOpen(g, a, b);
        if a == Site(0, 2) {
          ClosedKeepsConnected(g, Lone(), a, b);
        }
      }
    } else if Leader(g, a) {
      SampleOpen(a);
      BigConnected(a);
      ConnectedSym(g, Site(0, 0), a);
    }
  }

  lemma ClusterSizes()
    ensures |Big()| == 5 && |Lone()| == 1
  {
  }

  lemma TopLeftLeads(s: int)
    ensures Site(0, 0) in LeadersOfSize(Sample(), s) <==> s == 5
  {
    LeadersOfSizeMember(Sample(), s, Site(0, 0));
    SampleLeaders(Site(0, 0));
    SampleComponents();
    ClusterSizes();
  }

  lemma TopRightLeads(s: int)
    ensures Site(0, 2) in LeadersOfSize(Sample(), s) <==> s == 1
  {
    LeadersOfSizeMember(Sample(), s, Site(0, 2));
    SampleLeaders(Site(0, 2));
    SampleComponents();
    ClusterSizes();
  }

  lemma OthersDoNotLead(s: int, a: Site)
    requires a != Site(0, 0) && a != Site(0, 2)
    ensures a !in LeadersOfSize(Sample(), s)
  {
    LeadersOfSizeMember(Sample(), s, a);
    SampleLeaders(a);
  }

  /** Site a leads a cluster of size s exactly when it is (0, 0) and s is
      5, or it is (0, 2) and s is 1. */
  lemma LeaderOfSize(s: int, a: Site)
    ensures a in LeadersOfSize(Sample(), s) <==> (a == Site(0, 0) && s == 5) || (a == Site(0, 2) && s == 1)
  {
    if a == Site(0, 0) {
      TopLeftLeads(s);
    } else if a == Site(0, 2) {
      TopRightLeads(s);
    } else {
      OthersDoNotLead(s, a);
    }
  }

  /** The leaders of the clusters of size s. */
  lemma LeadersOfSample(s: int, L: set<Site>)
    requires L == if s == 5 then {Site(0, 0)} else if s == 1 then {Site(0, 2)} else {}
    ensures LeadersOfSize(Sample(), s) == L
  {
    forall a ensures a in LeadersOfSize(Sample(), s) <==> a in L {
      LeaderOfSize(s, a);
    }
  }

  /** The size histogram of the sample is {5: 1, 1: 1}. */
  lemma SampleClusters(s: int)
    ensures NumClusters(Sample(), s) == if s == 5 || s == 1 then 1 else 0
  {
    LeadersOfSample(s, if s == 5 then {Site(0, 0)} else if s == 1 then {Site(0, 2)} else {});
  }

  /** The sample spans: the path (0,0) (1,0) (1,1) (2,1) reaches the last row. */
  lemma SampleSpans()
    ensures Spans(Sample())
  {
    BigConnected(Site(2, 1));
    assert ReachedFromTop(Sample(), Site(2, 1));
  }

  /** A counter that agrees with the sample's cluster histogram is {5: 1, 1: 1}. */
  lemma SampleHistogram(c: Counter)
    requires forall s :: Get(c, s) == NumClusters(Sample(), s)
    requires forall s :: s in c <==> NumClusters(Sample(), s) > 0
    ensures c == map[5 := 1, 1 := 1]
  {
    var h := map[5 := 1, 1 := 1];
    forall s ensures (s in c <==> s in h) && (s in c ==> c[s] == h[s]) {
      SampleClusters(s);
      assert Get(c, s) == NumClusters(Sample(), s);
    }
  }

  /** Both burning methods report the sample as spanning, and the newer
      labeler with `update_labels` returns the histogram {5: 1, 1: 1}. */
  method SampleRun() returns (spans: bool, spansOld: bool, clusterSizes: Counter)
    ensures spans && spansOld
    ensures clusterSizes == map[5 := 1, 1 := 1]
  {
    SampleSpans();
    spans := Burning.BurningMethod(Sample());
    spansOld := BurningOld.BurningMethod(Sample());
    var labels;
    labels, clusterSizes := HoshenKopelman.HoshenKopelman(Sample(), true);
    SampleHistogram(clusterSizes);
  }
}
