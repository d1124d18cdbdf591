/** The spanning test of Percolation/percolation.py ("burning" in rounds).

    Occupied top-row sites get label 2. In round t every site labelled t is
    expanded: each occupied, still unlabelled 4-neighbour gets label t + 1,
    and the test answers true as soon as such a newly burnt neighbour lies
    in the last row. A round that burns nothing ends the test with false.

    The label grid is an array written in place; the proof follows it with a
    ghost value `lab` holding the same numbers, about which the invariants
    are stated. */
module Burning {
  import opened Lattice
  import opened Mirror

  /** The sites that carry a label. */
  ghost function BurntSet(g: Grid, lab: Labels): set<Site>
    requires Shaped(g, lab)
  {
    set r, c | 0 <= r < |g| && 0 <= c < |g| && lab[r][c] != 0 :: Site(r, c)
  }

  lemma BurntSetMember(g: Grid, lab: Labels, s: Site)
    requires Shaped(g, lab)
    ensures s in BurntSet(g, lab) <==> InGrid(|g|, s) && lab[s.row][s.col] != 0
  {
    if InGrid(|g|, s) && lab[s.row][s.col] != 0 {
      assert s == Site(s.row, s.col);
    }
  }

  /** What is left to burn: the measure that bounds the number of rounds. */
  function Unburnt(lab: Labels): nat {
    CountInGrid(lab, 0)
  }

  /** `lab'` differs from `lab` only at sites that were unburnt, which now
      hold a label between `lo` and `hi`: a label, once given, is never
      overwritten. */
  ghost predicate Grows(g: Grid, lab: Labels, lab': Labels, lo: int, hi: int) {
    Shaped(g, lab) && Shaped(g, lab') &&
    forall r, c :: 0 <= r < |g| && 0 <= c < |g| ==>
      lab'[r][c] == lab[r][c] || (lab[r][c] == 0 && lo <= lab'[r][c] <= hi)
  }

  /** Labelling an unburnt site with v grows the labels by v. */
  lemma GrowsSet(g: Grid, lab: Labels, ni: int, nj: int, v: int)
    requires Shaped(g, lab) && 0 <= ni < |g| && 0 <= nj < |g| && lab[ni][nj] == 0
    ensures Grows(g, lab, SetAt(lab, ni, nj, v), v, v)
  {
  }

  /** Two growths in a row make one, for positive labels. */
  lemma GrowsTrans(g: Grid, a: Labels, b: Labels, c: Labels, lo: int, hi: int, lo2: int, hi2: int)
    requires Grows(g, a, b, lo, hi) && Grows(g, b, c, lo2, hi2) && 0 < lo <= lo2 && hi <= hi2
    ensures Grows(g, a, c, lo, hi2)
  {
  }

  /** Labels are 0 (unburnt) or a round number between 2 and `hi`. */
  ghost predicate LabelsUpTo(g: Grid, lab: Labels, hi: int)
    requires Shaped(g, lab)
  {
    forall r, c :: 0 <= r < |g| && 0 <= c < |g| ==> lab[r][c] == 0 || 2 <= lab[r][c] <= hi
  }

  /** A burnt site is occupied; label 2 lies in the top row, and a larger
      label l has a neighbour labelled l - 1 (the site it caught fire from). */
  ghost predicate Linked(g: Grid, lab: Labels, r: int, c: int)
    requires Shaped(g, lab) && 0 <= r < |g| && 0 <= c < |g|
  {
    var l := lab[r][c];
    g[r][c] == 1 && (l == 2 ==> r == 0) &&
    (l > 2 ==>
      (r > 0 && lab[r - 1][c] == l - 1) || (r + 1 < |g| && lab[r + 1][c] == l - 1) ||
      (c > 0 && lab[r][c - 1] == l - 1) || (c + 1 < |g| && lab[r][c + 1] == l - 1))
  }

  /** Every burnt site is linked. (The trigger keeps the quantifier from
      firing on the neighbour terms that Linked unfolds to.) */
  ghost predicate BurntLinked(g: Grid, lab: Labels)
    requires Shaped(g, lab)
  {
    forall r, c {:trigger Linked(g, lab, r, c)} :: 0 <= r < |g| && 0 <= c < |g| && lab[r][c] != 0 ==>
      Linked(g, lab, r, c)
  }

  /** Following the links down to label 2 joins a burnt site to the top row. */
  lemma LinkedReached(g: Grid, lab: Labels, hi: int, r: int, c: int)
    requires Shaped(g, lab) && LabelsUpTo(g, lab, hi) && BurntLinked(g, lab)
    requires 0 <= r < |g| && 0 <= c < |g| && lab[r][c] != 0
    ensures ReachedFromTop(g, Site(r, c))
    decreases lab[r][c]
  {
    assert Linked(g, lab, r, c);
    var l := lab[r][c];
    if l == 2 {
      ConnectedRefl(g, Site(r, c));
    } else {
      var (pr, pc) :=
        if r > 0 && lab[r - 1][c] == l - 1 then (r - 1, c)
        else if r + 1 < |g| && lab[r + 1][c] == l - 1 then (r + 1, c)
        else if c > 0 && lab[r][c - 1] == l - 1 then (r, c - 1)
        else (r, c + 1);
      LinkedReached(g, lab, hi, pr, pc);
      ReachedStep(g, Site(pr, pc), Site(r, c));
    }
  }

  /** Every occupied top site is burnt. */
  ghost predicate TopBurnt(g: Grid, lab: Labels)
    requires Shaped(g, lab)
  {
    forall c :: 0 <= c < |g| && g[0][c] == 1 ==> lab[0][c] != 0
  }

  /** No last-row site is burnt (the test would have answered already). */
  ghost predicate BottomUnburnt(g: Grid, lab: Labels)
    requires Shaped(g, lab)
  {
    forall r, c :: 0 <= r < |g| && 0 <= c < |g| && lab[r][c] != 0 ==> r != |g| - 1
  }

  /** Every occupied 4-neighbour of site (r, c) already carries a label. */
  ghost predicate Spread(g: Grid, lab: Labels, r: int, c: int)
    requires Shaped(g, lab) && 0 <= r < |g| && 0 <= c < |g|
  {
    (r > 0 && g[r - 1][c] == 1 ==> lab[r - 1][c] != 0) &&
    (r + 1 < |g| && g[r + 1][c] == 1 ==> lab[r + 1][c] != 0) &&
    (c > 0 && g[r][c - 1] == 1 ==> lab[r][c - 1] != 0) &&
    (c + 1 < |g| && g[r][c + 1] == 1 ==> lab[r][c + 1] != 0)
  }

  /** Sites burnt before round t have been expanded. (The trigger keeps the
      quantifier from firing on the neighbour terms that Spread unfolds to.) */
  ghost predicate SpreadBelow(g: Grid, lab: Labels, t: int)
    requires Shaped(g, lab)
  {
    forall r, c {:trigger Spread(g, lab, r, c)} :: 0 <= r < |g| && 0 <= c < |g| && 0 < lab[r][c] < t ==>
      Spread(g, lab, r, c)
  }

  /** Sites labelled t and scanned before (i, j) in round t have been expanded. */
  ghost predicate SpreadScanned(g: Grid, lab: Labels, t: int, i: int, j: int)
    requires Shaped(g, lab)
  {
    forall r, c {:trigger Spread(g, lab, r, c)} :: 0 <= r < |g| && 0 <= c < |g| && Before(Site(r, c), Site(i, j)) && lab[r][c] == t ==>
      Spread(g, lab, r, c)
  }

  /** What holds inside round t once the sites before (i, j) are expanded. */
  ghost predicate InRound(g: Grid, lab: Labels, t: int, i: int, j: int) {
    Shaped(g, lab) && 2 <= t && LabelsUpTo(g, lab, t + 1) && BurntLinked(g, lab) && TopBurnt(g, lab) &&
    (|g| >= 2 ==> BottomUnburnt(g, lab)) && SpreadBelow(g, lab, t) && SpreadScanned(g, lab, t, i, j)
  }

  /** What holds at the start of round t. */
  ghost predicate AtRound(g: Grid, lab: Labels, t: int) {
    Shaped(g, lab) && 2 <= t && LabelsUpTo(g, lab, t) && BurntLinked(g, lab) && TopBurnt(g, lab) &&
    (|g| >= 2 ==> BottomUnburnt(g, lab)) && SpreadBelow(g, lab, t)
  }

  lemma RoundStart(g: Grid, lab: Labels, t: int)
    requires AtRound(g, lab, t)
    ensures InRound(g, lab, t, 0, 0)
  {
  }

  /** Burning a site that has no label yet keeps every expanded site expanded. */
  lemma BurnKeepsSpread(g: Grid, lab: Labels, t: int, i: int, j: int, ni: int, nj: int, v: int)
    requires Shaped(g, lab) && SpreadBelow(g, lab, t) && SpreadScanned(g, lab, t, i, j)
    requires 0 <= ni < |g| && 0 <= nj < |g| && lab[ni][nj] == 0 && v > t
    ensures Shaped(g, SetAt(lab, ni, nj, v))
    ensures SpreadBelow(g, SetAt(lab, ni, nj, v), t) && SpreadScanned(g, SetAt(lab, ni, nj, v), t, i, j)
  {
    var lab' := SetAt(lab, ni, nj, v);
    forall r, c | 0 <= r < |g| && 0 <= c < |g| && 0 < lab'[r][c] < t
      ensures Spread(g, lab', r, c)
    {
      assert Spread(g, lab, r, c);
    }
    forall r, c | 0 <= r < |g| && 0 <= c < |g| && Before(Site(r, c), Site(i, j)) && lab'[r][c] == t
      ensures Spread(g, lab', r, c)
    {
      assert Spread(g, lab, r, c);
    }
  }

  /** Burning an occupied neighbour of a site labelled t with t + 1 keeps
      every burnt site linked. */
  lemma BurnKeepsLinked(g: Grid, lab: Labels, t: int, i: int, j: int, ni: int, nj: int)
    requires Shaped(g, lab) && BurntLinked(g, lab) && 2 <= t
    requires 0 <= i < |g| && 0 <= j < |g| && lab[i][j] == t
    requires 0 <= ni < |g| && 0 <= nj < |g| && Adjacent(Site(i, j), Site(ni, nj))
    requires g[ni][nj] == 1 && lab[ni][nj] == 0
    ensures Shaped(g, SetAt(lab, ni, nj, t + 1)) && BurntLinked(g, SetAt(lab, ni, nj, t + 1))
  {
    var lab' := SetAt(lab, ni, nj, t + 1);
    forall r, c | 0 <= r < |g| && 0 <= c < |g| && lab'[r][c] != 0
      ensures Linked(g, lab', r, c)
    {
      if (r, c) != (ni, nj) {
        assert Linked(g, lab, r, c);
      }
    }
  }

  /** Giving a site that is not in the last row a label from 2 to `hi`
      keeps the labels in range, the top burnt and the last row unburnt. */
  lemma BurnKeepsBounds(g: Grid, lab: Labels, hi: int, ni: int, nj: int, v: int)
    requires Shaped(g, lab) && LabelsUpTo(g, lab, hi) && TopBurnt(g, lab) && (|g| >= 2 ==> BottomUnburnt(g, lab))
    requires 0 <= ni < |g| && 0 <= nj < |g| && ni != |g| - 1 && 2 <= v <= hi
    ensures Shaped(g, SetAt(lab, ni, nj, v))
    ensures LabelsUpTo(g, SetAt(lab, ni, nj, v), hi) && TopBurnt(g, SetAt(lab, ni, nj, v))
    ensures |g| >= 2 ==> BottomUnburnt(g, SetAt(lab, ni, nj, v))
  {
  }

  /** Burning the unlabelled occupied neighbour (ni, nj) of a site labelled t
      keeps the round's invariant (unless (ni, nj) is in the last row) and
      leaves one site fewer to burn. */
  lemma BurnNeighbour(g: Grid, lab: Labels, t: int, i: int, j: int, ni: int, nj: int)
    requires InRound(g, lab, t, i, j) && 0 <= i < |g| && 0 <= j < |g| && lab[i][j] == t
    requires 0 <= ni < |g| && 0 <= nj < |g| && Adjacent(Site(i, j), Site(ni, nj))
    requires g[ni][nj] == 1 && lab[ni][nj] == 0
    ensures Shaped(g, SetAt(lab, ni, nj, t + 1))
    ensures ni != |g| - 1 ==> InRound(g, SetAt(lab, ni, nj, t + 1), t, i, j)
    ensures ni == |g| - 1 ==> LabelsUpTo(g, SetAt(lab, ni, nj, t + 1), t + 1) && BurntLinked(g, SetAt(lab, ni, nj, t + 1))
    ensures Unburnt(SetAt(lab, ni, nj, t + 1)) == Unburnt(lab) - 1
  {
    BurnKeepsSpread(g, lab, t, i, j, ni, nj, t + 1);
    BurnKeepsLinked(g, lab, t, i, j, ni, nj);
    if ni != |g| - 1 {
      BurnKeepsBounds(g, lab, t + 1, ni, nj, t + 1);
    }
    CountInGridReplace(lab, ni, nj, 0, t + 1);
  }

  /** Moving the scan one site on. */
  lemma ScanNext(g: Grid, lab: Labels, t: int, i: int, j: int)
    requires InRound(g, lab, t, i, j) && 0 <= i < |g| && 0 <= j < |g|
    requires lab[i][j] == t ==> Spread(g, lab, i, j)
    ensures InRound(g, lab, t, i, j + 1)
  {
    forall r, c | 0 <= r < |g| && 0 <= c < |g| && Before(Site(r, c), Site(i, j + 1)) && lab[r][c] == t
      ensures Spread(g, lab, r, c)
    {
      if (r, c) != (i, j) {
        assert Before(Site(r, c), Site(i, j));
      }
    }
  }

  /** The end of a row is the start of the next. */
  lemma ScanRowEnd(g: Grid, lab: Labels, t: int, i: int)
    requires InRound(g, lab, t, i, |g|)
    ensures InRound(g, lab, t, i + 1, 0)
  {
    forall r, c | 0 <= r < |g| && 0 <= c < |g| && Before(Site(r, c), Site(i + 1, 0)) && lab[r][c] == t
      ensures Spread(g, lab, r, c)
    {
      assert Before(Site(r, c), Site(i, |g|));
    }
  }

  /** A completed round has expanded every site labelled t or less. */
  lemma RoundEnd(g: Grid, lab: Labels, t: int)
    requires InRound(g, lab, t, |g|, 0)
    ensures AtRound(g, lab, t + 1)
  {
    forall r, c | 0 <= r < |g| && 0 <= c < |g| && 0 < lab[r][c] < t + 1
      ensures Spread(g, lab, r, c)
    {
      if lab[r][c] == t {
        assert Before(Site(r, c), Site(|g|, 0));
      }
    }
  }

  /** When no label exceeds t and every site below t + 1 has spread, the
      burnt sites form a closed set. */
  lemma BurntClosed(g: Grid, lab: Labels, t: int)
    requires AtRound(g, lab, t + 1) && LabelsUpTo(g, lab, t)
    ensures Closed(g, BurntSet(g, lab))
  {
    var S := BurntSet(g, lab);
    forall x, y | x in S && Open(g, y) && Adjacent(x, y) ensures y in S {
      BurntSetMember(g, lab, x);
      BurntSetMember(g, lab, y);
      assert Spread(g, lab, x.row, x.col);
    }
  }

  /** A round that ends without a new label and without reaching the last
      row leaves a lattice that does not span (for L >= 2). */
  lemma Extinguished(g: Grid, lab: Labels, t: int)
    requires AtRound(g, lab, t + 1) && LabelsUpTo(g, lab, t) && |g| >= 2
    ensures !Spans(g)
  {
    var S := BurntSet(g, lab);
    BurntClosed(g, lab, t);
    forall a | Open(g, a) && a.row == 0 ensures a in S {
      BurntSetMember(g, lab, a);
    }
    forall x | x in S ensures x.row != |g| - 1 {
      BurntSetMember(g, lab, x);
    }
    NoSpanningPast(g, S);
  }

  /** A newly burnt last-row site proves that the lattice spans. */
  lemma BottomSpans(g: Grid, lab: Labels, hi: int, r: int, c: int)
    requires Shaped(g, lab) && LabelsUpTo(g, lab, hi) && BurntLinked(g, lab)
    requires r == |g| - 1 && 0 <= c < |g| && lab[r][c] != 0
    ensures Spans(g)
  {
    LinkedReached(g, lab, hi, r, c);
  }

  /** The body of the neighbour loop: burns site (ni, nj), a neighbour of
      the site (i, j) labelled t, when it is occupied and unlabelled. */
  method BurnNeighbourSite(g: Grid, labels: array2<int>, t: int, i: int, j: int, ni: int, nj: int, ghost lab: Labels)
    returns (burnt: bool, bottom: bool, ghost lab': Labels)
    requires InRound(g, lab, t, i, j) && Mirrors(labels, lab)
    requires 0 <= i < |g| && 0 <= j < |g| && lab[i][j] == t && Adjacent(Site(i, j), Site(ni, nj))
    modifies labels
    ensures Mirrors(labels, lab') && Shaped(g, lab')
    ensures bottom ==> Spans(g) && |g| >= 2
    ensures !bottom ==> InRound(g, lab', t, i, j) && lab'[i][j] == t
    ensures !bottom && Open(g, Site(ni, nj)) ==> lab'[ni][nj] != 0
    ensures !bottom ==> forall r, c :: 0 <= r < |g| && 0 <= c < |g| && lab[r][c] != 0 ==> lab'[r][c] != 0
    ensures burnt <==> 0 <= ni < |g| && 0 <= nj < |g| && g[ni][nj] == 1 && lab[ni][nj] == 0
    ensures burnt ==> lab' == SetAt(lab, ni, nj, t + 1) && Unburnt(lab') == Unburnt(lab) - 1
    ensures !burnt ==> lab' == lab && !bottom
    ensures bottom ==> ni == |g| - 1
    ensures Grows(g, lab, lab', t + 1, t + 1)
  {
    var L := |g|;
    burnt, bottom, lab' := false, false, lab;
    if 0 <= ni < L && 0 <= nj < L && g[ni][nj] == 1 && labels[ni, nj] == 0 {
      BurnNeighbour(g, lab, t, i, j, ni, nj);
      lab' := SetSite(labels, ni, nj, t + 1, lab);
      GrowsSet(g, lab, ni, nj, t + 1);
      burnt := true;
      if ni == L - 1 {
        BottomSpans(g, lab', t + 1, ni, nj);
        bottom := true;
      }
    }
  }

  /** Expands site (i, j), which carries label t: each occupied unlabelled
      neighbour gets label t + 1. `bottom` reports a newly burnt last-row
      neighbour, at which point the expansion stops. */
  method ExpandSite(g: Grid, labels: array2<int>, t: int, i: int, j: int, ghost lab: Labels)
    returns (burning: bool, bottom: bool, ghost lab': Labels)
    requires InRound(g, lab, t, i, j) && Mirrors(labels, lab)
    requires 0 <= i < |g| && 0 <= j < |g| && lab[i][j] == t
    modifies labels
    ensures Mirrors(labels, lab') && Shaped(g, lab')
    ensures bottom ==> Spans(g) && |g| >= 2
    ensures !bottom ==> InRound(g, lab', t, i, j + 1)
    ensures Unburnt(lab') <= Unburnt(lab) && (burning ==> Unburnt(lab') < Unburnt(lab))
    ensures !burning ==> lab' == lab
    ensures Grows(g, lab, lab', t + 1, t + 1)
  {
    burning, bottom, lab' := false, false, lab;
    var neighbours := [Site(i - 1, j), Site(i + 1, j), Site(i, j - 1), Site(i, j + 1)];
    for k := 0 to 4
      invariant InRound(g, lab', t, i, j) && Mirrors(labels, lab') && lab'[i][j] == t
      invariant Unburnt(lab') <= Unburnt(lab) && (burning ==> Unburnt(lab') < Unburnt(lab))
      invariant !burning ==> lab' == lab
      invariant Grows(g, lab, lab', t + 1, t + 1)
      invariant forall k' :: 0 <= k' < k && Open(g, neighbours[k']) ==>
        lab'[neighbours[k'].row][neighbours[k'].col] != 0
    {
      var burnt;
      ghost var before := lab';
      burnt, bottom, lab' := BurnNeighbourSite(g, labels, t, i, j, neighbours[k].row, neighbours[k].col, lab');
      GrowsTrans(g, lab, before, lab', t + 1, t + 1, t + 1, t + 1);
      burning := burning || burnt;
      if bottom {
        return;
      }
      forall k' | 0 <= k' < k + 1 && Open(g, neighbours[k'])
        ensures lab'[neighbours[k'].row][neighbours[k'].col] != 0
      {
        if k' < k {
          assert before[neighbours[k'].row][neighbours[k'].col] != 0;
        }
      }
    }
    assert neighbours[0] == Site(i - 1, j) && neighbours[1] == Site(i + 1, j);
    assert neighbours[2] == Site(i, j - 1) && neighbours[3] == Site(i, j + 1);
    ScanNext(g, lab', t, i, j);
  }

  /** One round: every site labelled t is expanded, in row-major order. */
  method BurnRound(g: Grid, labels: array2<int>, t: int, ghost lab: Labels)
    returns (newBurning: bool, bottom: bool, ghost lab': Labels)
    requires AtRound(g, lab, t) && Mirrors(labels, lab)
    modifies labels
    ensures Mirrors(labels, lab') && Shaped(g, lab')
    ensures bottom ==> Spans(g) && |g| >= 2
    ensures !bottom ==> AtRound(g, lab', t + 1)
    ensures !bottom && !newBurning ==> LabelsUpTo(g, lab', t)
    ensures Unburnt(lab') <= Unburnt(lab) && (newBurning ==> Unburnt(lab') < Unburnt(lab))
    ensures Grows(g, lab, lab', t + 1, t + 1)
  {
    var L := |g|;
    newBurning, bottom, lab' := false, false, lab;
    RoundStart(g, lab, t);
    for i := 0 to L
      invariant InRound(g, lab', t, i, 0) && Mirrors(labels, lab')
      invariant Unburnt(lab') <= Unburnt(lab) && (newBurning ==> Unburnt(lab') < Unburnt(lab))
      invariant !newBurning ==> lab' == lab
      invariant Grows(g, lab, lab', t + 1, t + 1)
    {
      for j := 0 to L
        invariant InRound(g, lab', t, i, j) && Mirrors(labels, lab')
        invariant Unburnt(lab') <= Unburnt(lab) && (newBurning ==> Unburnt(lab') < Unburnt(lab))
        invariant !newBurning ==> lab' == lab
        invariant Grows(g, lab, lab', t + 1, t + 1)
      {
        if labels[i, j] == t {
          var burning;
          ghost var before := lab';
          burning, bottom, lab' := ExpandSite(g, labels, t, i, j, lab');
          GrowsTrans(g, lab, before, lab', t + 1, t + 1, t + 1, t + 1);
          newBurning := newBurning || burning;
          if bottom {
            return;
          }
        } else {
          ScanNext(g, lab', t, i, j);
        }
      }
      ScanRowEnd(g, lab', t, i);
    }
    RoundEnd(g, lab', t);
  }

  /** burning_method: true only when the lattice spans; for L >= 2 true
      whenever it spans; for L <= 1 never true, because the answer is given
      only when a last-row neighbour is newly burnt. */
  method BurningMethod(g: Grid) returns (spans: bool)
    requires IsSquare(g)
    ensures spans ==> Spans(g)
    ensures |g| >= 2 && Spans(g) ==> spans
    ensures |g| <= 1 ==> !spans
  {
    var L := |g|;
    var labels := new int[L, L]((i, j) => 0);
    ghost var lab: Labels := Filled(L, 0);
    var t := 2;

    for j := 0 to L
      invariant Shaped(g, lab) && Mirrors(labels, lab)
      invariant forall r, c {:trigger lab[r][c]} :: 0 <= r < L && 0 <= c < L ==>
        lab[r][c] == (if r == 0 && c < j && g[0][c] == 1 then 2 else 0)
    {
      if g[0][j] == 1 {
        lab := SetSite(labels, 0, j, t, lab);
      }
    }
    assert AtRound(g, lab, t);
    ghost var seeded := lab;

    while true
      invariant AtRound(g, lab, t) && Mirrors(labels, lab)
      invariant Grows(g, seeded, lab, 3, t)
      decreases Unburnt(lab)
    {
      var newBurning, bottom;
      ghost var before := lab;
      newBurning, bottom, lab := BurnRound(g, labels, t, lab);
      GrowsTrans(g, seeded, before, lab, 3, t, t + 1, t + 1);
      if bottom {
        return true;
      }
      if !newBurning {
        if L >= 2 {
          Extinguished(g, lab, t);
        }
        break;
      }
      t := t + 1;
    }
    return false;
  }
}
