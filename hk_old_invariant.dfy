/** The invariant of the Hoshen-Kopelman scan of Percolation/percolation_old.py
    and the lemmas showing that each kind of site visit keeps it.

    Before site p is processed: exactly the occupied sites before p carry a
    label, from 1 .. next - 1, and those labels are the keys of `parent`;
    `parent` is a forest whose classes are given by the ghost map `rep`;
    each scanned occupied site shares its class with its occupied top and
    left neighbours; and every labelled site is connected to the site that
    opened its class's representative. */
module OldScanInvariant {
  import opened Lattice
  import opened Mirror
  import opened UnionFind

  /** The representative of the label at (r, c); 0 where there is none. */
  ghost function RepAt(rep: map<int, int>, lab: Labels, r: int, c: int): int {
    if 0 <= r < |lab| && 0 <= c < |lab[r]| && lab[r][c] in rep then rep[lab[r][c]] else 0
  }

  /** The labels handed out are 1 .. next - 1. */
  ghost predicate KeysBelow(parent: Parent, next: int) {
    forall l :: l in parent <==> 1 <= l < next
  }

  /** Exactly the occupied sites before p carry a label, from 1 .. next - 1. */
  ghost predicate LabelsScanned(g: Grid, lab: Labels, next: int, p: Site)
    requires Shaped(g, lab)
  {
    forall r, c :: 0 <= r < |g| && 0 <= c < |g| ==>
      (lab[r][c] != 0 <==> Before(Site(r, c), p) && g[r][c] == 1) &&
      (lab[r][c] != 0 ==> 1 <= lab[r][c] < next)
  }

  /** A scanned occupied site is in the class of its occupied top and left
      neighbours. */
  ghost predicate AgreeAt(g: Grid, lab: Labels, rep: map<int, int>, r: int, c: int)
    requires Shaped(g, lab) && 0 <= r < |g| && 0 <= c < |g|
  {
    (r > 0 && g[r - 1][c] == 1 ==> RepAt(rep, lab, r - 1, c) == RepAt(rep, lab, r, c)) &&
    (c > 0 && g[r][c - 1] == 1 ==> RepAt(rep, lab, r, c - 1) == RepAt(rep, lab, r, c))
  }

  ghost predicate Agreed(g: Grid, lab: Labels, rep: map<int, int>, p: Site)
    requires Shaped(g, lab)
  {
    forall r, c {:trigger AgreeAt(g, lab, rep, r, c)} ::
      0 <= r < |g| && 0 <= c < |g| && Before(Site(r, c), p) && g[r][c] == 1 ==> AgreeAt(g, lab, rep, r, c)
  }

  /** A labelled site is joined to the site that opened its representative. */
  ghost predicate JoinedAt(g: Grid, lab: Labels, rep: map<int, int>, cr: map<int, Site>, r: int, c: int) {
    RepAt(rep, lab, r, c) in cr && Connected(g, Site(r, c), cr[RepAt(rep, lab, r, c)])
  }

  ghost predicate Joined(g: Grid, lab: Labels, rep: map<int, int>, cr: map<int, Site>)
    requires Shaped(g, lab)
  {
    forall r, c {:trigger JoinedAt(g, lab, rep, cr, r, c)} ::
      0 <= r < |g| && 0 <= c < |g| && lab[r][c] != 0 ==> JoinedAt(g, lab, rep, cr, r, c)
  }

  /** The bookkeeping part of the scan invariant before site p. */
  ghost predicate Base(g: Grid, lab: Labels, parent: Parent, rep: map<int, int>, d: map<int, nat>, next: int, p: Site) {
    Shaped(g, lab) && 1 <= next && Forest(parent, rep, d) && KeysBelow(parent, next) && LabelsScanned(g, lab, next, p)
  }

  /** The invariant of the scan before site p is processed. */
  ghost predicate ScanInv(g: Grid, lab: Labels, parent: Parent, rep: map<int, int>, d: map<int, nat>,
                          next: int, cr: map<int, Site>, p: Site) {
    Base(g, lab, parent, rep, d, next, p) && Agreed(g, lab, rep, p) && Joined(g, lab, rep, cr)
  }

  /** Before the scan: no labels, an empty `parent`, and the next label 1. */
  lemma ScanStart(g: Grid, lab: Labels, parent: Parent, rep: map<int, int>, d: map<int, nat>, next: int, cr: map<int, Site>)
    requires IsSquare(g) && lab == Filled(|g|, 0) && parent == map[] && rep == map[] && d == map[]
    requires next == 1 && cr == map[]
    ensures ScanInv(g, lab, parent, rep, d, next, cr, Site(0, 0))
  {
  }

  /** Passing a site that is not occupied keeps the invariant. */
  lemma ScanSkip(g: Grid, lab: Labels, parent: Parent, rep: map<int, int>, d: map<int, nat>,
                 next: int, cr: map<int, Site>, i: int, j: int)
    requires ScanInv(g, lab, parent, rep, d, next, cr, Site(i, j))
    requires 0 <= i < |g| && 0 <= j < |g| && g[i][j] != 1
    ensures ScanInv(g, lab, parent, rep, d, next, cr, Site(i, j + 1))
  {
  }

  /** The end of a row is the start of the next one. */
  lemma ScanRowEnd(g: Grid, lab: Labels, parent: Parent, rep: map<int, int>, d: map<int, nat>,
                   next: int, cr: map<int, Site>, i: int)
    requires ScanInv(g, lab, parent, rep, d, next, cr, Site(i, |g|))
    ensures ScanInv(g, lab, parent, rep, d, next, cr, Site(i + 1, 0))
  {
  }

  // ----- A site with no occupied top or left neighbour opens a label -----

  ghost predicate FreshCase(g: Grid, lab: Labels, parent: Parent, rep: map<int, int>, d: map<int, nat>,
                            next: int, i: int, j: int) {
    Base(g, lab, parent, rep, d, next, Site(i, j)) && 0 <= i < |g| && 0 <= j < |g| && g[i][j] == 1 &&
    (i == 0 || g[i - 1][j] != 1) && (j == 0 || g[i][j - 1] != 1)
  }

  /** Elsewhere the representative stays, and it is an earlier label. */
  lemma FreshRepAt(g: Grid, lab: Labels, parent: Parent, rep: map<int, int>, d: map<int, nat>,
                   next: int, i: int, j: int, r: int, c: int)
    requires FreshCase(g, lab, parent, rep, d, next, i, j)
    requires 0 <= r < |g| && 0 <= c < |g| && (r != i || c != j)
    ensures RepAt(rep[next := next], SetAt(lab, i, j, next), r, c) == RepAt(rep, lab, r, c)
    ensures lab[r][c] != 0 ==> RepAt(rep, lab, r, c) in parent && RepAt(rep, lab, r, c) != next
  {
    if lab[r][c] != 0 {
      RepIsRoot(parent, rep, d, lab[r][c]);
    }
  }

  /** A fresh label leaves the representative of every other site alone. */
  lemma FreshRepOther(lab: Labels, rep: map<int, int>, next: int, i: int, j: int, r: int, c: int)
    requires 0 <= i < |lab| && 0 <= j < |lab[i]| && (r != i || c != j)
    requires 0 <= r < |lab| && 0 <= c < |lab[r]| ==> lab[r][c] != next
    ensures RepAt(rep[next := next], SetAt(lab, i, j, next), r, c) == RepAt(rep, lab, r, c)
  {
  }

  lemma FreshAgreeAt(g: Grid, lab: Labels, rep: map<int, int>, next: int, i: int, j: int, r: int, c: int)
    requires Shaped(g, lab) && 0 <= i < |g| && 0 <= j < |g| && (i == 0 || g[i - 1][j] != 1) && (j == 0 || g[i][j - 1] != 1)
    requires 0 <= r < |g| && 0 <= c < |g| && Before(Site(r, c), Site(i, j + 1))
    requires lab[r][c] != next && (r > 0 ==> lab[r - 1][c] != next) && (c > 0 ==> lab[r][c - 1] != next)
    requires (r == i && c == j) || AgreeAt(g, lab, rep, r, c)
    ensures AgreeAt(g, SetAt(lab, i, j, next), rep[next := next], r, c)
  {
    if r != i || c != j {
      FreshRepOther(lab, rep, next, i, j, r, c);
      if r > 0 {
        FreshRepOther(lab, rep, next, i, j, r - 1, c);
      }
      if c > 0 {
        FreshRepOther(lab, rep, next, i, j, r, c - 1);
      }
    }
  }

  lemma FreshAgreed(g: Grid, lab: Labels, parent: Parent, rep: map<int, int>, d: map<int, nat>,
                    next: int, i: int, j: int)
    requires FreshCase(g, lab, parent, rep, d, next, i, j) && Agreed(g, lab, rep, Site(i, j))
    ensures Agreed(g, SetAt(lab, i, j, next), rep[next := next], Site(i, j + 1))
  {
    forall r, c | 0 <= r < |g| && 0 <= c < |g| && Before(Site(r, c), Site(i, j + 1)) && g[r][c] == 1
      ensures AgreeAt(g, SetAt(lab, i, j, next), rep[next := next], r, c)
    {
      if r != i || c != j {
        assert AgreeAt(g, lab, rep, r, c);
      }
      FreshAgreeAt(g, lab, rep, next, i, j, r, c);
    }
  }

  lemma FreshJoined(g: Grid, lab: Labels, parent: Parent, rep: map<int, int>, d: map<int, nat>,
                    next: int, cr: map<int, Site>, i: int, j: int)
    requires FreshCase(g, lab, parent, rep, d, next, i, j) && Joined(g, lab, rep, cr)
    ensures Joined(g, SetAt(lab, i, j, next), rep[next := next], cr[next := Site(i, j)])
  {
    var lab', rep', cr' := SetAt(lab, i, j, next), rep[next := next], cr[next := Site(i, j)];
    forall r, c | 0 <= r < |g| && 0 <= c < |g| && lab'[r][c] != 0
      ensures JoinedAt(g, lab', rep', cr', r, c)
    {
      if r == i && c == j {
        ConnectedRefl(g, Site(i, j));
      } else {
        assert JoinedAt(g, lab, rep, cr, r, c);
        FreshRepAt(g, lab, parent, rep, d, next, i, j, r, c);
      }
    }
  }

  /** Opening label next at (i, j) keeps the invariant. */
  lemma FreshStep(g: Grid, lab: Labels, parent: Parent, rep: map<int, int>, d: map<int, nat>,
                  next: int, cr: map<int, Site>, i: int, j: int,
                  lab': Labels, parent': Parent, rep': map<int, int>, d': map<int, nat>, next': int, cr': map<int, Site>)
    requires ScanInv(g, lab, parent, rep, d, next, cr, Site(i, j))
    requires 0 <= i < |g| && 0 <= j < |g| && g[i][j] == 1
    requires (i == 0 || g[i - 1][j] != 1) && (j == 0 || g[i][j - 1] != 1)
    requires lab' == SetAt(lab, i, j, next) && parent' == parent[next := next]
    requires rep' == rep[next := next] && d' == d[next := 0] && next' == next + 1 && cr' == cr[next := Site(i, j)]
    ensures ScanInv(g, lab', parent', rep', d', next', cr', Site(i, j + 1))
  {
    MakeSet(parent, rep, d, next);
    FreshAgreed(g, lab, parent, rep, d, next, i, j);
    FreshJoined(g, lab, parent, rep, d, next, cr, i, j);
  }

  // ----- A site with an occupied top or left neighbour joins them -----

  /** v is the label of an occupied top or left neighbour of (i, j). */
  ghost predicate NeighbourLabel(g: Grid, lab: Labels, i: int, j: int, v: int)
    requires Shaped(g, lab) && 0 <= i < |g| && 0 <= j < |g|
  {
    (i > 0 && g[i - 1][j] == 1 && lab[i - 1][j] == v) || (j > 0 && g[i][j - 1] == 1 && lab[i][j - 1] == v)
  }

  /** The labels of the occupied top and left neighbours of (i, j) are
      among a and b. */
  ghost predicate AmongNeighbours(g: Grid, lab: Labels, i: int, j: int, a: int, b: int)
    requires Shaped(g, lab) && 0 <= i < |g| && 0 <= j < |g|
  {
    (i > 0 && g[i - 1][j] == 1 ==> lab[i - 1][j] == a || lab[i - 1][j] == b) &&
    (j > 0 && g[i][j - 1] == 1 ==> lab[i][j - 1] == a || lab[i][j - 1] == b)
  }

  /** (i, j) is occupied and the labels of its occupied top and left
      neighbours are among a and b, both of which occur. */
  ghost predicate JoinCase(g: Grid, lab: Labels, parent: Parent, rep: map<int, int>, d: map<int, nat>,
                           next: int, i: int, j: int, a: int, b: int) {
    Base(g, lab, parent, rep, d, next, Site(i, j)) && 0 <= i < |g| && 0 <= j < |g| && g[i][j] == 1 &&
    NeighbourLabel(g, lab, i, j, a) && NeighbourLabel(g, lab, i, j, b) && AmongNeighbours(g, lab, i, j, a, b)
  }

  /** What the scan invariant says about one cell. */
  lemma ScannedAt(g: Grid, lab: Labels, parent: Parent, rep: map<int, int>, d: map<int, nat>,
                  next: int, p: Site, r: int, c: int)
    requires Base(g, lab, parent, rep, d, next, p) && 0 <= r < |g| && 0 <= c < |g|
    ensures lab[r][c] != 0 <==> Before(Site(r, c), p) && g[r][c] == 1
    ensures lab[r][c] != 0 ==> lab[r][c] in rep && 1 <= lab[r][c] < next
  {
  }

  /** The representative of a label other than at (i, j) after the merge. */
  lemma MergedRepAt(lab: Labels, n: nat, rep: map<int, int>, i: int, j: int, a: int, b: int, r: int, c: int)
    requires IsGrid(lab, n) && 0 <= i < n && 0 <= j < n && 0 <= r < n && 0 <= c < n && (r != i || c != j)
    requires a in rep && b in rep && lab[r][c] in rep
    ensures RepAt(Merged(rep, rep[a], rep[b]), SetAt(lab, i, j, a), r, c) ==
      if rep[lab[r][c]] == rep[b] then rep[a] else rep[lab[r][c]]
  {
  }

  /** A cell scanned before (i, j) stays in its neighbours' class. */
  lemma JoinAgreeOther(g: Grid, lab: Labels, rep: map<int, int>, i: int, j: int, a: int, b: int, r: int, c: int)
    requires Shaped(g, lab) && 0 <= i < |g| && 0 <= j < |g| && 0 <= r < |g| && 0 <= c < |g|
    requires Before(Site(r, c), Site(i, j)) && a in rep && b in rep && lab[r][c] in rep
    requires r > 0 && g[r - 1][c] == 1 ==> lab[r - 1][c] in rep
    requires c > 0 && g[r][c - 1] == 1 ==> lab[r][c - 1] in rep
    requires AgreeAt(g, lab, rep, r, c)
    ensures AgreeAt(g, SetAt(lab, i, j, a), Merged(rep, rep[a], rep[b]), r, c)
  {
    MergedRepAt(lab, |g|, rep, i, j, a, b, r, c);
    if r > 0 && g[r - 1][c] == 1 { MergedRepAt(lab, |g|, rep, i, j, a, b, r - 1, c); }
    if c > 0 && g[r][c - 1] == 1 { MergedRepAt(lab, |g|, rep, i, j, a, b, r, c - 1); }
  }

  /** The joining cell is in the merged class of its neighbours. */
  lemma JoinAgreeHere(g: Grid, lab: Labels, rep: map<int, int>, i: int, j: int, a: int, b: int)
    requires Shaped(g, lab) && 0 <= i < |g| && 0 <= j < |g| && a in rep && b in rep
    requires AmongNeighbours(g, lab, i, j, a, b)
    ensures AgreeAt(g, SetAt(lab, i, j, a), Merged(rep, rep[a], rep[b]), i, j)
  {
    if i > 0 && g[i - 1][j] == 1 { MergedRepAt(lab, |g|, rep, i, j, a, b, i - 1, j); }
    if j > 0 && g[i][j - 1] == 1 { MergedRepAt(lab, |g|, rep, i, j, a, b, i, j - 1); }
  }

  lemma JoinAgreed(g: Grid, lab: Labels, parent: Parent, rep: map<int, int>, d: map<int, nat>,
                   next: int, i: int, j: int, a: int, b: int)
    requires JoinCase(g, lab, parent, rep, d, next, i, j, a, b) && Agreed(g, lab, rep, Site(i, j))
    ensures Agreed(g, SetAt(lab, i, j, a), Merged(rep, rep[a], rep[b]), Site(i, j + 1))
  {
    var lab', rep' := SetAt(lab, i, j, a), Merged(rep, rep[a], rep[b]);
    ScannedAt(g, lab, parent, rep, d, next, Site(i, j), if i > 0 then i - 1 else i, j);
    ScannedAt(g, lab, parent, rep, d, next, Site(i, j), i, if j > 0 then j - 1 else j);
    forall r, c | 0 <= r < |g| && 0 <= c < |g| && Before(Site(r, c), Site(i, j + 1)) && g[r][c] == 1
      ensures AgreeAt(g, lab', rep', r, c)
    {
      if r == i && c == j {
        JoinAgreeHere(g, lab, rep, i, j, a, b);
      } else {
        ScannedAt(g, lab, parent, rep, d, next, Site(i, j), r, c);
        if r > 0 { ScannedAt(g, lab, parent, rep, d, next, Site(i, j), r - 1, c); }
        if c > 0 { ScannedAt(g, lab, parent, rep, d, next, Site(i, j), r, c - 1); }
        JoinAgreeOther(g, lab, rep, i, j, a, b, r, c);
      }
    }
  }

  /** The site joins the cluster of a labelled neighbour's representative. */
  lemma NeighbourJoined(g: Grid, lab: Labels, rep: map<int, int>, cr: map<int, Site>, i: int, j: int, s: Site)
    requires Shaped(g, lab) && Joined(g, lab, rep, cr) && 0 <= i < |g| && 0 <= j < |g| && g[i][j] == 1
    requires InGrid(|g|, s) && Open(g, s) && Adjacent(Site(i, j), s) && lab[s.row][s.col] in rep && lab[s.row][s.col] != 0
    ensures rep[lab[s.row][s.col]] in cr && Connected(g, Site(i, j), cr[rep[lab[s.row][s.col]]])
  {
    assert JoinedAt(g, lab, rep, cr, s.row, s.col);
    ConnectedAdjacent(g, Site(i, j), s);
    ConnectedTrans(g, Site(i, j), s, cr[rep[lab[s.row][s.col]]]);
  }

  /** An occupied neighbour with label v joins (i, j) to v's representative. */
  lemma LabelJoined(g: Grid, lab: Labels, parent: Parent, rep: map<int, int>, d: map<int, nat>,
                    next: int, cr: map<int, Site>, i: int, j: int, v: int)
    requires Base(g, lab, parent, rep, d, next, Site(i, j)) && Joined(g, lab, rep, cr)
    requires 0 <= i < |g| && 0 <= j < |g| && g[i][j] == 1 && NeighbourLabel(g, lab, i, j, v)
    ensures v in rep && rep[v] in cr && Connected(g, Site(i, j), cr[rep[v]])
  {
    var s := if i > 0 && g[i - 1][j] == 1 && lab[i - 1][j] == v then Site(i - 1, j) else Site(i, j - 1);
    ScannedAt(g, lab, parent, rep, d, next, Site(i, j), s.row, s.col);
    NeighbourJoined(g, lab, rep, cr, i, j, s);
  }

  /** A labelled cell other than (i, j) stays joined after the merge. */
  lemma JoinJoinedOther(g: Grid, lab: Labels, rep: map<int, int>, cr: map<int, Site>,
                        i: int, j: int, a: int, b: int, r: int, c: int)
    requires Shaped(g, lab) && 0 <= i < |g| && 0 <= j < |g| && 0 <= r < |g| && 0 <= c < |g| && (r != i || c != j)
    requires a in rep && b in rep && lab[r][c] in rep && rep[a] in cr && rep[b] in cr
    requires Connected(g, cr[rep[b]], cr[rep[a]]) && JoinedAt(g, lab, rep, cr, r, c)
    ensures JoinedAt(g, SetAt(lab, i, j, a), Merged(rep, rep[a], rep[b]), cr, r, c)
  {
    MergedRepAt(lab, |g|, rep, i, j, a, b, r, c);
    if rep[lab[r][c]] == rep[b] {
      ConnectedTrans(g, Site(r, c), cr[rep[b]], cr[rep[a]]);
    }
  }

  lemma JoinJoined(g: Grid, lab: Labels, parent: Parent, rep: map<int, int>, d: map<int, nat>,
                   next: int, cr: map<int, Site>, i: int, j: int, a: int, b: int)
    requires JoinCase(g, lab, parent, rep, d, next, i, j, a, b) && Joined(g, lab, rep, cr)
    ensures Joined(g, SetAt(lab, i, j, a), Merged(rep, rep[a], rep[b]), cr)
  {
    var lab', rep' := SetAt(lab, i, j, a), Merged(rep, rep[a], rep[b]);
    LabelJoined(g, lab, parent, rep, d, next, cr, i, j, a);
    LabelJoined(g, lab, parent, rep, d, next, cr, i, j, b);
    var here := Site(i, j);
    ConnectedSym(g, here, cr[rep[b]]);
    ConnectedTrans(g, cr[rep[b]], here, cr[rep[a]]);
    forall r, c | 0 <= r < |g| && 0 <= c < |g| && lab'[r][c] != 0
      ensures JoinedAt(g, lab', rep', cr, r, c)
    {
      if r == i && c == j {
        assert RepAt(rep', lab', i, j) == rep[a];
      } else {
        assert JoinedAt(g, lab, rep, cr, r, c);
        ScannedAt(g, lab, parent, rep, d, next, Site(i, j), r, c);
        JoinJoinedOther(g, lab, rep, cr, i, j, a, b, r, c);
      }
    }
  }

  /** Labelling (i, j) with a and merging the classes of a and b keeps the
      invariant. */
  lemma JoinStep(g: Grid, lab: Labels, parent: Parent, rep: map<int, int>, d: map<int, nat>,
                 next: int, cr: map<int, Site>, i: int, j: int, a: int, b: int,
                 lab': Labels, parent': Parent, rep': map<int, int>, d': map<int, nat>)
    requires ScanInv(g, lab, parent, rep, d, next, cr, Site(i, j))
    requires JoinCase(g, lab, parent, rep, d, next, i, j, a, b)
    requires lab' == SetAt(lab, i, j, a) && rep' == Merged(rep, rep[a], rep[b])
    requires Forest(parent', rep', d') && parent'.Keys == parent.Keys
    ensures ScanInv(g, lab', parent', rep', d', next, cr, Site(i, j + 1))
  {
    JoinAgreed(g, lab, parent, rep, d, next, i, j, a, b);
    JoinJoined(g, lab, parent, rep, d, next, cr, i, j, a, b);
  }

  // ----- What the finished scan gives -----

  /** The invariant once every site has been scanned. */
  ghost predicate Finished(g: Grid, lab: Labels, parent: Parent, rep: map<int, int>, d: map<int, nat>,
                           next: int, cr: map<int, Site>) {
    ScanInv(g, lab, parent, rep, d, next, cr, Site(|g|, 0))
  }

  /** The representative of the label at a site. */
  ghost function RepOfSite(rep: map<int, int>, lab: Labels, y: Site): int {
    RepAt(rep, lab, y.row, y.col)
  }

  lemma AdjacentSameRep(g: Grid, lab: Labels, rep: map<int, int>, a: Site, b: Site)
    requires Shaped(g, lab) && Agreed(g, lab, rep, Site(|g|, 0))
    requires Open(g, a) && Open(g, b) && Adjacent(a, b)
    ensures RepOfSite(rep, lab, a) == RepOfSite(rep, lab, b)
  {
    if a.row < b.row || (a.row == b.row && a.col < b.col) {
      assert AgreeAt(g, lab, rep, b.row, b.col);
    } else {
      assert AgreeAt(g, lab, rep, a.row, a.col);
    }
  }

  lemma {:induction false} PathSameRep(g: Grid, lab: Labels, rep: map<int, int>, p: seq<Site>, k: nat)
    requires Shaped(g, lab) && Agreed(g, lab, rep, Site(|g|, 0)) && IsPath(g, p) && k < |p|
    ensures RepOfSite(rep, lab, p[k]) == RepOfSite(rep, lab, p[0])
  {
    if k > 0 {
      PathSameRep(g, lab, rep, p, k - 1);
      AdjacentSameRep(g, lab, rep, p[k - 1], p[k]);
    }
  }

  /** Connected sites are in one class. */
  lemma ConnectedSameRep(g: Grid, lab: Labels, rep: map<int, int>, a: Site, b: Site)
    requires Shaped(g, lab) && Agreed(g, lab, rep, Site(|g|, 0)) && Connected(g, a, b)
    ensures RepOfSite(rep, lab, a) == RepOfSite(rep, lab, b)
  {
    var p :| IsPath(g, p) && p[0] == a && p[|p| - 1] == b;
    PathSameRep(g, lab, rep, p, |p| - 1);
  }

  /** Occupied sites of one class are connected. */
  lemma SameRepConnected(g: Grid, lab: Labels, parent: Parent, rep: map<int, int>, d: map<int, nat>,
                         next: int, cr: map<int, Site>, a: Site, b: Site)
    requires Finished(g, lab, parent, rep, d, next, cr) && Open(g, a) && Open(g, b)
    requires RepOfSite(rep, lab, a) == RepOfSite(rep, lab, b)
    ensures Connected(g, a, b)
  {
    assert JoinedAt(g, lab, rep, cr, a.row, a.col);
    assert JoinedAt(g, lab, rep, cr, b.row, b.col);
    var c := cr[RepOfSite(rep, lab, a)];
    ConnectedSym(g, b, c);
    ConnectedTrans(g, a, c, b);
  }

  /** Every occupied site is labelled with a key of `parent`, and its
      representative is a root label. */
  lemma FinishedLabelled(g: Grid, lab: Labels, parent: Parent, rep: map<int, int>, d: map<int, nat>,
                         next: int, cr: map<int, Site>, y: Site)
    requires Finished(g, lab, parent, rep, d, next, cr) && InGrid(|g|, y)
    ensures lab[y.row][y.col] != 0 <==> Open(g, y)
    ensures lab[y.row][y.col] >= 0
    ensures Open(g, y) ==> lab[y.row][y.col] in parent && RepOfSite(rep, lab, y) == rep[lab[y.row][y.col]]
    ensures Open(g, y) ==> 1 <= RepOfSite(rep, lab, y) < next
  {
    if Open(g, y) {
      RepIsRoot(parent, rep, d, lab[y.row][y.col]);
    }
  }
}
