/** The invariant of the Hoshen-Kopelman scan of Percolation/percolation.py
    and the lemmas showing that each kind of site visit keeps it.

    Before site p is processed: exactly the occupied sites before p carry a
    label; the label map is well formed; each such site shares its root with
    its occupied top and left neighbours; each label was opened at a site
    (its creator) that comes before every site carrying it; every labelled
    site is connected to the creator of its root; a root's entry counts the
    sites under it; and the entries of the roots add up to the number of
    occupied sites before p. */
module ScanInvariant {
  import opened Lattice
  import opened Mirror
  import opened LabelMap
  import opened Counters

  /** The root of the label at (r, c); 0 where there is none. */
  ghost function RootAt(m: LabelMap, lab: Labels, r: int, c: int): int {
    if 0 <= r < |lab| && 0 <= c < |lab[r]| && Valid(m) && lab[r][c] in m then Root(m, lab[r][c]) else 0
  }

  /** The labels handed out are 2 .. cur - 1. */
  ghost predicate KeysBelow(m: LabelMap, cur: int) {
    forall l :: l in m <==> 2 <= l < cur
  }

  /** Exactly the occupied sites before p carry a label, from 2 .. cur - 1. */
  ghost predicate LabelsScanned(g: Grid, lab: Labels, cur: int, p: Site)
    requires Shaped(g, lab)
  {
    forall r, c :: 0 <= r < |g| && 0 <= c < |g| ==>
      (lab[r][c] != 0 <==> Before(Site(r, c), p) && g[r][c] == 1) &&
      (lab[r][c] != 0 ==> 2 <= lab[r][c] < cur)
  }

  /** A scanned occupied site shares its root with its occupied top and
      left neighbours. */
  ghost predicate AgreeAt(g: Grid, lab: Labels, m: LabelMap, r: int, c: int)
    requires Shaped(g, lab) && 0 <= r < |g| && 0 <= c < |g|
  {
    (r > 0 && g[r - 1][c] == 1 ==> RootAt(m, lab, r - 1, c) == RootAt(m, lab, r, c)) &&
    (c > 0 && g[r][c - 1] == 1 ==> RootAt(m, lab, r, c - 1) == RootAt(m, lab, r, c))
  }

  ghost predicate Agreed(g: Grid, lab: Labels, m: LabelMap, p: Site)
    requires Shaped(g, lab)
  {
    forall r, c {:trigger AgreeAt(g, lab, m, r, c)} ::
      0 <= r < |g| && 0 <= c < |g| && Before(Site(r, c), p) && g[r][c] == 1 ==> AgreeAt(g, lab, m, r, c)
  }

  /** Each label was opened at a scanned site that still carries it, and
      smaller labels were opened earlier. */
  ghost predicate Creators(g: Grid, lab: Labels, m: LabelMap, cr: map<int, Site>, p: Site)
    requires Shaped(g, lab)
  {
    (forall l :: l in m ==> l in cr && InGrid(|g|, cr[l]) && Before(cr[l], p) && lab[cr[l].row][cr[l].col] == l) &&
    (forall l1, l2 :: l1 in m && l2 in m && l1 < l2 ==> Before(cr[l1], cr[l2]))
  }

  /** No labelled site comes before the site that opened its label. */
  ghost predicate CreatedFirst(g: Grid, lab: Labels, cr: map<int, Site>)
    requires Shaped(g, lab)
  {
    forall r, c :: 0 <= r < |g| && 0 <= c < |g| && lab[r][c] != 0 && lab[r][c] in cr ==>
      !Before(Site(r, c), cr[lab[r][c]])
  }

  /** A labelled site is joined to the site that opened its root's label. */
  ghost predicate JoinedAt(g: Grid, lab: Labels, m: LabelMap, cr: map<int, Site>, r: int, c: int) {
    RootAt(m, lab, r, c) in cr && Connected(g, Site(r, c), cr[RootAt(m, lab, r, c)])
  }

  ghost predicate Joined(g: Grid, lab: Labels, m: LabelMap, cr: map<int, Site>)
    requires Shaped(g, lab)
  {
    forall r, c {:trigger JoinedAt(g, lab, m, cr, r, c)} ::
      0 <= r < |g| && 0 <= c < |g| && lab[r][c] != 0 ==> JoinedAt(g, lab, m, cr, r, c)
  }

  /** The labelled sites whose root is l. */
  ghost function Members(g: Grid, lab: Labels, m: LabelMap, l: int): set<Site>
    requires Shaped(g, lab)
  {
    set r, c | 0 <= r < |g| && 0 <= c < |g| && lab[r][c] != 0 && RootAt(m, lab, r, c) == l :: Site(r, c)
  }

  lemma MembersMember(g: Grid, lab: Labels, m: LabelMap, l: int, y: Site)
    requires Shaped(g, lab)
    ensures y in Members(g, lab, m, l) <==>
      InGrid(|g|, y) && lab[y.row][y.col] != 0 && RootAt(m, lab, y.row, y.col) == l
  {
    if InGrid(|g|, y) && lab[y.row][y.col] != 0 && RootAt(m, lab, y.row, y.col) == l {
      assert y == Site(y.row, y.col);
    }
  }

  /** A root's entry is the number of labelled sites under it. */
  ghost predicate SizesCount(g: Grid, lab: Labels, m: LabelMap)
    requires Shaped(g, lab)
  {
    forall l :: l in m && m[l] > 0 ==> m[l] == |Members(g, lab, m, l)|
  }

  /** The bookkeeping part of the scan invariant before site p. */
  ghost predicate Base(g: Grid, lab: Labels, m: LabelMap, cur: int, p: Site) {
    Shaped(g, lab) && 2 <= cur && KeysBelow(m, cur) && Valid(m) && LabelsScanned(g, lab, cur, p)
  }

  /** The invariant of the scan before site p is processed. */
  ghost predicate ScanInv(g: Grid, lab: Labels, m: LabelMap, cur: int, cr: map<int, Site>, p: Site) {
    Base(g, lab, m, cur, p) &&
    Agreed(g, lab, m, p) && Creators(g, lab, m, cr, p) && CreatedFirst(g, lab, cr) &&
    Joined(g, lab, m, cr) && SizesCount(g, lab, m) && PosSum(m, 2, cur) == |OpenBefore(g, p)|
  }

  /** Before the scan: no labels, an empty label map, and the next label 2. */
  lemma ScanStart(g: Grid, lab: Labels, m: LabelMap, cur: int, cr: map<int, Site>)
    requires IsSquare(g) && lab == Filled(|g|, 0) && m == map[] && cur == 2 && cr == map[]
    ensures ScanInv(g, lab, m, cur, cr, Site(0, 0))
  {
    assert OpenBefore(g, Site(0, 0)) == {};
  }

  /** Moving the scan position past sites that are not occupied keeps the
      invariant. */
  lemma ScanAdvance(g: Grid, lab: Labels, m: LabelMap, cur: int, cr: map<int, Site>, p: Site, p': Site)
    requires ScanInv(g, lab, m, cur, cr, p)
    requires forall r, c :: 0 <= r < |g| && 0 <= c < |g| && g[r][c] == 1 ==>
      (Before(Site(r, c), p) <==> Before(Site(r, c), p'))
    ensures ScanInv(g, lab, m, cur, cr, p')
  {
    forall l | l in m
      ensures Before(cr[l], p')
    {
      var y := cr[l];
      assert lab[y.row][y.col] == l;
    }
    var A, B := OpenBefore(g, p), OpenBefore(g, p');
    forall x | x in A ensures x in B { OpenBeforeMember(g, p, x); OpenBeforeMember(g, p', x); }
    forall x | x in B ensures x in A { OpenBeforeMember(g, p, x); OpenBeforeMember(g, p', x); }
    assert A == B;
  }

  lemma ScanSkip(g: Grid, lab: Labels, m: LabelMap, cur: int, cr: map<int, Site>, i: int, j: int)
    requires ScanInv(g, lab, m, cur, cr, Site(i, j))
    requires 0 <= i < |g| && 0 <= j < |g| && g[i][j] != 1
    ensures ScanInv(g, lab, m, cur, cr, Site(i, j + 1))
  {
    ScanAdvance(g, lab, m, cur, cr, Site(i, j), Site(i, j + 1));
  }

  lemma ScanRowEnd(g: Grid, lab: Labels, m: LabelMap, cur: int, cr: map<int, Site>, i: int)
    requires ScanInv(g, lab, m, cur, cr, Site(i, |g|))
    ensures ScanInv(g, lab, m, cur, cr, Site(i + 1, 0))
  {
    ScanAdvance(g, lab, m, cur, cr, Site(i, |g|), Site(i + 1, 0));
  }

  // ----- Opening a fresh label at site (i, j) -----

  /** The pre-state facts a fresh label relies on. */
  ghost predicate FreshCase(g: Grid, lab: Labels, m: LabelMap, cur: int, i: int, j: int) {
    Base(g, lab, m, cur, Site(i, j)) && 0 <= i < |g| && 0 <= j < |g| && g[i][j] == 1 &&
    (i == 0 || g[i - 1][j] != 1) && (j == 0 || g[i][j - 1] != 1)
  }

  lemma FreshRootAt(g: Grid, lab: Labels, m: LabelMap, cur: int, i: int, j: int, r: int, c: int)
    requires FreshCase(g, lab, m, cur, i, j)
    requires Valid(m[cur := 1])
    requires 0 <= r < |g| && 0 <= c < |g|
    ensures RootAt(m[cur := 1], SetAt(lab, i, j, cur), r, c) ==
      if r == i && c == j then cur else RootAt(m, lab, r, c)
    ensures RootAt(m, lab, r, c) < cur
  {
    var m', lab' := m[cur := 1], SetAt(lab, i, j, cur);
    if r == i && c == j {
      assert cur in m' && m'[cur] > 0;
    } else if lab[r][c] in m {
      RootAfterFresh(m, cur, lab[r][c]);
    }
  }

  lemma FreshBase(g: Grid, lab: Labels, m: LabelMap, cur: int, i: int, j: int)
    requires FreshCase(g, lab, m, cur, i, j)
    ensures Base(g, SetAt(lab, i, j, cur), m[cur := 1], cur + 1, Site(i, j + 1))
  {
    ValidAfterFresh(m, cur);
  }

  /** A fresh label leaves the root of every other site alone. */
  lemma FreshRootOther(lab: Labels, m: LabelMap, cur: int, i: int, j: int, r: int, c: int)
    requires Valid(m) && Valid(m[cur := 1]) && cur !in m
    requires 0 <= i < |lab| && 0 <= j < |lab[i]|
    requires 0 <= r < |lab| && 0 <= c < |lab[r]| && (r != i || c != j) && lab[r][c] != cur
    ensures RootAt(m[cur := 1], SetAt(lab, i, j, cur), r, c) == RootAt(m, lab, r, c)
  {
    if lab[r][c] in m {
      RootAfterFresh(m, cur, lab[r][c]);
    }
  }

  lemma FreshAgreeAt(g: Grid, lab: Labels, m: LabelMap, cur: int, i: int, j: int, r: int, c: int)
    requires Shaped(g, lab) && Valid(m) && Valid(m[cur := 1]) && cur !in m
    requires 0 <= i < |g| && 0 <= j < |g| && (i == 0 || g[i - 1][j] != 1) && (j == 0 || g[i][j - 1] != 1)
    requires 0 <= r < |g| && 0 <= c < |g| && Before(Site(r, c), Site(i, j + 1))
    requires lab[r][c] != cur && (r > 0 ==> lab[r - 1][c] != cur) && (c > 0 ==> lab[r][c - 1] != cur)
    requires (r == i && c == j) || AgreeAt(g, lab, m, r, c)
    ensures AgreeAt(g, SetAt(lab, i, j, cur), m[cur := 1], r, c)
  {
    if r != i || c != j {
      var m', lab' := m[cur := 1], SetAt(lab, i, j, cur);
      FreshRootOther(lab, m, cur, i, j, r, c);
      if r > 0 {
        FreshRootOther(lab, m, cur, i, j, r - 1, c);
      }
      if c > 0 {
        FreshRootOther(lab, m, cur, i, j, r, c - 1);
      }
      AgreeTransfer(g, lab, m, lab', m', r, c);
    }
  }

  /** AgreeAt carries over to a new state where the three roots it compares
      are unchanged. */
  lemma AgreeTransfer(g: Grid, lab: Labels, m: LabelMap, lab': Labels, m': LabelMap, r: int, c: int)
    requires Shaped(g, lab) && Shaped(g, lab') && 0 <= r < |g| && 0 <= c < |g| && AgreeAt(g, lab, m, r, c)
    requires RootAt(m', lab', r, c) == RootAt(m, lab, r, c)
    requires r > 0 ==> RootAt(m', lab', r - 1, c) == RootAt(m, lab, r - 1, c)
    requires c > 0 ==> RootAt(m', lab', r, c - 1) == RootAt(m, lab, r, c - 1)
    ensures AgreeAt(g, lab', m', r, c)
  {
  }

  lemma FreshAgreed(g: Grid, lab: Labels, m: LabelMap, cur: int, i: int, j: int)
    requires FreshCase(g, lab, m, cur, i, j) && Agreed(g, lab, m, Site(i, j))
    requires Valid(m[cur := 1])
    ensures Agreed(g, SetAt(lab, i, j, cur), m[cur := 1], Site(i, j + 1))
  {
    forall r, c | 0 <= r < |g| && 0 <= c < |g| && Before(Site(r, c), Site(i, j + 1)) && g[r][c] == 1
      ensures AgreeAt(g, SetAt(lab, i, j, cur), m[cur := 1], r, c)
    {
      if r != i || c != j {
        assert AgreeAt(g, lab, m, r, c);
      }
      FreshAgreeAt(g, lab, m, cur, i, j, r, c);
    }
  }

  lemma FreshCreators(g: Grid, lab: Labels, m: LabelMap, cur: int, cr: map<int, Site>, i: int, j: int)
    requires FreshCase(g, lab, m, cur, i, j) && Creators(g, lab, m, cr, Site(i, j)) && CreatedFirst(g, lab, cr)
    ensures Creators(g, SetAt(lab, i, j, cur), m[cur := 1], cr[cur := Site(i, j)], Site(i, j + 1))
    ensures CreatedFirst(g, SetAt(lab, i, j, cur), cr[cur := Site(i, j)])
  {
    var m', lab', cr' := m[cur := 1], SetAt(lab, i, j, cur), cr[cur := Site(i, j)];
    forall l | l in m'
      ensures l in cr' && InGrid(|g|, cr'[l]) && Before(cr'[l], Site(i, j + 1)) && lab'[cr'[l].row][cr'[l].col] == l
    {
      if l != cur {
        var y := cr[l];
        assert lab[y.row][y.col] == l;
      }
    }
    forall r, c | 0 <= r < |g| && 0 <= c < |g| && lab'[r][c] != 0 && lab'[r][c] in cr'
      ensures !Before(Site(r, c), cr'[lab'[r][c]])
    {
      if r != i || c != j {
        assert lab[r][c] in cr;
      }
    }
  }

  lemma FreshJoined(g: Grid, lab: Labels, m: LabelMap, cur: int, cr: map<int, Site>, i: int, j: int)
    requires FreshCase(g, lab, m, cur, i, j) && Joined(g, lab, m, cr)
    requires Valid(m[cur := 1])
    ensures Joined(g, SetAt(lab, i, j, cur), m[cur := 1], cr[cur := Site(i, j)])
  {
    var m', lab', cr' := m[cur := 1], SetAt(lab, i, j, cur), cr[cur := Site(i, j)];
    forall r, c | 0 <= r < |g| && 0 <= c < |g| && lab'[r][c] != 0
      ensures JoinedAt(g, lab', m', cr', r, c)
    {
      FreshRootAt(g, lab, m, cur, i, j, r, c);
      if r == i && c == j {
        ConnectedRefl(g, Site(i, j));
      } else {
        assert JoinedAt(g, lab, m, cr, r, c);
      }
    }
  }

  lemma FreshSizes(g: Grid, lab: Labels, m: LabelMap, cur: int, i: int, j: int)
    requires FreshCase(g, lab, m, cur, i, j) && SizesCount(g, lab, m)
    requires Valid(m[cur := 1])
    ensures SizesCount(g, SetAt(lab, i, j, cur), m[cur := 1])
  {
    var m', lab' := m[cur := 1], SetAt(lab, i, j, cur);
    forall l | l in m' && m'[l] > 0
      ensures m'[l] == |Members(g, lab', m', l)|
    {
      forall y ensures y in Members(g, lab', m', l) <==> (y in Members(g, lab, m, l) && l != cur) || (y == Site(i, j) && l == cur) {
        MembersMember(g, lab', m', l, y);
        MembersMember(g, lab, m, l, y);
        if InGrid(|g|, y) { FreshRootAt(g, lab, m, cur, i, j, y.row, y.col); }
      }
      if l == cur {
        assert Members(g, lab', m', l) == {Site(i, j)};
      } else {
        assert Members(g, lab', m', l) == Members(g, lab, m, l);
      }
    }
  }

  lemma FreshParts(g: Grid, lab: Labels, m: LabelMap, cur: int, cr: map<int, Site>, i: int, j: int)
    requires ScanInv(g, lab, m, cur, cr, Site(i, j))
    requires 0 <= i < |g| && 0 <= j < |g| && g[i][j] == 1
    requires (i == 0 || g[i - 1][j] != 1) && (j == 0 || g[i][j - 1] != 1)
    ensures ScanInv(g, SetAt(lab, i, j, cur), m[cur := 1], cur + 1, cr[cur := Site(i, j)], Site(i, j + 1))
  {
    assert FreshCase(g, lab, m, cur, i, j);
    FreshBase(g, lab, m, cur, i, j);
    FreshAgreed(g, lab, m, cur, i, j);
    FreshCreators(g, lab, m, cur, cr, i, j);
    FreshJoined(g, lab, m, cur, cr, i, j);
    FreshSizes(g, lab, m, cur, i, j);
    PosSumFrame(m, 2, cur, cur, 1);
    OpenBeforeNext(g, i, j);
  }

  /** Opening a fresh label keeps the invariant. */
  lemma FreshStep(g: Grid, lab: Labels, m: LabelMap, cur: int, cr: map<int, Site>, i: int, j: int,
                  lab': Labels, m': LabelMap, cur': int, cr': map<int, Site>)
    requires ScanInv(g, lab, m, cur, cr, Site(i, j))
    requires 0 <= i < |g| && 0 <= j < |g| && g[i][j] == 1
    requires (i == 0 || g[i - 1][j] != 1) && (j == 0 || g[i][j - 1] != 1)
    requires lab' == SetAt(lab, i, j, cur) && m' == m[cur := 1] && cur' == cur + 1 && cr' == cr[cur := Site(i, j)]
    ensures ScanInv(g, lab', m', cur', cr', Site(i, j + 1))
  {
    FreshParts(g, lab, m, cur, cr, i, j);
  }

  // ----- Joining site (i, j) to the root p of its neighbours, merging q into p -----

  /** The map after the site joins root p and, when q differs from p, the
      root q is merged into p. */
  ghost function JoinMap(m: LabelMap, p: int, q: int): LabelMap
    requires p in m && q in m
  {
    if p == q then m[p := m[p] + 1] else Merge(m[p := m[p] + 1], p, q)
  }

  /** The root of an occupied top or left neighbour of (i, j) is v. */
  ghost predicate NeighbourRoot(g: Grid, lab: Labels, m: LabelMap, i: int, j: int, v: int)
    requires Shaped(g, lab) && 0 <= i < |g| && 0 <= j < |g|
  {
    (i > 0 && g[i - 1][j] == 1 && RootAt(m, lab, i - 1, j) == v) ||
    (j > 0 && g[i][j - 1] == 1 && RootAt(m, lab, i, j - 1) == v)
  }

  /** The pre-state facts of a join: p and q are the roots of the occupied
      top and left neighbours, and p is the smaller. */
  ghost predicate JoinCase(g: Grid, lab: Labels, m: LabelMap, cur: int, i: int, j: int, p: int, q: int) {
    Base(g, lab, m, cur, Site(i, j)) && 0 <= i < |g| && 0 <= j < |g| && g[i][j] == 1 &&
    p in m && m[p] > 0 && q in m && m[q] > 0 && p <= q &&
    NeighbourRoot(g, lab, m, i, j, p) && NeighbourRoot(g, lab, m, i, j, q) &&
    (i > 0 && g[i - 1][j] == 1 ==> RootAt(m, lab, i - 1, j) == p || RootAt(m, lab, i - 1, j) == q) &&
    (j > 0 && g[i][j - 1] == 1 ==> RootAt(m, lab, i, j - 1) == p || RootAt(m, lab, i, j - 1) == q)
  }

  lemma JoinValid(m: LabelMap, p: int, q: int)
    requires Valid(m) && p in m && m[p] > 0 && q in m && m[q] > 0 && p <= q
    ensures Valid(JoinMap(m, p, q)) && JoinMap(m, p, q).Keys == m.Keys
  {
    ValidAfterGrow(m, p, 1);
    if p != q {
      ValidAfterMerge(m[p := m[p] + 1], p, q);
    }
  }

  lemma GrowRoot(m: LabelMap, p: int, l: int)
    requires Valid(m) && p in m && m[p] > 0 && l in m
    ensures Valid(m[p := m[p] + 1]) && Root(m[p := m[p] + 1], l) == Root(m, l)
  {
    ValidAfterGrow(m, p, 1);
    RootAfterGrow(m, p, 1, l);
  }

  lemma MergeRoot(m: LabelMap, p: int, q: int, l: int)
    requires Valid(m) && p in m && m[p] > 0 && q in m && m[q] > 0 && p < q && l in m
    ensures Valid(Merge(m[p := m[p] + 1], p, q))
    ensures Root(Merge(m[p := m[p] + 1], p, q), l) == if Root(m, l) == q then p else Root(m, l)
  {
    GrowRoot(m, p, l);
    ValidAfterMerge(m[p := m[p] + 1], p, q);
    RootAfterMerge(m[p := m[p] + 1], p, q, l);
  }

  /** After the join exactly the labels whose root was q reach p. */
  lemma JoinRoot(m: LabelMap, p: int, q: int, l: int)
    requires Valid(m) && p in m && m[p] > 0 && q in m && m[q] > 0 && p <= q && l in m
    ensures Valid(JoinMap(m, p, q))
    ensures Root(JoinMap(m, p, q), l) == if Root(m, l) == q then p else Root(m, l)
  {
    var m' := JoinMap(m, p, q);
    if p == q {
      GrowRoot(m, p, l);
      assert m' == m[p := m[p] + 1];
    } else {
      MergeRoot(m, p, q, l);
      assert m' == Merge(m[p := m[p] + 1], p, q);
    }
  }

  lemma JoinRootAt(g: Grid, lab: Labels, m: LabelMap, cur: int, i: int, j: int, p: int, q: int, r: int, c: int)
    requires JoinCase(g, lab, m, cur, i, j, p, q)
    requires 0 <= r < |g| && 0 <= c < |g|
    ensures Valid(JoinMap(m, p, q))
    ensures RootAt(JoinMap(m, p, q), SetAt(lab, i, j, p), r, c) ==
      if r == i && c == j then p
      else if RootAt(m, lab, r, c) == q then p
      else RootAt(m, lab, r, c)
  {
    JoinValid(m, p, q);
    var lab' := SetAt(lab, i, j, p);
    if lab'[r][c] in m {
      JoinRoot(m, p, q, lab'[r][c]);
    }
    if r == i && c == j {
      assert Root(m, p) == p;
    }
  }

  lemma JoinBase(g: Grid, lab: Labels, m: LabelMap, cur: int, i: int, j: int, p: int, q: int)
    requires JoinCase(g, lab, m, cur, i, j, p, q)
    ensures Base(g, SetAt(lab, i, j, p), JoinMap(m, p, q), cur, Site(i, j + 1))
  {
    JoinValid(m, p, q);
  }

  lemma JoinSame(g: Grid, lab: Labels, m: LabelMap, cur: int, i: int, j: int, p: int, q: int, r: int, c: int, r2: int, c2: int)
    requires JoinCase(g, lab, m, cur, i, j, p, q)
    requires 0 <= r < |g| && 0 <= c < |g| && 0 <= r2 < |g| && 0 <= c2 < |g|
    requires (r != i || c != j) && (r2 != i || c2 != j)
    requires RootAt(m, lab, r, c) == RootAt(m, lab, r2, c2)
    ensures RootAt(JoinMap(m, p, q), SetAt(lab, i, j, p), r, c) == RootAt(JoinMap(m, p, q), SetAt(lab, i, j, p), r2, c2)
  {
    JoinRootAt(g, lab, m, cur, i, j, p, q, r, c);
    JoinRootAt(g, lab, m, cur, i, j, p, q, r2, c2);
  }

  /** The joined site takes p, which every occupied top or left neighbour
      now reaches. */
  lemma JoinAgreeHere(g: Grid, lab: Labels, m: LabelMap, cur: int, i: int, j: int, p: int, q: int)
    requires JoinCase(g, lab, m, cur, i, j, p, q)
    ensures AgreeAt(g, SetAt(lab, i, j, p), JoinMap(m, p, q), i, j)
  {
    JoinRootAt(g, lab, m, cur, i, j, p, q, i, j);
    if i > 0 { JoinRootAt(g, lab, m, cur, i, j, p, q, i - 1, j); }
    if j > 0 { JoinRootAt(g, lab, m, cur, i, j, p, q, i, j - 1); }
  }

  lemma JoinAgreeAt(g: Grid, lab: Labels, m: LabelMap, cur: int, i: int, j: int, p: int, q: int, r: int, c: int)
    requires JoinCase(g, lab, m, cur, i, j, p, q)
    requires 0 <= r < |g| && 0 <= c < |g| && Before(Site(r, c), Site(i, j)) && g[r][c] == 1
    requires AgreeAt(g, lab, m, r, c)
    ensures AgreeAt(g, SetAt(lab, i, j, p), JoinMap(m, p, q), r, c)
  {
    if r > 0 && g[r - 1][c] == 1 { JoinSame(g, lab, m, cur, i, j, p, q, r - 1, c, r, c); }
    if c > 0 && g[r][c - 1] == 1 { JoinSame(g, lab, m, cur, i, j, p, q, r, c - 1, r, c); }
  }

  lemma JoinAgreed(g: Grid, lab: Labels, m: LabelMap, cur: int, i: int, j: int, p: int, q: int)
    requires JoinCase(g, lab, m, cur, i, j, p, q) && Agreed(g, lab, m, Site(i, j))
    ensures Agreed(g, SetAt(lab, i, j, p), JoinMap(m, p, q), Site(i, j + 1))
  {
    forall r, c | 0 <= r < |g| && 0 <= c < |g| && Before(Site(r, c), Site(i, j + 1)) && g[r][c] == 1
      ensures AgreeAt(g, SetAt(lab, i, j, p), JoinMap(m, p, q), r, c)
    {
      if r == i && c == j {
        JoinAgreeHere(g, lab, m, cur, i, j, p, q);
      } else {
        assert AgreeAt(g, lab, m, r, c);
        JoinAgreeAt(g, lab, m, cur, i, j, p, q, r, c);
      }
    }
  }

  lemma JoinCreators(g: Grid, lab: Labels, m: LabelMap, cur: int, cr: map<int, Site>, i: int, j: int, p: int, q: int)
    requires JoinCase(g, lab, m, cur, i, j, p, q) && Creators(g, lab, m, cr, Site(i, j)) && CreatedFirst(g, lab, cr)
    ensures Creators(g, SetAt(lab, i, j, p), JoinMap(m, p, q), cr, Site(i, j + 1))
    ensures CreatedFirst(g, SetAt(lab, i, j, p), cr)
  {
    var m', lab' := JoinMap(m, p, q), SetAt(lab, i, j, p);
    JoinValid(m, p, q);
    forall l | l in m'
      ensures l in cr && InGrid(|g|, cr[l]) && Before(cr[l], Site(i, j + 1)) && lab'[cr[l].row][cr[l].col] == l
    {
      var y := cr[l];
      assert lab[y.row][y.col] == l;
    }
    forall r, c | 0 <= r < |g| && 0 <= c < |g| && lab'[r][c] != 0 && lab'[r][c] in cr
      ensures !Before(Site(r, c), cr[lab'[r][c]])
    {
      if r != i || c != j {
        assert lab[r][c] in cr;
      }
    }
  }

  /** The site being joined is connected to the site that opened each of
      its neighbours' roots. */
  lemma NeighbourJoined(g: Grid, lab: Labels, m: LabelMap, cur: int, cr: map<int, Site>, i: int, j: int, v: int)
    requires Base(g, lab, m, cur, Site(i, j)) && Joined(g, lab, m, cr)
    requires 0 <= i < |g| && 0 <= j < |g| && g[i][j] == 1 && NeighbourRoot(g, lab, m, i, j, v)
    ensures v in cr && Connected(g, Site(i, j), cr[v])
  {
    if i > 0 && g[i - 1][j] == 1 && RootAt(m, lab, i - 1, j) == v {
      assert lab[i - 1][j] != 0;
      assert JoinedAt(g, lab, m, cr, i - 1, j);
      assert Open(g, Site(i, j)) && Open(g, Site(i - 1, j));
      AdjacentJoined(g, lab, m, cr, Site(i, j), Site(i - 1, j), v);
    } else {
      assert lab[i][j - 1] != 0;
      assert JoinedAt(g, lab, m, cr, i, j - 1);
      assert Open(g, Site(i, j)) && Open(g, Site(i, j - 1));
      AdjacentJoined(g, lab, m, cr, Site(i, j), Site(i, j - 1), v);
    }
  }

  /** A site next to one in v's class is connected to v's creator. */
  lemma AdjacentJoined(g: Grid, lab: Labels, m: LabelMap, cr: map<int, Site>, a: Site, nb: Site, v: int)
    requires Open(g, a) && Open(g, nb) && Adjacent(a, nb)
    requires JoinedAt(g, lab, m, cr, nb.row, nb.col) && RootAt(m, lab, nb.row, nb.col) == v
    requires nb == Site(nb.row, nb.col)
    ensures v in cr && Connected(g, a, cr[v])
  {
    ConnectedAdjacent(g, a, nb);
    ConnectedTrans(g, a, nb, cr[v]);
  }

  lemma JoinJoinedAt(g: Grid, lab: Labels, m: LabelMap, cur: int, cr: map<int, Site>, i: int, j: int, p: int, q: int, r: int, c: int)
    requires JoinCase(g, lab, m, cur, i, j, p, q) && Joined(g, lab, m, cr)
    requires p in cr && q in cr && Connected(g, Site(i, j), cr[p]) && Connected(g, Site(i, j), cr[q])
    requires 0 <= r < |g| && 0 <= c < |g| && SetAt(lab, i, j, p)[r][c] != 0
    ensures JoinedAt(g, SetAt(lab, i, j, p), JoinMap(m, p, q), cr, r, c)
  {
    JoinRootAt(g, lab, m, cur, i, j, p, q, r, c);
    if r != i || c != j {
      assert JoinedAt(g, lab, m, cr, r, c);
      if RootAt(m, lab, r, c) == q {
        ConnectedSym(g, Site(i, j), cr[q]);
        ConnectedTrans(g, Site(r, c), cr[q], Site(i, j));
        ConnectedTrans(g, Site(r, c), Site(i, j), cr[p]);
      }
    }
  }

  lemma JoinJoined(g: Grid, lab: Labels, m: LabelMap, cur: int, cr: map<int, Site>, i: int, j: int, p: int, q: int)
    requires JoinCase(g, lab, m, cur, i, j, p, q) && Joined(g, lab, m, cr)
    ensures Joined(g, SetAt(lab, i, j, p), JoinMap(m, p, q), cr)
  {
    NeighbourJoined(g, lab, m, cur, cr, i, j, p);
    NeighbourJoined(g, lab, m, cur, cr, i, j, q);
    forall r, c | 0 <= r < |g| && 0 <= c < |g| && SetAt(lab, i, j, p)[r][c] != 0
      ensures JoinedAt(g, SetAt(lab, i, j, p), JoinMap(m, p, q), cr, r, c)
    {
      JoinJoinedAt(g, lab, m, cur, cr, i, j, p, q, r, c);
    }
  }

  lemma JoinMembersMember(g: Grid, lab: Labels, m: LabelMap, cur: int, i: int, j: int, p: int, q: int, l: int, y: Site)
    requires JoinCase(g, lab, m, cur, i, j, p, q)
    ensures Site(i, j) !in Members(g, lab, m, l)
    ensures y in Members(g, SetAt(lab, i, j, p), JoinMap(m, p, q), l) <==>
      (y == Site(i, j) && l == p) ||
      (y in Members(g, lab, m, l) && (l != q || p == q)) ||
      (y in Members(g, lab, m, q) && l == p)
  {
    MembersMember(g, lab, m, l, Site(i, j));
    MembersMember(g, SetAt(lab, i, j, p), JoinMap(m, p, q), l, y);
    MembersMember(g, lab, m, l, y);
    MembersMember(g, lab, m, q, y);
    if InGrid(|g|, y) {
      JoinRootAt(g, lab, m, cur, i, j, p, q, y.row, y.col);
    }
  }

  lemma JoinMapAt(m: LabelMap, p: int, q: int, l: int)
    requires p in m && q in m && p <= q && l in m
    ensures l == p ==> JoinMap(m, p, q)[l] == m[p] + 1 + (if p != q then m[q] else 0)
    ensures l == q && p != q ==> JoinMap(m, p, q)[l] == -p
    ensures l != p && l != q ==> JoinMap(m, p, q)[l] == m[l]
  {
  }

  lemma UnionCard(A: set<Site>, B: set<Site>, C: set<Site>, x: Site)
    requires A * B == {} && x !in A && x !in B
    requires forall y :: y in C <==> y == x || y in A || y in B
    ensures |C| == |A| + |B| + 1
  {
    assert C == A + B + {x};
  }

  lemma JoinSizeAt(g: Grid, lab: Labels, m: LabelMap, cur: int, i: int, j: int, p: int, q: int, l: int)
    requires JoinCase(g, lab, m, cur, i, j, p, q) && SizesCount(g, lab, m)
    requires l in m && JoinMap(m, p, q)[l] > 0
    ensures JoinMap(m, p, q)[l] == |Members(g, SetAt(lab, i, j, p), JoinMap(m, p, q), l)|
  {
    var m', lab' := JoinMap(m, p, q), SetAt(lab, i, j, p);
    var x := Site(i, j);
    var A, B := Members(g, lab, m, l), Members(g, lab, m, q);
    var C := Members(g, lab', m', l);
    JoinMapAt(m, p, q, l);
    JoinMembersMember(g, lab, m, cur, i, j, p, q, q, x);
    if l == p && p != q {
      forall y ensures y in C <==> y == x || y in A || y in B {
        JoinMembersMember(g, lab, m, cur, i, j, p, q, l, y);
      }
      forall y | y in A * B ensures false {
        MembersMember(g, lab, m, l, y);
        MembersMember(g, lab, m, q, y);
      }
      UnionCard(A, B, C, x);
    } else if l == p {
      forall y ensures y in C <==> y == x || y in A || y in {} {
        JoinMembersMember(g, lab, m, cur, i, j, p, q, l, y);
      }
      UnionCard(A, {}, C, x);
    } else {
      forall y ensures y in C <==> y in A {
        JoinMembersMember(g, lab, m, cur, i, j, p, q, l, y);
      }
      assert C == A;
    }
  }

  lemma JoinSizes(g: Grid, lab: Labels, m: LabelMap, cur: int, i: int, j: int, p: int, q: int)
    requires JoinCase(g, lab, m, cur, i, j, p, q) && SizesCount(g, lab, m)
    ensures Valid(JoinMap(m, p, q))
    ensures SizesCount(g, SetAt(lab, i, j, p), JoinMap(m, p, q))
  {
    JoinValid(m, p, q);
    forall l | l in JoinMap(m, p, q) && JoinMap(m, p, q)[l] > 0
      ensures JoinMap(m, p, q)[l] == |Members(g, SetAt(lab, i, j, p), JoinMap(m, p, q), l)|
    {
      JoinSizeAt(g, lab, m, cur, i, j, p, q, l);
    }
  }

  lemma JoinSum(m: LabelMap, cur: int, p: int, q: int)
    requires Valid(m) && KeysBelow(m, cur) && p in m && m[p] > 0 && q in m && m[q] > 0 && p <= q
    ensures PosSum(JoinMap(m, p, q), 2, cur) == PosSum(m, 2, cur) + 1
  {
    var m1 := m[p := m[p] + 1];
    PosSumUpdate(m, 2, cur, p, m[p] + 1);
    if p != q {
      MergeKeepsSum(m1, 2, cur, p, q);
      assert JoinMap(m, p, q) == Merge(m1, p, q);
    } else {
      assert JoinMap(m, p, q) == m1;
    }
  }

  /** Joining root p, and merging q into it, keeps the invariant. */
  lemma JoinStep(g: Grid, lab: Labels, m: LabelMap, cur: int, cr: map<int, Site>, i: int, j: int, p: int, q: int,
                 lab': Labels, m': LabelMap)
    requires ScanInv(g, lab, m, cur, cr, Site(i, j)) && JoinCase(g, lab, m, cur, i, j, p, q)
    requires lab' == SetAt(lab, i, j, p) && m' == JoinMap(m, p, q)
    ensures ScanInv(g, lab', m', cur, cr, Site(i, j + 1))
  {
    JoinBase(g, lab, m, cur, i, j, p, q);
    JoinAgreed(g, lab, m, cur, i, j, p, q);
    JoinCreators(g, lab, m, cur, cr, i, j, p, q);
    JoinJoined(g, lab, m, cur, cr, i, j, p, q);
    JoinSizes(g, lab, m, cur, i, j, p, q);
    JoinSum(m, cur, p, q);
    OpenBeforeNext(g, i, j);
  }

  // ----- What the finished scan gives -----

  /** The invariant once every site has been scanned. */
  ghost predicate Finished(g: Grid, lab: Labels, m: LabelMap, cur: int, cr: map<int, Site>) {
    ScanInv(g, lab, m, cur, cr, Site(|g|, 0))
  }

  /** The root of the label at a site. */
  ghost function RootOfSite(m: LabelMap, lab: Labels, y: Site): int {
    RootAt(m, lab, y.row, y.col)
  }

  /** Every occupied site is labelled, with a label in the map. */
  lemma FinishedLabelled(g: Grid, lab: Labels, m: LabelMap, cur: int, cr: map<int, Site>, y: Site)
    requires Finished(g, lab, m, cur, cr) && InGrid(|g|, y)
    ensures lab[y.row][y.col] != 0 <==> Open(g, y)
    ensures Open(g, y) ==> lab[y.row][y.col] in m && RootOfSite(m, lab, y) in m && m[RootOfSite(m, lab, y)] > 0
  {
  }

  lemma AdjacentSameRoot(g: Grid, lab: Labels, m: LabelMap, a: Site, b: Site)
    requires Shaped(g, lab) && Agreed(g, lab, m, Site(|g|, 0))
    requires Open(g, a) && Open(g, b) && Adjacent(a, b)
    ensures RootOfSite(m, lab, a) == RootOfSite(m, lab, b)
  {
    if a.row < b.row || (a.row == b.row && a.col < b.col) {
      assert AgreeAt(g, lab, m, b.row, b.col);
    } else {
      assert AgreeAt(g, lab, m, a.row, a.col);
    }
  }

  lemma {:induction false} PathSameRoot(g: Grid, lab: Labels, m: LabelMap, p: seq<Site>, k: nat)
    requires Shaped(g, lab) && Agreed(g, lab, m, Site(|g|, 0)) && IsPath(g, p) && k < |p|
    ensures RootOfSite(m, lab, p[k]) == RootOfSite(m, lab, p[0])
  {
    if k > 0 {
      PathSameRoot(g, lab, m, p, k - 1);
      AdjacentSameRoot(g, lab, m, p[k - 1], p[k]);
    }
  }

  /** Connected sites share a root. */
  lemma ConnectedSameRoot(g: Grid, lab: Labels, m: LabelMap, a: Site, b: Site)
    requires Shaped(g, lab) && Agreed(g, lab, m, Site(|g|, 0)) && Connected(g, a, b)
    ensures RootOfSite(m, lab, a) == RootOfSite(m, lab, b)
  {
    var p :| IsPath(g, p) && p[0] == a && p[|p| - 1] == b;
    PathSameRoot(g, lab, m, p, |p| - 1);
  }

  /** An occupied site is connected to the creator of its root. */
  lemma JoinedToCreator(g: Grid, lab: Labels, m: LabelMap, cur: int, cr: map<int, Site>, a: Site)
    requires Finished(g, lab, m, cur, cr) && Open(g, a)
    ensures RootOfSite(m, lab, a) in cr && Connected(g, a, cr[RootOfSite(m, lab, a)])
  {
    assert JoinedAt(g, lab, m, cr, a.row, a.col);
  }

  /** Occupied sites with the same root are connected. */
  lemma SameRootConnected(g: Grid, lab: Labels, m: LabelMap, cur: int, cr: map<int, Site>, a: Site, b: Site)
    requires Finished(g, lab, m, cur, cr) && Open(g, a) && Open(g, b)
    requires RootOfSite(m, lab, a) == RootOfSite(m, lab, b)
    ensures Connected(g, a, b)
  {
    JoinedToCreator(g, lab, m, cur, cr, a);
    JoinedToCreator(g, lab, m, cur, cr, b);
    var c := cr[RootOfSite(m, lab, a)];
    ConnectedSym(g, b, c);
    ConnectedTrans(g, a, c, b);
  }

  /** The creator of a root carries that root. */
  lemma CreatorOfRoot(g: Grid, lab: Labels, m: LabelMap, cur: int, cr: map<int, Site>, l: int)
    requires Finished(g, lab, m, cur, cr) && l in m && m[l] > 0
    ensures l in cr && Open(g, cr[l]) && lab[cr[l].row][cr[l].col] == l && RootOfSite(m, lab, cr[l]) == l
  {
    var y := cr[l];
    assert lab[y.row][y.col] == l;
  }

  /** The sites under a root form the cluster of its creator. */
  lemma MembersComponent(g: Grid, lab: Labels, m: LabelMap, cur: int, cr: map<int, Site>, l: int)
    requires Finished(g, lab, m, cur, cr) && l in m && m[l] > 0
    ensures l in cr && Members(g, lab, m, l) == Component(g, cr[l])
  {
    CreatorOfRoot(g, lab, m, cur, cr, l);
    var c := cr[l];
    forall y ensures y in Members(g, lab, m, l) <==> y in Component(g, c) {
      MembersMember(g, lab, m, l, y);
      ComponentMember(g, c, y);
      if y in Members(g, lab, m, l) {
        SameRootConnected(g, lab, m, cur, cr, c, y);
      }
      if Connected(g, c, y) {
        ConnectedOpen(g, c, y);
        ConnectedSameRoot(g, lab, m, c, y);
      }
    }
  }

  /** The creator of a root is the row-major-first site of its cluster. */
  lemma CreatorLeader(g: Grid, lab: Labels, m: LabelMap, cur: int, cr: map<int, Site>, l: int)
    requires Finished(g, lab, m, cur, cr) && l in m && m[l] > 0
    ensures l in cr && Leader(g, cr[l])
  {
    CreatorOfRoot(g, lab, m, cur, cr, l);
    var c := cr[l];
    forall b | Connected(g, c, b)
      ensures !Before(b, c)
    {
      ConnectedOpen(g, c, b);
      ConnectedSameRoot(g, lab, m, c, b);
      var lb := lab[b.row][b.col];
      assert lb in m && Root(m, lb) == l;
      assert !Before(b, cr[lb]);
      assert l == lb || Before(c, cr[lb]);
    }
  }

  /** Every leader is the creator of its root. */
  lemma LeaderIsCreator(g: Grid, lab: Labels, m: LabelMap, cur: int, cr: map<int, Site>, a: Site)
    requires Finished(g, lab, m, cur, cr) && Leader(g, a)
    ensures RootOfSite(m, lab, a) in m && m[RootOfSite(m, lab, a)] > 0
    ensures RootOfSite(m, lab, a) in cr && a == cr[RootOfSite(m, lab, a)]
  {
    var l := RootOfSite(m, lab, a);
    FinishedLabelled(g, lab, m, cur, cr, a);
    JoinedToCreator(g, lab, m, cur, cr, a);
    CreatorLeader(g, lab, m, cur, cr, l);
    var c := cr[l];
    ConnectedSym(g, a, c);
    assert !Before(c, a) && !Before(a, c);
  }

  /** The roots whose entry is s. */
  ghost function RootsOfSize(m: LabelMap, s: int): set<int> {
    set l | l in m && m[l] > 0 && m[l] == s
  }

  /** The sites of a set of labels under a map, one per label. */
  ghost function Image(S: set<int>, cr: map<int, Site>): set<Site> {
    set l | l in S && l in cr :: cr[l]
  }

  lemma {:induction false} ImageCard(S: set<int>, cr: map<int, Site>)
    requires forall l :: l in S ==> l in cr
    requires forall l1, l2 :: l1 in S && l2 in S && cr[l1] == cr[l2] ==> l1 == l2
    ensures |Image(S, cr)| == |S|
    decreases |S|
  {
    if |S| > 0 {
      HasElement(S);
      var x :| x in S;
      var S' := S - {x};
      ImageCard(S', cr);
      assert Image(S, cr) == Image(S', cr) + {cr[x]};
      assert cr[x] !in Image(S', cr);
    }
  }

  /** The leaders of the clusters of size s are the creators of the roots
      of entry s. */
  lemma LeadersAreCreators(g: Grid, lab: Labels, m: LabelMap, cur: int, cr: map<int, Site>, s: int)
    requires Finished(g, lab, m, cur, cr) && s > 0
    ensures LeadersOfSize(g, s) == Image(RootsOfSize(m, s), cr)
  {
    forall a ensures a in LeadersOfSize(g, s) <==> a in Image(RootsOfSize(m, s), cr) {
      LeadersOfSizeMember(g, s, a);
      if a in LeadersOfSize(g, s) {
        LeaderIsCreator(g, lab, m, cur, cr, a);
        var l := RootOfSite(m, lab, a);
        MembersComponent(g, lab, m, cur, cr, l);
        assert l in RootsOfSize(m, s);
      }
      if a in Image(RootsOfSize(m, s), cr) {
        var l :| l in RootsOfSize(m, s) && l in cr && cr[l] == a;
        CreatorLeader(g, lab, m, cur, cr, l);
        MembersComponent(g, lab, m, cur, cr, l);
      }
    }
  }

  /** The number of clusters of size s is the number of roots of entry s. */
  lemma ClustersAreRoots(g: Grid, lab: Labels, m: LabelMap, cur: int, cr: map<int, Site>, s: int)
    requires Finished(g, lab, m, cur, cr) && s > 0
    ensures NumClusters(g, s) == |RootsOfSize(m, s)|
  {
    LeadersAreCreators(g, lab, m, cur, cr, s);
    forall l1, l2 | l1 in RootsOfSize(m, s) && l2 in RootsOfSize(m, s) && cr[l1] == cr[l2]
      ensures l1 == l2
    {
      CreatorOfRoot(g, lab, m, cur, cr, l1);
      CreatorOfRoot(g, lab, m, cur, cr, l2);
    }
    ImageCard(RootsOfSize(m, s), cr);
  }
}
