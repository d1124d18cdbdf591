/** Square occupancy lattices, 4-neighbour connectivity and clusters.

    A lattice is an L x L grid of integers; a site is occupied exactly when its
    value is 1 (the analyses compare against 1). Connectivity, spanning and
    clusters are defined here as plain reachability so that the two burning
    methods and the two Hoshen-Kopelman labelers can be proved against them. */
module Lattice {
  import opened Mirror

  type Grid = seq<seq<int>>

  datatype Site = Site(row: int, col: int)

  /** numpy's `lattice.shape[0]` is the side; every row has that many columns. */
  predicate IsSquare(g: Grid) {
    forall r :: 0 <= r < |g| ==> |g[r]| == |g|
  }

  predicate InGrid(n: int, s: Site) {
    0 <= s.row < n && 0 <= s.col < n
  }

  /** A grid of labels, one per site. */
  type Labels = Values<int>

  /** A value grid with the lattice's shape. */
  ghost predicate Shaped<T>(g: Grid, m: Values<T>) {
    IsSquare(g) && IsGrid(m, |g|)
  }

  /** An occupied site: inside the lattice and holding the value 1. */
  predicate Open(g: Grid, s: Site) {
    0 <= s.row < |g| && 0 <= s.col < |g[s.row]| && g[s.row][s.col] == 1
  }

  /** The four neighbours (up, down, left, right) of a site. */
  predicate Adjacent(a: Site, b: Site) {
    (a.row == b.row && (a.col == b.col + 1 || b.col == a.col + 1)) ||
    (a.col == b.col && (a.row == b.row + 1 || b.row == a.row + 1))
  }

  /** The neighbour list both burning methods iterate: up, down, left, right. */
  function Neighbours(s: Site): (ns: seq<Site>)
    ensures |ns| == 4 && forall k :: 0 <= k < 4 ==> Adjacent(s, ns[k])
    ensures forall b :: Adjacent(s, b) ==> b in ns
  {
    [Site(s.row - 1, s.col), Site(s.row + 1, s.col), Site(s.row, s.col - 1), Site(s.row, s.col + 1)]
  }

  /** Strictly earlier in the row-major scan order of both labelers. */
  predicate Before(a: Site, b: Site) {
    a.row < b.row || (a.row == b.row && a.col < b.col)
  }

  /** All sites of an n x n lattice. */
  function Cells(n: nat): set<Site> {
    set r, c | 0 <= r < n && 0 <= c < n :: Site(r, c)
  }

  lemma CellsMember(n: nat, s: Site)
    ensures s in Cells(n) <==> InGrid(n, s)
  {
    if InGrid(n, s) {
      assert s == Site(s.row, s.col);
    }
  }

  /** The occupied sites strictly before site `s` in row-major order. */
  function OpenBefore(g: Grid, s: Site): set<Site>
    requires IsSquare(g)
  {
    set r, c | 0 <= r < |g| && 0 <= c < |g| && Before(Site(r, c), s) && g[r][c] == 1 :: Site(r, c)
  }

  lemma OpenBeforeMember(g: Grid, s: Site, x: Site)
    requires IsSquare(g)
    ensures x in OpenBefore(g, s) <==> Open(g, x) && Before(x, s)
  {
    if Open(g, x) && Before(x, s) {
      assert x == Site(x.row, x.col);
    }
  }

  /** Scanning one more site in a row adds it to the scanned set iff occupied. */
  lemma OpenBeforeNext(g: Grid, i: int, j: int)
    requires IsSquare(g) && 0 <= i < |g| && 0 <= j < |g|
    ensures OpenBefore(g, Site(i, j + 1)) ==
            OpenBefore(g, Site(i, j)) + (if g[i][j] == 1 then {Site(i, j)} else {})
    ensures Site(i, j) !in OpenBefore(g, Site(i, j))
  {
    var A, B := OpenBefore(g, Site(i, j + 1)), OpenBefore(g, Site(i, j));
    var C := B + (if g[i][j] == 1 then {Site(i, j)} else {});
    forall x | x in A ensures x in C { OpenBeforeMember(g, Site(i, j + 1), x); OpenBeforeMember(g, Site(i, j), x); }
    forall x | x in C ensures x in A { OpenBeforeMember(g, Site(i, j + 1), x); OpenBeforeMember(g, Site(i, j), x); }
  }

  /** The end of a row is the start of the next one. */
  lemma OpenBeforeRowEnd(g: Grid, i: int)
    requires IsSquare(g)
    ensures OpenBefore(g, Site(i, |g|)) == OpenBefore(g, Site(i + 1, 0))
  {
    var A, B := OpenBefore(g, Site(i, |g|)), OpenBefore(g, Site(i + 1, 0));
    forall x | x in A ensures x in B { OpenBeforeMember(g, Site(i, |g|), x); OpenBeforeMember(g, Site(i + 1, 0), x); }
    forall x | x in B ensures x in A { OpenBeforeMember(g, Site(i, |g|), x); OpenBeforeMember(g, Site(i + 1, 0), x); }
  }

  /** All occupied sites of the lattice. */
  function OpenSites(g: Grid): set<Site>
    requires IsSquare(g)
  {
    OpenBefore(g, Site(|g|, 0))
  }

  lemma OpenSitesMember(g: Grid, x: Site)
    requires IsSquare(g)
    ensures x in OpenSites(g) <==> Open(g, x)
  {
    OpenBeforeMember(g, Site(|g|, 0), x);
  }

  /** All sites of the lattice that are not occupied. */
  ghost function EmptySites(g: Grid): set<Site> {
    set r, c | 0 <= r < |g| && 0 <= c < |g| && !Open(g, Site(r, c)) :: Site(r, c)
  }

  /** A path: a non-empty sequence of occupied sites, consecutive ones adjacent. */
  ghost predicate IsPath(g: Grid, p: seq<Site>) {
    |p| > 0 &&
    (forall k :: 0 <= k < |p| ==> Open(g, p[k])) &&
    (forall k :: 0 <= k < |p| - 1 ==> Adjacent(p[k], p[k + 1]))
  }

  /** `a` and `b` are joined by a path of occupied 4-neighbours. */
  ghost predicate Connected(g: Grid, a: Site, b: Site) {
    exists p :: IsPath(g, p) && p[0] == a && p[|p| - 1] == b
  }

  /** Some occupied row-0 site is joined to `s`. */
  ghost predicate ReachedFromTop(g: Grid, s: Site) {
    exists a: Site :: a.row == 0 && Connected(g, a, s)
  }

  /** The lattice percolates: an occupied row-0 site is joined to a row-(L-1) site. */
  ghost predicate Spans(g: Grid) {
    exists b: Site :: b.row == |g| - 1 && ReachedFromTop(g, b)
  }

  lemma ConnectedOpen(g: Grid, a: Site, b: Site)
    requires Connected(g, a, b)
    ensures Open(g, a) && Open(g, b)
  {
    var p :| IsPath(g, p) && p[0] == a && p[|p| - 1] == b;
    assert Open(g, p[0]) && Open(g, p[|p| - 1]);
  }

  lemma ConnectedRefl(g: Grid, a: Site)
    requires Open(g, a)
    ensures Connected(g, a, a)
  {
    assert IsPath(g, [a]);
  }

  /** A path extends by one occupied neighbour of its end. */
  lemma ConnectedStep(g: Grid, a: Site, b: Site, c: Site)
    requires Connected(g, a, b) && Open(g, c) && Adjacent(b, c)
    ensures Connected(g, a, c)
  {
    var p :| IsPath(g, p) && p[0] == a && p[|p| - 1] == b;
    var q := p + [c];
    assert forall k :: 0 <= k < |p| ==> q[k] == p[k];
    assert IsPath(g, q);
  }

  function Reverse(p: seq<Site>): (r: seq<Site>)
    ensures |r| == |p|
    ensures forall k :: 0 <= k < |p| ==> r[k] == p[|p| - 1 - k]
  {
    if p == [] then [] else Reverse(p[1..]) + [p[0]]
  }

  lemma ConnectedSym(g: Grid, a: Site, b: Site)
    requires Connected(g, a, b)
    ensures Connected(g, b, a)
  {
    var p :| IsPath(g, p) && p[0] == a && p[|p| - 1] == b;
    var q := Reverse(p);
    forall k | 0 <= k < |q| - 1 ensures Adjacent(q[k], q[k + 1]) {
      assert q[k] == p[|p| - 1 - k] && q[k + 1] == p[|p| - 1 - k - 1];
      assert Adjacent(p[|p| - 2 - k], p[|p| - 2 - k + 1]);
    }
    assert IsPath(g, q);
  }

  lemma ConnectedTrans(g: Grid, a: Site, b: Site, c: Site)
    requires Connected(g, a, b) && Connected(g, b, c)
    ensures Connected(g, a, c)
  {
    var p :| IsPath(g, p) && p[0] == a && p[|p| - 1] == b;
    var q :| IsPath(g, q) && q[0] == b && q[|q| - 1] == c;
    var r := p + q[1..];
    assert forall k :: 0 <= k < |p| ==> r[k] == p[k];
    assert forall k :: |p| <= k < |r| ==> r[k] == q[k - |p| + 1];
    forall k | 0 <= k < |r| - 1 ensures Adjacent(r[k], r[k + 1]) {
      if k < |p| - 1 {
        assert Adjacent(p[k], p[k + 1]);
      } else {
        assert Adjacent(q[k - |p| + 1], q[k - |p| + 1 + 1]);
      }
    }
    assert IsPath(g, r);
  }

  /** The reach of the top row extends to occupied neighbours. */
  lemma ReachedStep(g: Grid, b: Site, c: Site)
    requires ReachedFromTop(g, b) && Open(g, c) && Adjacent(b, c)
    ensures ReachedFromTop(g, c)
  {
    var a: Site :| a.row == 0 && Connected(g, a, b);
    ConnectedStep(g, a, b, c);
  }

  /** Two occupied neighbours are connected. */
  lemma ConnectedAdjacent(g: Grid, a: Site, b: Site)
    requires Open(g, a) && Open(g, b) && Adjacent(a, b)
    ensures Connected(g, a, b)
  {
    ConnectedRefl(g, a);
    ConnectedStep(g, a, a, b);
  }

  /** A set of sites that holds every occupied neighbour of each of its members. */
  ghost predicate Closed(g: Grid, S: set<Site>) {
    forall x, y :: x in S && Open(g, y) && Adjacent(x, y) ==> y in S
  }

  lemma {:induction false} PathInClosed(g: Grid, S: set<Site>, p: seq<Site>, k: nat)
    requires Closed(g, S) && IsPath(g, p) && p[0] in S && k < |p|
    ensures p[k] in S
  {
    if k > 0 {
      PathInClosed(g, S, p, k - 1);
      assert Adjacent(p[k - 1], p[k - 1 + 1]) && Open(g, p[k]);
    }
  }

  /** Connectivity never leaves a closed set. */
  lemma ClosedKeepsConnected(g: Grid, S: set<Site>, a: Site, b: Site)
    requires Closed(g, S) && a in S && Connected(g, a, b)
    ensures b in S
  {
    var p :| IsPath(g, p) && p[0] == a && p[|p| - 1] == b;
    PathInClosed(g, S, p, |p| - 1);
  }

  /** A closed set holding every occupied top site and no bottom-row site
      witnesses that the lattice does not span. */
  lemma NoSpanningPast(g: Grid, S: set<Site>)
    requires Closed(g, S)
    requires forall a :: Open(g, a) && a.row == 0 ==> a in S
    requires forall x :: x in S ==> x.row != |g| - 1
    ensures !Spans(g)
  {
    if Spans(g) {
      var b: Site :| b.row == |g| - 1 && ReachedFromTop(g, b);
      var a: Site :| a.row == 0 && Connected(g, a, b);
      ConnectedOpen(g, a, b);
      ClosedKeepsConnected(g, S, a, b);
      assert false;
    }
  }

  /** The cluster of `a`: every site joined to it. */
  ghost function Component(g: Grid, a: Site): set<Site> {
    set r, c | 0 <= r < |g| && 0 <= c < |g| && Connected(g, a, Site(r, c)) :: Site(r, c)
  }

  lemma ComponentMember(g: Grid, a: Site, b: Site)
    requires IsSquare(g)
    ensures b in Component(g, a) <==> Connected(g, a, b)
  {
    if Connected(g, a, b) {
      ConnectedOpen(g, a, b);
      assert b == Site(b.row, b.col);
    }
  }

  /** The row-major-first site of its cluster: one leader per cluster. */
  ghost predicate Leader(g: Grid, a: Site) {
    Open(g, a) && forall b :: Connected(g, a, b) ==> !Before(b, a)
  }

  /** The leaders of the clusters with exactly `s` sites. */
  ghost function LeadersOfSize(g: Grid, s: int): set<Site> {
    set r, c | 0 <= r < |g| && 0 <= c < |g| && Leader(g, Site(r, c)) && |Component(g, Site(r, c))| == s :: Site(r, c)
  }

  lemma LeadersOfSizeMember(g: Grid, s: int, a: Site)
    requires IsSquare(g)
    ensures a in LeadersOfSize(g, s) <==> Leader(g, a) && |Component(g, a)| == s
  {
    if Leader(g, a) && |Component(g, a)| == s {
      assert a == Site(a.row, a.col);
    }
  }

  /** The number of clusters with exactly `s` sites. */
  ghost function NumClusters(g: Grid, s: int): nat {
    |LeadersOfSize(g, s)|
  }

  /** `s` is the size of a largest cluster (0 when there is none). */
  ghost predicate IsLargest(g: Grid, s: int) {
    (s == 0 || NumClusters(g, s) > 0) && forall t :: t > s ==> NumClusters(g, t) == 0
  }

  /** Every cluster holds at least its leader. */
  lemma NoEmptyClusters(g: Grid, s: int)
    requires IsSquare(g) && s <= 0
    ensures NumClusters(g, s) == 0
  {
    forall a | a in LeadersOfSize(g, s) ensures false {
      LeadersOfSizeMember(g, s, a);
      ConnectedRefl(g, a);
      ComponentMember(g, a, a);
    }
    assert LeadersOfSize(g, s) == {};
  }
}
