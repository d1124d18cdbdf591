/** What both cluster labelers of the analyses share: what they promise
    about their label grid, the top and left neighbours their scans look
    at, the rewriting of every label through a map, and the count of the
    cells holding each value of a grid. */
module Labelling {
  import opened Lattice
  import opened Mirror

  /** Exactly the occupied sites carry a label, and every label is at
      least `least`. */
  ghost predicate MarksOccupied(g: Grid, lab: Labels, least: int) {
    IsGrid(lab, |g|) &&
    forall a :: InGrid(|g|, a) ==>
      (lab[a.row][a.col] != 0 <==> Open(g, a)) && (lab[a.row][a.col] != 0 ==> least <= lab[a.row][a.col])
  }

  /** Sites carrying the same label belong to one cluster. */
  ghost predicate SameLabelConnected(g: Grid, lab: Labels) {
    IsGrid(lab, |g|) &&
    forall a, b ::
      (InGrid(|g|, a) && InGrid(|g|, b) && lab[a.row][a.col] != 0 && lab[a.row][a.col] == lab[b.row][b.col]) ==>
        Connected(g, a, b)
  }

  /** Occupied sites carry the same label exactly when they belong to one
      cluster: the labels name the clusters. */
  ghost predicate LabelsNameClusters(g: Grid, lab: Labels) {
    IsGrid(lab, |g|) &&
    forall a, b :: InGrid(|g|, a) && InGrid(|g|, b) && Open(g, a) && Open(g, b) ==>
      (lab[a.row][a.col] == lab[b.row][b.col] <==> Connected(g, a, b))
  }

  // ----- The neighbours both scans look at -----

  /** Python's min over a non-empty list. */
  function MinOf(s: seq<int>): (r: int)
    requires |s| > 0
    ensures r in s && forall x :: x in s ==> r <= x
  {
    if |s| == 1 then s[0]
    else
      assert s == [s[0]] + s[1..];
      var t := MinOf(s[1..]); if s[0] <= t then s[0] else t
  }

  /** The labels of the labelled top and left neighbours of (i, j), in the
      order the scan collects them. */
  ghost function NeighbourLabels(lab: Labels, i: int, j: int): seq<int>
    requires 0 <= i < |lab| && 0 <= j < |lab[i]| && IsGrid(lab, |lab|)
  {
    (if i > 0 && lab[i - 1][j] > 0 then [lab[i - 1][j]] else []) +
    (if j > 0 && lab[i][j - 1] > 0 then [lab[i][j - 1]] else [])
  }

  /** The entry of the list other than p, or p when there is none. */
  function OtherRoot(rs: seq<int>, p: int): int
    requires |rs| > 0
  {
    if rs[0] != p then rs[0] else rs[|rs| - 1]
  }

  /** neighbors: the positive labels of the top and left neighbours. */
  method LabelledNeighbours(labels: array2<int>, i: int, j: int, ghost lab: Labels) returns (neighbours: seq<int>)
    requires Mirrors(labels, lab) && IsGrid(lab, |lab|) && 0 <= i < |lab| && 0 <= j < |lab|
    ensures neighbours == NeighbourLabels(lab, i, j)
  {
    assert |lab[i]| == labels.Length1 == |lab|;
    neighbours := [];
    if i > 0 && labels[i - 1, j] > 0 {
      neighbours := neighbours + [labels[i - 1, j]];
    }
    if j > 0 && labels[i, j - 1] > 0 {
      neighbours := neighbours + [labels[i, j - 1]];
    }
  }

  // ----- Rewriting every label through a map -----

  /** Every positive label is a key of f. */
  ghost predicate LabelsIn(f: map<int, int>, lab: Labels) {
    forall r, c :: 0 <= r < |lab| && 0 <= c < |lab[r]| && lab[r][c] > 0 ==> lab[r][c] in f
  }

  /** The entry at (r, c) once rewritten: a positive label l becomes f[l],
      and anything else stays. */
  ghost function RelabelledAt(f: map<int, int>, lab: Labels, r: int, c: int): int
    requires LabelsIn(f, lab) && 0 <= r < |lab| && 0 <= c < |lab[r]|
  {
    if lab[r][c] > 0 then f[lab[r][c]] else lab[r][c]
  }

  /** The labels after every site has been rewritten. */
  ghost function Relabelled(f: map<int, int>, lab: Labels): (res: Labels)
    requires LabelsIn(f, lab)
    ensures |res| == |lab| && forall r :: 0 <= r < |lab| ==> |res[r]| == |lab[r]|
    ensures forall r, c :: 0 <= r < |lab| && 0 <= c < |lab[r]| ==> res[r][c] == RelabelledAt(f, lab, r, c)
  {
    seq(|lab|, r requires 0 <= r < |lab| =>
      seq(|lab[r]|, c requires 0 <= c < |lab[r]| => RelabelledAt(f, lab, r, c)))
  }

  /** The sites before p are rewritten and the others untouched. */
  ghost predicate RelabelledBefore(f: map<int, int>, lab0: Labels, lab: Labels, p: Site)
    requires LabelsIn(f, lab0) && IsGrid(lab0, |lab0|)
  {
    IsGrid(lab, |lab0|) &&
    forall r, c :: 0 <= r < |lab0| && 0 <= c < |lab0| ==>
      lab[r][c] == if Before(Site(r, c), p) then RelabelledAt(f, lab0, r, c) else lab0[r][c]
  }

  lemma RelabelStep(f: map<int, int>, lab0: Labels, lab: Labels, lab': Labels, i: int, j: int)
    requires LabelsIn(f, lab0) && IsGrid(lab0, |lab0|)
    requires 0 <= i < |lab0| && 0 <= j < |lab0| && RelabelledBefore(f, lab0, lab, Site(i, j))
    requires lab' == if lab0[i][j] > 0 then SetAt(lab, i, j, f[lab0[i][j]]) else lab
    ensures RelabelledBefore(f, lab0, lab', Site(i, j + 1))
  {
  }

  lemma RelabelRowEnd(f: map<int, int>, lab0: Labels, lab: Labels, i: int)
    requires LabelsIn(f, lab0) && IsGrid(lab0, |lab0|)
    requires RelabelledBefore(f, lab0, lab, Site(i, |lab0|))
    ensures RelabelledBefore(f, lab0, lab, Site(i + 1, 0))
  {
  }

  lemma RelabelDone(f: map<int, int>, lab0: Labels, lab: Labels)
    requires LabelsIn(f, lab0) && IsGrid(lab0, |lab0|)
    requires RelabelledBefore(f, lab0, lab, Site(|lab0|, 0))
    ensures lab == Relabelled(f, lab0)
  {
    var res := Relabelled(f, lab0);
    forall r | 0 <= r < |lab0| ensures lab[r] == res[r] {
    }
  }

  // ----- Counting the cells of a grid -----

  /** numpy's flatten: the rows one after another. */
  function Flatten(m: Labels): seq<int> {
    if m == [] then [] else Flatten(m[..|m| - 1]) + m[|m| - 1]
  }

  /** labels.flatten(): the entries of the array, row after row. */
  method FlattenLabels(labels: array2<int>, ghost lab: Labels) returns (flat: seq<int>)
    requires Mirrors(labels, lab)
    ensures flat == Flatten(lab)
  {
    flat := [];
    for i := 0 to labels.Length0
      invariant flat == Flatten(lab[..i])
    {
      assert lab[..i + 1][..i] == lab[..i];
      ghost var row := flat;
      for j := 0 to labels.Length1
        invariant flat == row + lab[i][..j]
      {
        assert lab[i][..j + 1] == lab[i][..j] + [labels[i, j]];
        flat := flat + [labels[i, j]];
      }
      assert lab[i][..labels.Length1] == lab[i];
    }
    assert lab[..labels.Length0] == lab;
  }

  /** The cells of row r of a grid holding v, when that row is `row`. */
  ghost function RowCells(row: seq<int>, r: int, v: int): set<Site> {
    set c | 0 <= c < |row| && row[c] == v :: Site(r, c)
  }

  /** The cells of the grid holding v. */
  ghost function CellsWith(m: Labels, v: int): set<Site> {
    set r, c | 0 <= r < |m| && 0 <= c < |m[r]| && m[r][c] == v :: Site(r, c)
  }

  lemma {:induction false} RowCount(row: seq<int>, r: int, v: int)
    ensures |RowCells(row, r, v)| == multiset(row)[v]
  {
    if row != [] {
      var k := |row| - 1;
      var row' := row[..k];
      RowCount(row', r, v);
      assert row == row' + [row[k]];
      assert multiset(row) == multiset(row') + multiset{row[k]};
      if row[k] == v {
        assert RowCells(row, r, v) == RowCells(row', r, v) + {Site(r, k)};
        assert Site(r, k) !in RowCells(row', r, v);
      } else {
        assert RowCells(row, r, v) == RowCells(row', r, v);
      }
    } else {
      assert RowCells(row, r, v) == {};
    }
  }

  /** The flattened grid holds each value once per cell holding it. */
  lemma {:induction false} FlattenCount(m: Labels, v: int)
    ensures multiset(Flatten(m))[v] == |CellsWith(m, v)|
  {
    if m != [] {
      var k := |m| - 1;
      var m' := m[..k];
      FlattenCount(m', v);
      RowCount(m[k], k, v);
      assert multiset(Flatten(m)) == multiset(Flatten(m')) + multiset(m[k]);
      var A, B := CellsWith(m', v), RowCells(m[k], k, v);
      assert CellsWith(m, v) == A + B by {
        forall s | s in CellsWith(m, v) ensures s in A + B {
          if s.row < k {
            assert m[s.row] == m'[s.row];
          }
        }
      }
      assert A * B == {};
    } else {
      assert CellsWith(m, v) == {};
    }
  }

  /** A grid of n columns per row flattens to |m| * n values. */
  lemma {:induction false} FlattenLength(m: Labels, n: int)
    requires forall r :: 0 <= r < |m| ==> |m[r]| == n
    ensures |Flatten(m)| == |m| * n
  {
    if m != [] {
      FlattenLength(m[..|m| - 1], n);
      assert |m| * n == (|m| - 1) * n + n;
    }
  }

  /** Every flattened value is one of the grid's. */
  lemma {:induction false} FlattenBounded(m: Labels, lo: int, hi: int)
    requires forall r, c :: 0 <= r < |m| && 0 <= c < |m[r]| ==> lo <= m[r][c] < hi
    ensures forall k :: 0 <= k < |Flatten(m)| ==> lo <= Flatten(m)[k] < hi
  {
    if m != [] {
      FlattenBounded(m[..|m| - 1], lo, hi);
    }
  }
}
