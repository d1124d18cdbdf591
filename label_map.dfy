/** The `label_map` dictionary of the Hoshen-Kopelman labeler in
    Percolation/percolation.py.

    Keys are the labels handed out so far (2, 3, ...). A positive value is
    the size of the cluster whose root is that label; a negative value -k
    redirects the label to label k, which is always a smaller label. */
module LabelMap {

  type LabelMap = map<int, int>

  /** Entries are nonzero, and a redirect points to a smaller label that is
      itself in the map. (The trigger keeps a redirect from firing the
      quantifier again on its target.) */
  ghost predicate Valid(m: LabelMap) {
    forall l {:trigger m[l]} :: l in m ==> 2 <= l && m[l] != 0 && (m[l] < 0 ==> -m[l] in m && -m[l] < l)
  }

  /** The label reached by following redirects: a label with a positive
      entry, no larger than the start. */
  ghost function Root(m: LabelMap, l: int): (r: int)
    requires Valid(m) && l in m
    ensures r in m && m[r] > 0 && r <= l
    decreases l
  {
    if m[l] > 0 then l else Root(m, -m[l])
  }

  /** find_root: follows redirects, without rewriting any entry. */
  method FindRoot(m: LabelMap, start: int) returns (root: int)
    requires Valid(m) && start in m
    ensures root == Root(m, start)
  {
    root := start;
    while m[root] < 0
      invariant root in m && Root(m, root) == Root(m, start)
      decreases root
    {
      root := -m[root];
    }
  }

  /** Every label's root, as a map. */
  ghost function RootMap(m: LabelMap): (f: map<int, int>)
    requires Valid(m)
    ensures f.Keys == m.Keys && forall l :: l in m ==> f[l] == Root(m, l)
  {
    map l | l in m :: Root(m, l)
  }

  /** A root is its own root, and the root of a root is itself. */
  lemma RootOfRoot(m: LabelMap, l: int)
    requires Valid(m) && l in m
    ensures Root(m, Root(m, l)) == Root(m, l)
  {
  }

  /** Entering a fresh label with size 1 keeps the map valid and changes
      no existing root. */
  lemma ValidAfterFresh(m: LabelMap, c: int)
    requires Valid(m) && c !in m && 2 <= c
    ensures Valid(m[c := 1])
  {
  }

  lemma {:induction false} RootAfterFresh(m: LabelMap, c: int, l: int)
    requires Valid(m) && Valid(m[c := 1]) && c !in m && l in m
    ensures Root(m[c := 1], l) == Root(m, l)
    decreases l
  {
    if m[l] < 0 {
      RootAfterFresh(m, c, -m[l]);
    }
  }

  /** Adding to the size held by a root keeps the map valid and changes no root. */
  lemma ValidAfterGrow(m: LabelMap, p: int, d: nat)
    requires Valid(m) && p in m && m[p] > 0
    ensures Valid(m[p := m[p] + d])
  {
  }

  lemma {:induction false} RootAfterGrow(m: LabelMap, p: int, d: nat, l: int)
    requires Valid(m) && p in m && m[p] > 0 && Valid(m[p := m[p] + d]) && l in m
    ensures Root(m[p := m[p] + d], l) == Root(m, l)
    decreases l
  {
    if m[l] < 0 {
      RootAfterGrow(m, p, d, -m[l]);
    }
  }

  /** The merge step of the labeler: the larger root q is redirected to
      the smaller root p, which takes over q's size. Exactly the labels
      whose root was q now reach p. */
  function Merge(m: LabelMap, p: int, q: int): LabelMap
    requires p in m && q in m
  {
    m[p := m[p] + m[q]][q := -p]
  }

  lemma ValidAfterMerge(m: LabelMap, p: int, q: int)
    requires Valid(m) && p in m && q in m && m[p] > 0 && m[q] > 0 && p < q
    ensures Valid(Merge(m, p, q))
  {
  }

  lemma {:induction false} RootAfterMerge(m: LabelMap, p: int, q: int, l: int)
    requires Valid(m) && p in m && q in m && m[p] > 0 && m[q] > 0 && p < q && l in m
    requires Valid(Merge(m, p, q))
    ensures Root(Merge(m, p, q), l) == if Root(m, l) == q then p else Root(m, l)
    decreases l
  {
    var m' := Merge(m, p, q);
    if l == q {
      assert m'[q] == -p && m'[p] > 0;
      assert Root(m', q) == Root(m', p) == p;
    } else if m[l] > 0 {
      assert m'[l] > 0;
    } else {
      assert l != p && m'[l] == m[l];
      RootAfterMerge(m, p, q, -m[l]);
    }
  }

  /** The sum of the positive entries of labels lo .. hi - 1. */
  function PosSum(m: LabelMap, lo: int, hi: int): int
    decreases hi - lo
  {
    if hi <= lo then 0 else PosSum(m, lo, hi - 1) + (if hi - 1 in m && m[hi - 1] > 0 then m[hi - 1] else 0)
  }

  /** Overwriting one entry inside the range changes the sum by the
      difference of the positive parts. */
  lemma {:induction false} PosSumUpdate(m: LabelMap, lo: int, hi: int, k: int, v: int)
    requires lo <= k < hi
    ensures PosSum(m[k := v], lo, hi) ==
      PosSum(m, lo, hi) - (if k in m && m[k] > 0 then m[k] else 0) + (if v > 0 then v else 0)
    decreases hi - lo
  {
    if k < hi - 1 {
      PosSumUpdate(m, lo, hi - 1, k, v);
    } else {
      PosSumFrame(m, lo, hi - 1, k, v);
    }
  }

  /** An entry outside the range does not count. */
  lemma {:induction false} PosSumFrame(m: LabelMap, lo: int, hi: int, k: int, v: int)
    requires hi <= k
    ensures PosSum(m[k := v], lo, hi) == PosSum(m, lo, hi)
    decreases hi - lo
  {
    if lo < hi {
      PosSumFrame(m, lo, hi - 1, k, v);
    }
  }

  /** A merge moves the absorbed size to the primary root and keeps the total. */
  lemma MergeKeepsSum(m: LabelMap, lo: int, hi: int, p: int, q: int)
    requires p in m && q in m && m[p] > 0 && m[q] > 0 && 0 < p && p != q
    requires lo <= p < hi && lo <= q < hi
    ensures PosSum(Merge(m, p, q), lo, hi) == PosSum(m, lo, hi)
  {
    PosSumUpdate(m, lo, hi, p, m[p] + m[q]);
    PosSumUpdate(m[p := m[p] + m[q]], lo, hi, q, -p);
  }
}
