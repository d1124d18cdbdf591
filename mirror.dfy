/** Two-dimensional arrays written in place, and the ghost values that
    follow them in proofs.

    The analyses keep their label and visited grids in numpy arrays that
    they update cell by cell. The methods here keep those arrays as Dafny
    arrays; a ghost grid `m` holding the same entries lets the invariants be
    stated over plain values. */
module Mirror {

  type Values<T> = seq<seq<T>>

  /** Every row of `m` has `n` entries and there are `n` rows. */
  predicate IsGrid<T>(m: Values<T>, n: int) {
    |m| == n && forall r :: 0 <= r < |m| ==> |m[r]| == n
  }

  /** The array holds exactly the entries of `m`. */
  ghost predicate Mirrors<T>(a: array2<T>, m: Values<T>)
    reads a
  {
    a.Length0 == |m| &&
    (forall r :: 0 <= r < |m| ==> |m[r]| == a.Length1) &&
    forall r, c :: 0 <= r < a.Length0 && 0 <= c < a.Length1 ==> a[r, c] == m[r][c]
  }

  /** The entries of the array, as a value. */
  ghost function Snapshot<T>(a: array2<T>): (m: Values<T>)
    reads a
    ensures Mirrors(a, m) && |m| == a.Length0
  {
    seq(a.Length0, r requires 0 <= r < a.Length0 reads a =>
      seq(a.Length1, c requires 0 <= c < a.Length1 reads a => a[r, c]))
  }

  /** An array has one mirror: its snapshot. */
  lemma SnapshotOf<T>(a: array2<T>, m: Values<T>)
    requires Mirrors(a, m)
    ensures Snapshot(a) == m
  {
    var s := Snapshot(a);
    forall r | 0 <= r < |m| ensures s[r] == m[r] {
      assert |s[r]| == |m[r]|;
    }
  }

  /** `m` with entry (r, c) replaced by v. */
  function SetAt<T>(m: Values<T>, r: int, c: int, v: T): (m': Values<T>)
    requires 0 <= r < |m| && 0 <= c < |m[r]|
    ensures |m'| == |m| && forall r' :: 0 <= r' < |m| ==> |m'[r']| == |m[r']|
    ensures m'[r][c] == v
    ensures forall r', c' :: 0 <= r' < |m| && 0 <= c' < |m[r']| && (r' != r || c' != c) ==> m'[r'][c'] == m[r'][c']
  {
    m[r := m[r][c := v]]
  }

  /** A grid of n x n copies of v. */
  function Filled<T>(n: nat, v: T): (m: Values<T>)
    ensures IsGrid(m, n) && forall r, c :: 0 <= r < n && 0 <= c < n ==> m[r][c] == v
  {
    seq(n, r => seq(n, c => v))
  }

  /** Writes v at (r, c) of the array, keeping the mirror in step. */
  method SetSite<T>(a: array2<T>, r: int, c: int, v: T, ghost m: Values<T>) returns (ghost m': Values<T>)
    requires Mirrors(a, m) && 0 <= r < a.Length0 && 0 <= c < a.Length1
    modifies a
    ensures m' == SetAt(m, r, c, v) && Mirrors(a, m')
  {
    a[r, c] := v;
    m' := SetAt(m, r, c, v);
  }

  /** The number of entries equal to x in a row, and in a grid. */
  function CountIn<T(==)>(row: seq<T>, x: T): (n: nat)
    ensures n <= |row|
  {
    if row == [] then 0 else (if row[0] == x then 1 else 0) + CountIn(row[1..], x)
  }

  function CountInGrid<T(==)>(m: Values<T>, x: T): nat {
    if m == [] then 0 else CountIn(m[0], x) + CountInGrid(m[1..], x)
  }

  lemma {:induction false} CountInReplace<T>(row: seq<T>, c: int, x: T, v: T)
    requires 0 <= c < |row| && row[c] == x && v != x
    ensures CountIn(row[c := v], x) == CountIn(row, x) - 1
  {
    if c > 0 {
      assert row[c := v][1..] == row[1..][c - 1 := v];
      CountInReplace(row[1..], c - 1, x, v);
    } else {
      assert row[c := v][1..] == row[1..];
    }
  }

  /** Replacing one entry equal to x leaves one fewer. */
  lemma {:induction false} CountInGridReplace<T>(m: Values<T>, r: int, c: int, x: T, v: T)
    requires 0 <= r < |m| && 0 <= c < |m[r]| && m[r][c] == x && v != x
    ensures CountInGrid(SetAt(m, r, c, v), x) == CountInGrid(m, x) - 1
  {
    if r > 0 {
      assert SetAt(m, r, c, v)[1..] == SetAt(m[1..], r - 1, c, v);
      CountInGridReplace(m[1..], r - 1, c, x, v);
    } else {
      assert SetAt(m, r, c, v)[1..] == m[1..];
      CountInReplace(m[0], c, x, v);
    }
  }
}
