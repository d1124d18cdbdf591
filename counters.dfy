/** Python's collections.Counter on integers, as the analyses use it: built
    from a sequence of values, merged with `update`, and asked for the
    largest key or value with `max`. */
module Counters {

  /** A Counter: value -> count. A missing key counts 0. */
  type Counter = map<int, int>

  datatype Option<T> = None | Some(value: T)

  function Get(c: Counter, k: int): int {
    if k in c then c[k] else 0
  }

  /** A non-empty set has an element to pick. */
  lemma HasElement(s: set<int>)
    requires |s| > 0
    ensures exists x :: x in s
  {
    if forall x :: x !in s {
      assert false;
    }
  }

  /** Counter(xs): each element's number of occurrences; the keys are
      exactly the elements. */
  method CounterOf(xs: seq<int>) returns (c: Counter)
    ensures forall v :: Get(c, v) == multiset(xs)[v]
    ensures forall v :: v in c <==> v in xs
  {
    c := map[];
    for k := 0 to |xs|
      invariant forall v :: Get(c, v) == multiset(xs[..k])[v]
      invariant forall v :: v in c <==> v in xs[..k]
    {
      assert xs[..k + 1] == xs[..k] + [xs[k]];
      c := c[xs[k] := Get(c, xs[k]) + 1];
    }
    assert xs[..|xs|] == xs;
  }

  /** a.update(b): counts add up key by key. */
  method Update(a: Counter, b: Counter) returns (c: Counter)
    ensures forall k :: Get(c, k) == Get(a, k) + Get(b, k)
    ensures c.Keys == a.Keys + b.Keys
  {
    c := a;
    var rest := b.Keys;
    while |rest| > 0
      invariant rest <= b.Keys
      invariant forall k :: Get(c, k) == Get(a, k) + (if k in b && k !in rest then b[k] else 0)
      invariant c.Keys == a.Keys + (b.Keys - rest)
      decreases rest
    {
      HasElement(rest);
      var k :| k in rest;
      c := c[k := b[k] + Get(c, k)];
      rest := rest - {k};
    }
  }

  /** max(c.keys()): None where Python raises on an empty Counter. */
  method MaxKey(c: Counter) returns (r: Option<int>)
    ensures r.None? <==> c == map[]
    ensures r.Some? ==> r.value in c && forall k :: k in c ==> k <= r.value
  {
    r := None;
    var rest := c.Keys;
    while |rest| > 0
      invariant rest <= c.Keys
      invariant r.None? <==> rest == c.Keys
      invariant r.Some? ==> r.value in c && forall k :: k in c && k !in rest ==> k <= r.value
      decreases rest
    {
      HasElement(rest);
      var k :| k in rest;
      if r.None? || k > r.value {
        r := Some(k);
      }
      rest := rest - {k};
    }
  }

  /** max(c.values()): None where Python raises on an empty Counter. */
  method MaxValue(c: Counter) returns (r: Option<int>)
    ensures r.None? <==> c == map[]
    ensures r.Some? ==> (exists k :: k in c && c[k] == r.value) && forall k :: k in c ==> c[k] <= r.value
  {
    r := None;
    var rest := c.Keys;
    while |rest| > 0
      invariant rest <= c.Keys
      invariant r.None? <==> rest == c.Keys
      invariant r.Some? ==> (exists k :: k in c && c[k] == r.value) && forall k :: k in c && k !in rest ==> c[k] <= r.value
      decreases rest
    {
      HasElement(rest);
      var k :| k in rest;
      if r.None? || c[k] > r.value {
        r := Some(c[k]);
      }
      rest := rest - {k};
    }
  }

  /** The counts of keys lo .. hi - 1 added up. */
  function RangeSum(c: Counter, lo: int, hi: int): int
    decreases hi - lo
  {
    if hi <= lo then 0 else RangeSum(c, lo, hi - 1) + Get(c, hi - 1)
  }

  /** The occurrences of lo .. hi - 1 in xs add up to |xs| when every
      element lies in that range. */
  lemma {:induction false} OccurrencesSum(xs: seq<int>, lo: int, hi: int)
    requires lo <= hi && forall k :: 0 <= k < |xs| ==> lo <= xs[k] < hi
    ensures MultisetRangeSum(multiset(xs), lo, hi) == |xs|
  {
    if xs != [] {
      var ys := xs[..|xs| - 1];
      assert xs == ys + [xs[|xs| - 1]];
      assert multiset(xs) == multiset(ys) + multiset{xs[|xs| - 1]};
      OccurrencesSum(ys, lo, hi);
      MultisetRangeSumAdd(multiset(ys), xs[|xs| - 1], lo, hi);
    } else {
      MultisetRangeSumEmpty(lo, hi);
    }
  }

  lemma {:induction false} MultisetRangeSumEmpty(lo: int, hi: int)
    ensures MultisetRangeSum(multiset{}, lo, hi) == 0
    decreases hi - lo
  {
    if lo < hi {
      MultisetRangeSumEmpty(lo, hi - 1);
    }
  }

  function MultisetRangeSum(s: multiset<int>, lo: int, hi: int): int
    decreases hi - lo
  {
    if hi <= lo then 0 else MultisetRangeSum(s, lo, hi - 1) + s[hi - 1]
  }

  lemma {:induction false} MultisetRangeSumAdd(s: multiset<int>, x: int, lo: int, hi: int)
    requires lo <= hi
    ensures MultisetRangeSum(s + multiset{x}, lo, hi) == MultisetRangeSum(s, lo, hi) + (if lo <= x < hi then 1 else 0)
    decreases hi - lo
  {
    if lo < hi {
      MultisetRangeSumAdd(s, x, lo, hi - 1);
    }
  }

  /** A Counter that agrees with a multiset has the same range sums. */
  lemma {:induction false} RangeSumOfCounter(c: Counter, s: multiset<int>, lo: int, hi: int)
    requires forall v :: Get(c, v) == s[v]
    ensures RangeSum(c, lo, hi) == MultisetRangeSum(s, lo, hi)
    decreases hi - lo
  {
    if lo < hi {
      RangeSumOfCounter(c, s, lo, hi - 1);
    }
  }
}
