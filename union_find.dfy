/** The `parent` dictionary of the Hoshen-Kopelman labeler in
    Percolation/percolation_old.py, with its `find` (path halving) and
    `union`.

    The proofs carry two ghost maps beside `parent`: `rep`, the
    representative (root) each element belongs to, and `d`, a depth that
    strictly drops from an element to its parent, which is what makes the
    walk to the root terminate. `rep` is the partition the dictionary
    stands for; `find` keeps it and `union` merges two of its classes. */
module UnionFind {

  type Parent = map<int, int>

  /** `parent` is a forest whose trees are the classes of `rep`: a root is
      its own representative, and a non-root shares its parent's
      representative and is deeper than its parent. */
  ghost predicate Forest(parent: Parent, rep: map<int, int>, d: map<int, nat>) {
    parent.Keys == rep.Keys && parent.Keys == d.Keys &&
    forall x {:trigger parent[x]} :: x in parent ==>
      parent[x] in parent &&
      (parent[x] == x ==> rep[x] == x) &&
      (parent[x] != x ==> d[parent[x]] < d[x] && rep[parent[x]] == rep[x])
  }

  /** The representative of an element is a root. */
  lemma {:induction false} RepIsRoot(parent: Parent, rep: map<int, int>, d: map<int, nat>, x: int)
    requires Forest(parent, rep, d) && x in parent
    ensures rep[x] in parent && parent[rep[x]] == rep[x]
    decreases d[x]
  {
    if parent[x] != x {
      RepIsRoot(parent, rep, d, parent[x]);
    }
  }

  /** The representatives are fixed by `parent` alone: two ghost
      companions of the same forest agree. */
  lemma {:induction false} RepUnique(parent: Parent, rep: map<int, int>, d: map<int, nat>,
                                     rep2: map<int, int>, d2: map<int, nat>, x: int)
    requires Forest(parent, rep, d) && Forest(parent, rep2, d2) && x in parent
    ensures rep[x] == rep2[x]
    decreases d[x]
  {
    if parent[x] != x {
      RepUnique(parent, rep, d, rep2, d2, parent[x]);
    }
  }

  /** parent[label] = label: a new singleton class. */
  lemma MakeSet(parent: Parent, rep: map<int, int>, d: map<int, nat>, l: int)
    requires Forest(parent, rep, d) && l !in parent
    ensures Forest(parent[l := l], rep[l := l], d[l := 0])
  {
  }

  /** find(x): the representative of x. Path halving rewrites parent
      pointers on the way up but keeps every element's representative. */
  method Find(parent: Parent, x: int, ghost rep: map<int, int>, ghost d: map<int, nat>)
    returns (root: int, parent': Parent)
    requires Forest(parent, rep, d) && x in parent
    ensures Forest(parent', rep, d) && parent'.Keys == parent.Keys
    ensures root in parent' && parent'[root] == root && root == rep[x]
  {
    parent' := parent;
    root := x;
    while root != parent'[root]
      invariant Forest(parent', rep, d) && parent'.Keys == parent.Keys
      invariant root in parent' && rep[root] == rep[x]
      decreases d[root]
    {
      parent' := parent'[root := parent'[parent'[root]]];
      root := parent'[root];
    }
  }

  /** The classes of a and b made one, named by a's representative. */
  ghost function Merged(rep: map<int, int>, a: int, b: int): (rep': map<int, int>)
    ensures rep'.Keys == rep.Keys
  {
    map z | z in rep :: if rep[z] == b then a else rep[z]
  }

  /** Two elements are in one class. */
  ghost predicate Same(rep: map<int, int>, a: int, b: int)
    requires a in rep && b in rep
  {
    rep[a] == rep[b]
  }

  /** After union(x, y), two elements are together exactly when they were,
      or one was with x and the other with y. */
  lemma MergedClasses(rep: map<int, int>, x: int, y: int, a: int, b: int)
    requires x in rep && y in rep && a in rep && b in rep
    requires forall z :: z in rep ==> rep[z] in rep && rep[rep[z]] == rep[z]
    ensures Same(Merged(rep, rep[x], rep[y]), a, b) <==>
      Same(rep, a, b) || (Same(rep, a, x) && Same(rep, b, y)) || (Same(rep, a, y) && Same(rep, b, x))
  {
  }

  /** Pointing the root ry at the root rx keeps the forest, with ry's class
      merged into rx's: the whole tree of ry moves down below rx. */
  lemma LinkKeepsForest(parent: Parent, rep: map<int, int>, d: map<int, nat>, rx: int, ry: int)
    requires Forest(parent, rep, d) && rx in parent && ry in parent
    requires parent[rx] == rx && parent[ry] == ry && rx != ry
    ensures Forest(parent[ry := rx], Merged(rep, rx, ry),
                   map z | z in d :: if rep[z] == ry then d[z] + d[rx] + 1 else d[z])
  {
    var parent', rep' := parent[ry := rx], Merged(rep, rx, ry);
    var d' := map z | z in d :: if rep[z] == ry then d[z] + d[rx] + 1 else d[z];
    forall x | x in parent'
      ensures parent'[x] in parent' &&
        (parent'[x] == x ==> rep'[x] == x) &&
        (parent'[x] != x ==> d'[parent'[x]] < d'[x] && rep'[parent'[x]] == rep'[x])
    {
      if x != ry {
        assert parent'[x] == parent[x];
      }
    }
  }

  /** union(x, y): after it x and y share a representative, and the classes
      of x and y are merged into x's. */
  method Union(parent: Parent, x: int, y: int, ghost rep: map<int, int>, ghost d: map<int, nat>)
    returns (parent': Parent, ghost rep': map<int, int>, ghost d': map<int, nat>)
    requires Forest(parent, rep, d) && x in parent && y in parent
    ensures Forest(parent', rep', d') && parent'.Keys == parent.Keys
    ensures rep' == Merged(rep, rep[x], rep[y])
  {
    var rootX, p1 := Find(parent, x, rep, d);
    var rootY, p2 := Find(p1, y, rep, d);
    RepIsRoot(p2, rep, d, rootX);
    parent', rep', d' := p2, rep, d;
    if rootX != rootY {
      parent' := p2[rootY := rootX];
      rep' := Merged(rep, rootX, rootY);
      d' := map z | z in d :: if rep[z] == rootY then d[z] + d[rootX] + 1 else d[z];
      LinkKeepsForest(p2, rep, d, rootX, rootY);
    } else {
      assert rep == Merged(rep, rootX, rootY);
    }
  }

  /** After union(x, y), x and y are together, and a class holding neither
      is unchanged. */
  lemma UnionJoins(rep: map<int, int>, x: int, y: int, z: int)
    requires x in rep && y in rep && z in rep
    ensures Merged(rep, rep[x], rep[y])[x] == Merged(rep, rep[x], rep[y])[y]
    ensures rep[z] != rep[x] && rep[z] != rep[y] ==> Merged(rep, rep[x], rep[y])[z] == rep[z]
  {
  }
}
