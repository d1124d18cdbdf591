/** The spanning test of Percolation/percolation_old.py: a depth-first
    search from the occupied top-row sites.

    The stack starts with the occupied top-row sites, left to right. Each
    step pops the last site; a site in the last row answers true at once;
    an unvisited one is marked visited and its occupied, unvisited
    neighbours (up, down, left, right) are pushed. An empty stack answers
    false.

    The visited grid is an array written in place, mirrored in proofs by a
    ghost value `vis`; the stack is a list the method reassigns. */
module BurningOld {
  import opened Lattice
  import opened Mirror

  type Visits = Values<bool>

  ghost predicate IsVisited(g: Grid, vis: Visits, s: Site)
    requires Shaped(g, vis)
  {
    InGrid(|g|, s) && vis[s.row][s.col]
  }

  /** Of the first k listed neighbours of s, each occupied one is visited or
      waiting on the stack. */
  ghost predicate FrontierUpTo(g: Grid, vis: Visits, stack: seq<Site>, s: Site, k: int)
    requires Shaped(g, vis) && 0 <= k <= 4
  {
    forall k' :: 0 <= k' < k && Open(g, Neighbours(s)[k']) ==>
      IsVisited(g, vis, Neighbours(s)[k']) || Neighbours(s)[k'] in stack
  }

  ghost predicate Frontier(g: Grid, vis: Visits, stack: seq<Site>, s: Site)
    requires Shaped(g, vis)
  {
    FrontierUpTo(g, vis, stack, s, 4)
  }

  /** Every visited site other than x has its frontier covered. (The trigger
      keeps the quantifier from firing on the neighbour terms.) */
  ghost predicate FrontierBut(g: Grid, vis: Visits, stack: seq<Site>, x: Site)
    requires Shaped(g, vis)
  {
    forall s {:trigger Frontier(g, vis, stack, s)} :: IsVisited(g, vis, s) && s != x ==> Frontier(g, vis, stack, s)
  }

  /** Stacked sites are occupied and joined to the top row. */
  ghost predicate StackOk(g: Grid, stack: seq<Site>) {
    (forall k :: 0 <= k < |stack| ==> Open(g, stack[k])) &&
    forall k {:trigger ReachedFromTop(g, stack[k])} :: 0 <= k < |stack| ==> ReachedFromTop(g, stack[k])
  }

  /** Every occupied top site is visited or stacked. */
  ghost predicate TopCovered(g: Grid, vis: Visits, stack: seq<Site>)
    requires Shaped(g, vis)
  {
    forall c :: 0 <= c < |g| && g[0][c] == 1 ==> vis[0][c] || Site(0, c) in stack
  }

  /** No last-row site is visited (popping one answers true first). */
  ghost predicate NotBottom(g: Grid, vis: Visits)
    requires Shaped(g, vis)
  {
    forall r, c :: 0 <= r < |g| && 0 <= c < |g| && vis[r][c] ==> r != |g| - 1
  }

  /** The invariant of the search loop. */
  ghost predicate Searching(g: Grid, vis: Visits, stack: seq<Site>) {
    Shaped(g, vis) && StackOk(g, stack) && TopCovered(g, vis, stack) && NotBottom(g, vis) &&
    forall s {:trigger Frontier(g, vis, stack, s)} :: IsVisited(g, vis, s) ==> Frontier(g, vis, stack, s)
  }

  /** The invariant while the neighbours of the newly visited x are pushed,
      the first k of them done. */
  ghost predicate Expanding(g: Grid, vis: Visits, stack: seq<Site>, x: Site, k: int) {
    Shaped(g, vis) && 0 <= k <= 4 && StackOk(g, stack) && TopCovered(g, vis, stack) && NotBottom(g, vis) &&
    Open(g, x) && ReachedFromTop(g, x) && IsVisited(g, vis, x) &&
    FrontierBut(g, vis, stack, x) && FrontierUpTo(g, vis, stack, x, k)
  }

  /** The neighbours in `ns` that the push loop puts on the stack: inside
      the lattice, occupied and not visited. */
  ghost function Unvisited(g: Grid, vis: Visits, ns: seq<Site>): (u: seq<Site>)
    requires Shaped(g, vis)
    ensures forall k :: 0 <= k < |u| ==> u[k] in ns && Open(g, u[k]) && !IsVisited(g, vis, u[k])
  {
    if ns == [] then []
    else
      var n := ns[|ns| - 1];
      Unvisited(g, vis, ns[..|ns| - 1]) + (if Open(g, n) && !IsVisited(g, vis, n) then [n] else [])
  }

  lemma InPrefix(stack: seq<Site>, y: Site)
    requires |stack| > 0 && y in stack
    ensures y in stack[..|stack| - 1] || y == stack[|stack| - 1]
  {
    var k :| 0 <= k < |stack| && stack[k] == y;
    if k < |stack| - 1 {
      assert stack[..|stack| - 1][k] == y;
    }
  }

  /** Popping a site that is already visited keeps the invariant. */
  lemma PopVisited(g: Grid, vis: Visits, stack: seq<Site>)
    requires Searching(g, vis, stack) && |stack| > 0 && IsVisited(g, vis, stack[|stack| - 1])
    ensures Searching(g, vis, stack[..|stack| - 1])
  {
    var x, rest := stack[|stack| - 1], stack[..|stack| - 1];
    forall s | IsVisited(g, vis, s) ensures Frontier(g, vis, rest, s) {
      assert Frontier(g, vis, stack, s);
      forall k' | 0 <= k' < 4 && Open(g, Neighbours(s)[k']) && !IsVisited(g, vis, Neighbours(s)[k'])
        ensures Neighbours(s)[k'] in rest
      {
        InPrefix(stack, Neighbours(s)[k']);
      }
    }
    forall c | 0 <= c < |g| && g[0][c] == 1 && !vis[0][c] ensures Site(0, c) in rest {
      InPrefix(stack, Site(0, c));
    }
    assert forall k :: 0 <= k < |rest| ==> rest[k] == stack[k];
  }

  /** Marking the popped site x visited starts the push loop, and leaves one
      unvisited site fewer. */
  lemma MarkVisited(g: Grid, vis: Visits, stack: seq<Site>)
    requires Searching(g, vis, stack) && |stack| > 0
    requires !IsVisited(g, vis, stack[|stack| - 1]) && stack[|stack| - 1].row != |g| - 1
    ensures Open(g, stack[|stack| - 1])
    ensures Expanding(g, SetAt(vis, stack[|stack| - 1].row, stack[|stack| - 1].col, true), stack[..|stack| - 1], stack[|stack| - 1], 0)
    ensures CountInGrid(SetAt(vis, stack[|stack| - 1].row, stack[|stack| - 1].col, true), false) == CountInGrid(vis, false) - 1
  {
    var x, rest := stack[|stack| - 1], stack[..|stack| - 1];
    assert Open(g, stack[|stack| - 1]) && ReachedFromTop(g, stack[|stack| - 1]);
    var vis' := SetAt(vis, x.row, x.col, true);
    assert Shaped(g, vis');
    forall s | IsVisited(g, vis', s) && s != x ensures Frontier(g, vis', rest, s) {
      assert Frontier(g, vis, stack, s);
      forall k' | 0 <= k' < 4 && Open(g, Neighbours(s)[k']) && !IsVisited(g, vis', Neighbours(s)[k'])
        ensures Neighbours(s)[k'] in rest
      {
        InPrefix(stack, Neighbours(s)[k']);
      }
    }
    forall c | 0 <= c < |g| && g[0][c] == 1 && !vis'[0][c] ensures Site(0, c) in rest {
      InPrefix(stack, Site(0, c));
    }
    assert forall k :: 0 <= k < |rest| ==> rest[k] == stack[k];
    CountInGridReplace(vis, x.row, x.col, false, true);
  }

  /** One turn of the push loop keeps its invariant. */
  lemma PushStep(g: Grid, vis: Visits, stack: seq<Site>, x: Site, k: int)
    requires Expanding(g, vis, stack, x, k) && k < 4
    ensures var n := Neighbours(x)[k];
      Expanding(g, vis, stack + (if Open(g, n) && !IsVisited(g, vis, n) then [n] else []), x, k + 1)
  {
    var n := Neighbours(x)[k];
    var stack' := stack + (if Open(g, n) && !IsVisited(g, vis, n) then [n] else []);
    assert forall k' :: 0 <= k' < |stack| ==> stack'[k'] == stack[k'];
    if Open(g, n) && !IsVisited(g, vis, n) {
      ReachedStep(g, x, n);
      assert stack'[|stack|] == n;
    }
    forall s | IsVisited(g, vis, s) && s != x ensures Frontier(g, vis, stack', s) {
      assert Frontier(g, vis, stack, s);
    }
  }

  /** The push loop's end restores the search invariant. */
  lemma PushDone(g: Grid, vis: Visits, stack: seq<Site>, x: Site)
    requires Expanding(g, vis, stack, x, 4)
    ensures Searching(g, vis, stack)
  {
    forall s | IsVisited(g, vis, s) ensures Frontier(g, vis, stack, s) {
      if s != x {
        assert Frontier(g, vis, stack, s);
      }
    }
  }

  /** Popping a last-row site: the lattice spans. */
  lemma Found(g: Grid, vis: Visits, stack: seq<Site>)
    requires Searching(g, vis, stack) && |stack| > 0 && stack[|stack| - 1].row == |g| - 1
    ensures Spans(g)
  {
    assert ReachedFromTop(g, stack[|stack| - 1]);
  }

  /** An empty stack: the visited sites form a closed set holding every
      occupied top site and no last-row site, so the lattice does not span. */
  lemma Exhausted(g: Grid, vis: Visits)
    requires Searching(g, vis, [])
    ensures !Spans(g)
  {
    var S := set r, c | 0 <= r < |g| && 0 <= c < |g| && vis[r][c] :: Site(r, c);
    forall x | x in S ensures IsVisited(g, vis, x) && x.row != |g| - 1 {
    }
    forall x, y | x in S && Open(g, y) && Adjacent(x, y) ensures y in S {
      assert Frontier(g, vis, [], x);
      var k :| 0 <= k < 4 && Neighbours(x)[k] == y;
      assert IsVisited(g, vis, y);
      assert y == Site(y.row, y.col);
    }
    forall a | Open(g, a) && a.row == 0 ensures a in S {
      assert a == Site(0, a.col);
    }
    NoSpanningPast(g, S);
  }

  /** Taking one more neighbour pushes it when it is occupied and
      unvisited. */
  lemma UnvisitedStep(g: Grid, vis: Visits, ns: seq<Site>, k: int)
    requires Shaped(g, vis) && 0 <= k < |ns|
    ensures Unvisited(g, vis, ns[..k + 1]) ==
      Unvisited(g, vis, ns[..k]) + (if Open(g, ns[k]) && !IsVisited(g, vis, ns[k]) then [ns[k]] else [])
  {
    assert ns[..k + 1][..k] == ns[..k];
  }

  /** The body of the push loop: the occupied, unvisited neighbours of x go
      on the stack in the order up, down, left, right. */
  method PushNeighbours(g: Grid, visited: array2<bool>, x: Site, stack: seq<Site>, ghost vis: Visits)
    returns (stack': seq<Site>)
    requires Expanding(g, vis, stack, x, 0) && Mirrors(visited, vis)
    ensures stack' == stack + Unvisited(g, vis, Neighbours(x))
    ensures Searching(g, vis, stack')
  {
    var L := |g|;
    var neighbours := Neighbours(x);
    stack' := stack;
    for k := 0 to 4
      invariant Expanding(g, vis, stack', x, k)
      invariant stack' == stack + Unvisited(g, vis, neighbours[..k])
    {
      var n := neighbours[k];
      PushStep(g, vis, stack', x, k);
      UnvisitedStep(g, vis, neighbours, k);
      if 0 <= n.row < L && 0 <= n.col < L && g[n.row][n.col] == 1 && !visited[n.row, n.col] {
        assert Open(g, n) && !IsVisited(g, vis, n);
        stack' := stack' + [n];
      }
    }
    assert neighbours[..4] == neighbours;
    PushDone(g, vis, stack', x);
  }

  /** burning_method (old): true exactly when the lattice spans. For L = 1
      the top row is the last row, so an occupied site answers true. */
  method BurningMethod(g: Grid) returns (spans: bool)
    requires IsSquare(g)
    ensures spans <==> Spans(g)
  {
    var L := |g|;
    var visited := new bool[L, L]((i, j) => false);
    ghost var vis: Visits := Filled(L, false);
    var stack: seq<Site> := [];
    for j := 0 to L
      invariant forall k :: 0 <= k < |stack| ==> stack[k].row == 0 && Open(g, stack[k])
      invariant forall c :: 0 <= c < j && g[0][c] == 1 ==> Site(0, c) in stack
    {
      if g[0][j] == 1 {
        stack := stack + [Site(0, j)];
      }
    }
    forall k | 0 <= k < |stack| ensures ReachedFromTop(g, stack[k]) {
      ConnectedRefl(g, stack[k]);
    }
    assert Searching(g, vis, stack);

    while stack != []
      invariant Searching(g, vis, stack) && Mirrors(visited, vis)
      decreases CountInGrid(vis, false), |stack|
    {
      ghost var before := stack;
      var x := stack[|stack| - 1];
      stack := stack[..|stack| - 1];
      if x.row == L - 1 {
        Found(g, vis, before);
        return true;
      }
      if !visited[x.row, x.col] {
        MarkVisited(g, vis, before);
        vis := SetSite(visited, x.row, x.col, true, vis);
        stack := PushNeighbours(g, visited, x, stack, vis);
      } else {
        PopVisited(g, vis, before);
      }
    }
    Exhausted(g, vis);
    return false;
  }
}
