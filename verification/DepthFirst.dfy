/** Depth-first search as a recursive function: the simple form of what
    `findBackEdges` does with an explicit stack. */
module DepthFirst {
  import opened Finite
  import opened Graph

  /** The blocks seen so far and the arcs found to lead back to an open block. */
  datatype Found = Found(seen: set<nat>, back: set<(nat, nat)>)

  ghost function Unseen(g: Adj, visited: set<nat>): nat {
    |Below(|g|) - visited|
  }

  lemma UnseenShrinks(g: Adj, visited: set<nat>, s: nat)
    requires s < |g| && s !in visited
    ensures Unseen(g, visited + {s}) < Unseen(g, visited)
  {
    assert Below(|g|) - visited == Below(|g|) - (visited + {s}) + {s};
  }

  lemma UnseenFalls(g: Adj, visited: set<nat>, more: set<nat>)
    requires visited <= more
    ensures Unseen(g, more) <= Unseen(g, visited)
  {
    SubsetSize(Below(|g|) - more, Below(|g|) - visited);
  }

  /** Go through the successors of `u` from the `i`-th on, while the blocks of `open`,
      `u` among them, have not been left. */
  ghost function Explore(g: Adj, u: nat, i: nat, open: set<nat>, f: Found): (r: Found)
    ensures f.seen <= r.seen
    decreases Unseen(g, f.seen), if u < |g| then |g[u]| - i else 0
  {
    if u >= |g| || i >= |g[u]| then f
    else
      var s := g[u][i];
      if s in open then Explore(g, u, i + 1, open, Found(f.seen, f.back + {(u, s)}))
      else if s in f.seen || s >= |g| then Explore(g, u, i + 1, open, f)
      else
        UnseenShrinks(g, f.seen, s);
        var inner := Explore(g, s, 0, open + {s}, Found(f.seen + {s}, f.back));
        UnseenFalls(g, f.seen + {s}, inner.seen);
        Explore(g, u, i + 1, open, inner)
  }

  /** Start at every block from `b` on that is still unseen. */
  ghost function ExploreAll(g: Adj, b: nat, f: Found): (r: Found)
    decreases |g| - b
  {
    if b >= |g| then f
    else ExploreAll(g, b + 1, if b in f.seen then f else Explore(g, b, 0, {b}, Found(f.seen + {b}, f.back)))
  }

  /** Going on from `b`; starting at the entry twice changes nothing. */
  lemma ExploreNext(g: Adj, b: nat, f: Found)
    ensures b >= |g| ==> ExploreAll(g, b, f) == f
    ensures b < |g| && b in f.seen ==> ExploreAll(g, b, f) == ExploreAll(g, b + 1, f)
    ensures b < |g| && b !in f.seen ==>
            ExploreAll(g, b, f) == ExploreAll(g, b + 1, Explore(g, b, 0, {b}, Found(f.seen + {b}, f.back)))
    ensures b < |g| && b !in f.seen ==>
            ExploreAll(g, b, f) == ExploreAll(g, b, Explore(g, b, 0, {b}, Found(f.seen + {b}, f.back)))
  {
    hide Explore;
  }

  /** The arcs that lead back in a depth-first search that takes blocks and successors
      in the order in which they are listed. */
  ghost function BackArcs(g: Adj): (back: set<(nat, nat)>) {
    ExploreAll(g, 0, Found({}, {})).back
  }
}
