/** `PathAnalysis::findBackEdges`: the explicit-stack depth-first search that
    decides which edges are dropped before paths are counted. */
module BackEdges {
  import opened DepthFirst
  import opened Finite
  import opened Graph

  type Arc = (nat, nat)

  function Filter(u: nat, succs: seq<nat>, back: set<Arc>): (kept: seq<nat>)
    ensures forall v :: v in kept <==> v in succs && (u, v) !in back
  {
    if succs == [] then []
    else if (u, succs[0]) in back then Filter(u, succs[1..], back)
    else [succs[0]] + Filter(u, succs[1..], back)
  }

  /** The graph with the arcs of `back` removed; the order of the others is kept. */
  function Without(g: Adj, back: set<Arc>): (h: Adj)
    ensures |h| == |g|
    ensures forall u: nat, v: nat :: Edge(h, u, v) <==> Edge(g, u, v) && (u, v) !in back
  {
    var h := seq(|g|, u requires 0 <= u < |g| => Filter(u, g[u], back));
    assert forall u: nat, v: nat :: Edge(h, u, v) <==> Edge(g, u, v) && (u, v) !in back;
    h
  }

  // ----- the search invariant
  //
  // `path` lists the blocks on the stack, bottom first, and `its` their
  // successor cursors.  Two components exist for the proof only: `tree` holds
  // the arcs along which blocks were discovered and `finish` numbers the
  // blocks in the order in which they left the stack.

  ghost predicate PathShape(n: nat, visited: set<nat>, path: seq<nat>, finish: map<nat, nat>) {
    && (forall b :: b in visited ==> b < n)
    && (forall b :: b in path ==> b in visited)
    && (forall b :: b in finish <==> b in visited && b !in path)
    && (forall i, j :: 0 <= i < j < |path| ==> path[i] != path[j])
  }

  /** Each block on the stack was discovered from the block below it, and no
      discovery arc is dropped. */
  ghost predicate TreeShape(g: Adj, visited: set<nat>, path: seq<nat>, tree: set<Arc>, back: set<Arc>) {
    && tree !! back
    && (forall i, j :: 0 <= i && j == i + 1 < |path| ==> (path[i], path[j]) in tree)
    && (forall a: Arc :: a in tree ==> Edge(g, a.0, a.1) && a.0 in visited && a.1 in visited)
    && (forall a: Arc, i :: a in tree && 0 <= i < |path| && path[i] == a.1 ==> i > 0 && path[i - 1] == a.0)
  }

  /** A walk all of whose arcs were taken to discover a block. */
  ghost predicate TreeWalk(tree: set<Arc>, p: seq<nat>, u: nat, v: nat) {
    && |p| > 0 && p[0] == u && p[|p| - 1] == v
    && forall i, j :: 0 <= i && j == i + 1 < |p| ==> (p[i], p[j]) in tree
  }

  /** Every dropped arc closes a cycle of discovery arcs. */
  ghost predicate BackClosed(g: Adj, tree: set<Arc>, back: set<Arc>) {
    forall a: Arc :: a in back ==> Edge(g, a.0, a.1) && exists p :: TreeWalk(tree, p, a.1, a.0)
  }

  ghost predicate FinishOrder(g: Adj, back: set<Arc>, finish: map<nat, nat>) {
    && (forall b :: b in finish ==> finish[b] < |finish|)
    && (forall u: nat, v: nat :: u in finish && Edge(g, u, v) ==>
          (u, v) in back || (v in finish && finish[v] < finish[u]))
  }

  ghost function Above(path: seq<nat>, i: nat): int {
    if i + 1 < |path| then path[i + 1] else -1
  }

  /** The successors a frame has passed are dropped, finished, or the block
      right above the frame. */
  ghost predicate FrameOk(g: Adj, u: nat, it: nat, above: int, back: set<Arc>, finish: map<nat, nat>) {
    u < |g| && it <= |g[u]|
    && forall k :: 0 <= k < it ==> (u, g[u][k]) in back || g[u][k] in finish || g[u][k] == above
  }

  ghost predicate FramesOk(g: Adj, path: seq<nat>, its: seq<nat>, back: set<Arc>, finish: map<nat, nat>) {
    |its| == |path|
    && forall i :: 0 <= i < |path| ==> FrameOk(g, path[i], its[i], Above(path, i), back, finish)
  }

  // ----- each branch of the loop keeps it

  lemma PopKeepsShape(n: nat, visited: set<nat>, path: seq<nat>, finish: map<nat, nat>, u: nat, f: nat)
    requires PathShape(n, visited, path + [u], finish)
    ensures PathShape(n, visited, path, finish[u := f])
  {
    var full := path + [u];
    assert full[|path|] == u && u in full;
    forall b ensures b in finish[u := f] <==> b in visited && b !in path {
      assert b in full <==> b in path || b == u;
      if u in path {
        var i :| 0 <= i < |path| && path[i] == u;
        assert full[i] == full[|path|];
      }
    }
    forall b | b in path ensures b in visited { assert b in full; }
    forall i, j | 0 <= i < j < |path| ensures path[i] != path[j] { assert full[i] != full[j]; }
  }

  lemma PopKeepsTree(g: Adj, visited: set<nat>, path: seq<nat>, tree: set<Arc>, back: set<Arc>, u: nat)
    requires TreeShape(g, visited, path + [u], tree, back)
    ensures TreeShape(g, visited, path, tree, back)
  {
    var full := path + [u];
    forall i, j | 0 <= i && j == i + 1 < |path| ensures (path[i], path[j]) in tree {
      assert (full[i], full[j]) in tree;
    }
    forall a: Arc, i | a in tree && 0 <= i < |path| && path[i] == a.1 ensures i > 0 && path[i - 1] == a.0 {
      assert full[i] == a.1;
      assert full[i - 1] == path[i - 1];
    }
  }

  lemma PopKeepsFinish(g: Adj, back: set<Arc>, finish: map<nat, nat>, u: nat)
    requires FinishOrder(g, back, finish) && u !in finish
    requires u < |g| && FrameOk(g, u, |g[u]|, -1, back, finish)
    ensures FinishOrder(g, back, finish[u := |finish|])
  {
    var f := finish[u := |finish|];
    assert f.Keys == finish.Keys + {u};
    assert |f| == |finish| + 1;
    forall v: nat | Edge(g, u, v) ensures (u, v) in back || (v in f && f[v] < f[u]) {
      var k :| 0 <= k < |g[u]| && g[u][k] == v;
    }
  }

  lemma PopKeepsFrames(g: Adj, path: seq<nat>, its: seq<nat>, back: set<Arc>, finish: map<nat, nat>,
                       u: nat, it: nat, f: nat)
    requires FramesOk(g, path + [u], its + [it], back, finish)
    ensures FramesOk(g, path, its, back, finish[u := f])
  {
    forall i | 0 <= i < |path| ensures FrameOk(g, path[i], its[i], Above(path, i), back, finish[u := f]) {
      assert (path + [u])[i] == path[i] && (its + [it])[i] == its[i];
      assert Above(path + [u], i) == if i + 1 < |path| then path[i + 1] else u;
    }
  }

  /** Moving the top cursor past `v` once `v` is dropped or finished. */
  lemma AdvanceKeepsFrames(g: Adj, path: seq<nat>, its: seq<nat>, back: set<Arc>, back': set<Arc>,
                           finish: map<nat, nat>, u: nat, it: nat)
    requires FramesOk(g, path + [u], its + [it], back, finish) && back <= back'
    requires u < |g| && it < |g[u]| && ((u, g[u][it]) in back' || g[u][it] in finish)
    ensures FramesOk(g, path + [u], its + [it + 1], back', finish)
  {
    var full := path + [u];
    forall i | 0 <= i < |full| ensures FrameOk(g, full[i], (its + [it + 1])[i], Above(full, i), back', finish) {
      assert FrameOk(g, full[i], (its + [it])[i], Above(full, i), back, finish);
    }
  }

  lemma PushKeepsFrames(g: Adj, path: seq<nat>, its: seq<nat>, back: set<Arc>, finish: map<nat, nat>,
                        u: nat, it: nat)
    requires FramesOk(g, path + [u], its + [it], back, finish)
    requires u < |g| && it < |g[u]| && g[u][it] < |g|
    ensures FramesOk(g, path + [u] + [g[u][it]], its + [it + 1] + [0], back, finish)
  {
    var v := g[u][it];
    var full, next := path + [u] + [v], its + [it + 1] + [0];
    forall i | 0 <= i < |full| ensures FrameOk(g, full[i], next[i], Above(full, i), back, finish) {
      if i < |path| + 1 {
        assert FrameOk(g, (path + [u])[i], (its + [it])[i], Above(path + [u], i), back, finish);
      }
    }
  }

  /** The blocks of the stack from `path[i]` up form a tree walk. */
  lemma StackIsTreeWalk(tree: set<Arc>, path: seq<nat>, i: nat)
    requires i < |path|
    requires forall i, j :: 0 <= i && j == i + 1 < |path| ==> (path[i], path[j]) in tree
    ensures TreeWalk(tree, path[i..], path[i], path[|path| - 1])
  {
    var p := path[i..];
    forall a, b | 0 <= a && b == a + 1 < |p| ensures (p[a], p[b]) in tree {
      assert (path[i + a], path[i + b]) in tree;
    }
  }

  lemma DropKeepsTree(g: Adj, visited: set<nat>, path: seq<nat>, tree: set<Arc>, back: set<Arc>, u: nat, v: nat)
    requires TreeShape(g, visited, path + [u], tree, back) && v in path + [u]
    requires forall i, j :: 0 <= i < j < |path + [u]| ==> (path + [u])[i] != (path + [u])[j]
    ensures TreeShape(g, visited, path + [u], tree, back + {(u, v)})
  {
    var full := path + [u];
    var i :| 0 <= i < |full| && full[i] == v;
    assert i > 0 ==> full[i - 1] != full[|path|];
  }

  lemma DropKeepsBack(g: Adj, path: seq<nat>, tree: set<Arc>, back: set<Arc>, u: nat, v: nat)
    requires BackClosed(g, tree, back) && v in path + [u] && Edge(g, u, v)
    requires forall i, j :: 0 <= i && j == i + 1 < |path + [u]| ==> ((path + [u])[i], (path + [u])[j]) in tree
    ensures BackClosed(g, tree, back + {(u, v)})
  {
    var full := path + [u];
    var i :| 0 <= i < |full| && full[i] == v;
    StackIsTreeWalk(tree, full, i);
  }

  lemma PushKeepsShape(n: nat, visited: set<nat>, path: seq<nat>, finish: map<nat, nat>, v: nat)
    requires PathShape(n, visited, path, finish) && v !in visited && v < n
    ensures PathShape(n, visited + {v}, path + [v], finish)
  {
    var full := path + [v];
    forall b ensures b in full <==> b in path || b == v {}
    forall i, j | 0 <= i < j < |full| ensures full[i] != full[j] {
      assert path[i] in path;
    }
  }

  /** A discovery walk that ends in a visited block starts in one. */
  lemma TreeWalkVisited(g: Adj, visited: set<nat>, path: seq<nat>, tree: set<Arc>, back: set<Arc>,
                        p: seq<nat>, v: nat, u: nat)
    requires TreeShape(g, visited, path, tree, back) && TreeWalk(tree, p, v, u) && u in visited
    ensures v in visited
  {
    if |p| > 1 { assert (p[0], p[0 + 1]) in tree; }
  }

  lemma PushKeepsTree(g: Adj, visited: set<nat>, path: seq<nat>, tree: set<Arc>, back: set<Arc>, u: nat, v: nat)
    requires TreeShape(g, visited, path + [u], tree, back) && BackClosed(g, tree, back)
    requires u in visited && v !in visited && Edge(g, u, v)
    requires forall b :: b in path + [u] ==> b in visited
    ensures TreeShape(g, visited + {v}, path + [u] + [v], tree + {(u, v)}, back)
  {
    if (u, v) in back {
      var p :| TreeWalk(tree, p, v, u);
      TreeWalkVisited(g, visited, path + [u], tree, back, p, v, u);
      assert false;
    }
    var below, full := path + [u], path + [u] + [v];
    forall i, j | 0 <= i && j == i + 1 < |full| ensures (full[i], full[j]) in tree + {(u, v)} {
      if j < |below| { assert (below[i], below[j]) in tree; }
    }
    forall a: Arc, i | a in tree + {(u, v)} && 0 <= i < |full| && full[i] == a.1
      ensures i > 0 && full[i - 1] == a.0
    {
      if i < |below| { assert below[i] == a.1 && below[i] in below; }
    }
  }

  lemma GrowingTreeKeepsBack(g: Adj, tree: set<Arc>, tree': set<Arc>, back: set<Arc>)
    requires BackClosed(g, tree, back) && tree <= tree'
    ensures BackClosed(g, tree', back)
  {
    forall a: Arc | a in back ensures exists p :: TreeWalk(tree', p, a.1, a.0) {
      var p :| TreeWalk(tree, p, a.1, a.0);
      assert TreeWalk(tree', p, a.1, a.0);
    }
  }

  // ----- the search itself

  datatype Frame = Frame(bb: nat, it: nat)

  /** The blocks and the cursors of a stack of frames. */
  function Bbs(stack: seq<Frame>): seq<nat> {
    seq(|stack|, i requires 0 <= i < |stack| => stack[i].bb)
  }

  function Its(stack: seq<Frame>): seq<nat> {
    seq(|stack|, i requires 0 <= i < |stack| => stack[i].it)
  }

  /** How many more times the loop can run before a new block is found. */
  ghost function Work(g: Adj, stack: seq<Frame>): nat {
    if stack == [] then 0
    else
      var top := stack[|stack| - 1];
      Work(g, stack[..|stack| - 1])
      + 1 + (if top.bb < |g| && top.it <= |g[top.bb]| then |g[top.bb]| - top.it else 0)
  }

  ghost predicate Inv(g: Adj, visited: set<nat>, path: seq<nat>, its: seq<nat>, back: set<Arc>,
                      tree: set<Arc>, finish: map<nat, nat>) {
    && PathShape(|g|, visited, path, finish)
    && TreeShape(g, visited, path, tree, back)
    && BackClosed(g, tree, back)
    && FinishOrder(g, back, finish)
    && FramesOk(g, path, its, back, finish)
  }

  lemma EmptyInv(g: Adj)
    ensures Inv(g, {}, [], [], {}, {}, map[])
  {
  }

  /** What the loop may read off the top frame. */
  lemma TopFrame(g: Adj, visited: set<nat>, path: seq<nat>, its: seq<nat>, back: set<Arc>,
                 tree: set<Arc>, finish: map<nat, nat>, u: nat, it: nat)
    requires Inv(g, visited, path + [u], its + [it], back, tree, finish)
    ensures |path| == |its|
    ensures u in visited && u < |g| && it <= |g[u]|
    ensures u !in path
  {
    assert (path + [u])[|path|] == u && (its + [it])[|path|] == it;
    forall i | 0 <= i < |path| ensures path[i] != u {
      assert (path + [u])[i] != (path + [u])[|path|];
    }
  }

  lemma RootStep(g: Adj, visited: set<nat>, back: set<Arc>, tree: set<Arc>, finish: map<nat, nat>, root: nat)
    requires Inv(g, visited, [], [], back, tree, finish) && root !in visited && root < |g|
    ensures Inv(g, visited + {root}, [root], [0], back, tree, finish)
  {
    PushKeepsShape(|g|, visited, [], finish, root);
  }

  lemma PopStep(g: Adj, visited: set<nat>, path: seq<nat>, its: seq<nat>, back: set<Arc>,
                tree: set<Arc>, finish: map<nat, nat>, u: nat, it: nat)
    requires Inv(g, visited, path + [u], its + [it], back, tree, finish)
    requires |path| == |its| && u < |g| && it == |g[u]|
    ensures Inv(g, visited, path, its, back, tree, finish[u := |finish|])
  {
    hide PathShape, TreeShape, BackClosed, FinishOrder;
    assert FrameOk(g, (path + [u])[|path|], (its + [it])[|path|], Above(path + [u], |path|), back, finish);
    PopKeepsShape(|g|, visited, path, finish, u, |finish|);
    PopKeepsTree(g, visited, path, tree, back, u);
    NotFinished(|g|, visited, path, finish, u);
    PopKeepsFinish(g, back, finish, u);
    PopKeepsFrames(g, path, its, back, finish, u, it, |finish|);
  }

  lemma NotFinished(n: nat, visited: set<nat>, path: seq<nat>, finish: map<nat, nat>, u: nat)
    requires PathShape(n, visited, path + [u], finish)
    ensures u !in finish
  {
    assert (path + [u])[|path|] == u;
  }

  lemma DropStep(g: Adj, visited: set<nat>, path: seq<nat>, its: seq<nat>, back: set<Arc>,
                 tree: set<Arc>, finish: map<nat, nat>, u: nat, it: nat, v: nat)
    requires Inv(g, visited, path + [u], its + [it], back, tree, finish)
    requires u < |g| && it < |g[u]| && v == g[u][it] && v in path + [u]
    ensures Inv(g, visited, path + [u], its + [it + 1], back + {(u, v)}, tree, finish)
  {
    hide FramesOk;
    DropKeepsTree(g, visited, path, tree, back, u, v);
    DropKeepsBack(g, path, tree, back, u, v);
    AdvanceKeepsFrames(g, path, its, back, back + {(u, v)}, finish, u, it);
  }

  lemma SkipStep(g: Adj, visited: set<nat>, path: seq<nat>, its: seq<nat>, back: set<Arc>,
                 tree: set<Arc>, finish: map<nat, nat>, u: nat, it: nat, v: nat)
    requires Inv(g, visited, path + [u], its + [it], back, tree, finish)
    requires u < |g| && it < |g[u]| && v == g[u][it] && v in visited && v !in path + [u]
    ensures Inv(g, visited, path + [u], its + [it + 1], back, tree, finish)
  {
    hide FramesOk, TreeShape, BackClosed, FinishOrder;
    AdvanceKeepsFrames(g, path, its, back, back, finish, u, it);
  }

  lemma PushStep(g: Adj, visited: set<nat>, path: seq<nat>, its: seq<nat>, back: set<Arc>,
                 tree: set<Arc>, finish: map<nat, nat>, u: nat, it: nat, v: nat)
    requires Inv(g, visited, path + [u], its + [it], back, tree, finish)
    requires u < |g| && it < |g[u]| && v == g[u][it] && v !in visited && v < |g|
    ensures Inv(g, visited + {v}, path + [u] + [v], its + [it + 1] + [0], back,
                tree + {(u, v)}, finish)
  {
    hide FramesOk, TreeShape, BackClosed, FinishOrder;
    assert (path + [u])[|path|] == u;
    PushKeepsShape(|g|, visited, path + [u], finish, v);
    PushKeepsTree(g, visited, path, tree, back, u, v);
    PushKeepsFrames(g, path, its, back, finish, u, it);
    GrowingTreeKeepsBack(g, tree, tree + {(u, v)}, back);
  }

  lemma EmptyStack()
    ensures Bbs([]) == [] && Its([]) == [] && Elems(Bbs([])) == {}
  {
  }

  /** A stack split at its top. */
  lemma StackSnoc(g: Adj, below: seq<Frame>, f: Frame)
    ensures Elems(Bbs(below + [f])) == Elems(Bbs(below)) + {f.bb}
    ensures f.bb !in Bbs(below) ==> Elems(Bbs(below + [f])) - {f.bb} == Elems(Bbs(below))
    ensures Bbs(below + [f]) == Bbs(below) + [f.bb] && Its(below + [f]) == Its(below) + [f.it]
    ensures f.bb < |g| && f.it <= |g[f.bb]| ==> Work(g, below + [f]) == Work(g, below) + 1 + |g[f.bb]| - f.it
  {
    assert (below + [f])[..|below + [f]| - 1] == below;
    var under := Bbs(below);
    assert Bbs(below + [f]) == under + [f.bb];
    assert (under + [f.bb])[|under|] == f.bb;
    forall b ensures b in under + [f.bb] <==> b in under || b == f.bb {}
  }

  /** Every block seen now but not before was discovered, directly or not, from `root`. */
  ghost predicate Rooted(tree: set<Arc>, root: nat, before: set<nat>, now: set<nat>) {
    before <= now && forall b :: b in now && b !in before ==> exists p :: TreeWalk(tree, p, root, b)
  }

  lemma RootIsRooted(tree: set<Arc>, root: nat, before: set<nat>)
    ensures Rooted(tree, root, before, before + {root})
  {
    assert TreeWalk(tree, [root], root, root);
  }

  lemma RootedGrows(tree: set<Arc>, root: nat, before: set<nat>, now: set<nat>, u: nat, s: nat)
    requires Rooted(tree, root, before, now) && u in now && u !in before
    ensures Rooted(tree + {(u, s)}, root, before, now + {s})
  {
    var tree' := tree + {(u, s)};
    forall b | b in now + {s} && b !in before ensures exists p :: TreeWalk(tree', p, root, b) {
      if b in now {
        var p :| TreeWalk(tree, p, root, b);
        assert TreeWalk(tree', p, root, b);
      } else {
        var p :| TreeWalk(tree, p, root, u);
        forall i, j | 0 <= i && j == i + 1 < |p + [s]| ensures ((p + [s])[i], (p + [s])[j]) in tree' {
          if j < |p| { assert (p[i], p[j]) in tree; }
        }
        assert TreeWalk(tree', p + [s], root, s);
      }
    }
  }

  /** What one call of the closure has added so far. */
  ghost predicate Grown(visited0: set<nat>, tree0: set<Arc>, root: nat, visited: set<nat>, path: seq<nat>,
                        tree: set<Arc>) {
    && root in visited && tree0 <= tree
    && Rooted(tree, root, visited0, visited)
    && (forall b :: b in path ==> b in visited && b !in visited0)
  }

  lemma RootGrown(visited0: set<nat>, tree0: set<Arc>, root: nat)
    requires root !in visited0
    ensures Grown(visited0, tree0, root, visited0 + {root}, [root], tree0)
  {
    RootIsRooted(tree0, root, visited0);
  }

  lemma PopGrown(visited0: set<nat>, tree0: set<Arc>, root: nat, visited: set<nat>, path: seq<nat>, u: nat,
                 tree: set<Arc>)
    requires Grown(visited0, tree0, root, visited, path + [u], tree)
    ensures Grown(visited0, tree0, root, visited, path, tree)
  {
    assert forall b :: b in path ==> b in path + [u];
  }

  lemma PushGrown(visited0: set<nat>, tree0: set<Arc>, root: nat, visited: set<nat>, path: seq<nat>, u: nat,
                  tree: set<Arc>, s: nat)
    requires Grown(visited0, tree0, root, visited, path + [u], tree) && s !in visited
    ensures Grown(visited0, tree0, root, visited + {s}, path + [u] + [s], tree + {(u, s)})
  {
    assert (path + [u])[|path|] == u;
    RootedGrows(tree, root, visited0, visited, u, s);
  }

  lemma ClosedAt(g: Adj, u: nat, i: nat)
    requires Closed(g) && u < |g| && i < |g[u]|
    ensures g[u][i] < |g|
  {
  }

  // ----- one round of the search loop

  /** The search between two rounds. */
  datatype Search = Search(visited: set<nat>, onStack: set<nat>, stack: seq<Frame>, back: set<Arc>,
                           tree: set<Arc>, finish: map<nat, nat>)

  ghost predicate Going(g: Adj, visited0: set<nat>, tree0: set<Arc>, root: nat, s: Search) {
    && Grown(visited0, tree0, root, s.visited, Bbs(s.stack), s.tree)
    && s.onStack == Elems(Bbs(s.stack))
    && Inv(g, s.visited, Bbs(s.stack), Its(s.stack), s.back, s.tree, s.finish)
  }

  lemma StartCase(g: Adj, root: nat, visited: set<nat>, back: set<Arc>, tree: set<Arc>, finish: map<nat, nat>)
    requires Inv(g, visited, [], [], back, tree, finish) && root !in visited && root < |g|
    ensures Going(g, visited, tree, root, Search(visited + {root}, {root}, [Frame(root, 0)], back, tree, finish))
  {
    hide Inv, Elems, Grown, Bbs, Its;
    RootStep(g, visited, back, tree, finish, root);
    RootGrown(visited, tree, root);
    StackSnoc(g, [], Frame(root, 0));
    EmptyStack();
    assert [] + [Frame(root, 0)] == [Frame(root, 0)];
    assert Bbs([Frame(root, 0)]) == [root] && Its([Frame(root, 0)]) == [0];
    assert {} + {root} == Elems(Bbs([Frame(root, 0)]));
  }

  lemma TopCase(g: Adj, visited0: set<nat>, tree0: set<Arc>, root: nat, s: Search, below: seq<Frame>, top: Frame)
    requires Going(g, visited0, tree0, root, s) && s.stack == below + [top]
    ensures top.bb < |g| && top.it <= |g[top.bb]| && top.bb !in Bbs(below) && |Bbs(below)| == |Its(below)|
    ensures forall b :: b in s.onStack <==> b in Bbs(below) + [top.bb]
  {
    hide Inv, Grown, Bbs, Its, Work;
    StackSnoc(g, below, top);
    TopFrame(g, s.visited, Bbs(below), Its(below), s.back, s.tree, s.finish, top.bb, top.it);
  }

  lemma PopCase(g: Adj, visited0: set<nat>, tree0: set<Arc>, root: nat, s: Search, below: seq<Frame>, top: Frame)
    requires Going(g, visited0, tree0, root, s) && s.stack == below + [top]
    requires top.bb < |g| && top.it == |g[top.bb]|
    ensures Going(g, visited0, tree0, root, s.(onStack := s.onStack - {top.bb}, stack := below,
                                               finish := s.finish[top.bb := |s.finish|]))
    ensures Work(g, below) < Work(g, s.stack)
  {
    TopCase(g, visited0, tree0, root, s, below, top);
    hide Inv, Elems, Grown, Bbs, Its, Work;
    StackSnoc(g, below, top);
    PopGrown(visited0, tree0, root, s.visited, Bbs(below), top.bb, s.tree);
    PopStep(g, s.visited, Bbs(below), Its(below), s.back, s.tree, s.finish, top.bb, top.it);
  }

  /** An arc to a block on the stack is dropped, the stack otherwise as it was. */
  lemma DropCase(g: Adj, visited0: set<nat>, tree0: set<Arc>, root: nat, s: Search, below: seq<Frame>, top: Frame, v: nat)
    requires Going(g, visited0, tree0, root, s) && s.stack == below + [top]
    requires top.bb < |g| && top.it < |g[top.bb]| && v == g[top.bb][top.it] && v in s.onStack
    ensures
      var next := below + [Frame(top.bb, top.it + 1)];
      Going(g, visited0, tree0, root, s.(stack := next, back := s.back + {(top.bb, v)})) && Work(g, next) < Work(g, s.stack)
  {
    TopCase(g, visited0, tree0, root, s, below, top);
    hide Inv, Elems, Grown, Bbs, Its, Work;
    StackSnoc(g, below, top);
    StackSnoc(g, below, Frame(top.bb, top.it + 1));
    DropStep(g, s.visited, Bbs(below), Its(below), s.back, s.tree, s.finish, top.bb, top.it, v);
  }

  /** An arc to a finished block is passed over. */
  lemma SkipCase(g: Adj, visited0: set<nat>, tree0: set<Arc>, root: nat, s: Search, below: seq<Frame>, top: Frame, v: nat)
    requires Going(g, visited0, tree0, root, s) && s.stack == below + [top]
    requires top.bb < |g| && top.it < |g[top.bb]| && v == g[top.bb][top.it] && v in s.visited && v !in s.onStack
    ensures
      var next := below + [Frame(top.bb, top.it + 1)];
      Going(g, visited0, tree0, root, s.(stack := next)) && Work(g, next) < Work(g, s.stack)
  {
    TopCase(g, visited0, tree0, root, s, below, top);
    hide Inv, Elems, Grown, Bbs, Its, Work;
    StackSnoc(g, below, top);
    StackSnoc(g, below, Frame(top.bb, top.it + 1));
    SkipStep(g, s.visited, Bbs(below), Its(below), s.back, s.tree, s.finish, top.bb, top.it, v);
  }

  lemma PushedStack(g: Adj, below: seq<Frame>, top: Frame, v: nat)
    ensures
      var pushed := below + [Frame(top.bb, top.it + 1)] + [Frame(v, 0)];
      && Bbs(below + [top]) == Bbs(below) + [top.bb] && Its(below + [top]) == Its(below) + [top.it]
      && Bbs(pushed) == Bbs(below) + [top.bb] + [v] && Its(pushed) == Its(below) + [top.it + 1] + [0]
      && Elems(Bbs(pushed)) == Elems(Bbs(below + [top])) + {v}
  {
    hide Elems, Bbs, Its, Work;
    var next := Frame(top.bb, top.it + 1);
    StackSnoc(g, below, top);
    StackSnoc(g, below, next);
    StackSnoc(g, below + [next], Frame(v, 0));
  }

  lemma PushCase(g: Adj, visited0: set<nat>, tree0: set<Arc>, root: nat, s: Search, below: seq<Frame>, top: Frame,
                 v: nat, pushed: seq<Frame>)
    requires Going(g, visited0, tree0, root, s) && s.stack == below + [top]
    requires top.bb < |g| && top.it < |g[top.bb]| && v == g[top.bb][top.it] && v < |g| && v !in s.visited
    requires pushed == below + [Frame(top.bb, top.it + 1)] + [Frame(v, 0)]
    ensures Going(g, visited0, tree0, root,
                  s.(visited := s.visited + {v}, onStack := s.onStack + {v}, tree := s.tree + {(top.bb, v)},
                     stack := pushed))
  {
    hide *;
    PushedStack(g, below, top, v);
    PushGoing(g, visited0, tree0, root, s, Bbs(below), Its(below), top.bb, top.it, v, pushed);
  }

  lemma PushGoing(g: Adj, visited0: set<nat>, tree0: set<Arc>, root: nat, s: Search, path: seq<nat>, its: seq<nat>,
                  u: nat, it: nat, v: nat, pushed: seq<Frame>)
    requires Going(g, visited0, tree0, root, s) && Bbs(s.stack) == path + [u] && Its(s.stack) == its + [it]
    requires u < |g| && it < |g[u]| && v == g[u][it] && v !in s.visited && v < |g|
    requires Bbs(pushed) == path + [u] + [v] && Its(pushed) == its + [it + 1] + [0]
    requires Elems(Bbs(pushed)) == Elems(Bbs(s.stack)) + {v}
    ensures Going(g, visited0, tree0, root,
                  s.(visited := s.visited + {v}, onStack := s.onStack + {v}, tree := s.tree + {(u, v)}, stack := pushed))
  {
    hide Inv, Elems, Grown, Bbs, Its;
    PushStep(g, s.visited, path, its, s.back, s.tree, s.finish, u, it, v);
    PushGrown(visited0, tree0, root, s.visited, path, u, s.tree, v);
  }

  lemma OnStackIsVisited(g: Adj, visited0: set<nat>, tree0: set<Arc>, root: nat, s: Search)
    requires Going(g, visited0, tree0, root, s)
    ensures s.onStack <= s.visited
  {
    hide Inv, Bbs, Its;
  }

  // ----- against the recursive search

  /** What the recursive search finds when it goes on from a stack. */
  ghost function Resume(g: Adj, stack: seq<Frame>, f: Found): Found {
    if stack == [] then f
    else
      var top := stack[|stack| - 1];
      Resume(g, stack[..|stack| - 1], Explore(g, top.bb, top.it, Elems(Bbs(stack)), f))
  }

  lemma ResumeTop(g: Adj, below: seq<Frame>, top: Frame, f: Found)
    ensures Resume(g, below + [top], f) ==
            Resume(g, below, Explore(g, top.bb, top.it, Elems(Bbs(below)) + {top.bb}, f))
  {
    hide Explore, Elems, Bbs, Work;
    StackSnoc(g, below, top);
    assert (below + [top])[..|below|] == below;
  }

  lemma ResumePop(g: Adj, below: seq<Frame>, top: Frame, f: Found)
    requires top.bb < |g| && top.it == |g[top.bb]|
    ensures Resume(g, below + [top], f) == Resume(g, below, f)
  {
    ResumeTop(g, below, top, f);
    hide Resume, Elems, Bbs;
  }

  lemma ResumeDrop(g: Adj, below: seq<Frame>, top: Frame, f: Found)
    requires top.bb < |g| && top.it < |g[top.bb]| && g[top.bb][top.it] in Elems(Bbs(below)) + {top.bb}
    ensures Resume(g, below + [top], f) ==
            Resume(g, below + [Frame(top.bb, top.it + 1)], Found(f.seen, f.back + {(top.bb, g[top.bb][top.it])}))
  {
    ResumeTop(g, below, top, f);
    ResumeTop(g, below, Frame(top.bb, top.it + 1), Found(f.seen, f.back + {(top.bb, g[top.bb][top.it])}));
    hide Resume, Elems, Bbs;
  }

  lemma ResumeSkip(g: Adj, below: seq<Frame>, top: Frame, f: Found)
    requires top.bb < |g| && top.it < |g[top.bb]| && g[top.bb][top.it] !in Elems(Bbs(below)) + {top.bb}
    requires g[top.bb][top.it] in f.seen
    ensures Resume(g, below + [top], f) == Resume(g, below + [Frame(top.bb, top.it + 1)], f)
  {
    ResumeTop(g, below, top, f);
    ResumeTop(g, below, Frame(top.bb, top.it + 1), f);
    hide Resume, Elems, Bbs;
  }

  lemma ResumePush(g: Adj, below: seq<Frame>, top: Frame, f: Found)
    requires top.bb < |g| && top.it < |g[top.bb]| && g[top.bb][top.it] !in Elems(Bbs(below)) + {top.bb}
    requires g[top.bb][top.it] !in f.seen && g[top.bb][top.it] < |g|
    ensures var (next, s) := (Frame(top.bb, top.it + 1), g[top.bb][top.it]);
            Resume(g, below + [top], f) == Resume(g, below + [next] + [Frame(s, 0)], Found(f.seen + {s}, f.back))
  {
    var (next, s) := (Frame(top.bb, top.it + 1), g[top.bb][top.it]);
    ResumeTop(g, below, top, f);
    ResumeTop(g, below + [next], Frame(s, 0), Found(f.seen + {s}, f.back));
    ResumeTop(g, below, next, Explore(g, s, 0, Elems(Bbs(below)) + {top.bb} + {s}, Found(f.seen + {s}, f.back)));
    StackSnoc(g, below, next);
    hide Resume, Elems, Bbs, Work;
  }

  lemma ResumeRoot(g: Adj, root: nat, f: Found)
    ensures Resume(g, [Frame(root, 0)], f) == Explore(g, root, 0, {root}, f)
  {
    ResumeTop(g, [], Frame(root, 0), f);
    EmptyStack();
    assert [] + [Frame(root, 0)] == [Frame(root, 0)] && {} + {root} == {root};
    hide Explore;
  }

  lemma OpenBlocks(g: Adj, below: seq<Frame>, top: Frame)
    ensures forall b :: b in Elems(Bbs(below)) + {top.bb} <==> b in Bbs(below) + [top.bb]
  {
    hide Bbs, Its, Work;
    StackSnoc(g, below, top);
  }

  /** The `startAt` closure: search everything not yet seen from `root`. */
  method StartAt(g: Adj, root: nat, visited0: set<nat>, back0: set<Arc>, ghost tree0: set<Arc>,
                 ghost finish0: map<nat, nat>)
    returns (visited: set<nat>, back: set<Arc>, ghost tree: set<Arc>, ghost finish: map<nat, nat>)
    requires Closed(g) && root < |g|
    requires Inv(g, visited0, [], [], back0, tree0, finish0)
    ensures Inv(g, visited, [], [], back, tree, finish)
    ensures visited0 <= visited && root in visited && tree0 <= tree
    ensures root !in visited0 ==> Rooted(tree, root, visited0, visited)
    ensures Found(visited, back) == if root in visited0 then Found(visited0, back0)
                                    else Explore(g, root, 0, {root}, Found(visited0 + {root}, back0))
  {
    hide *;
    visited, back, tree, finish := visited0, back0, tree0, finish0;
    if root in visited { return; }
    StartCase(g, root, visited, back, tree, finish);
    visited := visited + {root};
    var onStack := {root};
    var stack := [Frame(root, 0)];
    ghost var whole := Explore(g, root, 0, {root}, Found(visited, back));
    ResumeRoot(g, root, Found(visited, back));
    while stack != []
      invariant Going(g, visited0, tree0, root, Search(visited, onStack, stack, back, tree, finish))
      invariant Resume(g, stack, Found(visited, back)) == whole
      decreases Unseen(g, visited), Work(g, stack)
    {
      var top, below := stack[|stack| - 1], stack[..|stack| - 1];
      assert stack == below + [top];
      ghost var now := Search(visited, onStack, stack, back, tree, finish);
      TopCase(g, visited0, tree0, root, now, below, top);
      if top.it == |g[top.bb]| {
        PopCase(g, visited0, tree0, root, now, below, top);
        ResumePop(g, below, top, Found(visited, back));
        onStack := onStack - {top.bb};
        finish := finish[top.bb := |finish|];
        stack := below;
        continue;
      }
      var s := g[top.bb][top.it];
      OnStackIsVisited(g, visited0, tree0, root, now);
      OpenBlocks(g, below, top);
      stack := below + [Frame(top.bb, top.it + 1)];
      if s in onStack {
        DropCase(g, visited0, tree0, root, now, below, top, s);
        ResumeDrop(g, below, top, Found(visited, back));
        back := back + {(top.bb, s)};
      } else if s !in visited {
        ClosedAt(g, top.bb, top.it);
        UnseenShrinks(g, visited, s);
        ResumePush(g, below, top, Found(visited, back));
        PushCase(g, visited0, tree0, root, now, below, top, s, stack + [Frame(s, 0)]);
        visited := visited + {s};
        onStack := onStack + {s};
        stack := stack + [Frame(s, 0)];
        tree := tree + {(top.bb, s)};
      } else {
        SkipCase(g, visited0, tree0, root, now, below, top, s);
        ResumeSkip(g, below, top, Found(visited, back));
      }
    }
    DoneCase(g, visited0, tree0, root, Search(visited, onStack, stack, back, tree, finish));
    ResumeNothing(g, Found(visited, back));
  }

  lemma ResumeNothing(g: Adj, f: Found)
    ensures Resume(g, [], f) == f
  {
  }

  lemma DoneCase(g: Adj, visited0: set<nat>, tree0: set<Arc>, root: nat, s: Search)
    requires Going(g, visited0, tree0, root, s) && s.stack == []
    ensures Inv(g, s.visited, [], [], s.back, s.tree, s.finish)
    ensures visited0 <= s.visited && root in s.visited && tree0 <= s.tree && Rooted(s.tree, root, visited0, s.visited)
  {
    hide Inv, Bbs, Its, Elems;
    EmptyStack();
  }

  /** What is left without the arcs of `back` has no cycle, each dropped arc
      alone would close one, and no block is cut off from the entry. */
  ghost predicate BreaksCycles(g: Adj, back: set<Arc>) {
    && Ranked(Without(g, back))
    && Acyclic(Without(g, back))
    && (forall a: Arc :: a in back ==> Edge(g, a.0, a.1) && Reaches(Without(g, back), a.1, a.0))
    && (forall b: nat :: Reaches(g, 0, b) ==> Reaches(Without(g, back), 0, b))
  }

  /** Discovery arcs survive, so a discovery walk is a walk of what is left. */
  lemma TreeWalkIsKept(g: Adj, visited: set<nat>, back: set<Arc>, tree: set<Arc>, p: seq<nat>, u: nat, v: nat)
    requires TreeShape(g, visited, [], tree, back) && TreeWalk(tree, p, u, v) && v < |g|
    ensures Reaches(Without(g, back), u, v)
  {
    var h := Without(g, back);
    forall i | 0 <= i < |p| - 1 ensures Edge(h, p[i], p[i + 1]) {
      assert (p[i], p[i + 1]) in tree;
    }
    forall i | 0 <= i < |p| ensures p[i] < |g| {
      if i + 1 < |p| { assert (p[i], p[i + 1]) in tree; }
    }
    assert WalkFromTo(h, p, u, v);
  }

  /** A finished search from the entry has seen all the entry reaches. */
  lemma SeenIsClosed(g: Adj, visited: set<nat>, back: set<Arc>, tree: set<Arc>, finish: map<nat, nat>, b: nat)
    requires Inv(g, visited, [], [], back, tree, finish) && 0 in visited && Reaches(g, 0, b)
    ensures b in visited
  {
    var p :| WalkFromTo(g, p, 0, b);
    forall u, v | u in visited && Edge(g, u, v) ensures v in visited {
      if (u, v) in back {
        var t :| TreeWalk(tree, t, v, u);
        TreeWalkVisited(g, visited, [], tree, back, t, v, u);
      }
    }
    ClosedSetHoldsWalk(g, visited, p);
  }

  lemma SearchBreaksCycles(g: Adj, visited: set<nat>, back: set<Arc>, tree: set<Arc>, finish: map<nat, nat>,
                           first: set<nat>, firstTree: set<Arc>)
    requires Closed(g) && Inv(g, visited, [], [], back, tree, finish)
    requires forall b: nat :: b < |g| ==> b in visited
    requires Rooted(firstTree, 0, {}, first) && firstTree <= tree && forall b: nat :: Reaches(g, 0, b) ==> b in first
    ensures BreaksCycles(g, back)
  {
    hide FramesOk, Reaches;
    var h := Without(g, back);
    var rank := seq(|g|, b requires 0 <= b < |g| => (assert b in finish; finish[b]));
    assert IsRank(h, rank);
    RankedIsAcyclic(h);
    forall a: Arc | a in back ensures Reaches(h, a.1, a.0) {
      var p :| TreeWalk(tree, p, a.1, a.0);
      TreeWalkIsKept(g, visited, back, tree, p, a.1, a.0);
    }
    forall b: nat | Reaches(g, 0, b) ensures Reaches(h, 0, b) {
      var p :| TreeWalk(firstTree, p, 0, b);
      assert TreeWalk(tree, p, 0, b);
      ReachesInGraph(g, b);
      TreeWalkIsKept(g, visited, back, tree, p, 0, b);
    }
  }

  lemma ReachesInGraph(g: Adj, b: nat)
    requires Reaches(g, 0, b)
    ensures b < |g|
  {
  }

  method FindBackEdges(g: Adj) returns (back: set<Arc>)
    requires Closed(g) && |g| > 0
    ensures BreaksCycles(g, back) && back == BackArcs(g)
  {
    hide *;
    ghost var tree, finish;
    var visited;
    EmptyInv(g);
    ExploreNext(g, 0, Found({}, {}));
    visited, back, tree, finish := StartAt(g, 0, {}, {}, {}, map[]);
    ghost var first, firstTree := visited, tree;
    forall b: nat | Reaches(g, 0, b) ensures b in first {
      SeenIsClosed(g, visited, back, tree, finish, b);
    }
    for bb := 0 to |g|
      invariant firstTree <= tree
      invariant Inv(g, visited, [], [], back, tree, finish)
      invariant forall b: nat :: b < bb ==> b in visited
      invariant ExploreAll(g, bb, Found(visited, back)) == ExploreAll(g, 0, Found({}, {}))
    {
      ExploreNext(g, bb, Found(visited, back));
      if bb !in visited {
        visited, back, tree, finish := StartAt(g, bb, visited, back, tree, finish);
      }
    }
    ExploreNext(g, |g|, Found(visited, back));
    SearchBreaksCycles(g, visited, back, tree, finish, first, firstTree);
    BackArcsAre(g);
  }

  lemma BackArcsAre(g: Adj)
    ensures BackArcs(g) == ExploreAll(g, 0, Found({}, {})).back
  {
  }

  /** Nothing is dropped from a graph that has no cycle. */
  lemma AcyclicLosesNothing(g: Adj, back: set<Arc>)
    requires Acyclic(g) && BreaksCycles(g, back)
    ensures back == {}
  {
    if a: Arc :| a in back {
      var p :| WalkFromTo(Without(g, back), p, a.1, a.0);
      forall i | 0 <= i < |p| - 1 ensures Edge(g, p[i], p[i + 1]) {
        assert Edge(Without(g, back), p[i], p[i + 1]);
      }
      assert Walk(g, p);
      WalkCons(g, a.0, p);
      assert false;
    }
  }
}
