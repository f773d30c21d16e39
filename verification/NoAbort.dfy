/** `collectNoAbortFunctions` of the PCGUARD pass: which functions run outside
    the fuzzing entry point and must not be given an `abort()`. */
module NoAbort {
  import opened Finite
  import opened Graph

  /** `calls[f]` lists the direct callees of `f`; only functions of `defined`
      have a body in the module. */
  datatype Program = Program(calls: Adj, defined: set<nat>)

  ghost predicate WellFormed(p: Program) {
    Closed(p.calls) && p.defined <= Below(|p.calls|)
  }

  /** A set that holds the defined roots and, with a function, every defined
      function it calls directly. */
  ghost predicate ClosedSet(p: Program, roots: seq<nat>, s: set<nat>) {
    && (forall r :: r in roots && r in p.defined ==> r in s)
    && (forall f: nat, g: nat :: f in s && Edge(p.calls, f, g) && g in p.defined ==> g in s)
  }

  /** `f` is `r` or called from it through defined functions only. */
  ghost predicate CallPath(p: Program, path: seq<nat>, r: nat, f: nat) {
    WalkFromTo(p.calls, path, r, f) && forall i :: 0 <= i < |path| ==> path[i] in p.defined
  }

  ghost predicate Called(p: Program, roots: seq<nat>, f: nat) {
    exists path :: CallPath(p, path, if path == [] then 0 else path[0], f) && path[0] in roots
  }

  lemma RootIsCalled(p: Program, roots: seq<nat>, r: nat)
    requires WellFormed(p) && r in roots && r in p.defined
    ensures Called(p, roots, r)
  {
    assert CallPath(p, [r], r, r);
  }

  lemma CalleeIsCalled(p: Program, roots: seq<nat>, f: nat, g: nat)
    requires WellFormed(p) && Called(p, roots, f) && Edge(p.calls, f, g) && g in p.defined
    ensures Called(p, roots, g)
  {
    var path :| CallPath(p, path, if path == [] then 0 else path[0], f) && path[0] in roots;
    assert g in Below(|p.calls|);
    WalkSnoc(p.calls, path, g);
    assert CallPath(p, path + [g], path[0], g);
  }

  /** `addRoot`: a defined function not seen before joins the set and the worklist. */
  method AddRoot(p: Program, f: nat, seen0: set<nat>, work0: seq<nat>) returns (seen: set<nat>, work: seq<nat>)
    ensures seen == if f in p.defined then seen0 + {f} else seen0
    ensures work == if f in p.defined && f !in seen0 then work0 + [f] else work0
  {
    seen, work := seen0, work0;
    if f in p.defined && f !in seen {
      seen := seen + {f};
      work := work + [f];
    }
  }

  /** Everything seen is justified, and what is not waiting has its callees seen. */
  ghost predicate Inv(p: Program, roots: seq<nat>, seen: set<nat>, work: seq<nat>) {
    && seen <= p.defined
    && (forall f :: f in work ==> f in seen)
    && (forall f :: f in seen ==> Called(p, roots, f))
    && (forall f: nat, g: nat :: f in seen && f !in work && Edge(p.calls, f, g) && g in p.defined ==> g in seen)
  }

  lemma CalledIsInClosedSet(p: Program, roots: seq<nat>, s: set<nat>, f: nat)
    requires ClosedSet(p, roots, s) && Called(p, roots, f)
    ensures f in s
  {
    var path :| CallPath(p, path, if path == [] then 0 else path[0], f) && path[0] in roots;
    PathStaysIn(p, roots, s, path, |path| - 1);
  }

  lemma {:induction false} PathStaysIn(p: Program, roots: seq<nat>, s: set<nat>, path: seq<nat>, i: nat)
    requires ClosedSet(p, roots, s) && Walk(p.calls, path) && path[0] in roots && i < |path|
    requires forall i :: 0 <= i < |path| ==> path[i] in p.defined
    ensures path[i] in s
    decreases i
  {
    if i == 0 {
    } else {
      PathStaysIn(p, roots, s, path, i - 1);
      assert Edge(p.calls, path[i - 1], path[i - 1 + 1]);
    }
  }

  /** The invariant while the first `k` callees of `f` have been added. */
  ghost predicate InvBut(p: Program, roots: seq<nat>, f: nat, k: nat, seen: set<nat>, work: seq<nat>)
    requires f < |p.calls| && k <= |p.calls[f]|
  {
    && f in seen && seen <= p.defined
    && (forall g :: g in work ==> g in seen)
    && (forall g :: g in seen ==> Called(p, roots, g))
    && (forall j :: 0 <= j < k && p.calls[f][j] in p.defined ==> p.calls[f][j] in seen)
    && (forall g: nat, h: nat ::
          g in seen && g !in work && g != f && Edge(p.calls, g, h) && h in p.defined ==> h in seen)
  }

  lemma BeginCallees(p: Program, roots: seq<nat>, f: nat, seen: set<nat>, work: seq<nat>)
    requires f in seen && f < |p.calls| && Inv(p, roots, seen, work + [f])
    ensures InvBut(p, roots, f, 0, seen, work)
  {
    hide Called, Edge;
    assert forall g :: g in work + [f] <==> g in work || g == f;
  }

  lemma OneCallee(p: Program, roots: seq<nat>, f: nat, k: nat, seen: set<nat>, work: seq<nat>)
    requires WellFormed(p) && f < |p.calls| && k < |p.calls[f]| && InvBut(p, roots, f, k, seen, work)
    ensures var g := p.calls[f][k];
            InvBut(p, roots, f, k + 1, if g in p.defined then seen + {g} else seen,
                   if g in p.defined && g !in seen then work + [g] else work)
  {
    hide Called, Edge;
    var g := p.calls[f][k];
    if g in p.defined { CalleeIsCalled(p, roots, f, g); }
    assert forall h :: h in work + [g] <==> h in work || h == g;
  }

  lemma EndCallees(p: Program, roots: seq<nat>, f: nat, seen: set<nat>, work: seq<nat>)
    requires f < |p.calls| && InvBut(p, roots, f, |p.calls[f]|, seen, work)
    ensures Inv(p, roots, seen, work)
  {
    hide Called;
  }

  /** The two inner loops: every direct callee of `f` goes through `addRoot`. */
  method AddCallees(p: Program, ghost roots: seq<nat>, f: nat, seen0: set<nat>, work0: seq<nat>)
    returns (seen: set<nat>, work: seq<nat>)
    requires WellFormed(p) && f in seen0 && f < |p.calls| && Inv(p, roots, seen0, work0 + [f])
    ensures Inv(p, roots, seen, work) && seen0 <= seen
    ensures seen == seen0 ==> work == work0
  {
    hide Inv, InvBut;
    seen, work := seen0, work0;
    BeginCallees(p, roots, f, seen, work);
    var callees := p.calls[f];
    for k := 0 to |callees|
      invariant seen0 <= seen && InvBut(p, roots, f, k, seen, work)
      invariant seen == seen0 ==> work == work0
    {
      OneCallee(p, roots, f, k, seen, work);
      seen, work := AddRoot(p, callees[k], seen, work);
    }
    EndCallees(p, roots, f, seen, work);
  }

  /** The result is the least closed set, on every call graph, recursive ones included. */
  method CollectNoAbort(p: Program, roots: seq<nat>) returns (seen: set<nat>)
    requires WellFormed(p)
    ensures ClosedSet(p, roots, seen)
    ensures forall s: set<nat> :: ClosedSet(p, roots, s) ==> seen <= s
    ensures forall f :: f in seen <==> Called(p, roots, f)
  {
    hide Called, Edge;
    var work: seq<nat> := [];
    seen := {};
    for i := 0 to |roots|
      invariant seen <= p.defined && (forall f :: f in seen <==> f in work)
      invariant forall f :: f in seen ==> Called(p, roots, f)
      invariant forall k :: 0 <= k < i && roots[k] in p.defined ==> roots[k] in seen
    {
      if roots[i] in p.defined { RootIsCalled(p, roots, roots[i]); }
      seen, work := AddRoot(p, roots[i], seen, work);
    }
    while work != []
      invariant Inv(p, roots, seen, work)
      invariant forall k :: 0 <= k < |roots| && roots[k] in p.defined ==> roots[k] in seen
      decreases |p.defined - seen|, |work|
    {
      var f, rest := work[|work| - 1], work[..|work| - 1];
      assert work == rest + [f];
      assert f in Below(|p.calls|);
      ghost var before := seen;
      seen, work := AddCallees(p, roots, f, seen, rest);
      if seen != before { FewerLeft(p.defined, before, seen); }
    }
    forall s: set<nat> | ClosedSet(p, roots, s) ensures seen <= s {
      forall f | f in seen ensures f in s { CalledIsInClosedSet(p, roots, s, f); }
    }
    forall f | Called(p, roots, f) ensures f in seen { CalledIsInClosedSet(p, roots, seen, f); }
  }

  lemma FewerLeft(all: set<nat>, a: set<nat>, b: set<nat>)
    requires a <= b <= all && a != b
    ensures |all - b| < |all - a|
  {
    var x :| x in b && x !in a;
    SubsetSize(all - b, all - a - {x});
  }
}
