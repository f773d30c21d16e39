/** `MUT_SHUFFLE`: from the last position of a block down to the second, swap the
    byte with one at a lower position drawn at random. */
module Shuffle {
  import opened Finite

  function Swap<T>(a: seq<T>, i: nat, j: nat): (b: seq<T>)
    requires i < |a| && j < |a|
    ensures |b| == |a|
  {
    a[i := a[j]][j := a[i]]
  }

  /** The draws for a block of `m` positions: the first is below `m - 1`, the next below `m - 2`, ... */
  ghost predicate Draws(m: nat, js: seq<nat>) {
    |js| < m && forall k :: 0 <= k < |js| ==> js[k] < m - 1 - k
  }

  /** The block after the swaps for `js`, starting at position `m - 1`. */
  function Swaps<T>(a: seq<T>, m: nat, js: seq<nat>): (b: seq<T>)
    requires m <= |a| && Draws(m, js)
    ensures |b| == |a|
    decreases |js|
  {
    if js == [] then a else
      assert Draws(m - 1, js[1..]);
      Swaps(Swap(a, m - 1, js[0]), m - 1, js[1..])
  }

  lemma {:induction false} SwapsSnoc<T>(a: seq<T>, m: nat, js: seq<nat>, j: nat)
    requires m <= |a| && Draws(m, js) && |js| + 1 < m && j < m - 1 - |js|
    ensures Draws(m, js + [j])
    ensures Swaps(a, m, js + [j]) == Swap(Swaps(a, m, js), m - 1 - |js|, j)
    decreases |js|
  {
    assert Draws(m, js + [j]);
    if js != [] {
      assert Draws(m - 1, js[1..]);
      SwapsSnoc(Swap(a, m - 1, js[0]), m - 1, js[1..], j);
      assert (js + [j])[1..] == js[1..] + [j];
    } else {
      assert (js + [j])[1..] == [];
    }
  }

  /** Which position each of the first `m` positions takes its byte from. */
  function Source(m: nat, js: seq<nat>): (p: seq<nat>)
    requires Draws(m, js) && |js| == m - 1
    ensures |p| == m && forall x :: 0 <= x < m ==> p[x] < m
    decreases m
  {
    if m == 1 then [0]
    else
      assert Draws(m - 1, js[1..]);
      var p := Source(m - 1, js[1..]);
      seq(m - 1, x requires 0 <= x < m - 1 => if p[x] == js[0] then m - 1 else p[x]) + [js[0]]
  }

  lemma {:induction false} SwapsMoveBySource<T>(a: seq<T>, m: nat, js: seq<nat>, x: nat)
    requires m <= |a| && Draws(m, js) && |js| == m - 1 && x < |a|
    ensures Swaps(a, m, js)[x] == if x < m then a[Source(m, js)[x]] else a[x]
    decreases m
  {
    if m <= 1 {
    } else {
      assert Draws(m - 1, js[1..]);
      SwapsMoveBySource(Swap(a, m - 1, js[0]), m - 1, js[1..], x);
    }
  }

  /** `c` lists every position below `|p|` once, each followed by the position
      it takes its byte from, the last by the first: one cycle through all. */
  ghost predicate SingleCycle(p: seq<nat>, c: seq<nat>) {
    && |c| == |p|
    && (forall k :: 0 <= k < |c| ==> c[k] < |p|)
    && (forall i, k :: 0 <= i < k < |c| ==> c[i] != c[k])
    && (forall k :: 0 <= k < |c| ==> c[k] < |p| && p[c[k]] == c[if k + 1 < |c| then k + 1 else 0])
  }

  /** Whatever was drawn, the shuffle is a single cycle. */
  lemma {:induction false} ShuffleIsSingleCycle(m: nat, js: seq<nat>) returns (c: seq<nat>)
    requires Draws(m, js) && |js| == m - 1
    ensures SingleCycle(Source(m, js), c)
    decreases m
  {
    if m == 1 {
      c := [0];
    } else {
      assert Draws(m - 1, js[1..]);
      var p := Source(m - 1, js[1..]);
      var d := ShuffleIsSingleCycle(m - 1, js[1..]);
      var k := PositionOf(p, d, js[0]);
      c := d[..k] + [m - 1] + d[k..];
      InsertIntoCycle(p, d, js[0], k, Source(m, js), c);
    }
  }

  lemma PositionOf(p: seq<nat>, c: seq<nat>, v: nat) returns (k: nat)
    requires SingleCycle(p, c) && v < |p|
    ensures k < |c| && c[k] == v
  {
    DistinctBelow(c, |p|);
    assert v in c;
    k :| 0 <= k < |c| && c[k] == v;
  }

  /** Putting the new top position in front of the position it takes its byte from. */
  lemma InsertIntoCycle(p: seq<nat>, d: seq<nat>, j: nat, k: nat, q: seq<nat>, c: seq<nat>)
    requires SingleCycle(p, d) && k < |d| && d[k] == j && c == d[..k] + [|p|] + d[k..]
    requires |q| == |p| + 1 && q[|p|] == j
    requires forall x :: 0 <= x < |p| ==> q[x] == if p[x] == j then |p| else p[x]
    ensures SingleCycle(q, c)
  {
    InsertedAt(d, |p|, k, c);
    forall i | 0 <= i < |c| ensures c[i] < |q| && q[c[i]] == c[if i + 1 < |c| then i + 1 else 0] {
      StepAcross(p, d, k, q, c, i);
    }
  }

  lemma InsertedAt(d: seq<nat>, n: nat, k: nat, c: seq<nat>)
    requires k < |d| == n && c == d[..k] + [n] + d[k..]
    requires (forall i :: 0 <= i < n ==> d[i] < n) && forall i, l :: 0 <= i < l < n ==> d[i] != d[l]
    ensures |c| == n + 1 && c[k] == n
    ensures (forall i :: 0 <= i < k ==> c[i] == d[i]) && forall i :: k < i < |c| ==> c[i] == d[i - 1]
    ensures forall i, l :: 0 <= i < l < |c| ==> c[i] != c[l]
  {
  }

  lemma StepAcross(p: seq<nat>, d: seq<nat>, k: nat, q: seq<nat>, c: seq<nat>, i: nat)
    requires SingleCycle(p, d) && k < |d| && |c| == |d| + 1 && i < |c| && c[k] == |p|
    requires (forall i :: 0 <= i < k ==> c[i] == d[i]) && forall i :: k < i < |c| ==> c[i] == d[i - 1]
    requires |q| == |p| + 1 && q[|p|] == d[k]
    requires forall x :: 0 <= x < |p| ==> q[x] == if p[x] == d[k] then |p| else p[x]
    ensures c[i] < |q| && q[c[i]] == c[if i + 1 < |c| then i + 1 else 0]
  {
    var n := |p|;
    if i < k {
      assert p[d[i]] == d[i + 1];
    } else if i > k {
      var at := i - 1;
      assert p[d[at]] == d[if at + 1 < |d| then at + 1 else 0];
      assert c[0] == if k == 0 then n else d[0];
      assert i < n ==> c[i + 1] == d[i];
    } else {
      assert c[k + 1] == d[k];
    }
  }

  /** Blocks longer than one byte: no position keeps its byte. */
  lemma NoFixedPosition(p: seq<nat>, c: seq<nat>, x: nat)
    requires SingleCycle(p, c) && |p| > 1 && x < |p|
    ensures p[x] != x
  {
    var k := PositionOf(p, c, x);
    assert p[c[k]] == c[if k + 1 < |c| then k + 1 else 0];
  }

  /** The loop, in place. */
  method ShuffleBlock<T>(buf: array<T>, off: nat, blen: nat, js: seq<nat>)
    requires 0 < blen && off + blen <= buf.Length && Draws(blen, js) && |js| == blen - 1
    modifies buf
    ensures buf[off..off + blen] == Swaps(old(buf[off..off + blen]), blen, js)
    ensures buf[..off] == old(buf[..off]) && buf[off + blen..] == old(buf[off + blen..])
  {
    var i := blen - 1;
    ghost var start := buf[off..off + blen];
    while i > 0
      invariant i <= blen - 1 && Draws(blen, js[..blen - 1 - i])
      invariant buf[off..off + blen] == Swaps(start, blen, js[..blen - 1 - i])
      invariant buf[..off] == old(buf[..off]) && buf[off + blen..] == old(buf[off + blen..])
    {
      // Drawn from 0 .. i until it differs from i.
      var k := blen - 1 - i;
      var j := js[k];
      SwapsSnoc(start, blen, js[..k], j);
      assert js[..k + 1] == js[..k] + [j];
      ghost var before := buf[off..off + blen];
      buf[off + i], buf[off + j] := buf[off + j], buf[off + i];
      assert buf[off..off + blen] == Swap(before, i, j);
      i := i - 1;
    }
    assert js[..blen - 1] == js;
  }
}
