/** Maps scanned in chunks: what is done to the chunks is done to the map. */
module Chunks {
  import opened VirginMap

  /** The map the chunks make up. */
  ghost function Flat(cs: seq<Bytes>): (b: Bytes) {
    if cs == [] then [] else Flat(cs[..|cs| - 1]) + cs[|cs| - 1]
  }

  lemma FlatSnoc(cs: seq<Bytes>, k: nat)
    requires k < |cs|
    ensures Flat(cs[..k + 1]) == Flat(cs[..k]) + cs[k]
  {
    assert cs[..k + 1][..k] == cs[..k];
  }

  /** Two maps cut alike, up to chunk `k`. */
  ghost predicate Alike(cs: seq<Bytes>, vs: seq<Bytes>, k: nat) {
    k <= |cs| && k <= |vs| && forall i :: 0 <= i < k ==> |cs[i]| == |vs[i]|
  }

  lemma {:induction false} AlikeLength(cs: seq<Bytes>, vs: seq<Bytes>, k: nat)
    requires Alike(cs, vs, k)
    ensures |Flat(cs[..k])| == |Flat(vs[..k])|
    decreases k
  {
    if k == 0 {
    } else {
      AlikeLength(cs, vs, k - 1);
      FlatSnoc(cs, k - 1);
      FlatSnoc(vs, k - 1);
    }
  }

  // ----- scanning

  /** What a scan of the first `k` chunks has done. */
  ghost predicate Scanned(cs: seq<Bytes>, vs: seq<Bytes>, k: nat, ret: nat, vs': seq<Bytes>) {
    && k <= |vs'| && Alike(cs, vs, k) && |Flat(cs[..k])| == |Flat(vs[..k])|
    && ret == Verdict(Flat(cs[..k]), Flat(vs[..k])) <= 2
    && Flat(vs'[..k]) == Cleared(Flat(cs[..k]), Flat(vs[..k]))
  }

  lemma ScanNothing(cs: seq<Bytes>, vs: seq<Bytes>)
    ensures Scanned(cs, vs, 0, 0, vs)
  {
  }

  lemma ScanStep(cs: seq<Bytes>, vs: seq<Bytes>, k: nat, ret: nat, vs': seq<Bytes>, ret': nat, c: Bytes)
    requires k < |cs| && k < |vs| == |vs'| && |cs[k]| == |vs[k]| && Scanned(cs, vs, k, ret, vs')
    requires var v := Verdict(cs[k], vs[k]); ret' == if ret < v then v else ret
    requires c == Cleared(cs[k], vs[k])
    ensures Scanned(cs, vs, k + 1, ret', vs'[k := c])
  {
    hide Cleared, Flat, NewTuple, NewBits;
    FlatSnoc(cs, k);
    FlatSnoc(vs, k);
    FlatSnoc(vs'[k := c], k);
    assert vs'[k := c][..k] == vs'[..k];
    VerdictConcat(Flat(cs[..k]), cs[k], Flat(vs[..k]), vs[k]);
    PiecewiseConcat(Flat(cs[..k]), cs[k], Flat(vs[..k]), vs[k]);
  }

  // ----- skimming

  /** Does a raw chunk bring new bits? */
  ghost predicate Fresh(c: Bytes, v: Bytes)
    requires |c| == |v|
  {
    NewBits(Classified(c), v)
  }

  lemma {:induction false} FreshAnywhere(cs: seq<Bytes>, vs: seq<Bytes>, k: nat)
    requires Alike(cs, vs, k)
    ensures |Flat(cs[..k])| == |Flat(vs[..k])|
    ensures Fresh(Flat(cs[..k]), Flat(vs[..k])) <==> exists j :: 0 <= j < k && Fresh(cs[j], vs[j])
    decreases k
  {
    hide Flat, Classified;
    AlikeLength(cs, vs, k);
    if k == 0 {
      NothingFresh();
      assert cs[..0] == [] && vs[..0] == [];
    } else {
      FreshAnywhere(cs, vs, k - 1);
      FlatSnoc(cs, k - 1);
      FlatSnoc(vs, k - 1);
      hide NewBits;
      PiecewiseConcat(Flat(cs[..k - 1]), cs[k - 1], Flat(vs[..k - 1]), vs[k - 1]);
      NewBitsConcat(Classified(Flat(cs[..k - 1])), Classified(cs[k - 1]), Flat(vs[..k - 1]), vs[k - 1]);
    }
  }

  lemma NothingFresh()
    ensures Flat([]) == [] && !Fresh([], [])
  {
  }

  // ----- classifying

  lemma ClassifyStep(before: seq<Bytes>, after: seq<Bytes>, k: nat)
    requires k < |before| && k < |after| && after[k] == Classified(before[k])
    requires Flat(after[..k]) == Classified(Flat(before[..k]))
    ensures Flat(after[..k + 1]) == Classified(Flat(before[..k + 1]))
  {
    hide Flat, Classified;
    FlatSnoc(before, k);
    FlatSnoc(after, k);
    PiecewiseConcat(Flat(before[..k]), before[k], Flat(before[..k]), before[k]);
  }

  lemma ClassifyNothing(cs: seq<Bytes>)
    ensures Flat(cs[..0]) == Classified(Flat(cs[..0]))
  {
  }
}
