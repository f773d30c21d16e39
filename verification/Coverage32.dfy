/** The 32-bit forms of coverage-32.h, and that two of their steps do what one
    64-bit step does. */
module Coverage32 {
  import opened VirginMap
  import Chunks
  import Coverage64

  function Byte(w: bv32, at: bv32): bv8
    requires at <= 24
  {
    ((w >> at) & 0xff) as bv8
  }

  /** The bytes of a word in memory order. */
  function Split(w: bv32): (b: Bytes)
    ensures |b| == 4
  {
    [Byte(w, 0), Byte(w, 8), Byte(w, 16), Byte(w, 24)]
  }

  function ClearWord(cur: bv32, vir: bv32): bv32 {
    vir & !cur
  }

  predicate CommonWord(cur: bv32, vir: bv32) {
    cur & vir != 0
  }

  lemma AndBits(a: bv32, b: bv32, at: bv32)
    requires at <= 24
    ensures Byte(a & b, at) == Byte(a, at) & Byte(b, at)
  {
  }

  lemma AndNotBits(a: bv32, b: bv32, at: bv32)
    requires at <= 24
    ensures Byte(a & !b, at) == Byte(a, at) & !Byte(b, at)
  {
  }

  lemma ByteAndNot(vir: bv32, cur: bv32, at: bv32)
    requires at <= 24
    ensures Byte(ClearWord(cur, vir), at) == ClearByte(Byte(cur, at), Byte(vir, at))
  {
    hide Byte;
    AndNotBits(vir, cur, at);
  }

  lemma ByteCommon(cur: bv32, vir: bv32, at: bv32)
    requires at <= 24
    ensures Byte(cur & vir, at) != 0 <==> Common(Byte(cur, at), Byte(vir, at))
  {
    hide Byte;
    AndBits(cur, vir, at);
  }

  lemma ZeroBytes(w: bv32)
    ensures w == 0 <==> Byte(w, 0) == 0 && Byte(w, 8) == 0 && Byte(w, 16) == 0 && Byte(w, 24) == 0
  {
  }

  lemma SplitOps(cur: bv32, vir: bv32)
    ensures Split(ClearWord(cur, vir)) == Cleared(Split(cur), Split(vir))
    ensures CommonWord(cur, vir) <==> NewBits(Split(cur), Split(vir))
  {
    CommonIsByteWise(cur, vir);
    hide Byte, Common, ClearByte, ClearWord, CommonWord;
    ByteAndNot(vir, cur, 0);
    ByteAndNot(vir, cur, 8);
    ByteAndNot(vir, cur, 16);
    ByteAndNot(vir, cur, 24);
    var c, v := Split(cur), Split(vir);
    assert CommonWord(cur, vir) ==>
        Common(c[0], v[0]) || Common(c[1], v[1]) || Common(c[2], v[2]) || Common(c[3], v[3]);
  }

  lemma CommonIsByteWise(cur: bv32, vir: bv32)
    ensures CommonWord(cur, vir) <==>
            || Common(Byte(cur, 0), Byte(vir, 0)) || Common(Byte(cur, 8), Byte(vir, 8))
            || Common(Byte(cur, 16), Byte(vir, 16)) || Common(Byte(cur, 24), Byte(vir, 24))
  {
    hide Byte, Common;
    ZeroBytes(cur & vir);
    ByteCommon(cur, vir, 0);
    ByteCommon(cur, vir, 8);
    ByteCommon(cur, vir, 16);
    ByteCommon(cur, vir, 24);
  }

  lemma WordVerdict(cur: bv32, vir: bv32)
    ensures Verdict(Split(cur), Split(vir)) ==
            if !CommonWord(cur, vir) then 0 else if NewTuple(Split(cur), Split(vir)) then 2 else 1
    ensures !CommonWord(cur, vir) ==> Split(vir) == Cleared(Split(cur), Split(vir))
  {
    hide Split, CommonWord, Cleared, NewBits;
    SplitOps(cur, vir);
    if !CommonWord(cur, vir) { NothingToClear(Split(cur), Split(vir)); }
  }

  method DiscoverWord(ret0: nat, cur: bv32, vir0: bv32) returns (ret: nat, vir: bv32)
    requires ret0 <= 2
    ensures var v := Verdict(Split(cur), Split(vir0)); ret == if ret0 < v then v else ret0
    ensures Split(vir) == Cleared(Split(cur), Split(vir0))
  {
    hide Byte, ClearWord, Cleared, CommonWord, NewBits;
    ret, vir := ret0, vir0;
    WordVerdict(cur, vir0);
    if CommonWord(cur, vir) {
      if ret < 2 {
        var c, v := Split(cur), Split(vir);
        if (c[0] != 0 && v[0] == 0xff) || (c[1] != 0 && v[1] == 0xff)
           || (c[2] != 0 && v[2] == 0xff) || (c[3] != 0 && v[3] == 0xff) {
          ret := 2;
        } else {
          ret := 1;
        }
      }
      SplitOps(cur, vir);
      vir := ClearWord(cur, vir);
    }
  }

  // ----- agreement with the 64-bit forms

  function Low(w: bv64): bv32 {
    (w & 0xffff_ffff) as bv32
  }

  function High(w: bv64): bv32 {
    ((w >> 32) & 0xffff_ffff) as bv32
  }

  lemma HalvesHoldBytes(w: bv64)
    ensures Byte(Low(w), 0) == Coverage64.Byte(w, 0) && Byte(Low(w), 8) == Coverage64.Byte(w, 8)
    ensures Byte(Low(w), 16) == Coverage64.Byte(w, 16) && Byte(Low(w), 24) == Coverage64.Byte(w, 24)
    ensures Byte(High(w), 0) == Coverage64.Byte(w, 32) && Byte(High(w), 8) == Coverage64.Byte(w, 40)
    ensures Byte(High(w), 16) == Coverage64.Byte(w, 48) && Byte(High(w), 24) == Coverage64.Byte(w, 56)
  {
  }

  lemma SplitHalves(w: bv64)
    ensures Coverage64.Split(w) == Split(Low(w)) + Split(High(w))
  {
    hide Byte, Coverage64.Byte, Low, High;
    HalvesHoldBytes(w);
  }

  /** Two 32-bit steps on the halves of a word give the verdict and the virgin
      bytes of one 64-bit step. */
  method DiscoverHalves(ret0: nat, cur: bv64, vir0: bv64) returns (ret: nat, low: bv32, high: bv32)
    requires ret0 <= 2
    ensures var v := Verdict(Coverage64.Split(cur), Coverage64.Split(vir0)); ret == if ret0 < v then v else ret0
    ensures Split(low) + Split(high) == Cleared(Coverage64.Split(cur), Coverage64.Split(vir0))
  {
    hide Split, Coverage64.Split, Verdict, Cleared;
    SplitHalves(cur);
    SplitHalves(vir0);
    VerdictConcat(Split(Low(cur)), Split(High(cur)), Split(Low(vir0)), Split(High(vir0)));
    PiecewiseConcat(Split(Low(cur)), Split(High(cur)), Split(Low(vir0)), Split(High(vir0)));
    VerdictIsSmall(Split(Low(cur)), Split(Low(vir0)));
    ret, low := DiscoverWord(ret0, Low(cur), Low(vir0));
    ret, high := DiscoverWord(ret, High(cur), High(vir0));
  }

  lemma VerdictIsSmall(cur: Bytes, vir: Bytes)
    requires |cur| == |vir|
    ensures Verdict(cur, vir) <= 2
  {
  }

  // ----- classification

  function Half(w: bv32, at: bv32): bv16
    requires at <= 16
  {
    ((w >> at) & 0xffff) as bv16
  }

  /** Two 16-bit lookups. */
  function ClassifyWord(w: bv32): bv32 {
    (Coverage64.Lookup16(Half(w, 0)) as bv32) | ((Coverage64.Lookup16(Half(w, 16)) as bv32) << 16)
  }

  lemma HalfBytes(w: bv32, at: bv32)
    requires at <= 16
    ensures (Half(w, at) & 0xff) as bv8 == Byte(w, at)
    ensures ((Half(w, at) >> 8) & 0xff) as bv8 == Byte(w, at + 8)
  {
  }

  lemma JoinedHalves(a: bv16, b: bv16, w: bv32)
    requires w == (a as bv32) | ((b as bv32) << 16)
    ensures Half(w, 0) == a && Half(w, 16) == b
  {
  }

  lemma ClassifyHalf(w: bv32, at: bv32)
    requires at <= 16 && Half(ClassifyWord(w), at) == Coverage64.Lookup16(Half(w, at))
    ensures Byte(ClassifyWord(w), at) == Class8(Byte(w, at))
    ensures Byte(ClassifyWord(w), at + 8) == Class8(Byte(w, at + 8))
  {
    hide Class8, Half, Coverage64.Lookup16, ClassifyWord, Byte;
    HalfBytes(w, at);
    HalfBytes(ClassifyWord(w), at);
    Coverage64.LookupBytes(Half(w, at));
  }

  lemma SplitClassified(w: bv32)
    ensures Split(ClassifyWord(w)) == Classified(Split(w))
  {
    hide Class8, Half, Coverage64.Lookup16, Byte;
    JoinedHalves(Coverage64.Lookup16(Half(w, 0)), Coverage64.Lookup16(Half(w, 16)), ClassifyWord(w));
    ClassifyHalf(w, 0);
    ClassifyHalf(w, 16);
  }

  /** The test `skim` makes on a raw 32-bit word. */
  predicate Fresh(cur: bv32, vir: bv32) {
    cur != 0 && CommonWord(ClassifyWord(cur), vir)
  }

  lemma ZeroIsStale(vir: bv32)
    ensures ClassifyWord(0) == 0 && !CommonWord(0, vir)
  {
  }

  lemma FreshMeans(cur: bv32, vir: bv32)
    ensures Fresh(cur, vir) <==> NewBits(Classified(Split(cur)), Split(vir))
  {
    hide Split, Classified, ClassifyWord, CommonWord, NewBits;
    SplitClassified(cur);
    SplitOps(ClassifyWord(cur), vir);
    ZeroIsStale(vir);
  }

  /** A raw 64-bit word is worth a closer look if and only if one of its halves is. */
  lemma FreshAgrees(cur: bv64, vir: bv64)
    ensures Coverage64.Fresh(cur, vir) <==> Fresh(Low(cur), Low(vir)) || Fresh(High(cur), High(vir))
  {
    hide Split, Coverage64.Split, Classified, NewBits, Fresh, Coverage64.Fresh, Low, High;
    Coverage64.FreshMeans(cur, vir);
    FreshMeans(Low(cur), Low(vir));
    FreshMeans(High(cur), High(vir));
    SplitHalves(cur);
    SplitHalves(vir);
    PiecewiseConcat(Split(Low(cur)), Split(High(cur)), Split(Low(vir)), Split(High(vir)));
    NewBitsConcat(Classified(Split(Low(cur))), Classified(Split(High(cur))), Split(Low(vir)), Split(High(vir)));
  }

  // ----- whole maps

  /** The words of a map as chunks of bytes. */
  ghost function Splits(ws: seq<bv32>): (cs: seq<Bytes>)
    ensures |cs| == |ws| && forall i :: 0 <= i < |ws| ==> cs[i] == Split(ws[i])
  {
    seq(|ws|, i requires 0 <= i < |ws| => Split(ws[i]))
  }

  lemma {:induction false} FlatLength(ws: seq<bv32>)
    ensures |Chunks.Flat(Splits(ws))| == 4 * |ws|
    decreases |ws|
  {
    if ws == [] {
    } else {
      var n := |ws| - 1;
      FlatLength(ws[..n]);
      assert Splits(ws[..n]) == Splits(ws)[..n];
      Chunks.FlatSnoc(Splits(ws), n);
      assert Splits(ws)[..n + 1] == Splits(ws);
    }
  }

  /** The bytes of a map of words. */
  ghost function Flat(ws: seq<bv32>): (b: Bytes)
    ensures |b| == 4 * |ws|
  {
    FlatLength(ws);
    Chunks.Flat(Splits(ws))
  }

  lemma FlatPrefix(ws: seq<bv32>, k: nat)
    requires k <= |ws|
    ensures Flat(ws[..k]) == Chunks.Flat(Splits(ws)[..k])
  {
    assert Splits(ws[..k]) == Splits(ws)[..k];
  }

  /** `has_new_bits` over the first `n` words. */
  method HasNewBits(current: array<bv32>, virgin: array<bv32>, n: nat) returns (ret: nat)
    requires n <= current.Length && n <= virgin.Length && current != virgin
    modifies virgin
    ensures ret == Verdict(Flat(current[..n]), old(Flat(virgin[..n])))
    ensures Flat(virgin[..n]) == Cleared(Flat(current[..n]), old(Flat(virgin[..n])))
    ensures virgin[n..] == old(virgin[n..])
  {
    hide Split, Verdict, Cleared, Chunks.Flat, Chunks.Scanned;
    ret := 0;
    ghost var cs, vs := current[..], virgin[..];
    Chunks.ScanNothing(Splits(cs), Splits(vs));
    for k := 0 to n
      invariant ret <= 2 && virgin[k..] == vs[k..]
      invariant Chunks.Scanned(Splits(cs), Splits(vs), k, ret, Splits(virgin[..]))
    {
      assert virgin[k] == virgin[k..][0] == vs[k];
      ghost var before := virgin[..];
      var w := virgin[k];
      var ret' := ret;
      if current[k] != 0 {
        ret', w := DiscoverWord(ret, current[k], virgin[k]);
      } else {
        SkipZero(virgin[k]);
      }
      Chunks.ScanStep(Splits(cs), Splits(vs), k, ret, Splits(before), ret', Split(w));
      virgin[k] := w;
      assert Splits(virgin[..]) == Splits(before)[k := Split(w)];
      ret := ret';
      ScanBound(cs, vs, k + 1, ret, virgin[..]);
    }
    ScanDone(cs, vs, n, ret, virgin[..]);
    assert current[..n] == cs[..n] && vs[..n] == old(virgin[..n]) && virgin[..n] == virgin[..][..n];
  }

  lemma ScanBound(cs: seq<bv32>, vs: seq<bv32>, k: nat, ret: nat, vs': seq<bv32>)
    requires Chunks.Scanned(Splits(cs), Splits(vs), k, ret, Splits(vs'))
    ensures ret <= 2
  {
  }

  lemma ScanDone(cs: seq<bv32>, vs: seq<bv32>, n: nat, ret: nat, vs': seq<bv32>)
    requires n <= |cs| && n <= |vs| && n <= |vs'| && Chunks.Scanned(Splits(cs), Splits(vs), n, ret, Splits(vs'))
    ensures ret == Verdict(Flat(cs[..n]), Flat(vs[..n]))
    ensures Flat(vs'[..n]) == Cleared(Flat(cs[..n]), Flat(vs[..n]))
  {
    hide Flat, Verdict, Cleared;
    FlatPrefix(cs, n);
    FlatPrefix(vs, n);
    FlatPrefix(vs', n);
  }

  lemma SkipZero(vir: bv32)
    ensures Verdict(Split(0), Split(vir)) == 0 && Split(vir) == Cleared(Split(0), Split(vir))
  {
    hide Split, Verdict, Cleared, CommonWord;
    ZeroIsStale(vir);
    WordVerdict(0, vir);
  }

  /** `classify_counts`, in place. */
  method ClassifyCounts(mem: array<bv32>)
    modifies mem
    ensures Flat(mem[..]) == Classified(old(Flat(mem[..]))) && ClassesOf(old(Flat(mem[..])), Flat(mem[..]))
  {
    hide Split, Classified, ClassesOf, Chunks.Flat, ClassifyWord;
    ghost var before := mem[..];
    Chunks.ClassifyNothing(Splits(before));
    for k := 0 to mem.Length
      invariant mem[k..] == before[k..]
      invariant Chunks.Flat(Splits(mem[..])[..k]) == Classified(Chunks.Flat(Splits(before)[..k]))
    {
      assert mem[k] == mem[k..][0] == before[k];
      ghost var done := mem[..];
      SplitClassified(mem[k]);
      ZeroIsStale(0);
      if mem[k] != 0 { mem[k] := ClassifyWord(mem[k]); }
      assert mem[..] == done[k := mem[k]];
      assert Splits(mem[..])[..k] == Splits(done)[..k];
      Chunks.ClassifyStep(Splits(before), Splits(mem[..]), k);
    }
    assert Splits(mem[..])[..mem.Length] == Splits(mem[..]) && Splits(before)[..mem.Length] == Splits(before);
    ClassifiedIsClasses(Flat(before));
  }

  lemma FreshAnywhere(cs: seq<bv32>, vs: seq<bv32>, k: nat)
    requires k <= |cs| && k <= |vs|
    ensures NewBits(Classified(Flat(cs[..k])), Flat(vs[..k])) <==> exists j :: 0 <= j < k && Fresh(cs[j], vs[j])
  {
    hide Fresh, Chunks.Flat, Classified, NewBits;
    FlatPrefix(cs, k);
    FlatPrefix(vs, k);
    Chunks.FreshAnywhere(Splits(cs), Splits(vs), k);
    forall j | 0 <= j < k ensures Fresh(cs[j], vs[j]) <==> Chunks.Fresh(Splits(cs)[j], Splits(vs)[j]) {
      FreshMeans(cs[j], vs[j]);
    }
  }

  /** `skim`: four words per round, without changing anything. */
  method Skim(virgin: array<bv32>, current: array<bv32>) returns (r: nat)
    requires current.Length % 4 == 0 && current.Length <= virgin.Length
    ensures r == if NewBits(Classified(Flat(current[..])), Flat(virgin[..current.Length])) then 1 else 0
  {
    hide Flat, Classified, NewBits, Fresh;
    var k := 0;
    ghost var n := current.Length;
    FreshAnywhere(current[..], virgin[..], n);
    assert current[..][..n] == current[..] && virgin[..][..n] == virgin[..n];
    while k < current.Length
      invariant k <= n && k % 4 == 0
      invariant forall j :: 0 <= j < k ==> !Fresh(current[..][j], virgin[..][j])
    {
      if Fresh(current[k], virgin[k]) { assert Fresh(current[..][k], virgin[..][k]); return 1; }
      if Fresh(current[k + 1], virgin[k + 1]) { assert Fresh(current[..][k + 1], virgin[..][k + 1]); return 1; }
      if Fresh(current[k + 2], virgin[k + 2]) { assert Fresh(current[..][k + 2], virgin[..][k + 2]); return 1; }
      if Fresh(current[k + 3], virgin[k + 3]) { assert Fresh(current[..][k + 3], virgin[..][k + 3]); return 1; }
      k := k + 4;
    }
    return 0;
  }

  // ----- both widths on the same memory

  /** A map of 64-bit words as the 32-bit words in the same memory. */
  function Halves(ws: seq<bv64>): (hs: seq<bv32>)
    ensures |hs| == 2 * |ws|
  {
    if ws == [] then [] else Halves(ws[..|ws| - 1]) + [Low(ws[|ws| - 1]), High(ws[|ws| - 1])]
  }

  lemma {:induction false} SameBytes(ws: seq<bv64>)
    ensures Flat(Halves(ws)) == Coverage64.Flat(ws)
    decreases |ws|
  {
    if ws == [] {
    } else {
      var n := |ws| - 1;
      SameBytes(ws[..n]);
      hide Split, Coverage64.Split, Low, High, Chunks.Flat;
      FlatTwo(Halves(ws[..n]), Low(ws[n]), High(ws[n]));
      SplitHalves(ws[n]);
      Coverage64.FlatPrefix(ws, n);
      Chunks.FlatSnoc(Coverage64.Splits(ws), n);
      assert Coverage64.Splits(ws)[..n + 1] == Coverage64.Splits(ws);
    }
  }

  lemma FlatTwo(hs: seq<bv32>, low: bv32, high: bv32)
    ensures Flat(hs + [low, high]) == Flat(hs) + (Split(low) + Split(high))
  {
    hide Split, Chunks.Flat;
    var n, all := |hs|, hs + [low, high];
    assert all[..n] == hs;
    FlatPrefix(all, n);
    Chunks.FlatSnoc(Splits(all), n);
    Chunks.FlatSnoc(Splits(all), n + 1);
    assert Splits(all)[..n + 2] == Splits(all);
  }

  lemma {:induction false} HalvesPrefix(ws: seq<bv64>, n: nat)
    requires n <= |ws|
    ensures Halves(ws[..n]) == Halves(ws)[..2 * n]
    decreases |ws|
  {
    if n == |ws| {
      assert ws[..n] == ws;
    } else {
      HalvesPrefix(ws[..|ws| - 1], n);
      assert ws[..|ws| - 1][..n] == ws[..n];
    }
  }

  lemma SameBytesTo(ws: seq<bv64>, hs: seq<bv32>, n: nat)
    requires n <= |ws| && hs == Halves(ws)
    ensures Flat(hs[..2 * n]) == Coverage64.Flat(ws[..n])
  {
    hide Flat, Coverage64.Flat;
    HalvesPrefix(ws, n);
    SameBytes(ws[..n]);
  }

  /** The 32-bit and the 64-bit scan of the same memory give the same verdict and leave
      the same virgin bytes. */
  method ScansAgree(current: array<bv64>, virgin: array<bv64>, current32: array<bv32>, virgin32: array<bv32>, n: nat)
    returns (ret: nat, ret32: nat)
    requires n <= current.Length && n <= virgin.Length && current != virgin && current32 != virgin32
    requires current32[..] == Halves(current[..]) && virgin32[..] == Halves(virgin[..])
    modifies virgin, virgin32
    ensures ret == ret32
    ensures Flat(virgin32[..2 * n]) == Coverage64.Flat(virgin[..n])
  {
    hide Flat, Coverage64.Flat, Verdict, Cleared, Halves;
    SameBytesTo(current[..], current32[..], n);
    SameBytesTo(virgin[..], virgin32[..], n);
    assert current[..n] == current[..][..n] && virgin[..n] == virgin[..][..n];
    assert current32[..2 * n] == current32[..][..2 * n] && virgin32[..2 * n] == virgin32[..][..2 * n];
    ret := Coverage64.HasNewBits(current, virgin, n);
    ret32 := HasNewBits(current32, virgin32, 2 * n);
  }

  /** The skims find the same. */
  method SkimsAgree(current: array<bv64>, virgin: array<bv64>, current32: array<bv32>, virgin32: array<bv32>)
    returns (found: nat, found32: nat)
    requires current.Length % 4 == 0 && current.Length <= virgin.Length
    requires current32[..] == Halves(current[..]) && virgin32[..] == Halves(virgin[..])
    ensures found == found32
  {
    hide Flat, Coverage64.Flat, Classified, NewBits, Halves;
    ghost var n := current.Length;
    SameBytesTo(current[..], current32[..], n);
    SameBytesTo(virgin[..], virgin32[..], n);
    assert current[..n] == current[..] && virgin[..n] == virgin[..][..n];
    assert current32[..][..2 * n] == current32[..] && virgin32[..2 * n] == virgin32[..][..2 * n];
    TwiceFour(n, current32.Length);
    found := Coverage64.Skim(virgin, current);
    found32 := Skim(virgin32, current32);
  }

  lemma TwiceFour(n: nat, m: nat)
    requires n % 4 == 0 && m == 2 * n
    ensures m % 4 == 0
  {
  }

  /** The classified traces have the same bytes. */
  method ClassificationsAgree(current: array<bv64>, current32: array<bv32>)
    requires current32[..] == Halves(current[..])
    modifies current, current32
    ensures Flat(current32[..]) == Coverage64.Flat(current[..])
  {
    hide Flat, Coverage64.Flat, Classified, Halves;
    SameBytes(current[..]);
    Coverage64.ClassifyCounts(current);
    ClassifyCounts(current32);
  }
}
