/** The 64-bit scan of coverage-64.h: eight map bytes at a time. */
module Coverage64 {
  import opened VirginMap
  import Chunks

  /** The byte that starts at bit `at`. */
  function Byte(w: bv64, at: bv64): bv8
    requires at <= 56
  {
    ((w >> at) & 0xff) as bv8
  }

  /** The bytes of a word in memory order. */
  function Split(w: bv64): (b: Bytes)
    ensures |b| == 8
  {
    [Byte(w, 0), Byte(w, 8), Byte(w, 16), Byte(w, 24), Byte(w, 32), Byte(w, 40), Byte(w, 48), Byte(w, 56)]
  }

  /** The words of a map as chunks of bytes. */
  ghost function Splits(ws: seq<bv64>): (cs: seq<Bytes>)
    ensures |cs| == |ws| && forall i :: 0 <= i < |ws| ==> cs[i] == Split(ws[i])
  {
    seq(|ws|, i requires 0 <= i < |ws| => Split(ws[i]))
  }

  lemma {:induction false} FlatLength(ws: seq<bv64>)
    ensures |Chunks.Flat(Splits(ws))| == 8 * |ws|
    decreases |ws|
  {
    if ws == [] {
    } else {
      var n := |ws| - 1;
      FlatLength(ws[..n]);
      assert Splits(ws[..n]) == Splits(ws)[..n];
      Chunks.FlatSnoc(Splits(ws), n);
      assert Splits(ws)[..n + 1] == Splits(ws);
    }
  }

  /** The bytes of a map of words. */
  ghost function Flat(ws: seq<bv64>): (b: Bytes)
    ensures |b| == 8 * |ws|
  {
    FlatLength(ws);
    Chunks.Flat(Splits(ws))
  }

  lemma FlatPrefix(ws: seq<bv64>, k: nat)
    requires k <= |ws|
    ensures Flat(ws[..k]) == Chunks.Flat(Splits(ws)[..k])
  {
    assert Splits(ws[..k]) == Splits(ws)[..k];
  }

  // ----- words and their bytes

  function ClearWord(cur: bv64, vir: bv64): bv64 {
    vir & !cur
  }

  predicate CommonWord(cur: bv64, vir: bv64) {
    cur & vir != 0
  }

  lemma AndBits(a: bv64, b: bv64, at: bv64)
    requires at <= 56
    ensures Byte(a & b, at) == Byte(a, at) & Byte(b, at)
  {
  }

  lemma AndNotBits(a: bv64, b: bv64, at: bv64)
    requires at <= 56
    ensures Byte(a & !b, at) == Byte(a, at) & !Byte(b, at)
  {
  }

  lemma ByteAndNot(vir: bv64, cur: bv64, at: bv64)
    requires at <= 56
    ensures Byte(ClearWord(cur, vir), at) == ClearByte(Byte(cur, at), Byte(vir, at))
  {
    hide Byte;
    AndNotBits(vir, cur, at);
  }

  lemma ByteCommon(cur: bv64, vir: bv64, at: bv64)
    requires at <= 56
    ensures Byte(cur & vir, at) != 0 <==> Common(Byte(cur, at), Byte(vir, at))
  {
    hide Byte;
    AndBits(cur, vir, at);
  }

  lemma ZeroBytes(w: bv64)
    ensures w == 0 <==>
            && Byte(w, 0) == 0 && Byte(w, 8) == 0 && Byte(w, 16) == 0 && Byte(w, 24) == 0
            && Byte(w, 32) == 0 && Byte(w, 40) == 0 && Byte(w, 48) == 0 && Byte(w, 56) == 0
  {
  }

  lemma EightCleared(c: Bytes, v: Bytes, r: Bytes)
    requires |c| == |v| == |r| == 8
    requires r[0] == ClearByte(c[0], v[0]) && r[1] == ClearByte(c[1], v[1])
    requires r[2] == ClearByte(c[2], v[2]) && r[3] == ClearByte(c[3], v[3])
    requires r[4] == ClearByte(c[4], v[4]) && r[5] == ClearByte(c[5], v[5])
    requires r[6] == ClearByte(c[6], v[6]) && r[7] == ClearByte(c[7], v[7])
    ensures r == Cleared(c, v)
  {
    hide ClearByte;
  }

  /** `a & ~b` clears byte by byte. */
  lemma SplitCleared(cur: bv64, vir: bv64)
    ensures Split(ClearWord(cur, vir)) == Cleared(Split(cur), Split(vir))
  {
    hide Byte, ClearByte, ClearWord, Cleared;
    ByteAndNot(vir, cur, 0);
    ByteAndNot(vir, cur, 8);
    ByteAndNot(vir, cur, 16);
    ByteAndNot(vir, cur, 24);
    ByteAndNot(vir, cur, 32);
    ByteAndNot(vir, cur, 40);
    ByteAndNot(vir, cur, 48);
    ByteAndNot(vir, cur, 56);
    EightCleared(Split(cur), Split(vir), Split(ClearWord(cur, vir)));
  }

  lemma CommonBytes(cur: bv64, vir: bv64)
    ensures CommonWord(cur, vir) <==>
            || Common(Byte(cur, 0), Byte(vir, 0)) || Common(Byte(cur, 8), Byte(vir, 8))
            || Common(Byte(cur, 16), Byte(vir, 16)) || Common(Byte(cur, 24), Byte(vir, 24))
            || Common(Byte(cur, 32), Byte(vir, 32)) || Common(Byte(cur, 40), Byte(vir, 40))
            || Common(Byte(cur, 48), Byte(vir, 48)) || Common(Byte(cur, 56), Byte(vir, 56))
  {
    hide Byte, Common;
    ZeroBytes(cur & vir);
    ByteCommon(cur, vir, 0);
    ByteCommon(cur, vir, 8);
    ByteCommon(cur, vir, 16);
    ByteCommon(cur, vir, 24);
    ByteCommon(cur, vir, 32);
    ByteCommon(cur, vir, 40);
    ByteCommon(cur, vir, 48);
    ByteCommon(cur, vir, 56);
  }

  /** Two words share a set bit exactly when two of their bytes do. */
  lemma SplitNewBits(cur: bv64, vir: bv64)
    ensures CommonWord(cur, vir) <==> NewBits(Split(cur), Split(vir))
  {
    hide Byte, Common, CommonWord;
    CommonBytes(cur, vir);
    var c, v := Split(cur), Split(vir);
    assert CommonWord(cur, vir) ==>
        || Common(c[0], v[0]) || Common(c[1], v[1]) || Common(c[2], v[2]) || Common(c[3], v[3])
        || Common(c[4], v[4]) || Common(c[5], v[5]) || Common(c[6], v[6]) || Common(c[7], v[7]);
  }

  // ----- classification

  function Half(w: bv64, at: bv64): bv16
    requires at <= 48
  {
    ((w >> at) & 0xffff) as bv16
  }

  /** `count_class_lookup16`, built from the byte table. */
  function Lookup16(x: bv16): bv16 {
    ((Class8(((x >> 8) & 0xff) as bv8) as bv16) << 8) | (Class8((x & 0xff) as bv8) as bv16)
  }

  /** Four 16-bit lookups. */
  function ClassifyWord(w: bv64): bv64 {
    (Lookup16(Half(w, 0)) as bv64) | ((Lookup16(Half(w, 16)) as bv64) << 16)
    | ((Lookup16(Half(w, 32)) as bv64) << 32) | ((Lookup16(Half(w, 48)) as bv64) << 48)
  }

  lemma LookupBytes(x: bv16)
    ensures (Lookup16(x) & 0xff) as bv8 == Class8((x & 0xff) as bv8)
    ensures ((Lookup16(x) >> 8) & 0xff) as bv8 == Class8(((x >> 8) & 0xff) as bv8)
  {
    hide Class8;
  }

  lemma HalfBytes(w: bv64, at: bv64)
    requires at <= 48
    ensures (Half(w, at) & 0xff) as bv8 == Byte(w, at)
    ensures ((Half(w, at) >> 8) & 0xff) as bv8 == Byte(w, at + 8)
  {
  }

  lemma JoinedHalves(a: bv16, b: bv16, c: bv16, d: bv16, w: bv64)
    requires w == (a as bv64) | ((b as bv64) << 16) | ((c as bv64) << 32) | ((d as bv64) << 48)
    ensures Half(w, 0) == a && Half(w, 16) == b && Half(w, 32) == c && Half(w, 48) == d
  {
  }

  lemma ClassifyHalf(w: bv64, at: bv64)
    requires at <= 48 && Half(ClassifyWord(w), at) == Lookup16(Half(w, at))
    ensures Byte(ClassifyWord(w), at) == Class8(Byte(w, at))
    ensures Byte(ClassifyWord(w), at + 8) == Class8(Byte(w, at + 8))
  {
    hide Class8, Half, Lookup16, ClassifyWord, Byte;
    HalfBytes(w, at);
    HalfBytes(ClassifyWord(w), at);
    LookupBytes(Half(w, at));
  }

  /** The word lookup classifies each byte. */
  lemma SplitClassified(w: bv64)
    ensures Split(ClassifyWord(w)) == Classified(Split(w))
  {
    hide Class8, Half, Lookup16, Byte, Classified;
    JoinedHalves(Lookup16(Half(w, 0)), Lookup16(Half(w, 16)), Lookup16(Half(w, 32)), Lookup16(Half(w, 48)), ClassifyWord(w));
    ClassifyHalf(w, 0);
    ClassifyHalf(w, 16);
    ClassifyHalf(w, 32);
    ClassifyHalf(w, 48);
    EightClassified(Split(w), Split(ClassifyWord(w)));
  }

  lemma EightClassified(m: Bytes, r: Bytes)
    requires |m| == |r| == 8
    requires r[0] == Class8(m[0]) && r[1] == Class8(m[1]) && r[2] == Class8(m[2]) && r[3] == Class8(m[3])
    requires r[4] == Class8(m[4]) && r[5] == Class8(m[5]) && r[6] == Class8(m[6]) && r[7] == Class8(m[7])
    ensures r == Classified(m)
  {
    hide Class8;
  }

  // ----- the scan

  lemma ZeroWordHasNothing(vir: bv64)
    ensures !CommonWord(0, vir)
  {
  }

  lemma ClassifiedZeroIsZero()
    ensures ClassifyWord(0) == 0
  {
  }

  /** The verdict on one word. */
  lemma WordVerdict(cur: bv64, vir: bv64)
    ensures Verdict(Split(cur), Split(vir)) ==
            if !CommonWord(cur, vir) then 0 else if NewTuple(Split(cur), Split(vir)) then 2 else 1
    ensures !CommonWord(cur, vir) ==> Split(vir) == Cleared(Split(cur), Split(vir))
  {
    hide Split, CommonWord, Cleared, NewBits;
    SplitNewBits(cur, vir);
    if !CommonWord(cur, vir) {
      NothingToClear(Split(cur), Split(vir));
    }
  }

  method DiscoverWord(ret0: nat, cur: bv64, vir0: bv64) returns (ret: nat, vir: bv64)
    requires ret0 <= 2
    ensures var v := Verdict(Split(cur), Split(vir0)); ret == if ret0 < v then v else ret0
    ensures Split(vir) == Cleared(Split(cur), Split(vir0))
  {
    hide Byte, ClearWord, Cleared, CommonWord, NewBits;
    ret, vir := ret0, vir0;
    WordVerdict(cur, vir0);
    if CommonWord(cur, vir) {
      if ret < 2 {
        var c, v := Split(cur), Split(vir);
        if (c[0] != 0 && v[0] == 0xff) || (c[1] != 0 && v[1] == 0xff) || (c[2] != 0 && v[2] == 0xff)
           || (c[3] != 0 && v[3] == 0xff) || (c[4] != 0 && v[4] == 0xff) || (c[5] != 0 && v[5] == 0xff)
           || (c[6] != 0 && v[6] == 0xff) || (c[7] != 0 && v[7] == 0xff) {
          ret := 2;
        } else {
          ret := 1;
        }
      }
      SplitCleared(cur, vir);
      vir := ClearWord(cur, vir);
    }
  }

  /** `has_new_bits` over the first `n` words. */
  method HasNewBits(current: array<bv64>, virgin: array<bv64>, n: nat) returns (ret: nat)
    requires n <= current.Length && n <= virgin.Length && current != virgin
    modifies virgin
    ensures ret == Verdict(Flat(current[..n]), old(Flat(virgin[..n])))
    ensures Flat(virgin[..n]) == Cleared(Flat(current[..n]), old(Flat(virgin[..n])))
    ensures virgin[n..] == old(virgin[n..])
  {
    hide Split, Verdict, Cleared, Chunks.Flat, Chunks.Scanned;
    ret := 0;
    ghost var cs, vs := current[..], virgin[..];
    Chunks.ScanNothing(Splits(cs), Splits(vs));
    for k := 0 to n
      invariant ret <= 2 && virgin[k..] == vs[k..]
      invariant Chunks.Scanned(Splits(cs), Splits(vs), k, ret, Splits(virgin[..]))
    {
      assert virgin[k] == virgin[k..][0] == vs[k];
      ghost var before := virgin[..];
      var w := virgin[k];
      var ret' := ret;
      if current[k] != 0 {
        ret', w := DiscoverWord(ret, current[k], virgin[k]);
      } else {
        SkipZero(virgin[k]);
      }
      Chunks.ScanStep(Splits(cs), Splits(vs), k, ret, Splits(before), ret', Split(w));
      virgin[k] := w;
      assert Splits(virgin[..]) == Splits(before)[k := Split(w)];
      ret := ret';
      ScanBound(cs, vs, k + 1, ret, virgin[..]);
    }
    ScanDone(cs, vs, n, ret, virgin[..]);
    assert current[..n] == cs[..n] && vs[..n] == old(virgin[..n]) && virgin[..n] == virgin[..][..n];
  }

  lemma ScanBound(cs: seq<bv64>, vs: seq<bv64>, k: nat, ret: nat, vs': seq<bv64>)
    requires Chunks.Scanned(Splits(cs), Splits(vs), k, ret, Splits(vs'))
    ensures ret <= 2
  {
  }

  lemma ScanDone(cs: seq<bv64>, vs: seq<bv64>, n: nat, ret: nat, vs': seq<bv64>)
    requires n <= |cs| && n <= |vs| && n <= |vs'| && Chunks.Scanned(Splits(cs), Splits(vs), n, ret, Splits(vs'))
    ensures ret == Verdict(Flat(cs[..n]), Flat(vs[..n]))
    ensures Flat(vs'[..n]) == Cleared(Flat(cs[..n]), Flat(vs[..n]))
  {
    hide Flat, Verdict, Cleared;
    FlatPrefix(cs, n);
    FlatPrefix(vs, n);
    FlatPrefix(vs', n);
  }

  lemma SkipZero(vir: bv64)
    ensures Verdict(Split(0), Split(vir)) == 0 && Split(vir) == Cleared(Split(0), Split(vir))
  {
    hide Split, Verdict, Cleared, CommonWord;
    ZeroWordHasNothing(vir);
    WordVerdict(0, vir);
  }

  /** `classify_counts`, in place. */
  method ClassifyCounts(mem: array<bv64>)
    modifies mem
    ensures Flat(mem[..]) == Classified(old(Flat(mem[..]))) && ClassesOf(old(Flat(mem[..])), Flat(mem[..]))
  {
    hide Split, Classified, ClassesOf, Chunks.Flat, ClassifyWord;
    ghost var before := mem[..];
    Chunks.ClassifyNothing(Splits(before));
    for k := 0 to mem.Length
      invariant mem[k..] == before[k..]
      invariant Chunks.Flat(Splits(mem[..])[..k]) == Classified(Chunks.Flat(Splits(before)[..k]))
    {
      assert mem[k] == mem[k..][0] == before[k];
      ghost var done := mem[..];
      SplitClassified(mem[k]);
      ClassifiedZeroIsZero();
      if mem[k] != 0 { mem[k] := ClassifyWord(mem[k]); }
      assert mem[..] == done[k := mem[k]];
      assert Splits(mem[..])[..k] == Splits(done)[..k];
      Chunks.ClassifyStep(Splits(before), Splits(mem[..]), k);
    }
    assert Splits(mem[..])[..mem.Length] == Splits(mem[..]) && Splits(before)[..mem.Length] == Splits(before);
    ClassifiedIsClasses(Flat(before));
  }

  /** Does word `k` of a raw trace bring new bits? */
  predicate Fresh(cur: bv64, vir: bv64) {
    cur != 0 && CommonWord(ClassifyWord(cur), vir)
  }

  lemma FreshMeans(cur: bv64, vir: bv64)
    ensures Fresh(cur, vir) <==> NewBits(Classified(Split(cur)), Split(vir))
  {
    hide Split, Classified, ClassifyWord, CommonWord, NewBits;
    SplitClassified(cur);
    SplitNewBits(ClassifyWord(cur), vir);
    ClassifiedZeroIsZero();
    ZeroWordHasNothing(vir);
  }

  lemma FreshAnywhere(cs: seq<bv64>, vs: seq<bv64>, k: nat)
    requires k <= |cs| && k <= |vs|
    ensures NewBits(Classified(Flat(cs[..k])), Flat(vs[..k])) <==> exists j :: 0 <= j < k && Fresh(cs[j], vs[j])
  {
    hide Fresh, Chunks.Flat, Classified, NewBits;
    FlatPrefix(cs, k);
    FlatPrefix(vs, k);
    Chunks.FreshAnywhere(Splits(cs), Splits(vs), k);
    forall j | 0 <= j < k ensures Fresh(cs[j], vs[j]) <==> Chunks.Fresh(Splits(cs)[j], Splits(vs)[j]) {
      FreshMeans(cs[j], vs[j]);
    }
  }

  /** `skim`: four words per round, without changing anything. */
  method Skim(virgin: array<bv64>, current: array<bv64>) returns (r: nat)
    requires current.Length % 4 == 0 && current.Length <= virgin.Length
    ensures r == if NewBits(Classified(Flat(current[..])), Flat(virgin[..current.Length])) then 1 else 0
  {
    hide Flat, Classified, NewBits, Fresh;
    var k := 0;
    ghost var n := current.Length;
    FreshAnywhere(current[..], virgin[..], n);
    assert current[..][..n] == current[..] && virgin[..][..n] == virgin[..n];
    while k < current.Length
      invariant k <= n && k % 4 == 0
      invariant forall j :: 0 <= j < k ==> !Fresh(current[..][j], virgin[..][j])
    {
      if Fresh(current[k], virgin[k]) { assert Fresh(current[..][k], virgin[..][k]); return 1; }
      if Fresh(current[k + 1], virgin[k + 1]) { assert Fresh(current[..][k + 1], virgin[..][k + 1]); return 1; }
      if Fresh(current[k + 2], virgin[k + 2]) { assert Fresh(current[..][k + 2], virgin[..][k + 2]); return 1; }
      if Fresh(current[k + 3], virgin[k + 3]) { assert Fresh(current[..][k + 3], virgin[..][k + 3]); return 1; }
      k := k + 4;
    }
    return 0;
  }

  /** The bytes of the trace when `has_new_bits_unclassified` is done with it. */
  ghost function TraceAfter(trace: seq<bv64>, virgin: seq<bv64>): (after: Bytes)
    requires |trace| == |virgin|
  {
    if NewBits(Classified(Flat(trace)), Flat(virgin)) then Classified(Flat(trace)) else Flat(trace)
  }

  /** The fast path is exact: skimming first, and classifying and scanning only
      if that finds something, gives what classifying and scanning gives. */
  method HasNewBitsUnclassified(current: array<bv64>, virgin: array<bv64>, n: nat) returns (ret: nat, classified: bool)
    requires current.Length % 4 == 0 && n <= current.Length <= virgin.Length && current != virgin
    modifies current, virgin
    ensures ret == Verdict(Classified(old(Flat(current[..n]))), old(Flat(virgin[..n])))
    ensures Flat(virgin[..n]) == Cleared(Classified(old(Flat(current[..n]))), old(Flat(virgin[..n])))
    ensures virgin[n..] == old(virgin[n..])
    ensures classified <==> NewBits(Classified(old(Flat(current[..]))), old(Flat(virgin[..current.Length])))
    ensures Flat(current[..]) == TraceAfter(old(current[..]), old(virgin[..current.Length]))
    ensures ret != 0 ==> classified
    ensures n == current.Length ==> (ret != 0 <==> classified)
  {
    hide Flat, Classified, NewBits, NewTuple, Verdict, Cleared, Fresh;
    ghost var cs, vs := current[..], virgin[..];
    assert virgin[..n] == vs[..n] && current[..n] == cs[..n] && cs[..current.Length] == cs;
    var found := Skim(virgin, current);
    if found == 0 {
      assert current[..] == cs && virgin[..current.Length] == vs[..current.Length];
      NothingInPrefix(cs, vs, n);
      NothingToClear(Classified(Flat(cs[..n])), Flat(vs[..n]));
      return 0, false;
    }
    ClassifyCounts(current);
    ClassifiedPrefix(cs, current[..], n);
    assert current[..][..n] == current[..n];
    ret := HasNewBits(current, virgin, n);
    classified := true;
    VerdictPositive(Classified(Flat(cs[..n])), Flat(vs[..n]));
  }

  lemma VerdictPositive(cur: Bytes, vir: Bytes)
    requires |cur| == |vir|
    ensures Verdict(cur, vir) != 0 <==> NewBits(cur, vir)
  {
    hide NewBits, NewTuple;
    if NewTuple(cur, vir) { NewTupleIsNewBits(cur, vir); }
  }

  /** A prefix of a classified map is the classified prefix. */
  lemma {:induction false} ClassifiedPrefix(cs: seq<bv64>, ds: seq<bv64>, n: nat)
    requires |cs| == |ds| && n <= |cs| && Flat(ds) == Classified(Flat(cs))
    ensures Flat(ds[..n]) == Classified(Flat(cs[..n]))
  {
    TakeBytes(cs, n);
    TakeBytes(ds, n);
  }

  lemma {:induction false} TakeBytes(ws: seq<bv64>, n: nat)
    requires n <= |ws|
    ensures 8 * n <= |Flat(ws)| && Flat(ws[..n]) == Flat(ws)[..8 * n]
    decreases |ws|
  {
    hide Split, Chunks.Flat;
    if n == |ws| {
      assert ws[..n] == ws;
    } else {
      var m := |ws| - 1;
      TakeBytes(ws[..m], n);
      assert ws[..m][..n] == ws[..n];
      FlatPrefix(ws, m);
      Chunks.FlatSnoc(Splits(ws), m);
      assert Splits(ws)[..m + 1] == Splits(ws);
    }
  }

  lemma NothingInPrefix(cs: seq<bv64>, vs: seq<bv64>, n: nat)
    requires n <= |cs| <= |vs|
    requires !NewBits(Classified(Flat(cs)), Flat(vs[..|cs|]))
    ensures !NewBits(Classified(Flat(cs[..n])), Flat(vs[..n]))
  {
    hide Flat, Classified, NewBits, Fresh;
    assert cs[..|cs|] == cs;
    FreshAnywhere(cs, vs, |cs|);
    FreshAnywhere(cs, vs, n);
  }

  // ----- scanning less than was skimmed

  /** If the scan of `n` words returns 0, the trace has the bytes it had. */
  ghost predicate KeptOnZero(trace: seq<bv64>, virgin: seq<bv64>, n: nat)
    requires n <= |trace| == |virgin|
  {
    Verdict(Classified(Flat(trace[..n])), Flat(virgin[..n])) == 0 ==> TraceAfter(trace, virgin) == Flat(trace)
  }

  lemma WholeMapKeeps(trace: seq<bv64>, virgin: seq<bv64>)
    requires |trace| == |virgin|
    ensures KeptOnZero(trace, virgin, |trace|)
  {
    hide Flat, Classified, NewBits, Verdict;
    assert trace[..|trace|] == trace && virgin[..|virgin|] == virgin;
    VerdictPositive(Classified(Flat(trace)), Flat(virgin));
  }

  lemma FreshWords()
    ensures !Fresh(0, 0xff) && Fresh(3, 0xff) && Byte(3, 0) == 3 && Class8(3) == 2
  {
  }

  /** A hit count of 3 is classified as 2, wherever it stands. */
  lemma {:induction false} ThreeChanges(ws: seq<bv64>, k: nat)
    requires k < |ws| && ws[k] == 3
    ensures Classified(Flat(ws)) != Flat(ws)
  {
    hide Split, Class8, Chunks.Flat;
    TakeBytes(ws, k + 1);
    FlatPrefix(ws, k + 1);
    FlatPrefix(ws, k);
    Chunks.FlatSnoc(Splits(ws), k);
    FreshWords();
    FirstByte(3);
    assert Flat(ws[..k + 1]) == Flat(ws[..k]) + Split(ws[k]);
    assert Flat(ws)[8 * k] == Flat(ws[..k + 1])[8 * k] == Split(ws[k])[0];
    assert Classified(Flat(ws))[8 * k] == Class8(Flat(ws)[8 * k]);
  }

  lemma FirstByte(w: bv64)
    ensures Split(w)[0] == Byte(w, 0)
  {
  }

  /** With three hits, in the first word that is not scanned, the trace is overwritten
      although 0 is returned. */
  lemma OverwrittenForNothing(n: nat, len: nat) returns (trace: seq<bv64>, virgin: seq<bv64>)
    requires n < len
    ensures |trace| == len == |virgin| && Verdict(Classified(Flat(trace[..n])), Flat(virgin[..n])) == 0
    ensures TraceAfter(trace, virgin) != Flat(trace)
  {
    trace := seq(len, i => if i == n then 3 else 0);
    virgin := seq(len, i => 0xff);
    FreshWords();
    hide Flat, Classified, NewBits, NewTuple, Verdict, Fresh;
    FreshAnywhere(trace, virgin, len);
    FreshAnywhere(trace, virgin, n);
    assert trace[..len] == trace && virgin[..len] == virgin;
    assert Fresh(trace[n], virgin[n]);
    VerdictPositive(Classified(Flat(trace[..n])), Flat(virgin[..n]));
    ThreeChanges(trace, n);
  }

  /** Every trace is kept when 0 is returned exactly when the whole map is scanned. */
  lemma KeptOnZeroIff(n: nat, len: nat)
    requires n <= len
    ensures n == len <==>
            forall trace: seq<bv64>, virgin: seq<bv64> :: |trace| == len == |virgin| ==> KeptOnZero(trace, virgin, n)
  {
    if n == len {
      hide KeptOnZero;
      forall trace: seq<bv64>, virgin: seq<bv64> | |trace| == len == |virgin| ensures KeptOnZero(trace, virgin, n) {
        WholeMapKeeps(trace, virgin);
      }
    } else {
      hide TraceAfter, Verdict, Classified, Flat;
      var trace, virgin := OverwrittenForNothing(n, len);
      assert !KeptOnZero(trace, virgin, n);
    }
  }
}
