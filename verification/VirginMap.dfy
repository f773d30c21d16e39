/** What a trace map adds to a virgin map, byte by byte.  A virgin byte starts
    as 0xff and loses the bits of every classified hit count seen there. */
module VirginMap {

  type Bytes = seq<bv8>

  /** `count_class_lookup8`: hit counts by their highest bit. */
  function Class8(b: bv8): bv8 {
    if b == 0 then 0
    else if b < 2 then 1
    else if b < 4 then 2
    else if b < 8 then 4
    else if b < 16 then 8
    else if b < 32 then 16
    else if b < 64 then 32
    else if b < 128 then 64
    else 128
  }

  /** The class of a hit count: its highest set bit alone, and 0 for no hit. */
  predicate IsClass(c: bv8, b: bv8) {
    if b == 0 then c == 0 else c & (c - 1) == 0 && 0 < c <= b && b - c < c
  }

  lemma Class8IsClass(b: bv8)
    ensures IsClass(Class8(b), b)
  {
  }

  /** A hit count has one class only. */
  lemma ClassIsUnique(b: bv8, c: bv8, d: bv8)
    requires IsClass(c, b) && IsClass(d, b)
    ensures c == d
  {
  }

  /** Every byte of `after` is the class of the byte of `before` in its place. */
  ghost predicate ClassesOf(before: Bytes, after: Bytes) {
    |after| == |before| && forall i :: 0 <= i < |before| ==> IsClass(after[i], before[i])
  }

  function Classified(m: Bytes): (c: Bytes)
    ensures |c| == |m|
  {
    seq(|m|, i requires 0 <= i < |m| => Class8(m[i]))
  }

  lemma ClassifiedIsClasses(m: Bytes)
    ensures ClassesOf(m, Classified(m))
  {
    hide Class8, IsClass;
    forall i | 0 <= i < |m| ensures IsClass(Classified(m)[i], m[i]) { Class8IsClass(m[i]); }
  }

  /** A hit-count class not seen at this byte before. */
  predicate Common(c: bv8, v: bv8) {
    c & v != 0
  }

  function ClearByte(c: bv8, v: bv8): bv8 {
    v & !c
  }

  ghost predicate NewBits(cur: Bytes, vir: Bytes)
    requires |cur| == |vir|
  {
    exists i :: 0 <= i < |cur| && Common(cur[i], vir[i])
  }

  /** Some byte was hit that no trace had hit before. */
  ghost predicate NewTuple(cur: Bytes, vir: Bytes)
    requires |cur| == |vir|
  {
    exists i :: 0 <= i < |cur| && cur[i] != 0 && vir[i] == 0xff
  }

  /** 2 for a new tuple, 1 for a new hit-count class only, 0 for nothing new. */
  ghost function Verdict(cur: Bytes, vir: Bytes): nat
    requires |cur| == |vir|
  {
    if NewTuple(cur, vir) then 2 else if NewBits(cur, vir) then 1 else 0
  }

  function Cleared(cur: Bytes, vir: Bytes): (r: Bytes)
    requires |cur| == |vir|
    ensures |r| == |vir|
  {
    seq(|vir|, i requires 0 <= i < |vir| => ClearByte(cur[i], vir[i]))
  }

  // ----- maps in pieces

  lemma NewBitsConcat(a: Bytes, b: Bytes, va: Bytes, vb: Bytes)
    requires |a| == |va| && |b| == |vb|
    ensures NewBits(a + b, va + vb) <==> NewBits(a, va) || NewBits(b, vb)
  {
    if i :| 0 <= i < |a| && Common(a[i], va[i]) { assert Common((a + b)[i], (va + vb)[i]); }
    if i :| 0 <= i < |b| && Common(b[i], vb[i]) { assert Common((a + b)[|a| + i], (va + vb)[|a| + i]); }
  }

  lemma NewTupleConcat(a: Bytes, b: Bytes, va: Bytes, vb: Bytes)
    requires |a| == |va| && |b| == |vb|
    ensures NewTuple(a + b, va + vb) <==> NewTuple(a, va) || NewTuple(b, vb)
  {
    if i :| 0 <= i < |a| && a[i] != 0 && va[i] == 0xff { assert (a + b)[i] != 0 && (va + vb)[i] == 0xff; }
    if i :| 0 <= i < |b| && b[i] != 0 && vb[i] == 0xff { assert (a + b)[|a| + i] != 0 && (va + vb)[|a| + i] == 0xff; }
  }

  /** The verdict on a map is the largest verdict on its pieces. */
  lemma VerdictConcat(a: Bytes, b: Bytes, va: Bytes, vb: Bytes)
    requires |a| == |va| && |b| == |vb|
    ensures var l, r := Verdict(a, va), Verdict(b, vb); Verdict(a + b, va + vb) == if l < r then r else l
  {
    hide NewBits, NewTuple;
    NewBitsConcat(a, b, va, vb);
    NewTupleConcat(a, b, va, vb);
  }

  lemma PiecewiseConcat(a: Bytes, b: Bytes, va: Bytes, vb: Bytes)
    requires |a| == |va| && |b| == |vb|
    ensures Cleared(a + b, va + vb) == Cleared(a, va) + Cleared(b, vb)
    ensures Classified(a + b) == Classified(a) + Classified(b)
  {
  }

  // ----- single bytes

  lemma PristineByte(c: bv8)
    requires c != 0
    ensures Common(c, 0xff)
  {
  }

  /** A new tuple always shows as new bits. */
  lemma NewTupleIsNewBits(cur: Bytes, vir: Bytes)
    requires |cur| == |vir| && NewTuple(cur, vir)
    ensures NewBits(cur, vir)
  {
    var i :| 0 <= i < |cur| && cur[i] != 0 && vir[i] == 0xff;
    PristineByte(cur[i]);
  }

  function Ones(b: bv8): (n: nat)
    ensures n <= 8
  {
    (if b & 1 != 0 then 1 else 0) + (if b & 2 != 0 then 1 else 0) + (if b & 4 != 0 then 1 else 0)
    + (if b & 8 != 0 then 1 else 0) + (if b & 16 != 0 then 1 else 0) + (if b & 32 != 0 then 1 else 0)
    + (if b & 64 != 0 then 1 else 0) + (if b & 128 != 0 then 1 else 0)
  }

  lemma ClearingBit(v: bv8, c: bv8, bit: bv8)
    ensures ((v & !c) & bit != 0) ==> v & bit != 0
    ensures bit != 0 && c & v & bit == bit ==> (v & !c) & bit == 0 && v & bit != 0
  {
  }

  lemma SomeBit(x: bv8)
    ensures x != 0 <==> (x & 1 == 1 || x & 2 == 2 || x & 4 == 4 || x & 8 == 8
                         || x & 16 == 16 || x & 32 == 32 || x & 64 == 64 || x & 128 == 128)
  {
  }

  /** Clearing lowers the number of set bits exactly when there was something to clear. */
  lemma OnesDrop(v: bv8, c: bv8)
    ensures Ones(ClearByte(c, v)) <= Ones(v)
    ensures Common(c, v) ==> Ones(ClearByte(c, v)) < Ones(v)
  {
    SomeBit(c & v);
    ClearingBit(v, c, 1);
    ClearingBit(v, c, 2);
    ClearingBit(v, c, 4);
    ClearingBit(v, c, 8);
    ClearingBit(v, c, 16);
    ClearingBit(v, c, 32);
    ClearingBit(v, c, 64);
    ClearingBit(v, c, 128);
  }

  // ----- runs of many traces

  ghost function SetBits(m: Bytes): nat {
    if m == [] then 0 else SetBits(m[..|m| - 1]) + Ones(m[|m| - 1])
  }

  lemma {:induction false} SetBitsBounded(m: Bytes)
    ensures SetBits(m) <= 8 * |m|
    decreases |m|
  {
    if m == [] {
    } else {
      SetBitsBounded(m[..|m| - 1]);
    }
  }

  /** A trace that finds something new leaves fewer virgin bits. */
  lemma {:induction false} ClearedDrops(cur: Bytes, vir: Bytes)
    requires |cur| == |vir|
    ensures SetBits(Cleared(cur, vir)) <= SetBits(vir)
    ensures NewBits(cur, vir) ==> SetBits(Cleared(cur, vir)) < SetBits(vir)
    decreases |vir|
  {
    hide Ones, Common, ClearByte;
    if vir == [] {
    } else {
      var n := |vir| - 1;
      ClearedDrops(cur[..n], vir[..n]);
      OnesDrop(vir[n], cur[n]);
      assert Cleared(cur, vir)[..n] == Cleared(cur[..n], vir[..n]);
      assert cur == cur[..n] + [cur[n]] && vir == vir[..n] + [vir[n]];
      NewBitsConcat(cur[..n], [cur[n]], vir[..n], [vir[n]]);
    }
  }

  /** The virgin map after a run of classified traces. */
  ghost function After(vir: Bytes, traces: seq<Bytes>): (r: Bytes)
    requires forall i :: 0 <= i < |traces| ==> |traces[i]| == |vir|
    ensures |r| == |vir|
  {
    if traces == [] then vir else Cleared(traces[|traces| - 1], After(vir, traces[..|traces| - 1]))
  }

  /** All bits any of the traces has at position `k`. */
  ghost function Seen(traces: seq<Bytes>, k: nat): bv8
    requires forall i :: 0 <= i < |traces| ==> k < |traces[i]|
  {
    if traces == [] then 0 else Seen(traces[..|traces| - 1], k) | traces[|traces| - 1][k]
  }

  /** Over any run, the map is the start map minus the union of the traces. */
  lemma {:induction false} AfterIsStartMinusSeen(vir: Bytes, traces: seq<Bytes>, k: nat)
    requires k < |vir| && forall i :: 0 <= i < |traces| ==> |traces[i]| == |vir|
    ensures After(vir, traces)[k] == vir[k] & !Seen(traces, k)
    decreases |traces|
  {
    if traces == [] {
      NoneSeen(vir[k]);
    } else {
      AfterIsStartMinusSeen(vir, traces[..|traces| - 1], k);
      MinusTwice(vir[k], Seen(traces[..|traces| - 1], k), traces[|traces| - 1][k]);
    }
  }

  lemma NoneSeen(v: bv8)
    ensures v & !(0 as bv8) == v
  {
  }

  lemma MinusTwice(v: bv8, s: bv8, t: bv8)
    ensures ClearByte(t, v & !s) == v & !(s | t)
  {
  }

  /** The `k`-th trace of a run is a find. */
  ghost predicate IsFind(vir: Bytes, traces: seq<Bytes>, k: nat)
    requires k < |traces| && forall i :: 0 <= i < |traces| ==> |traces[i]| == |vir|
  {
    Verdict(traces[k], After(vir, traces[..k])) != 0
  }

  ghost function Finds(vir: Bytes, traces: seq<Bytes>): set<nat>
    requires forall i :: 0 <= i < |traces| ==> |traces[i]| == |vir|
  {
    set k: nat | k < |traces| && IsFind(vir, traces, k)
  }

  lemma FindOfPrefix(vir: Bytes, traces: seq<Bytes>, n: nat, k: nat)
    requires k < n <= |traces| && forall i :: 0 <= i < |traces| ==> |traces[i]| == |vir|
    ensures IsFind(vir, traces[..n], k) == IsFind(vir, traces, k)
  {
    assert traces[..n][..k] == traces[..k];
  }

  lemma FindsSnoc(vir: Bytes, traces: seq<Bytes>)
    requires traces != [] && forall i :: 0 <= i < |traces| ==> |traces[i]| == |vir|
    ensures var n := |traces| - 1;
            |Finds(vir, traces)| == |Finds(vir, traces[..n])| + if IsFind(vir, traces, n) then 1 else 0
  {
    hide IsFind;
    var n := |traces| - 1;
    var before := Finds(vir, traces[..n]);
    forall k: nat | k < n ensures IsFind(vir, traces[..n], k) == IsFind(vir, traces, k) {
      FindOfPrefix(vir, traces, n, k);
    }
    assert Finds(vir, traces) == before + if IsFind(vir, traces, n) then {n} else {};
  }

  /** However long the run, at most eight traces per map byte find something. */
  lemma {:induction false} FindsAreBounded(vir: Bytes, traces: seq<Bytes>)
    requires forall i :: 0 <= i < |traces| ==> |traces[i]| == |vir|
    ensures |Finds(vir, traces)| + SetBits(After(vir, traces)) <= SetBits(vir) <= 8 * |vir|
    decreases |traces|
  {
    hide NewBits, NewTuple, Cleared;
    SetBitsBounded(vir);
    if traces == [] {
      assert Finds(vir, traces) == {};
    } else {
      var n := |traces| - 1;
      FindsAreBounded(vir, traces[..n]);
      FindsSnoc(vir, traces);
      var before := After(vir, traces[..n]);
      ClearedDrops(traces[n], before);
      if NewTuple(traces[n], before) { NewTupleIsNewBits(traces[n], before); }
    }
  }

  /** The same trace finds nothing the second time. */
  lemma SecondTimeNothing(cur: Bytes, vir: Bytes)
    requires |cur| == |vir|
    ensures Verdict(cur, Cleared(cur, vir)) == 0
  {
    var r := Cleared(cur, vir);
    forall i | 0 <= i < |cur| ensures !Common(cur[i], r[i]) && !(cur[i] != 0 && r[i] == 0xff) {
      GoneByte(cur[i], vir[i]);
    }
  }

  lemma GoneByte(c: bv8, v: bv8)
    ensures !Common(c, ClearByte(c, v)) && (c != 0 ==> ClearByte(c, v) != 0xff)
  {
  }

  /** Where nothing is new, clearing changes nothing. */
  lemma NothingToClear(cur: Bytes, vir: Bytes)
    requires |cur| == |vir| && !NewBits(cur, vir)
    ensures Cleared(cur, vir) == vir && Verdict(cur, vir) == 0
  {
    forall i | 0 <= i < |vir| ensures Cleared(cur, vir)[i] == vir[i] && !(cur[i] != 0 && vir[i] == 0xff) {
      assert !Common(cur[i], vir[i]);
      UnsharedByte(cur[i], vir[i]);
    }
  }

  lemma UnsharedByte(c: bv8, v: bv8)
    requires !Common(c, v)
    ensures ClearByte(c, v) == v && (v == 0xff ==> c == 0)
  {
  }
}
