/** `next_pow2` of alloc-inl.h on the machine's 64-bit `size_t`. The five shifts carry
    a bit 31 places down, so the result is a power of two exactly when the argument
    has no gap of 32 zero bits below its highest one. */
module PowerRounding {

  import opened Bits
  import opened Words

  // ----- the smear

  /** Is one of the `w` bits from `j` up set? */
  predicate Any(x: nat, j: nat, w: nat)
    decreases w
  {
    w > 0 && (Bit(x, j) || Any(x, j + 1, w - 1))
  }

  lemma {:induction false} AnySplit(x: nat, j: nat, a: nat, b: nat)
    ensures Any(x, j, a + b) <==> Any(x, j, a) || Any(x, j + a, b)
    decreases a
  {
    if a == 0 {
    } else {
      AnySplit(x, j + 1, a - 1, b);
    }
  }

  lemma {:induction false} AnyHas(x: nat, j: nat, w: nat, i: nat)
    requires j <= i < j + w && Bit(x, i)
    ensures Any(x, j, w)
    decreases w
  {
    if i > j { AnyHas(x, j + 1, w - 1, i); }
  }

  lemma {:induction false} NotAnyPastLen(x: nat, j: nat, w: nat)
    requires j >= Len(x)
    ensures !Any(x, j, w)
    decreases w
  {
    NoBitPastLen(x, j);
    if w == 0 {
    } else {
      NotAnyPastLen(x, j + 1, w - 1);
    }
  }

  function Fold(x: nat, k: nat): (y: nat)
    ensures y >= x
  {
    Or(x, Shr(x, k))
  }

  function Smear(x: nat): (y: nat)
    ensures y >= x
  {
    Fold(Fold(Fold(Fold(Fold(x, 1), 2), 4), 8), 16)
  }

  /** One fold doubles the window. */
  lemma FoldWidens(x: nat, y: nat, w: nat)
    requires forall j: nat :: Bit(y, j) <==> Any(x, j, w)
    ensures forall j: nat :: Bit(Fold(y, w), j) <==> Any(x, j, 2 * w)
  {
    forall j: nat ensures Bit(Fold(y, w), j) <==> Any(x, j, 2 * w) {
      OrBit(y, Shr(y, w), j);
      ShrBit(y, w, j);
      AnySplit(x, j, w, w);
    }
  }

  lemma SmearBits(x: nat)
    ensures forall j: nat :: Bit(Smear(x), j) <==> Any(x, j, 32)
  {
    hide Fold, Any;
    var a := Fold(x, 1);
    var b := Fold(a, 2);
    var c := Fold(b, 4);
    var d := Fold(c, 8);
    OneIsBit(x);
    FoldWidens(x, x, 1);
    FoldWidens(x, a, 2);
    FoldWidens(x, b, 4);
    FoldWidens(x, c, 8);
    FoldWidens(x, d, 16);
  }

  lemma OneIsBit(x: nat)
    ensures forall j: nat :: Bit(x, j) <==> Any(x, j, 1)
  {
  }

  lemma SmearBelow(x: nat, n: nat)
    requires x < Pow2(n)
    ensures Smear(x) < Pow2(n)
  {
    FoldBelow(x, 1, n);
    FoldBelow(Fold(x, 1), 2, n);
    FoldBelow(Fold(Fold(x, 1), 2), 4, n);
    FoldBelow(Fold(Fold(Fold(x, 1), 2), 4), 8, n);
    FoldBelow(Fold(Fold(Fold(Fold(x, 1), 2), 4), 8), 16, n);
  }

  lemma FoldBelow(x: nat, k: nat, n: nat)
    requires x < Pow2(n)
    ensures Fold(x, k) < Pow2(n)
  {
    OrBelow(x, Shr(x, k), n);
  }

  /** No 32 zero bits in a row below the highest bit. */
  ghost predicate NoGap(x: nat) {
    forall j: nat :: j < Len(x) ==> Any(x, j, 32)
  }

  lemma SmallHasNoGap(x: nat)
    requires x < Pow2(32)
    ensures NoGap(x)
  {
    LenAtMost(x, 32);
    LenBounds(x);
    forall j: nat | j < Len(x) ensures Any(x, j, 32) {
      AnyHas(x, j, 32, Len(x) - 1);
    }
  }

  /** Without a gap every bit below the highest is filled in, and only then. */
  lemma SmearFills(x: nat)
    ensures NoGap(x) <==> Smear(x) == Pow2(Len(x)) - 1
  {
    hide Any, Smear, Bit;
    var ones := Pow2(Len(x)) - 1;
    SmearBits(x);
    forall j: nat ensures Bit(ones, j) <==> j < Len(x) { OnesBit(Len(x), j); }
    if NoGap(x) {
      forall j: nat ensures Bit(Smear(x), j) <==> Bit(ones, j) {
        if j >= Len(x) { NotAnyPastLen(x, j, 32); }
      }
      SameBits(Smear(x), ones);
    }
  }

  /** The smear is never all ones of another length. */
  lemma SmearLength(x: nat, m: nat)
    requires Smear(x) == Pow2(m) - 1
    ensures m == Len(x)
  {
    LenBounds(x);
    LenAtMost(x, m);
    SmearBelow(x, Len(x));
    if m > Len(x) {
      Pow2Grows(Len(x), m);
    }
  }

  // ----- next_pow2

  function NextPow2(n: nat): (r: nat)
    requires n < U64
    ensures r < U64
  {
    (Smear((n + U64 - 1) % U64) + 1) % U64
  }

  ghost predicate PowerOfTwo(r: nat) {
    exists m: nat :: r == Pow2(m)
  }

  /** The least power of two that is not below `n`. */
  ghost predicate IsNextPow2(n: nat, r: nat) {
    PowerOfTwo(r) && n <= r < 2 * n
  }

  lemma IsLeast(n: nat, r: nat, m: nat)
    requires IsNextPow2(n, r) && n <= Pow2(m)
    ensures r <= Pow2(m)
  {
    var k: nat :| r == Pow2(k);
    if m < k { Pow2Grows(m, k); } else { Pow2Grows(k, m); }
  }

  /** What a nonzero argument comes to before the increment wraps. */
  lemma Unwrapped(n: nat)
    requires 1 <= n < U64
    ensures n <= Smear(n - 1) + 1 <= U64
    ensures NextPow2(n) == if Smear(n - 1) + 1 == U64 then 0 else Smear(n - 1) + 1
  {
    hide Smear, Pow2;
    WordIsPower();
    SmearBelow(n - 1, 64);
    assert (n + U64 - 1) % U64 == n - 1;
  }

  /** The result is what the comment promises if and only if the argument is at most
      2^63 and one less than it has no gap. */
  lemma NextPow2Exact(n: nat)
    requires n < U64
    ensures IsNextPow2(n, NextPow2(n)) <==> 1 <= n <= Pow2(63) && NoGap(n - 1)
  {
    hide Smear, NoGap, NextPow2, Pow2, Len;
    ZeroGivesZero();
    if n > 0 {
      var x := n - 1;
      Unwrapped(n);
      SmearFills(x);
      LenBounds(x);
      LenAtMost(x, 63);
      WordIsPower();
      Pow2Grows(63, 64);
      if IsNextPow2(n, NextPow2(n)) {
        var m: nat :| NextPow2(n) == Pow2(m);
        SmearLength(x, m);
        if m > 63 { Pow2Grows(64, m); }
      }
      if n <= Pow2(63) && NoGap(x) {
        Pow2Grows(Len(x), 63);
        assert NextPow2(n) == Pow2(Len(x));
      }
    }
  }

  /** Zero, the documented answer to an overflow, comes out above 2^63 only when there
      is no gap. */
  lemma ZeroExact(n: nat)
    requires n < U64
    ensures NextPow2(n) == 0 <==> n == 0 || (n > Pow2(63) && NoGap(n - 1))
  {
    hide Smear, NoGap, Pow2, Len, NextPow2;
    WordIsPower();
    if n > 0 {
      var x := n - 1;
      Unwrapped(n);
      SmearFills(x);
      LenAtMost(x, 63);
      LenAtMost(x, 64);
      if Smear(x) + 1 == U64 { SmearLength(x, 64); }
    } else {
      ZeroGivesZero();
    }
  }

  lemma ZeroGivesZero()
    ensures NextPow2(0) == 0
  {
    hide Smear, Pow2;
    WordIsPower();
    SmearBelow(U64 - 1, 64);
  }

  // ----- where it fails

  lemma {:induction false} RangeBit(a: nat, b: nat, j: nat)
    requires a <= b
    ensures Pow2(a) <= Pow2(b) && (Bit(Pow2(b) - Pow2(a), j) <==> a <= j < b)
    decreases a
  {
    Pow2Grows(a, b);
    if a == 0 {
      OnesBit(b, j);
    } else if j > 0 {
      RangeBit(a - 1, b - 1, j - 1);
    }
  }

  lemma {:induction false} AnyOfOne(k: nat, j: nat, w: nat)
    ensures Any(Pow2(k), j, w) <==> j <= k < j + w
    decreases w
  {
    RangeBit(k, k + 1, j);
    if w == 0 {
    } else {
      AnyOfOne(k, j + 1, w - 1);
    }
  }

  lemma SmearOfOne(k: nat)
    requires 31 <= k
    ensures Pow2(k - 31) <= Pow2(k + 1) && Smear(Pow2(k)) == Pow2(k + 1) - Pow2(k - 31)
  {
    hide Smear, Any, Bit;
    Pow2Grows(k - 31, k + 1);
    var x, y := Pow2(k), Pow2(k + 1) - Pow2(k - 31);
    SmearBits(x);
    forall j: nat ensures Bit(Smear(x), j) <==> Bit(y, j) {
      RangeBit(k - 31, k + 1, j);
      AnyOfOne(k, j, 32);
    }
    SameBits(Smear(x), y);
  }

  /** One past 2^k, for every k from 32 up to 62, the low bits are left behind. */
  lemma GapAbove(k: nat)
    requires 32 <= k < 63
    ensures Pow2(k) + 1 < U64 && Pow2(k - 31) <= Pow2(k + 1)
    ensures NextPow2(Pow2(k) + 1) == Pow2(k + 1) - Pow2(k - 31) + 1
    ensures !PowerOfTwo(NextPow2(Pow2(k) + 1))
  {
    hide Smear;
    SmearOfOne(k);
    WordIsPower();
    Pow2Grows(k + 1, 63);
    Unwrapped(Pow2(k) + 1);
    Between(k, k - 31);
  }

  lemma Between(k: nat, a: nat)
    requires 0 < a < k
    ensures Pow2(a) <= Pow2(k + 1) && !PowerOfTwo(Pow2(k + 1) - Pow2(a) + 1)
  {
    Pow2Grows(a, k);
    Pow2Grows(1, a);
    forall m: nat ensures Pow2(m) != Pow2(k + 1) - Pow2(a) + 1 {
      if m <= k { Pow2Grows(m, k); } else { Pow2Grows(k + 1, m); }
    }
  }
}
