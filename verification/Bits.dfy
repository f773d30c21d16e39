/** Powers of two and the bits of unsigned integers. */
module Bits {

  import opened Words

  function Pow2(n: nat): (p: nat)
    ensures p > 0
  {
    if n == 0 then 1 else 2 * Pow2(n - 1)
  }

  lemma {:induction false} Pow2Grows(a: nat, b: nat)
    requires a <= b
    ensures Pow2(a) <= Pow2(b) && (a < b ==> 2 * Pow2(a) <= Pow2(b))
    decreases b
  {
    if a < b { Pow2Grows(a, b - 1); }
  }

  lemma {:induction false} Pow2Sum(a: nat, b: nat)
    ensures Pow2(a + b) == Pow2(a) * Pow2(b)
    decreases a
  {
    if a == 0 {
    } else {
      Pow2Sum(a - 1, b);
    }
  }

  lemma Doubled(n: nat, p: nat)
    requires Pow2(n) == p
    ensures Pow2(2 * n) == p * p
  {
    Pow2Sum(n, n);
  }

  lemma WordIsPower()
    ensures U64 == Pow2(64) && Pow2(32) == 0x1_0000_0000
  {
    assert Pow2(2) == 4;
    hide Pow2;
    Doubled(2, 0x4);
    Doubled(4, 0x10);
    Doubled(8, 0x100);
    Doubled(16, 0x1_0000);
    Doubled(32, 0x1_0000_0000);
  }

  // ----- bits

  predicate Bit(x: nat, j: nat)
    decreases j
  {
    if j == 0 then x % 2 == 1 else Bit(x / 2, j - 1)
  }

  function Shr(x: nat, k: nat): (y: nat)
    ensures y <= x
    decreases k
  {
    if k == 0 then x else Shr(x / 2, k - 1)
  }

  function Or(x: nat, y: nat): (z: nat)
    ensures z >= x && z >= y
    decreases x
  {
    if x == 0 then y
    else if y == 0 then x
    else (if x % 2 == 1 || y % 2 == 1 then 1 else 0) + 2 * Or(x / 2, y / 2)
  }

  /** The number of bits up to the highest one. */
  function Len(x: nat): (n: nat) {
    if x == 0 then 0 else 1 + Len(x / 2)
  }

  lemma {:induction false} ZeroBit(j: nat)
    ensures !Bit(0, j)
  {
    if j == 0 {
    } else {
      ZeroBit(j - 1);
    }
  }

  lemma {:induction false} ShrBit(x: nat, k: nat, j: nat)
    ensures Bit(Shr(x, k), j) <==> Bit(x, j + k)
    decreases k
  {
    if k == 0 {
    } else {
      ShrBit(x / 2, k - 1, j);
    }
  }

  lemma {:induction false} OrBit(x: nat, y: nat, j: nat)
    ensures Bit(Or(x, y), j) <==> Bit(x, j) || Bit(y, j)
    decreases j
  {
    ZeroBit(j);
    if x != 0 && y != 0 && j > 0 { OrBit(x / 2, y / 2, j - 1); }
  }

  lemma {:induction false} OrBelow(x: nat, y: nat, n: nat)
    requires x < Pow2(n) && y < Pow2(n)
    ensures Or(x, y) < Pow2(n)
    decreases n
  {
    if x != 0 && y != 0 { OrBelow(x / 2, y / 2, n - 1); }
  }

  /** A number is its bits. */
  lemma {:induction false} SameBits(x: nat, y: nat)
    requires forall j: nat :: Bit(x, j) <==> Bit(y, j)
    ensures x == y
    decreases x + y
  {
    if x != 0 || y != 0 {
      assert Bit(x, 0) <==> Bit(y, 0);
      forall j: nat ensures Bit(x / 2, j) <==> Bit(y / 2, j) {
        assert Bit(x, j + 1) <==> Bit(y, j + 1);
      }
      SameBits(x / 2, y / 2);
    }
  }

  lemma {:induction false} LenBounds(x: nat)
    ensures x < Pow2(Len(x)) < 2 * x + 2
    ensures x > 0 ==> Pow2(Len(x) - 1) <= x && Bit(x, Len(x) - 1)
  {
    if x <= 1 {
    } else {
      LenBounds(x / 2);
    }
  }

  lemma {:induction false} NoBitPastLen(x: nat, j: nat)
    requires j >= Len(x)
    ensures !Bit(x, j)
  {
    if x == 0 { ZeroBit(j); } else { NoBitPastLen(x / 2, j - 1); }
  }

  lemma {:induction false} LenAtMost(x: nat, n: nat)
    ensures x < Pow2(n) <==> Len(x) <= n
    decreases n
  {
    if x > 0 && n > 0 { LenAtMost(x / 2, n - 1); }
  }

  lemma {:induction false} OnesBit(m: nat, j: nat)
    ensures Bit(Pow2(m) - 1, j) <==> j < m
    decreases m
  {
    if m == 0 {
      ZeroBit(j);
    } else if j > 0 {
      OnesBit(m - 1, j - 1);
    }
  }

  // ----- exclusive or

  function Xor(x: nat, y: nat): (z: nat)
    decreases x + y
  {
    if x == 0 && y == 0 then 0 else (x + y) % 2 + 2 * Xor(x / 2, y / 2)
  }

  lemma {:induction false} XorBit(x: nat, y: nat, j: nat)
    ensures Bit(Xor(x, y), j) <==> (Bit(x, j) != Bit(y, j))
    decreases j
  {
    if x == 0 && y == 0 {
      ZeroBit(j);
    } else {
      Halves((x + y) % 2, Xor(x / 2, y / 2));
      if j == 0 {
        SumIsOdd(x, y);
      } else {
        hide Xor;
        XorBit(x / 2, y / 2, j - 1);
      }
    }
  }

  lemma Halves(b: nat, z: nat)
    requires b < 2
    ensures (b + 2 * z) % 2 == b && (b + 2 * z) / 2 == z
  {
  }

  lemma SumIsOdd(x: nat, y: nat)
    ensures (x + y) % 2 == 1 <==> x % 2 != y % 2
  {
  }

  lemma {:induction false} XorBelow(x: nat, y: nat, n: nat)
    requires x < Pow2(n) && y < Pow2(n)
    ensures Xor(x, y) < Pow2(n)
    decreases n
  {
    if x != 0 || y != 0 {
      var z := Xor(x / 2, y / 2);
      assert Pow2(n) == 2 * Pow2(n - 1);
      assert Xor(x, y) <= 1 + 2 * z;
      hide Xor, Pow2;
      XorBelow(x / 2, y / 2, n - 1);
    }
  }

  lemma {:induction false} PowerBit(m: nat, j: nat)
    ensures Bit(Pow2(m), j) <==> j == m
    decreases m
  {
    if m == 0 {
      if j > 0 { ZeroBit(j - 1); }
    } else if j > 0 {
      PowerBit(m - 1, j - 1);
    }
  }

  /** `mask` has the bits in which `x` and `y` differ. */
  ghost predicate Differ(x: nat, y: nat, mask: nat) {
    forall j: nat :: Bit(mask, j) <==> (Bit(x, j) != Bit(y, j))
  }

  lemma FlippedBits(x: nat, y: nat, mask: nat)
    ensures y == Xor(x, mask) <==> Differ(x, y, mask)
  {
    if y == Xor(x, mask) {
      forall j: nat ensures Bit(mask, j) <==> (Bit(x, j) != Bit(y, j)) { XorBit(x, mask, j); }
    }
    if Differ(x, y, mask) {
      forall j: nat ensures Bit(y, j) <==> Bit(Xor(x, mask), j) {
        XorBit(x, mask, j);
        assert Bit(mask, j) <==> (Bit(x, j) != Bit(y, j));
      }
      SameBits(y, Xor(x, mask));
    }
  }

  lemma XorUndoes(x: nat, y: nat)
    ensures Xor(x, Xor(x, y)) == y
  {
    forall j: nat ensures Bit(Xor(x, y), j) <==> (Bit(x, j) != Bit(y, j)) { XorBit(x, y, j); }
    FlippedBits(x, y, Xor(x, y));
  }

  lemma XorChanges(x: nat, mask: nat)
    requires mask > 0
    ensures Xor(x, mask) != x
  {
    FlippedBits(x, x, mask);
    if Differ(x, x, mask) { NoneDiffers(x, mask); }
  }

  lemma NoneDiffersAtZero(x: nat)
    ensures Differ(x, x, 0)
  {
    forall j: nat ensures !Bit(0, j) { ZeroBit(j); }
  }

  lemma NoneDiffers(x: nat, mask: nat)
    requires Differ(x, x, mask)
    ensures mask == 0
  {
    forall j: nat ensures Bit(mask, j) <==> Bit(0, j) {
      ZeroBit(j);
      assert Bit(mask, j) <==> (Bit(x, j) != Bit(x, j));
    }
    SameBits(mask, 0);
  }

  lemma {:induction false} XorOnes(x: nat, n: nat)
    requires x < Pow2(n)
    ensures Xor(x, Pow2(n) - 1) == Pow2(n) - 1 - x
    decreases n
  {
    if n == 0 {
    } else {
      var p := Pow2(n - 1);
      assert Pow2(n) == 2 * p;
      hide Pow2;
      OnesHalf(x, p);
      XorOnes(x / 2, n - 1);
      assert Xor(x, 2 * p - 1) == 1 - x % 2 + 2 * Xor(x / 2, p - 1);
    }
  }

  lemma OnesHalf(x: nat, p: nat)
    requires x < 2 * p
    ensures x / 2 < p && (2 * p - 1) / 2 == p - 1 && (x + (2 * p - 1)) % 2 == 1 - x % 2
  {
  }
}
