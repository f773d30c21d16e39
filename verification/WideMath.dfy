/** The arithmetic under the t1ha hash (t1ha_bits.h), in its portable form: 64-bit adds
    with carry, the 64x64 to 128-bit product, and the product of 128-bit numbers. */
module WideMath {

  import opened Arithmetic
  import opened Words

  type Word = w: nat | w < U64

  function Wrap(x: nat): (w: Word) {
    x % U64
  }

  method Add64CarryFirst(base: Word, addend: Word) returns (carry: nat, sum: Word)
    ensures carry <= 1 && carry * U64 + sum == base + addend
  {
    sum := Wrap(base + addend);
    carry := if sum < addend then 1 else 0;
  }

  method Add64CarryNext(carry: nat, base: Word, addend: Word) returns (out: nat, sum: Word)
    requires carry <= 1
    ensures out <= 1 && out * U64 + sum == base + addend + carry
  {
    sum := Wrap(base + addend + carry);
    out := if sum < addend || (carry == 1 && sum == addend) then 1 else 0;
  }

  method Add64CarryLast(carry: nat, base: Word, addend: Word) returns (sum: Word)
    requires carry <= 1
    ensures (base + addend + carry - sum) % U64 == 0
    ensures base + addend + carry < U64 ==> sum == base + addend + carry
  {
    sum := Wrap(base + addend + carry);
  }

  method Mul32x32To64(a: nat, b: nat) returns (r: Word)
    requires a < U32 && b < U32
    ensures r == a * b && r <= U64 - 2 * U32 + 1
  {
    ProductBelow(a, b, U32);
    r := a * b;
  }

  lemma ProductBelow(a: nat, b: nat, n: nat)
    requires a < n && b < n
    ensures a * b <= (n - 1) * (n - 1)
  {
    MulMonotone(a, n - 1, b);
    MulMonotone(b, n - 1, n - 1);
  }

  lemma MulMonotone(x: nat, y: nat, k: nat)
    requires x <= y
    ensures x * k <= y * k
  {
  }

  /** Four partial products, added through two carry chains, are the whole product. */
  method Mul64x64To128(a: Word, b: Word) returns (l: Word, h: Word)
    ensures h * U64 + l == a * b
  {
    var ah, al, bh, bl := a / U32, a % U32, b / U32, b % U32;
    var ll := Mul32x32To64(al, bl);
    var lh := Mul32x32To64(ah, bl);
    var hl := Mul32x32To64(al, bh);
    var hh := Mul32x32To64(ah, bh);
    Partials(a, b, ll, lh, hl, hh);
    var c: nat;
    Shifted(lh);
    c, l := Add64CarryFirst(ll, Wrap(lh * U32));
    h := Add64CarryLast(c, hh, lh / U32);
    Shifted(hl);
    c, l := Add64CarryFirst(l, Wrap(hl * U32));
    h := Add64CarryLast(c, h, hl / U32);
  }

  /** A word shifted up by 32: what stays and what leaves. */
  lemma Shifted(x: Word)
    requires x <= U64 - 2 * U32 + 1
    ensures x / U32 <= U32 - 2 && (x / U32) * U64 + Wrap(x * U32) == x * U32
  {
    ShiftedParts(x, x / U32, x % U32);
  }

  lemma ShiftedParts(x: Word, q: nat, r: nat)
    requires x == q * U32 + r && r < U32 && x <= U64 - 2 * U32 + 1
    ensures q <= U32 - 2 && q * U64 + Wrap(x * U32) == x * U32
  {
    assert x * U32 == q * U64 + r * U32;
    Remainder(q, r * U32);
  }

  lemma Remainder(q: nat, r: nat)
    requires r < U64
    ensures Wrap(q * U64 + r) == r
  {
  }

  lemma Partials(a: Word, b: Word, ll: nat, lh: nat, hl: nat, hh: nat)
    requires ll == (a % U32) * (b % U32) && lh == (a / U32) * (b % U32)
    requires hl == (a % U32) * (b / U32) && hh == (a / U32) * (b / U32)
    ensures a * b == hh * U64 + (lh + hl) * U32 + ll
  {
    var ah, al, bh, bl := a / U32, a % U32, b / U32, b % U32;
    Expand(al, ah, bl, bh, U32);
  }

  /** Two digits times two digits, in base `n`. */
  lemma Expand(al: nat, ah: nat, bl: nat, bh: nat, n: nat)
    ensures (ah * n + al) * (bh * n + bl) == ah * bh * (n * n) + (ah * bl + al * bh) * n + al * bl
  {
  }

  // ----- 128-bit numbers

  datatype U128 = U128(l: Word, h: Word) {
    function Value(): nat {
      h * U64 + l
    }
  }

  method Add128(x: U128, y: U128) returns (r: U128)
    ensures r.Value() == (x.Value() + y.Value()) % (U64 * U64)
  {
    var c, l := Add64CarryFirst(x.l, y.l);
    var h := Add64CarryLast(c, x.h, y.h);
    r := U128(l, h);
  }

  /** The product modulo 2 to the 128. */
  method Mul128(x: U128, y: U128) returns (r: U128)
    ensures r.Value() == x.Value() * y.Value() % (U64 * U64)
  {
    var l, low := Mul64x64To128(x.l, y.l);
    var h := Wrap(low + Wrap(Wrap(x.l * y.h) + Wrap(y.l * x.h)));
    r := U128(l, h);
    WordsOfProduct(x, y, l, low, h);
  }

  lemma WordsOfProduct(x: U128, y: U128, l: Word, low: Word, h: Word)
    requires low * U64 + l == x.l * y.l && h == Wrap(low + Wrap(Wrap(x.l * y.h) + Wrap(y.l * x.h)))
    ensures U128(l, h).Value() == x.Value() * y.Value() % (U64 * U64)
  {
    hide Wrap;
    ProductParts(x, y);
    WordsOfSum(x.l * y.l, x.l * y.h, y.l * x.h, x.h * y.h, l, low, h, x.Value() * y.Value());
  }

  lemma WordsOfSum(p: nat, a: nat, b: nat, t: nat, l: Word, low: Word, h: Word, total: nat)
    requires total == t * (U64 * U64) + (a + b) * U64 + p
    requires low * U64 + l == p && h == Wrap(low + Wrap(Wrap(a) + Wrap(b)))
    ensures h * U64 + l == total % (U64 * U64)
  {
    hide Wrap;
    var q := WrapSum(low, a, b);
    Combine(p, a + b, t, low, l, h, q);
  }

  lemma ProductParts(x: U128, y: U128)
    ensures x.Value() * y.Value() == x.h * y.h * (U64 * U64) + (x.l * y.h + y.l * x.h) * U64 + x.l * y.l
  {
    Expand(x.l, x.h, y.l, y.h, U64);
    Commutes(y.l, x.h);
  }

  /** Wrapping on the way loses multiples of a word only. */
  lemma WrapSum(h: nat, a: nat, b: nat) returns (q: nat)
    ensures h + a + b == q * U64 + Wrap(h + Wrap(Wrap(a) + Wrap(b)))
  {
    q := a / U64 + b / U64 + (Wrap(a) + Wrap(b)) / U64 + (h + Wrap(Wrap(a) + Wrap(b))) / U64;
  }

  lemma Combine(p: nat, m: nat, t: nat, low: nat, l: Word, h: Word, q: nat)
    requires low * U64 + l == p && low + m == q * U64 + h
    ensures (t * (U64 * U64) + m * U64 + p) % (U64 * U64) == h * U64 + l
  {
    assert t * (U64 * U64) + m * U64 + p == (t + q) * (U64 * U64) + (h * U64 + l);
  }
}
