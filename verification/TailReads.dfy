/** The `tail64_le` readers of t1ha_bits.h: four ways to read the last one to eight
    bytes of a message as a little-endian number. */
module TailReads {
  import opened Arithmetic
  import opened Bits
  import opened LittleEndian
  import opened Words

  /** The bytes a tail length stands for: a multiple of 8 is a full word. */
  function Width(tail: nat): (w: nat)
    ensures 1 <= w <= 8
  {
    if tail % 8 == 0 then 8 else tail % 8
  }

  lemma RemainderOf(x: int, q: int, r: nat)
    requires x == 8 * q + r && r < 8
    ensures x % 8 == r
  {
  }

  lemma OffsetIsRest(tail: nat)
    ensures (8 - tail) % 8 == 8 - Width(tail)
  {
    var q, r := tail / 8, tail % 8;
    if r == 0 { RemainderOf(8 - tail, 1 - q, 0); } else { RemainderOf(8 - tail, -q, 8 - r); }
  }

  /** `(8 - tail) & 7`. */
  function Offset(tail: nat): (o: nat)
    ensures o == 8 - Width(tail)
  {
    OffsetIsRest(tail);
    (8 - tail) % 8
  }

  function Fetch(mem: seq<Byte>, p: nat, size: nat): (v: nat)
    requires p + size <= |mem|
  {
    Decode(mem[p..p + size])
  }

  function And(x: nat, y: nat): (z: nat)
    decreases x
  {
    if x == 0 || y == 0 then 0
    else (if x % 2 == 1 && y % 2 == 1 then 1 else 0) + 2 * And(x / 2, y / 2)
  }

  /** A shift up in 64 bits. */
  function Shl(x: nat, k: nat): (y: nat) {
    x * Pow2(k) % U64
  }

  // ----- the forms

  /** One read from the tail on, masked. */
  function ForwardTail(mem: seq<Byte>, p: nat, tail: nat): (v: nat)
    requires p + 8 <= |mem|
  {
    And(Fetch(mem, p, 8), Shr(U64 - 1, 8 * Offset(tail)))
  }

  /** One read that ends with the tail, shifted. */
  function UndersideTail(mem: seq<Byte>, p: nat, tail: nat): (v: nat)
    requires Offset(tail) <= p && p + Width(tail) <= |mem|
  {
    Shr(Fetch(mem, p - Offset(tail), 8), 8 * Offset(tail))
  }

  /** The switch that falls through from the last byte down to the first. */
  function ByteTail(mem: seq<Byte>, p: nat, tail: nat): (v: nat)
    requires p + Width(tail) <= |mem|
  {
    FallThrough(mem, p, Width(tail), 0)
  }

  function FallThrough(mem: seq<Byte>, p: nat, k: nat, r: nat): (v: nat)
    requires 1 <= k && p + k <= |mem|
    decreases k
  {
    if k == 1 then (r + mem[p]) % U64
    else FallThrough(mem, p, k - 1, Shl(r + mem[p + k - 1], 8))
  }

  /** The switch that reads a half or a quarter word where it can. */
  function MixedTail(mem: seq<Byte>, p: nat, tail: nat): (v: nat)
    requires p + Width(tail) <= |mem|
  {
    match Width(tail)
    case 1 => mem[p]
    case 2 => Fetch(mem, p, 2)
    case 3 => Shl(mem[p + 2], 16) + Fetch(mem, p, 2)
    case 4 => Fetch(mem, p, 4)
    case 5 => Shl(mem[p + 4], 32) + Fetch(mem, p, 4)
    case 6 => Shl(Shl(mem[p + 5], 8) + mem[p + 4], 32) + Fetch(mem, p, 4)
    case 7 => Shl(Shl(Shl(mem[p + 6], 8) + mem[p + 5], 8) + mem[p + 4], 32) + Fetch(mem, p, 4)
    case _ => Fetch(mem, p, 8)
  }

  // ----- they agree

  lemma {:induction false} DecodeSplit(b: seq<Byte>, n: nat)
    requires n <= |b|
    ensures Decode(b) == Decode(b[..n]) + Power(n) * Decode(b[n..])
    decreases n
  {
    if n == 0 {
      assert b[0..] == b;
    } else {
      DecodeSplit(b[1..], n - 1);
      assert b[1..][..n - 1] == b[..n][1..];
      assert b[1..][n - 1..] == b[n..];
      UnfoldDecode(b);
      UnfoldDecode(b[..n]);
      UnfoldPower(n);
      hide Decode, Power;
      Assoc(Power(n - 1), Decode(b[n..]));
    }
  }

  lemma UnfoldDecode(b: seq<Byte>)
    requires b != []
    ensures Decode(b) == b[0] as int + 256 * Decode(b[1..])
  {
  }

  lemma UnfoldPower(n: nat)
    requires n > 0
    ensures Power(n) == 256 * Power(n - 1)
  {
  }

  lemma Assoc(a: nat, b: nat)
    ensures 256 * (a * b) == (256 * a) * b
  {
  }

  lemma {:induction false} PowerIsPow2(n: nat)
    ensures Power(n) == Pow2(8 * n)
  {
    if n == 0 {
    } else {
      PowerIsPow2(n - 1);
      assert Pow2(3) == 8;
      Pow2Sum(3, 5);
      Pow2Sum(8, 8 * (n - 1));
      assert 8 * n == 8 + 8 * (n - 1);
    }
  }

  lemma {:induction false} ShrIsDivision(x: nat, k: nat)
    ensures Shr(x, k) == x / Pow2(k)
    decreases k
  {
    if k == 0 {
    } else {
      ShrIsDivision(x / 2, k - 1);
      HalfFirst(x, Pow2(k - 1));
    }
  }

  lemma HalfFirst(x: nat, d: nat)
    requires d > 0
    ensures x / 2 / d == x / (2 * d)
    ensures x % (2 * d) == x % 2 + 2 * (x / 2 % d)
  {
    Divides(x / 2, d);
    var q, r := x / 2 / d, x / 2 % d;
    var s := x % 2 + 2 * r;
    assert x == 2 * (q * d + r) + x % 2;
    Assoc2(q, d);
    Quotient(x, q, 2 * d, s);
  }

  lemma Divides(x: nat, d: nat)
    requires d > 0
    ensures x == x / d * d + x % d && 0 <= x % d < d
  {
  }

  lemma Assoc2(q: nat, d: nat)
    ensures 2 * (q * d) == q * (2 * d)
  {
  }

  lemma Quotient(x: nat, q: nat, d: nat, s: nat)
    requires x == q * d + s && s < d
    ensures x / d == q && x % d == s
  {
    Divides(x, d);
    var k := x / d;
    if k < q {
      Times(k + 1, q, d);
    } else if k > q {
      Times(q + 1, k, d);
    }
  }

  lemma Times(a: nat, b: nat, d: nat)
    requires a <= b
    ensures a * d <= b * d && (a > 0 ==> a * d == (a - 1) * d + d)
  {
  }

  lemma {:induction false} AndMask(x: nat, m: nat)
    ensures And(x, Pow2(m) - 1) == x % Pow2(m)
    decreases m
  {
    if m == 0 {
    } else {
      assert Pow2(m) == 2 * Pow2(m - 1);
      hide And, Pow2;
      AndMask(x / 2, m - 1);
      MaskStep(x, Pow2(m - 1));
    }
  }

  lemma MaskStep(x: nat, d: nat)
    requires d > 0 && And(x / 2, d - 1) == x / 2 % d
    ensures And(x, 2 * d - 1) == x % (2 * d)
  {
    hide And;
    HalfFirst(x, d);
    AndOdd(x, d - 1);
    assert 2 * d - 1 == 2 * (d - 1) + 1;
  }

  lemma AndOdd(x: nat, y: nat)
    ensures And(x, 2 * y + 1) == x % 2 + 2 * And(x / 2, y)
  {
  }

  /** The tail as a number. */
  function TailValue(mem: seq<Byte>, p: nat, tail: nat): (v: nat)
    requires p + Width(tail) <= |mem|
  {
    Decode(mem[p..p + Width(tail)])
  }

  lemma MaskOfTail(o: nat, w: nat)
    requires o + w == 8
    ensures Shr(U64 - 1, 8 * o) == Pow2(8 * w) - 1
  {
    hide Pow2, Shr;
    WordIsPower();
    assert 8 * w + 8 * o == 64;
    Pow2Sum(8 * w, 8 * o);
    var a, b := Pow2(8 * w), Pow2(8 * o);
    ShrIsDivision(U64 - 1, 8 * o);
    Times(a, a, b);
    Quotient(U64 - 1, a - 1, b, b - 1);
  }

  lemma LowBytes(b: seq<Byte>, n: nat)
    requires n <= |b|
    ensures Decode(b) % Power(n) == Decode(b[..n]) && Decode(b) / Power(n) == Decode(b[n..])
  {
    hide Decode, Power;
    DecodeSplit(b, n);
    EncodeDecode(b[..n]);
    Commutes(Power(n), Decode(b[n..]));
    Quotient(Decode(b), Decode(b[n..]), Power(n), Decode(b[..n]));
  }

  lemma ForwardReadsTail(mem: seq<Byte>, p: nat, tail: nat)
    requires p + 8 <= |mem|
    ensures ForwardTail(mem, p, tail) == TailValue(mem, p, tail)
  {
    hide Decode, Power, Pow2, And, Shr;
    var b, w := mem[p..p + 8], Width(tail);
    MaskOfTail(Offset(tail), w);
    AndMask(Decode(b), 8 * w);
    PowerIsPow2(w);
    LowBytes(b, w);
    assert b[..w] == mem[p..p + w];
  }

  lemma UndersideReadsTail(mem: seq<Byte>, p: nat, tail: nat)
    requires Offset(tail) <= p && p + Width(tail) <= |mem|
    ensures UndersideTail(mem, p, tail) == TailValue(mem, p, tail)
  {
    hide Decode, Power, Pow2, Shr;
    var o := Offset(tail);
    var b := mem[p - o..p - o + 8];
    ShrIsDivision(Decode(b), 8 * o);
    PowerIsPow2(o);
    LowBytes(b, o);
    assert b[o..] == mem[p..p + Width(tail)];
  }

  lemma LastByte(mem: seq<Byte>, p: nat, k: nat)
    requires 1 <= k && p + k <= |mem|
    ensures Decode(mem[p..p + k]) == Decode(mem[p..p + k - 1]) + Power(k - 1) * mem[p + k - 1]
  {
    var b := mem[p..p + k];
    DecodeSplit(b, k - 1);
    assert b[..k - 1] == mem[p..p + k - 1];
    assert b[k - 1..] == [mem[p + k - 1]];
  }

  lemma FallThroughLast(mem: seq<Byte>, p: nat, r: nat)
    requires p + 1 <= |mem| && r * Power(0) + Decode(mem[p..p + 1]) < U64
    ensures FallThrough(mem, p, 1, r) == r * Power(0) + Decode(mem[p..p + 1])
  {
    assert mem[p..p + 1] == [mem[p]];
    assert [mem[p]][1..] == [];
  }

  lemma FallThroughMore(mem: seq<Byte>, p: nat, k: nat, r: nat)
    requires 1 < k && p + k <= |mem|
    ensures FallThrough(mem, p, k, r) == FallThrough(mem, p, k - 1, Shl(r + mem[p + k - 1], 8))
  {
  }

  lemma {:induction false} FallThroughValue(mem: seq<Byte>, p: nat, k: nat, r: nat)
    requires 1 <= k && p + k <= |mem|
    requires r * Power(k - 1) + Decode(mem[p..p + k]) < U64
    ensures FallThrough(mem, p, k, r) == r * Power(k - 1) + Decode(mem[p..p + k])
    decreases k
  {
    hide *;
    if k == 1 {
      FallThroughLast(mem, p, r);
    } else {
      LastByte(mem, p, k);
      UnfoldPower(k - 1);
      FallThroughMore(mem, p, k, r);
      var m, u, rest := mem[p + k - 1], Power(k - 2), Decode(mem[p..p + k - 1]);
      Regroup(r, m, u, Power(k - 1), Decode(mem[p..p + k]), rest);
      ShlByte(r + m, u, rest);
      FallThroughValue(mem, p, k - 1, 256 * (r + m));
    }
  }

  lemma Regroup(r: nat, m: nat, u: nat, w: nat, value: nat, rest: nat)
    requires w == 256 * u && value == rest + w * m
    ensures r * w + value == (256 * (r + m)) * u + rest
  {
    assert r * (256 * u) + (256 * u) * m == (256 * (r + m)) * u;
  }

  lemma ShlByte(x: nat, u: nat, rest: nat)
    requires u > 0 && (256 * x) * u + rest < U64
    ensures Shl(x, 8) == 256 * x
  {
    Times(1, u, 256 * x);
    Commutes(256 * x, u);
    PowerIsPow2(1);
    assert Power(1) == 256;
  }

  lemma ByteReadsTail(mem: seq<Byte>, p: nat, tail: nat)
    requires p + Width(tail) <= |mem|
    ensures ByteTail(mem, p, tail) == TailValue(mem, p, tail)
  {
    hide FallThrough, Decode, Power;
    TailFits(mem[p..p + Width(tail)]);
    FallThroughValue(mem, p, Width(tail), 0);
  }

  lemma TailFits(b: seq<Byte>)
    requires |b| <= 8
    ensures Decode(b) < U64
  {
    EncodeDecode(b);
    PowerIsPow2(|b|);
    WordIsPower();
    Pow2Grows(8 * |b|, 64);
  }

  lemma ShiftSizes()
    ensures Pow2(8) == 0x100 && Pow2(16) == 0x1_0000 && Pow2(32) == 0x1_0000_0000
    ensures Power(2) == 0x1_0000 && Power(4) == 0x1_0000_0000
  {
    WordIsPower();
    PowerIsPow2(1);
    PowerIsPow2(2);
    PowerIsPow2(4);
    assert Power(1) == 256 && Power(2) == 65536;
  }

  /** A fetch of `n` bytes and the bytes above it make up the tail. */
  lemma FetchAndRest(mem: seq<Byte>, p: nat, n: nat, w: nat)
    requires n <= w && p + w <= |mem|
    ensures Decode(mem[p..p + w]) == Fetch(mem, p, n) + Power(n) * Decode(mem[p + n..p + w])
  {
    var b := mem[p..p + w];
    DecodeSplit(b, n);
    assert b[..n] == mem[p..p + n] && b[n..] == mem[p + n..p + w];
  }

  lemma FewBytes(mem: seq<Byte>, q: nat, k: nat)
    requires 1 <= k <= 3 && q + k <= |mem|
    ensures Decode(mem[q..q + k]) ==
      mem[q] + (if k > 1 then 256 * (mem[q + 1] as int) else 0) + (if k > 2 then 65536 * (mem[q + 2] as int) else 0)
  {
    LastByte(mem, q, k);
    if k > 1 { LastByte(mem, q, k - 1); }
    if k > 2 { LastByte(mem, q, k - 2); }
    assert mem[q..q] == [];
    assert Power(0) == 1 && Power(1) == 256 && Power(2) == 65536;
  }

  /** A shift that wraps nothing multiplies. */
  lemma ShlIsProduct(x: nat, k: nat, c: nat)
    requires Pow2(k) == c && c * x < U64
    ensures Shl(x, k) == c * x
  {
    hide Pow2;
    Commutes(x, c);
  }

  /** The shifts of at most three bytes above a fetch wrap nothing. */
  lemma HighBytes(a: Byte, b: Byte, c: Byte)
    ensures Shl(a, 16) == 0x1_0000 * (a as int) && Shl(a, 32) == 0x1_0000_0000 * (a as int)
    ensures Shl(Shl(b, 8) + a, 32) == 0x1_0000_0000 * (a as int + 256 * (b as int))
    ensures Shl(Shl(Shl(c, 8) + b, 8) + a, 32)
      == 0x1_0000_0000 * (a as int + 256 * (b as int) + 65536 * (c as int))
  {
    hide Shl, Pow2;
    ShiftSizes();
    var two, three: nat := 256 * (b as int) + a, 256 * (256 * (c as int) + b) + a;
    ShlIsProduct(a, 16, 0x1_0000);
    ShlIsProduct(a, 32, 0x1_0000_0000);
    ShlIsProduct(b, 8, 0x100);
    ShlIsProduct(two, 32, 0x1_0000_0000);
    ShlIsProduct(c, 8, 0x100);
    ShlIsProduct(256 * (c as int) + b, 8, 0x100);
    ShlIsProduct(three, 32, 0x1_0000_0000);
  }

  lemma MixedReadsTail(mem: seq<Byte>, p: nat, tail: nat)
    requires p + Width(tail) <= |mem|
    ensures MixedTail(mem, p, tail) == TailValue(mem, p, tail)
  {
    hide Pow2, Power, Decode, Shl;
    ShiftSizes();
    var w := Width(tail);
    if w == 1 {
      FewBytes(mem, p, 1);
    } else if w == 3 {
      FetchAndRest(mem, p, 2, 3);
      FewBytes(mem, p + 2, 1);
      HighBytes(mem[p + 2], 0, 0);
    } else if 5 <= w <= 7 {
      FetchAndRest(mem, p, 4, w);
      FewBytes(mem, p + 4, w - 4);
      HighBytes(mem[p + 4], if w > 5 then mem[p + 5] else 0, if w > 6 then mem[p + 6] else 0);
    }
  }

  /** Every form that may be used reads the same number. */
  lemma TailFormsAgree(mem: seq<Byte>, p: nat, tail: nat)
    requires p + Width(tail) <= |mem|
    ensures ByteTail(mem, p, tail) == TailValue(mem, p, tail)
    ensures MixedTail(mem, p, tail) == TailValue(mem, p, tail)
    ensures p + 8 <= |mem| ==> ForwardTail(mem, p, tail) == TailValue(mem, p, tail)
    ensures Offset(tail) <= p ==> UndersideTail(mem, p, tail) == TailValue(mem, p, tail)
  {
    ByteReadsTail(mem, p, tail);
    MixedReadsTail(mem, p, tail);
    if p + 8 <= |mem| { ForwardReadsTail(mem, p, tail); }
    if Offset(tail) <= p { UndersideReadsTail(mem, p, tail); }
  }
}
