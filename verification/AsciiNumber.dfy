/** The decimal side of `MUT_ASCIINUM`: read as many digits as fit in a signed
    64-bit integer, change the value by one of eight strategies, print it. */
module AsciiNumber {

  import opened LittleEndian

  const S64_MAX: int := 0x7FFF_FFFF_FFFF_FFFF
  const S64_MIN: int := -S64_MAX - 1
  const MINUS: Byte := '-' as int

  predicate IsDigit(b: Byte) {
    48 <= b <= 57
  }

  predicate AllDigits(s: seq<Byte>) {
    forall i :: 0 <= i < |s| ==> IsDigit(s[i])
  }

  /** The value of a digit string, by the last digit. */
  function Value(s: seq<Byte>): (v: nat)
    requires AllDigits(s)
  {
    if s == [] then 0 else Value(s[..|s| - 1]) * 10 + (s[|s| - 1] - 48)
  }

  // ----- reading

  /** From a digit at `off`, the longest prefix of the digit run that fits. */
  method ReadNumber(s: seq<Byte>, off: nat, end: nat) returns (val: nat, off2: nat)
    requires off < end <= |s| && AllDigits(s[off..end])
    ensures off < off2 <= end && AllDigits(s[off..off2]) && val == Value(s[off..off2]) <= S64_MAX
    ensures off2 < end ==> AllDigits(s[off..off2 + 1]) && Value(s[off..off2 + 1]) > S64_MAX
  {
    var run := s[off..end];
    assert run[0] == s[off];
    val := s[off] - 48;
    off2 := off + 1;
    assert s[off..off + 1] == [s[off]];
    PrefixStep(s, off, off);
    while off2 < end
      invariant off < off2 <= end && AllDigits(s[off..off2]) && val == Value(s[off..off2]) <= S64_MAX
    {
      assert run[off2 - off] == s[off2];
      PrefixStep(s, off, off2);
      var digit := s[off2] - 48;
      if val > S64_MAX / 10 || val * 10 > S64_MAX - digit {
        return;
      }
      val := val * 10 + digit;
      off2 := off2 + 1;
    }
  }

  lemma PrefixStep(s: seq<Byte>, off: nat, i: nat)
    requires off <= i < |s| && AllDigits(s[off..i]) && IsDigit(s[i])
    ensures AllDigits(s[off..i + 1]) && Value(s[off..i + 1]) == Value(s[off..i]) * 10 + (s[i] - 48)
  {
    assert s[off..i + 1] == s[off..i] + [s[i]];
    assert s[off..i + 1][..i - off] == s[off..i];
  }

  // ----- changing

  /** C division truncates toward zero. */
  function TruncDiv(a: int, b: nat): (q: int)
    requires b > 0
  {
    if a >= 0 then a / b else -(-a / b)
  }

  function Shrunk(val: int, width: nat, tooBig: bool): (int, int) {
    if tooBig then (TruncDiv(val, 10), width - 1) else (val, width)
  }

  /** How far a random draw may reach for a strategy. */
  predicate DrawOk(strat: nat, val: int, r: nat) {
    if strat == 4 && 0 < val < 0x19999999 then r < val * 10 else r < 256
  }

  /** The eight strategies: the new value, and how many digits it replaces.
      `width` is the number of digits read; `r` the random draw. */
  function Modify(strat: nat, val: int, width: nat, r: nat): (res: (int, int))
    requires strat < 8 && DrawOk(strat, val, r)
    requires -S64_MAX <= val <= S64_MAX && width > 0 && (width == 1 ==> -9 <= val <= 9)
    ensures S64_MIN <= res.0 <= S64_MAX
    ensures 0 < res.1 <= width
  {
    match strat
    case 0 =>
      var (v, w) := Shrunk(val, width, val == S64_MAX);
      (v + 1, w)
    case 1 =>
      var (v, w) := Shrunk(val, width, val == S64_MIN);
      (v - 1, w)
    case 2 =>
      var (v, w) := Shrunk(val, width, val > S64_MAX / 2 || val < TruncDiv(S64_MIN, 2));
      (v * 2, w)
    case 3 => (TruncDiv(val, 2), width)
    case 4 => (r, width)
    case 5 =>
      var (v, w) := Shrunk(val, width, val > S64_MAX - 256);
      (v + r, w)
    case 6 =>
      var (v, w) := Shrunk(val, width, val < S64_MIN + 256);
      (v - r, w)
    case _ => (-val - 1, width)
  }

  /** `h` is `val` without its last digit, rounded toward zero. */
  ghost predicate Tenth(h: int, val: int) {
    if val >= 0 then 10 * h <= val < 10 * h + 10 else 10 * h - 10 < val <= 10 * h
  }

  /** Where the change would leave s64, the value and its field lose their last digit first. */
  ghost predicate Room(strat: nat, val: int, width: nat, h: int, w: int) {
    var fits := match strat
      case 0 => val + 1 <= S64_MAX
      case 1 => val - 1 >= S64_MIN
      case 2 => S64_MIN <= 2 * val <= S64_MAX
      case 5 => val + 256 <= S64_MAX
      case 6 => val - 256 >= S64_MIN
      case _ => true;
    if fits then h == val && w == width else Tenth(h, val) && w == width - 1
  }

  /** Add or take one, double, halve toward zero, draw anew, add or take the draw, complement. */
  ghost predicate Changes(strat: nat, h: int, r: nat, v: int) {
    match strat
    case 0 => v - h == 1
    case 1 => h - v == 1
    case 2 => v - h == h
    case 3 => if h >= 0 then 0 <= h - 2 * v <= 1 else -1 <= h - 2 * v <= 0
    case 4 => v == r
    case 5 => v - h == r
    case 6 => h - v == r
    case _ => v + h == -1
  }

  /** What the strategies do. */
  lemma ModifyMeans(strat: nat, val: int, width: nat, r: nat) returns (h: int)
    requires strat < 8 && DrawOk(strat, val, r)
    requires -S64_MAX <= val <= S64_MAX && width > 0 && (width == 1 ==> -9 <= val <= 9)
    ensures var (v, w) := Modify(strat, val, width, r);
            Room(strat, val, width, h, w) && Changes(strat, h, r, v)
  {
    h := if Modify(strat, val, width, r).1 == width then val else TruncDiv(val, 10);
  }

  // ----- printing

  function Digits(n: nat): (s: seq<Byte>)
    ensures |s| > 0
  {
    if n < 10 then [48 + n] else Digits(n / 10) + [48 + n % 10]
  }

  /** `snprintf("%lld")` */
  function Decimal(v: int): (s: seq<Byte>)
    ensures |s| > 0
  {
    if v < 0 then [MINUS] + Digits(-v) else Digits(v)
  }

  /** Printing is undone by reading. */
  lemma {:induction false} ReadBackDigits(n: nat)
    ensures AllDigits(Digits(n)) && Value(Digits(n)) == n
    decreases n
  {
    if n < 10 {
      assert Digits(n)[..0] == [];
    } else {
      ReadBackDigits(n / 10);
      assert Digits(n)[..|Digits(n)| - 1] == Digits(n / 10);
    }
  }

  /** `s` is `v` in decimal: a minus if it is negative, then its digits. */
  ghost predicate Prints(s: seq<Byte>, v: int) {
    if v < 0 then |s| > 1 && s[0] == MINUS && AllDigits(s[1..]) && Value(s[1..]) == -v
    else |s| > 0 && AllDigits(s) && Value(s) == v
  }

  /** What is printed reads back, sign and all. */
  lemma DecimalPrints(v: int)
    ensures Prints(Decimal(v), v)
  {
    hide Digits;
    if v < 0 {
      ReadBackDigits(-v);
      assert Decimal(v)[1..] == Digits(-v);
    } else {
      ReadBackDigits(v);
    }
  }

  function PowerOfTen(k: nat): (p: nat)
    ensures p > 0
  {
    if k == 0 then 1 else 10 * PowerOfTen(k - 1)
  }

  lemma {:induction false} DigitsAreFew(n: nat, k: nat)
    requires n < PowerOfTen(k) && k > 0
    ensures |Digits(n)| <= k
    decreases k
  {
    if n >= 10 {
      assert k > 1 by { assert PowerOfTen(1) == 10 * PowerOfTen(0); }
      DigitsAreFew(n / 10, k - 1);
    }
  }

  lemma {:induction false} PowerOfTenSplit(a: nat, b: nat)
    ensures PowerOfTen(a + b) == PowerOfTen(a) * PowerOfTen(b)
    decreases a
  {
    if a == 0 {
    } else {
      PowerOfTenSplit(a - 1, b);
      assert PowerOfTen(a + b) == 10 * PowerOfTen(a - 1 + b);
    }
  }

  lemma TenToNineteen()
    ensures PowerOfTen(19) == 10_000_000_000_000_000_000
  {
    assert PowerOfTen(1) == 10;
    assert PowerOfTen(2) == 100;
    PowerOfTenSplit(2, 2);
    PowerOfTenSplit(4, 4);
    PowerOfTenSplit(8, 8);
    PowerOfTenSplit(16, 2);
    PowerOfTenSplit(18, 1);
  }

  /** Any s64 prints in at most 20 characters, within the 32-byte scratch buffer. */
  lemma DecimalFits(v: int)
    requires S64_MIN <= v <= S64_MAX
    ensures |Decimal(v)| <= 20
  {
    TenToNineteen();
    DigitsAreFew(if v < 0 then -v else v, 19);
  }
}
