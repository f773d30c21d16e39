/** What one havoc step may do to an input, strategy by strategy. */
module HavocEdits {
  import opened AsciiNumber
  import opened Bits
  import opened LittleEndian
  import opened Shuffle

  const BLK_XL: nat := 32768
  const ARITH_MAX: nat := 35

  const INTERESTING_8: seq<int> := [-128, -1, 0, 1, 16, 32, 64, 100, 127]
  const INTERESTING_16: seq<int> :=
    INTERESTING_8 + [-32768, -129, 128, 255, 256, 512, 1000, 1024, 4096, 32767]
  const INTERESTING_32: seq<int> :=
    INTERESTING_16 + [-2147483648, -100663046, -32769, 32768, 65535, 65536, 100663045, 2139095040, 2147483647]

  /** The `MUT_*` strategies; `be` is the big-endian variant, `neg` subtracts,
      `auto` takes the token from the auto dictionary. */
  datatype Strategy =
    | FlipBit | Interesting8 | Interesting16(be: bool) | Interesting32(be: bool)
    | Arith8(neg: bool) | Arith16(neg: bool, be: bool) | Arith32(neg: bool, be: bool)
    | Rand8 | CloneCopy | CloneFixed | OverwriteCopy | OverwriteFixed
    | ByteAdd | ByteSub | Flip8 | Switch | Del | ShuffleBytes | DelOne | InsertOne
    | AsciiNum | InsertAsciiNum | ExtraOverwrite(auto: bool) | ExtraInsert(auto: bool)
    | SpliceOverwrite | SpliceInsert

  /** The surroundings of a mutation; an empty `splice` stands for no splice input, and
      `rlim` is `MIN(queue_cycle, 3)`, or 1 early in a run. */
  datatype Env = Env(maxLen: nat, splice: seq<Byte>, extras: seq<seq<Byte>>, autoExtras: seq<seq<Byte>>, rlim: nat)

  // ----- edits

  /** Replace `from .. to` by a block, exchange two blocks, shuffle a block, or nothing. */
  datatype Edit =
    | Keep
    | Replace(from: nat, to: nat, block: seq<Byte>)
    | Exchange(a: nat, b: nat, n: nat)
    | ShuffleAt(off: nat, blen: nat, js: seq<nat>)

  ghost predicate Legal(s: seq<Byte>, e: Edit) {
    match e
    case Keep => true
    case Replace(from, to, block) => from <= to <= |s|
    case Exchange(a, b, n) => (a + n <= b && b + n <= |s|) || (b + n <= a && a + n <= |s|)
    case ShuffleAt(off, blen, js) => blen > 0 && off + blen <= |s| && Draws(blen, js) && |js| == blen - 1
  }

  function Put(s: seq<Byte>, at: nat, block: seq<Byte>): (r: seq<Byte>)
    requires at + |block| <= |s|
    ensures |r| == |s|
  {
    s[..at] + block + s[at + |block|..]
  }

  ghost function Apply(s: seq<Byte>, e: Edit): seq<Byte>
    requires Legal(s, e)
  {
    match e
    case Keep => s
    case Replace(from, to, block) => s[..from] + block + s[to..]
    case Exchange(a, b, n) => Put(Put(s, a, s[b..b + n]), b, s[a..a + n])
    case ShuffleAt(off, blen, js) => Put(s, off, Swaps(s[off..off + blen], blen, js))
  }

  lemma PutAt(s: seq<Byte>, at: nat, block: seq<Byte>, i: nat)
    requires at + |block| <= |s| && i < |s|
    ensures Put(s, at, block)[i] == if at <= i < at + |block| then block[i - at] else s[i]
  {
  }

  /** The position whose byte moves to `i` in an exchange; it is mutual. */
  function Partner(a: nat, b: nat, n: nat, i: nat): (p: nat) {
    if a <= i < a + n then b + (i - a) else if b <= i < b + n then a + (i - b) else i
  }

  lemma ExchangeAt(s: seq<Byte>, a: nat, b: nat, n: nat, i: nat)
    requires Legal(s, Exchange(a, b, n)) && i < |s|
    ensures |Apply(s, Exchange(a, b, n))| == |s| && Partner(a, b, n, i) < |s|
    ensures Apply(s, Exchange(a, b, n))[i] == s[Partner(a, b, n, i)]
  {
    hide Put;
    PutAt(s, a, s[b..b + n], i);
    PutAt(Put(s, a, s[b..b + n]), b, s[a..a + n], i);
  }

  /** Exchanging the same two blocks again undoes it. */
  lemma ExchangeTwice(s: seq<Byte>, a: nat, b: nat, n: nat)
    requires Legal(s, Exchange(a, b, n))
    ensures Legal(Apply(s, Exchange(a, b, n)), Exchange(a, b, n))
    ensures Apply(Apply(s, Exchange(a, b, n)), Exchange(a, b, n)) == s
  {
    var t := Apply(s, Exchange(a, b, n));
    assert |t| == |s|;
    var u := Apply(t, Exchange(a, b, n));
    assert |u| == |s|;
    hide Apply;
    forall i | 0 <= i < |s| ensures u[i] == s[i] {
      ExchangeAt(t, a, b, n, i);
      ExchangeAt(s, a, b, n, Partner(a, b, n, i));
    }
  }

  // ----- single bytes and words

  /** `b` with the bits of `mask` flipped. */
  function Flipped(b: Byte, mask: Byte): (f: Byte) {
    ByteIsBits();
    XorBelow(b, mask, 8);
    Xor(b, mask)
  }

  /** `1 << bit` */
  function OneBit(bit: nat): (m: Byte)
    requires bit < 8
    ensures m > 0
  {
    ByteIsBits();
    Pow2Grows(bit, 8);
    Pow2(bit)
  }

  lemma ByteIsBits()
    ensures Pow2(8) == 256
  {
    assert Pow2(4) == 16;
    Doubled(4, 16);
  }

  predicate IsByteStrategy(strat: Strategy) {
    strat.FlipBit? || strat.Interesting8? || strat.Arith8? || strat.Rand8? || strat.ByteAdd? || strat.ByteSub? || strat.Flip8?
  }

  ghost predicate ByteStep(strat: Strategy, old': Byte, new': Byte) {
    match strat
    case FlipBit => exists bit: nat :: bit < 8 && new' == Flipped(old', OneBit(bit))
    case Interesting8 => exists i: nat :: i < |INTERESTING_8| && new' == INTERESTING_8[i] % 256
    case Arith8(neg) => exists item: nat :: 1 <= item <= ARITH_MAX && new' == Shifted(old', neg, item, 256)
    case Rand8 => exists item: Byte :: 1 <= item && new' == Flipped(old', item)
    case ByteAdd => new' == (old' + 1) % 256
    case ByteSub => new' == (old' + 255) % 256
    case Flip8 => new' == Flipped(old', 255)
    case _ => false
  }

  /** Adding or subtracting, modulo `m`. */
  function Shifted(v: nat, neg: bool, item: nat, m: nat): (w: nat)
    requires m > 0
    ensures w < m
  {
    if neg then (v - item) % m else (v + item) % m
  }

  /** The width of a word strategy in bytes. */
  function WordSize(strat: Strategy): nat {
    if strat.Interesting16? || strat.Arith16? then 2 else if strat.Interesting32? || strat.Arith32? then 4 else 0
  }

  function InterestingValues(strat: Strategy): seq<int> {
    if strat.Interesting16? then INTERESTING_16 else INTERESTING_32
  }

  /** The word written by arithmetic: big-endian variants swap before and after,
      except that adding to a 32-bit word swaps twice after it. */
  function ArithWord(strat: Strategy, w: nat, item: nat): (r: nat)
    requires strat.Arith16? || strat.Arith32?
  {
    var size := WordSize(strat);
    var m := Power(size);
    if !strat.be then Shifted(w, strat.neg, item, m)
    else if strat.Arith32? && !strat.neg then SwapBytes(SwapBytes(Shifted(w, false, item, m), size), size)
    else SwapBytes(Shifted(SwapBytes(w, size), strat.neg, item, m), size)
  }

  ghost predicate WordStep(strat: Strategy, old': seq<Byte>, new': seq<Byte>) {
    var size := WordSize(strat);
    && size > 0 && |old'| == |new'| == size
    && if strat.Interesting16? || strat.Interesting32? then
         exists i: nat :: i < |InterestingValues(strat)| &&
           var v := InterestingValues(strat)[i] % Power(size);
           new' == Encode(if strat.be then SwapBytes(v, size) else v, size)
       else
         exists item: nat :: 1 <= item <= ARITH_MAX && new' == Encode(ArithWord(strat, Decode(old'), item), size)
  }

  // ----- what each strategy may do

  /** The bytes `choose_block_len(limit)` can give: at most 32, 128 or `BLK_XL` of them as
      `rlim` grows, and 1 for a limit of 0. */
  predicate BlockLen(n: nat, limit: nat, rlim: nat) {
    && 1 <= n <= (if rlim <= 1 then 32 else if rlim == 2 then 128 else BLK_XL)
    && (n <= limit || (limit == 0 && n == 1))
  }

  /** What it draws between; `large` is the second draw of the third range. */
  function DrawBounds(limit: nat, range: nat, large: nat): (b: (nat, nat)) {
    var (lo, hi) := if range == 0 then (1, 32) else if range == 1 then (32, 128)
                    else if large != 0 then (128, 1500) else (1500, BLK_XL);
    (if lo >= limit then 1 else lo, if hi < limit then hi else limit)
  }

  predicate Drawable(n: nat, limit: nat, range: nat, large: nat) {
    var (lo, top) := DrawBounds(limit, range, large);
    n == lo || lo <= n <= top
  }

  /** Exactly those can be drawn. */
  lemma BlockLenIff(n: nat, limit: nat, rlim: nat)
    requires rlim <= 3
    ensures BlockLen(n, limit, rlim) <==>
            exists range: nat, large: nat ::
              (range < rlim || range == 0) && large < 10 && Drawable(n, limit, range, large)
  {
    if BlockLen(n, limit, rlim) {
      var range := if n <= 32 then 0 else if n <= 128 then 1 else 2;
      assert Drawable(n, limit, range, if n <= 1500 then 1 else 0);
    }
  }

  ghost predicate Overwrites(s: seq<Byte>, e: Edit) {
    e.Replace? && e.from + |e.block| == e.to <= |s|
  }

  /** A run of one byte value. */
  ghost predicate Constant(block: seq<Byte>) {
    forall i, j :: 0 <= i < j < |block| ==> block[i] == block[j]
  }

  ghost predicate SliceAt(s: seq<Byte>, from: nat, block: seq<Byte>) {
    from + |block| <= |s| && block == s[from..from + |block|]
  }

  /** `e` replaces the longest number that fits by its modified value. */
  ghost predicate ReplacesNumber(s: seq<Byte>, e: Edit) {
    e.Replace? && exists off2: nat, strat: nat, r: nat :: NumberEdit(s, e.from, off2, strat, r, e.to, e.block)
  }

  /** The digits `off .. off2` are the longest prefix of a digit run that fits
      in s64; with a minus in front the value counts as negative. */
  ghost predicate NumberAt(s: seq<Byte>, off: nat, off2: nat) {
    && off < off2 <= |s| && AllDigits(s[off..off2]) && Value(s[off..off2]) <= S64_MAX
    && (off2 < |s| && IsDigit(s[off2]) ==> AllDigits(s[off..off2 + 1]) && Value(s[off..off2 + 1]) > S64_MAX)
  }

  ghost function Signed(s: seq<Byte>, off: nat, off2: nat): int
    requires NumberAt(s, off, off2)
  {
    if off > 0 && s[off - 1] == MINUS then 0 - Value(s[off..off2]) else Value(s[off..off2])
  }

  /** What a number found in the input satisfies before it is modified. */
  lemma NumberFacts(s: seq<Byte>, off: nat, off2: nat)
    requires NumberAt(s, off, off2)
    ensures off < off2 <= |s| && -S64_MAX <= Signed(s, off, off2) <= S64_MAX
    ensures off2 - off == 1 ==> -9 <= Signed(s, off, off2) <= 9
  {
    if off2 - off == 1 {
      assert s[off..off2][..0] == [] && Value([]) == 0;
      assert Value(s[off..off2]) == Value(s[off..off2][..0]) * 10 + (s[off..off2][0] - 48);
      assert IsDigit(s[off..off2][0]);
    }
  }

  ghost predicate NumberEdit(s: seq<Byte>, off: nat, off2: nat, strat: nat, r: nat, to: nat, block: seq<Byte>) {
    && NumberAt(s, off, off2) && strat < 8 && DrawOk(strat, Signed(s, off, off2), r)
    && (off2 - off == 1 ==> -9 <= Signed(s, off, off2) <= 9)
    && var (v, width) := Modify(strat, Signed(s, off, off2), off2 - off, r);
       to == off + width && block == Decimal(v)
  }

  /** Such an edit prints the changed value of the number over its digits. */
  lemma NumberEditMeans(s: seq<Byte>, off: nat, off2: nat, strat: nat, r: nat, to: nat, block: seq<Byte>)
    returns (h: int, v: int)
    requires NumberEdit(s, off, off2, strat, r, to, block)
    ensures Prints(block, v) && Changes(strat, h, r, v)
    ensures Room(strat, Signed(s, off, off2), off2 - off, h, to - off)
  {
    hide Prints, Changes, Room;
    h := ModifyMeans(strat, Signed(s, off, off2), off2 - off, r);
    v := Modify(strat, Signed(s, off, off2), off2 - off, r).0;
    DecimalPrints(v);
  }

  ghost predicate Allowed(strat: Strategy, env: Env, s: seq<Byte>, e: Edit) {
    if IsByteStrategy(strat) then
      e.Replace? && e.from < |s| && e.to == e.from + 1 && |e.block| == 1 && ByteStep(strat, s[e.from], e.block[0])
    else if WordSize(strat) > 0 then
      if |s| < WordSize(strat) then e == Keep
      else Overwrites(s, e) && WordStep(strat, s[e.from..e.to], e.block)
    else
      match strat
      case CloneCopy =>
        if |s| + BLK_XL < env.maxLen then
          && e.Replace? && e.from == e.to < |s| && BlockLen(|e.block|, |s|, env.rlim)
          && exists from: nat :: SliceAt(s, from, e.block)
        else e == Keep && |s| < 8
      case CloneFixed =>
        if |s| + BLK_XL < env.maxLen then
          e.Replace? && e.from == e.to < |s| && BlockLen(|e.block|, BLK_XL, env.rlim) && Constant(e.block)
        else e == Keep && |s| < 8
      case OverwriteCopy =>
        if |s| < 2 then e == Keep
        else
          && Overwrites(s, e) && BlockLen(|e.block|, |s| - 1, env.rlim)
          && exists from: nat :: SliceAt(s, from, e.block)
      case OverwriteFixed =>
        if |s| < 2 then e == Keep
        else Overwrites(s, e) && BlockLen(|e.block|, |s| - 1, env.rlim) && Constant(e.block)
      case Switch =>
        if |s| < 4 then e == Keep else e.Exchange? && Legal(s, e) && BlockLen(e.n, |s|, env.rlim)
      case Del =>
        if |s| < 2 then e == Keep
        else e.Replace? && e.from <= e.to <= |s| && e.block == [] && BlockLen(e.to - e.from, |s| - 1, env.rlim)
      case ShuffleBytes =>
        if |s| < 4 then e == Keep else e.ShuffleAt? && Legal(s, e) && BlockLen(e.blen, |s| - 1, env.rlim)
      case DelOne =>
        if |s| < 2 then e == Keep else e.Replace? && e.to == e.from + 1 <= |s| && e.block == []
      case InsertOne =>
        if |s| < 2 then e == Keep
        else |s| + 1 <= env.maxLen && e.Replace? && e.from == e.to < |s| && |e.block| == 1
      case AsciiNum =>
        || (e == Keep && (|s| < 4 || (|s| < 8 && forall i :: 0 <= i < |s| ==> !IsDigit(s[i]))))
        || (|s| >= 4 && ReplacesNumber(s, e) && |s| - (e.to - e.from) + |e.block| <= env.maxLen)
      case InsertAsciiNum =>
        if e == Keep then |s| < 8
        else Overwrites(s, e) && 1 <= |e.block| <= 8 && AllDigits(e.block)
      case ExtraOverwrite(auto) =>
        Overwrites(s, e) && e.block in (if auto then env.autoExtras else env.extras)
      case ExtraInsert(auto) =>
        && e.Replace? && e.from == e.to <= |s| && |s| + |e.block| <= env.maxLen
        && e.block in (if auto then env.autoExtras else env.extras)
      case SpliceOverwrite =>
        && env.splice != [] && Overwrites(s, e) && BlockLen(|e.block|, |env.splice| - 1, env.rlim)
        && exists from: nat :: SliceAt(env.splice, from, e.block)
      case SpliceInsert =>
        && env.splice != [] && |s| + BLK_XL <= env.maxLen
        && e.Replace? && e.from == e.to <= |s| && BlockLen(|e.block|, |env.splice|, env.rlim)
        && exists from: nat :: SliceAt(env.splice, from, e.block)
      case _ => false
  }

  /** What a word strategy may do. */
  lemma WordAllowed(strat: Strategy, env: Env, s: seq<Byte>, e: Edit)
    requires WordSize(strat) > 0
    requires if |s| < WordSize(strat) then e == Keep else Overwrites(s, e) && WordStep(strat, s[e.from..e.to], e.block)
    ensures Allowed(strat, env, s, e) && Legal(s, e)
  {
  }

  /** When a step may be drawn again instead. */
  ghost predicate MayRetry(strat: Strategy, env: Env, s: seq<Byte>) {
    match strat
    case CloneCopy => |s| >= 8 && |s| + BLK_XL >= env.maxLen
    case CloneFixed => |s| >= 8 && |s| + BLK_XL >= env.maxLen
    case InsertOne => |s| >= 2 && |s| + 1 > env.maxLen
    case AsciiNum => || (|s| >= 8 && forall i :: 0 <= i < |s| ==> !IsDigit(s[i]))
                     || (|s| >= 4 && exists e :: ReplacesNumber(s, e) && |s| - (e.to - e.from) + |e.block| > env.maxLen)
    case InsertAsciiNum => |s| >= 8
    case ExtraOverwrite(auto) =>
      var tokens := if auto then env.autoExtras else env.extras;
      tokens == [] || exists t :: t in tokens && |t| > |s|
    case ExtraInsert(auto) =>
      var tokens := if auto then env.autoExtras else env.extras;
      tokens == [] || exists t :: t in tokens && |s| + |t| > env.maxLen
    case SpliceOverwrite => env.splice == []
    case SpliceInsert => env.splice == [] || |s| + BLK_XL > env.maxLen
    case _ => false
  }

  // ----- consequences

  lemma NumberEditShrinksLittle(s: seq<Byte>, e: Edit)
    requires ReplacesNumber(s, e)
    ensures e.Replace? && e.from < e.to <= |s| && 1 <= |e.block| <= 20
  {
    hide Value, AllDigits, Decimal, Modify;
    var off2: nat, strat: nat, r: nat :| NumberEdit(s, e.from, off2, strat, r, e.to, e.block);
    DecimalFits(Modify(strat, Signed(s, e.from, off2), off2 - e.from, r).0);
  }

  /** Every allowed edit is legal and leaves between 1 and `maxLen` bytes. */
  lemma AllowedKeepsLength(strat: Strategy, env: Env, s: seq<Byte>, e: Edit)
    requires 1 <= |s| <= env.maxLen && Allowed(strat, env, s, e)
    ensures Legal(s, e) && 1 <= |Apply(s, e)| <= env.maxLen
  {
    hide ReplacesNumber, WordStep, ByteStep, Constant, Swaps, Power;
    if strat.AsciiNum? && e != Keep { NumberEditShrinksLittle(s, e); }
  }

  // ----- what the byte strategies do

  ghost predicate DifferAt(x: nat, y: nat, k: nat) {
    forall j: nat :: j == k <==> (Bit(x, j) != Bit(y, j))
  }

  lemma SingleBit(x: nat, y: nat, k: nat)
    ensures Differ(x, y, Pow2(k)) <==> DifferAt(x, y, k)
  {
    forall j: nat ensures Bit(Pow2(k), j) <==> j == k { PowerBit(k, j); }
    if Differ(x, y, Pow2(k)) {
      forall j: nat ensures j == k <==> (Bit(x, j) != Bit(y, j)) {
        assert Bit(Pow2(k), j) <==> (Bit(x, j) != Bit(y, j));
      }
    }
  }

  /** One bit is flipped, and it can be any of the eight. */
  lemma FlipBitIff(old': Byte, new': Byte)
    ensures ByteStep(FlipBit, old', new') <==> exists k: nat :: k < 8 && DifferAt(old', new', k)
  {
    forall k: nat | k < 8 ensures new' == Flipped(old', OneBit(k)) <==> DifferAt(old', new', k) {
      FlippedBits(old', new', Pow2(k));
      SingleBit(old', new', k);
    }
    hide Flipped, OneBit, DifferAt;
  }

  /** `XOR_FF` mirrors the byte in its range. */
  lemma Flip8Iff(old': Byte, new': Byte)
    ensures ByteStep(Flip8, old', new') <==> old' + new' == 255
  {
    XorOnes(old', 8);
    ByteIsBits();
  }

  /** Any other byte can be drawn, and no byte draws itself. */
  lemma Rand8Iff(old': Byte, new': Byte)
    ensures ByteStep(Rand8, old', new') <==> new' != old'
  {
    if new' != old' {
      var item := Flipped(old', new');
      XorUndoes(old', new');
      FlippedBits(old', old', 0);
      NoneDiffersAtZero(old');
      assert new' == Flipped(old', item);
    } else {
      forall item: Byte | 1 <= item ensures Flipped(old', item) != old' { XorChanges(old', item); }
    }
  }

  /** The way from one byte to another, upwards round the 256. */
  function Distance(from: Byte, to: Byte): (d: nat) {
    if from <= to then to - from else to + 256 - from
  }

  lemma Arith8Iff(neg: bool, old': Byte, new': Byte)
    ensures ByteStep(Arith8(neg), old', new') <==>
            1 <= (if neg then Distance(new', old') else Distance(old', new')) <= ARITH_MAX
  {
    var way := if neg then Distance(new', old') else Distance(old', new');
    forall item: nat | item <= ARITH_MAX ensures new' == Shifted(old', neg, item, 256) <==> item == way {
      RoundTheByte(neg, old', new', item);
    }
    hide Shifted, Distance;
    if 1 <= way <= ARITH_MAX {
      assert new' == Shifted(old', neg, way, 256);
    }
  }

  lemma RoundTheByte(neg: bool, old': Byte, new': Byte, item: nat)
    requires item <= ARITH_MAX
    ensures new' == Shifted(old', neg, item, 256) <==>
            item == if neg then Distance(new', old') else Distance(old', new')
  {
  }

  lemma Interesting8Iff(old': Byte, new': Byte)
    ensures ByteStep(Interesting8, old', new') <==>
            exists v :: v in INTERESTING_8 && (new' == v || new' == v + 256)
  {
    forall i: nat | i < |INTERESTING_8|
      ensures new' == INTERESTING_8[i] % 256 <==> new' == INTERESTING_8[i] || new' == INTERESTING_8[i] + 256
    {
      AsByte(INTERESTING_8[i], new');
    }
    if v :| v in INTERESTING_8 && (new' == v || new' == v + 256) {
      var i: nat :| i < |INTERESTING_8| && v == INTERESTING_8[i];
      assert new' == INTERESTING_8[i] % 256;
    }
    if i: nat :| i < |INTERESTING_8| && new' == INTERESTING_8[i] % 256 {
      assert INTERESTING_8[i] in INTERESTING_8;
    }
  }

  lemma AsByte(v: int, b: Byte)
    requires -128 <= v < 128
    ensures b == v % 256 <==> b == v || b == v + 256
  {
  }

  /** What the byte strategies write, without machine arithmetic. */
  lemma ByteStepIff(strat: Strategy, old': Byte, new': Byte)
    requires IsByteStrategy(strat)
    ensures ByteStep(strat, old', new') <==>
            match strat
            case FlipBit => exists k: nat :: k < 8 && DifferAt(old', new', k)
            case Interesting8 => exists v :: v in INTERESTING_8 && (new' == v || new' == v + 256)
            case Arith8(neg) => 1 <= (if neg then Distance(new', old') else Distance(old', new')) <= ARITH_MAX
            case Rand8 => new' != old'
            case ByteAdd => Distance(old', new') == 1
            case ByteSub => Distance(new', old') == 1
            case _ => old' + new' == 255
  {
    match strat
    case FlipBit => FlipBitIff(old', new');
    case Rand8 => Rand8Iff(old', new');
    case Flip8 => Flip8Iff(old', new');
    case Arith8(neg) => Arith8Iff(neg, old', new');
    case Interesting8 => Interesting8Iff(old', new');
    case _ =>
  }

  /** A byte strategy other than `Interesting8` never leaves its byte as it was. */
  lemma ByteStepChanges(strat: Strategy, old': Byte, new': Byte)
    requires ByteStep(strat, old', new') && !strat.Interesting8?
    ensures new' != old'
  {
    ByteStepIff(strat, old', new');
    hide ByteStep;
    if strat.FlipBit? {
      var k: nat :| k < 8 && DifferAt(old', new', k);
      assert Bit(old', k) != Bit(new', k);
    }
  }

  /** Arithmetic on a word, read in the strategy's byte order, adds or subtracts
      modulo the word size; adding to a big-endian 32-bit word is left out. */
  lemma ArithMeaning(strat: Strategy, old': seq<Byte>, item: nat)
    requires strat.Arith16? || (strat.Arith32? && !(strat.be && !strat.neg))
    requires |old'| == WordSize(strat)
    ensures var size := WordSize(strat);
            var new' := Encode(ArithWord(strat, Decode(old'), item), size);
            if strat.be then DecodeBig(new') == Shifted(DecodeBig(old'), strat.neg, item, Power(size))
            else Decode(new') == Shifted(Decode(old'), strat.neg, item, Power(size))
  {
    var size := WordSize(strat);
    if strat.be {
      SwapOfStored(old');
      SwapMeansBig(Shifted(DecodeBig(old'), strat.neg, item, Power(size)), size);
    } else {
      DecodeEncode(Shifted(Decode(old'), strat.neg, item, Power(size)), size);
    }
  }

  /** Adding to a "big-endian" 32-bit word adds to its little-endian reading. */
  lemma Arith32BigAddsLittle(strat: Strategy, old': seq<Byte>, item: nat)
    requires strat.Arith32? && strat.be && !strat.neg && |old'| == WordSize(strat)
    ensures var size := WordSize(strat);
            Decode(Encode(ArithWord(strat, Decode(old'), item), size)) == (Decode(old') + item) % Power(size)
  {
    hide Decode, Encode, Power, SwapBytes;
    var size := WordSize(strat);
    SwapTwice(Shifted(Decode(old'), false, item, Power(size)), size);
    DecodeEncode(Shifted(Decode(old'), false, item, Power(size)), size);
  }

  lemma FourBytes(b: seq<Byte>)
    requires |b| == 4
    ensures Decode(b) == LE(b[0], b[1], b[2], b[3]) && DecodeBig(b) == LE(b[3], b[2], b[1], b[0])
    ensures Power(|b|) == 4294967296
  {
    FourByteValue(b);
    FourByteValue(Reverse(b));
    assert Power(4) == 256 * (256 * (256 * (256 * Power(0))));
  }

  function LE(a: int, b: int, c: int, d: int): int {
    a + 256 * b + 65536 * c + 16777216 * d
  }

  lemma FourByteValue(b: seq<Byte>)
    requires |b| == 4
    ensures Decode(b) == LE(b[0], b[1], b[2], b[3])
  {
    assert Decode(b[1..]) == b[1] as int + 256 * Decode(b[1..][1..]);
    assert Decode(b[2..]) == b[2] as int + 256 * Decode(b[2..][1..]);
    assert Decode(b[3..]) == b[3] as int + 256 * Decode(b[3..][1..]);
    assert b[1..][1..] == b[2..] && b[2..][1..] == b[3..] && b[3..][1..] == [];
  }

  /** So the big-endian reading grows by `item` in one case only: 1 added to
      four bytes of 0xff. */
  lemma Arith32BigIsRightIff(strat: Strategy, old': seq<Byte>, new': seq<Byte>, item: nat)
    requires strat.Arith32? && strat.be && !strat.neg && 1 <= item <= 35
    requires |old'| == WordSize(strat) && new' == Encode(ArithWord(strat, Decode(old'), item), WordSize(strat))
    ensures DecodeBig(new') == (DecodeBig(old') + item) % Power(WordSize(strat))
       <==> item == 1 && forall i :: 0 <= i < |old'| ==> old'[i] == 255
  {
    hide *;
    WordSizes(strat);
    Arith32BigAddsLittle(strat, old', item);
    FourBytes(old');
    FourBytes(new');
    SameModulus(DecodeBig(old') + item, Power(|old'|));
    SameModulus(Decode(old') + item, Power(|old'|));
    BigIffArithmetic(old'[0], old'[1], old'[2], old'[3], new'[0], new'[1], new'[2], new'[3], item);
  }

  lemma WordSizes(strat: Strategy)
    ensures strat.Interesting16? || strat.Arith16? ==> WordSize(strat) == 2
    ensures strat.Interesting32? || strat.Arith32? ==> WordSize(strat) == 4
  {
  }

  lemma SameModulus(x: nat, m: nat)
    requires m == 4294967296
    ensures x % m == x % 4294967296
  {
  }

  /** Little-endian addition of a small item: carries run from `a` to `d`. */
  lemma LittleAdd(a: Byte, b: Byte, c: Byte, d: Byte, a': Byte, b': Byte, c': Byte, d': Byte, item: nat)
    returns (ca: int, cb: int, cc: int, cd: int)
    requires 1 <= item <= 35
    requires LE(a', b', c', d') == (LE(a, b, c, d) + item) % 4294967296
    ensures ca == (if a + item >= 256 then 1 else 0) && a' as int == a + item - 256 * ca
    ensures cb == (if b + ca >= 256 then 1 else 0) && b' as int == b + ca - 256 * cb
    ensures cc == (if c + cb >= 256 then 1 else 0) && c' as int == c + cb - 256 * cc
    ensures cd == (if d + cc >= 256 then 1 else 0) && d' as int == d + cc - 256 * cd
  {
    ca := if a + item >= 256 then 1 else 0;
    cb := if b + ca >= 256 then 1 else 0;
    cc := if c + cb >= 256 then 1 else 0;
    cd := if d + cc >= 256 then 1 else 0;
    var sum := LE(a + item - 256 * ca, b + ca - 256 * cb, c + cb - 256 * cc, d + cc - 256 * cd);
    assert sum == LE(a, b, c, d) + item - 4294967296 * cd;
    assert 0 <= sum < 4294967296;
    RemainderIs(LE(a, b, c, d) + item, cd);
    SameDigits(a', b', c', d', a + item - 256 * ca, b + ca - 256 * cb, c + cb - 256 * cc, d + cc - 256 * cd);
  }

  lemma RemainderIs(x: int, q: int)
    requires 0 <= x - 4294967296 * q < 4294967296
    ensures x % 4294967296 == x - 4294967296 * q
  {
  }

  /** Four base-256 digits are determined by the number. */
  lemma SameDigits(a: int, b: int, c: int, d: int, a': int, b': int, c': int, d': int)
    requires 0 <= a < 256 && 0 <= b < 256 && 0 <= c < 256 && 0 <= d < 256
    requires 0 <= a' < 256 && 0 <= b' < 256 && 0 <= c' < 256 && 0 <= d' < 256
    requires LE(a, b, c, d) == LE(a', b', c', d')
    ensures a == a' && b == b' && c == c' && d == d'
  {
    assert a - a' == 256 * ((b' - b) + 256 * (c' - c) + 65536 * (d' - d));
    assert b - b' == 256 * ((c' - c) + 256 * (d' - d));
    assert c - c' == 256 * (d' - d);
  }

  lemma BigIffArithmetic(a: Byte, b: Byte, c: Byte, d: Byte, a': Byte, b': Byte, c': Byte, d': Byte, item: nat)
    requires 1 <= item <= 35
    requires LE(a', b', c', d') == (LE(a, b, c, d) + item) % 4294967296
    ensures LE(d', c', b', a') == (LE(d, c, b, a) + item) % 4294967296 <==> item == 1 && a == b == c == d == 255
  {
    var ca, cb, cc, cd := LittleAdd(a, b, c, d, a', b', c', d', item);
    if LE(d', c', b', a') == (LE(d, c, b, a) + item) % 4294967296 {
      var da, db, dc, dd := LittleAdd(d, c, b, a, d', c', b', a', item);
    }
  }
}
