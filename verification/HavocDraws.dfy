/** What a havoc step does with the random numbers it draws, as a function, and
    the proof that it makes exactly the edits of `HavocEdits`.  The numbers of a
    step are a list, one for each use; those that the source draws again until
    they differ from another are drawn among the others. */
module HavocDraws {
  import opened AsciiNumber
  import opened HavocEdits
  import opened LittleEndian
  import opened Shuffle

  /** `rand_below`, from the number `x` of the generator. */
  function Below(x: nat, limit: nat): (r: nat)
    ensures if limit <= 1 then r == 0 else r < limit
  {
    if limit <= 1 then 0 else x % limit
  }

  /** Each number below the limit can be drawn. */
  lemma BelowIs(r: nat, limit: nat)
    requires r == 0 || r < limit
    ensures Below(r, limit) == r
  {
  }

  /** The `k`-th number of a step; missing ones count as 0. */
  function At(ds: seq<nat>, k: nat): nat {
    if k < |ds| then ds[k] else 0
  }

  datatype Decision = Again | Make(edit: Edit)

  // ----- lengths, bytes and words

  /** `choose_block_len` */
  function ChooseBlockLen(limit: nat, rlim: nat, x: nat, y: nat, z: nat): (n: nat)
    requires rlim <= 3
    ensures BlockLen(n, limit, rlim)
  {
    var range := Below(x, rlim);
    var large := if range > 1 then Below(y, 10) else 0;
    var (lo, top) := DrawBounds(limit, range, large);
    // With limit 0 the unsigned difference wraps back to 0.
    var n := lo + Below(z, if top + 1 >= lo then top + 1 - lo else 0);
    assert Drawable(n, limit, range, large);
    BlockLenIff(n, limit, rlim);
    n
  }

  lemma EveryBlockLen(n: nat, limit: nat, rlim: nat) returns (x: nat, y: nat, z: nat)
    requires rlim <= 3 && BlockLen(n, limit, rlim)
    ensures ChooseBlockLen(limit, rlim, x, y, z) == n
  {
    x, y := if n <= 32 then 0 else if n <= 128 then 1 else 2, if n <= 1500 then 1 else 0;
    var (lo, top) := DrawBounds(limit, x, if x > 1 then y else 0);
    z := n - lo;
    BelowIs(x, rlim);
    BelowIs(y, 10);
    BelowIs(z, if top + 1 >= lo then top + 1 - lo else 0);
    hide Below;
  }

  /** Late in a run each third of the numbers stands for one range, and a tenth of the
      last third for the longest blocks; a range that starts at the limit or above is taken
      from 1 on. */
  lemma BlockLenRange(limit: nat, x: nat, y: nat, z: nat)
    ensures var n := ChooseBlockLen(limit, 3, x, y, z);
            && (x % 3 == 0 ==> n <= 32)
            && (x % 3 == 1 ==> n <= 128 && (limit > 32 ==> n >= 32))
            && (x % 3 == 2 && y % 10 != 0 ==> n <= 1500 && (limit > 128 ==> n >= 128))
            && (x % 3 == 2 && y % 10 == 0 && limit > 1500 ==> n >= 1500)
    ensures var lo := if x % 3 == 0 then 1 else if x % 3 == 1 then 32 else if y % 10 != 0 then 128 else 1500;
            ChooseBlockLen(limit, 3, x, y, 0) == if limit > lo then lo else 1
  {
    var (r, l) := (Below(x, 3), Below(y, 10));
    assert r == x % 3 && l == y % 10;
    BelowIs(0, limit);
    hide Below;
  }

  /** The byte a byte strategy writes. */
  function NewByte(strat: Strategy, b: Byte, x: nat): (v: Byte)
    requires IsByteStrategy(strat)
  {
    match strat
    case FlipBit => Flipped(b, OneBit(Below(x, 8)))
    case Interesting8 => INTERESTING_8[Below(x, |INTERESTING_8|)] % 256
    case Arith8(neg) => Shifted(b, neg, 1 + Below(x, ARITH_MAX), 256)
    case Rand8 => Flipped(b, 1 + Below(x, 255))
    case ByteAdd => Shifted(b, false, 1, 256)
    case ByteSub => Shifted(b, true, 1, 256)
    case Flip8 => Flipped(b, 255)
  }

  lemma NewByteIff(strat: Strategy, b: Byte, v: Byte)
    requires IsByteStrategy(strat)
    ensures ByteStep(strat, b, v) <==> exists x :: NewByte(strat, b, x) == v
  {
    forall x ensures ByteStep(strat, b, NewByte(strat, b, x)) { ByteIsAllowed(strat, b, x); }
    if ByteStep(strat, b, v) {
      var x := EveryByte(strat, b, v);
    }
  }

  lemma ByteIsAllowed(strat: Strategy, b: Byte, x: nat)
    requires IsByteStrategy(strat)
    ensures ByteStep(strat, b, NewByte(strat, b, x))
  {
    hide Flipped, OneBit;
  }

  lemma EveryByte(strat: Strategy, b: Byte, v: Byte) returns (x: nat)
    requires IsByteStrategy(strat) && ByteStep(strat, b, v)
    ensures NewByte(strat, b, x) == v
  {
    hide Flipped, OneBit, Below;
    match strat
    case FlipBit =>
      x :| x < 8 && v == Flipped(b, OneBit(x));
      BelowIs(x, 8);
    case Interesting8 =>
      x :| x < |INTERESTING_8| && v == INTERESTING_8[x] % 256;
      BelowIs(x, |INTERESTING_8|);
    case Arith8(neg) =>
      var item: nat :| 1 <= item <= ARITH_MAX && v == Shifted(b, neg, item, 256);
      x := item - 1;
      BelowIs(x, ARITH_MAX);
    case Rand8 =>
      var item: Byte :| 1 <= item && v == Flipped(b, item);
      x := item - 1;
      BelowIs(x, 255);
    case ByteAdd => x := 0;
    case ByteSub => x := 0;
    case Flip8 => x := 0;
  }

  /** The bytes a word strategy writes. */
  function NewWord(strat: Strategy, word: seq<Byte>, x: nat): (bytes: seq<Byte>)
    requires WordSize(strat) > 0 && |word| == WordSize(strat)
    ensures |bytes| == WordSize(strat)
  {
    var size := WordSize(strat);
    if strat.Interesting16? || strat.Interesting32? then
      var values := InterestingValues(strat);
      assert |values| > 1;
      var v := values[Below(x, |values|)] % Power(size);
      Encode(if strat.be then SwapBytes(v, size) else v, size)
    else Encode(ArithWord(strat, Decode(word), 1 + Below(x, ARITH_MAX)), size)
  }

  lemma WordIsAllowed(strat: Strategy, word: seq<Byte>, x: nat)
    requires WordSize(strat) > 0 && |word| == WordSize(strat)
    ensures WordStep(strat, word, NewWord(strat, word, x))
  {
    hide Encode, Decode, SwapBytes, Power, Shifted;
    assert |InterestingValues(strat)| > 1;
  }

  lemma EveryWord(strat: Strategy, word: seq<Byte>, bytes: seq<Byte>) returns (x: nat)
    requires |word| == WordSize(strat) && WordStep(strat, word, bytes)
    ensures NewWord(strat, word, x) == bytes
  {
    hide Encode, Decode, SwapBytes, Power, Shifted, ArithWord, Below;
    var size := WordSize(strat);
    if strat.Interesting16? || strat.Interesting32? {
      x :| x < |InterestingValues(strat)| &&
        var v := InterestingValues(strat)[x] % Power(size);
        bytes == Encode(if strat.be then SwapBytes(v, size) else v, size);
      BelowIs(x, |InterestingValues(strat)|);
    } else {
      var item: nat :| 1 <= item <= ARITH_MAX && bytes == Encode(ArithWord(strat, Decode(word), item), size);
      x := item - 1;
      BelowIs(x, ARITH_MAX);
    }
  }

  // ----- one function for each kind of step

  function ByteChoice(strat: Strategy, s: seq<Byte>, ds: seq<nat>): (e: Edit)
    requires IsByteStrategy(strat) && |s| > 0
  {
    var off := Below(At(ds, 1), |s|);
    Replace(off, off + 1, [NewByte(strat, s[off], At(ds, 0))])
  }

  function WordChoice(strat: Strategy, s: seq<Byte>, ds: seq<nat>): (e: Edit)
    requires WordSize(strat) > 0
  {
    var size := WordSize(strat);
    if |s| < size then Keep
    else
      var pos := Below(At(ds, 1), |s| - size + 1);
      Replace(pos, pos + size, NewWord(strat, s[pos..pos + size], At(ds, 0)))
  }

  /** A random byte, or the byte before `to`. */
  function FillByte(s: seq<Byte>, to: nat, x: nat, y: nat): Byte
    requires to < |s|
  {
    if Below(x, 2) != 0 then Below(y, 256) else s[if to > 0 then to - 1 else 0]
  }

  function CloneChoice(strat: Strategy, env: Env, s: seq<Byte>, ds: seq<nat>): (d: Decision)
    requires |s| > 0 && env.rlim <= 3
  {
    if |s| + BLK_XL < env.maxLen then
      var n := ChooseBlockLen(if strat.CloneCopy? then |s| else BLK_XL, env.rlim, At(ds, 0), At(ds, 1), At(ds, 2));
      var to := Below(At(ds, 3), |s|);
      if strat.CloneCopy? then
        var from := Below(At(ds, 4), |s| - n + 1);
        Make(Replace(to, to, s[from..from + n]))
      else
        var item := FillByte(s, to, At(ds, 4), At(ds, 5));
        Make(Replace(to, to, seq(n, _ => item)))
    else if |s| < 8 then Make(Keep)
    else Again
  }

  function OverwriteChoice(strat: Strategy, env: Env, s: seq<Byte>, ds: seq<nat>): (e: Edit)
    requires |s| > 0 && env.rlim <= 3
  {
    if |s| < 2 then Keep
    else
      var n := ChooseBlockLen(|s| - 1, env.rlim, At(ds, 0), At(ds, 1), At(ds, 2));
      var to := Below(At(ds, 3), |s| - n + 1);
      if strat.OverwriteCopy? then
        var from := Below(At(ds, 4), |s| - n + 1);
        Replace(to, to + n, s[from..from + n])
      else
        var item := FillByte(s, to, At(ds, 4), At(ds, 5));
        Replace(to, to + n, seq(n, _ => item))
  }

  /** The `x`-th position below `n` other than `i`. */
  function Other(x: nat, i: nat, n: nat): (j: nat)
    requires i < n && n > 1
    ensures j < n && j != i
  {
    var j := Below(x, n - 1);
    if j < i then j else j + 1
  }

  function SwitchChoice(env: Env, s: seq<Byte>, ds: seq<nat>): (e: Edit)
    requires |s| > 0 && env.rlim <= 3
  {
    if |s| < 4 then Keep
    else
      var from := Below(At(ds, 0), |s|);
      var to := Other(At(ds, 1), from, |s|);
      var limit := if from < to then Least(to - from, |s| - to) else Least(from - to, |s| - from);
      Exchange(from, to, ChooseBlockLen(limit, env.rlim, At(ds, 2), At(ds, 3), At(ds, 4)))
  }

  function Least(a: nat, b: nat): nat {
    if a < b then a else b
  }

  function DeleteChoice(strat: Strategy, env: Env, s: seq<Byte>, ds: seq<nat>): (e: Edit)
    requires |s| > 0 && env.rlim <= 3
  {
    if |s| < 2 then Keep
    else
      var n := if strat.Del? then ChooseBlockLen(|s| - 1, env.rlim, At(ds, 0), At(ds, 1), At(ds, 2)) else 1;
      var from := Below(At(ds, 3), |s| - n + 1);
      Replace(from, from + n, [])
  }

  /** The lower positions to swap with, from the last position of the block down. */
  function SwapDraws(blen: nat, ds: seq<nat>): (js: seq<nat>)
    requires blen > 0
    ensures Draws(blen, js) && |js| == blen - 1
  {
    seq(blen - 1, k requires 0 <= k < blen - 1 => Below(At(ds, 4 + k), blen - 1 - k))
  }

  function ShuffleChoice(env: Env, s: seq<Byte>, ds: seq<nat>): (e: Edit)
    requires |s| > 0 && env.rlim <= 3
  {
    if |s| < 4 then Keep
    else
      var blen := ChooseBlockLen(|s| - 1, env.rlim, At(ds, 0), At(ds, 1), At(ds, 2));
      ShuffleAt(Below(At(ds, 3), |s| - blen + 1), blen, SwapDraws(blen, ds))
  }

  function InsertOneChoice(env: Env, s: seq<Byte>, ds: seq<nat>): (d: Decision)
    requires |s| > 0
  {
    if |s| < 2 then Make(Keep)
    else if |s| + 1 > env.maxLen then Again
    else
      var to := Below(At(ds, 0), |s|);
      Make(Replace(to, to, [FillByte(s, to, At(ds, 1), At(ds, 2))]))
  }

  function TokenChoice(strat: Strategy, env: Env, s: seq<Byte>, ds: seq<nat>): (d: Decision)
    requires strat.ExtraOverwrite? || strat.ExtraInsert?
  {
    var tokens := if strat.auto then env.autoExtras else env.extras;
    if tokens == [] then Again
    else
      var token := tokens[Below(At(ds, 0), |tokens|)];
      if strat.ExtraOverwrite? then
        if |token| > |s| then Again
        else
          var at := Below(At(ds, 1), |s| - |token| + 1);
          Make(Replace(at, at + |token|, token))
      else if |s| + |token| > env.maxLen then Again
      else
        var at := Below(At(ds, 1), |s| + 1);
        Make(Replace(at, at, token))
  }

  function SpliceChoice(strat: Strategy, env: Env, s: seq<Byte>, ds: seq<nat>): (d: Decision)
    requires |s| > 0 && env.rlim <= 3
  {
    if env.splice == [] then Again
    else if strat.SpliceOverwrite? then
      var len := ChooseBlockLen(|env.splice| - 1, env.rlim, At(ds, 0), At(ds, 1), At(ds, 2));
      var n := Least(len, |s|);
      var from := Below(At(ds, 3), |env.splice| - n + 1);
      var to := Below(At(ds, 4), |s| - n + 1);
      Make(Replace(to, to + n, env.splice[from..from + n]))
    else if |s| + BLK_XL > env.maxLen then Again
    else
      var n := ChooseBlockLen(|env.splice|, env.rlim, At(ds, 0), At(ds, 1), At(ds, 2));
      var from := Below(At(ds, 3), |env.splice| - n + 1);
      var to := Below(At(ds, 4), |s| + 1);
      Make(Replace(to, to, env.splice[from..from + n]))
  }

  // ----- numbers

  /** The first digit of `s` from `i` on, before `end`, or else `end`. */
  function DigitFrom(s: seq<Byte>, i: nat, end: nat): (k: nat)
    requires i <= end <= |s|
    ensures i <= k <= end && (k < end ==> IsDigit(s[k])) && forall l :: i <= l < k ==> !IsDigit(s[l])
    decreases end - i
  {
    if i == end || IsDigit(s[i]) then i else DigitFrom(s, i + 1, end)
  }

  /** The first digit from `start` on, wrapping once; `|s|` if there is none. */
  function DigitAfter(s: seq<Byte>, start: nat): (k: nat)
    requires start < |s|
    ensures k <= |s| && (k < |s| ==> IsDigit(s[k])) && (k == |s| ==> forall l :: 0 <= l < |s| ==> !IsDigit(s[l]))
  {
    var k := DigitFrom(s, start, |s|);
    if k < |s| then k
    else
      var l := DigitFrom(s, 0, start);
      if l < start then l else |s|
  }

  /** Where the longest number that fits ends, if the digits `off .. i` do. */
  ghost function FitEnd(s: seq<Byte>, off: nat, i: nat): (off2: nat)
    requires off < i <= |s| && AllDigits(s[off..i]) && Value(s[off..i]) <= S64_MAX
    ensures NumberAt(s, off, off2)
    decreases |s| - i
  {
    if i < |s| && IsDigit(s[i]) then
      PrefixStep(s, off, i);
      if Value(s[off..i + 1]) <= S64_MAX then FitEnd(s, off, i + 1) else i
    else i
  }

  lemma OneDigit(s: seq<Byte>, off: nat)
    requires off < |s| && IsDigit(s[off])
    ensures AllDigits(s[off..off + 1]) && Value(s[off..off + 1]) <= S64_MAX
  {
    assert s[off..off] == [];
    PrefixStep(s, off, off);
  }

  /** A number ends in one place only. */
  lemma {:induction false} EndIsUnique(s: seq<Byte>, off: nat, i: nat, off2: nat)
    requires NumberAt(s, off, off2) && off < i <= off2
    requires AllDigits(s[off..i]) && Value(s[off..i]) <= S64_MAX
    ensures FitEnd(s, off, i) == off2
    decreases off2 - i
  {
    if i == off2 {
    } else {
      assert s[off..off2][i - off] == s[i];
      PrefixStep(s, off, i);
      PrefixIsSmaller(s, off, i + 1, off2);
      EndIsUnique(s, off, i + 1, off2);
    }
  }

  lemma EndOfNumber(s: seq<Byte>, off: nat, off2: nat)
    requires NumberAt(s, off, off2)
    ensures off < |s| && AllDigits(s[off..off + 1]) && Value(s[off..off + 1]) <= S64_MAX
    ensures FitEnd(s, off, off + 1) == off2
  {
    hide FitEnd, Value;
    assert s[off..off2][0] == s[off];
    OneDigit(s, off);
    EndIsUnique(s, off, off + 1, off2);
  }

  lemma {:induction false} PrefixIsSmaller(s: seq<Byte>, off: nat, i: nat, j: nat)
    requires off <= i <= j <= |s| && AllDigits(s[off..j])
    ensures AllDigits(s[off..i]) && Value(s[off..i]) <= Value(s[off..j])
    decreases j
  {
    if i == j {
    } else {
      forall k | off <= k < j ensures IsDigit(s[k]) {
        assert s[off..j][k - off] == s[k];
      }
      PrefixIsSmaller(s, off, i, j - 1);
      PrefixStep(s, off, j - 1);
    }
  }

  /** What is drawn for a strategy that adds, takes or replaces by a draw. */
  function DrawLimit(strat: nat, val: int): (n: nat)
    ensures n > 0
  {
    if strat == 4 && 0 < val < 0x19999999 then val * 10 else 256
  }

  /** The number at `off .. off2`, changed and printed. */
  ghost function NumberChoice(env: Env, s: seq<Byte>, off: nat, off2: nat, x: nat, y: nat): (d: Decision)
    requires NumberAt(s, off, off2)
  {
    NumberFacts(s, off, off2);
    var val := Signed(s, off, off2);
    var strat := Below(x, 8);
    var r := Below(y, DrawLimit(strat, val));
    var (v, width) := Modify(strat, val, off2 - off, r);
    if |s| - width + |Decimal(v)| > env.maxLen then Again
    else Make(Replace(off, off + width, Decimal(v)))
  }

  ghost function AsciiChoice(env: Env, s: seq<Byte>, ds: seq<nat>): (d: Decision) {
    if |s| < 4 then Make(Keep)
    else
      var off := DigitAfter(s, Below(At(ds, 0), |s|));
      if off == |s| then
        if |s| < 8 then Make(Keep) else Again
      else
        OneDigit(s, off);
        NumberChoice(env, s, off, FitEnd(s, off, off + 1), At(ds, 1), At(ds, 2))
  }

  /** The number found decides. */
  lemma AsciiChoiceIs(env: Env, s: seq<Byte>, ds: seq<nat>, off: nat, off2: nat)
    requires |s| >= 4 && off == DigitAfter(s, Below(At(ds, 0), |s|)) && NumberAt(s, off, off2)
    ensures AsciiChoice(env, s, ds) == NumberChoice(env, s, off, off2, At(ds, 1), At(ds, 2))
  {
    hide NumberChoice, FitEnd, Value, AllDigits, DigitAfter, Below;
    EndOfNumber(s, off, off2);
  }

  /** At most `n` digits from the end of a random number. */
  function LastDigits(n: nat, x: nat): (block: seq<Byte>)
    requires n > 0
    ensures 1 <= |block| <= n && AllDigits(block)
  {
    var num := Digits(x % 0x1_0000_0000_0000_0000);
    ReadBackDigits(x % 0x1_0000_0000_0000_0000);
    if n > |num| then num else num[|num| - n..]
  }

  function InsertAsciiChoice(s: seq<Byte>, ds: seq<nat>): (d: Decision)
    requires |s| > 0
  {
    var n := 1 + Below(At(ds, 0), 8);
    var pos := Below(At(ds, 1), |s|);
    if |s| < pos + n then
      if |s| < 8 then Make(Keep) else Again
    else
      var block := LastDigits(n, At(ds, 2));
      Make(Replace(pos, pos + |block|, block))
  }

  // ----- the step

  ghost function Decide(strat: Strategy, env: Env, s: seq<Byte>, ds: seq<nat>): (d: Decision)
    requires 1 <= |s| && env.rlim <= 3
  {
    if IsByteStrategy(strat) then Make(ByteChoice(strat, s, ds))
    else if WordSize(strat) > 0 then Make(WordChoice(strat, s, ds))
    else if strat.CloneCopy? || strat.CloneFixed? then CloneChoice(strat, env, s, ds)
    else if strat.OverwriteCopy? || strat.OverwriteFixed? then Make(OverwriteChoice(strat, env, s, ds))
    else if strat.Switch? then Make(SwitchChoice(env, s, ds))
    else if strat.Del? || strat.DelOne? then Make(DeleteChoice(strat, env, s, ds))
    else if strat.ShuffleBytes? then Make(ShuffleChoice(env, s, ds))
    else if strat.InsertOne? then InsertOneChoice(env, s, ds)
    else if strat.AsciiNum? then AsciiChoice(env, s, ds)
    else if strat.InsertAsciiNum? then InsertAsciiChoice(s, ds)
    else if strat.ExtraOverwrite? || strat.ExtraInsert? then TokenChoice(strat, env, s, ds)
    else SpliceChoice(strat, env, s, ds)
  }
}
