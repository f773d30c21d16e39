/** The edits a havoc step makes are exactly those its strategy allows: whatever
    numbers are drawn the edit is allowed, and each allowed edit, and each redraw
    that may happen, comes from some numbers. */
module HavocExact {
  import opened AsciiNumber
  import opened HavocDraws
  import opened HavocEdits
  import opened LittleEndian
  import opened Shuffle

  ghost predicate Fits(d: Decision, strat: Strategy, env: Env, s: seq<Byte>) {
    match d
    case Again => MayRetry(strat, env, s)
    case Make(e) => Allowed(strat, env, s, e) && Legal(s, e)
  }

  // ----- bytes and words

  lemma ByteChoiceFits(strat: Strategy, env: Env, s: seq<Byte>, ds: seq<nat>)
    requires IsByteStrategy(strat) && |s| > 0
    ensures Fits(Make(ByteChoice(strat, s, ds)), strat, env, s)
  {
    hide ByteStep, NewByte;
    ByteIsAllowed(strat, s[Below(At(ds, 1), |s|)], At(ds, 0));
  }

  lemma EveryByteChoice(strat: Strategy, env: Env, s: seq<Byte>, e: Edit) returns (ds: seq<nat>)
    requires IsByteStrategy(strat) && |s| > 0 && Allowed(strat, env, s, e)
    ensures ByteChoice(strat, s, ds) == e
  {
    hide ByteStep, NewByte, Below;
    var x := EveryByte(strat, s[e.from], e.block[0]);
    ds := [x, e.from];
    BelowIs(e.from, |s|);
  }

  lemma WordChoiceFits(strat: Strategy, env: Env, s: seq<Byte>, ds: seq<nat>)
    requires WordSize(strat) > 0
    ensures Fits(Make(WordChoice(strat, s, ds)), strat, env, s)
  {
    hide WordStep, NewWord, Below;
    var size := WordSize(strat);
    if |s| >= size {
      var pos := Below(At(ds, 1), |s| - size + 1);
      WordIsAllowed(strat, s[pos..pos + size], At(ds, 0));
    }
    WordAllowed(strat, env, s, WordChoice(strat, s, ds));
  }

  lemma EveryWordChoice(strat: Strategy, env: Env, s: seq<Byte>, e: Edit) returns (ds: seq<nat>)
    requires WordSize(strat) > 0 && !IsByteStrategy(strat) && Allowed(strat, env, s, e)
    ensures WordChoice(strat, s, ds) == e
  {
    hide WordStep, NewWord, Below;
    ds := [];
    var size := WordSize(strat);
    if |s| >= size {
      assert |e.block| == size by { WordStepSize(strat, s[e.from..e.to], e.block); }
      var x := EveryWord(strat, s[e.from..e.to], e.block);
      ds := [x, e.from];
      BelowIs(e.from, |s| - size + 1);
    }
  }

  lemma WordStepSize(strat: Strategy, old': seq<Byte>, new': seq<Byte>)
    requires WordStep(strat, old', new')
    ensures |old'| == |new'| == WordSize(strat)
  {
  }

  // ----- blocks

  lemma CloneChoiceFits(strat: Strategy, env: Env, s: seq<Byte>, ds: seq<nat>)
    requires (strat.CloneCopy? || strat.CloneFixed?) && |s| > 0 && env.rlim <= 3
    ensures Fits(CloneChoice(strat, env, s, ds), strat, env, s)
  {
    hide ChooseBlockLen, Below;
    if |s| + BLK_XL < env.maxLen && strat.CloneCopy? {
      var n := ChooseBlockLen(|s|, env.rlim, At(ds, 0), At(ds, 1), At(ds, 2));
      var from := Below(At(ds, 4), |s| - n + 1);
      assert SliceAt(s, from, s[from..from + n]);
    }
  }

  lemma EveryCloneChoice(strat: Strategy, env: Env, s: seq<Byte>, e: Edit) returns (ds: seq<nat>)
    requires (strat.CloneCopy? || strat.CloneFixed?) && |s| > 0 && env.rlim <= 3 && Allowed(strat, env, s, e)
    ensures CloneChoice(strat, env, s, ds) == Make(e)
  {
    hide ChooseBlockLen, Below;
    ds := [];
    if |s| + BLK_XL < env.maxLen {
      var n := |e.block|;
      var x, y, z := EveryBlockLen(n, if strat.CloneCopy? then |s| else BLK_XL, env.rlim);
      BelowIs(e.to, |s|);
      if strat.CloneCopy? {
        var from: nat :| SliceAt(s, from, e.block);
        BelowIs(from, |s| - n + 1);
        ds := [x, y, z, e.to, from];
      } else {
        ds := [x, y, z, e.to, 1, e.block[0]];
        RandomFill(s, e.to, e.block[0]);
        assert e.block == seq(n, _ => e.block[0]);
      }
    }
  }

  /** A random fill byte can be any byte; the other kind is the byte before the block. */
  lemma RandomFill(s: seq<Byte>, to: nat, b: Byte)
    requires to < |s|
    ensures FillByte(s, to, 1, b) == b
    ensures to > 0 ==> FillByte(s, to, 0, b) == s[to - 1]
    ensures FillByte(s, 0, 0, b) == s[0]
  {
    BelowIs(0, 2);
    BelowIs(1, 2);
    BelowIs(b, 256);
  }

  lemma OverwriteChoiceFits(strat: Strategy, env: Env, s: seq<Byte>, ds: seq<nat>)
    requires (strat.OverwriteCopy? || strat.OverwriteFixed?) && |s| > 0 && env.rlim <= 3
    ensures Fits(Make(OverwriteChoice(strat, env, s, ds)), strat, env, s)
  {
    hide ChooseBlockLen, Below;
    if |s| >= 2 && strat.OverwriteCopy? {
      var n := ChooseBlockLen(|s| - 1, env.rlim, At(ds, 0), At(ds, 1), At(ds, 2));
      var from := Below(At(ds, 4), |s| - n + 1);
      assert SliceAt(s, from, s[from..from + n]);
    }
  }

  lemma EveryOverwriteCopy(env: Env, s: seq<Byte>, e: Edit) returns (ds: seq<nat>)
    requires |s| >= 2 && env.rlim <= 3 && Allowed(OverwriteCopy, env, s, e)
    ensures OverwriteChoice(OverwriteCopy, env, s, ds) == e
  {
    CopyAllowed(env, s, e);
    hide Allowed, ChooseBlockLen, Below, FillByte, BlockLen, At;
    var n := |e.block|;
    var x, y, z := EveryBlockLen(n, |s| - 1, env.rlim);
    var from: nat :| SliceAt(s, from, e.block);
    BelowIs(e.from, |s| - n + 1);
    BelowIs(from, |s| - n + 1);
    ds := [x, y, z, e.from, from];
    FiveNumbers(x, y, z, e.from, from);
  }

  lemma FiveNumbers(x: nat, y: nat, z: nat, u: nat, v: nat)
    ensures var ds := [x, y, z, u, v];
            At(ds, 0) == x && At(ds, 1) == y && At(ds, 2) == z && At(ds, 3) == u && At(ds, 4) == v
  {
  }

  lemma CopyAllowed(env: Env, s: seq<Byte>, e: Edit)
    requires |s| >= 2 && Allowed(OverwriteCopy, env, s, e)
    ensures Overwrites(s, e) && BlockLen(|e.block|, |s| - 1, env.rlim) && exists from: nat :: SliceAt(s, from, e.block)
  {
  }

  lemma EveryOverwriteFixed(env: Env, s: seq<Byte>, e: Edit) returns (ds: seq<nat>)
    requires |s| >= 2 && env.rlim <= 3 && Allowed(OverwriteFixed, env, s, e)
    ensures OverwriteChoice(OverwriteFixed, env, s, ds) == e
  {
    hide ChooseBlockLen, Below, FillByte;
    var n := |e.block|;
    var x, y, z := EveryBlockLen(n, |s| - 1, env.rlim);
    BelowIs(e.from, |s| - n + 1);
    ds := [x, y, z, e.from, 1, e.block[0]];
    RandomFill(s, e.from, e.block[0]);
    assert e.block == seq(n, _ => e.block[0]);
  }

  lemma EveryOverwriteChoice(strat: Strategy, env: Env, s: seq<Byte>, e: Edit) returns (ds: seq<nat>)
    requires (strat.OverwriteCopy? || strat.OverwriteFixed?) && |s| > 0 && env.rlim <= 3
    requires Allowed(strat, env, s, e)
    ensures OverwriteChoice(strat, env, s, ds) == e
  {
    if |s| < 2 {
      ds := [];
    } else {
      hide Allowed, OverwriteChoice;
      if strat.OverwriteCopy? { ds := EveryOverwriteCopy(env, s, e); } else { ds := EveryOverwriteFixed(env, s, e); }
    }
  }

  lemma SwitchChoiceFits(env: Env, s: seq<Byte>, ds: seq<nat>)
    requires |s| > 0 && env.rlim <= 3
    ensures Fits(Make(SwitchChoice(env, s, ds)), Switch, env, s)
  {
    hide ChooseBlockLen, Below, Other;
  }

  lemma EverySwitchChoice(env: Env, s: seq<Byte>, e: Edit) returns (ds: seq<nat>)
    requires |s| > 0 && env.rlim <= 3 && Allowed(Switch, env, s, e)
    ensures SwitchChoice(env, s, ds) == e
  {
    hide ChooseBlockLen, Below;
    ds := [];
    if |s| >= 4 {
      var (from, to) := (e.a, e.b);
      var limit := if from < to then Least(to - from, |s| - to) else Least(from - to, |s| - from);
      var x, y, z := EveryBlockLen(e.n, limit, env.rlim);
      var other := if to < from then to else to - 1;
      BelowIs(from, |s|);
      BelowIs(other, |s| - 1);
      ds := [from, other, x, y, z];
    }
  }

  lemma DeleteChoiceFits(strat: Strategy, env: Env, s: seq<Byte>, ds: seq<nat>)
    requires (strat.Del? || strat.DelOne?) && |s| > 0 && env.rlim <= 3
    ensures Fits(Make(DeleteChoice(strat, env, s, ds)), strat, env, s)
  {
    hide ChooseBlockLen, Below;
  }

  lemma EveryDeleteChoice(strat: Strategy, env: Env, s: seq<Byte>, e: Edit) returns (ds: seq<nat>)
    requires (strat.Del? || strat.DelOne?) && |s| > 0 && env.rlim <= 3 && Allowed(strat, env, s, e)
    ensures DeleteChoice(strat, env, s, ds) == e
  {
    hide ChooseBlockLen, Below;
    ds := [];
    if |s| >= 2 {
      var n := e.to - e.from;
      BelowIs(e.from, |s| - n + 1);
      ds := [0, 0, 0, e.from];
      if strat.Del? {
        var x, y, z := EveryBlockLen(n, |s| - 1, env.rlim);
        ds := [x, y, z, e.from];
      }
    }
  }

  lemma ShuffleChoiceFits(env: Env, s: seq<Byte>, ds: seq<nat>)
    requires |s| > 0 && env.rlim <= 3
    ensures Fits(Make(ShuffleChoice(env, s, ds)), ShuffleBytes, env, s)
  {
    hide ChooseBlockLen, Below, SwapDraws, Draws;
  }

  lemma EveryShuffleChoice(env: Env, s: seq<Byte>, e: Edit) returns (ds: seq<nat>)
    requires |s| > 0 && env.rlim <= 3 && Allowed(ShuffleBytes, env, s, e)
    ensures ShuffleChoice(env, s, ds) == e
  {
    hide ChooseBlockLen, Below;
    ds := [];
    if |s| >= 4 {
      var x, y, z := EveryBlockLen(e.blen, |s| - 1, env.rlim);
      BelowIs(e.off, |s| - e.blen + 1);
      ds := [x, y, z, e.off] + e.js;
      EverySwap(e.blen, ds, e.js);
    }
  }

  lemma EverySwap(blen: nat, ds: seq<nat>, js: seq<nat>)
    requires blen > 0 && Draws(blen, js) && |js| == blen - 1 && |ds| >= 4 && ds[4..] == js
    ensures SwapDraws(blen, ds) == js
  {
    hide Below;
    forall k | 0 <= k < blen - 1 ensures SwapDraws(blen, ds)[k] == js[k] {
      assert ds[4 + k] == ds[4..][k];
      BelowIs(js[k], blen - 1 - k);
    }
  }

  lemma InsertOneChoiceFits(env: Env, s: seq<Byte>, ds: seq<nat>)
    requires |s| > 0
    ensures Fits(InsertOneChoice(env, s, ds), InsertOne, env, s)
  {
    hide Below, FillByte;
  }

  lemma EveryInsertOneChoice(env: Env, s: seq<Byte>, e: Edit) returns (ds: seq<nat>)
    requires |s| > 0 && Allowed(InsertOne, env, s, e)
    ensures InsertOneChoice(env, s, ds) == Make(e)
  {
    hide Below, FillByte;
    ds := [];
    if |s| >= 2 {
      BelowIs(e.to, |s|);
      RandomFill(s, e.to, e.block[0]);
      ds := [e.to, 1, e.block[0]];
    }
  }

  // ----- tokens and the other input

  lemma TokenChoiceFits(strat: Strategy, env: Env, s: seq<Byte>, ds: seq<nat>)
    requires strat.ExtraOverwrite? || strat.ExtraInsert?
    ensures Fits(TokenChoice(strat, env, s, ds), strat, env, s)
  {
    hide Below;
    var tokens := if strat.auto then env.autoExtras else env.extras;
    if tokens != [] {
      assert tokens[Below(At(ds, 0), |tokens|)] in tokens;
    }
  }

  lemma EveryTokenChoice(strat: Strategy, env: Env, s: seq<Byte>, e: Edit) returns (ds: seq<nat>)
    requires (strat.ExtraOverwrite? || strat.ExtraInsert?) && Allowed(strat, env, s, e)
    ensures TokenChoice(strat, env, s, ds) == Make(e)
  {
    hide Below;
    var tokens := if strat.auto then env.autoExtras else env.extras;
    var use: nat :| use < |tokens| && tokens[use] == e.block;
    BelowIs(use, |tokens|);
    BelowIs(e.from, if strat.ExtraOverwrite? then |s| - |e.block| + 1 else |s| + 1);
    ds := [use, e.from];
  }

  lemma TokenMayFail(strat: Strategy, env: Env, s: seq<Byte>) returns (ds: seq<nat>)
    requires (strat.ExtraOverwrite? || strat.ExtraInsert?) && MayRetry(strat, env, s)
    ensures TokenChoice(strat, env, s, ds) == Again
  {
    hide Below;
    var tokens := if strat.auto then env.autoExtras else env.extras;
    ds := [];
    if tokens != [] {
      var use: nat :| use < |tokens| &&
        if strat.ExtraOverwrite? then |tokens[use]| > |s| else |s| + |tokens[use]| > env.maxLen;
      BelowIs(use, |tokens|);
      ds := [use];
    }
  }

  lemma SpliceChoiceFits(strat: Strategy, env: Env, s: seq<Byte>, ds: seq<nat>)
    requires (strat.SpliceOverwrite? || strat.SpliceInsert?) && |s| > 0 && env.rlim <= 3
    ensures Fits(SpliceChoice(strat, env, s, ds), strat, env, s)
  {
    hide ChooseBlockLen, Below;
    if env.splice != [] {
      var limit := if strat.SpliceOverwrite? then |env.splice| - 1 else |env.splice|;
      var len := ChooseBlockLen(limit, env.rlim, At(ds, 0), At(ds, 1), At(ds, 2));
      var n := if strat.SpliceOverwrite? then Least(len, |s|) else len;
      var from := Below(At(ds, 3), |env.splice| - n + 1);
      assert SliceAt(env.splice, from, env.splice[from..from + n]);
    }
  }

  lemma EverySpliceOverwrite(env: Env, s: seq<Byte>, e: Edit) returns (ds: seq<nat>)
    requires |s| > 0 && env.rlim <= 3 && Allowed(SpliceOverwrite, env, s, e)
    ensures SpliceChoice(SpliceOverwrite, env, s, ds) == Make(e)
  {
    hide ChooseBlockLen, Below;
    var n := |e.block|;
    var x, y, z := EveryBlockLen(n, |env.splice| - 1, env.rlim);
    var from: nat :| SliceAt(env.splice, from, e.block);
    BelowIs(from, |env.splice| - n + 1);
    BelowIs(e.from, |s| - n + 1);
    ds := [x, y, z, from, e.from];
  }

  lemma EverySpliceInsert(env: Env, s: seq<Byte>, e: Edit) returns (ds: seq<nat>)
    requires |s| > 0 && env.rlim <= 3 && Allowed(SpliceInsert, env, s, e)
    ensures SpliceChoice(SpliceInsert, env, s, ds) == Make(e)
  {
    hide ChooseBlockLen, Below;
    var n := |e.block|;
    var x, y, z := EveryBlockLen(n, |env.splice|, env.rlim);
    var from: nat :| SliceAt(env.splice, from, e.block);
    BelowIs(from, |env.splice| - n + 1);
    BelowIs(e.from, |s| + 1);
    ds := [x, y, z, from, e.from];
  }

  // ----- numbers

  lemma NumberChoiceFits(env: Env, s: seq<Byte>, off: nat, off2: nat, x: nat, y: nat)
    requires |s| >= 4 && NumberAt(s, off, off2)
    ensures Fits(NumberChoice(env, s, off, off2, x, y), AsciiNum, env, s)
  {
    hide NumberAt, Modify, Decimal, Signed, Below, Value, AllDigits;
    NumberFacts(s, off, off2);
    var val := Signed(s, off, off2);
    var strat := Below(x, 8);
    var r := Below(y, DrawLimit(strat, val));
    var (v, width) := Modify(strat, val, off2 - off, r);
    assert NumberEdit(s, off, off2, strat, r, off + width, Decimal(v));
    assert ReplacesNumber(s, Replace(off, off + width, Decimal(v)));
  }

  lemma AsciiChoiceFits(env: Env, s: seq<Byte>, ds: seq<nat>)
    ensures Fits(AsciiChoice(env, s, ds), AsciiNum, env, s)
  {
    hide NumberChoice, NumberAt, FitEnd, DigitAfter, Value, AllDigits, ReplacesNumber;
    if |s| >= 4 {
      var off := DigitAfter(s, Below(At(ds, 0), |s|));
      if off < |s| {
        OneDigit(s, off);
        NumberChoiceFits(env, s, off, FitEnd(s, off, off + 1), At(ds, 1), At(ds, 2));
      }
    }
  }

  /** A number and a draw give their edit. */
  lemma EveryNumberChoice(env: Env, s: seq<Byte>, e: Edit, off2: nat, strat: nat, r: nat)
    requires e.Replace? && NumberEdit(s, e.from, off2, strat, r, e.to, e.block)
    ensures NumberChoice(env, s, e.from, off2, strat, r) ==
            if |s| - (e.to - e.from) + |e.block| > env.maxLen then Again else Make(e)
  {
    hide NumberAt, Modify, Decimal, Signed, Below, Value, AllDigits;
    NumberFacts(s, e.from, off2);
    BelowIs(strat, 8);
    BelowIs(r, DrawLimit(strat, Signed(s, e.from, off2)));
  }

  lemma EveryNumberEdit(env: Env, s: seq<Byte>, e: Edit) returns (ds: seq<nat>)
    requires |s| >= 4 && ReplacesNumber(s, e)
    ensures AsciiChoice(env, s, ds) == if |s| - (e.to - e.from) + |e.block| > env.maxLen then Again else Make(e)
  {
    hide NumberEdit, NumberChoice, FitEnd, Value, Below, NumberAt, AllDigits;
    var off2: nat, strat: nat, r: nat :| NumberEdit(s, e.from, off2, strat, r, e.to, e.block);
    ds := [e.from, strat, r];
    StartOfNumber(s, e, off2, strat, r);
    BelowIs(e.from, |s|);
    EveryNumberChoice(env, s, e, off2, strat, r);
  }

  /** Drawn as the start, the first digit of a number is found, and then its end. */
  lemma StartOfNumber(s: seq<Byte>, e: Edit, off2: nat, strat: nat, r: nat)
    requires e.Replace? && NumberEdit(s, e.from, off2, strat, r, e.to, e.block)
    ensures e.from < |s| && DigitAfter(s, e.from) == e.from && NumberAt(s, e.from, off2)
    ensures AllDigits(s[e.from..e.from + 1]) && Value(s[e.from..e.from + 1]) <= S64_MAX
    ensures FitEnd(s, e.from, e.from + 1) == off2
  {
    hide Modify, Decimal, Signed, Value, FitEnd;
    EndOfNumber(s, e.from, off2);
    assert s[e.from..off2][0] == s[e.from];
  }

  lemma EveryAsciiChoice(env: Env, s: seq<Byte>, e: Edit) returns (ds: seq<nat>)
    requires |s| > 0 && Allowed(AsciiNum, env, s, e)
    ensures AsciiChoice(env, s, ds) == Make(e)
  {
    hide NumberChoice, NumberEdit, NumberAt, FitEnd, DigitFrom, Value, AllDigits;
    ds := [];
    if e != Keep {
      ds := EveryNumberEdit(env, s, e);
    }
  }

  lemma AsciiMayFail(env: Env, s: seq<Byte>) returns (ds: seq<nat>)
    requires |s| > 0 && MayRetry(AsciiNum, env, s)
    ensures AsciiChoice(env, s, ds) == Again
  {
    hide NumberChoice, NumberEdit, NumberAt, FitEnd, DigitFrom, Value, AllDigits;
    ds := [];
    if |s| < 8 || exists i :: 0 <= i < |s| && IsDigit(s[i]) {
      var e :| ReplacesNumber(s, e) && |s| - (e.to - e.from) + |e.block| > env.maxLen;
      ds := EveryNumberEdit(env, s, e);
    }
  }

  lemma InsertAsciiChoiceFits(env: Env, s: seq<Byte>, ds: seq<nat>)
    requires |s| > 0
    ensures Fits(InsertAsciiChoice(s, ds), InsertAsciiNum, env, s)
  {
    hide Below, LastDigits, AllDigits;
  }

  /** A 1 in front of a block of digits prints as the two together. */
  lemma {:induction false} OneBefore(block: seq<Byte>)
    requires AllDigits(block)
    ensures Digits(PowerOfTen(|block|) + Value(block)) == [49] + block
    decreases |block|
  {
    if block == [] {
    } else {
      var n := |block| - 1;
      var (rest, last) := (block[..n], block[n]);
      OneBefore(rest);
      var m := PowerOfTen(n) + Value(rest);
      assert PowerOfTen(|block|) + Value(block) == 10 * m + (last - 48);
      TenTimes(m, last - 48);
      assert rest + [last] == block;
    }
  }

  lemma TenTimes(m: nat, d: nat)
    requires m > 0 && d < 10
    ensures Digits(10 * m + d) == Digits(m) + [48 + d]
  {
  }

  lemma {:induction false} BelowPower(block: seq<Byte>)
    requires AllDigits(block)
    ensures Value(block) < PowerOfTen(|block|)
    decreases |block|
  {
    if block == [] {
    } else {
      BelowPower(block[..|block| - 1]);
    }
  }

  lemma {:induction false} PowerGrows(a: nat, b: nat)
    requires a <= b
    ensures PowerOfTen(a) <= PowerOfTen(b)
    decreases b
  {
    if a == b {
    } else {
      PowerGrows(a, b - 1);
    }
  }

  /** Any block of up to eight digits is the end of a 64-bit number. */
  lemma EveryDigits(block: seq<Byte>) returns (x: nat)
    requires 1 <= |block| <= 8 && AllDigits(block)
    ensures LastDigits(|block|, x) == block
  {
    x := PowerOfTen(|block|) + Value(block);
    BelowPower(block);
    PowerGrows(|block|, 18);
    TenToNineteen();
    assert x < 0x1_0000_0000_0000_0000;
    OneBefore(block);
    hide Digits, Value, PowerOfTen;
    assert x % 0x1_0000_0000_0000_0000 == x;
    assert ([49] + block)[1..] == block;
  }

  lemma EveryInsertAsciiChoice(env: Env, s: seq<Byte>, e: Edit) returns (ds: seq<nat>)
    requires |s| > 0 && Allowed(InsertAsciiNum, env, s, e)
    ensures InsertAsciiChoice(s, ds) == Make(e)
  {
    hide Below, LastDigits, AllDigits;
    if e == Keep {
      ds := [7, |s| - 1];
      BelowIs(7, 8);
      BelowIs(|s| - 1, |s|);
    } else {
      var n := |e.block|;
      var x := EveryDigits(e.block);
      ds := [n - 1, e.from, x];
      BelowIs(n - 1, 8);
      BelowIs(e.from, |s|);
    }
  }

  lemma InsertAsciiMayFail(env: Env, s: seq<Byte>) returns (ds: seq<nat>)
    requires |s| > 0 && MayRetry(InsertAsciiNum, env, s)
    ensures InsertAsciiChoice(s, ds) == Again
  {
    hide Below, LastDigits;
    ds := [7, |s| - 1];
    BelowIs(7, 8);
    BelowIs(|s| - 1, |s|);
  }

  // ----- the step

  /** Whatever is drawn, the edit is allowed and a redraw may happen. */
  lemma DecisionFits(strat: Strategy, env: Env, s: seq<Byte>, ds: seq<nat>)
    requires 1 <= |s| && env.rlim <= 3
    ensures Fits(Decide(strat, env, s, ds), strat, env, s)
  {
    hide Fits, ByteChoice, WordChoice, CloneChoice, OverwriteChoice, SwitchChoice, DeleteChoice, ShuffleChoice;
    hide InsertOneChoice, AsciiChoice, InsertAsciiChoice, TokenChoice, SpliceChoice;
    if IsByteStrategy(strat) { ByteChoiceFits(strat, env, s, ds); }
    else if WordSize(strat) > 0 { WordChoiceFits(strat, env, s, ds); }
    else if strat.CloneCopy? || strat.CloneFixed? { CloneChoiceFits(strat, env, s, ds); }
    else if strat.OverwriteCopy? || strat.OverwriteFixed? { OverwriteChoiceFits(strat, env, s, ds); }
    else if strat.Switch? { SwitchChoiceFits(env, s, ds); }
    else if strat.Del? || strat.DelOne? { DeleteChoiceFits(strat, env, s, ds); }
    else if strat.ShuffleBytes? { ShuffleChoiceFits(env, s, ds); }
    else if strat.InsertOne? { InsertOneChoiceFits(env, s, ds); }
    else if strat.AsciiNum? { AsciiChoiceFits(env, s, ds); }
    else if strat.InsertAsciiNum? { InsertAsciiChoiceFits(env, s, ds); }
    else if strat.ExtraOverwrite? || strat.ExtraInsert? { TokenChoiceFits(strat, env, s, ds); }
    else { SpliceChoiceFits(strat, env, s, ds); }
  }

  /** Each allowed edit is made for some numbers. */
  lemma EveryEdit(strat: Strategy, env: Env, s: seq<Byte>, e: Edit) returns (ds: seq<nat>)
    requires 1 <= |s| && env.rlim <= 3 && Allowed(strat, env, s, e)
    ensures Decide(strat, env, s, ds) == Make(e)
  {
    hide Allowed, ByteChoice, WordChoice, CloneChoice, OverwriteChoice, SwitchChoice, DeleteChoice, ShuffleChoice;
    hide InsertOneChoice, AsciiChoice, InsertAsciiChoice, TokenChoice, SpliceChoice;
    if IsByteStrategy(strat) { ds := EveryByteChoice(strat, env, s, e); }
    else if WordSize(strat) > 0 { ds := EveryWordChoice(strat, env, s, e); }
    else if strat.CloneCopy? || strat.CloneFixed? { ds := EveryCloneChoice(strat, env, s, e); }
    else if strat.OverwriteCopy? || strat.OverwriteFixed? { ds := EveryOverwriteChoice(strat, env, s, e); }
    else if strat.Switch? { ds := EverySwitchChoice(env, s, e); }
    else if strat.Del? || strat.DelOne? { ds := EveryDeleteChoice(strat, env, s, e); }
    else if strat.ShuffleBytes? { ds := EveryShuffleChoice(env, s, e); }
    else if strat.InsertOne? { ds := EveryInsertOneChoice(env, s, e); }
    else if strat.AsciiNum? { ds := EveryAsciiChoice(env, s, e); }
    else if strat.InsertAsciiNum? { ds := EveryInsertAsciiChoice(env, s, e); }
    else if strat.ExtraOverwrite? || strat.ExtraInsert? { ds := EveryTokenChoice(strat, env, s, e); }
    else if strat.SpliceOverwrite? { ds := EverySpliceOverwrite(env, s, e); }
    else { ds := EverySpliceInsert(env, s, e); }
  }

  /** Each redraw that may happen does for some numbers. */
  lemma EveryRedraw(strat: Strategy, env: Env, s: seq<Byte>) returns (ds: seq<nat>)
    requires 1 <= |s| && env.rlim <= 3 && MayRetry(strat, env, s)
    ensures Decide(strat, env, s, ds) == Again
  {
    hide AsciiChoice, InsertAsciiChoice, TokenChoice, ChooseBlockLen;
    ds := [];
    if strat.AsciiNum? { ds := AsciiMayFail(env, s); }
    else if strat.InsertAsciiNum? { ds := InsertAsciiMayFail(env, s); }
    else if strat.ExtraOverwrite? || strat.ExtraInsert? { ds := TokenMayFail(strat, env, s); }
  }

  /** A step can end in a decision if and only if it is one its strategy allows. */
  lemma DecisionIff(strat: Strategy, env: Env, s: seq<Byte>, d: Decision)
    requires 1 <= |s| && env.rlim <= 3
    ensures Fits(d, strat, env, s) <==> exists ds :: Decide(strat, env, s, ds) == d
  {
    hide Allowed, MayRetry, Decide, Legal;
    forall ds ensures Fits(Decide(strat, env, s, ds), strat, env, s) { DecisionFits(strat, env, s, ds); }
    if Fits(d, strat, env, s) {
      var ds;
      if d == Again { ds := EveryRedraw(strat, env, s); } else { ds := EveryEdit(strat, env, s, d.edit); }
    }
  }
}
