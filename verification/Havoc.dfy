/** `afl_mutate`: a step loop over a buffer and its length, 37 strategies, with
    a scratch buffer for insertions.  The random numbers are parameters, a list
    for each attempt at a step; a retried step is one more attempt. */
module Havoc {
  import opened AsciiNumber
  import opened HavocDraws
  import opened HavocEdits
  import opened HavocRuns
  import opened LittleEndian
  import opened Shuffle

  // ----- stores into a buffer

  lemma PutTake(a: seq<Byte>, at: nat, block: seq<Byte>, n: nat)
    requires at + |block| <= n <= |a|
    ensures Put(a, at, block)[..n] == Put(a[..n], at, block)
  {
  }

  lemma PutFront(a: seq<Byte>, block: seq<Byte>)
    requires |block| <= |a|
    ensures Put(a, 0, block)[..|block|] == block
  {
  }

  lemma PutThree(t: seq<Byte>, head: seq<Byte>, block: seq<Byte>, tail: seq<Byte>)
    requires |head| + |block| + |tail| <= |t|
    ensures Put(Put(Put(t, 0, head), |head|, block), |head| + |block|, tail)[..|head| + |block| + |tail|] == head + block + tail
  {
    var a := Put(t, 0, head);
    var b := Put(a, |head|, block);
    assert b[..|head| + |block|] == head + block;
  }

  lemma PutGap(a: seq<Byte>, at: nat, block: seq<Byte>, tail: seq<Byte>)
    requires at + |block| + |tail| <= |a|
    ensures Put(Put(a, at + |block|, tail), at, block)[..at + |block| + |tail|] == a[..at] + block + tail
  {
    var b := Put(a, at + |block|, tail);
    assert b[..at] == a[..at] && b[at + |block|..at + |block| + |tail|] == tail;
  }

  lemma PutTail(s: seq<Byte>, from: nat, n: nat)
    requires from + n <= |s|
    ensures Put(s, from, s[from + n..])[..|s| - n] == s[..from] + [] + s[from + n..]
  {
  }

  /** The input around a block. */
  lemma InputParts(a: seq<Byte>, off: nat, blen: nat, len: nat)
    requires off + blen <= len <= |a|
    ensures a[..len] == a[..off] + a[off..off + blen] + a[off + blen..][..len - off - blen]
    ensures a[..len][..off] == a[..off] && a[..len][off..off + blen] == a[off..off + blen]
    ensures a[..len][off + blen..] == a[off + blen..][..len - off - blen]
  {
  }

  lemma KeepIsNothing(s: seq<Byte>)
    ensures Legal(s, Keep) && Apply(s, Keep) == s
  {
  }

  /** The state after a step: the edit decided on was applied, or nothing changed
      and the step is drawn again. */
  ghost predicate Outcome(d: Decision, s: seq<Byte>, s': seq<Byte>, retry: bool, e: Edit) {
    if d == Again then retry && s' == s && e == Keep
    else !retry && e == d.edit && Legal(s, e) && s' == Apply(s, e)
  }

  lemma OutcomeIsTried(env: Env, s: seq<Byte>, one: Try, s': seq<Byte>, retry: bool, e: Edit)
    requires 1 <= |s| && env.rlim <= 3 && Outcome(Decide(one.strat, env, s, one.numbers), s, s', retry, e)
    ensures Attempt(one.strat, retry, e) == Tried(env, s, one)
    ensures Legal(s, e) && s' == if retry then s else Apply(s, e)
  {
  }

  class Mutator {
    const env: Env
    const buf: array<Byte>
    const tmp: array<Byte>
    var len: nat

    constructor (env: Env, buf: array<Byte>, tmp: array<Byte>, len: nat)
      requires 1 <= len <= env.maxLen <= buf.Length && env.maxLen <= tmp.Length && buf != tmp && env.rlim <= 3
      ensures Valid() && this.env == env && this.buf == buf && this.tmp == tmp && this.len == len
    {
      this.env, this.buf, this.tmp, this.len := env, buf, tmp, len;
    }

    ghost predicate Valid()
      reads this
    {
      1 <= len <= env.maxLen <= buf.Length && env.maxLen <= tmp.Length && buf != tmp && env.rlim <= 3
    }

    /** The input as it stands. */
    ghost function Input(): seq<Byte>
      requires Valid()
      reads this, buf
    {
      buf[..len]
    }

    // ----- memory

    static method Store(a: array<Byte>, at: nat, block: seq<Byte>)
      requires at + |block| <= a.Length
      modifies a
      ensures a[..] == Put(old(a[..]), at, block)
    {
      forall i | 0 <= i < |block| {
        a[at + i] := block[i];
      }
    }

    /** Store within the input. */
    method StoreInput(at: nat, block: seq<Byte>)
      requires Valid() && at + |block| <= len
      modifies buf
      ensures Valid() && Input() == Put(old(Input()), at, block)
    {
      hide Put;
      ghost var before := buf[..];
      Store(buf, at, block);
      PutTake(before, at, block, len);
      assert buf[..len] == buf[..][..len] && before[..len] == old(Input());
    }

    /** Overwrite `at ..` by a block. */
    method Overwrite(at: nat, block: seq<Byte>) returns (e: Edit)
      requires Valid() && at + |block| <= len
      modifies this, buf
      ensures Valid() && e == Replace(at, at + |block|, block) && Input() == Apply(old(Input()), e)
    {
      StoreInput(at, block);
      e := Replace(at, at + |block|, block);
    }

    /** Head, block, tail through the scratch buffer, then back. */
    method ReplaceVia(from: nat, to: nat, block: seq<Byte>) returns (e: Edit)
      requires Valid() && from <= to <= len && 1 <= from + |block| + (len - to) <= env.maxLen
      modifies this, buf, tmp
      ensures Valid() && e == Replace(from, to, block) && Input() == Apply(old(Input()), e)
    {
      hide Put;
      ghost var s := Input();
      var head := Slice(0, from);
      var tail := Slice(to, len - to);
      assert head == s[..from] && tail == s[to..];
      ghost var t := tmp[..];
      Store(tmp, 0, head);
      Store(tmp, from, block);
      Store(tmp, from + |block|, tail);
      PutThree(t, head, block, tail);
      len := from + |block| + (len - to);
      assert tmp[..len] == tmp[..][..len];
      ghost var before := buf[..];
      Store(buf, 0, tmp[..len]);
      PutFront(before, tmp[..len]);
      assert buf[..len] == buf[..][..len];
      e := Replace(from, to, block);
    }

    /** `memmove` the tail over the deleted bytes. */
    method Delete(from: nat, n: nat) returns (e: Edit)
      requires Valid() && from + n <= len && n < len
      modifies this, buf
      ensures Valid() && e == Replace(from, from + n, []) && Input() == Apply(old(Input()), e)
    {
      hide Put;
      ghost var s := Input();
      var tail := Slice(from + n, len - from - n);
      assert tail == s[from + n..];
      StoreInput(from, tail);
      PutTail(s, from, n);
      assert buf[..len - n] == Input()[..len - n];
      len := len - n;
      e := Replace(from, from + n, []);
    }

    /** `memmove` the tail up and copy the block in between. */
    method InsertInPlace(at: nat, block: seq<Byte>) returns (e: Edit)
      requires Valid() && at <= len && len + |block| <= env.maxLen
      modifies this, buf
      ensures Valid() && e == Replace(at, at, block) && Input() == Apply(old(Input()), e)
    {
      hide Put;
      ghost var s, before := Input(), buf[..];
      var tail := Slice(at, len - at);
      assert tail == s[at..];
      Store(buf, at + |block|, tail);
      Store(buf, at, block);
      len := len + |block|;
      PutGap(before, at, block, tail);
      assert buf[..len] == buf[..][..len] && before[..at] == s[..at];
      e := Replace(at, at, block);
    }

    /** Three copies, the first through the scratch buffer. */
    method ExchangeBlocks(from: nat, to: nat, n: nat) returns (e: Edit)
      requires Valid() && Legal(Input(), Exchange(from, to, n))
      modifies this, buf, tmp
      ensures Valid() && e == Exchange(from, to, n) && Input() == Apply(old(Input()), e)
    {
      hide Put;
      ghost var s := Input();
      var mine := Slice(from, n);
      var theirs := Slice(to, n);
      ghost var t := tmp[..];
      Store(tmp, 0, mine);
      PutFront(t, mine);
      assert tmp[..n] == tmp[..][..n] == mine;
      StoreInput(from, theirs);
      StoreInput(to, tmp[..n]);
      e := Exchange(from, to, n);
    }

    /** The shuffle loop, on a block of the input. */
    method ShuffleInput(off: nat, blen: nat, js: seq<nat>) returns (e: Edit)
      requires Valid() && Legal(Input(), ShuffleAt(off, blen, js))
      modifies this, buf
      ensures Valid() && e == ShuffleAt(off, blen, js) && Input() == Apply(old(Input()), e)
    {
      hide Swaps;
      ghost var before := buf[..];
      InputParts(before, off, blen, len);
      ShuffleBlock(buf, off, blen, js);
      InputParts(buf[..], off, blen, len);
      assert buf[..][..off] == buf[..off] && buf[..][off..off + blen] == buf[off..off + blen];
      assert buf[..][off + blen..] == buf[off + blen..] && buf[..][..len] == buf[..len];
      e := ShuffleAt(off, blen, js);
    }

    // ----- strategies

    method ByteMutation(strat: Strategy, ds: seq<nat>) returns (e: Edit)
      requires Valid() && IsByteStrategy(strat)
      modifies this, buf
      ensures Valid() && Outcome(Make(ByteChoice(strat, old(Input()), ds)), old(Input()), Input(), false, e)
    {
      hide Apply, NewByte, Below;
      var off := Below(At(ds, 1), len);
      assert Input()[off] == buf[off];
      e := Overwrite(off, [NewByte(strat, buf[off], At(ds, 0))]);
    }

    method WordMutation(strat: Strategy, ds: seq<nat>) returns (e: Edit)
      requires Valid() && WordSize(strat) > 0
      modifies this, buf
      ensures Valid() && Outcome(Make(WordChoice(strat, old(Input()), ds)), old(Input()), Input(), false, e)
    {
      hide Apply, NewWord, WordSize, Below;
      KeepIsNothing(Input());
      var size := WordSize(strat);
      if len < size { return Keep; }
      var pos := Below(At(ds, 1), len - size + 1);
      var word := Slice(pos, size);
      e := Overwrite(pos, NewWord(strat, word, At(ds, 0)));
    }

    /** Blocks copied or filled within the input. */
    method CloneMutation(strat: Strategy, ds: seq<nat>) returns (retry: bool, e: Edit)
      requires Valid() && (strat.CloneCopy? || strat.CloneFixed?)
      modifies this, buf, tmp
      ensures Valid() && Outcome(CloneChoice(strat, env, old(Input()), ds), old(Input()), Input(), retry, e)
    {
      hide Apply, ChooseBlockLen, Below, FillByte;
      KeepIsNothing(Input());
      if len + BLK_XL < env.maxLen {
        retry := false;
        var limit := if strat.CloneCopy? then len else BLK_XL;
        var n := ChooseBlockLen(limit, env.rlim, At(ds, 0), At(ds, 1), At(ds, 2));
        var to := Below(At(ds, 3), len);
        var block;
        if strat.CloneCopy? {
          block := Slice(Below(At(ds, 4), len - n + 1), n);
        } else {
          block := Filling(to, n, At(ds, 4), At(ds, 5));
        }
        e := ReplaceVia(to, to, block);
      } else {
        retry, e := len >= 8, Keep;
      }
    }

    /** Some bytes of the input. */
    method Slice(from: nat, n: nat) returns (block: seq<Byte>)
      requires Valid() && from + n <= len
      ensures block == Input()[from..from + n]
    {
      block := buf[from..from + n];
    }

    /** A constant block: a random byte, or the byte before `to`. */
    method Filling(to: nat, n: nat, x: nat, y: nat) returns (block: seq<Byte>)
      requires Valid() && to < len
      ensures var item := FillByte(Input(), to, x, y); block == seq(n, _ => item)
    {
      hide Below;
      var from := if to > 0 then to - 1 else 0;
      assert Input()[from] == buf[from];
      var item: Byte := buf[from];
      if Below(x, 2) != 0 { item := Below(y, 256); }
      block := seq(n, _ => item);
    }

    method OverwriteMutation(strat: Strategy, ds: seq<nat>) returns (e: Edit)
      requires Valid() && (strat.OverwriteCopy? || strat.OverwriteFixed?)
      modifies this, buf
      ensures Valid() && Outcome(Make(OverwriteChoice(strat, env, old(Input()), ds)), old(Input()), Input(), false, e)
    {
      hide Apply, ChooseBlockLen, Below, FillByte;
      KeepIsNothing(Input());
      if len < 2 { return Keep; }
      var n := ChooseBlockLen(len - 1, env.rlim, At(ds, 0), At(ds, 1), At(ds, 2));
      var to := Below(At(ds, 3), len - n + 1);
      var block;
      if strat.OverwriteCopy? {
        block := Slice(Below(At(ds, 4), len - n + 1), n);
      } else {
        block := Filling(to, n, At(ds, 4), At(ds, 5));
      }
      e := Overwrite(to, block);
    }

    /** Exchange two blocks that cannot overlap. */
    method SwitchMutation(ds: seq<nat>) returns (e: Edit)
      requires Valid()
      modifies this, buf, tmp
      ensures Valid() && Outcome(Make(SwitchChoice(env, old(Input()), ds)), old(Input()), Input(), false, e)
    {
      hide Apply, ChooseBlockLen, Below, Other;
      KeepIsNothing(Input());
      if len < 4 { return Keep; }
      var from := Below(At(ds, 0), len);
      var to := Other(At(ds, 1), from, len);
      var apart, toEnd;
      if from < to { apart, toEnd := to - from, len - to; } else { apart, toEnd := from - to, len - from; }
      var n := ChooseBlockLen(Least(apart, toEnd), env.rlim, At(ds, 2), At(ds, 3), At(ds, 4));
      e := ExchangeBlocks(from, to, n);
    }

    method DeleteMutation(strat: Strategy, ds: seq<nat>) returns (e: Edit)
      requires Valid() && (strat.Del? || strat.DelOne?)
      modifies this, buf
      ensures Valid() && Outcome(Make(DeleteChoice(strat, env, old(Input()), ds)), old(Input()), Input(), false, e)
    {
      hide Apply, ChooseBlockLen, Below;
      KeepIsNothing(Input());
      if len < 2 { return Keep; }
      var n := 1;
      if strat.Del? { n := ChooseBlockLen(len - 1, env.rlim, At(ds, 0), At(ds, 1), At(ds, 2)); }
      e := Delete(Below(At(ds, 3), len - n + 1), n);
    }

    method ShuffleMutation(ds: seq<nat>) returns (e: Edit)
      requires Valid()
      modifies this, buf
      ensures Valid() && Outcome(Make(ShuffleChoice(env, old(Input()), ds)), old(Input()), Input(), false, e)
    {
      hide Apply, ChooseBlockLen, Below, SwapDraws;
      KeepIsNothing(Input());
      if len < 4 { return Keep; }
      var blen := ChooseBlockLen(len - 1, env.rlim, At(ds, 0), At(ds, 1), At(ds, 2));
      e := ShuffleInput(Below(At(ds, 3), len - blen + 1), blen, SwapDraws(blen, ds));
    }

    method InsertOneMutation(ds: seq<nat>) returns (retry: bool, e: Edit)
      requires Valid()
      modifies this, buf, tmp
      ensures Valid() && Outcome(InsertOneChoice(env, old(Input()), ds), old(Input()), Input(), retry, e)
    {
      hide Apply, Below, FillByte;
      KeepIsNothing(Input());
      if len < 2 { return false, Keep; }
      if len + 1 > env.maxLen { return true, Keep; }
      var to := Below(At(ds, 0), len);
      var block := Filling(to, 1, At(ds, 1), At(ds, 2));
      retry := false;
      e := ReplaceVia(to, to, block);
    }

    method TokenMutation(strat: Strategy, ds: seq<nat>) returns (retry: bool, e: Edit)
      requires Valid() && (strat.ExtraOverwrite? || strat.ExtraInsert?)
      modifies this, buf
      ensures Valid() && Outcome(TokenChoice(strat, env, old(Input()), ds), old(Input()), Input(), retry, e)
    {
      hide Apply, Below;
      KeepIsNothing(Input());
      var tokens := if strat.auto then env.autoExtras else env.extras;
      if |tokens| == 0 { return true, Keep; }
      var token := tokens[Below(At(ds, 0), |tokens|)];
      retry := false;
      if strat.ExtraOverwrite? {
        if |token| > len { return true, Keep; }
        e := Overwrite(Below(At(ds, 1), len - |token| + 1), token);
      } else {
        if len + |token| > env.maxLen { return true, Keep; }
        e := InsertInPlace(Below(At(ds, 1), len + 1), token);
      }
    }

    method SpliceMutation(strat: Strategy, ds: seq<nat>) returns (retry: bool, e: Edit)
      requires Valid() && (strat.SpliceOverwrite? || strat.SpliceInsert?)
      modifies this, buf, tmp
      ensures Valid() && Outcome(SpliceChoice(strat, env, old(Input()), ds), old(Input()), Input(), retry, e)
    {
      hide Apply, ChooseBlockLen, Below;
      KeepIsNothing(Input());
      if env.splice == [] { return true, Keep; }
      retry := false;
      if strat.SpliceOverwrite? {
        var n := ChooseBlockLen(|env.splice| - 1, env.rlim, At(ds, 0), At(ds, 1), At(ds, 2));
        if n > len { n := len; }
        var from := Below(At(ds, 3), |env.splice| - n + 1);
        e := Overwrite(Below(At(ds, 4), len - n + 1), env.splice[from..from + n]);
      } else {
        if len + BLK_XL > env.maxLen { return true, Keep; }
        var n := ChooseBlockLen(|env.splice|, env.rlim, At(ds, 0), At(ds, 1), At(ds, 2));
        var from := Below(At(ds, 3), |env.splice| - n + 1);
        var to := Below(At(ds, 4), len + 1);
        e := ReplaceVia(to, to, env.splice[from..from + n]);
      }
    }

    // ----- numbers

    /** The first digit at or after `start`, wrapping to the front once. */
    method FindDigit(start: nat) returns (found: bool, off: nat)
      requires Valid() && start < len
      ensures found <==> exists i :: 0 <= i < len && IsDigit(buf[i])
      ensures DigitAfter(Input(), start) == if found then off else len
    {
      ghost var s := Input();
      off := start;
      while off < len && !IsDigit(buf[off])
        invariant start <= off <= len && DigitFrom(s, start, len) == DigitFrom(s, off, len)
      {
        assert s[off] == buf[off];
        off := off + 1;
      }
      if off < len {
        assert s[off] == buf[off];
        return true, off;
      }
      off := 0;
      while off < start && !IsDigit(buf[off])
        invariant 0 <= off <= start && DigitFrom(s, 0, start) == DigitFrom(s, off, start)
      {
        assert s[off] == buf[off];
        off := off + 1;
      }
      found := off < start;
      assert forall i :: 0 <= i < len ==> s[i] == buf[i];
    }

    /** The digit run from `off` on, and the longest part of it that fits. */
    method ReadInput(off: nat) returns (val: nat, off2: nat)
      requires Valid() && off < len && IsDigit(buf[off])
      ensures NumberAt(Input(), off, off2) && val == Value(Input()[off..off2])
    {
      hide Value;
      var end := off + 1;
      while end < len && IsDigit(buf[end])
        invariant off < end <= len
        invariant forall i :: off <= i < end ==> IsDigit(buf[i])
      {
        end := end + 1;
      }
      var s := buf[..len];
      assert AllDigits(s[off..end]) by {
        forall i | 0 <= i < end - off ensures IsDigit(s[off..end][i]) { assert IsDigit(buf[off + i]); }
      }
      val, off2 := ReadNumber(s, off, end);
      assert off2 == end && end < len ==> !IsDigit(s[off2]);
    }

    method AsciiMutation(ds: seq<nat>) returns (retry: bool, e: Edit)
      requires Valid()
      modifies this, buf, tmp
      ensures Valid() && Outcome(AsciiChoice(env, old(Input()), ds), old(Input()), Input(), retry, e)
    {
      hide Apply, Below, NumberAt, FitEnd, DigitAfter, NumberChoice, Modify, Decimal, Value, AllDigits;
      ghost var s := Input();
      KeepIsNothing(s);
      if len < 4 { return false, Keep; }
      var found, off := FindDigit(Below(At(ds, 0), len));
      if !found { return len >= 8, Keep; }
      var num, off2 := ReadInput(off);
      AsciiChoiceIs(env, s, ds, off, off2);
      hide AsciiChoice;
      retry, e := ChangeNumber(off, off2, num, At(ds, 1), At(ds, 2));
    }

    /** Change the number at `off` and print it in its place. */
    method ChangeNumber(off: nat, off2: nat, num: nat, x: nat, y: nat) returns (retry: bool, e: Edit)
      requires Valid() && NumberAt(Input(), off, off2) && num == Value(Input()[off..off2])
      modifies this, buf, tmp
      ensures Valid()
      ensures Outcome(NumberChoice(env, old(Input()), off, off2, x, y), old(Input()), Input(), retry, e)
    {
      hide Apply, Below, NumberAt, Modify, Decimal, Value, AllDigits;
      ghost var s := Input();
      KeepIsNothing(s);
      NumberFacts(s, off, off2);
      var val: int := num;
      if off > 0 && buf[off - 1] == MINUS { val := -(num as int); }
      assert val == Signed(s, off, off2);
      var strat := Below(x, 8);
      var r := Below(y, DrawLimit(strat, val));
      var (v, width) := Modify(strat, val, off2 - off, r);
      var block := Decimal(v);
      var to := off + width;
      retry := false;
      if width == |block| {
        e := Overwrite(off, block);
      } else {
        if off + |block| + len - to > env.maxLen { return true, Keep; }
        e := ReplaceVia(off, to, block);
      }
    }

    /** Overwrite some bytes by the last digits of a random number. */
    method InsertAsciiMutation(ds: seq<nat>) returns (retry: bool, e: Edit)
      requires Valid()
      modifies this, buf
      ensures Valid() && Outcome(InsertAsciiChoice(old(Input()), ds), old(Input()), Input(), retry, e)
    {
      hide Apply, Below, LastDigits;
      KeepIsNothing(Input());
      var n := 1 + Below(At(ds, 0), 8);
      var pos := Below(At(ds, 1), len);
      if len < pos + n { return len >= 8, Keep; }
      retry := false;
      e := Overwrite(pos, LastDigits(n, At(ds, 2)));
    }

    // ----- the step loop

    /** One attempt at a step. */
    method Step(strat: Strategy, ds: seq<nat>) returns (retry: bool, e: Edit)
      requires Valid()
      modifies this, buf, tmp
      ensures Valid() && Outcome(Decide(strat, env, old(Input()), ds), old(Input()), Input(), retry, e)
    {
      hide Outcome, ByteChoice, WordChoice, CloneChoice, OverwriteChoice, SwitchChoice, DeleteChoice, ShuffleChoice;
      hide InsertOneChoice, AsciiChoice, InsertAsciiChoice, TokenChoice, SpliceChoice;
      retry := false;
      if IsByteStrategy(strat) { e := ByteMutation(strat, ds); return; }
      if WordSize(strat) > 0 { e := WordMutation(strat, ds); return; }
      match strat {
        case CloneCopy => retry, e := CloneMutation(strat, ds);
        case CloneFixed => retry, e := CloneMutation(strat, ds);
        case OverwriteCopy => e := OverwriteMutation(strat, ds);
        case OverwriteFixed => e := OverwriteMutation(strat, ds);
        case Switch => e := SwitchMutation(ds);
        case Del => e := DeleteMutation(strat, ds);
        case DelOne => e := DeleteMutation(strat, ds);
        case ShuffleBytes => e := ShuffleMutation(ds);
        case InsertOne => retry, e := InsertOneMutation(ds);
        case AsciiNum => retry, e := AsciiMutation(ds);
        case InsertAsciiNum => retry, e := InsertAsciiMutation(ds);
        case ExtraOverwrite(_) => retry, e := TokenMutation(strat, ds);
        case ExtraInsert(_) => retry, e := TokenMutation(strat, ds);
        case SpliceOverwrite => retry, e := SpliceMutation(strat, ds);
        case SpliceInsert => retry, e := SpliceMutation(strat, ds);
      }
    }

    /** `steps` mutations from a stream of draws; a retried attempt does not count as a step. */
    method Mutate(tries: seq<Try>, steps: nat) returns (newLen: nat, log: seq<Attempt>)
      requires Valid()
      modifies this, buf, tmp
      ensures Valid() && newLen == len == |Input()|
      ensures log == LogOf(env, old(Input()), tries, steps) && Replay(env, old(Input()), log) == Some(Input())
    {
      hide LogOf, Outcome, Replay, Decide;
      log := [];
      ghost var s := Input();
      var step := 0;
      LogOfNothing(env, s, steps);
      while |log| < |tries| && step < steps
        invariant Valid() && step == Steps(log) <= steps && |log| <= |tries|
        invariant log == LogOf(env, s, tries[..|log|], steps)
        invariant Replay(env, s, log) == Some(Input())
        decreases |tries| - |log|
      {
        ghost var before := Input();
        var one := tries[|log|];
        var retry, e := Step(one.strat, one.numbers);
        OutcomeIsTried(env, before, one, Input(), retry, e);
        LogOfMore(env, s, tries[..|log|], one, steps);
        assert tries[..|log| + 1] == tries[..|log|] + [one];
        StepsSnoc(log, Attempt(one.strat, retry, e));
        log := log + [Attempt(one.strat, retry, e)];
        if !retry { step := step + 1; }
      }
      LogOfRest(env, s, tries, steps, |log|);
      newLen := len;
    }
  }

  /** The four strategy tables, 256 entries each. */
  datatype Tables = Tables(exploreText: seq<Strategy>, exploitText: seq<Strategy>,
                           exploreBinary: seq<Strategy>, exploitBinary: seq<Strategy>) {
    function Chosen(isText: bool, isExploration: bool): (table: seq<Strategy>)
      ensures isText && isExploration ==> table == exploreText
      ensures isText && !isExploration ==> table == exploitText
      ensures !isText && isExploration ==> table == exploreBinary
      ensures !isText && !isExploration ==> table == exploitBinary
    {
      if isText then if isExploration then exploreText else exploitText
      else if isExploration then exploreBinary else exploitBinary
    }
  }

  /** What is drawn for an attempt: a place in the strategy table and the other numbers. */
  datatype Draw = Draw(place: nat, numbers: seq<nat>)

  /** The strategies behind the places drawn. */
  function Drawn(table: seq<Strategy>, draws: seq<Draw>): (tries: seq<Try>)
    requires forall i :: 0 <= i < |draws| ==> draws[i].place < |table|
    ensures |tries| == |draws|
    ensures forall i :: 0 <= i < |draws| ==> tries[i] == Try(table[draws[i].place], draws[i].numbers)
  {
    seq(|draws|, i requires 0 <= i < |draws| => Try(table[draws[i].place], draws[i].numbers))
  }

  /** The whole call. `scratch` is the buffer kept from earlier calls, if any, and
      `granted` is whether memory for a larger one can be had. */
  method AflMutate(env: Env, buf: array?<Byte>, len: nat, tables: Tables, isText: bool, isExploration: bool,
                   draws: seq<Draw>, steps: nat, scratch: array?<Byte>, granted: bool)
    returns (newLen: nat, log: seq<Attempt>, kept: array?<Byte>)
    requires buf != null ==> len <= env.maxLen <= buf.Length && buf != scratch
    requires env.rlim <= 3
    requires forall i :: 0 <= i < |draws| ==> draws[i].place < |tables.Chosen(isText, isExploration)|
    modifies if buf == null then {} else {buf}, if scratch == null then {} else {scratch}
    ensures buf == null || len == 0 || (NeedsScratch(env, scratch) && !granted) ==>
      newLen == 0 && kept == scratch && (buf != null ==> buf[..] == old(buf[..]))
    ensures buf != null && len > 0 && (NeedsScratch(env, scratch) ==> granted) ==>
      && 1 <= newLen <= env.maxLen && kept != null && env.maxLen <= kept.Length
      && log == LogOf(env, old(buf[..len]), Drawn(tables.Chosen(isText, isExploration), draws), steps)
      && Replay(env, old(buf[..len]), log) == Some(buf[..newLen])
  {
    kept := scratch;
    if buf == null || len == 0 { return 0, [], scratch; }
    if NeedsScratch(env, scratch) {
      if !granted { return 0, [], scratch; }
      kept := new Byte[env.maxLen](_ => 0);
    }
    var m := new Mutator(env, buf, kept, len);
    newLen, log := m.Mutate(Drawn(tables.Chosen(isText, isExploration), draws), steps);
  }

  /** The first call, and any call for longer inputs than before. */
  predicate NeedsScratch(env: Env, scratch: array?<Byte>) {
    env.maxLen > if scratch == null then 0 else scratch.Length
  }
}
