/** `Worker.run` of afl-cmin: for the files it is handed, in whatever order, a
    worker keeps the lowest file index per tuple, counts tuples, and packs the
    traces that lowered some index. */
module CminWorker {
  import opened LittleEndian
  import opened CminTraces

  /** The traces of all files by file index, with the widths `main` derived
      from them.  A tuple is an index below `maxTuple`; `noFile` is the largest
      value of the file-index type. */
  datatype Corpus = Corpus(traces: seq<seq<nat>>, itemSize: nat, maxTuple: nat, noFile: nat)

  ghost predicate Valid(c: Corpus) {
    && |c.traces| <= c.noFile
    && forall f, t :: 0 <= f < |c.traces| && t in c.traces[f] ==> t < c.maxTuple && t < Power(c.itemSize)
  }

  ghost predicate Holds(c: Corpus, f: nat, t: nat) {
    f < |c.traces| && t in c.traces[f]
  }

  /** `v` is the lowest index in `files` whose trace has `t`, or `noFile`. */
  ghost predicate LowestHolder(c: Corpus, files: seq<nat>, t: nat, v: nat) {
    && (forall f :: f in files && Holds(c, f, t) ==> v <= f)
    && (v == c.noFile || (v in files && Holds(c, v, t)))
  }

  /** How often `t` occurs in the traces of `files`. */
  ghost function Occurrences(c: Corpus, files: seq<nat>, t: nat): nat
    requires forall f :: f in files ==> f < |c.traces|
  {
    if files == [] then 0
    else
      var n := |files| - 1;
      assert files[n] in files && forall f :: f in files[..n] ==> f in files;
      Occurrences(c, files[..n], t) + multiset(c.traces[files[n]])[t]
  }

  datatype Message = Unused | Packed(idx: nat, pos: nat, count: nat)

  datatype Report = Report(m: seq<nat>, counter: multiset<nat>, crashes: seq<nat>, pack: seq<Byte>, messages: seq<Message>)

  ghost predicate PacksOk(c: Corpus, files: seq<nat>, pack: seq<Byte>, messages: seq<Message>) {
    && |messages| == |files|
    && forall k :: 0 <= k < |files| && messages[k].Packed? && files[k] < |c.traces| ==>
         && messages[k].idx == files[k] && messages[k].count == |c.traces[files[k]]|
         && Stored(pack, messages[k].pos, c.traces[files[k]], c.itemSize)
  }

  ghost predicate LowestOk(c: Corpus, files: seq<nat>, m: seq<nat>) {
    |m| == c.maxTuple && forall t :: 0 <= t < |m| ==> LowestHolder(c, files, t, m[t])
  }

  ghost predicate IsPacked(files: seq<nat>, messages: seq<Message>, f: nat)
    requires |messages| == |files|
  {
    exists k :: 0 <= k < |files| && files[k] == f && messages[k].Packed?
  }

  /** The file kept for a tuple was packed. */
  ghost predicate KeptArePacked(c: Corpus, files: seq<nat>, m: seq<nat>, messages: seq<Message>)
    requires |messages| == |files|
  {
    forall t :: 0 <= t < |m| && m[t] != c.noFile ==> IsPacked(files, messages, m[t])
  }

  ghost predicate CounterOk(c: Corpus, files: seq<nat>, counter: multiset<nat>) {
    && (forall f :: f in files ==> f < |c.traces|)
    && forall t :: counter[t] == Occurrences(c, files, t)
  }

  /** Some tuple of `idx` had no holder among `files` with an index as low. */
  ghost predicate Improves(c: Corpus, files: seq<nat>, idx: nat) {
    idx < |c.traces| && exists t :: t in c.traces[idx] && forall f :: f in files && Holds(c, f, t) ==> idx < f
  }

  /** The traces of the files that improved on those before them, one after the other. */
  ghost function PackOf(c: Corpus, files: seq<nat>): (pack: seq<Byte>) {
    if files == [] then []
    else
      var (before, f) := (files[..|files| - 1], files[|files| - 1]);
      PackOf(c, before) + if Improves(c, before, f) then EncodeAll(c.traces[f], c.itemSize) else []
  }

  /** Where each of them is, and nothing for the others. */
  ghost function MessagesOf(c: Corpus, files: seq<nat>): (messages: seq<Message>) {
    if files == [] then []
    else
      var (before, f) := (files[..|files| - 1], files[|files| - 1]);
      MessagesOf(c, before) +
      [if Improves(c, before, f) then Packed(f, |PackOf(c, before)|, |c.traces[f]|) else Unused]
  }

  ghost function CrashesOf(c: Corpus, files: seq<nat>): (crashes: seq<nat>) {
    if files == [] then []
    else
      var (before, f) := (files[..|files| - 1], files[|files| - 1]);
      CrashesOf(c, before) + if f < |c.traces| && c.traces[f] == [] then [f] else []
  }

  /** What a worker reports about the files it was handed, in their order. */
  ghost predicate Reports(c: Corpus, files: seq<nat>, r: Report) {
    && LowestOk(c, files, r.m) && CounterOk(c, files, r.counter)
    && PacksOk(c, files, r.pack, r.messages) && KeptArePacked(c, files, r.m, r.messages)
    && r.pack == PackOf(c, files) && r.messages == MessagesOf(c, files) && r.crashes == CrashesOf(c, files)
  }

  lemma {:induction false} CrashesIff(c: Corpus, files: seq<nat>, f: nat)
    ensures f in CrashesOf(c, files) <==> f in files && f < |c.traces| && c.traces[f] == []
    decreases |files|
  {
    if files == [] {
    } else {
      CrashesIff(c, files[..|files| - 1], f);
    }
  }

  /** A file lowers an index if and only if it improves on the files before it. */
  lemma LowersIff(c: Corpus, files: seq<nat>, idx: nat, m: seq<nat>)
    requires Valid(c) && LowestOk(c, files, m) && idx < |c.traces|
    ensures (exists t :: 0 <= t < |m| && t in c.traces[idx] && idx < m[t]) <==> Improves(c, files, idx)
  {
    forall t | t in c.traces[idx]
      ensures t < |m| && (idx < m[t] <==> forall f :: f in files && Holds(c, f, t) ==> idx < f)
    {
      assert LowestHolder(c, files, t, m[t]);
    }
  }

  // ----- one file

  /** The inner loop: lower `m[t]` to `idx` for every tuple of the trace. */
  method Absorb(m: array<nat>, idx: nat, trace: seq<nat>) returns (used: bool)
    requires forall t :: t in trace ==> t < m.Length
    modifies m
    ensures forall t :: 0 <= t < m.Length ==> m[t] == if t in trace && idx < old(m[t]) then idx else old(m[t])
    ensures used <==> exists t :: t in trace && idx < old(m[t])
  {
    used := false;
    for k := 0 to |trace|
      invariant forall t :: 0 <= t < m.Length ==> m[t] == if t in trace[..k] && idx < old(m[t]) then idx else old(m[t])
      invariant used <==> exists t :: t in trace[..k] && t < m.Length && idx < old(m[t])
    {
      var t := trace[k];
      assert t in trace;
      assert trace[..k + 1] == trace[..k] + [t];
      if idx < m[t] {
        m[t] := idx;
        used := true;
      }
    }
    assert trace[..|trace|] == trace;
  }

  ghost predicate Absorbed(c: Corpus, idx: nat, m: seq<nat>, m': seq<nat>) {
    && idx < |c.traces| && |m'| == |m|
    && forall t :: 0 <= t < |m| ==> m'[t] == if t in c.traces[idx] && idx < m[t] then idx else m[t]
  }

  lemma AbsorbKeepsLowest(c: Corpus, files: seq<nat>, idx: nat, m: seq<nat>, m': seq<nat>)
    requires Valid(c) && LowestOk(c, files, m) && Absorbed(c, idx, m, m')
    ensures LowestOk(c, files + [idx], m')
  {
    forall t | 0 <= t < |m| ensures LowestHolder(c, files + [idx], t, m'[t]) {
      assert LowestHolder(c, files, t, m[t]);
      assert (files + [idx])[|files|] == idx;
    }
  }

  lemma AbsorbKeepsCounter(c: Corpus, files: seq<nat>, idx: nat, counter: multiset<nat>)
    requires CounterOk(c, files, counter) && idx < |c.traces|
    ensures CounterOk(c, files + [idx], counter + multiset(c.traces[idx]))
  {
    assert (files + [idx])[..|files|] == files;
  }

  lemma AbsorbKeepsPacks(c: Corpus, files: seq<nat>, idx: nat, pack: seq<Byte>, messages: seq<Message>, more: seq<Byte>,
                         msg: Message)
    requires Valid(c) && PacksOk(c, files, pack, messages) && idx < |c.traces|
    requires msg == Unused || (msg == Packed(idx, |pack|, |c.traces[idx]|) && more == EncodeAll(c.traces[idx], c.itemSize))
    ensures PacksOk(c, files + [idx], pack + more, messages + [msg])
  {
    if msg.Packed? { AppendedIsStored(pack, c.traces[idx], c.itemSize); }
    forall k | 0 <= k < |files| && messages[k].Packed? && files[k] < |c.traces|
      ensures Stored(pack + more, messages[k].pos, c.traces[files[k]], c.itemSize)
    {
      StoredStays(pack, more, messages[k].pos, c.traces[files[k]], c.itemSize);
    }
  }

  lemma AbsorbKeepsKept(c: Corpus, files: seq<nat>, idx: nat, m: seq<nat>, m': seq<nat>, messages: seq<Message>, msg: Message)
    requires |messages| == |files| && KeptArePacked(c, files, m, messages) && Absorbed(c, idx, m, m')
    requires (exists t :: 0 <= t < |m| && t in c.traces[idx] && idx < m[t]) ==> msg.Packed?
    ensures KeptArePacked(c, files + [idx], m', messages + [msg])
  {
    forall t | 0 <= t < |m'| && m'[t] != c.noFile ensures IsPacked(files + [idx], messages + [msg], m'[t]) {
      if m'[t] == m[t] {
        var k :| 0 <= k < |files| && files[k] == m[t] && messages[k].Packed?;
        assert (files + [idx])[k] == m'[t];
      } else {
        assert (files + [idx])[|files|] == m'[t];
      }
    }
  }

  // ----- the whole run of a worker

  function Flatten(batches: seq<seq<nat>>): seq<nat> {
    if batches == [] then [] else Flatten(batches[..|batches| - 1]) + batches[|batches| - 1]
  }

  lemma NothingReported(c: Corpus, m: seq<nat>)
    requires |m| == c.maxTuple && forall t :: 0 <= t < |m| ==> m[t] == c.noFile
    ensures Reports(c, [], Report(m, multiset{}, [], [], []))
  {
  }

  method TraceFile(c: Corpus, crashDir: bool, m: array<nat>, idx: nat, ghost files: seq<nat>, r0: Report) returns (r: Report)
    requires Valid(c) && m.Length == c.maxTuple && idx < |c.traces|
    requires r0.m == m[..] && Reports(c, files, r0)
    modifies m
    ensures r.m == m[..] && Reports(c, files + [idx], r)
  {
    hide Reports, Valid, LowestOk, CounterOk, PacksOk, KeptArePacked;
    Unfold(c, files, r0);
    TuplesInRange(c, idx);
    var trace := c.traces[idx];
    var crash := trace == [];
    var counter := r0.counter + multiset(trace);
    var used := false;
    var crashes := if crash then r0.crashes + [idx] else r0.crashes;
    if !crash || !crashDir {
      used := Absorb(m, idx, trace);
    }
    LowersIff(c, files, idx, r0.m);
    assert used <==> Improves(c, files, idx);
    AbsorbKeepsLowest(c, files, idx, r0.m, m[..]);
    AbsorbKeepsCounter(c, files, idx, r0.counter);
    if used {
      var bytes := EncodeAll(trace, c.itemSize);
      var msg := Packed(idx, |r0.pack|, |trace|);
      AbsorbKeepsPacks(c, files, idx, r0.pack, r0.messages, bytes, msg);
      AbsorbKeepsKept(c, files, idx, r0.m, m[..], r0.messages, msg);
      r := Report(m[..], counter, crashes, r0.pack + bytes, r0.messages + [msg]);
    } else {
      AbsorbKeepsPacks(c, files, idx, r0.pack, r0.messages, [], Unused);
      AbsorbKeepsKept(c, files, idx, r0.m, m[..], r0.messages, Unused);
      assert r0.pack + [] == r0.pack;
      r := Report(m[..], counter, crashes, r0.pack, r0.messages + [Unused]);
    }
    Fold(c, files, idx, r0, r);
  }

  lemma TuplesInRange(c: Corpus, idx: nat)
    requires Valid(c) && idx < |c.traces|
    ensures forall t :: t in c.traces[idx] ==> t < c.maxTuple
  {
  }

  lemma Unfold(c: Corpus, files: seq<nat>, r: Report)
    requires Reports(c, files, r)
    ensures LowestOk(c, files, r.m) && CounterOk(c, files, r.counter)
    ensures PacksOk(c, files, r.pack, r.messages) && |r.messages| == |files|
    ensures KeptArePacked(c, files, r.m, r.messages)
  {
  }

  lemma Fold(c: Corpus, files: seq<nat>, idx: nat, r0: Report, r: Report)
    requires Reports(c, files, r0) && idx < |c.traces|
    requires LowestOk(c, files + [idx], r.m) && CounterOk(c, files + [idx], r.counter)
    requires PacksOk(c, files + [idx], r.pack, r.messages) && |r.messages| == |files + [idx]|
    requires KeptArePacked(c, files + [idx], r.m, r.messages)
    requires r.crashes == if c.traces[idx] == [] then r0.crashes + [idx] else r0.crashes
    requires if Improves(c, files, idx) then
               && r.pack == r0.pack + EncodeAll(c.traces[idx], c.itemSize)
               && r.messages == r0.messages + [Packed(idx, |r0.pack|, |c.traces[idx]|)]
             else r.pack == r0.pack && r.messages == r0.messages + [Unused]
    ensures Reports(c, files + [idx], r)
  {
    hide LowestOk, CounterOk, PacksOk, KeptArePacked, Improves;
    assert (files + [idx])[..|files|] == files;
  }

  /** Any batches, in any order: the report is about exactly their files. */
  method RunWorker(c: Corpus, crashDir: bool, batches: seq<seq<nat>>) returns (r: Report)
    requires Valid(c) && forall f :: f in Flatten(batches) ==> f < |c.traces|
    ensures Reports(c, Flatten(batches), r)
  {
    hide Reports, Valid;
    var m := new nat[c.maxTuple](_ => c.noFile);
    r := Report(m[..], multiset{}, [], [], []);
    NothingReported(c, m[..]);
    ghost var files := [];
    for i := 0 to |batches|
      invariant files == Flatten(batches[..i])
      invariant r.m == m[..] && Reports(c, files, r)
    {
      var batch := batches[i];
      FlattenNext(batches, i);
      for k := 0 to |batch|
        invariant files == Flatten(batches[..i]) + batch[..k]
        invariant r.m == m[..] && Reports(c, files, r)
      {
        assert batch[k] in Flatten(batches[..i]) + batch;
        assert batch[k] in Flatten(batches[..i + 1]) && batch[k] in Flatten(batches);
        r := TraceFile(c, crashDir, m, batch[k], files, r);
        files := files + [batch[k]];
        assert batch[..k + 1] == batch[..k] + [batch[k]];
      }
      assert batch[..|batch|] == batch;
    }
    assert batches[..|batches|] == batches;
  }

  lemma {:induction false} FlattenNext(batches: seq<seq<nat>>, i: nat)
    requires i < |batches|
    ensures Flatten(batches[..i + 1]) == Flatten(batches[..i]) + batches[i]
    ensures forall f :: f in Flatten(batches[..i + 1]) ==> f in Flatten(batches)
    decreases |batches| - i
  {
    assert batches[..i + 1][..i] == batches[..i];
    if i + 1 < |batches| {
      FlattenNext(batches, i + 1);
    } else {
      assert batches[..i + 1] == batches;
    }
  }
}
