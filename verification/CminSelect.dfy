/** `main` of afl-cmin once the workers are done: merge their reports, then
    pick files in two passes so that every tuple seen stays covered. */
module CminSelect {
  import opened Finite
  import opened LittleEndian
  import opened CminTraces
  import opened CminWorker
  import opened CminQueue

  datatype Info = Info(worker: nat, pos: nat, count: nat)

  /** A progress message as `main` receives it. */
  datatype Arrival = Arrival(worker: nat, message: Message)

  /** Shares of the files per worker, with what each worker reports. */
  ghost predicate Gathered(c: Corpus, shares: seq<seq<nat>>, reports: seq<Report>) {
    && |shares| == |reports| > 0
    && (forall w :: 0 <= w < |shares| ==> Reports(c, shares[w], reports[w]))
    && (forall f: nat :: f < |c.traces| ==> Assigned(shares, f))
    && forall w, f :: 0 <= w < |shares| && f in shares[w] ==> f < |c.traces|
  }

  ghost predicate Assigned(shares: seq<seq<nat>>, f: nat) {
    exists w :: 0 <= w < |shares| && f in shares[w]
  }

  /** The lowest-numbered file of the whole corpus that has tuple `t`. */
  ghost predicate GlobalLowest(c: Corpus, t: nat, f: nat) {
    Holds(c, f, t) && forall g: nat :: Holds(c, g, t) ==> f <= g
  }

  ghost predicate Seen(c: Corpus, t: nat) {
    exists f: nat :: Holds(c, f, t)
  }

  // ----- merging

  /** `best` is the element-wise minimum of the workers' arrays. */
  ghost predicate Merged(reports: seq<Report>, maxTuple: nat, best: seq<nat>) {
    && |best| == maxTuple
    && (forall w, t :: 0 <= w < |reports| && 0 <= t < |best| && t < |reports[w].m| ==> best[t] <= reports[w].m[t])
    && (forall t: nat :: t < |best| ==> FromSome(reports, t, best[t]))
  }

  ghost predicate FromSome(reports: seq<Report>, t: nat, v: nat) {
    exists w :: 0 <= w < |reports| && t < |reports[w].m| && v == reports[w].m[t]
  }

  /** `list(map(min, zip(*ms)))` */
  method MergeLowest(reports: seq<Report>, maxTuple: nat) returns (best: seq<nat>)
    requires |reports| > 0 && forall w :: 0 <= w < |reports| ==> |reports[w].m| == maxTuple
    ensures Merged(reports, maxTuple, best)
  {
    best := reports[0].m;
    for w := 1 to |reports|
      invariant |best| == maxTuple
      invariant forall v, t :: 0 <= v < w && 0 <= t < maxTuple ==> best[t] <= reports[v].m[t]
      invariant forall t: nat :: t < maxTuple ==> FromSome(reports, t, best[t])
    {
      var both := Minimum(best, reports[w].m);
      forall t: nat | t < maxTuple ensures FromSome(reports, t, both[t]) {
        assert FromSome(reports, t, best[t]);
        assert both[t] == best[t] || both[t] == reports[w].m[t];
      }
      best := both;
    }
  }

  function Minimum(a: seq<nat>, b: seq<nat>): (r: seq<nat>)
    requires |a| == |b|
    ensures |r| == |a|
    ensures forall t :: 0 <= t < |a| ==> r[t] <= a[t] && r[t] <= b[t] && (r[t] == a[t] || r[t] == b[t])
  {
    seq(|a|, t requires 0 <= t < |a| => if b[t] < a[t] then b[t] else a[t])
  }

  /** For any split of the files, the merged index is the global lowest holder. */
  lemma MergeIsGlobalLowest(c: Corpus, shares: seq<seq<nat>>, reports: seq<Report>, best: seq<nat>, t: nat)
    requires Valid(c) && Gathered(c, shares, reports) && Merged(reports, c.maxTuple, best) && Seen(c, t)
    ensures t < c.maxTuple && GlobalLowest(c, t, best[t]) && best[t] < |c.traces|
    ensures exists w :: 0 <= w < |reports| && best[t] in shares[w]
                        && |reports[w].messages| == |shares[w]| && IsPacked(shares[w], reports[w].messages, best[t])
  {
    var f: nat :| Holds(c, f, t);
    assert t < c.maxTuple && FromSome(reports, t, best[t]);
    forall g: nat | Holds(c, g, t) ensures best[t] <= g {
      assert Assigned(shares, g);
      var w :| 0 <= w < |shares| && g in shares[w];
      Unfold(c, shares[w], reports[w]);
      assert LowestHolder(c, shares[w], t, reports[w].m[t]);
    }
    var w :| 0 <= w < |reports| && t < |reports[w].m| && best[t] == reports[w].m[t];
    Unfold(c, shares[w], reports[w]);
    assert LowestHolder(c, shares[w], t, reports[w].m[t]);
  }

  /** All messages of all workers have arrived, in any order. */
  ghost predicate AllArrived(reports: seq<Report>, arrivals: seq<Arrival>) {
    && (forall w, k :: 0 <= w < |reports| && 0 <= k < |reports[w].messages| ==>
          Arrival(w, reports[w].messages[k]) in arrivals)
    && (forall a :: a in arrivals ==> a.worker < |reports| && a.message in reports[a.worker].messages)
  }

  /** Each entry says where the file's trace can be read back. */
  ghost predicate InfoOk(c: Corpus, packs: seq<seq<Byte>>, info: map<nat, Info>) {
    forall f :: f in info ==>
      && f < |c.traces| && info[f].worker < |packs| && info[f].count == |c.traces[f]|
      && Stored(packs[info[f].worker], info[f].pos, c.traces[f], c.itemSize)
  }

  function Packs(reports: seq<Report>): seq<seq<Byte>> {
    seq(|reports|, w requires 0 <= w < |reports| => reports[w].pack)
  }

  lemma ArrivalIsStored(c: Corpus, shares: seq<seq<nat>>, reports: seq<Report>, arrivals: seq<Arrival>, a: Arrival)
    requires Gathered(c, shares, reports) && AllArrived(reports, arrivals) && a in arrivals && a.message.Packed?
    ensures a.worker < |reports| && a.message.idx < |c.traces| && a.message.count == |c.traces[a.message.idx]|
    ensures Stored(reports[a.worker].pack, a.message.pos, c.traces[a.message.idx], c.itemSize)
  {
    var w := a.worker;
    Unfold(c, shares[w], reports[w]);
    var k :| 0 <= k < |reports[w].messages| && reports[w].messages[k] == a.message;
    assert shares[w][k] in shares[w];
  }

  /** The progress loop. */
  method CollectInfo(c: Corpus, ghost shares: seq<seq<nat>>, reports: seq<Report>, arrivals: seq<Arrival>)
    returns (info: map<nat, Info>)
    requires Gathered(c, shares, reports) && AllArrived(reports, arrivals)
    ensures InfoOk(c, Packs(reports), info)
    ensures forall a :: a in arrivals && a.message.Packed? ==> a.message.idx in info
  {
    hide Gathered, AllArrived, Stored;
    info := map[];
    for i := 0 to |arrivals|
      invariant InfoOk(c, Packs(reports), info)
      invariant forall j :: 0 <= j < i && arrivals[j].message.Packed? ==> arrivals[j].message.idx in info
    {
      var a := arrivals[i];
      if a.message.Packed? {
        ArrivalIsStored(c, shares, reports, arrivals, a);
        info := info[a.message.idx := Info(a.worker, a.message.pos, a.message.count)];
      }
    }
  }

  /** The file kept for a tuple has an entry. */
  lemma KeptHasInfo(reports: seq<Report>, shares: seq<seq<nat>>, arrivals: seq<Arrival>, info: map<nat, Info>, c: Corpus,
                    w: nat, f: nat)
    requires AllArrived(reports, arrivals) && Gathered(c, shares, reports) && w < |reports|
    requires |reports[w].messages| == |shares[w]| && IsPacked(shares[w], reports[w].messages, f) && f < |c.traces|
    requires forall a :: a in arrivals && a.message.Packed? ==> a.message.idx in info
    ensures f in info
  {
    var k :| 0 <= k < |shares[w]| && shares[w][k] == f && reports[w].messages[k].Packed?;
    Unfold(c, shares[w], reports[w]);
    assert Arrival(w, reports[w].messages[k]) in arrivals;
  }

  // ----- counts

  /** `counter.update` over all workers. */
  ghost function TotalCount(reports: seq<Report>, t: nat): nat {
    if reports == [] then 0 else TotalCount(reports[..|reports| - 1], t) + reports[|reports| - 1].counter[t]
  }

  ghost function Held01(c: Corpus, files: seq<nat>, f: nat, t: nat): nat {
    if f in files && Holds(c, f, t) then 1 else 0
  }

  lemma {:induction false} OccurrencesCountHolders(c: Corpus, files: seq<nat>, f: nat, g: nat, t: nat)
    requires f != g && forall f :: f in files ==> f < |c.traces|
    ensures Occurrences(c, files, t) >= Held01(c, files, f, t) + Held01(c, files, g, t)
    decreases |files|
  {
    if files == [] {
    } else {
      var n := |files| - 1;
      assert files == files[..n] + [files[n]];
      assert forall f :: f in files <==> f in files[..n] || f == files[n];
      OccurrencesCountHolders(c, files[..n], f, g, t);
    }
  }

  lemma {:induction false} TotalCountsHolders(c: Corpus, shares: seq<seq<nat>>, reports: seq<Report>, f: nat, g: nat, t: nat)
    requires |shares| == |reports| && f != g && Holds(c, f, t) && Holds(c, g, t)
    requires forall w :: 0 <= w < |shares| ==> Reports(c, shares[w], reports[w])
    ensures TotalCount(reports, t) >= (if Assigned(shares, f) then 1 else 0) + (if Assigned(shares, g) then 1 else 0)
    decreases |shares|
  {
    hide Reports;
    if shares == [] {
    } else {
      var n := |shares| - 1;
      TotalCountsHolders(c, shares[..n], reports[..n], f, g, t);
      Unfold(c, shares[n], reports[n]);
      OccurrencesCountHolders(c, shares[n], f, g, t);
      AssignedLast(shares, f);
      AssignedLast(shares, g);
    }
  }

  lemma AssignedLast(shares: seq<seq<nat>>, f: nat)
    requires shares != []
    ensures Assigned(shares, f) <==> Assigned(shares[..|shares| - 1], f) || f in shares[|shares| - 1]
  {
    var n := |shares| - 1;
    if Assigned(shares[..n], f) {
      var w :| 0 <= w < n && f in shares[..n][w];
      assert f in shares[w];
    }
    if w :| 0 <= w < |shares| && f in shares[w] && w < n {
      assert f in shares[..n][w];
    }
  }

  /** A tuple counted once is in the trace of one file only. */
  lemma CountOneIsUnique(c: Corpus, shares: seq<seq<nat>>, reports: seq<Report>, t: nat, f: nat, g: nat)
    requires Gathered(c, shares, reports) && TotalCount(reports, t) == 1 && Holds(c, f, t) && Holds(c, g, t)
    ensures f == g
  {
    hide Reports, TotalCount;
    if f != g { TotalCountsHolders(c, shares, reports, f, g, t); }
  }

  // ----- selection

  ghost predicate Covered(c: Corpus, saved: seq<nat>, t: nat) {
    exists f :: f in saved && Holds(c, f, t)
  }

  /** When file `i` was saved it was the lowest holder of a tuple that no file
      saved before it has. */
  ghost predicate AddedSomething(c: Corpus, saved: seq<nat>, i: nat)
    requires i < |saved|
  {
    exists t: nat :: GlobalLowest(c, t, saved[i]) && !Covered(c, saved[..i], t)
  }

  ghost predicate GoodPicks(c: Corpus, saved: seq<nat>) {
    Distinct(saved) && forall i :: 0 <= i < |saved| ==> AddedSomething(c, saved, i)
  }

  /** The tuples a stage of the selection looks at: the first one at those of one file, from
      the front; the second at all of them, from the back. */
  ghost predicate LooksAt(unique: seq<(nat, nat)>, first: bool, i: nat) {
    i < |unique| && (first ==> unique[i].1 == 1)
  }

  ghost predicate Earlier(first: bool, j: nat, i: nat) {
    if first then j < i else j > i
  }

  /** With `saved` so far, tuple `i` of the list is the next one that is missing. */
  ghost predicate NextMissing(c: Corpus, unique: seq<(nat, nat)>, first: bool, saved: seq<nat>, i: nat) {
    && LooksAt(unique, first, i) && !Covered(c, saved, unique[i].0)
    && forall j: nat :: LooksAt(unique, first, j) && Earlier(first, j, i) ==> Covered(c, saved, unique[j].0)
  }

  ghost predicate PickedFor(c: Corpus, unique: seq<(nat, nat)>, first: bool, saved: seq<nat>, k: nat, i: nat)
    requires k < |saved|
  {
    NextMissing(c, unique, first, saved[..k], i) && GlobalLowest(c, unique[i].0, saved[k])
  }

  ghost predicate Picked(c: Corpus, unique: seq<(nat, nat)>, first: bool, saved: seq<nat>, k: nat)
    requires k < |saved|
  {
    exists i: nat :: PickedFor(c, unique, first, saved, k, i)
  }

  /** From place `n` on, each file saved was the lowest holder of the next missing tuple. */
  ghost predicate InOrder(c: Corpus, unique: seq<(nat, nat)>, first: bool, n: nat, saved: seq<nat>) {
    forall k: nat :: n <= k < |saved| ==> Picked(c, unique, first, saved, k)
  }

  ghost predicate NoneMissing(c: Corpus, unique: seq<(nat, nat)>, first: bool, saved: seq<nat>) {
    forall i: nat :: LooksAt(unique, first, i) ==> Covered(c, saved, unique[i].0)
  }

  lemma PickInOrder(c: Corpus, unique: seq<(nat, nat)>, first: bool, n: nat, saved: seq<nat>, f: nat, i: nat)
    requires InOrder(c, unique, first, n, saved) && n <= |saved|
    requires NextMissing(c, unique, first, saved, i) && GlobalLowest(c, unique[i].0, f)
    ensures InOrder(c, unique, first, n, saved + [f])
  {
    hide NextMissing, GlobalLowest;
    var more := saved + [f];
    forall k: nat | n <= k < |more| ensures Picked(c, unique, first, more, k) {
      if k < |saved| {
        assert Picked(c, unique, first, saved, k);
        var j: nat :| PickedFor(c, unique, first, saved, k, j);
        assert more[..k] == saved[..k];
        assert PickedFor(c, unique, first, more, k, j);
      } else {
        assert more[..k] == saved;
        assert PickedFor(c, unique, first, more, k, i);
      }
    }
  }

  /** Two picks for the same files saved before are the same. */
  lemma SamePick(c: Corpus, unique: seq<(nat, nat)>, first: bool, a: seq<nat>, b: seq<nat>, k: nat)
    requires k < |a| && k < |b| && a[..k] == b[..k]
    requires Picked(c, unique, first, a, k) && Picked(c, unique, first, b, k)
    ensures a[k] == b[k]
  {
    hide Covered;
    var i: nat :| PickedFor(c, unique, first, a, k, i);
    var j: nat :| PickedFor(c, unique, first, b, k, j);
    assert !Earlier(first, i, j) && !Earlier(first, j, i);
    LowestIsUnique(c, unique[i].0, a[k], b[k]);
  }

  lemma LowestIsUnique(c: Corpus, t: nat, f: nat, g: nat)
    requires GlobalLowest(c, t, f) && GlobalLowest(c, t, g)
    ensures f == g
  {
  }

  /** For a given list of tuples a stage has one result only. */
  lemma {:induction false} StageIsDetermined(c: Corpus, unique: seq<(nat, nat)>, first: bool, n: nat,
                                             a: seq<nat>, b: seq<nat>, k: nat)
    requires n <= |a| && n <= |b| && a[..n] == b[..n] && n <= k <= |a| && k <= |b|
    requires InOrder(c, unique, first, n, a) && InOrder(c, unique, first, n, b)
    ensures a[..k] == b[..k]
    decreases k
  {
    hide Picked;
    if k == n {
    } else {
      StageIsDetermined(c, unique, first, n, a, b, k - 1);
      SamePick(c, unique, first, a, b, k - 1);
      assert a[..k] == a[..k - 1] + [a[k - 1]] && b[..k] == b[..k - 1] + [b[k - 1]];
    }
  }

  /** A finished stage is not a part of a longer one. */
  lemma StageEnds(c: Corpus, unique: seq<(nat, nat)>, first: bool, n: nat, a: seq<nat>, b: seq<nat>)
    requires n <= |a| < |b| && a == b[..|a|] && NoneMissing(c, unique, first, a)
    ensures !InOrder(c, unique, first, n, b)
  {
    hide Covered, GlobalLowest;
    assert !Picked(c, unique, first, b, |a|);
  }

  /** What the selection saves, in which order: first the files that alone have a tuple, as
      these are listed, then for each tuple still missing, from the end of the list. */
  ghost predicate Selection(c: Corpus, unique: seq<(nat, nat)>, firsts: nat, saved: seq<nat>) {
    && firsts <= |saved|
    && InOrder(c, unique, true, 0, saved[..firsts]) && NoneMissing(c, unique, true, saved[..firsts])
    && InOrder(c, unique, false, firsts, saved) && NoneMissing(c, unique, false, saved)
  }

  /** There is only one selection. */
  lemma SelectionIsDetermined(c: Corpus, unique: seq<(nat, nat)>, n: nat, a: seq<nat>, m: nat, b: seq<nat>)
    requires Selection(c, unique, n, a) && Selection(c, unique, m, b)
    ensures n == m && a == b
  {
    hide InOrder, NoneMissing;
    SameStage(c, unique, true, 0, a[..n], b[..m]);
    SameStage(c, unique, false, n, a, b);
  }

  lemma SameStage(c: Corpus, unique: seq<(nat, nat)>, first: bool, n: nat, a: seq<nat>, b: seq<nat>)
    requires n <= |a| && n <= |b| && a[..n] == b[..n]
    requires InOrder(c, unique, first, n, a) && NoneMissing(c, unique, first, a)
    requires InOrder(c, unique, first, n, b) && NoneMissing(c, unique, first, b)
    ensures a == b
  {
    hide InOrder, NoneMissing;
    var k := if |a| < |b| then |a| else |b|;
    StageIsDetermined(c, unique, first, n, a, b, k);
    assert a[..|a|] == a && b[..|b|] == b;
    if |a| < |b| { StageEnds(c, unique, first, n, a, b); }
    if |b| < |a| { StageEnds(c, unique, first, n, b, a); }
  }

  /** With the most common tuple first, a file of the second stage is saved for a tuple that
      no missing tuple is rarer than. */
  lemma RarestIsNext(c: Corpus, unique: seq<(nat, nat)>, saved: seq<nat>, i: nat, j: nat)
    requires forall x, y :: 0 <= x < y < |unique| ==> unique[x].1 >= unique[y].1
    requires NextMissing(c, unique, false, saved, i) && j < |unique| && !Covered(c, saved, unique[j].0)
    ensures unique[i].1 <= unique[j].1
  {
    hide Covered;
    assert LooksAt(unique, false, j);
  }

  /** Saving the lowest holder of an uncovered tuple is a good pick. */
  lemma PickUncovered(c: Corpus, saved: seq<nat>, f: nat, t: nat)
    requires GoodPicks(c, saved) && GlobalLowest(c, t, f) && !Covered(c, saved, t)
    ensures GoodPicks(c, saved + [f])
  {
    var more := saved + [f];
    assert f !in saved;
    forall i | 0 <= i < |more| ensures AddedSomething(c, more, i) {
      if i < |saved| {
        assert AddedSomething(c, saved, i);
        var u: nat :| GlobalLowest(c, u, saved[i]) && !Covered(c, saved[..i], u);
        assert more[..i] == saved[..i];
        assert !Covered(c, more[..i], u);
      } else {
        assert more[..i] == saved;
        assert !Covered(c, more[..i], t);
      }
    }
    forall i, j | 0 <= i < j < |more| ensures more[i] != more[j] {
      if j == |saved| { assert more[i] in saved; }
    }
  }

  /** What the selection works from; `unique` is `counter.most_common()` in
      whatever order ties fall. */
  ghost predicate Prepared(c: Corpus, unique: seq<(nat, nat)>, best: seq<nat>, packs: seq<seq<Byte>>, info: map<nat, Info>) {
    && InfoOk(c, packs, info)
    && (forall i :: 0 <= i < |unique| ==> Seen(c, unique[i].0))
    && (forall t: nat :: Seen(c, t) ==> Listed(unique, t))
    && (forall t: nat :: Seen(c, t) ==> t < |best| && GlobalLowest(c, t, best[t]) && best[t] in info)
    && (forall i, f: nat, g: nat :: 0 <= i < |unique| && unique[i].1 == 1 && Holds(c, f, unique[i].0) && Holds(c, g, unique[i].0)
          ==> f == g)
  }

  ghost predicate Listed(unique: seq<(nat, nat)>, t: nat) {
    exists i :: 0 <= i < |unique| && unique[i].0 == t
  }

  type Jobs = seq<seq<(nat, nat)>>

  /** The read jobs hold exactly the saved files' traces. */
  ghost predicate JobsMatch(c: Corpus, packs: seq<seq<Byte>>, info: map<nat, Info>, saved: seq<nat>, jobs: Jobs) {
    && |jobs| == |packs|
    && (forall f :: f in saved ==>
          f in info && info[f].worker < |jobs| && (info[f].pos, info[f].count) in jobs[info[f].worker])
    && (forall w, j :: 0 <= w < |jobs| && 0 <= j < |jobs[w]| ==>
          exists f :: f in saved && f in info && info[f] == Info(w, jobs[w][j].0, jobs[w][j].1))
  }

  /** Pass 1: files that alone have some tuple. */
  method PickSoleHolders(c: Corpus, unique: seq<(nat, nat)>, best: seq<nat>, packs: seq<seq<Byte>>, info: map<nat, Info>)
    returns (saved: seq<nat>, jobs: Jobs)
    requires Prepared(c, unique, best, packs, info)
    ensures GoodPicks(c, saved) && JobsMatch(c, packs, info, saved, jobs)
    ensures InOrder(c, unique, true, 0, saved) && NoneMissing(c, unique, true, saved)
    ensures forall f :: f in saved ==> SoleHolder(c, f)
  {
    hide GoodPicks, JobsMatch, InOrder;
    saved, jobs := [], seq(|packs|, _ => []);
    EmptyPicks(c, packs, info);
    for i := 0 to |unique|
      invariant GoodPicks(c, saved) && JobsMatch(c, packs, info, saved, jobs)
      invariant InOrder(c, unique, true, 0, saved)
      invariant forall k :: 0 <= k < i && unique[k].1 == 1 ==> Covered(c, saved, unique[k].0)
      invariant forall f :: f in saved ==> SoleHolder(c, f)
    {
      var (t, n) := unique[i];
      if n != 1 { continue; }
      var idx := best[t];
      if idx in saved { continue; }
      assert SoleHolder(c, idx);
      NotCoveredYet(c, unique, i, saved, idx);
      PickUncovered(c, saved, idx, t);
      PickInOrder(c, unique, true, 0, saved, idx, i);
      AddJob(c, packs, info, saved, jobs, idx);
      var inf := info[idx];
      jobs := jobs[inf.worker := jobs[inf.worker] + [(inf.pos, inf.count)]];
      CoverageGrows(c, saved, idx);
      saved := saved + [idx];
    }
  }

  /** No smaller corpus can do without this file. */
  ghost predicate SoleHolder(c: Corpus, f: nat) {
    exists t: nat :: Holds(c, f, t) && forall g: nat :: Holds(c, g, t) ==> g == f
  }

  lemma EmptyPicks(c: Corpus, packs: seq<seq<Byte>>, info: map<nat, Info>)
    ensures GoodPicks(c, []) && JobsMatch(c, packs, info, [], seq(|packs|, _ => []))
    ensures forall unique :: InOrder(c, unique, true, 0, [])
  {
  }

  lemma NotCoveredYet(c: Corpus, unique: seq<(nat, nat)>, i: nat, saved: seq<nat>, f: nat)
    requires i < |unique| && f !in saved && Holds(c, f, unique[i].0)
    requires forall g: nat :: Holds(c, g, unique[i].0) ==> g == f
    ensures !Covered(c, saved, unique[i].0)
  {
  }

  lemma CoverageGrows(c: Corpus, saved: seq<nat>, f: nat)
    ensures forall t :: Covered(c, saved + [f], t) <==> Covered(c, saved, t) || Holds(c, f, t)
    ensures forall g :: g in saved + [f] <==> g in saved || g == f
  {
    assert (saved + [f])[|saved|] == f;
    forall t ensures Covered(c, saved + [f], t) <==> Covered(c, saved, t) || Holds(c, f, t) {
      if Covered(c, saved, t) {
        var g :| g in saved && Holds(c, g, t);
        assert g in saved + [f];
      }
    }
  }

  lemma AddJob(c: Corpus, packs: seq<seq<Byte>>, info: map<nat, Info>, saved: seq<nat>, jobs: Jobs, f: nat)
    requires JobsMatch(c, packs, info, saved, jobs) && InfoOk(c, packs, info) && f in info
    ensures info[f].worker < |jobs|
    ensures JobsMatch(c, packs, info, saved + [f],
                      jobs[info[f].worker := jobs[info[f].worker] + [(info[f].pos, info[f].count)]])
  {
    var v := info[f].worker;
    var more, jobs' := saved + [f], jobs[v := jobs[v] + [(info[f].pos, info[f].count)]];
    assert more[|saved|] == f;
    assert jobs'[v][|jobs[v]|] == (info[f].pos, info[f].count);
    forall w, j | 0 <= w < |jobs'| && 0 <= j < |jobs'[w]|
      ensures exists g :: g in more && g in info && info[g] == Info(w, jobs'[w][j].0, jobs'[w][j].1)
    {
      if w == v && j == |jobs[v]| {
      } else {
        assert jobs'[w][j] == jobs[w][j];
        var g :| g in saved && g in info && info[g] == Info(w, jobs[w][j].0, jobs[w][j].1);
        assert g in more;
      }
    }
  }

  /** `CombineTraceWorker.run`: the union of the traces at the given places. */
  method CombineTraces(pack: seq<Byte>, jobs: seq<(nat, nat)>, size: nat) returns (have: set<nat>)
    requires forall j :: j in jobs ==> j.0 + j.1 * size <= |pack|
    ensures forall t :: t in have <==>
              exists j :: j in jobs && j.0 + j.1 * size <= |pack| && t in DecodeAll(pack[j.0..], j.1, size)
  {
    have := {};
    for i := 0 to |jobs|
      invariant forall t :: t in have <==>
        exists k :: 0 <= k < i && jobs[k].0 + jobs[k].1 * size <= |pack| && t in DecodeAll(pack[jobs[k].0..], jobs[k].1, size)
    {
      var (pos, count) := jobs[i];
      assert jobs[i] in jobs;
      var result := DecodeAll(pack[pos..], count, size);
      have := have + set t | t in result;
    }
  }

  /** Reading all jobs back gives exactly the tuples of the saved files. */
  method ReadBack(c: Corpus, packs: seq<seq<Byte>>, info: map<nat, Info>, saved: seq<nat>, jobs: Jobs)
    returns (have: set<nat>)
    requires InfoOk(c, packs, info) && JobsMatch(c, packs, info, saved, jobs)
    ensures forall t :: t in have <==> Covered(c, saved, t)
  {
    hide InfoOk, JobsMatch;
    have := {};
    SameLength(c, packs, info, saved, jobs);
    for w := 0 to |packs|
      invariant forall t :: t in have <==> exists v :: 0 <= v < w && JobsGive(packs[v], jobs[v], c.itemSize, t)
    {
      JobsInPack(c, packs, info, saved, jobs, w);
      var result := CombineTraces(packs[w], jobs[w], c.itemSize);
      have := have + result;
    }
    forall t ensures t in have <==> Covered(c, saved, t) { JobsGiveSaved(c, packs, info, saved, jobs, t); }
  }

  ghost predicate JobsGive(pack: seq<Byte>, jobs: seq<(nat, nat)>, size: nat, t: nat) {
    exists j :: j in jobs && j.0 + j.1 * size <= |pack| && t in DecodeAll(pack[j.0..], j.1, size)
  }

  lemma SameLength(c: Corpus, packs: seq<seq<Byte>>, info: map<nat, Info>, saved: seq<nat>, jobs: Jobs)
    requires JobsMatch(c, packs, info, saved, jobs)
    ensures |jobs| == |packs|
  {
  }

  lemma JobsInPack(c: Corpus, packs: seq<seq<Byte>>, info: map<nat, Info>, saved: seq<nat>, jobs: Jobs, w: nat)
    requires InfoOk(c, packs, info) && JobsMatch(c, packs, info, saved, jobs) && w < |jobs|
    ensures forall j :: j in jobs[w] ==> j.0 + j.1 * c.itemSize <= |packs[w]|
  {
    forall j | j in jobs[w] ensures j.0 + j.1 * c.itemSize <= |packs[w]| {
      var k :| 0 <= k < |jobs[w]| && jobs[w][k] == j;
      var f :| f in saved && f in info && info[f] == Info(w, jobs[w][k].0, jobs[w][k].1);
    }
  }

  lemma JobsGiveSaved(c: Corpus, packs: seq<seq<Byte>>, info: map<nat, Info>, saved: seq<nat>, jobs: Jobs, t: nat)
    requires InfoOk(c, packs, info) && JobsMatch(c, packs, info, saved, jobs)
    ensures Covered(c, saved, t) <==> exists v :: 0 <= v < |packs| && JobsGive(packs[v], jobs[v], c.itemSize, t)
  {
    hide InfoOk, JobsMatch, JobsGive, Holds;
    SameLength(c, packs, info, saved, jobs);
    if Covered(c, saved, t) {
      var f :| f in saved && Holds(c, f, t);
      SavedIsGiven(c, packs, info, saved, jobs, t, f);
    }
    if v :| 0 <= v < |packs| && JobsGive(packs[v], jobs[v], c.itemSize, t) {
      GivenIsSaved(c, packs, info, saved, jobs, t, v);
    }
  }

  lemma SavedIsGiven(c: Corpus, packs: seq<seq<Byte>>, info: map<nat, Info>, saved: seq<nat>, jobs: Jobs, t: nat, f: nat)
    requires InfoOk(c, packs, info) && JobsMatch(c, packs, info, saved, jobs) && f in saved && Holds(c, f, t)
    ensures f in info && info[f].worker < |packs| == |jobs|
    ensures JobsGive(packs[info[f].worker], jobs[info[f].worker], c.itemSize, t)
  {
    hide InfoOk, DecodeAll;
    assert (info[f].pos, info[f].count) in jobs[info[f].worker];
    ReadInfo(c, packs, info, f);
  }

  lemma GivenIsSaved(c: Corpus, packs: seq<seq<Byte>>, info: map<nat, Info>, saved: seq<nat>, jobs: Jobs, t: nat, v: nat)
    requires InfoOk(c, packs, info) && JobsMatch(c, packs, info, saved, jobs) && v < |packs|
    requires JobsGive(packs[v], jobs[v], c.itemSize, t)
    ensures Covered(c, saved, t)
  {
    hide InfoOk, DecodeAll;
    var j :| j in jobs[v] && j.0 + j.1 * c.itemSize <= |packs[v]| && t in DecodeAll(packs[v][j.0..], j.1, c.itemSize);
    var k :| 0 <= k < |jobs[v]| && jobs[v][k] == j;
    var f :| f in saved && f in info && info[f] == Info(v, jobs[v][k].0, jobs[v][k].1);
    ReadInfo(c, packs, info, f);
    assert Holds(c, f, t);
  }

  /** Pass 2, rarest tuples first: the lowest holder of whatever is still missing. */
  method PickRest(c: Corpus, unique: seq<(nat, nat)>, best: seq<nat>, packs: seq<seq<Byte>>, info: map<nat, Info>,
                  saved0: seq<nat>, have0: set<nat>) returns (saved: seq<nat>)
    requires Prepared(c, unique, best, packs, info) && GoodPicks(c, saved0)
    requires forall t :: t in have0 <==> Covered(c, saved0, t)
    ensures saved0 <= saved && GoodPicks(c, saved)
    ensures InOrder(c, unique, false, |saved0|, saved) && NoneMissing(c, unique, false, saved)
    ensures forall t: nat :: Seen(c, t) ==> Covered(c, saved, t)
  {
    hide GoodPicks, Stored, GlobalLowest, InOrder;
    NothingPicked(c, unique, saved0);
    saved := saved0;
    var have := have0;
    var i := |unique|;
    while i > 0
      invariant 0 <= i <= |unique| && saved0 <= saved && GoodPicks(c, saved)
      invariant InOrder(c, unique, false, |saved0|, saved)
      invariant forall t :: t in have <==> Covered(c, saved, t)
      invariant forall k :: i <= k < |unique| ==> Covered(c, saved, unique[k].0)
    {
      i := i - 1;
      var t := unique[i].0;
      assert Seen(c, t);
      if t in have { continue; }
      var idx := best[t];
      PickUncovered(c, saved, idx, t);
      PickInOrder(c, unique, false, |saved0|, saved, idx, i);
      CoverageGrows(c, saved, idx);
      LowestHolds(c, t, idx);
      saved := saved + [idx];
      var inf := info[idx];
      ReadInfo(c, packs, info, idx);
      var result := DecodeAll(packs[inf.worker][inf.pos..], inf.count, c.itemSize);
      have := have + set u | u in result;
    }
  }

  lemma NothingPicked(c: Corpus, unique: seq<(nat, nat)>, saved: seq<nat>)
    ensures InOrder(c, unique, false, |saved|, saved)
  {
  }

  lemma LowestHolds(c: Corpus, t: nat, f: nat)
    requires GlobalLowest(c, t, f)
    ensures Holds(c, f, t)
  {
  }

  lemma ReadInfo(c: Corpus, packs: seq<seq<Byte>>, info: map<nat, Info>, f: nat)
    requires InfoOk(c, packs, info) && f in info
    ensures f < |c.traces| && info[f].worker < |packs|
    ensures info[f].pos + info[f].count * c.itemSize <= |packs[info[f].worker]|
    ensures DecodeAll(packs[info[f].worker][info[f].pos..], info[f].count, c.itemSize) == c.traces[f]
  {
  }

  /** The minimized corpus. */
  method Minimize(c: Corpus, ghost shares: seq<seq<nat>>, reports: seq<Report>, arrivals: seq<Arrival>,
                  unique: seq<(nat, nat)>) returns (saved: seq<nat>, ghost firsts: nat)
    requires Valid(c) && Gathered(c, shares, reports) && AllArrived(reports, arrivals)
    requires forall t: nat :: Listed(unique, t) <==> TotalCount(reports, t) > 0
    requires forall i :: 0 <= i < |unique| ==> unique[i].1 == TotalCount(reports, unique[i].0)
    ensures forall t: nat :: Seen(c, t) ==> Covered(c, saved, t)
    ensures GoodPicks(c, saved) && Selection(c, unique, firsts, saved)
  {
    hide InOrder, NoneMissing;
    hide Valid, Gathered, AllArrived, TotalCount, Listed, GoodPicks, InfoOk, Prepared, JobsMatch, Merged;
    ReportWidths(c, shares, reports);
    var best := MergeLowest(reports, c.maxTuple);
    var info := CollectInfo(c, shares, reports, arrivals);
    var packs := Packs(reports);
    MergedIsPrepared(c, shares, reports, arrivals, unique, best, info);
    var first, jobs := PickSoleHolders(c, unique, best, packs, info);
    PreparedInfo(c, unique, best, packs, info);
    var have := ReadBack(c, packs, info, first, jobs);
    saved := PickRest(c, unique, best, packs, info, first, have);
    firsts := |first|;
    assert saved[..firsts] == first;
  }

  lemma PreparedInfo(c: Corpus, unique: seq<(nat, nat)>, best: seq<nat>, packs: seq<seq<Byte>>, info: map<nat, Info>)
    requires Prepared(c, unique, best, packs, info)
    ensures InfoOk(c, packs, info)
  {
  }

  lemma ReportWidths(c: Corpus, shares: seq<seq<nat>>, reports: seq<Report>)
    requires Gathered(c, shares, reports)
    ensures |reports| > 0 && forall w :: 0 <= w < |reports| ==> |reports[w].m| == c.maxTuple
  {
    forall w | 0 <= w < |reports| ensures |reports[w].m| == c.maxTuple { Unfold(c, shares[w], reports[w]); }
  }

  /** A tuple is counted if and only if some file has it. */
  lemma {:induction false} CountedIffSeen(c: Corpus, shares: seq<seq<nat>>, reports: seq<Report>, t: nat)
    requires |shares| == |reports|
    requires forall w :: 0 <= w < |shares| ==> Reports(c, shares[w], reports[w])
    ensures TotalCount(reports, t) > 0 <==> exists f: nat :: Assigned(shares, f) && Holds(c, f, t)
    decreases |shares|
  {
    hide Reports, Holds;
    if shares == [] {
    } else {
      var n := |shares| - 1;
      CountedIffSeen(c, shares[..n], reports[..n], t);
      Unfold(c, shares[n], reports[n]);
      OccursIffHeld(c, shares[n], t);
      forall f: nat ensures Assigned(shares, f) <==> Assigned(shares[..n], f) || f in shares[n] {
        AssignedLast(shares, f);
      }
    }
  }

  lemma {:induction false} OccursIffHeld(c: Corpus, files: seq<nat>, t: nat)
    requires forall f :: f in files ==> f < |c.traces|
    ensures Occurrences(c, files, t) > 0 <==> exists f :: f in files && Holds(c, f, t)
    decreases |files|
  {
    if files == [] {
    } else {
      var n := |files| - 1;
      assert files == files[..n] + [files[n]];
      assert forall f :: f in files <==> f in files[..n] || f == files[n];
      assert files[n] in files;
      assert multiset(c.traces[files[n]])[t] > 0 <==> Holds(c, files[n], t);
      OccursIffHeld(c, files[..n], t);
    }
  }

  lemma MergedIsPrepared(c: Corpus, shares: seq<seq<nat>>, reports: seq<Report>, arrivals: seq<Arrival>,
                         unique: seq<(nat, nat)>, best: seq<nat>, info: map<nat, Info>)
    requires Valid(c) && Gathered(c, shares, reports) && AllArrived(reports, arrivals)
    requires forall t: nat :: Listed(unique, t) <==> TotalCount(reports, t) > 0
    requires forall i :: 0 <= i < |unique| ==> unique[i].1 == TotalCount(reports, unique[i].0)
    requires Merged(reports, c.maxTuple, best)
    requires InfoOk(c, Packs(reports), info)
    requires forall a :: a in arrivals && a.message.Packed? ==> a.message.idx in info
    ensures Prepared(c, unique, best, Packs(reports), info)
  {
    hide InfoOk, AllArrived, Reports, TotalCount, IsPacked, GlobalLowest, Holds, Valid, Merged;
    forall t: nat ensures Seen(c, t) <==> TotalCount(reports, t) > 0 {
      CountedIffSeen(c, shares, reports, t);
      SeenIsAssigned(c, shares, reports, t);
    }
    assert |best| == c.maxTuple by { MergedWidth(reports, c.maxTuple, best); }
    forall t: nat | Seen(c, t) ensures t < |best| && GlobalLowest(c, t, best[t]) && best[t] in info {
      MergeIsGlobalLowest(c, shares, reports, best, t);
      var w :| 0 <= w < |reports| && best[t] in shares[w]
               && |reports[w].messages| == |shares[w]| && IsPacked(shares[w], reports[w].messages, best[t]);
      KeptHasInfo(reports, shares, arrivals, info, c, w, best[t]);
    }
    forall i | 0 <= i < |unique| ensures Seen(c, unique[i].0) {
      assert Listed(unique, unique[i].0);
    }
    forall i, f: nat, g: nat | 0 <= i < |unique| && unique[i].1 == 1 && Holds(c, f, unique[i].0) && Holds(c, g, unique[i].0)
      ensures f == g
    {
      CountOneIsUnique(c, shares, reports, unique[i].0, f, g);
    }
  }

  lemma MergedWidth(reports: seq<Report>, maxTuple: nat, best: seq<nat>)
    requires Merged(reports, maxTuple, best)
    ensures |best| == maxTuple
  {
  }

  lemma SeenIsAssigned(c: Corpus, shares: seq<seq<nat>>, reports: seq<Report>, t: nat)
    requires Gathered(c, shares, reports)
    ensures Seen(c, t) <==> exists f: nat :: Assigned(shares, f) && Holds(c, f, t)
  {
  }

  // ----- the protocol provides the shares

  ghost function Shares(ws: seq<Worker>): seq<seq<nat>> {
    seq(|ws|, w requires 0 <= w < |ws| => ws[w].done)
  }

  /** No file is in two shares. */
  ghost predicate Apart(shares: seq<seq<nat>>) {
    forall w, v, f :: 0 <= w < v < |shares| && f in shares[w] ==> f !in shares[v]
  }

  lemma {:induction false} HitIsMember(files: seq<nat>, x: nat)
    ensures Hits(files, x) > 0 <==> x in files
    decreases |files|
  {
    if files == [] {
    } else {
      HitIsMember(files[1..], x);
      assert files == [files[0]] + files[1..];
    }
  }

  lemma {:induction false} DoneIsAssigned(ws: seq<Worker>, x: nat)
    ensures DoneBy(ws, x) > 0 <==> Assigned(Shares(ws), x)
    decreases |ws|
  {
    if ws == [] {
    } else {
      DoneIsAssigned(ws[1..], x);
      HitIsMember(ws[0].done, x);
      assert Shares(ws)[0] == ws[0].done;
      assert forall w :: 0 < w < |ws| ==> Shares(ws)[w] == Shares(ws[1..])[w - 1];
      if w :| 0 <= w < |ws| - 1 && x in Shares(ws[1..])[w] {
        assert x in Shares(ws)[w + 1];
      }
      if w :| 0 < w < |ws| && x in Shares(ws)[w] {
        assert x in Shares(ws[1..])[w - 1];
      }
    }
  }

  /** Whatever the schedule, a finished run hands every file to one worker and no
      worker anything else, so the merged reports satisfy `Gathered`. */
  lemma FinishedRunGathers(c: Corpus, run: seq<State>, nworkers: nat, reports: seq<Report>)
    requires nworkers > 0 && Run(run, Batches(0, |c.traces|, Chunk(|c.traces|, nworkers)), nworkers)
    requires Final(run[|run| - 1], |c.traces|)
    requires |reports| == nworkers
    requires forall w :: 0 <= w < nworkers && w < |run[|run| - 1].workers| ==>
               Reports(c, run[|run| - 1].workers[w].done, reports[w])
    ensures Gathered(c, Shares(run[|run| - 1].workers), reports)
    ensures Apart(Shares(run[|run| - 1].workers))
  {
    assert run != [];
    hide Run, Reports, DoneBy, Assigned;
    var n := |c.traces|;
    var ws := run[|run| - 1].workers;
    WorkersStay(run, Batches(0, n, Chunk(n, nworkers)), nworkers);
    forall f: nat | f < n ensures Assigned(Shares(ws), f) {
      EveryFileTracedOnce(run, n, nworkers, f);
      DoneIsAssigned(ws, f);
    }
    forall w, f | 0 <= w < |ws| && f in Shares(ws)[w] ensures f < n {
      EveryFileTracedOnce(run, n, nworkers, f);
      InShareIsAssigned(Shares(ws), w, f);
      DoneIsAssigned(ws, f);
    }
    forall w, v, f | 0 <= w < v < |ws| && f in Shares(ws)[w] ensures f !in Shares(ws)[v] {
      EveryFileTracedOnce(run, n, nworkers, f);
      if f in Shares(ws)[v] { InTwoShares(ws, f, w, v); }
    }
  }

  lemma {:induction false} InTwoShares(ws: seq<Worker>, x: nat, w: nat, v: nat)
    requires w < v < |ws| && x in ws[w].done && x in ws[v].done
    ensures DoneBy(ws, x) >= 2
    decreases |ws|
  {
    if w > 0 {
      InTwoShares(ws[1..], x, w - 1, v - 1);
    } else {
      HitIsMember(ws[0].done, x);
      DoneIsAssigned(ws[1..], x);
      assert Shares(ws[1..])[v - 1] == ws[v].done;
    }
  }

  lemma InShareIsAssigned(shares: seq<seq<nat>>, w: nat, f: nat)
    requires w < |shares| && f in shares[w]
    ensures Assigned(shares, f)
  {
  }

  lemma WorkersStay(run: seq<State>, batches: seq<Job>, nworkers: nat)
    requires CminQueue.Run(run, batches, nworkers)
    ensures |run[|run| - 1].workers| == nworkers
  {
    RunKeepsInv(run, batches, nworkers, |run| - 1);
  }

  // ----- the widths main derives

  /** The corpus with the type codes `main` picks; a map size of 0 is an unknown one. */
  function CorpusOf(traces: seq<seq<nat>>, mapSize: nat): (c: Corpus) {
    Corpus(traces, if mapSize == 0 then 4 else DetectItemSize(mapSize * 9), MaxTuple(mapSize),
           Power(DetectItemSize(|traces|)) - 1)
  }

  function MaxTuple(mapSize: nat): (n: nat) {
    (if mapSize == 0 then 65536 else mapSize) * 9
  }

  /** With them the mark for no file is an item above every file index, and every tuple fits
      its item, exactly when every tuple has a place in the workers' arrays. */
  lemma WidthsAreValidIff(traces: seq<seq<nat>>, mapSize: nat)
    requires |traces| < Power(8) && mapSize * 9 < Power(8)
    ensures |traces| <= CorpusOf(traces, mapSize).noFile < Power(DetectItemSize(|traces|))
    ensures Valid(CorpusOf(traces, mapSize)) <==>
            forall f, t :: 0 <= f < |traces| && t in traces[f] ==> t < 9 * if mapSize > 0 then mapSize else 65536
  {
    FourBytesHold();
    hide Power;
  }

  lemma FourBytesHold()
    ensures 65536 * 9 < Power(4)
  {
    assert Power(4) == 256 * Power(3) == 256 * (256 * Power(2)) == 256 * (256 * (256 * Power(1)));
  }
}
