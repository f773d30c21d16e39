/** Whole runs of havoc steps: what a run logs for the numbers drawn, and which
    logs, and so which inputs, some numbers give. */
module HavocRuns {
  import opened HavocDraws
  import opened HavocEdits
  import opened HavocExact
  import opened LittleEndian

  datatype Option<T> = None | Some(value: T)

  /** What is drawn for an attempt: a strategy and the other numbers. */
  datatype Try = Try(strat: Strategy, numbers: seq<nat>)

  /** One pass of the loop body: which strategy did what, or was drawn again. */
  datatype Attempt = Attempt(strat: Strategy, retried: bool, edit: Edit)

  /** The attempts that count as steps. */
  function Steps(log: seq<Attempt>): nat {
    if log == [] then 0
    else Steps(log[..|log| - 1]) + if log[|log| - 1].retried then 0 else 1
  }

  lemma StepsSnoc(log: seq<Attempt>, a: Attempt)
    ensures Steps(log + [a]) == Steps(log) + if a.retried then 0 else 1
  {
    assert (log + [a])[..|log|] == log;
  }

  /** The log follows the drawn strategies, goes on only while steps are left, and ends
      with the last step or the last strategy. */
  ghost predicate Logged(strats: seq<Strategy>, log: seq<Attempt>, steps: nat) {
    && |log| <= |strats| && Steps(log) <= steps
    && (forall i :: 0 <= i < |log| ==> log[i].strat == strats[i])
    && (log != [] ==> Steps(log[..|log| - 1]) < steps)
    && (Steps(log) == steps || |log| == |strats|)
  }

  /** What an attempt may log on the input `t`. */
  ghost predicate Possible(env: Env, t: seq<Byte>, a: Attempt) {
    if a.retried then MayRetry(a.strat, env, t) && a.edit == Keep
    else Allowed(a.strat, env, t, a.edit) && Legal(t, a.edit)
  }

  /** The input after a log, if each attempt was possible in its turn. */
  ghost function Replay(env: Env, s: seq<Byte>, log: seq<Attempt>): Option<seq<Byte>> {
    if log == [] then Some(s)
    else
      var a := log[|log| - 1];
      match Replay(env, s, log[..|log| - 1])
      case None => None
      case Some(t) => if Possible(env, t, a) then Some(if a.retried then t else Apply(t, a.edit)) else None
  }

  lemma ReplaySnoc(env: Env, s: seq<Byte>, log: seq<Attempt>, a: Attempt)
    requires Replay(env, s, log).Some?
    ensures var t := Replay(env, s, log).value;
            Replay(env, s, log + [a]) ==
            if Possible(env, t, a) then Some(if a.retried then t else Apply(t, a.edit)) else None
  {
    hide Possible, Apply;
    assert (log + [a])[..|log|] == log;
  }

  /** Whatever is drawn, the input keeps between 1 and `maxLen` bytes. */
  lemma {:induction false} ReplayKeepsLength(env: Env, s: seq<Byte>, log: seq<Attempt>)
    requires 1 <= |s| <= env.maxLen && Replay(env, s, log).Some?
    ensures 1 <= |Replay(env, s, log).value| <= env.maxLen
    decreases |log|
  {
    hide Legal, Apply, Allowed, MayRetry;
    if log == [] {
    } else {
      var a, before := log[|log| - 1], log[..|log| - 1];
      ReplayKeepsLength(env, s, before);
      if !a.retried { AllowedKeepsLength(a.strat, env, Replay(env, s, before).value, a.edit); }
    }
  }

  // ----- from the numbers to the log

  /** What an attempt logs. */
  ghost function Tried(env: Env, t: seq<Byte>, one: Try): (a: Attempt)
    requires 1 <= |t| && env.rlim <= 3
  {
    match Decide(one.strat, env, t, one.numbers)
    case Again => Attempt(one.strat, true, Keep)
    case Make(e) => Attempt(one.strat, false, e)
  }

  /** An attempt can log something if and only if it is possible. */
  lemma TriedIff(env: Env, t: seq<Byte>, a: Attempt)
    requires 1 <= |t| && env.rlim <= 3
    ensures Possible(env, t, a) <==> exists ds :: Tried(env, t, Try(a.strat, ds)) == a
  {
    hide Allowed, MayRetry, Legal, Decide;
    var d := if a.retried then Again else Make(a.edit);
    DecisionIff(a.strat, env, t, d);
    if Possible(env, t, a) {
      var ds :| Decide(a.strat, env, t, ds) == d;
      assert Tried(env, t, Try(a.strat, ds)) == a;
    }
    if ds :| Tried(env, t, Try(a.strat, ds)) == a {
      assert Decide(a.strat, env, t, ds) == d;
    }
  }

  /** The log of a run. */
  ghost function LogOf(env: Env, s: seq<Byte>, tries: seq<Try>, steps: nat): (log: seq<Attempt>)
    requires 1 <= |s| <= env.maxLen && env.rlim <= 3
    ensures Replay(env, s, log).Some?
    decreases |tries|
  {
    if tries == [] then []
    else
      var (before, one) := (LogOf(env, s, tries[..|tries| - 1], steps), tries[|tries| - 1]);
      if Steps(before) == steps then before
      else
        ReplayKeepsLength(env, s, before);
        var t := Replay(env, s, before).value;
        var a := Tried(env, t, one);
        TriedIff(env, t, a);
        ReplaySnoc(env, s, before, a);
        before + [a]
  }

  lemma LogOfNothing(env: Env, s: seq<Byte>, steps: nat)
    requires 1 <= |s| <= env.maxLen && env.rlim <= 3
    ensures LogOf(env, s, [], steps) == [] && Replay(env, s, []) == Some(s)
  {
  }

  /** One more attempt. */
  lemma LogOfMore(env: Env, s: seq<Byte>, tries: seq<Try>, one: Try, steps: nat)
    requires 1 <= |s| <= env.maxLen && env.rlim <= 3
    ensures var log := LogOf(env, s, tries, steps);
            && 1 <= |Replay(env, s, log).value|
            && if Steps(log) == steps then LogOf(env, s, tries + [one], steps) == log
               else
                 var (t, a) := (Replay(env, s, log).value, Tried(env, Replay(env, s, log).value, one));
                 && LogOf(env, s, tries + [one], steps) == log + [a] && Possible(env, t, a)
                 && Replay(env, s, log + [a]) == Some(if a.retried then t else Apply(t, a.edit))
  {
    var log := LogOf(env, s, tries, steps);
    ReplayKeepsLength(env, s, log);
    assert (tries + [one])[..|tries|] == tries;
    hide Possible, Tried, Apply, Replay;
    var t := Replay(env, s, log).value;
    var a := Tried(env, t, one);
    TriedIff(env, t, a);
    ReplaySnoc(env, s, log, a);
  }

  /** Once the steps are done nothing more is logged. */
  lemma {:induction false} LogOfRest(env: Env, s: seq<Byte>, tries: seq<Try>, steps: nat, k: nat)
    requires 1 <= |s| <= env.maxLen && env.rlim <= 3 && k <= |tries|
    requires k == |tries| || Steps(LogOf(env, s, tries[..k], steps)) == steps
    ensures LogOf(env, s, tries, steps) == LogOf(env, s, tries[..k], steps)
    decreases |tries|
  {
    if k == |tries| {
      assert tries[..k] == tries;
    } else {
      var before := tries[..|tries| - 1];
      assert before[..k] == tries[..k];
      LogOfRest(env, s, before, steps, k);
    }
  }

  // ----- and back

  ghost predicate Draw(strats: seq<Strategy>, tries: seq<Try>) {
    |tries| == |strats| && forall i :: 0 <= i < |strats| ==> tries[i].strat == strats[i]
  }

  /** What is logged follows the drawn strategies. */
  lemma {:induction false} LogIsLogged(env: Env, s: seq<Byte>, strats: seq<Strategy>, tries: seq<Try>, steps: nat)
    requires 1 <= |s| <= env.maxLen && env.rlim <= 3 && Draw(strats, tries)
    ensures Logged(strats, LogOf(env, s, tries, steps), steps)
    decreases |tries|
  {
    hide *;
    if tries == [] {
      LogOfNothing(env, s, steps);
      NothingLogged(strats, tries, steps);
    } else {
      var n := |tries| - 1;
      DrawSplit(strats, tries);
      LogIsLogged(env, s, strats[..n], tries[..n], steps);
      var before := LogOf(env, s, tries[..n], steps);
      LogOfMore(env, s, tries[..n], tries[n], steps);
      if Steps(before) == steps {
        LoggedStays(strats, before, steps);
      } else {
        TriedStrategy(env, Replay(env, s, before).value, tries[n]);
        LoggedSnoc(strats, before, Tried(env, Replay(env, s, before).value, tries[n]), steps);
      }
    }
  }

  lemma NothingLogged(strats: seq<Strategy>, tries: seq<Try>, steps: nat)
    requires Draw(strats, tries) && tries == []
    ensures Logged(strats, [], steps)
  {
  }

  lemma DrawSplit(strats: seq<Strategy>, tries: seq<Try>)
    requires Draw(strats, tries) && tries != []
    ensures |strats| == |tries| && strats[|strats| - 1] == tries[|tries| - 1].strat
    ensures Draw(strats[..|strats| - 1], tries[..|tries| - 1])
    ensures tries == tries[..|tries| - 1] + [tries[|tries| - 1]]
  {
  }

  lemma LoggedStays(strats: seq<Strategy>, log: seq<Attempt>, steps: nat)
    requires strats != [] && Logged(strats[..|strats| - 1], log, steps) && Steps(log) == steps
    ensures Logged(strats, log, steps)
  {
    hide Steps;
  }

  lemma LoggedSnoc(strats: seq<Strategy>, log: seq<Attempt>, a: Attempt, steps: nat)
    requires strats != [] && Logged(strats[..|strats| - 1], log, steps) && Steps(log) != steps
    requires a.strat == strats[|strats| - 1]
    ensures Logged(strats, log + [a], steps)
  {
    StepsSnoc(log, a);
    hide Steps;
    assert (log + [a])[..|log|] == log;
  }

  lemma TriedStrategy(env: Env, t: seq<Byte>, one: Try)
    requires 1 <= |t| && env.rlim <= 3
    ensures Tried(env, t, one).strat == one.strat
  {
  }

  lemma {:induction false} StepsGrow(log: seq<Attempt>, k: nat)
    requires k <= |log|
    ensures Steps(log[..k]) <= Steps(log)
    decreases |log|
  {
    if k == |log| {
      assert log[..k] == log;
    } else {
      assert log[..|log| - 1][..k] == log[..k];
      StepsGrow(log[..|log| - 1], k);
    }
  }

  /** Some numbers give a log whose attempts are possible, as long as steps were left. */
  lemma {:induction false} EveryLog(env: Env, s: seq<Byte>, log: seq<Attempt>, steps: nat) returns (tries: seq<Try>)
    requires 1 <= |s| <= env.maxLen && env.rlim <= 3 && Replay(env, s, log).Some?
    requires log != [] ==> Steps(log[..|log| - 1]) < steps
    ensures |tries| == |log| && LogOf(env, s, tries, steps) == log
    ensures forall i :: 0 <= i < |log| ==> tries[i].strat == log[i].strat
    decreases |log|
  {
    hide *;
    tries := [];
    if log == [] {
      LogOfNothing(env, s, steps);
    } else {
      var (before, a) := (log[..|log| - 1], log[|log| - 1]);
      assert log == before + [a];
      LastPossible(env, s, before, a);
      if before != [] { StepsGrow(before, |before| - 1); }
      var first := EveryLog(env, s, before, steps);
      var ds := EveryAttempt(env, s, before, a);
      tries := first + [Try(a.strat, ds)];
      LogOfMore(env, s, first, Try(a.strat, ds), steps);
    }
  }

  lemma LastPossible(env: Env, s: seq<Byte>, log: seq<Attempt>, a: Attempt)
    requires Replay(env, s, log + [a]).Some?
    ensures Replay(env, s, log).Some? && Possible(env, Replay(env, s, log).value, a)
  {
    hide Possible, Apply, Allowed, MayRetry, Legal;
    assert (log + [a])[..|log|] == log && (log + [a])[|log|] == a;
  }

  lemma EveryAttempt(env: Env, s: seq<Byte>, log: seq<Attempt>, a: Attempt) returns (ds: seq<nat>)
    requires 1 <= |s| <= env.maxLen && env.rlim <= 3
    requires Replay(env, s, log).Some? && Possible(env, Replay(env, s, log).value, a)
    ensures 1 <= |Replay(env, s, log).value|
    ensures Tried(env, Replay(env, s, log).value, Try(a.strat, ds)) == a
  {
    hide *;
    var t := Replay(env, s, log).value;
    ReplayKeepsLength(env, s, log);
    TriedIff(env, t, a);
    ds :| Tried(env, t, Try(a.strat, ds)) == a;
  }

  /** The logs of the runs over drawn strategies, for all numbers that can be drawn: those
      that follow the strategies and whose attempts are possible in their turn. */
  lemma LogsIff(env: Env, s: seq<Byte>, strats: seq<Strategy>, steps: nat, log: seq<Attempt>)
    requires 1 <= |s| <= env.maxLen && env.rlim <= 3
    ensures Logged(strats, log, steps) && Replay(env, s, log).Some? <==>
            exists tries :: Draw(strats, tries) && LogOf(env, s, tries, steps) == log
  {
    hide *;
    forall tries | Draw(strats, tries) ensures Logged(strats, LogOf(env, s, tries, steps), steps) {
      LogIsLogged(env, s, strats, tries, steps);
    }
    if Logged(strats, log, steps) && Replay(env, s, log).Some? {
      LogEnds(strats, log, steps);
      var first := EveryLog(env, s, log, steps);
      var tries := Padded(strats, log, first);
      LogOfRest(env, s, tries, steps, |log|);
    }
  }

  lemma LogEnds(strats: seq<Strategy>, log: seq<Attempt>, steps: nat)
    requires Logged(strats, log, steps)
    ensures |log| <= |strats| && (forall i :: 0 <= i < |log| ==> log[i].strat == strats[i])
    ensures (log != [] ==> Steps(log[..|log| - 1]) < steps) && (Steps(log) == steps || |log| == |strats|)
  {
    hide Steps;
  }

  /** The attempts that are not made may have any numbers. */
  lemma Padded(strats: seq<Strategy>, log: seq<Attempt>, first: seq<Try>) returns (tries: seq<Try>)
    requires |first| == |log| <= |strats| && forall i :: 0 <= i < |log| ==> log[i].strat == strats[i]
    requires forall i :: 0 <= i < |log| ==> first[i].strat == log[i].strat
    ensures Draw(strats, tries) && |tries| == |strats| && tries[..|log|] == first
  {
    tries := first + seq(|strats| - |log|, i requires 0 <= i < |strats| - |log| => Try(strats[|log| + i], []));
  }
}
