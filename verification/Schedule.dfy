/** When a reconstruction writes images and log lines: the loop that runs in batches against the loop that
    steps one iteration at a time. */
module Schedule {

  /** The iteration numbers below n at which the one-step loop writes. */
  function Indices(period: nat, n: nat): (r: seq<nat>)
    requires period > 0
  {
    if n == 0 then []
    else Indices(period, n - 1) + if (n - 1) % period == period - 1 then [n - 1] else []
  }

  function ToNext(period: nat, n: nat): (d: nat)
    requires period > 0
    ensures 1 <= d <= period
  {
    period - n % period
  }

  /** The first multiple of the period from n on. */
  function Multiple(period: nat, n: nat): (m: nat)
    requires period > 0
    ensures n <= m < n + period
  {
    if n % period == 0 then n else n + ToNext(period, n)
  }

  lemma NextRemainder(n: nat, period: nat)
    requires period > 0
    ensures (n + 1) % period == if n % period == period - 1 then 0 else n % period + 1
  {
    var q, r := n / period, n % period;
    assert n == period * q + r;
    if r == period - 1 {
      assert n + 1 == period * (q + 1);
      RemainderIs(n + 1, period, q + 1, 0);
    } else {
      RemainderIs(n + 1, period, q, r + 1);
    }
  }

  lemma RemainderIs(n: nat, period: nat, q: nat, r: nat)
    requires period > 0 && n == period * q + r && r < period
    ensures n % period == r && n / period == q
  {
    NoSmallMultiple(period, q - n / period);
    assert period * (q - n / period) == n % period - r;
  }

  lemma NoSmallMultiple(period: nat, d: int)
    requires period > 0
    ensures d >= 1 ==> period * d >= period
    ensures d <= -1 ==> period * d + period <= 0
  {
  }

  /** Nothing is due until the next multiple of the period. */
  lemma {:induction false} QuietUntilNext(period: nat, n: nat, d: nat)
    requires period > 0 && d < ToNext(period, n)
    ensures (n + d) % period == n % period + d
    ensures Indices(period, n + d) == Indices(period, n)
  {
    if d > 0 {
      QuietUntilNext(period, n, d - 1);
      NextRemainder(n + d - 1, period);
    }
  }

  lemma DueAtNext(period: nat, n: nat)
    requires period > 0
    ensures (n + ToNext(period, n)) % period == 0
    ensures Indices(period, n + ToNext(period, n)) == Indices(period, n) + [n + ToNext(period, n) - 1]
  {
    var d := ToNext(period, n);
    QuietUntilNext(period, n, d - 1);
    NextRemainder(n + d - 1, period);
  }

  /** Up to the next multiple: one index when it is reached, and none before. */
  lemma DueExactlyAtNext(period: nat, n: nat, d: nat, toNext: nat, before: seq<nat>, after: seq<nat>)
    requires period > 0 && toNext == ToNext(period, n) && d <= toNext && before == Indices(period, n)
    requires after == if d == toNext then before + [n + d - 1] else before
    ensures after == Indices(period, n + d)
  {
    if d == toNext {
      DueAtNext(period, n);
    } else {
      QuietUntilNext(period, n, d);
    }
  }

  lemma NoMultipleBetween(period: nat, n: nat, m: nat)
    requires period > 0 && m % period == 0
    ensures m > n ==> m >= n + ToNext(period, n)
    ensures m >= n ==> m >= Multiple(period, n)
  {
    if n <= m < n + ToNext(period, n) {
      QuietUntilNext(period, n, m - n);
    }
  }

  /** The number of the k-th file, counting from zero. */
  function Nth(period: nat, k: nat): (n: nat)
    requires period > 0
  {
    if k == 0 then period - 1 else Nth(period, k - 1) + period
  }

  lemma {:induction false} NthIsMultipleLessOne(period: nat, k: nat)
    requires period > 0
    ensures Nth(period, k) == (k + 1) * period - 1
  {
    if k > 0 {
      NthIsMultipleLessOne(period, k - 1);
    }
  }

  lemma {:induction false} NthGrows(period: nat, j: nat, k: nat)
    requires period > 0 && j < k
    ensures Nth(period, j) < Nth(period, k)
  {
    if j < k - 1 {
      NthGrows(period, j, k - 1);
    }
  }

  /** The indices written are period - 1, 2 period - 1, and so on: one for each multiple of the period. */
  lemma {:induction false} IndicesAreMultiples(period: nat, n: nat)
    requires period > 0
    ensures |Indices(period, n)| == n / period
    ensures forall k :: 0 <= k < |Indices(period, n)| ==> Indices(period, n)[k] == Nth(period, k)
  {
    if n == 0 {
      RemainderIs(0, period, 0, 0);
    } else {
      IndicesAreMultiples(period, n - 1);
      var q, r := (n - 1) / period, (n - 1) % period;
      assert n - 1 == period * q + r;
      NthIsMultipleLessOne(period, q);
      if r == period - 1 {
        assert n == period * (q + 1);
        RemainderIs(n, period, q + 1, 0);
      } else {
        RemainderIs(n, period, q, r + 1);
      }
    }
  }

  lemma {:induction false} IndicesGrow(period: nat, n: nat, m: nat)
    requires period > 0 && n <= m
    ensures Indices(period, n) <= Indices(period, m)
    ensures forall k :: 0 <= k < |Indices(period, m)| ==>
      (k < |Indices(period, n)| <==> Indices(period, m)[k] < n) && Indices(period, m)[k] < m
  {
    if m == n {
      IndicesBelow(period, n);
    } else {
      IndicesGrow(period, n, m - 1);
    }
  }

  lemma {:induction false} IndicesBelow(period: nat, n: nat)
    requires period > 0
    ensures forall k :: 0 <= k < |Indices(period, n)| ==> Indices(period, n)[k] < n
  {
    if n > 0 {
      IndicesBelow(period, n - 1);
    }
  }

  // ---------------------------------------------------------------- the batched loop

  function Sooner(a: nat, b: nat): nat {
    if a < b then a else b
  }

  /** The iteration reached, the numbers that the log lines carry, and the numbers in the file names. */
  datatype Run = Run(iteration: nat, logged: seq<nat>, written: seq<nat>)

  const START := Run(0, [], [])

  /** One pass of the loop: as many iterations as fit before anything is due. */
  function Round(run: Run, output: nat, log: nat): (r: Run)
    requires output > 0 && log > 0
  {
    var toOutput := ToNext(output, run.iteration);
    var toLog := ToNext(log, run.iteration);
    var step := Sooner(toOutput, toLog);
    Run(run.iteration + step,
        if step == toLog then run.logged + [run.iteration + step] else run.logged,
        if step == toOutput then run.written + [run.iteration + step - 1] else run.written)
  }

  function Rounds(n: nat, output: nat, log: nat): (r: Run)
    requires output > 0 && log > 0
  {
    if n == 0 then START else Round(Rounds(n - 1, output, log), output, log)
  }

  /** Every number one higher. */
  function Successors(s: seq<nat>): (r: seq<nat>)
    ensures |r| == |s| && forall k :: 0 <= k < |s| ==> r[k] == s[k] + 1
  {
    seq(|s|, k requires 0 <= k < |s| => s[k] + 1)
  }

  /** Everything due so far has been written, once and in order. A file carries the number of the iteration
      that the one-step loop writes it at, a log line the number after that. */
  ghost predicate UpToDate(run: Run, output: nat, log: nat)
    requires output > 0 && log > 0
  {
    run.written == Indices(output, run.iteration) && run.logged == Successors(Indices(log, run.iteration))
  }

  lemma RoundKeepsUpToDate(run: Run, output: nat, log: nat)
    requires output > 0 && log > 0 && UpToDate(run, output, log)
    ensures UpToDate(Round(run, output, log), output, log)
    ensures run.iteration < Round(run, output, log).iteration
  {
    var next, n := Round(run, output, log), run.iteration;
    var toOutput, toLog := ToNext(output, n), ToNext(log, n);
    var step := Sooner(toOutput, toLog);
    DueExactlyAtNext(output, n, step, toOutput, run.written, next.written);
    LogDueExactlyAtNext(log, n, step, toLog, run.logged, next.logged);
  }

  lemma LogDueExactlyAtNext(period: nat, n: nat, d: nat, toNext: nat, before: seq<nat>, after: seq<nat>)
    requires period > 0 && toNext == ToNext(period, n) && d <= toNext && before == Successors(Indices(period, n))
    requires after == if d == toNext then before + [n + d] else before
    ensures after == Successors(Indices(period, n + d))
  {
    var lines := Indices(period, n);
    DueExactlyAtNext(period, n, d, toNext, lines, if d == toNext then lines + [n + d - 1] else lines);
    if d == toNext {
      OneMoreSuccessor(lines, n + d - 1);
    }
  }

  lemma OneMoreSuccessor(s: seq<nat>, x: nat)
    ensures Successors(s + [x]) == Successors(s) + [x + 1]
  {
  }

  /** For any number of rounds: the files that the batched loop wrote are those that the one-step loop writes
      in as many iterations, it logged as often as that loop comes to log, and every round advances. */
  lemma {:induction false} BatchesWriteWhatStepsWrite(n: nat, output: nat, log: nat)
    requires output > 0 && log > 0
    ensures UpToDate(Rounds(n, output, log), output, log)
    ensures Rounds(n, output, log).iteration >= n
  {
    if n > 0 {
      BatchesWriteWhatStepsWrite(n - 1, output, log);
      RoundKeepsUpToDate(Rounds(n - 1, output, log), output, log);
    }
  }

  /** The batched log lines carry the multiples of the log period, each one higher than the iteration at
      which the one-step loop logs. */
  lemma BatchedLogNumbers(n: nat, output: nat, log: nat, k: nat)
    requires output > 0 && log > 0 && k < |Rounds(n, output, log).logged|
    ensures |Indices(log, Rounds(n, output, log).iteration)| == |Rounds(n, output, log).logged| ==
            Rounds(n, output, log).iteration / log
    ensures Rounds(n, output, log).logged[k] == (k + 1) * log
    ensures Rounds(n, output, log).logged[k] == Indices(log, Rounds(n, output, log).iteration)[k] + 1
  {
    BatchesWriteWhatStepsWrite(n, output, log);
    IndicesAreMultiples(log, Rounds(n, output, log).iteration);
    NthIsMultipleLessOne(log, k);
  }

  /** Where a run with a maximum stops: the first multiple of either period that reaches it. */
  function Stop(max: nat, output: nat, log: nat): (m: nat)
    requires output > 0 && log > 0
    ensures max <= m < max + Sooner(output, log)
  {
    Sooner(Multiple(output, max), Multiple(log, max))
  }

  lemma RoundReachesNoFurther(run: Run, max: nat, output: nat, log: nat)
    requires output > 0 && log > 0 && run.iteration < max
    ensures Round(run, output, log).iteration <= Stop(max, output, log)
    ensures Round(run, output, log).iteration >= max ==> Round(run, output, log).iteration == Stop(max, output, log)
  {
    var it := run.iteration;
    MultipleIsMultiple(output, max);
    MultipleIsMultiple(log, max);
    NoMultipleBetween(output, it, Multiple(output, max));
    NoMultipleBetween(log, it, Multiple(log, max));
    DueAtNext(output, it);
    DueAtNext(log, it);
    NoMultipleBetween(output, max, it + ToNext(output, it));
    NoMultipleBetween(log, max, it + ToNext(log, it));
  }

  lemma MultipleIsMultiple(period: nat, n: nat)
    requires period > 0
    ensures Multiple(period, n) % period == 0
  {
    DueAtNext(period, n);
  }

  /** The files of the one-step loop are there, and they are all exactly when the run does not end on a
      later multiple of the output period. */
  lemma SameFilesExactlyWhenNoLateOutput(max: nat, output: nat, log: nat, stop: nat)
    requires output > 0 && log > 0 && stop == Stop(max, output, log)
    ensures Indices(output, max) <= Indices(output, stop)
    ensures Indices(output, stop) == Indices(output, max) <==>
            max % output == 0 || Multiple(log, max) < Multiple(output, max)
  {
    if max % output == 0 {
      assert stop == max;
    } else if Multiple(log, max) < Multiple(output, max) {
      assert stop - max < ToNext(output, max);
      QuietUntilNext(output, max, stop - max);
    } else {
      assert stop == Multiple(output, max);
      LateOutput(output, max);
    }
  }

  lemma LateOutput(period: nat, n: nat)
    requires period > 0 && n % period != 0
    ensures Indices(period, n) <= Indices(period, Multiple(period, n))
    ensures Indices(period, n) != Indices(period, Multiple(period, n))
  {
    DueAtNext(period, n);
    LongerIsOther(Indices(period, n), n + ToNext(period, n) - 1);
  }

  lemma LongerIsOther(s: seq<nat>, x: nat)
    ensures s <= s + [x] && s + [x] != s
  {
    assert |s + [x]| == |s| + 1;
  }

  /** The batched loop, with or without a maximum, as far as it gets in the rounds it is watched for. */
  method CompleteReconstructionClean(output: nat, log: nat, max: nat, watched: nat)
    returns (run: Run, rounds: nat)
    requires output > 0 && log > 0
    ensures run == Rounds(rounds, output, log) && UpToDate(run, output, log)
    ensures rounds <= watched && (rounds < watched ==> max > 0 && run.iteration == Stop(max, output, log))
    ensures max > 0 && watched >= max ==> run.iteration == Stop(max, output, log)
  {
    var iteration: nat := 0;
    var logged: seq<nat> := [];
    var written: seq<nat> := [];
    rounds := 0;
    while (max == 0 || iteration < max) && rounds < watched
      invariant rounds <= watched && Run(iteration, logged, written) == Rounds(rounds, output, log)
      invariant max > 0 ==> iteration <= Stop(max, output, log)
      invariant max > 0 && iteration >= max ==> iteration == Stop(max, output, log)
      decreases watched - rounds
    {
      if max > 0 {
        RoundReachesNoFurther(Run(iteration, logged, written), max, output, log);
      }
      ghost var next := Round(Run(iteration, logged, written), output, log);
      var toOutput := ToNext(output, iteration);
      var toLog := ToNext(log, iteration);
      var toIterate := if toOutput < toLog then toOutput else toLog;
      iteration := iteration + toIterate;
      if toIterate == toLog {
        logged := logged + [iteration];
      }
      if toIterate == toOutput {
        written := written + [iteration - 1];
      }
      rounds := rounds + 1;
      assert Run(iteration, logged, written) == next;
    }
    BatchesWriteWhatStepsWrite(rounds, output, log);
    run := Run(iteration, logged, written);
  }

  // ---------------------------------------------------------------- the one-step loop

  /** The line logged by the iteration in front of the one-step loop, which has number 0 as well. */
  function FirstLog(log: nat): seq<nat>
    requires log > 0
  {
    if 0 % log == log - 1 then [0] else []
  }

  /** The iterations at which the support is updated; a period of zero never updates it. */
  predicate UpdatesSupport(support: nat, i: nat) {
    support > 0 && i % support == support - 1
  }

  /** These are the iterations after which a multiple of the period has been run. */
  lemma UpdatesAtMultiples(support: nat, i: nat)
    ensures UpdatesSupport(support, i) <==> support > 0 && (i + 1) % support == 0
  {
    if support > 0 {
      NextRemainder(i, support);
    }
  }

  function Repeated(x: nat, times: nat): (r: seq<nat>)
    ensures |r| == times && forall k :: 0 <= k < times ==> r[k] == x
  {
    seq(times, k => x)
  }

  /** The lines logged in one iteration: one for each error reduction of a support update, and its own. */
  function Lines(log: nat, support: nat, reductions: nat, i: nat, own: nat): seq<nat>
    requires log > 0
  {
    if i % log == log - 1 then Repeated(i, (if UpdatesSupport(support, i) then reductions else 0) + own) else []
  }

  /** All lines of the first n iterations. */
  function StepLog(log: nat, support: nat, reductions: nat, n: nat): seq<nat>
    requires log > 0
  {
    if n == 0 then [] else StepLog(log, support, reductions, n - 1) + Lines(log, support, reductions, n - 1, 1)
  }

  /** The iterations that appear in the log are those one short of a multiple of the log period. */
  lemma {:induction false} LoggedIterations(log: nat, support: nat, reductions: nat, n: nat, i: nat)
    requires log > 0
    ensures i in StepLog(log, support, reductions, n) <==> i < n && i % log == log - 1
  {
    if n > 0 {
      LoggedIterations(log, support, reductions, n - 1, i);
      var lines := Lines(log, support, reductions, n - 1, 1);
      assert (n - 1) % log == log - 1 ==> lines[0] == n - 1;
    }
  }

  /** How often an iteration appears in the log: once for itself and once for each error reduction. */
  lemma {:induction false} LinesOfIteration(log: nat, support: nat, reductions: nat, n: nat, i: nat)
    requires log > 0
    ensures multiset(StepLog(log, support, reductions, n))[i] ==
            if i < n && (i + 1) % log == 0 then
              (if support > 0 && (i + 1) % support == 0 then reductions else 0) + 1
            else 0
  {
    if n > 0 {
      LinesOfIteration(log, support, reductions, n - 1, i);
      LinesOfOne(log, support, reductions, n - 1, i, Lines(log, support, reductions, n - 1, 1));
    }
  }

  lemma LinesOfOne(log: nat, support: nat, reductions: nat, j: nat, i: nat, lines: seq<nat>)
    requires log > 0 && lines == Lines(log, support, reductions, j, 1)
    ensures multiset(lines)[i] ==
            if i == j && (i + 1) % log == 0 then
              (if support > 0 && (i + 1) % support == 0 then reductions else 0) + 1
            else 0
  {
    UpdatesAtMultiples(support, j);
    NextRemainder(j, log);
    CountRepeated(j, (if UpdatesSupport(support, j) then reductions else 0) + 1, i);
  }

  lemma {:induction false} CountRepeated(x: nat, times: nat, i: nat)
    ensures multiset(Repeated(x, times))[i] == if i == x then times else 0
  {
    if times > 0 {
      CountRepeated(x, times - 1, i);
      assert Repeated(x, times) == Repeated(x, times - 1) + [x];
    }
  }

  /** An iteration with a line of its own that updates the support, with error reductions that log as well. */
  predicate LogsTwice(log: nat, support: nat, reductions: nat, i: nat)
    requires log > 0
  {
    reductions > 0 && i % log == log - 1 && UpdatesSupport(support, i)
  }

  lemma {:induction false} StepLogOnce(log: nat, support: nat, reductions: nat, n: nat)
    requires log > 0
    ensures |StepLog(log, support, reductions, n)| >= |Indices(log, n)|
    ensures (exists i: nat :: i < n && LogsTwice(log, support, reductions, i)) ==>
      |StepLog(log, support, reductions, n)| > |Indices(log, n)|
    ensures (forall i: nat :: i < n ==> !LogsTwice(log, support, reductions, i)) ==>
      StepLog(log, support, reductions, n) == Indices(log, n)
  {
    if n > 0 {
      StepLogOnce(log, support, reductions, n - 1);
      var lines := Lines(log, support, reductions, n - 1, 1);
      if !LogsTwice(log, support, reductions, n - 1) && (n - 1) % log == log - 1 {
        assert lines == [n - 1];
      }
    }
  }

  /** The one-step loop logs every iteration that is due exactly once, exactly when the log period is not 1
      and no error reduction falls on an iteration that is due. */
  lemma LoggedOnceExactly(log: nat, support: nat, reductions: nat, n: nat)
    requires log > 0
    ensures FirstLog(log) + StepLog(log, support, reductions, n) == Indices(log, n) <==>
            log > 1 && forall i: nat :: i < n ==> !LogsTwice(log, support, reductions, i)
  {
    StepLogOnce(log, support, reductions, n);
    FirstLogOnlyForOne(log);
    if log > 1 {
      assert FirstLog(log) + StepLog(log, support, reductions, n) == StepLog(log, support, reductions, n);
    }
  }

  lemma FirstLogOnlyForOne(log: nat)
    requires log > 0
    ensures FirstLog(log) == if log == 1 then [0] else []
  {
    RemainderIs(0, log, 0, 0);
  }

  /** The one-step loop, with or without a maximum, as far as it gets in the iterations it is watched for.
      finished is the flag at the start of an iteration, hopeless the automatic stop at a support update, in
      front of the output. */
  method CompleteReconstruction(output: nat, log: nat, max: nat, support: nat, reductions: nat,
                                finished: nat -> bool, hopeless: nat -> bool, watched: nat)
    returns (run: Run, gaveUp: bool)
    requires output > 0 && log > 0
    ensures run.written == Indices(output, run.iteration)
    ensures run.logged == FirstLog(log) + StepLog(log, support, reductions, run.iteration) +
                          if gaveUp then Lines(log, support, reductions, run.iteration, 0) else []
    ensures forall i :: 0 <= i < run.iteration ==>
      !finished(i) && !(UpdatesSupport(support, i) && hopeless(i)) && (max > 0 ==> i < max)
    ensures run.iteration <= watched
    ensures gaveUp ==> UpdatesSupport(support, run.iteration) && hopeless(run.iteration)
    ensures gaveUp || run.iteration == watched || run.iteration == max > 0 || finished(run.iteration)
  {
    var iteration: nat := 0;
    var logged: seq<nat> := if 0 % log == log - 1 then [0] else [];
    var written: seq<nat> := [];
    gaveUp := false;
    while !finished(iteration) && (max == 0 || iteration < max) && iteration < watched
      invariant iteration <= watched && (max > 0 ==> iteration <= max) && !gaveUp
      invariant written == Indices(output, iteration)
      invariant logged == FirstLog(log) + StepLog(log, support, reductions, iteration)
      invariant forall i :: 0 <= i < iteration ==>
        !finished(i) && !(UpdatesSupport(support, i) && hopeless(i)) && (max > 0 ==> i < max)
      decreases watched - iteration
    {
      gaveUp, logged, written := Iterate(output, log, support, reductions, hopeless, iteration, logged, written);
      if gaveUp {
        break;
      }
      iteration := iteration + 1;
    }
    run := Run(iteration, logged, written);
  }

  /** One iteration of the one-step loop: the support update, the automatic stop, the files and the line. */
  method Iterate(output: nat, log: nat, support: nat, reductions: nat, hopeless: nat -> bool, iteration: nat,
                 lines: seq<nat>, files: seq<nat>)
    returns (gaveUp: bool, logged: seq<nat>, written: seq<nat>)
    requires output > 0 && log > 0
    ensures gaveUp <==> UpdatesSupport(support, iteration) && hopeless(iteration)
    ensures logged == lines + Lines(log, support, reductions, iteration, if gaveUp then 0 else 1)
    ensures written == if !gaveUp && iteration % output == output - 1 then files + [iteration] else files
  {
    logged, written := lines, files;
    if support > 0 && iteration % support == support - 1 {
      logged := ReduceErrors(log, support, reductions, iteration, lines);
      if hopeless(iteration) {
        return true, logged, written;
      }
    }
    NoReductions(log, support, reductions, iteration, lines);
    if iteration % output == output - 1 {
      written := written + [iteration];
    }
    if iteration % log == log - 1 {
      logged := logged + [iteration];
    }
    OwnLineLast(log, support, reductions, iteration, lines);
    gaveUp := false;
  }

  lemma NoReductions(log: nat, support: nat, reductions: nat, i: nat, before: seq<nat>)
    requires log > 0
    ensures !UpdatesSupport(support, i) ==> before + Lines(log, support, reductions, i, 0) == before
  {
  }

  lemma OwnLineLast(log: nat, support: nat, reductions: nat, i: nat, before: seq<nat>)
    requires log > 0
    ensures before + Lines(log, support, reductions, i, 1) ==
            if i % log == log - 1 then before + Lines(log, support, reductions, i, 0) + [i]
            else before + Lines(log, support, reductions, i, 0)
  {
  }

  /** The error reductions of a support update, each of which logs when the iteration is due. */
  method ReduceErrors(log: nat, support: nat, reductions: nat, iteration: nat, before: seq<nat>)
    returns (logged: seq<nat>)
    requires log > 0 && UpdatesSupport(support, iteration)
    ensures logged == before + Lines(log, support, reductions, iteration, 0)
  {
    logged := before;
    for i := 0 to reductions
      invariant logged == before + if iteration % log == log - 1 then Repeated(iteration, i) else []
    {
      if iteration % log == log - 1 {
        logged := logged + [iteration];
        assert Repeated(iteration, i) + [iteration] == Repeated(iteration, i + 1);
      }
    }
  }
}
