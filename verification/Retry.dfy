/**
 RetryTx: runs a closure in a transaction, again and again on serialization failures. The
 closure may write variables it captured; those writes survive an aborted attempt, while
 its database writes do not. Between attempts other transactions may commit.
 */
module Retry {
  import opened Basics
  import opened Delay
  import opened Errors

  const MAX_RETRIES: nat := 5

  // -------------------------------------------------------------------- the closure

  /** One run of the closure: the tables it leaves in its transaction, its captured variables, its error. */
  datatype Run<S, V> = Run(db: S, vars: V, err: Err, poisoned: bool)

  /** A closure; its first argument is the attempt, standing for the clock, ids and faults it meets. */
  type Closure<!S, !V> = (nat, S, V) -> Run<S, V>

  /** What the world does at one attempt. */
  datatype Attempt<!S> = Attempt(
    /** Transactions others commit before this attempt begins. */
    others: S -> S,
    beginErr: Err,
    commitErr: Err,
    cancelled: bool,
    jitter: real)

  type World<!S> = nat -> Attempt<S>

  /** A transaction with a failed statement cannot commit, whatever the closure returned. */
  function CommitError<S, V>(run: Run<S, V>, a: Attempt<S>): Err {
    if run.poisoned then ROLLED_BACK else a.commitErr
  }

  /** What went wrong with a run, if anything: the closure's error, else the commit's. */
  function Failure<S, V>(run: Run<S, V>, a: Attempt<S>): Err {
    if run.err != Nil then run.err else CommitError(run, a)
  }

  /** How a failure that is not retried is reported. */
  function Reported<S, V>(run: Run<S, V>, a: Attempt<S>): Err {
    if run.err != Nil then run.err else Wrap(CommitError(run, a))
  }

  /** How a call of RetryTx ends. */
  datatype Ending<S, V> = Ending(db: S, vars: V, err: Err, runs: nat, slept: nat) {
    function After(moreRuns: nat, moreSlept: nat): Ending<S, V> {
      this.(runs := runs + moreRuns, slept := slept + moreSlept)
    }
  }

  function Sleep(attempt: nat, jitter: real): nat {
    var d := Backoff(attempt, jitter);
    if d < 0 then 0 else d
  }

  /** RetryTx from attempt k on. */
  function RetryFrom<S, V>(k: nat, fn: Closure<S, V>, world: World<S>, s: S, v: V): Ending<S, V>
    requires k <= MAX_RETRIES
    decreases MAX_RETRIES - k
  {
    var a := world(k);
    var s' := a.others(s);
    if a.beginErr != Nil then Ending(s', v, Wrap(a.beginErr), 0, 0)
    else
      var run := fn(k, s', v);
      if Failure(run, a) == Nil then Ending(run.db, run.vars, Nil, 1, 0)
      else if !IsRetryable(Failure(run, a)) || k == MAX_RETRIES then Ending(s', run.vars, Reported(run, a), 1, 0)
      else if a.cancelled then Ending(s', run.vars, Leaf("context canceled"), 1, Sleep(k, a.jitter))
      else RetryFrom(k + 1, fn, world, s', run.vars).After(1, Sleep(k, a.jitter))
  }

  class Database<S> {
    var committed: S

    constructor (s: S)
      ensures committed == s
    {
      committed := s;
    }

    /**
     RetryTx itself. The loop can only be left by a return: the error after it is unreachable.
     */
    method RetryTx<V>(fn: Closure<S, V>, world: World<S>, captured: V)
      returns (err: Err, vars: V, runs: nat, slept: nat)
      modifies this
      ensures Ending(committed, vars, err, runs, slept) == RetryFrom(0, fn, world, old(committed), captured)
    {
      var attempt := 0;
      vars, runs, slept := captured, 0, 0;
      while attempt <= MAX_RETRIES
        invariant attempt <= MAX_RETRIES
        invariant RetryFrom(attempt, fn, world, committed, vars).After(runs, slept)
                  == RetryFrom(0, fn, world, old(committed), captured)
        decreases MAX_RETRIES - attempt
      {
        var a := world(attempt);
        committed := a.others(committed);
        if a.beginErr != Nil {
          return Wrap(a.beginErr), vars, runs, slept;
        }
        var run := fn(attempt, committed, vars);
        vars, runs := run.vars, runs + 1;
        err := run.err;
        if err != Nil {
          if IsRetryable(err) && attempt < MAX_RETRIES {
            var delay := Sleep(attempt, a.jitter);
            slept := slept + delay;
            if a.cancelled {
              return Leaf("context canceled"), vars, runs, slept;
            }
            attempt := attempt + 1;
            continue;
          }
          return err, vars, runs, slept;
        }
        err := CommitError(run, a);
        if err != Nil {
          if IsRetryable(err) && attempt < MAX_RETRIES {
            slept := slept + Sleep(attempt, a.jitter);
            if a.cancelled {
              return Leaf("context canceled"), vars, runs, slept;
            }
            attempt := attempt + 1;
            continue;
          }
          return Wrap(err), vars, runs, slept;
        }
        committed := run.db;
        return Nil, vars, runs, slept;
      }
      assert false;
    }
  }

  // -------------------------------------------------------------- all or nothing

  /** The database at attempt j before the closure runs: the start plus what others committed. */
  function Drift<S>(world: World<S>, s: S, k: nat, j: nat): S
    requires k <= j
    decreases j
  {
    world(j).others(if k == j then s else Drift(world, s, k, j - 1))
  }

  /** The captured variables when attempt j runs: whatever the earlier, aborted attempts left in them. */
  function VarsAt<S, V>(fn: Closure<S, V>, world: World<S>, s: S, v: V, k: nat, j: nat): V
    requires k <= j
    decreases j
  {
    if k == j then v
    else fn(j - 1, Drift(world, s, k, j - 1), VarsAt(fn, world, s, v, k, j - 1)).vars
  }

  lemma {:induction false} DriftShifts<S>(world: World<S>, s: S, k: nat, j: nat)
    requires k < j
    ensures Drift(world, s, k, j) == Drift(world, world(k).others(s), k + 1, j)
    decreases j
  {
    if k + 1 < j { DriftShifts(world, s, k, j - 1); }
  }

  lemma {:induction false} VarsShift<S, V>(fn: Closure<S, V>, world: World<S>, s: S, v: V, k: nat, j: nat)
    requires k < j
    ensures
      var s' := world(k).others(s);
      VarsAt(fn, world, s, v, k, j) == VarsAt(fn, world, s', fn(k, s', v).vars, k + 1, j)
    decreases j
  {
    if k + 1 < j {
      VarsShift(fn, world, s, v, k, j - 1);
      DriftShifts(world, s, k, j - 1);
    }
  }

  /** The closure's run at attempt j. */
  function RunAt<S, V>(fn: Closure<S, V>, world: World<S>, s: S, v: V, k: nat, j: nat): Run<S, V>
    requires k <= j
  {
    fn(j, Drift(world, s, k, j), VarsAt(fn, world, s, v, k, j))
  }

  lemma RunShifts<S, V>(fn: Closure<S, V>, world: World<S>, s: S, v: V, k: nat, j: nat)
    requires k < j
    ensures
      var s' := world(k).others(s);
      && RunAt(fn, world, s, v, k, j) == RunAt(fn, world, s', fn(k, s', v).vars, k + 1, j)
      && Drift(world, s, k, j) == Drift(world, s', k + 1, j)
  {
    DriftShifts(world, s, k, j);
    VarsShift(fn, world, s, v, k, j);
  }

  /** The call ends at an attempt: with the effect of its run if that went well, else with none of its own. */
  predicate EndsAt<S(==), V(==)>(end: Ending<S, V>, run: Run<S, V>, a: Attempt<S>, drifted: S) {
    if a.beginErr == Nil && Failure(run, a) == Nil then
      end.err == Nil && run.err == Nil && !run.poisoned && end.db == run.db && end.vars == run.vars
    else
      end.err != Nil && end.db == drifted
  }

  /** The loop goes round again after this run. */
  predicate GoesRound<S, V>(run: Run<S, V>, a: Attempt<S>, k: nat) {
    a.beginErr == Nil && Failure(run, a) != Nil && IsRetryable(Failure(run, a)) && k < MAX_RETRIES && !a.cancelled
  }

  lemma LastAttempt<S, V>(k: nat, fn: Closure<S, V>, world: World<S>, s: S, v: V)
    requires k <= MAX_RETRIES
    requires !GoesRound(fn(k, world(k).others(s), v), world(k), k)
    ensures EndsAt(RetryFrom(k, fn, world, s, v), fn(k, world(k).others(s), v), world(k), world(k).others(s))
    ensures RetryFrom(k, fn, world, s, v).runs == if world(k).beginErr == Nil then 1 else 0
  {
  }

  lemma NextAttempt<S, V>(
    k: nat, fn: Closure<S, V>, world: World<S>, s: S, v: V, run: Run<S, V>, a: Attempt<S>, drifted: S)
    requires k < MAX_RETRIES
    requires
      var s' := world(k).others(s);
      && GoesRound(fn(k, s', v), world(k), k)
      && EndsAt(RetryFrom(k + 1, fn, world, s', fn(k, s', v).vars), run, a, drifted)
    ensures EndsAt(RetryFrom(k, fn, world, s, v), run, a, drifted)
    ensures
      var s' := world(k).others(s);
      RetryFrom(k, fn, world, s, v).runs == RetryFrom(k + 1, fn, world, s', fn(k, s', v).vars).runs + 1
  {
  }

  /** Attempt i of the call is followed by another one. */
  predicate Retried<S, V>(fn: Closure<S, V>, world: World<S>, s: S, v: V, k: nat, i: nat)
    requires k <= i
  {
    GoesRound(RunAt(fn, world, s, v, k, i), world(i), i)
  }

  /** Attempt j is the first, from k on, that is not followed by another. */
  predicate IsLast<S, V>(fn: Closure<S, V>, world: World<S>, s: S, v: V, k: nat, j: nat)
    requires k <= j
  {
    !Retried(fn, world, s, v, k, j) && forall i :: k <= i < j ==> Retried(fn, world, s, v, k, i)
  }

  lemma OneLastAttempt<S, V>(fn: Closure<S, V>, world: World<S>, s: S, v: V, i: nat, j: nat)
    requires IsLast(fn, world, s, v, 0, i) && IsLast(fn, world, s, v, 0, j)
    ensures i == j
  {
  }

  lemma RetriedShifts<S, V>(fn: Closure<S, V>, world: World<S>, s: S, v: V, k: nat, i: nat)
    requires k < i
    ensures
      var s' := world(k).others(s);
      Retried(fn, world, s, v, k, i) <==> Retried(fn, world, s', fn(k, s', v).vars, k + 1, i)
  {
    RunShifts(fn, world, s, v, k, i);
  }

  /**
   RetryTx is all or nothing. It ends at the first attempt j that is not retried: one that
   could not begin, went well, failed for good, was the sixth, or was cancelled. If attempt j
   went well, the database is what that one run of the closure left on the database of its
   attempt, and the captured variables are that run's; otherwise the call fails and only
   other transactions have changed the database.
   */
  lemma {:induction false} AllOrNothing<S, V>(k: nat, fn: Closure<S, V>, world: World<S>, s: S, v: V) returns (j: nat)
    requires k <= MAX_RETRIES
    ensures k <= j <= MAX_RETRIES
    ensures EndsAt(RetryFrom(k, fn, world, s, v), RunAt(fn, world, s, v, k, j), world(j), Drift(world, s, k, j))
    ensures IsLast(fn, world, s, v, k, j)
    ensures RetryFrom(k, fn, world, s, v).runs == j - k + if world(j).beginErr == Nil then 1 else 0
    decreases MAX_RETRIES - k
  {
    var s' := world(k).others(s);
    var run := fn(k, s', v);
    assert RunAt(fn, world, s, v, k, k) == run && Drift(world, s, k, k) == s';
    if GoesRound(run, world(k), k) {
      j := AllOrNothing(k + 1, fn, world, s', run.vars);
      RunShifts(fn, world, s, v, k, j);
      NextAttempt(k, fn, world, s, v, RunAt(fn, world, s, v, k, j), world(j), Drift(world, s, k, j));
      RetriedShifts(fn, world, s, v, k, j);
      forall i | k <= i < j ensures Retried(fn, world, s, v, k, i) {
        if i > k { RetriedShifts(fn, world, s, v, k, i); }
      }
    } else {
      j := k;
      LastAttempt(k, fn, world, s, v);
    }
  }

  /** What the call returns if it ends with this run of attempt j, written out. */
  predicate ReturnsErr<S, V>(end: Ending<S, V>, run: Run<S, V>, a: Attempt<S>, j: nat) {
    var commitErr := if run.poisoned then Leaf("commit unexpectedly resulted in rollback") else a.commitErr;
    var failure := if run.err != Nil then run.err else commitErr;
    end.err ==
      if a.beginErr != Nil then Wrap(a.beginErr)
      else if failure == Nil then Nil
      else if IsRetryable(failure) && j < 5 then Leaf("context canceled")
      else if run.err != Nil then run.err
      else Wrap(commitErr)
  }

  /** What the last attempt slept before it found the call cancelled. */
  function LastSleep<S, V>(run: Run<S, V>, a: Attempt<S>, j: nat): nat {
    if a.beginErr == Nil && Failure(run, a) != Nil && IsRetryable(Failure(run, a)) && j < MAX_RETRIES
    then Sleep(j, a.jitter) else 0
  }

  /** The sleeps after attempts k up to j. */
  function SleepSum<S>(world: World<S>, k: nat, j: nat): nat
    requires k <= j
    decreases j
  {
    if k == j then 0 else SleepSum(world, k, j - 1) + Sleep(j - 1, world(j - 1).jitter)
  }

  lemma {:induction false} SleepSumShifts<S>(world: World<S>, k: nat, j: nat)
    requires k < j
    ensures SleepSum(world, k, j) == Sleep(k, world(k).jitter) + SleepSum(world, k + 1, j)
    decreases j
  {
    if k + 1 < j { SleepSumShifts(world, k, j - 1); }
  }

  lemma LastReturns<S, V>(k: nat, fn: Closure<S, V>, world: World<S>, s: S, v: V)
    requires k <= MAX_RETRIES && !GoesRound(fn(k, world(k).others(s), v), world(k), k)
    ensures ReturnsErr(RetryFrom(k, fn, world, s, v), fn(k, world(k).others(s), v), world(k), k)
    ensures RetryFrom(k, fn, world, s, v).slept == LastSleep(fn(k, world(k).others(s), v), world(k), k)
  {
  }

  lemma NextReturns<S, V>(k: nat, fn: Closure<S, V>, world: World<S>, s: S, v: V, run: Run<S, V>, a: Attempt<S>, j: nat)
    requires k < MAX_RETRIES && GoesRound(fn(k, world(k).others(s), v), world(k), k)
    requires
      var s' := world(k).others(s);
      ReturnsErr(RetryFrom(k + 1, fn, world, s', fn(k, s', v).vars), run, a, j)
    ensures ReturnsErr(RetryFrom(k, fn, world, s, v), run, a, j)
    ensures
      var s' := world(k).others(s);
      RetryFrom(k, fn, world, s, v).slept ==
      Sleep(k, world(k).jitter) + RetryFrom(k + 1, fn, world, s', fn(k, s', v).vars).slept
  {
  }

  lemma LastShifts<S, V>(fn: Closure<S, V>, world: World<S>, s: S, v: V, k: nat, j: nat)
    requires k < j && IsLast(fn, world, s, v, k, j)
    ensures
      var s' := world(k).others(s);
      IsLast(fn, world, s', fn(k, s', v).vars, k + 1, j)
  {
    var s' := world(k).others(s);
    RetriedShifts(fn, world, s, v, k, j);
    var next := k + 1;
    forall i | next <= i < j ensures Retried(fn, world, s', fn(k, s', v).vars, next, i) {
      assert Retried(fn, world, s, v, k, i);
      RetriedShifts(fn, world, s, v, k, i);
    }
  }

  /** The error a call returns and the time it sleeps, exactly, by its last attempt. */
  lemma {:induction false} CallReturns<S, V>(k: nat, fn: Closure<S, V>, world: World<S>, s: S, v: V, j: nat)
    requires k <= j <= MAX_RETRIES && IsLast(fn, world, s, v, k, j)
    ensures ReturnsErr(RetryFrom(k, fn, world, s, v), RunAt(fn, world, s, v, k, j), world(j), j)
    ensures RetryFrom(k, fn, world, s, v).slept ==
            SleepSum(world, k, j) + LastSleep(RunAt(fn, world, s, v, k, j), world(j), j)
    decreases MAX_RETRIES - k
  {
    var s' := world(k).others(s);
    var run := fn(k, s', v);
    assert RunAt(fn, world, s, v, k, k) == run;
    if k == j {
      assert !Retried(fn, world, s, v, k, k);
      LastReturns(k, fn, world, s, v);
    } else {
      assert Retried(fn, world, s, v, k, k);
      LastShifts(fn, world, s, v, k, j);
      CallReturns(k + 1, fn, world, s', run.vars, j);
      RunShifts(fn, world, s, v, k, j);
      SleepSumShifts(world, k, j);
      NextReturns(k, fn, world, s, v, RunAt(fn, world, s, v, k, j), world(j), j);
    }
  }

  /** Half of each doubled delay from attempt k up to j, a nanosecond less for the rounding. */
  function HalfSum(k: nat, j: nat): int
    requires k <= j
    decreases j
  {
    if k == j then 0 else HalfSum(k, j - 1) + Doubled(10_000_000, j - 1) / 2 - 1
  }

  lemma HalfIsLeast(d: real, jitter: real)
    requires d >= 0.0 && jitter >= 0.5
    ensures d * jitter >= d * 0.5
  {
  }

  lemma AtLeastHalf(d: nat, jitter: real, x: int)
    requires jitter >= 0.5 && d as real * jitter - 1.0 < x as real
    ensures x >= d / 2 - 1
  {
    HalfIsLeast(d as real, jitter);
    assert d / 2 <= d - d / 2;
    assert (d / 2) as real <= d as real * 0.5;
  }

  lemma SleepAtLeastHalf(k: nat, jitter: real)
    requires k < MAX_RETRIES && ValidJitter(jitter)
    ensures Sleep(k, jitter) >= Doubled(10_000_000, k) / 2 - 1
  {
    BackoffDoubles(k, jitter);
    assert Doubled(10_000_000, 4) == 160_000_000;
    DoubledMonotone(10_000_000, k, 4);
    AtLeastHalf(Doubled(10_000_000, k), jitter, Backoff(k, jitter));
  }

  lemma {:induction false} SleepSumGrows<S>(world: World<S>, k: nat, j: nat)
    requires k <= j <= MAX_RETRIES && forall i :: ValidJitter(world(i).jitter)
    ensures SleepSum(world, k, j) >= HalfSum(k, j)
    decreases j
  {
    if k < j {
      SleepSumGrows(world, k, j - 1);
      assert ValidJitter(world(j - 1).jitter);
      SleepAtLeastHalf(j - 1, world(j - 1).jitter);
    }
  }

  /** A call that retried attempts 0 to j has slept at least half of each doubled delay. */
  lemma SleepsGrow<S, V>(fn: Closure<S, V>, world: World<S>, s: S, v: V, j: nat)
    requires j <= MAX_RETRIES && IsLast(fn, world, s, v, 0, j) && forall i :: ValidJitter(world(i).jitter)
    ensures RetryFrom(0, fn, world, s, v).slept >= HalfSum(0, j)
  {
    CallReturns(0, fn, world, s, v, j);
    SleepSumGrows(world, 0, j);
  }

  /** Attempt i ends in SQLSTATE 40001, of the closure or of the commit. */
  predicate FailsTransiently<S, V>(fn: Closure<S, V>, world: World<S>, s: S, v: V, i: nat) {
    var run := RunAt(fn, world, s, v, 0, i);
    IsRetryable(run.err) || (run.err == Nil && !run.poisoned && IsRetryable(world(i).commitErr))
  }

  /** Transient failures all the way are retried to the sixth attempt, and no further. */
  lemma TransientFailuresRunSixTimes<S, V>(fn: Closure<S, V>, world: World<S>, s: S, v: V)
    requires forall i :: 0 <= i <= 5 ==> world(i).beginErr == Nil && !world(i).cancelled
    requires forall i :: 0 <= i <= 5 ==> FailsTransiently(fn, world, s, v, i)
    ensures RetryFrom(0, fn, world, s, v).runs == 6 && RetryFrom(0, fn, world, s, v).err != Nil
  {
    var j := AllOrNothing(0, fn, world, s, v);
    forall i | 0 <= i < 5 ensures Retried(fn, world, s, v, 0, i) {
      assert FailsTransiently(fn, world, s, v, i);
    }
    OneLastAttempt(fn, world, s, v, j, 5);
    assert FailsTransiently(fn, world, s, v, 5);
  }

  function SleepBound(k: nat): nat
    requires k <= MAX_RETRIES
    decreases MAX_RETRIES - k
  {
    if k == MAX_RETRIES then 0 else Doubled(BASE_RETRY_DELAY, k) + SleepBound(k + 1)
  }

  lemma SleepIsBounded(k: nat, jitter: real)
    requires k < MAX_RETRIES && ValidJitter(jitter)
    ensures 2 * Sleep(k, jitter) <= 3 * (SleepBound(k) - SleepBound(k + 1))
  {
    BackoffBounds(k, jitter);
  }

  /** Runs and sleeps of one call add up. */
  lemma {:induction false} RunsAndSleeps<S, V>(k: nat, fn: Closure<S, V>, world: World<S>, s: S, v: V)
    requires k <= MAX_RETRIES && forall i :: ValidJitter(world(i).jitter)
    ensures RetryFrom(k, fn, world, s, v).runs <= MAX_RETRIES + 1 - k
    ensures 2 * RetryFrom(k, fn, world, s, v).slept <= 3 * SleepBound(k)
    decreases MAX_RETRIES - k
  {
    var a := world(k);
    var s' := a.others(s);
    var run := fn(k, s', v);
    if k < MAX_RETRIES {
      assert ValidJitter(a.jitter);
      SleepIsBounded(k, a.jitter);
      RunsAndSleeps(k + 1, fn, world, s', run.vars);
    }
  }

  /** At most six runs, and less than half a second of sleep, whatever happens. */
  lemma OneCallIsBounded<S, V>(fn: Closure<S, V>, world: World<S>, s: S, v: V)
    requires forall i :: ValidJitter(world(i).jitter)
    ensures RetryFrom(0, fn, world, s, v).runs <= 6
    ensures RetryFrom(0, fn, world, s, v).slept <= 465_000_000
  {
    RunsAndSleeps(0, fn, world, s, v);
    assert SleepBound(5) == 0;
    assert SleepBound(4) == 160_000_000;
    assert SleepBound(3) == 240_000_000;
    assert SleepBound(2) == 280_000_000;
    assert SleepBound(0) == 310_000_000;
  }

  // --------------------------------------------------------- safe to run again

  /**
   A closure is safe to run again if what earlier attempts left in its captured variables
   never matters: not to the database, not to its error, and not to the variables of a run
   that succeeds.
   */
  ghost predicate RerunSafe<S(!new), V(!new)>(fn: Closure<S, V>) {
    forall k, s, v, w ::
      && fn(k, s, v).db == fn(k, s, w).db
      && fn(k, s, v).err == fn(k, s, w).err
      && fn(k, s, v).poisoned == fn(k, s, w).poisoned
      && (fn(k, s, v).err == Nil ==> fn(k, s, v).vars == fn(k, s, w).vars)
  }

  /** After success the variables and the database are those of the committed attempt run on its own. */
  lemma SafeClosureReportsItsCommit<S(!new), V(!new)>(fn: Closure<S, V>, world: World<S>, s: S, v: V) returns (j: nat)
    requires RerunSafe(fn) && RetryFrom(0, fn, world, s, v).err == Nil
    ensures j <= MAX_RETRIES
    ensures
      var run := fn(j, Drift(world, s, 0, j), v);
      && run.err == Nil && !run.poisoned
      && RetryFrom(0, fn, world, s, v).db == run.db
      && RetryFrom(0, fn, world, s, v).vars == run.vars
  {
    j := AllOrNothing(0, fn, world, s, v);
    var at := VarsAt(fn, world, s, v, 0, j);
    assert fn(j, Drift(world, s, 0, j), v).db == fn(j, Drift(world, s, 0, j), at).db;
  }

  /** A closure that writes its captured variables only when every statement of it has succeeded. */
  ghost predicate WritesVarsLast<S(!new), V(!new)>(fn: Closure<S, V>) {
    forall k, s, v :: fn(k, s, v).err != Nil ==> fn(k, s, v).vars == v
  }

  /** The last attempt before j whose closure returned nil, if there is one: its commit must have failed. */
  function LastDone<S, V>(fn: Closure<S, V>, world: World<S>, s: S, v: V, j: nat): (c: Option<nat>)
    ensures c.Some? ==> c.value < j && RunAt(fn, world, s, v, 0, c.value).err == Nil
    ensures forall i :: (if c.Some? then c.value else -1) < i < j ==> RunAt(fn, world, s, v, 0, i).err != Nil
  {
    if j == 0 then None
    else if RunAt(fn, world, s, v, 0, j - 1).err == Nil then Some(j - 1)
    else LastDone(fn, world, s, v, j - 1)
  }

  /** What attempt j finds in the captured variables: what the last finished attempt wrote, or the caller's values. */
  lemma {:induction false} VarsAreLastWritten<S(!new), V(!new)>(fn: Closure<S, V>, world: World<S>, s: S, v: V, j: nat)
    requires WritesVarsLast(fn)
    ensures
      var c := LastDone(fn, world, s, v, j);
      VarsAt(fn, world, s, v, 0, j) == if c.Some? then RunAt(fn, world, s, v, 0, c.value).vars else v
    decreases j
  {
    if j > 0 { VarsAreLastWritten(fn, world, s, v, j - 1); }
  }

  /** Without transient commit failures every attempt before the last failed in the closure. */
  lemma NothingDoneBefore<S, V>(fn: Closure<S, V>, world: World<S>, s: S, v: V, j: nat)
    requires forall i :: !IsRetryable(world(i).commitErr)
    requires IsLast(fn, world, s, v, 0, j)
    ensures LastDone(fn, world, s, v, j) == None
  {
    var c := LastDone(fn, world, s, v, j);
    if c.Some? {
      assert Retried(fn, world, s, v, 0, c.value);
      assert !IsRetryable(world(c.value).commitErr) && !IsRetryable(ROLLED_BACK);
      assert false;
    }
  }

  /**
   A closure that writes its variables last is safe as long as no commit fails: retries that
   come from failed statements find the variables as the caller gave them.
   */
  lemma StatementRetriesAreSafe<S(!new), V(!new)>(fn: Closure<S, V>, world: World<S>, s: S, v: V) returns (j: nat)
    requires WritesVarsLast(fn) && RetryFrom(0, fn, world, s, v).err == Nil
    requires forall i :: !IsRetryable(world(i).commitErr)
    ensures j <= MAX_RETRIES && IsLast(fn, world, s, v, 0, j)
    ensures
      var run := fn(j, Drift(world, s, 0, j), v);
      && run.err == Nil
      && RetryFrom(0, fn, world, s, v).db == run.db
      && RetryFrom(0, fn, world, s, v).vars == run.vars
  {
    j := AllOrNothing(0, fn, world, s, v);
    NothingDoneBefore(fn, world, s, v, j);
    VarsAreLastWritten(fn, world, s, v, j);
  }
}
