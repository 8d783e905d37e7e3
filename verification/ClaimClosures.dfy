/**
 The closures that the claim store hands to RetryTx, with the variables they capture:
 `released` and `next` of ReleaseClaim, `position` of EnqueueClaim, `count` of
 ExpireOldClaims. Each is a step function of the tables, the captured variables and what the
 attempt met; ClaimStore proves that the statements of the body compute it. An attempt that
 fails part-way leaves some variables assigned; the caller of a successful call nevertheless
 sees only what the committed attempt assigned.
 */
module ClaimClosures {
  import opened Basics
  import opened Errors
  import opened Clock
  import opened ClaimTables
  import opened Retry

  // ---------------------------------------------------------------------- release

  /** The statement of a release that fails, and its error. */
  datatype ReleaseFault =
    | ReleaseWorks
    | AtRelease(error: Err)
    | AtFetch(error: Err)
    | AtPop(error: Err)
    | AtInsert(error: Err)

  /** What one attempt meets: its clock, the id it generates, the row the queue query returns, the fault. */
  datatype ReleaseDraw = ReleaseDraw(now: Time, newId: Id, next: Option<Id>, fault: ReleaseFault) {
    function Promo(): map<Id, Id> {
      if next.Some? then map[newId := next.value] else map[]
    }
  }

  datatype ReleaseVars = ReleaseVars(released: Option<Claim>, next: Option<Waiter>)

  /** The queue row behind the id that the query returned. */
  function NextRow(db: Tables, next: Option<Id>): Option<Waiter> {
    if next.Some? && next.value in db.queue then Some(db.queue[next.value]) else None
  }

  /** One run of ReleaseClaim's closure. */
  ghost function ReleaseStep(id: Id, d: ReleaseDraw, db: Tables, v: ReleaseVars): Run<Tables, ReleaseVars> {
    if d.fault.AtRelease? then Run(db, v, Wrap(d.fault.error), true)
    else if id !in db.claims then Run(db, v, NOT_FOUND, false)
    else
      var released := Some(db.claims[id].(status := Released, updatedAt := d.now));
      var step := Release(id, d.now, d.Promo());
      match d.fault
      case AtFetch(error) => Run(db, v.(released := None), Wrap(error), true)
      case AtPop(error) => Run(db, ReleaseVars(released, None), Wrap(Wrap(error)), true)
      case AtInsert(error) => Run(db, ReleaseVars(released, NextRow(db, d.next)), error, true)
      case _ =>
        if Enabled(db, step) then Run(Apply(db, step), ReleaseVars(released, NextRow(db, d.next)), Nil, false)
        else Run(db, ReleaseVars(released, NextRow(db, d.next)), UNIQUE_VIOLATION, true)
  }

  ghost function ReleaseRun(id: Id, draws: nat -> ReleaseDraw): Closure<Tables, ReleaseVars> {
    (k: nat, db: Tables, v: ReleaseVars) => ReleaseStep(id, draws(k), db, v)
  }

  lemma ReleaseIsRerunSafe(id: Id, draws: nat -> ReleaseDraw)
    ensures RerunSafe(ReleaseRun(id, draws))
  {
    var fn := ReleaseRun(id, draws);
    forall k, s, v, w
      ensures && fn(k, s, v).db == fn(k, s, w).db
              && fn(k, s, v).err == fn(k, s, w).err
              && fn(k, s, v).poisoned == fn(k, s, w).poisoned
              && (fn(k, s, v).err == Nil ==> fn(k, s, v).vars == fn(k, s, w).vars)
    {
      assert fn(k, s, v) == ReleaseStep(id, draws(k), s, v) && fn(k, s, w) == ReleaseStep(id, draws(k), s, w);
    }
  }

  /** A run of the closure that can commit has made exactly one Release step, and its variables describe it. */
  lemma CleanReleaseIsAStep(id: Id, d: ReleaseDraw, db: Tables, v: ReleaseVars)
    requires ReleaseStep(id, d, db, v).err == Nil && !ReleaseStep(id, d, db, v).poisoned
    ensures
      var run, step := ReleaseStep(id, d, db, v), Release(id, d.now, d.Promo());
      && Next(db, step, run.db)
      && id in run.db.claims && run.vars.released == Some(run.db.claims[id])
      && run.db.claims[id] == db.claims[id].(status := Released, updatedAt := d.now)
      && run.vars.next == NextRow(db, d.next)
  {
    var step := Release(id, d.now, d.Promo());
    HandOverClaims(db, AsHandOver(db, step), id);
  }

  /**
   A successful ReleaseClaim, whatever retries it took: the database changed by one Release
   step, and `released` and `next` are the row that step released and the waiter it promoted.
   */
  lemma ReleaseReportsTheCommit(
    id: Id, draws: nat -> ReleaseDraw, world: World<Tables>, db: Tables, v: ReleaseVars) returns (j: nat)
    requires RetryFrom(0, ReleaseRun(id, draws), world, db, v).err == Nil
    ensures j <= MAX_RETRIES
    ensures
      var end := RetryFrom(0, ReleaseRun(id, draws), world, db, v);
      var before, d := Drift(world, db, 0, j), draws(j);
      && Next(before, Release(id, d.now, d.Promo()), end.db)
      && id in end.db.claims && end.vars.released == Some(end.db.claims[id])
      && end.vars.next == NextRow(before, d.next)
  {
    ReleaseIsRerunSafe(id, draws);
    j := SafeClosureReportsItsCommit(ReleaseRun(id, draws), world, db, v);
    CleanReleaseIsAStep(id, draws(j), Drift(world, db, 0, j), v);
  }

  // ---------------------------------------------------------------------- enqueue

  datatype EnqueueFault = EnqueueWorks | AtQueueInsert(error: Err) | AtCount(error: Err)

  /** One run of EnqueueClaim's closure; a count that fails leaves `position` as it was. */
  ghost function EnqueueStep(id: Id, w: Waiter, fault: EnqueueFault, db: Tables, v: nat): Run<Tables, nat> {
    match fault
    case AtQueueInsert(error) => Run(db, v, Wrap(error), true)
    case AtCount(error) => Run(db, v, error, true)
    case EnqueueWorks =>
      var step := Enqueue(id, w);
      if Enabled(db, step) then Run(Apply(db, step), QueueLength(Apply(db, step), w.resource), Nil, false)
      else Run(db, v, Wrap(UNIQUE_VIOLATION), true)
  }

  ghost function EnqueueRun(id: Id, w: Waiter, faults: nat -> EnqueueFault): Closure<Tables, nat> {
    (k: nat, db: Tables, v: nat) => EnqueueStep(id, w, faults(k), db, v)
  }

  /** The error of a count that fails is an error. */
  predicate RealError(fault: EnqueueFault) {
    fault.AtCount? ==> fault.error != Nil
  }

  ghost predicate RealErrors(faults: nat -> EnqueueFault) {
    forall k :: RealError(faults(k))
  }

  lemma EnqueueIsRerunSafe(id: Id, w: Waiter, faults: nat -> EnqueueFault)
    requires RealErrors(faults)
    ensures RerunSafe(EnqueueRun(id, w, faults))
  {
    var fn := EnqueueRun(id, w, faults);
    forall k, db, v, v' | fn(k, db, v).err == Nil ensures fn(k, db, v).vars == fn(k, db, v').vars {
      assert RealError(faults(k));
    }
  }

  /** The position a successful EnqueueClaim returns was counted in the transaction that queued the waiter. */
  lemma EnqueueReportsTheCommit(
    id: Id, w: Waiter, faults: nat -> EnqueueFault, world: World<Tables>, db: Tables, v: nat) returns (j: nat)
    requires RealErrors(faults)
    requires RetryFrom(0, EnqueueRun(id, w, faults), world, db, v).err == Nil
    ensures j <= MAX_RETRIES
    ensures
      var end := RetryFrom(0, EnqueueRun(id, w, faults), world, db, v);
      && Next(Drift(world, db, 0, j), Enqueue(id, w), end.db)
      && end.vars == QueueLength(end.db, w.resource)
  {
    EnqueueIsRerunSafe(id, w, faults);
    j := SafeClosureReportsItsCommit(EnqueueRun(id, w, faults), world, db, v);
  }

  // ----------------------------------------------------------------------- expiry

  /** The phase of an expiry in which a statement fails first, and the error it gets. */
  datatype ExpireFault =
    | ExpireWorks
    | InSweep
    | AtSelect(error: Err)
    | AtExpire(error: Err)
    | InPromotion

  datatype ExpireDraw = ExpireDraw(now: Time, promo: map<Id, Id>, fault: ExpireFault)

  /**
   One run of ExpireOldClaims' closure. The code discards the error of the sweep, so the first it
   sees is that of the select in the poisoned transaction; it discards the errors of promotions
   too, and then returns nil with `count` assigned.
   */
  ghost function ExpireStep(d: ExpireDraw, db: Tables, v: nat): Run<Tables, nat> {
    var step := Expire(d.now, d.promo);
    match d.fault
    case InSweep => Run(db, v, Wrap(IN_FAILED_TX), true)
    case AtSelect(error) => Run(db, v, Wrap(error), true)
    case AtExpire(error) => Run(db, v, Wrap(error), true)
    case InPromotion => Run(db, |DueClaims(db, d.now)|, Nil, true)
    case ExpireWorks =>
      if Enabled(db, step) then Run(Apply(db, step), |DueClaims(db, d.now)|, Nil, false)
      else Run(db, |DueClaims(db, d.now)|, Nil, true)
  }

  ghost function ExpireRun(draws: nat -> ExpireDraw): Closure<Tables, nat> {
    (k: nat, db: Tables, v: nat) => ExpireStep(draws(k), db, v)
  }

  lemma ExpireIsRerunSafe(draws: nat -> ExpireDraw)
    ensures RerunSafe(ExpireRun(draws))
  {
    var fn := ExpireRun(draws);
    forall k, s, v, w
      ensures && fn(k, s, v).db == fn(k, s, w).db
              && fn(k, s, v).err == fn(k, s, w).err
              && fn(k, s, v).poisoned == fn(k, s, w).poisoned
              && (fn(k, s, v).err == Nil ==> fn(k, s, v).vars == fn(k, s, w).vars)
    {
      assert fn(k, s, v) == ExpireStep(draws(k), s, v) && fn(k, s, w) == ExpireStep(draws(k), s, w);
    }
  }

  /** A run of the closure that can commit has made exactly one Expire step and counted it. */
  lemma CleanExpiryIsAStep(d: ExpireDraw, db: Tables, v: nat)
    requires ExpireStep(d, db, v).err == Nil && !ExpireStep(d, db, v).poisoned
    ensures Next(db, Expire(d.now, d.promo), ExpireStep(d, db, v).db)
    ensures ExpireStep(d, db, v).vars == |DueClaims(db, d.now)|
  {
  }

  /** The count a successful ExpireOldClaims returns is that of the attempt that committed. */
  lemma ExpireReportsTheCommit(draws: nat -> ExpireDraw, world: World<Tables>, db: Tables, v: nat) returns (j: nat)
    requires RetryFrom(0, ExpireRun(draws), world, db, v).err == Nil
    ensures j <= MAX_RETRIES
    ensures
      var end := RetryFrom(0, ExpireRun(draws), world, db, v);
      var before, step := Drift(world, db, 0, j), Expire(draws(j).now, draws(j).promo);
      Next(before, step, end.db) && end.vars == |DueClaims(before, step.now)|
  {
    ExpireIsRerunSafe(draws);
    j := SafeClosureReportsItsCommit(ExpireRun(draws), world, db, v);
    CleanExpiryIsAStep(draws(j), Drift(world, db, 0, j), v);
  }

  /** A failure of an attempt that RetryTx can cure: of the select, of the update, or of the commit. */
  ghost predicate Curable(d: ExpireDraw, db: Tables, commitErr: Err) {
    match d.fault
    case InSweep => false
    case AtSelect(error) => IsRetryable(error)
    case AtExpire(error) => IsRetryable(error)
    case InPromotion => false
    case ExpireWorks => Enabled(db, Expire(d.now, d.promo)) && IsRetryable(commitErr)
  }

  /**
   Which attempts of an expiry are followed by another: exactly those that began, were not the
   sixth or cancelled, and met a serialization failure outside the sweep and the promotions.
   */
  lemma ExpiryIsRetriedIff(draws: nat -> ExpireDraw, world: World<Tables>, db: Tables, v: nat, k: nat)
    ensures Retried(ExpireRun(draws), world, db, v, 0, k) <==>
              && world(k).beginErr == Nil && k < MAX_RETRIES && !world(k).cancelled
              && Curable(draws(k), Drift(world, db, 0, k), world(k).commitErr)
  {
    var d, before := draws(k), Drift(world, db, 0, k);
    var run := RunAt(ExpireRun(draws), world, db, v, 0, k);
    assert run == ExpireStep(d, before, VarsAt(ExpireRun(draws), world, db, v, 0, k));
    assert !IsRetryable(Wrap(IN_FAILED_TX)) && !IsRetryable(ROLLED_BACK);
    assert !IsRetryable(Nil);
  }

  /** The call got as far as attempt k, and that attempt began. */
  ghost predicate Arrives<S, V>(fn: Closure<S, V>, world: World<S>, s: S, v: V, k: nat) {
    k <= MAX_RETRIES && world(k).beginErr == Nil && forall i :: 0 <= i < k ==> Retried(fn, world, s, v, 0, i)
  }

  /**
   An expiry whose sweep or promotions fail at any attempt ends there with an error, even if the
   failure was a serialization failure, and nothing of it is in the database.
   */
  lemma DiscardedErrorsEndTheCall(draws: nat -> ExpireDraw, world: World<Tables>, db: Tables, v: nat, k: nat)
    requires Arrives(ExpireRun(draws), world, db, v, k)
    requires draws(k).fault.InSweep? || draws(k).fault.InPromotion?
    ensures
      var end := RetryFrom(0, ExpireRun(draws), world, db, v);
      end.err != Nil && end.runs == k + 1 && end.db == Drift(world, db, 0, k)
  {
    var fn := ExpireRun(draws);
    ExpiryIsRetriedIff(draws, world, db, v, k);
    var j := AllOrNothing(0, fn, world, db, v);
    OneLastAttempt(fn, world, db, v, j, k);
    assert RunAt(fn, world, db, v, 0, k) ==
           ExpireStep(draws(k), Drift(world, db, 0, k), VarsAt(fn, world, db, v, 0, k));
  }
}
