/**
 The lock that the claim tables refine on every run, with create and enqueue in two transactions
 as the handler runs them. It is the fair lock with three more moves, all of them of a free lock:
 a late client queues, a newcomer takes it past those waiting, a dead claim's release hands it on.
 */
module DividedLock {
  import opened Basics
  import opened ClaimTables
  import opened ClaimRuns
  import opened FairLock

  datatype Move =
    | Fair(op: LockOp)
    | JoinFree(ticket: Ticket, at: nat)
    | Overtake(claim: Id)
    | Rescue(at: nat, claim: Id)

  predicate MoveNext(l: Lock, m: Move, after: Lock) {
    match m
    case Fair(op) => LockNext(l, op, after)
    case JoinFree(ticket, at) =>
      && l.holder.None? && at <= |l.waiters|
      && after == Lock(None, InsertAt(l.waiters, at, ticket)) && InOrder(after.waiters)
    case Overtake(claim) => l.holder.None? && l.waiters != [] && after == Lock(Some(claim), l.waiters)
    case Rescue(at, claim) =>
      && l.holder.None? && at < |l.waiters| && l.waiters[at].key == l.waiters[0].key
      && after == Lock(Some(claim), RemoveAt(l.waiters, at))
  }

  /** Which kind of move a transaction is, seen from resource r: an unfair one only while r is free. */
  ghost predicate ExplainsMove(db: Tables, step: Step, r: string, l: Lock, m: Move) {
    match m
    case Fair(op) => Explains(db, step, r, l, op)
    case JoinFree(ticket, _) =>
      step.Enqueue? && step.waiter.resource == r && ticket == Ticket(step.id, Key(step.waiter)) && !Held(db, r)
    case Overtake(claim) => step.Create? && step.claim.resource == r && claim == step.id && !Guarded(db, r)
    case Rescue(at, claim) =>
      && step.Release? && step.id in db.claims && db.claims[step.id].resource == r && !Guarded(db, r)
      && at < |l.waiters| && claim in step.promo && step.promo[claim] == l.waiters[at].id
  }

  lemma HolderShown(db: Tables, r: string, l: Lock)
    requires Shows(db, r, l)
    ensures l.holder.None? <==> !Held(db, r)
  {
  }

  lemma WaitersShown(db: Tables, r: string, l: Lock)
    requires Shows(db, r, l)
    ensures l.waiters != [] <==> exists w :: Waiting(db, r, w)
  {
    if l.waiters != [] { assert IsRow(db, r, l.waiters[0]); }
    if w :| Waiting(db, r, w) { assert Listed(l.waiters, w); }
  }

  /** An enqueue while the resource is free. */
  lemma LateEnqueueShown(db: Tables, step: Step, r: string, l: Lock) returns (m: Move, after: Lock)
    requires step.Enqueue? && Enabled(db, step) && step.waiter.resource == r && Shows(db, r, l) && !Held(db, r)
    ensures ExplainsMove(db, step, r, l, m) && MoveNext(l, m, after) && Shows(Apply(db, step), r, after)
  {
    var t := Ticket(step.id, Key(step.waiter));
    var at := InsertPosition(l.waiters, t);
    HolderShown(db, r, l);
    m, after := JoinFree(t, at), Lock(None, InsertAt(l.waiters, at, t));
    JoinQueueShown(db, r, step.id, step.waiter, l.waiters, at);
    SameHolderShown(db, Apply(db, step), r, l.holder);
  }

  /** A direct claim on a free resource with waiters. */
  lemma OvertakingShown(db: Tables, step: Step, r: string, l: Lock) returns (m: Move, after: Lock)
    requires step.Create? && Enabled(db, step) && step.claim.resource == r && Shows(db, r, l) && !Guarded(db, r)
    ensures ExplainsMove(db, step, r, l, m) && MoveNext(l, m, after) && Shows(Apply(db, step), r, after)
  {
    HolderShown(db, r, l);
    WaitersShown(db, r, l);
    m, after := Overtake(step.id), Lock(Some(step.id), l.waiters);
    SameQueueShown(db, Apply(db, step), r, l.waiters);
    assert ActiveOn(Apply(db, step), r, step.id);
  }

  lemma {:induction false} NothingDropped(ws: seq<Ticket>)
    ensures Dropped(ws, {}) == ws
  {
    if ws != [] { NothingDropped(ws[1..]); }
  }

  /** The release of a dead claim on a free resource with waiters hands it on. */
  lemma RescueShown(db: Tables, step: Step, r: string, l: Lock, c: Id) returns (m: Move, after: Lock)
    requires step.Release? && Enabled(db, step) && Shows(db, r, l) && !Held(db, r)
    requires PromotesOn(db, AsHandOver(db, step), r, c)
    ensures ExplainsMove(db, step, r, l, m) && MoveNext(l, m, after) && Shows(Apply(db, step), r, after)
  {
    var h := AsHandOver(db, step);
    PromotedOnFreed(db, h, c);
    assert Waiting(db, r, h.promo[c]);
    HolderShown(db, r, l);
    var at := PromotedShown(db, h, r, l, c);
    NothingDropped(l.waiters);
    m, after := Rescue(at, c), Lock(Some(c), RemoveAt(l.waiters, at));
    HandOverActive(db, h, r, c);
  }

  /** An expiry promotes nobody on a resource that nobody holds: it has no due claim there. */
  lemma ExpiryLeavesTheFree(db: Tables, step: Step, r: string)
    requires step.Expire? && Enabled(db, step) && !Held(db, r)
    ensures forall c :: !PromotesOn(db, AsHandOver(db, step), r, c)
  {
    var h := AsHandOver(db, step);
    forall c ensures !PromotesOn(db, h, r, c) {
      if PromotesOn(db, h, r, c) {
        PromotedOnFreed(db, h, c);
        var id :| id in h.ended && db.claims[id].resource == r;
        assert ActiveOn(db, r, id);
        assert false;
      }
    }
  }

  /** A release or expiry on a resource that is free while somebody waits. */
  lemma UnguardedHandOver(db: Tables, step: Step, r: string, l: Lock) returns (m: Move, after: Lock)
    requires step.Release? || step.Expire?
    requires Inv(db) && Enabled(db, step) && Shows(db, r, l) && !Held(db, r)
    ensures ExplainsMove(db, step, r, l, m) && MoveNext(l, m, after) && Shows(Apply(db, step), r, after)
  {
    var h := AsHandOver(db, step);
    if step.Expire? { ExpiryLeavesTheFree(db, step, r); }
    if c :| PromotesOn(db, h, r, c) {
      m, after := RescueShown(db, step, r, l, c);
    } else {
      var op;
      op, after := NoGrantShown(db, h, r, l);
      m := Fair(op);
    }
  }

  /** Every committed transaction, whatever ran before it, is one move of the divided lock on every resource. */
  lemma StepSimulatesDividedLock(db: Tables, step: Step, r: string, l: Lock) returns (m: Move, after: Lock)
    requires Inv(db) && Enabled(db, step) && Shows(db, r, l)
    ensures ExplainsMove(db, step, r, l, m) && MoveNext(l, m, after) && Shows(Apply(db, step), r, after)
  {
    if step.Enqueue? && step.waiter.resource == r && !Held(db, r) {
      m, after := LateEnqueueShown(db, step, r, l);
    } else if Guarded(db, r) {
      var op;
      op, after := GuardedStepSimulatesLock(db, step, r, l);
      m := Fair(op);
    } else {
      m, after := UnguardedStepShown(db, step, r, l);
    }
  }

  lemma UnguardedStepShown(db: Tables, step: Step, r: string, l: Lock) returns (m: Move, after: Lock)
    requires Inv(db) && Enabled(db, step) && Shows(db, r, l) && !Guarded(db, r)
    requires !(step.Enqueue? && step.waiter.resource == r)
    ensures ExplainsMove(db, step, r, l, m) && MoveNext(l, m, after) && Shows(Apply(db, step), r, after)
  {
    var op;
    match step
    case Create(id, claim) =>
      if claim.resource == r {
        m, after := OvertakingShown(db, step, r, l);
      } else {
        op, after := CreateShown(db, id, claim, r, l);
        m := Fair(op);
      }
    case Enqueue(_, _) =>
      op, after := EnqueueShown(db, step, r, l);
      m := Fair(op);
    case Renew(_, _, _) =>
      RenewShown(db, step, r, l);
      m, after := Fair(Idle), l;
    case _ => m, after := UnguardedHandOver(db, step, r, l);
  }

  // ------------------------------------------------------------------------- runs

  ghost predicate MoveSimulated(db: Tables, step: Step, after: Tables, r: string, l: Lock, m: Move, l': Lock) {
    Shows(db, r, l) && Shows(after, r, l') && ExplainsMove(db, step, r, l, m) && MoveNext(l, m, l')
  }

  lemma NextMoveSimulated(db: Tables, step: Step, after: Tables, r: string, l: Lock) returns (m: Move, l': Lock)
    requires Inv(db) && Next(db, step, after) && Shows(db, r, l)
    ensures MoveSimulated(db, step, after, r, l, m, l') && Shows(after, r, l')
  {
    m, l' := StepSimulatesDividedLock(db, step, r, l);
  }

  /** One lock for each of the first n + 1 states, one move for each of the first n steps. */
  ghost predicate MoveTraces(
    dbs: seq<Tables>, steps: seq<Step>, r: string, n: nat, locks: seq<Lock>, moves: seq<Move>)
    requires n <= |steps| && |dbs| == |steps| + 1
  {
    && |locks| == n + 1 && |moves| == n && locks[0] == Lock(None, []) && Shows(dbs[n], r, locks[n])
    && forall i :: 0 <= i < n ==> MoveSimulated(dbs[i], steps[i], dbs[i + 1], r, locks[i], moves[i], locks[i + 1])
  }

  lemma MoveAt(dbs: seq<Tables>, steps: seq<Step>, r: string, n: nat, l: Lock) returns (m: Move, l': Lock)
    requires Behaviour(dbs, steps) && n < |steps| && dbs[0] == EMPTY && Shows(dbs[n], r, l)
    ensures MoveSimulated(dbs[n], steps[n], dbs[n + 1], r, l, m, l') && Shows(dbs[n + 1], r, l')
  {
    InvAlways(dbs, steps, n);
    m, l' := NextMoveSimulated(dbs[n], steps[n], dbs[n + 1], r, l);
  }

  lemma MoveTraceOneMore(
    dbs: seq<Tables>, steps: seq<Step>, r: string, n: nat, locks: seq<Lock>, moves: seq<Move>, m: Move, l': Lock)
    requires n < |steps| && |dbs| == |steps| + 1 && MoveTraces(dbs, steps, r, n, locks, moves)
    requires MoveSimulated(dbs[n], steps[n], dbs[n + 1], r, locks[n], m, l') && Shows(dbs[n + 1], r, l')
    ensures MoveTraces(dbs, steps, r, n + 1, locks + [l'], moves + [m])
  {
  }

  /** Every run of the store from empty tables is, on each resource, a run of the divided lock. */
  lemma {:induction false} RunRefinesDividedLock(dbs: seq<Tables>, steps: seq<Step>, r: string, n: nat)
    returns (locks: seq<Lock>, moves: seq<Move>)
    requires Behaviour(dbs, steps) && n <= |steps| && dbs[0] == EMPTY
    ensures MoveTraces(dbs, steps, r, n, locks, moves)
  {
    if n == 0 {
      locks, moves := [Lock(None, [])], [];
      EmptyShown(r);
    } else {
      var before, made := RunRefinesDividedLock(dbs, steps, r, n - 1);
      var m, after := MoveAt(dbs, steps, r, n - 1, before[n - 1]);
      MoveTraceOneMore(dbs, steps, r, n - 1, before, made, m, after);
      locks, moves := before + [after], made + [m];
    }
  }

  /** Without a late join no move of a run is unfair: the divided lock is then the fair one. */
  lemma {:induction false} UnfairnessNeedsALateJoin(locks: seq<Lock>, moves: seq<Move>, n: nat)
    requires |locks| == |moves| + 1 && n <= |moves| && locks[0] == Lock(None, [])
    requires forall i :: 0 <= i < |moves| ==> MoveNext(locks[i], moves[i], locks[i + 1])
    requires forall i :: 0 <= i < n ==> !moves[i].JoinFree?
    ensures locks[n].holder.None? ==> locks[n].waiters == []
    ensures forall i :: 0 <= i < n ==> moves[i].Fair?
  {
    if n > 0 {
      UnfairnessNeedsALateJoin(locks, moves, n - 1);
      assert MoveNext(locks[n - 1], moves[n - 1], locks[n]);
      FairKeepsGuarded(locks[n - 1], moves[n - 1], locks[n]);
    }
  }

  lemma FairKeepsGuarded(l: Lock, m: Move, after: Lock)
    requires MoveNext(l, m, after) && !m.JoinFree? && (l.holder.None? ==> l.waiters == [])
    ensures m.Fair? && (after.holder.None? ==> after.waiters == [])
  {
    if m.Fair? && m.op.Pass? && l.waiters == [] { assert Dropped([], m.op.gone) == []; }
  }
}
