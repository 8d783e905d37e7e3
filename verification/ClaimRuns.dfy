/**
 Safety of the claim protocol over whole runs: any interleaving of committed transactions,
 whichever handlers, webhooks or background sweeps issued them.
 */
module ClaimRuns {
  import opened Clock
  import opened ClaimTables

  /** dbs[i] steps to dbs[i + 1] by steps[i]. */
  ghost predicate Behaviour(dbs: seq<Tables>, steps: seq<Step>) {
    && |dbs| == |steps| + 1
    && forall i :: 0 <= i < |steps| ==> Next(dbs[i], steps[i], dbs[i + 1])
  }

  /** b can be reached from a by committed transactions. */
  ghost predicate Reaches(a: Tables, b: Tables) {
    exists dbs: seq<Tables>, steps :: Behaviour(dbs, steps) && dbs[0] == a && dbs[|steps|] == b
  }

  /** What the other clients do to the tables between two transactions of one client. */
  type Others = Tables -> Tables

  ghost predicate Lawful(others: Others) {
    forall db :: Reaches(db, others(db))
  }

  lemma ReachesItself(a: Tables)
    ensures Reaches(a, a)
  {
    var dbs: seq<Tables>, steps: seq<Step> := [a], [];
    assert Behaviour(dbs, steps) && dbs[|steps|] == a;
  }

  lemma {:induction false} InvAlways(dbs: seq<Tables>, steps: seq<Step>, i: nat)
    requires Behaviour(dbs, steps) && Inv(dbs[0]) && i < |dbs|
    ensures Inv(dbs[i])
  {
    if i > 0 {
      InvAlways(dbs, steps, i - 1);
      assert Next(dbs[i - 1], steps[i - 1], dbs[i]);
      StepKeepsInv(dbs[i - 1], steps[i - 1]);
    }
  }

  // ------------------------------------------------------------ life of a claim

  /** Allowed moves of one claim's status in one step. */
  predicate StatusMove(a: Status, b: Status) {
    a == b || a.Active? || (a == Expired && b == Released)
  }

  /** What a claim says, apart from its status and deadlines: who holds what, and since when. */
  predicate SameGrant(a: Claim, b: Claim) {
    && a.resource == b.resource && a.agent == b.agent && a.kind == b.kind && a.meta == b.meta
    && a.claimedAt == b.claimedAt
  }

  /** One step keeps a claim's identity and moves its status forward only. */
  lemma ClaimMovesForward(db: Tables, step: Step, id: Id)
    requires Enabled(db, step) && id in db.claims
    ensures
      var after := Apply(db, step);
      && id in after.claims
      && SameGrant(after.claims[id], db.claims[id])
      && StatusMove(db.claims[id].status, after.claims[id].status)
  {
    if step.Release? || step.Expire? {
      HandOverClaims(db, AsHandOver(db, step), id);
    }
  }

  /** What a claim says never changes and its status only moves forward. */
  lemma {:induction false} ClaimLife(dbs: seq<Tables>, steps: seq<Step>, id: Id, i: nat, j: nat)
    requires Behaviour(dbs, steps) && i <= j < |dbs| && id in dbs[i].claims
    ensures id in dbs[j].claims
    ensures SameGrant(dbs[j].claims[id], dbs[i].claims[id])
    ensures StatusMove(dbs[i].claims[id].status, dbs[j].claims[id].status)
    ensures dbs[j].claims[id].status.Active? ==> dbs[i].claims[id].status.Active?
    decreases j
  {
    if i < j {
      ClaimLife(dbs, steps, id, i, j - 1);
      assert Next(dbs[j - 1], steps[j - 1], dbs[j]);
      ClaimMovesForward(dbs[j - 1], steps[j - 1], id);
    }
  }

  /** A claim that exists keeps its agent, whatever other clients do. */
  lemma OwnerSurvives(a: Tables, b: Tables, id: Id)
    requires Reaches(a, b) && id in a.claims
    ensures id in b.claims && b.claims[id].agent == a.claims[id].agent
  {
    var dbs: seq<Tables>, steps :| Behaviour(dbs, steps) && dbs[0] == a && dbs[|steps|] == b;
    ClaimLife(dbs, steps, id, 0, |steps|);
  }

  /**
   Mutual exclusion over time: a claim's active period is one interval, and no other claim
   on the resource is active inside it.
   */
  lemma ActivePeriodsAreDisjoint(dbs: seq<Tables>, steps: seq<Step>, r: string, c: Id, i: nat, j: nat, k: nat)
    requires Behaviour(dbs, steps) && Inv(dbs[0]) && i <= j <= k < |dbs|
    requires ActiveOn(dbs[i], r, c) && ActiveOn(dbs[k], r, c)
    ensures forall d :: ActiveOn(dbs[j], r, d) <==> d == c
  {
    ClaimLife(dbs, steps, c, i, j);
    ClaimLife(dbs, steps, c, j, k);
    InvAlways(dbs, steps, j);
    assert ActiveOn(dbs[j], r, c);
  }

  // --------------------------------------------------------- check, then release

  /** A release changes no claim but its own and the one it creates. */
  lemma ReleaseTouchesOneClaim(db: Tables, id: Id, now: Time, promo: map<Id, Id>, other: Id)
    requires Enabled(db, Release(id, now, promo)) && other in db.claims && other != id
    ensures
      var after := Apply(db, Release(id, now, promo));
      other in after.claims && after.claims[other] == db.claims[other]
  {
    HandOverClaims(db, AsHandOver(db, Release(id, now, promo)), other);
  }

  /**
   An agent whose ownership of id was checked at i and who releases id at a later point j
   still owns id there, and ends nobody else's claim, whatever ran in between: if id had
   meanwhile expired and the resource passed on, the new holder keeps it.
   */
  lemma CheckedReleaseIsSafe(dbs: seq<Tables>, steps: seq<Step>, id: Id, agent: string, i: nat, j: nat)
    requires Behaviour(dbs, steps) && i <= j < |steps|
    requires id in dbs[i].claims && dbs[i].claims[id].agent == agent
    requires steps[j].Release? && steps[j].id == id
    ensures id in dbs[j].claims && dbs[j].claims[id].agent == agent
    ensures forall r, d :: ActiveOn(dbs[j], r, d) && d != id ==> ActiveOn(dbs[j + 1], r, d)
    ensures forall d :: d in dbs[j].claims && d != id ==>
              d in dbs[j + 1].claims && dbs[j + 1].claims[d] == dbs[j].claims[d]
  {
    ClaimLife(dbs, steps, id, i, j);
    assert Next(dbs[j], steps[j], dbs[j + 1]);
    forall d | d in dbs[j].claims && d != id
      ensures d in dbs[j + 1].claims && dbs[j + 1].claims[d] == dbs[j].claims[d]
    {
      ReleaseTouchesOneClaim(dbs[j], id, steps[j].now, steps[j].promo, d);
    }
  }

  // -------------------------------------------------------------- when claims expire

  /** Expire ends a claim only if its expiry is less than a full second away, and only active claims. */
  lemma ExpireIsNotEarly(db: Tables, now: Time, promo: map<Id, Id>, id: Id)
    requires Enabled(db, Expire(now, promo)) && id in db.claims
    requires db.claims[id].expiresAt.FourDigitYear() && now.FourDigitYear()
    requires Apply(db, Expire(now, promo)).claims[id].status != db.claims[id].status
    ensures db.claims[id].status == Active && Before(db.claims[id].expiresAt, Plus(now, 1))
  {
    HandOverClaims(db, AsHandOver(db, Expire(now, promo)), id);
    TextPastIsNearlyPast(db.claims[id].expiresAt, now);
  }

  /** Expire ends every active claim whose expiry lies in an earlier second than now. */
  lemma ExpireIsNotLate(db: Tables, now: Time, promo: map<Id, Id>, id: Id)
    requires Enabled(db, Expire(now, promo)) && id in db.claims && db.claims[id].status.Active?
    requires db.claims[id].expiresAt.FourDigitYear() && now.FourDigitYear()
    requires SecondBefore(db.claims[id].expiresAt, now)
    ensures Apply(db, Expire(now, promo)).claims[id].status == Expired
  {
    TextOrderAcrossSeconds(db.claims[id].expiresAt, now);
    HandOverClaims(db, AsHandOver(db, Expire(now, promo)), id);
  }

  /** An active claim is ended by an expiry exactly when it is over in time order, unless the fractions clash. */
  lemma ExpireIsExact(db: Tables, now: Time, promo: map<Id, Id>, id: Id)
    requires Enabled(db, Expire(now, promo)) && id in db.claims && db.claims[id].status.Active?
    requires db.claims[id].expiresAt.FourDigitYear() && now.FourDigitYear()
    ensures
      (Apply(db, Expire(now, promo)).claims[id].status == Expired <==> Before(db.claims[id].expiresAt, now))
      <==> !FractionClash(db.claims[id].expiresAt, now)
  {
    TextOrderIsTimeOrder(db.claims[id].expiresAt, now);
    HandOverClaims(db, AsHandOver(db, Expire(now, promo)), id);
  }

  // -------------------------------------------------- what the steps write, field by field

  /** The claim a promoted waiter gets: the waiter's own request, active from now for the waiter's lifetime. */
  lemma PromotedClaimIs(db: Tables, step: Step, after: Tables, c: Id)
    requires (step.Release? || step.Expire?) && Next(db, step, after) && c in step.promo
    ensures step.promo[c] in db.queue && c in after.claims && c !in db.claims
    ensures
      var w, claim := db.queue[step.promo[c]], after.claims[c];
      && claim.kind == w.kind && claim.resource == w.resource && claim.agent == w.agent && claim.meta == w.meta
      && claim.status == Active && claim.claimedAt == step.now && claim.updatedAt == step.now
      && claim.expiresAt == Plus(step.now, w.expiresInSec)
  {
    HandOverClaims(db, AsHandOver(db, step), c);
  }

  /** An expiry removes a waiter whose lifetime is over and grants it nothing; any other stays, or is granted. */
  lemma ExpirySweepsByTheClock(db: Tables, now: Time, promo: map<Id, Id>, after: Tables, w: Id)
    requires Next(db, Expire(now, promo), after) && w in db.queue
    ensures
      var granted := exists c :: c in promo && promo[c] == w;
      if Before(Plus(db.queue[w].queuedAt, db.queue[w].expiresInSec), now) then w !in after.queue && !granted
      else (w in after.queue <==> !granted) && (w in after.queue ==> after.queue[w] == db.queue[w])
  {
    HandOverQueue(db, AsHandOver(db, Expire(now, promo)), w);
  }

  /** A release sweeps nobody: a waiter stays with its row, or is granted. */
  lemma ReleaseSweepsNobody(db: Tables, id: Id, now: Time, promo: map<Id, Id>, after: Tables, w: Id)
    requires Next(db, Release(id, now, promo), after) && w in db.queue
    ensures
      var granted := exists c :: c in promo && promo[c] == w;
      (w in after.queue <==> !granted) && (w in after.queue ==> after.queue[w] == db.queue[w])
  {
    HandOverQueue(db, AsHandOver(db, Release(id, now, promo)), w);
  }

  /** Create, Enqueue and Renew write the one row they name, and nothing else. */
  lemma PlainStepsWriteOneRow(db: Tables, step: Step, after: Tables)
    requires Next(db, step, after) && !step.Release? && !step.Expire?
    ensures step.Create? ==> after.claims == db.claims[step.id := step.claim] && after.queue == db.queue
    ensures step.Enqueue? ==> after.claims == db.claims && after.queue == db.queue[step.id := step.waiter]
    ensures step.Renew? ==>
              && step.id in db.claims && db.claims[step.id].status == Active && after.queue == db.queue
              && after.claims ==
                 db.claims[step.id := db.claims[step.id].(expiresAt := step.expiresAt, updatedAt := step.now)]
  {
  }

  /** A release or expiry writes status and update time of the claims it ends, and leaves every other claim alone. */
  lemma EndingWritesStatusAndTime(db: Tables, step: Step, after: Tables, id: Id)
    requires (step.Release? || step.Expire?) && Next(db, step, after) && id in db.claims
    ensures id in after.claims
    ensures
      var ends := if step.Release? then id == step.id
                  else db.claims[id].status == Active && Less(Text(db.claims[id].expiresAt), Text(step.now));
      after.claims[id] ==
        if !ends then db.claims[id]
        else db.claims[id].(status := if step.Release? then Released else Expired, updatedAt := step.now)
  {
    HandOverClaims(db, AsHandOver(db, step), id);
  }

  /** Only a renewal moves a deadline. */
  lemma DeadlineMovesByRenewal(db: Tables, step: Step, after: Tables, id: Id)
    requires Next(db, step, after) && id in db.claims
    ensures id in after.claims
    ensures after.claims[id].expiresAt ==
            if step.Renew? && step.id == id then step.expiresAt else db.claims[id].expiresAt
  {
    if step.Release? || step.Expire? { EndingWritesStatusAndTime(db, step, after, id); }
  }

  /** Without a renewal in between, a claim keeps its deadline. */
  lemma {:induction false} DeadlineStays(dbs: seq<Tables>, steps: seq<Step>, id: Id, i: nat, j: nat)
    requires Behaviour(dbs, steps) && i <= j < |dbs| && id in dbs[i].claims
    requires forall k :: i <= k < j ==> !(steps[k].Renew? && steps[k].id == id)
    ensures id in dbs[j].claims && dbs[j].claims[id].expiresAt == dbs[i].claims[id].expiresAt
    decreases j
  {
    if i < j {
      DeadlineStays(dbs, steps, id, i, j - 1);
      assert Next(dbs[j - 1], steps[j - 1], dbs[j]);
      DeadlineMovesByRenewal(dbs[j - 1], steps[j - 1], dbs[j], id);
    }
  }

  /**
   A renewal until t holds: until the next renewal of the claim, no expiry ends it a full second or
   more before t, and one in a later second than t does, if nothing else ended it before.
   */
  lemma RenewalHolds(dbs: seq<Tables>, steps: seq<Step>, id: Id, i: nat, j: nat)
    requires Behaviour(dbs, steps) && i < j < |steps|
    requires steps[i].Renew? && steps[i].id == id && steps[j].Expire?
    requires forall k :: i < k < j ==> !(steps[k].Renew? && steps[k].id == id)
    requires steps[i].expiresAt.FourDigitYear() && steps[j].now.FourDigitYear()
    ensures id in dbs[j].claims && id in dbs[j + 1].claims
    ensures dbs[j + 1].claims[id].status != dbs[j].claims[id].status ==>
              Before(steps[i].expiresAt, Plus(steps[j].now, 1))
    ensures SecondBefore(steps[i].expiresAt, steps[j].now) ==> dbs[j + 1].claims[id].status != Active
  {
    assert Next(dbs[i], steps[i], dbs[i + 1]) && Next(dbs[j], steps[j], dbs[j + 1]);
    RenewalSetsTheDeadline(dbs[i], steps[i], dbs[i + 1]);
    DeadlineStays(dbs, steps, id, i + 1, j);
    ExpiryByDeadline(dbs[j], steps[j], dbs[j + 1], id);
  }

  lemma RenewalSetsTheDeadline(db: Tables, step: Step, after: Tables)
    requires Next(db, step, after) && step.Renew?
    ensures step.id in after.claims && after.claims[step.id].expiresAt == step.expiresAt
  {
  }

  lemma ExpiryByDeadline(db: Tables, step: Step, after: Tables, id: Id)
    requires Next(db, step, after) && step.Expire? && id in db.claims
    requires db.claims[id].expiresAt.FourDigitYear() && step.now.FourDigitYear()
    ensures id in after.claims
    ensures after.claims[id].status != db.claims[id].status ==> Before(db.claims[id].expiresAt, Plus(step.now, 1))
    ensures SecondBefore(db.claims[id].expiresAt, step.now) ==> after.claims[id].status != Active
  {
    EndingWritesStatusAndTime(db, step, after, id);
    if Less(Text(db.claims[id].expiresAt), Text(step.now)) { TextPastIsNearlyPast(db.claims[id].expiresAt, step.now); }
    if SecondBefore(db.claims[id].expiresAt, step.now) { TextOrderAcrossSeconds(db.claims[id].expiresAt, step.now); }
  }

  // ------------------------------------------------------------ waiters imply a holder

  lemma HandOverKeepsHeld(db: Tables, h: HandOver, w: Id)
    requires Hands(db, h) && w in HandedOver(db, h).queue && w in db.queue && Held(db, db.queue[w].resource)
    ensures Held(HandedOver(db, h), db.queue[w].resource)
  {
    var r := db.queue[w].resource;
    HandOverQueue(db, h, w);
    var id :| ActiveOn(db, r, id);
    if id in h.ended {
      var c := FreedIsHandedOn(db, h, w);
      HandOverActive(db, h, r, c);
    } else {
      HandOverActive(db, h, r, id);
    }
  }

  lemma HandOverKeepsNoOrphans(db: Tables, h: HandOver)
    requires NoOrphans(db) && Hands(db, h)
    ensures NoOrphans(HandedOver(db, h))
  {
    var after := HandedOver(db, h);
    forall w | w in after.queue ensures Held(after, after.queue[w].resource) {
      HandOverQueue(db, h, w);
      HandOverKeepsHeld(db, h, w);
    }
  }

  /** "Waiters imply a holder" survives a step exactly when the step is not an enqueue on a free resource. */
  lemma OnlyALateEnqueueStrands(db: Tables, step: Step)
    requires NoOrphans(db) && Enabled(db, step)
    ensures NoOrphans(Apply(db, step)) <==> !(step.Enqueue? && !Held(db, step.waiter.resource))
  {
    var after := Apply(db, step);
    match step
    case Release(_, _, _) => HandOverKeepsNoOrphans(db, AsHandOver(db, step));
    case Expire(_, _) => HandOverKeepsNoOrphans(db, AsHandOver(db, step));
    case Create(id, claim) =>
      forall w | w in after.queue ensures Held(after, after.queue[w].resource) {
        var c :| ActiveOn(db, db.queue[w].resource, c);
        assert ActiveOn(after, db.queue[w].resource, c);
      }
    case Renew(id, _, _) =>
      forall w | w in after.queue ensures Held(after, after.queue[w].resource) {
        var c :| ActiveOn(db, db.queue[w].resource, c);
        assert ActiveOn(after, db.queue[w].resource, c);
      }
    case Enqueue(id, waiter) =>
      assert forall r, c :: ActiveOn(after, r, c) <==> ActiveOn(db, r, c);
      if Held(db, waiter.resource) {
        forall w | w in after.queue ensures Held(after, after.queue[w].resource) {
          var c :| ActiveOn(db, after.queue[w].resource, c);
          assert ActiveOn(after, after.queue[w].resource, c);
        }
      } else {
        assert after.queue[id].resource == waiter.resource;
        assert !Held(after, waiter.resource);
      }
  }

  /** create-then-enqueue as one step: an enqueue happens only where the resource is held. */
  ghost predicate Undivided(db: Tables, step: Step) {
    step.Enqueue? ==> Held(db, step.waiter.resource)
  }

  lemma {:induction false} NoOrphansAlways(dbs: seq<Tables>, steps: seq<Step>, i: nat)
    requires Behaviour(dbs, steps) && NoOrphans(dbs[0]) && i < |dbs|
    requires forall k :: 0 <= k < |steps| ==> Undivided(dbs[k], steps[k])
    ensures NoOrphans(dbs[i])
  {
    if i > 0 {
      NoOrphansAlways(dbs, steps, i - 1);
      assert Next(dbs[i - 1], steps[i - 1], dbs[i]);
      assert Undivided(dbs[i - 1], steps[i - 1]);
      OnlyALateEnqueueStrands(dbs[i - 1], steps[i - 1]);
    }
  }

  // ------------------------------------------------------------- fate of a waiter

  ghost predicate GrantedBy(db: Tables, step: Step, w: Id) {
    (step.Release? || step.Expire?) && w in step.promo.Values
  }

  ghost predicate SweptBy(db: Tables, step: Step, w: Id) {
    step.Expire? && w in Swept(db, step.now)
  }

  /** The step ended a claim on r: it released one, dead or alive, or expired the active one. */
  ghost predicate EndsClaimOn(db: Tables, step: Step, r: string) {
    || (step.Release? && step.id in db.claims && db.claims[step.id].resource == r)
    || (step.Expire? && exists id :: id in DueClaims(db, step.now) && ActiveOn(db, r, id))
  }

  lemma HandOverGrantsWhereItEnds(db: Tables, h: HandOver, w: Id)
    requires Hands(db, h) && w in db.queue && w in h.promo.Values
    ensures exists id :: id in h.ended && id in db.claims && db.claims[id].resource == db.queue[w].resource
    ensures Held(HandedOver(db, h), db.queue[w].resource)
  {
    var c :| c in h.promo && h.promo[c] == w;
    PromotedOnFreed(db, h, c);
    HandOverActive(db, h, db.queue[w].resource, c);
  }

  /** A queued waiter keeps its row until the step that grants it or the sweep that finds it stale. */
  lemma WaiterStaysUntilGrantedOrSwept(db: Tables, step: Step, w: Id)
    requires Enabled(db, step) && w in db.queue
    ensures
      var after := Apply(db, step);
      && (w in after.queue <==> !GrantedBy(db, step, w) && !SweptBy(db, step, w))
      && (w in after.queue ==> after.queue[w] == db.queue[w])
      && !(GrantedBy(db, step, w) && SweptBy(db, step, w))
  {
    if step.Release? || step.Expire? {
      HandOverQueue(db, AsHandOver(db, step), w);
    }
  }

  /** A grant follows from ending a claim on the waiter's resource, and leaves the resource held. */
  lemma GrantFollowsAnEnding(db: Tables, step: Step, w: Id)
    requires Enabled(db, step) && w in db.queue && GrantedBy(db, step, w)
    ensures EndsClaimOn(db, step, db.queue[w].resource)
    ensures Held(Apply(db, step), db.queue[w].resource)
  {
    HandOverGrantsWhereItEnds(db, AsHandOver(db, step), w);
  }

  /** An expiry never grants a waiter whose lifetime is over: its own sweep comes first. */
  lemma ExpiryGrantsNobodyStale(db: Tables, now: Time, promo: map<Id, Id>, w: Id)
    requires Enabled(db, Expire(now, promo)) && w in db.queue && GrantedBy(db, Expire(now, promo), w)
    ensures !Stale(db.queue[w], now)
  {
    HandOverQueue(db, AsHandOver(db, Expire(now, promo)), w);
  }

  /** The step takes w out of the queue for one of the two lawful reasons. */
  ghost predicate Departs(db: Tables, step: Step, w: Id) {
    && w in db.queue
    && (|| (GrantedBy(db, step, w) && EndsClaimOn(db, step, db.queue[w].resource))
        || (step.Expire? && Before(Plus(db.queue[w].queuedAt, db.queue[w].expiresInSec), step.now)))
  }

  lemma WaiterStaysOrDeparts(db: Tables, step: Step, after: Tables, w: Id)
    requires Next(db, step, after) && w in db.queue
    ensures if w in after.queue then after.queue[w] == db.queue[w] else Departs(db, step, w)
  {
    WaiterStaysUntilGrantedOrSwept(db, step, w);
    if GrantedBy(db, step, w) { GrantFollowsAnEnding(db, step, w); }
  }

  /** The first k from i at which w is about to leave, or j if it never leaves before j. */
  lemma {:induction false} FirstExit(queues: seq<map<Id, Waiter>>, w: Id, i: nat, j: nat) returns (k: nat)
    requires i <= j < |queues| && w in queues[i]
    requires forall m :: i <= m < j && w in queues[m] && w in queues[m + 1] ==> queues[m + 1][w] == queues[m][w]
    ensures i <= k <= j
    ensures forall m :: i <= m <= k ==> w in queues[m] && queues[m][w] == queues[i][w]
    ensures k < j ==> w !in queues[k + 1]
    decreases j - i
  {
    k := i;
    if i < j && w in queues[i + 1] {
      k := FirstExit(queues, w, i + 1, j);
    }
  }

  /**
   Over a run, a waiter keeps its place and its row up to some point k; if k is not the end,
   step k granted it by ending a claim on its resource, or swept it after its lifetime. This
   holds for stranded waiters too.
   */
  lemma FateOfAWaiter(dbs: seq<Tables>, steps: seq<Step>, w: Id, i: nat, j: nat) returns (k: nat)
    requires Behaviour(dbs, steps) && i <= j < |dbs| && w in dbs[i].queue
    ensures i <= k <= j
    ensures forall m :: i <= m <= k ==> w in dbs[m].queue && dbs[m].queue[w] == dbs[i].queue[w]
    ensures k < j ==> w !in dbs[k + 1].queue && Departs(dbs[k], steps[k], w)
  {
    var queues := seq(|dbs|, m requires 0 <= m < |dbs| => dbs[m].queue);
    forall m | i <= m < j && w in queues[m] && w in queues[m + 1] ensures queues[m + 1][w] == queues[m][w] {
      WaiterStaysOrDeparts(dbs[m], steps[m], dbs[m + 1], w);
    }
    k := FirstExit(queues, w, i, j);
    assert forall m :: i <= m <= k ==> queues[m] == dbs[m].queue;
    if k < j {
      assert queues[k + 1] == dbs[k + 1].queue;
      WaiterStaysOrDeparts(dbs[k], steps[k], dbs[k + 1], w);
    }
  }

  /** A free resource becomes held only by a direct claim or by granting one of its waiters. */
  lemma HeldOnlyBy(db: Tables, step: Step, r: string)
    requires Enabled(db, step) && !Held(db, r) && Held(Apply(db, step), r)
    ensures
      || (step.Create? && step.claim.resource == r)
      || (exists w :: w in db.queue && db.queue[w].resource == r && GrantedBy(db, step, w))
  {
    var after := Apply(db, step);
    var id :| ActiveOn(after, r, id);
    if step.Release? || step.Expire? {
      var h := AsHandOver(db, step);
      HandOverActive(db, h, r, id);
      assert !ActiveOn(db, r, id);
      assert h.promo[id] in step.promo.Values;
      assert GrantedBy(db, step, h.promo[id]);
    } else if !step.Create? || step.claim.resource != r {
      assert ActiveOn(db, r, id);
    }
  }

  /**
   A stranded waiter can be overtaken: while its resource is free, a direct claim takes it
   and leaves the waiter in the queue.
   */
  lemma CreateOvertakesAStrandedWaiter(db: Tables, w: Id, id: Id, claim: Claim)
    requires w in db.queue && !Held(db, db.queue[w].resource)
    requires id !in db.claims && claim.status.Active? && claim.resource == db.queue[w].resource
    ensures Enabled(db, Create(id, claim))
    ensures ActiveOn(Apply(db, Create(id, claim)), claim.resource, id) && w in Apply(db, Create(id, claim)).queue
  {
  }

  // ------------------------------------------------------------ waiters are conserved

  /** The tables with what an outside observer has seen of the queue. */
  datatype Ledger = Ledger(db: Tables, entered: map<Id, Waiter>, granted: map<Id, Id>, swept: set<Id>)

  /** Ids are never reused: an enqueue brings an id no waiter ever had. */
  ghost predicate FreshWaiter(l: Ledger, step: Step) {
    step.Enqueue? ==> step.id !in l.entered
  }

  ghost function Record(l: Ledger, step: Step): Ledger
    requires Enabled(l.db, step)
  {
    Ledger(
      Apply(l.db, step),
      if step.Enqueue? then l.entered[step.id := step.waiter] else l.entered,
      if step.Release? || step.Expire? then l.granted + step.promo else l.granted,
      if step.Expire? then l.swept + Swept(l.db, step.now) else l.swept)
  }

  /** c is a claim made from waiter w's row. */
  predicate MadeFrom(c: Claim, w: Waiter) {
    c.resource == w.resource && c.agent == w.agent && c.kind == w.kind && c.meta == w.meta
  }

  /** Everyone who entered is in exactly one of three places. */
  predicate Accounted(entered: set<Id>, queued: set<Id>, granted: set<Id>, swept: set<Id>) {
    && entered == queued + granted + swept
    && queued !! granted && queued !! swept && granted !! swept
  }

  /**
   Every waiter that ever entered is in exactly one of: still queued with its own row,
   granted to exactly one claim made from its row, swept.
   */
  ghost predicate Conserved(l: Ledger) {
    && Accounted(l.entered.Keys, l.db.queue.Keys, l.granted.Values, l.swept)
    && (forall w :: w in l.db.queue ==> w in l.entered && l.db.queue[w] == l.entered[w])
    && GrantsAreFaithful(l)
  }

  ghost predicate GrantsAreFaithful(l: Ledger) {
    && (forall c, d :: c in l.granted && d in l.granted && l.granted[c] == l.granted[d] ==> c == d)
    && (forall c :: c in l.granted ==>
          && l.granted[c] in l.entered
          && c in l.db.claims && MadeFrom(l.db.claims[c], l.entered[l.granted[c]]))
  }

  lemma PromotedAreQueued(db: Tables, h: HandOver)
    requires Hands(db, h)
    ensures h.promo.Values <= db.queue.Keys - h.swept
    ensures HandedOver(db, h).queue == db.queue - h.swept - h.promo.Values
  {
    forall w | w in h.promo.Values ensures w in db.queue && w !in h.swept {
      HandOverQueue(db, h, w);
    }
  }

  lemma GrantedGrowsBy(granted: map<Id, Id>, promo: map<Id, Id>)
    requires granted.Keys !! promo.Keys
    ensures (granted + promo).Values == granted.Values + promo.Values
  {
    forall w | w in granted.Values ensures w in (granted + promo).Values {
      var c :| c in granted && granted[c] == w;
      assert c in granted + promo && (granted + promo)[c] == w;
    }
    forall w | w in promo.Values ensures w in (granted + promo).Values {
      var c :| c in promo && promo[c] == w;
      assert c in granted + promo && (granted + promo)[c] == w;
    }
  }

  /** The claims side of conservation: each grant is made from its waiter's row... */
  lemma HandOverGrantsFromRows(l: Ledger, h: HandOver, c: Id)
    requires Conserved(l) && Hands(l.db, h) && c in l.granted + h.promo
    ensures
      var after := HandedOver(l.db, h);
      var w := (l.granted + h.promo)[c];
      w in l.entered && c in after.claims && MadeFrom(after.claims[c], l.entered[w])
  {
    HandOverClaims(l.db, h, c);
  }

  /** ... and no waiter is granted twice. */
  lemma HandOverGrantsOnce(l: Ledger, h: HandOver, c: Id, d: Id)
    requires Conserved(l) && Hands(l.db, h) && c in l.granted + h.promo && d in l.granted + h.promo
    requires (l.granted + h.promo)[c] == (l.granted + h.promo)[d]
    ensures c == d
  {
    PromotedAreQueued(l.db, h);
    assert c !in h.promo ==> l.granted[c] in l.granted.Values;
    assert d !in h.promo ==> l.granted[d] in l.granted.Values;
    assert c in h.promo ==> h.promo[c] in h.promo.Values;
    assert d in h.promo ==> h.promo[d] in h.promo.Values;
    if c in h.promo && d in h.promo {
      PromotedOnFreed(l.db, h, c);
    }
  }

  lemma HandOverConservesGrants(l: Ledger, h: HandOver, after: Ledger)
    requires Conserved(l) && Hands(l.db, h)
    requires after == Ledger(HandedOver(l.db, h), l.entered, l.granted + h.promo, l.swept + h.swept)
    ensures GrantsAreFaithful(after)
  {
    forall c | c in after.granted
      ensures && after.granted[c] in after.entered
              && c in after.db.claims && MadeFrom(after.db.claims[c], after.entered[after.granted[c]])
    {
      HandOverGrantsFromRows(l, h, c);
    }
    forall c, d | c in after.granted && d in after.granted && after.granted[c] == after.granted[d] ensures c == d {
      HandOverGrantsOnce(l, h, c, d);
    }
  }

  lemma AccountedAfterMoves(
    entered: set<Id>, queued: set<Id>, granted: set<Id>, swept: set<Id>, toGrant: set<Id>, toSweep: set<Id>)
    requires Accounted(entered, queued, granted, swept)
    requires toSweep <= queued && toGrant <= queued - toSweep
    ensures Accounted(entered, queued - toSweep - toGrant, granted + toGrant, swept + toSweep)
  {
  }

  lemma KeysAfterRemovals(queue: map<Id, Waiter>, a: set<Id>, b: set<Id>)
    ensures (queue - a - b).Keys == queue.Keys - a - b
  {
  }

  /** The queue side: rows move from queued to granted or swept, and nowhere else. */
  lemma HandOverConservesQueue(l: Ledger, h: HandOver)
    requires Conserved(l) && Hands(l.db, h) && h.swept <= l.db.queue.Keys
    ensures Accounted(l.entered.Keys, HandedOver(l.db, h).queue.Keys, (l.granted + h.promo).Values, l.swept + h.swept)
  {
    forall c | c in h.promo ensures c !in l.granted {
      HandOverClaims(l.db, h, c);
    }
    GrantedGrowsBy(l.granted, h.promo);
    PromotedAreQueued(l.db, h);
    KeysAfterRemovals(l.db.queue, h.swept, h.promo.Values);
    AccountedAfterMoves(l.entered.Keys, l.db.queue.Keys, l.granted.Values, l.swept, h.promo.Values, h.swept);
  }

  lemma HandOverConserves(l: Ledger, h: HandOver, after: Ledger)
    requires Conserved(l) && Hands(l.db, h)
    requires after == Ledger(HandedOver(l.db, h), l.entered, l.granted + h.promo, l.swept + h.swept)
    requires h.swept <= l.db.queue.Keys
    ensures Conserved(after)
  {
    HandOverConservesGrants(l, h, after);
    HandOverConservesQueue(l, h);
    forall w | w in after.db.queue ensures w in after.entered && after.db.queue[w] == after.entered[w] {
      HandOverQueue(l.db, h, w);
    }
  }

  lemma EnqueueConserves(l: Ledger, id: Id, waiter: Waiter)
    requires Conserved(l) && id !in l.db.queue && id !in l.entered
    ensures Conserved(Ledger(l.db.(queue := l.db.queue[id := waiter]), l.entered[id := waiter], l.granted, l.swept))
  {
    var after := Ledger(l.db.(queue := l.db.queue[id := waiter]), l.entered[id := waiter], l.granted, l.swept);
    assert after.db.queue.Keys == l.db.queue.Keys + {id};
    assert after.entered.Keys == l.entered.Keys + {id};
    forall c | c in l.granted ensures l.granted[c] != id {
      assert l.granted[c] in l.entered;
    }
  }

  /** A step on claims alone that keeps every claim's resource and agent. */
  lemma ClaimChangeConserves(l: Ledger, claims: map<Id, Claim>)
    requires Conserved(l) && l.db.claims.Keys <= claims.Keys
    requires forall c :: c in l.db.claims ==> SameGrant(claims[c], l.db.claims[c])
    ensures Conserved(l.(db := l.db.(claims := claims)))
  {
  }

  lemma StepConserves(l: Ledger, step: Step, after: Ledger)
    requires Conserved(l) && Enabled(l.db, step) && FreshWaiter(l, step) && after == Record(l, step)
    ensures Conserved(after)
  {
    match step
    case Release(_, _, promo) =>
      assert l.swept + {} == l.swept;
      HandOverConserves(l, AsHandOver(l.db, step), after);
    case Expire(_, _) => HandOverConserves(l, AsHandOver(l.db, step), after);
    case Enqueue(id, waiter) => EnqueueConserves(l, id, waiter);
    case Create(_, _) => ClaimChangeConserves(l, after.db.claims);
    case Renew(_, _, _) => ClaimChangeConserves(l, after.db.claims);
  }

  ghost predicate LedgerRun(ls: seq<Ledger>, steps: seq<Step>) {
    && |ls| == |steps| + 1
    && ls[0] == Ledger(EMPTY, map[], map[], {})
    && forall i :: 0 <= i < |steps| ==>
         Enabled(ls[i].db, steps[i]) && FreshWaiter(ls[i], steps[i]) && ls[i + 1] == Record(ls[i], steps[i])
  }

  /** Conservation of waiters on every run from the empty tables. */
  lemma {:induction false} WaitersAreConserved(ls: seq<Ledger>, steps: seq<Step>, i: nat)
    requires LedgerRun(ls, steps) && i < |ls|
    ensures Conserved(ls[i])
  {
    if i > 0 {
      WaitersAreConserved(ls, steps, i - 1);
      StepConserves(ls[i - 1], steps[i - 1], ls[i]);
    }
  }
}
