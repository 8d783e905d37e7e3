/**
 The HTTP handlers for claims, as clients that issue several store transactions in turn.
 Between two of them any other client may run any number of transactions.
 */
module ClaimApi {
  import opened Basics
  import opened Clock
  import opened ClaimTables
  import opened ClaimRuns
  import opened ClaimStore
  import opened Promotion

  /** The expires_in field after time.ParseDuration: its whole seconds, and now plus the duration. */
  datatype Lease = Absent | Malformed | Lasting(seconds: int, until: Time)

  /** When a claim asked for at `asked` runs out; an hour later if nothing is said. */
  function Deadline(lease: Lease, asked: Time): Time
    requires !lease.Malformed?
  {
    if lease.Absent? then Plus(asked, 3600) else lease.until
  }

  datatype Reply =
    | Granted201(id: Id, claim: Claim)
    | Queued202(waiterId: Id, position: nat)
    | Released200(claim: Claim, next: Option<Waiter>)
    | Renewed200(renewed: Claim)
    | Forbidden403
    | NotFound404
    | Unprocessable422
    | Error500

  class ClaimApi {
    const store: ClaimStore

    constructor (store: ClaimStore)
      ensures this.store == store
    {
      this.store := store;
    }

    method LetOthersRun(others: Others)
      requires Lawful(others)
      modifies store
      ensures store.Db() == others(old(store.Db())) && Reaches(old(store.Db()), store.Db())
    {
      var db := others(store.Db());
      store.claims, store.queue := db.claims, db.queue;
    }

    /**
     claimCreate: try to take the resource; on conflict, queue for it in a second transaction. The
     clock is read for the deadline, for the claim, and again for the queue entry.
     */
    method ClaimCreate(req: Request, lease: Lease, asked: Time, now: Time, later: Time, id: Id, waiterId: Id,
                       others: Others, first: Server, second: Server)
      returns (r: Reply, ghost mid: Tables, ghost step: Step)
      requires Lawful(others)
      modifies store
      ensures r == Unprocessable422 <==> req.agent == "" || lease.Malformed?
      ensures r.Unprocessable422? ==> store.Db() == old(store.Db())
      ensures r.Granted201? ==>
                && r.id == id && step == Create(id, r.claim) && Next(old(store.Db()), step, store.Db())
                && r.claim == Claim(req.kind, req.resource, req.agent, Active, req.meta, now,
                                    if lease.Absent? then Plus(asked, 3600) else lease.until, now)
                && store.claims == old(store.claims)[id := r.claim] && store.queue == old(store.queue)
      ensures r.Queued202? ==>
                && r.waiterId == waiterId && step.Enqueue? && step.id == waiterId
                && Reaches(old(store.Db()), mid) && Next(mid, step, store.Db())
                && step.waiter == Waiter(req.resource, req.agent, req.kind, req.meta,
                                         if lease.Absent? || lease.seconds <= 0 then 3600 else lease.seconds, later)
                && store.queue == mid.queue[waiterId := step.waiter] && store.claims == mid.claims
                && r.position == QueueLength(store.Db(), req.resource)
                && (id !in old(store.claims) ==> Held(old(store.Db()), req.resource))
      ensures r.Error500? ==> store.Db() == old(store.Db()) || (Reaches(old(store.Db()), mid) && store.Db() == mid)
      ensures r.Granted201? || r.Queued202? || r.Unprocessable422? || r.Error500?
      ensures r.Granted201? <==>
                && req.agent != "" && !lease.Malformed? && !first.Refuses(0) && first.Commits()
                && id !in old(store.claims) && !Held(old(store.Db()), req.resource)
      ensures second.Healthy() && !r.Granted201? && !r.Unprocessable422? ==>
                (r.Queued202? <==>
                  && !first.Refuses(0) && (id in old(store.claims) || Held(old(store.Db()), req.resource))
                  && waiterId !in mid.queue)
      // No waiter is left without a holder, unless the resource was freed between the two transactions.
      ensures NoOrphans(old(store.Db())) && r.Granted201? ==> NoOrphans(store.Db())
      ensures r.Queued202? && NoOrphans(mid) ==> (NoOrphans(store.Db()) <==> Held(mid, req.resource))
    {
      mid, step := store.Db(), Create(id, Claim("", "", "", Active, "", now, now, now));
      if req.agent == "" { return Unprocessable422, mid, step; }
      if lease.Malformed? { return Unprocessable422, mid, step; }
      var until := Deadline(lease, asked);
      var seconds := if lease.Absent? then 3600 else lease.seconds;
      var created;
      created, step := store.CreateClaim(id, req, until, now, first);
      if created == Fail(Conflict) {
        LetOthersRun(others);
        mid := store.Db();
        var queued;
        ghost var sent;
        queued, step, sent := store.EnqueueClaim(waiterId, req, seconds, later, second);
        if queued.Fail? { return Error500, mid, step; }
        OnlyALateEnqueueStrandsAfter(mid, step);
        return Queued202(waiterId, queued.value.1), mid, step;
      }
      if created.Fail? { return Error500, mid, step; }
      OnlyALateEnqueueStrandsAfter(mid, step);
      r := Granted201(id, created.value);
    }

    /**
     claimRelease: check the owner, then release. Whatever ran in between, only claim id ends,
     and when an agent is named it still owns id at that moment.
     */
    method ClaimRelease(agent: string, id: Id, now: Time, newId: Id, others: Others, first: Server, second: Server)
      returns (r: Reply, ghost mid: Tables, ghost step: Step)
      requires Lawful(others)
      modifies store
      ensures r.Forbidden403? <==>
                agent != "" && !first.Refuses(0) && id in old(store.claims) && old(store.claims)[id].agent != agent
      ensures r.Forbidden403? ==> store.Db() == old(store.Db())
      ensures r.Released200? ==>
                && Reaches(old(store.Db()), mid) && Next(mid, step, store.Db())
                && step.Release? && step.id == id
                && (agent != "" ==> id in mid.claims && mid.claims[id].agent == agent)
                && ReleaseWrites(mid, id, now, newId, r.claim, r.next, store.Db())
                && forall d :: d in mid.claims && d != id ==> d in store.claims && store.claims[d] == mid.claims[d]
      ensures !r.Released200? ==> store.Db() == old(store.Db()) || (Reaches(old(store.Db()), mid) && store.Db() == mid)
      ensures r.NotFound404? <==>
                if agent != "" then !first.Refuses(0) && id !in old(store.claims)
                else !second.Refuses(0) && id !in mid.claims
      ensures agent != "" && first.Refuses(0) ==> r == Error500
      ensures first.Healthy() && second.Healthy() && newId !in mid.claims && !r.Forbidden403? && !r.NotFound404? ==>
                (r.Released200? <==> id in mid.claims && Releasable(mid, id))
      ensures r.Released200? || r.Forbidden403? || r.NotFound404? || r.Error500?
    {
      mid, step := store.Db(), Release(id, now, map[]);
      ReachesItself(mid);
      if agent != "" {
        var existing := store.GetClaim(id, first);
        if existing == Fail(NotFound) { return NotFound404, mid, step; }
        if existing.Fail? { return Error500, mid, step; }
        if existing.value.agent != agent { return Forbidden403, mid, step; }
      }
      ghost var checked := store.Db();
      LetOthersRun(others);
      mid := store.Db();
      if id in checked.claims { OwnerSurvives(checked, mid, id); }
      var released;
      ghost var sent;
      released, step, sent := store.ReleaseClaim(id, now, newId, second);
      if released == Fail(NotFound) { return NotFound404, mid, step; }
      if released.Fail? { return Error500, mid, step; }
      OnlyThatClaim(mid, step, store.Db());
      r := Released200(released.value.0, released.value.1);
    }

    /** claimRenew: check the owner, then parse the duration, then extend. */
    method ClaimRenew(agent: string, id: Id, lease: Lease, asked: Time, now: Time, others: Others, later: Others,
                      first: Server, second: Server, readBack: Server)
      returns (r: Reply, ghost mid: Tables, ghost renewed: Tables)
      requires Lawful(others) && Lawful(later)
      modifies store
      ensures r.Forbidden403? <==>
                agent != "" && !first.Refuses(0) && id in old(store.claims) && old(store.claims)[id].agent != agent
      ensures r.Unprocessable422? <==> PassesOwner(old(store.Db()), agent, id, first) && lease.Malformed?
      ensures r.Renewed200? <==>
                && PassesOwner(old(store.Db()), agent, id, first) && !lease.Malformed?
                && !second.Refuses(0) && second.Commits() && !readBack.Refuses(0)
                && id in mid.claims && mid.claims[id].status == Active
      ensures r.NotFound404? <==>
                || (agent != "" && !first.Refuses(0) && id !in old(store.claims))
                || (&& PassesOwner(old(store.Db()), agent, id, first) && !lease.Malformed? && !second.Refuses(0)
                    && !(id in mid.claims && mid.claims[id].status == Active))
      ensures r.Renewed200? || r.Forbidden403? || r.NotFound404? || r.Unprocessable422? || r.Error500?
      ensures r.Forbidden403? || r.Unprocessable422? ==> store.Db() == old(store.Db())
      ensures r.Renewed200? ==>
                && RenewedBy(mid, agent, id, lease, asked, now, renewed) && store.Db() == later(renewed)
                && id in store.claims && r.renewed == store.claims[id]
      ensures Reaches(old(store.Db()), mid)
      // An error 500 may hide a renewal that committed; every other reply but 200 renews nothing.
      ensures !r.Renewed200? ==>
                || store.Db() == mid
                || (&& r.Error500? && RenewedBy(mid, agent, id, lease, asked, now, renewed)
                    && store.Db() == later(renewed))
    {
      mid, renewed := store.Db(), store.Db();
      ReachesItself(mid);
      if agent != "" {
        var existing := store.GetClaim(id, first);
        if existing == Fail(NotFound) { return NotFound404, mid, renewed; }
        if existing.Fail? { return Error500, mid, renewed; }
        if existing.value.agent != agent { return Forbidden403, mid, renewed; }
      }
      if lease.Malformed? { return Unprocessable422, mid, renewed; }
      var until := Deadline(lease, asked);
      ghost var checked := store.Db();
      LetOthersRun(others);
      mid := store.Db();
      if id in checked.claims { OwnerSurvives(checked, mid, id); }
      var extended;
      extended, renewed := store.RenewClaim(id, until, now, later, second, readBack);
      if extended == Fail(NotFound) { return NotFound404, mid, renewed; }
      if extended.Fail? { return Error500, mid, renewed; }
      r := Renewed200(extended.value);
    }
  }

  /** The owner check lets the request through: no agent is named, or the claim is read and is that agent's. */
  predicate PassesOwner(db: Tables, agent: string, id: Id, server: Server) {
    agent == "" || (!server.Refuses(0) && id in db.claims && db.claims[id].agent == agent)
  }

  /** The owner's renewal, on tables in which id is still active. */
  ghost predicate RenewedBy(
    db: Tables, agent: string, id: Id, lease: Lease, asked: Time, now: Time, after: Tables)
  {
    && !lease.Malformed?
    && Next(db, Renew(id, Deadline(lease, asked), now), after)
    && (agent != "" ==> db.claims[id].agent == agent)
    && db.claims[id].status == Active && after.queue == db.queue
    && after.claims == db.claims[id := db.claims[id].(
         expiresAt := if lease.Absent? then Plus(asked, 3600) else lease.until, updatedAt := now)]
  }

  lemma OnlyALateEnqueueStrandsAfter(db: Tables, step: Step)
    requires Enabled(db, step)
    ensures NoOrphans(db) ==>
              (NoOrphans(Apply(db, step)) <==> !(step.Enqueue? && !Held(db, step.waiter.resource)))
  {
    if NoOrphans(db) { OnlyALateEnqueueStrands(db, step); }
  }

  lemma OnlyThatClaim(db: Tables, step: Step, after: Tables)
    requires step.Release? && Next(db, step, after)
    ensures forall d :: d in db.claims && d != step.id ==> d in after.claims && after.claims[d] == db.claims[d]
  {
    forall d | d in db.claims && d != step.id ensures d in after.claims && after.claims[d] == db.claims[d] {
      ReleaseTouchesOneClaim(db, step.id, step.now, step.promo, d);
    }
  }
}
