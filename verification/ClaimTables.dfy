/**
 The two tables behind the claim protocol, and what each committed transaction does to
 them. Every store method is one transaction, so each becomes one atomic step; what the
 database is free to choose (which of two equally old waiters a query returns, which ids
 are generated) is carried by the step.
 */
module ClaimTables {
  import opened Clock

  type Id = string
  datatype Status = Active | Expired | Released

  /** A row of `claims`; metadata and session columns are one opaque field. */
  datatype Claim = Claim(
    kind: string, resource: string, agent: string, status: Status, meta: string,
    claimedAt: Time, expiresAt: Time, updatedAt: Time)

  /** A row of `claim_queue`. */
  datatype Waiter = Waiter(
    resource: string, agent: string, kind: string, meta: string, expiresInSec: nat, queuedAt: Time)

  datatype Tables = Tables(claims: map<Id, Claim>, queue: map<Id, Waiter>)

  const EMPTY := Tables(map[], map[])

  // --------------------------------------------------------------- observations

  ghost predicate ActiveOn(db: Tables, r: string, id: Id) {
    id in db.claims && db.claims[id].resource == r && db.claims[id].status.Active?
  }

  ghost predicate Held(db: Tables, r: string) {
    exists id :: ActiveOn(db, r, id)
  }

  ghost predicate Waiting(db: Tables, r: string, id: Id) {
    id in db.queue && db.queue[id].resource == r
  }

  /** How many rows wait on a resource: SELECT COUNT(*) FROM claim_queue WHERE resource = $1. */
  ghost function QueueLength(db: Tables, r: string): nat {
    |set id | id in db.queue && db.queue[id].resource == r|
  }

  /** The column a queue is ordered by. */
  function Key(w: Waiter): string {
    Text(w.queuedAt)
  }

  ghost predicate Earlier(a: Waiter, b: Waiter) {
    Less(Key(a), Key(b))
  }

  /** id may be the row of ORDER BY queued_at ASC LIMIT 1. */
  ghost predicate IsNext(db: Tables, r: string, id: Id) {
    Waiting(db, r, id) && forall j :: Waiting(db, r, j) ==> !Earlier(db.queue[j], db.queue[id])
  }

  // ----------------------------------------------------------------- invariants

  /** The partial unique index: at most one active claim per resource. */
  ghost predicate UniqueActive(db: Tables) {
    forall r, i, j :: ActiveOn(db, r, i) && ActiveOn(db, r, j) ==> i == j
  }

  ghost predicate PositiveTtl(db: Tables) {
    forall id :: id in db.queue ==> db.queue[id].expiresInSec >= 1
  }

  ghost predicate Inv(db: Tables) {
    UniqueActive(db) && PositiveTtl(db)
  }

  /** A resource with waiters has a holder. */
  ghost predicate NoOrphans(db: Tables) {
    forall id :: id in db.queue ==> Held(db, db.queue[id].resource)
  }

  // ---------------------------------------------------- ending, sweeping, promoting

  function Ended(db: Tables, ids: set<Id>, status: Status, now: Time): Tables {
    db.(claims := map id | id in db.claims ::
      if id in ids then db.claims[id].(status := status, updatedAt := now) else db.claims[id])
  }

  function Without(db: Tables, gone: set<Id>): Tables {
    db.(queue := db.queue - gone)
  }

  /** The claim a popped waiter receives. */
  function Granted(w: Waiter, now: Time): Claim {
    Claim(w.kind, w.resource, w.agent, Active, w.meta, now, Plus(now, w.expiresInSec), now)
  }

  /** Waiter w, the earliest on a resource of rs that nobody holds, may be promoted to claim c. */
  ghost predicate LegalGrant(db: Tables, rs: set<string>, c: Id, w: Id) {
    && c !in db.claims
    && w in db.queue
    && db.queue[w].resource in rs
    && IsNext(db, db.queue[w].resource, w)
    && !Held(db, db.queue[w].resource)
  }

  ghost predicate OnePerResource(db: Tables, promo: map<Id, Id>) {
    forall c, d :: c in promo && d in promo && c != d && promo[c] in db.queue && promo[d] in db.queue ==>
      db.queue[promo[c]].resource != db.queue[promo[d]].resource
  }

  /** Some waiter of r is promoted. */
  ghost predicate Covered(db: Tables, promo: map<Id, Id>, r: string) {
    exists c :: c in promo && promo[c] in db.queue && db.queue[promo[c]].resource == r
  }

  /**
   promo maps each new claim id to the waiter it promotes: one waiter, the earliest, on every
   resource of rs that has waiters, each insert passing the primary key and the unique index.
   */
  ghost predicate Promotes(db: Tables, rs: set<string>, promo: map<Id, Id>) {
    && (forall c :: c in promo ==> LegalGrant(db, rs, c, promo[c]))
    && OnePerResource(db, promo)
    && (forall w :: w in db.queue && db.queue[w].resource in rs ==> Covered(db, promo, db.queue[w].resource))
  }

  /** The claims that promo's inserts create. */
  ghost function Grants(queue: map<Id, Waiter>, promo: map<Id, Id>, now: Time): map<Id, Claim>
    requires forall c :: c in promo ==> promo[c] in queue
  {
    map c | c in promo :: Granted(queue[promo[c]], now)
  }

  ghost function Promote(db: Tables, promo: map<Id, Id>, now: Time): Tables
    requires forall c :: c in promo ==> promo[c] in db.queue
  {
    Tables(db.claims + Grants(db.queue, promo, now), db.queue - promo.Values)
  }

  /** The shape shared by release and expiry: sweep the queue, end claims, promote waiters. */
  datatype HandOver = HandOver(ended: set<Id>, status: Status, swept: set<Id>, promo: map<Id, Id>, now: Time)

  ghost function Middle(db: Tables, h: HandOver): Tables {
    Ended(Without(db, h.swept), h.ended, h.status, h.now)
  }

  ghost predicate Hands(db: Tables, h: HandOver) {
    && !h.status.Active?
    && h.ended <= db.claims.Keys
    && Promotes(Middle(db, h), Freed(db, h.ended), h.promo)
  }

  ghost function Freed(db: Tables, ids: set<Id>): set<string>
    requires ids <= db.claims.Keys
  {
    set id | id in ids :: db.claims[id].resource
  }

  ghost function HandedOver(db: Tables, h: HandOver): Tables
    requires Hands(db, h)
  {
    Promote(Middle(db, h), h.promo, h.now)
  }

  // ----------------------------------------------------------------------- steps

  /** now.After(queued_at + expires_in_sec), computed on times, not on text. */
  ghost predicate Stale(w: Waiter, now: Time) {
    Before(Plus(w.queuedAt, w.expiresInSec), now)
  }

  ghost function Swept(db: Tables, now: Time): set<Id> {
    set id | id in db.queue && Stale(db.queue[id], now)
  }

  /** status = 'active' AND expires_at < now, compared as text. */
  predicate Due(c: Claim, now: Time) {
    c.status.Active? && Less(Text(c.expiresAt), Text(now))
  }

  function DueClaims(db: Tables, now: Time): set<Id> {
    set id | id in db.claims && Due(db.claims[id], now)
  }

  datatype Step =
    | Create(id: Id, claim: Claim)
    | Enqueue(id: Id, waiter: Waiter)
    | Release(id: Id, now: Time, promo: map<Id, Id>)
    | Renew(id: Id, expiresAt: Time, now: Time)
    | Expire(now: Time, promo: map<Id, Id>)

  /** The part of a release or expiry that is common to both. */
  ghost function AsHandOver(db: Tables, step: Step): HandOver
    requires step.Release? || step.Expire?
  {
    match step
    case Release(id, now, promo) => HandOver({id}, Released, {}, promo, now)
    case Expire(now, promo) => HandOver(DueClaims(db, now), Expired, Swept(db, now), promo, now)
  }

  /** The transaction commits: every statement succeeds and no check of the code rejects it. */
  ghost predicate Enabled(db: Tables, step: Step) {
    match step
    case Create(id, claim) => id !in db.claims && claim.status.Active? && !Held(db, claim.resource)
    case Enqueue(id, waiter) => id !in db.queue && waiter.expiresInSec >= 1
    case Release(id, _, _) => id in db.claims && Hands(db, AsHandOver(db, step))
    case Renew(id, _, _) => id in db.claims && db.claims[id].status.Active?
    case Expire(_, _) => Hands(db, AsHandOver(db, step))
  }

  ghost function Apply(db: Tables, step: Step): Tables
    requires Enabled(db, step)
  {
    match step
    case Create(id, claim) => db.(claims := db.claims[id := claim])
    case Enqueue(id, waiter) => db.(queue := db.queue[id := waiter])
    case Release(_, _, _) => HandedOver(db, AsHandOver(db, step))
    case Renew(id, expiresAt, now) =>
      db.(claims := db.claims[id := db.claims[id].(expiresAt := expiresAt, updatedAt := now)])
    case Expire(_, _) => HandedOver(db, AsHandOver(db, step))
  }

  ghost predicate Next(db: Tables, step: Step, after: Tables) {
    Enabled(db, step) && after == Apply(db, step)
  }

  // -------------------------------------------------------- one hand-over, in detail

  /** Row by row, what a hand-over leaves in the claims table. */
  lemma HandOverClaims(db: Tables, h: HandOver, id: Id)
    requires Hands(db, h)
    ensures
      var after := HandedOver(db, h);
      && (id in after.claims <==> id in db.claims || id in h.promo)
      && !(id in db.claims && id in h.promo)
      && (id in db.claims && id !in h.ended ==> after.claims[id] == db.claims[id])
      && (id in h.ended ==> after.claims[id] == db.claims[id].(status := h.status, updatedAt := h.now))
      && (id in h.promo ==>
           h.promo[id] in db.queue && after.claims[id] == Granted(db.queue[h.promo[id]], h.now))
  {
    var mid := Middle(db, h);
    assert mid.claims.Keys == db.claims.Keys;
    if id in h.promo {
      assert LegalGrant(mid, Freed(db, h.ended), id, h.promo[id]);
    }
  }

  /** Row by row, what a hand-over leaves in the queue. */
  lemma HandOverQueue(db: Tables, h: HandOver, id: Id)
    requires Hands(db, h)
    ensures
      var after := HandedOver(db, h);
      && (id in after.queue <==> id in db.queue && id !in h.swept && id !in h.promo.Values)
      && (id in after.queue ==> after.queue[id] == db.queue[id])
      && (id in h.promo.Values ==> id in db.queue && id !in h.swept)
  {
    var mid := Middle(db, h);
    if id in h.promo.Values {
      var c :| c in h.promo && h.promo[c] == id;
      assert LegalGrant(mid, Freed(db, h.ended), c, id);
    }
  }

  /** Which claims are active on a resource after a hand-over. */
  lemma HandOverActive(db: Tables, h: HandOver, r: string, id: Id)
    requires Hands(db, h)
    ensures ActiveOn(HandedOver(db, h), r, id) <==>
              || (ActiveOn(db, r, id) && id !in h.ended)
              || (id in h.promo && h.promo[id] in db.queue && db.queue[h.promo[id]].resource == r)
  {
    HandOverClaims(db, h, id);
  }

  /** A promoted waiter's resource was freed by the same transaction and left without a holder. */
  lemma PromotedOnFreed(db: Tables, h: HandOver, c: Id)
    requires Hands(db, h) && c in h.promo
    ensures h.promo[c] in db.queue && h.promo[c] !in h.swept
    ensures exists id :: id in h.ended && db.claims[id].resource == db.queue[h.promo[c]].resource
    ensures forall id :: ActiveOn(db, db.queue[h.promo[c]].resource, id) ==> id in h.ended
    ensures forall d :: (d in h.promo && h.promo[d] in db.queue &&
              db.queue[h.promo[d]].resource == db.queue[h.promo[c]].resource) ==> d == c
    ensures forall w :: Waiting(db, db.queue[h.promo[c]].resource, w) && w !in h.swept ==>
              !Earlier(db.queue[w], db.queue[h.promo[c]])
  {
    var mid := Middle(db, h);
    var w := h.promo[c];
    assert LegalGrant(mid, Freed(db, h.ended), c, w);
    var r := mid.queue[w].resource;
    forall id | ActiveOn(db, r, id) ensures id in h.ended {
      if id !in h.ended {
        assert ActiveOn(mid, r, id);
        assert Held(mid, r);
        assert false;
      }
    }
    forall v | Waiting(db, r, v) && v !in h.swept ensures !Earlier(db.queue[v], db.queue[w]) {
      assert Waiting(mid, r, v);
      assert IsNext(mid, r, w);
    }
  }

  /** A freed resource with a waiter that was not swept is handed to someone. */
  lemma FreedIsHandedOn(db: Tables, h: HandOver, w: Id) returns (c: Id)
    requires Hands(db, h) && w in db.queue && w !in h.swept
    requires exists id :: id in h.ended && db.claims[id].resource == db.queue[w].resource
    ensures c in h.promo && h.promo[c] in db.queue && db.queue[h.promo[c]].resource == db.queue[w].resource
  {
    var mid := Middle(db, h);
    assert mid.queue[w].resource in Freed(db, h.ended);
    assert Covered(mid, h.promo, mid.queue[w].resource);
    c :| c in h.promo && h.promo[c] in mid.queue && mid.queue[h.promo[c]].resource == mid.queue[w].resource;
  }

  // --------------------------------------------------------------------- invariance

  lemma HandOverKeepsInv(db: Tables, h: HandOver)
    requires Inv(db) && Hands(db, h)
    ensures Inv(HandedOver(db, h))
  {
    var after := HandedOver(db, h);
    forall r, i, j | ActiveOn(after, r, i) && ActiveOn(after, r, j) ensures i == j {
      HandOverActive(db, h, r, i);
      HandOverActive(db, h, r, j);
      if i in h.promo { PromotedOnFreed(db, h, i); }
      if j in h.promo { PromotedOnFreed(db, h, j); }
    }
    forall id | id in after.queue ensures after.queue[id].expiresInSec >= 1 {
      HandOverQueue(db, h, id);
    }
  }

  /** Every committed transaction keeps one active claim per resource and positive queue lifetimes. */
  lemma StepKeepsInv(db: Tables, step: Step)
    requires Inv(db) && Enabled(db, step)
    ensures Inv(Apply(db, step))
  {
    var after := Apply(db, step);
    match step
    case Release(_, _, _) => HandOverKeepsInv(db, AsHandOver(db, step));
    case Expire(_, _) => HandOverKeepsInv(db, AsHandOver(db, step));
    case Create(id, claim) =>
      forall r, i, j | ActiveOn(after, r, i) && ActiveOn(after, r, j) ensures i == j {
        if i != id { assert ActiveOn(db, r, i); }
        if j != id { assert ActiveOn(db, r, j); }
      }
    case Enqueue(id, waiter) =>
      forall r, i, j | ActiveOn(after, r, i) && ActiveOn(after, r, j) ensures i == j {
        assert ActiveOn(db, r, i) && ActiveOn(db, r, j);
      }
    case Renew(id, expiresAt, now) =>
      forall r, i, j | ActiveOn(after, r, i) && ActiveOn(after, r, j) ensures i == j {
        assert ActiveOn(db, r, i) && ActiveOn(db, r, j);
      }
  }

  /**
   The promotion insert of an expiry whose error the code discards cannot violate the
   unique index: once the due claims are expired, no resource among theirs has an active claim.
   */
  lemma ExpiryFreesEveryDueResource(db: Tables, now: Time, swept: set<Id>)
    requires UniqueActive(db)
    ensures forall r :: r in Freed(db, DueClaims(db, now)) ==>
              !Held(Ended(Without(db, swept), DueClaims(db, now), Expired, now), r)
  {
    var ended := DueClaims(db, now);
    var mid := Ended(Without(db, swept), ended, Expired, now);
    forall r | r in Freed(db, ended) ensures !Held(mid, r) {
      var due :| due in ended && db.claims[due].resource == r;
      assert ActiveOn(db, r, due);
      forall id | ActiveOn(mid, r, id) ensures false {
        assert ActiveOn(db, r, id);
      }
    }
  }
}
