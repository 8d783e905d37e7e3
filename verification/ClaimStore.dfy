/**
 The claim store as it runs. The bodies of its transactions are proved to compute the closures of
 ClaimClosures; each method is one attempt of its transaction, proved to be exactly one step of
 ClaimTables or no change at all.
 */
module ClaimStore {
  import opened Basics
  import opened Errors
  import opened Clock
  import opened ClaimTables
  import opened ClaimRuns
  import opened ClaimClosures
  import opened Promotion
  import opened Transaction
  import R = Retry

  // ------------------------------------------------------- bodies run in a transaction

  /** What a body's run amounts to: its effects count only if it returned nil in an unpoisoned transaction. */
  ghost function Ran<V>(db: Tables, tx: Tx, vars: V, err: Err): R.Run<Tables, V>
    reads tx
  {
    R.Run(if err == Nil && !tx.aborted then tx.View() else db, vars, err, tx.aborted)
  }

  /** PopNextWaiter: removes and returns an earliest waiter, or none. */
  method PopNextWaiter(tx: Tx, resource: string) returns (err: Err, next: Option<Id>)
    modifies tx
    ensures tx.aborted <==> err != Nil
    ensures old(tx.aborted) ==> tx.aborted
    ensures err != Nil ==> err.Wrap? && next == None
    ensures err == Nil && next.None? ==>
              tx.View() == old(tx.View()) && forall id :: !Waiting(old(tx.View()), resource, id)
    ensures err == Nil && next.Some? ==>
              IsNext(old(tx.View()), resource, next.value) && tx.View() == Without(old(tx.View()), {next.value})
    ensures tx.issued > old(tx.issued)
    ensures !old(tx.aborted) ==> (err == Nil <==> tx.CleanFrom(old(tx.issued)))
  {
    err, next := tx.SelectNext(resource);
    if err != Nil { return Wrap(err), None; }
    if next.None? { return Nil, None; }
    err := tx.DeleteWaiter(next.value);
    if err != Nil { return Wrap(err), None; }
  }

  /** The first loop of the sweep: the ids of the stale rows. */
  method CollectStale(queue: map<Id, Waiter>, ids: seq<Id>, now: Time) returns (stale: seq<Id>)
    requires forall id :: id in ids <==> id in queue
    ensures forall id :: id in stale <==> id in queue && Stale(queue[id], now)
  {
    stale := [];
    for i := 0 to |ids|
      invariant forall id :: id in stale <==> id in ids[..i] && Stale(queue[id], now)
    {
      var row := queue[ids[i]];
      if Before(Plus(row.queuedAt, row.expiresInSec), now) {
        stale := stale + [ids[i]];
      }
    }
    assert ids[..|ids|] == ids;
  }

  lemma DeletedOneMore(start: Tables, stale: seq<Id>, i: nat)
    requires i < |stale|
    ensures Without(Without(start, SetOf(stale[..i])), {stale[i]}) == Without(start, SetOf(stale[..i + 1]))
  {
    assert stale[..i + 1] == stale[..i] + [stale[i]];
    assert SetOf(stale[..i + 1]) == SetOf(stale[..i]) + {stale[i]};
    assert (start.queue - SetOf(stale[..i])) - {stale[i]} == start.queue - SetOf(stale[..i + 1]);
  }

  /** The rows left by the sweep, by their times. */
  lemma SweptByTheClock(db: Tables, now: Time)
    ensures
      var left := Without(db, Swept(db, now)).queue;
      && (forall w :: w in left <==>
            w in db.queue && !Before(Plus(db.queue[w].queuedAt, db.queue[w].expiresInSec), now))
      && (forall w :: w in left ==> left[w] == db.queue[w])
  {
  }

  /** sweepExpiredWaiters: collects the stale ids, then deletes them one by one, ignoring errors. */
  method SweepExpiredWaiters(tx: Tx, now: Time) returns (err: Err)
    modifies tx
    ensures old(tx.aborted) ==> tx.aborted
    ensures !tx.aborted ==> tx.View() == Without(old(tx.View()), Swept(old(tx.View()), now))
    ensures !tx.aborted ==> tx.claims == old(tx.claims)
    ensures !tx.aborted ==> forall w :: w in tx.queue <==>
              w in old(tx.queue) && !Before(Plus(old(tx.queue)[w].queuedAt, old(tx.queue)[w].expiresInSec), now)
    ensures !tx.aborted ==> forall w :: w in tx.queue ==> tx.queue[w] == old(tx.queue)[w]
    ensures tx.issued > old(tx.issued)
    ensures !old(tx.aborted) ==> (!tx.aborted <==> tx.CleanFrom(old(tx.issued)))
  {
    ghost var start := tx.View();
    ghost var first := tx.issued;
    ghost var clean := !tx.aborted;
    var ids;
    err, ids := tx.SelectQueue();
    if err != Nil { return; }
    var stale := CollectStale(tx.queue, ids, now);
    assert Without(start, SetOf(stale[..0])) == start;
    for i := 0 to |stale|
      invariant !tx.aborted ==> tx.View() == Without(start, SetOf(stale[..i]))
      invariant tx.issued > first && !(!clean && !tx.aborted)
      invariant clean ==> (!tx.aborted <==> tx.CleanFrom(first))
    {
      DeletedOneMore(start, stale, i);
      var ignored := tx.DeleteWaiter(stale[i]);
    }
    assert stale[..|stale|] == stale;
    assert SetOf(stale) == Swept(start, now);
    SweptByTheClock(start, now);
    return Nil;
  }

  /** What a release reports as next is the row of the waiter it promoted. */
  ghost predicate PromotedIs(db: Tables, promo: map<Id, Id>, newId: Id, next: Option<Waiter>) {
    match next
    case None => promo == map[]
    case Some(row) => exists w :: w in db.queue && row == db.queue[w] && promo == map[newId := w]
  }

  /**
   Pops the next waiter of a resource and inserts its claim, as release and expiry both do. Apart
   from the server, only a taken id or a held resource can make it fail, and only if somebody waits.
   */
  method PromoteNext(tx: Tx, r: string, now: Time, newId: Id)
    returns (popErr: Err, insertErr: Err, next: Option<Id>, waiter: Option<Waiter>)
    modifies tx
    ensures tx.aborted <==> popErr != Nil || insertErr != Nil
    ensures old(tx.aborted) ==> popErr != Nil
    ensures popErr != Nil ==> popErr.Wrap? && next.None?
    ensures waiter == NextRow(old(tx.View()), next)
    ensures popErr == Nil ==> if next.Some? then IsNext(old(tx.View()), r, next.value)
                              else forall id :: !Waiting(old(tx.View()), r, id)
    ensures !tx.aborted && next.None? ==> tx.View() == old(tx.View())
    ensures !tx.aborted && next.Some? ==> Promoted(old(tx.View()), r, now, newId, next.value, tx.View())
    ensures !tx.aborted && next.Some? ==>
              && tx.queue == old(tx.queue) - {next.value}
              && tx.claims == old(tx.claims)[newId := Claim(
                   waiter.value.kind, waiter.value.resource, waiter.value.agent, Active, waiter.value.meta,
                   now, Plus(now, waiter.value.expiresInSec), now)]
    ensures tx.issued > old(tx.issued)
    ensures !old(tx.aborted) && (newId in old(tx.claims) || Held(old(tx.View()), r)) ==>
              (!tx.aborted <==> tx.CleanFrom(old(tx.issued)) && forall id :: !Waiting(old(tx.View()), r, id))
    ensures !old(tx.aborted) && newId !in old(tx.claims) && !Held(old(tx.View()), r) ==>
              (!tx.aborted <==> tx.CleanFrom(old(tx.issued)))
  {
    ghost var db := tx.View();
    insertErr, waiter := Nil, None;
    var rows := tx.queue;
    popErr, next := PopNextWaiter(tx, r);
    if popErr != Nil || next.None? { return; }
    waiter := Some(rows[next.value]);
    assert Waiting(db, r, next.value);
    HeldIgnoresQueue(db, tx.View(), r);
    insertErr := tx.InsertClaim(newId, Granted(rows[next.value], now));
  }

  /** The second half of a release, once claim id is marked in the tables db: pop a waiter, insert its claim. */
  method HandOn(tx: Tx, id: Id, now: Time, newId: Id, released: Claim, ghost db: Tables)
    returns (err: Err, next: Option<Waiter>, ghost d: ReleaseDraw)
    requires !tx.aborted && id in db.claims && released.resource == db.claims[id].resource
    requires tx.View() == Ended(db, {id}, Released, now)
    modifies tx
    ensures d.now == now && d.newId == newId
    ensures match d.fault
            case AtPop(error) => err == Wrap(Wrap(error)) && next == None && tx.aborted
            case AtInsert(error) => err == error != Nil && next == NextRow(db, d.next) && tx.aborted
            case AtRelease(_) => false
            case AtFetch(_) => false
            case ReleaseWorks =>
              && err == Nil && next == NextRow(db, d.next) && !tx.aborted
              && Next(db, Release(id, now, d.Promo()), tx.View())
    ensures tx.issued > old(tx.issued)
    ensures newId !in db.claims ==> (!tx.aborted <==> tx.CleanFrom(old(tx.issued)) && Releasable(db, id))
  {
    d := ReleaseDraw(now, newId, None, ReleaseWorks);
    ReleasableWhenMarked(db, id, now);
    var found;
    var popErr, insertErr;
    popErr, insertErr, found, next := PromoteNext(tx, released.resource, now, newId);
    d := d.(next := found);
    if popErr != Nil { return Wrap(popErr), None, d.(fault := AtPop(popErr.inner)); }
    if insertErr != Nil { return insertErr, next, d.(fault := AtInsert(insertErr)); }
    err := Nil;
    HandedOn(db, id, now, newId, found, tx.View());
  }

  /**
   The transaction body of ReleaseClaim: end the claim whatever its status, pop a waiter, insert
   its claim. It is poisoned exactly if the server refused a statement or the insert is rejected.
   */
  method ReleaseBody(tx: Tx, id: Id, now: Time, newId: Id, vars0: ReleaseVars)
    returns (err: Err, vars: ReleaseVars, ghost d: ReleaseDraw)
    requires !tx.aborted
    modifies tx
    ensures d.now == now && d.newId == newId
    ensures Ran(old(tx.View()), tx, vars, err) == ReleaseStep(id, d, old(tx.View()), vars0)
    ensures err == Nil ==> !tx.aborted
    ensures d.fault.AtRelease? <==> tx.server.Refuses(old(tx.issued))
    ensures tx.issued > old(tx.issued)
    ensures id !in old(tx.claims) || newId !in old(tx.claims) ==>
              (!tx.aborted <==> tx.CleanFrom(old(tx.issued)) &&
                                (id in old(tx.claims) ==> Releasable(old(tx.View()), id)))
  {
    ghost var db := tx.View();
    vars, d := vars0, ReleaseDraw(now, newId, None, ReleaseWorks);
    var n;
    err, n := tx.MarkReleased(id, now);
    if err != Nil { return Wrap(err), vars, d.(fault := AtRelease(err)); }
    if n == 0 { return NOT_FOUND, vars, d; }
    var row;
    err, row := tx.SelectClaim(id);
    if err != Nil { return Wrap(err), vars.(released := None), d.(fault := AtFetch(err)); }
    vars := vars.(released := row);
    var next;
    err, next, d := HandOn(tx, id, now, newId, row.value, db);
    vars := vars.(next := next);
  }

  /** The transaction body of EnqueueClaim: insert the row, count the resource's rows. */
  method EnqueueBody(tx: Tx, id: Id, w: Waiter, position0: nat)
    returns (err: Err, position: nat, ghost fault: EnqueueFault)
    requires !tx.aborted && w.expiresInSec >= 1
    modifies tx
    ensures RealError(fault)
    ensures Ran(old(tx.View()), tx, position, err) == EnqueueStep(id, w, fault, old(tx.View()), position0)
    ensures tx.issued > old(tx.issued)
    ensures !tx.aborted <==> tx.CleanFrom(old(tx.issued)) && id !in old(tx.queue)
  {
    position, fault := position0, EnqueueWorks;
    err := tx.InsertWaiter(id, w);
    if err != Nil { return Wrap(err), position, AtQueueInsert(err); }
    var n;
    err, n := tx.CountWaiters(w.resource);
    if err != Nil { return err, position, AtCount(err); }
    position := n;
  }

  // -------------------------------------------------------------- expiry, as one step

  /** The promotions of the first i resources are in the transaction. */
  ghost predicate PromotedSoFar(tx: Tx, mid: Tables, done: set<string>, promo: map<Id, Id>, now: Time)
    reads tx
  {
    Promotes(mid, done, promo) && tx.View() == Promote(mid, promo, now)
  }

  /** One turn of the promotion loop: pop, then insert; any error is discarded. */
  method PromoteOn(
    tx: Tx, r: string, now: Time, id: Id, ghost mid: Tables, ghost done: set<string>, ghost promo: map<Id, Id>)
    returns (ghost more: map<Id, Id>)
    requires tx.aborted || PromotedSoFar(tx, mid, done, promo, now)
    requires r !in done
    modifies tx
    ensures old(tx.aborted) ==> tx.aborted
    ensures tx.aborted || PromotedSoFar(tx, mid, done + {r}, more, now)
    ensures more.Keys <= promo.Keys + {id}
    ensures tx.issued > old(tx.issued)
    ensures !old(tx.aborted) && id !in mid.claims && id !in promo && !Held(mid, r) ==>
              (!tx.aborted <==> tx.CleanFrom(old(tx.issued)))
  {
    more := promo;
    ghost var view := tx.View();
    if !tx.aborted { NotYetReached(mid, done, promo, now, r); }
    var popErr, insertErr, next, waiter := PromoteNext(tx, r, now, id);
    if !tx.aborted {
      if next.Some? { more := promo[id := next.value]; }
      PromotedMore(mid, done, promo, now, r, id, next, tx.View());
    }
  }

  /** The promotion loop over the resources collected before the expiring UPDATE, with a fresh id for each. */
  method PromoteAll(tx: Tx, resources: seq<string>, now: Time, newId: nat -> Id, ghost mid: Tables)
    returns (ghost promo: map<Id, Id>)
    requires !tx.aborted && tx.View() == mid
    requires forall a, b :: 0 <= a < b < |resources| ==> resources[a] != resources[b]
    modifies tx
    ensures tx.aborted || PromotedSoFar(tx, mid, SetOf(resources), promo, now)
    ensures tx.issued >= old(tx.issued)
    ensures FreshIds(mid.claims, newId) && (forall r :: r in resources ==> !Held(mid, r)) ==>
              (!tx.aborted <==> tx.CleanFrom(old(tx.issued)))
  {
    ghost var safe := FreshIds(mid.claims, newId) && forall r :: r in resources ==> !Held(mid, r);
    ghost var first := tx.issued;
    promo := map[];
    PromotingNobody(mid, now);
    for i := 0 to |resources|
      invariant tx.aborted || PromotedSoFar(tx, mid, SetOf(resources[..i]), promo, now)
      invariant IdsUsed(promo, newId, i)
      invariant tx.issued >= first
      invariant safe ==> (!tx.aborted <==> tx.CleanFrom(first))
    {
      SetOfGrows(resources, i);
      ghost var before := promo;
      promo := PromoteOn(tx, resources[i], now, newId(i), mid, SetOf(resources[..i]), promo);
      assert IdsUsed(before, newId, i);
      assert IdsUsed(promo, newId, i + 1);
    }
    assert resources[..|resources|] == resources;
  }

  /** Collects the due resources, then marks their claims expired; stops at the first error. */
  method MarkDue(tx: Tx, now: Time) returns (err: Err, resources: seq<string>, n: nat)
    modifies tx
    ensures tx.aborted <==> err != Nil
    ensures err == if old(tx.aborted) then Wrap(IN_FAILED_TX)
                   else if tx.server.Refuses(old(tx.issued)) then Wrap(tx.server.fault(old(tx.issued)))
                   else if tx.server.Refuses(old(tx.issued) + 1) then Wrap(tx.server.fault(old(tx.issued) + 1))
                   else Nil
    ensures tx.issued == old(tx.issued) + if old(tx.aborted) || tx.server.Refuses(old(tx.issued)) then 1 else 2
    ensures forall i, j :: 0 <= i < j < |resources| ==> resources[i] != resources[j]
    ensures err == Nil ==>
              var db := old(tx.View());
              && n == |DueClaims(db, now)| && SetOf(resources) == Freed(db, DueClaims(db, now))
              && tx.View() == Ended(db, DueClaims(db, now), Expired, now)
  {
    ghost var db := tx.View();
    n := 0;
    err, resources := tx.SelectDueResources(now);
    if err != Nil { return Wrap(err), resources, n; }
    assert SetOf(resources) == Freed(db, DueClaims(db, now));
    err, n := tx.MarkExpired(now);
    if err != Nil { return Wrap(err), resources, n; }
  }

  /** The first half of an expiry: sweep, collect the due resources, mark their claims expired. */
  method ExpireDue(tx: Tx, now: Time)
    returns (err: Err, resources: seq<string>, n: nat, ghost fault: ExpireFault, ghost swept: nat)
    requires !tx.aborted
    modifies tx
    ensures old(tx.issued) < swept < tx.issued && (tx.aborted <==> err != Nil)
    ensures fault ==
            if !tx.server.Clean(old(tx.issued), swept) then InSweep
            else if tx.server.Refuses(swept) then AtSelect(tx.server.fault(swept))
            else if tx.server.Refuses(swept + 1) then AtExpire(tx.server.fault(swept + 1))
            else ExpireWorks
    ensures err == match fault
            case InSweep => Wrap(IN_FAILED_TX)
            case AtSelect(error) => Wrap(error)
            case AtExpire(error) => Wrap(error)
            case _ => Nil
    ensures err == Nil ==>
              && tx.issued == swept + 2 && n == |DueClaims(old(tx.View()), now)|
              && tx.View() == Marked(old(tx.View()), now)
              && SetOf(resources) == Freed(old(tx.View()), DueClaims(old(tx.View()), now))
    ensures forall i, j :: 0 <= i < j < |resources| ==> resources[i] != resources[j]
    ensures tx.aborted ==> !tx.CleanFrom(old(tx.issued))
  {
    ghost var db := tx.View();
    var ignored := SweepExpiredWaiters(tx, now);
    swept := tx.issued;
    ghost var poisoned := tx.aborted;
    ExpireMiddle(db, now);
    err, resources, n := MarkDue(tx, now);
    fault := if poisoned then InSweep
             else if tx.server.Refuses(swept) then AtSelect(tx.server.fault(swept))
             else if tx.server.Refuses(swept + 1) then AtExpire(tx.server.fault(swept + 1))
             else ExpireWorks;
  }

  /**
   The transaction body of ExpireOldClaims. Errors of the sweep and of each promotion are
   discarded, as in the code; the poisoned transaction remembers them, so what failed first
   decides what the caller learns. On tables with unique active claims and with fresh ids only
   the server can make a statement fail, because the expiring UPDATE leaves no active claim on
   any of the collected resources. `swept` is how many statements were sent up to the end of the sweep.
   */
  method ExpireBody(tx: Tx, now: Time, newId: nat -> Id, count0: nat)
    returns (err: Err, count: nat, ghost d: ExpireDraw, ghost swept: nat)
    requires !tx.aborted
    modifies tx
    ensures d.now == now && old(tx.issued) < swept < tx.issued
    ensures Ran(old(tx.View()), tx, count, err) == ExpireStep(d, old(tx.View()), count0)
    ensures d.fault.InSweep? <==> !tx.server.Clean(old(tx.issued), swept)
    ensures d.fault.AtSelect? <==> tx.server.Clean(old(tx.issued), swept) && tx.server.Refuses(swept)
    ensures d.fault.AtSelect? ==> d.fault.error == tx.server.fault(swept)
    ensures d.fault.AtExpire? <==> tx.server.Clean(old(tx.issued), swept + 1) && tx.server.Refuses(swept + 1)
    ensures d.fault.AtExpire? ==> d.fault.error == tx.server.fault(swept + 1)
    ensures d.fault.ExpireWorks? <==> !tx.aborted
    ensures UniqueActive(old(tx.View())) && FreshIds(old(tx.claims), newId) ==>
              (!tx.aborted <==> tx.CleanFrom(old(tx.issued)))
  {
    ghost var db := tx.View();
    count := count0;
    var resources, n;
    ghost var fault;
    err, resources, n, fault, swept := ExpireDue(tx, now);
    d := ExpireDraw(now, map[], fault);
    if err != Nil { return; }
    count := n;
    ghost var mid := tx.View();
    if UniqueActive(db) { MarkedFreesTheDue(db, now); }
    ghost var promo := PromoteAll(tx, resources, now, newId, mid);
    if !tx.aborted { ExpiryCompletes(db, now, promo, tx.View()); }
    d := ExpireDraw(now, promo, if tx.aborted then InPromotion else ExpireWorks);
  }

  // -------------------------------------------------------------------- the store

  /** Unread: the transaction committed, but reading the row back afterwards failed. */
  datatype Failure = NotFound | Conflict | Refused | Unread

  datatype Outcome<T> = Success(value: T) | Fail(error: Failure)

  /**
   What a release writes, field by field: the claim it ends, the row it takes from the queue, and the
   claim made from that row. `released` and `next` are what it reports.
   */
  ghost predicate ReleaseWrites(
    db: Tables, id: Id, now: Time, newId: Id, released: Claim, next: Option<Waiter>, after: Tables)
  {
    && id in db.claims && released == db.claims[id].(status := Released, updatedAt := now)
    && match next
       case None =>
         && after.claims == db.claims[id := released] && after.queue == db.queue
         && forall w :: w in db.queue ==> db.queue[w].resource != released.resource
       case Some(row) =>
         && row.resource == released.resource && newId !in db.claims
         && after.claims == db.claims[id := released][newId := Claim(
              row.kind, row.resource, row.agent, Active, row.meta, now, Plus(now, row.expiresInSec), now)]
         && exists w :: w in db.queue && db.queue[w] == row && after.queue == db.queue - {w}
  }

  lemma ReleaseWritesThis(db: Tables, id: Id, now: Time, newId: Id, next: Option<Id>, after: Tables)
    requires Next(db, Release(id, now, if next.Some? then map[newId := next.value] else map[]), after)
    ensures ReleaseWrites(
              db, id, now, newId, db.claims[id].(status := Released, updatedAt := now), NextRow(db, next), after)
  {
    if next.Some? {
      ReleaseToSomebody(db, id, now, newId, next.value, after);
    } else {
      ReleaseToNobody(db, id, now, after);
    }
  }

  /** Whom a release grants: a waiter of the claim's own resource, with the claim written out. */
  lemma ReleaseGrants(db: Tables, id: Id, now: Time, newId: Id, w: Id, after: Tables)
    requires Next(db, Release(id, now, map[newId := w]), after)
    ensures w in db.queue && newId !in db.claims && db.queue[w].resource == db.claims[id].resource
    ensures newId in after.claims && after.claims[newId] == Claim(
              db.queue[w].kind, db.queue[w].resource, db.queue[w].agent, Active, db.queue[w].meta,
              now, Plus(now, db.queue[w].expiresInSec), now)
  {
    var step := Release(id, now, map[newId := w]);
    assert newId in step.promo && step.promo[newId] == w;
    PromotedOnFreed(db, AsHandOver(db, step), newId);
    PromotedClaimIs(db, step, after, newId);
  }

  lemma ReleaseToSomebody(db: Tables, id: Id, now: Time, newId: Id, w: Id, after: Tables)
    requires Next(db, Release(id, now, map[newId := w]), after)
    ensures w in db.queue && newId !in db.claims && db.queue[w].resource == db.claims[id].resource
    ensures after.queue == db.queue - {w}
    ensures
      var row := db.queue[w];
      after.claims == db.claims[id := db.claims[id].(status := Released, updatedAt := now)][newId := Claim(
        row.kind, row.resource, row.agent, Active, row.meta, now, Plus(now, row.expiresInSec), now)]
  {
    var promo := map[newId := w];
    ReleaseGrants(db, id, now, newId, w, after);
    ReleasedRows(db, id, now, promo, after);
    OneRowGranted(db, id, now, newId, w, after);
  }

  lemma ReleaseToNobody(db: Tables, id: Id, now: Time, after: Tables)
    requires Next(db, Release(id, now, map[]), after)
    ensures after.claims == db.claims[id := db.claims[id].(status := Released, updatedAt := now)]
    ensures after.queue == db.queue
    ensures forall w :: w in db.queue ==> db.queue[w].resource != db.claims[id].resource
  {
    var h := AsHandOver(db, Release(id, now, map[]));
    ReleasedRows(db, id, now, map[], after);
    NobodyGranted(db, id, now, after);
    forall w | w in db.queue ensures db.queue[w].resource != db.claims[id].resource {
      if db.queue[w].resource == db.claims[id].resource {
        var c := FreedIsHandedOn(db, h, w);
        assert false;
      }
    }
  }

  /** Row by row, what a release leaves apart from its promotions. */
  ghost predicate RowsReleased(db: Tables, id: Id, now: Time, promo: map<Id, Id>, after: Tables) {
    && id in db.claims
    && (forall d :: d in after.claims <==> d in db.claims || d in promo)
    && (forall d :: d in db.claims ==>
          d in after.claims && after.claims[d] ==
          if d == id then db.claims[d].(status := Released, updatedAt := now) else db.claims[d])
    && after.queue == db.queue - promo.Values
  }

  lemma ReleasedRows(db: Tables, id: Id, now: Time, promo: map<Id, Id>, after: Tables)
    requires Next(db, Release(id, now, promo), after)
    ensures RowsReleased(db, id, now, promo, after)
  {
    var h := AsHandOver(db, Release(id, now, promo));
    forall d ensures d in after.claims <==> d in db.claims || d in promo { HandOverClaims(db, h, d); }
    forall d | d in db.claims
      ensures d in after.claims && after.claims[d] ==
              if d == id then db.claims[d].(status := Released, updatedAt := now) else db.claims[d]
    {
      HandOverClaims(db, h, d);
    }
    PromotedAreQueued(db, h);
    assert db.queue - {} - promo.Values == db.queue - promo.Values;
  }

  lemma OneRowGranted(db: Tables, id: Id, now: Time, newId: Id, w: Id, after: Tables)
    requires RowsReleased(db, id, now, map[newId := w], after) && newId !in db.claims
    ensures newId in after.claims && after.queue == db.queue - {w}
    ensures after.claims ==
            db.claims[id := db.claims[id].(status := Released, updatedAt := now)][newId := after.claims[newId]]
  {
    var promo := map[newId := w];
    assert newId in promo && promo.Values == {w};
  }

  lemma NobodyGranted(db: Tables, id: Id, now: Time, after: Tables)
    requires RowsReleased(db, id, now, map[], after)
    ensures after.queue == db.queue
    ensures after.claims == db.claims[id := db.claims[id].(status := Released, updatedAt := now)]
  {
  }

  /** What an expiry leaves in the claims table, field by field: which claims end and how, and the promoted ones. */
  ghost predicate ExpiryWritesClaims(db: Tables, now: Time, promo: map<Id, Id>, after: Tables) {
    && (forall id :: id in after.claims <==> id in db.claims || id in promo)
    && (forall id :: id in db.claims ==>
          && id !in promo && id in after.claims
          && after.claims[id] == (
               if db.claims[id].status == Active && Less(Text(db.claims[id].expiresAt), Text(now))
               then db.claims[id].(status := Expired, updatedAt := now) else db.claims[id]))
    && (forall c :: c in promo ==>
          && promo[c] in db.queue && c in after.claims
          && after.claims[c] == Claim(
               db.queue[promo[c]].kind, db.queue[promo[c]].resource, db.queue[promo[c]].agent, Active,
               db.queue[promo[c]].meta, now, Plus(now, db.queue[promo[c]].expiresInSec), now))
  }

  /** What an expiry leaves in the queue: who is neither past its lifetime nor promoted; nobody past it is promoted. */
  ghost predicate ExpiryWritesQueue(db: Tables, now: Time, promo: map<Id, Id>, after: Tables) {
    && (forall w :: w in after.queue <==>
          && w in db.queue && !Before(Plus(db.queue[w].queuedAt, db.queue[w].expiresInSec), now)
          && w !in promo.Values)
    && (forall w :: w in after.queue ==> after.queue[w] == db.queue[w])
    && (forall w :: w in promo.Values ==>
          w in db.queue && !Before(Plus(db.queue[w].queuedAt, db.queue[w].expiresInSec), now))
  }

  lemma ExpiryWritesTheseClaims(db: Tables, now: Time, promo: map<Id, Id>, after: Tables)
    requires Next(db, Expire(now, promo), after)
    ensures ExpiryWritesClaims(db, now, promo, after)
  {
    var step := Expire(now, promo);
    var h := AsHandOver(db, step);
    forall id
      ensures id in after.claims <==> id in db.claims || id in promo
      ensures !(id in db.claims && id in promo)
    {
      HandOverClaims(db, h, id);
    }
    forall id | id in db.claims { EndingWritesStatusAndTime(db, step, after, id); }
    forall c | c in promo { PromotedClaimIs(db, step, after, c); }
  }

  lemma ExpiryWritesThisQueue(db: Tables, now: Time, promo: map<Id, Id>, after: Tables)
    requires Next(db, Expire(now, promo), after)
    ensures ExpiryWritesQueue(db, now, promo, after)
  {
    var h := AsHandOver(db, Expire(now, promo));
    forall w
      ensures w in after.queue <==> w in db.queue && w !in h.swept && w !in promo.Values
      ensures w in after.queue ==> after.queue[w] == db.queue[w]
      ensures w in promo.Values ==> w in db.queue && w !in h.swept
    {
      HandOverQueue(db, h, w);
    }
  }

  /** Fields a caller gives for a claim or a queue entry. */
  datatype Request = Request(kind: string, resource: string, agent: string, meta: string)

  class ClaimStore {
    var claims: map<Id, Claim>
    var queue: map<Id, Waiter>

    function Db(): Tables
      reads this
    {
      Tables(claims, queue)
    }

    constructor ()
      ensures Db() == EMPTY
    {
      claims, queue := map[], map[];
    }

    /** Publishes the transaction's tables, unless it is poisoned or the server fails the commit. */
    method Commit(tx: Tx) returns (err: Err)
      modifies this
      ensures err == if tx.aborted then ROLLED_BACK else tx.server.commitErr
      ensures Db() == if err == Nil then tx.View() else old(Db())
    {
      err := if tx.aborted then ROLLED_BACK else tx.server.commitErr;
      if err == Nil { claims, queue := tx.claims, tx.queue; }
    }

    method GetClaim(id: Id, server: Server) returns (r: Outcome<Claim>)
      ensures r.Success? ==> id in claims && r.value == claims[id]
      ensures r == Fail(Refused) <==> server.Refuses(0)
      ensures r == Fail(NotFound) <==> !server.Refuses(0) && id !in claims
      ensures r.Success? || r.error in {Refused, NotFound}
    {
      if server.Refuses(0) { return Fail(Refused); }
      r := if id in claims then Success(claims[id]) else Fail(NotFound);
    }

    /** CreateClaim: a conflict is reported exactly when the row is rejected by the key or the unique index. */
    method CreateClaim(id: Id, req: Request, expiresAt: Time, now: Time, server: Server)
      returns (r: Outcome<Claim>, ghost step: Step)
      modifies this
      ensures step == Create(id, Claim(req.kind, req.resource, req.agent, Active, req.meta, now, expiresAt, now))
      ensures r.Success? ==> Enabled(old(Db()), step) && Db() == Apply(old(Db()), step) && r.value == step.claim
      ensures r.Fail? ==> Db() == old(Db()) && r.error in {Conflict, Refused}
      ensures r == Fail(Conflict) <==> !server.Refuses(0) && !Enabled(old(Db()), step)
      ensures r.Success? <==> !server.Refuses(0) && server.Commits() && Enabled(old(Db()), step)
      ensures r.Success? ==> queue == old(queue) && claims == old(claims)[id := r.value]
    {
      var c := Claim(req.kind, req.resource, req.agent, Active, req.meta, now, expiresAt, now);
      step := Create(id, c);
      var tx := new Tx(claims, queue, server);
      assert tx.View() == Db();
      var err := tx.InsertClaim(id, c);
      if err != Nil { return Fail(if server.Refuses(0) then Refused else Conflict), step; }
      err := Commit(tx);
      r := if err == Nil then Success(c) else Fail(Refused);
    }

    /** EnqueueClaim: adds the waiter and reports how many now wait on its resource. */
    method EnqueueClaim(id: Id, req: Request, expiresInSec: int, now: Time, server: Server)
      returns (r: Outcome<(Waiter, nat)>, ghost step: Step, ghost sent: nat)
      modifies this
      ensures
        var ttl := if expiresInSec <= 0 then 3600 else expiresInSec;
        step == Enqueue(id, Waiter(req.resource, req.agent, req.kind, req.meta, ttl, now))
      ensures r.Success? ==> Enabled(old(Db()), step) && Db() == Apply(old(Db()), step)
      ensures r.Success? ==> r.value == (step.waiter, |set w | w in queue && queue[w].resource == req.resource|)
      ensures r.Success? ==> claims == old(claims) && queue == old(queue)[id := step.waiter]
      ensures r.Fail? ==> Db() == old(Db())
      ensures r.Success? <==> server.Commits() && server.Clean(0, sent) && id !in old(queue)
    {
      var ttl: nat := if expiresInSec <= 0 then 3600 else expiresInSec;
      var w := Waiter(req.resource, req.agent, req.kind, req.meta, ttl, now);
      step := Enqueue(id, w);
      var tx := new Tx(claims, queue, server);
      assert tx.View() == Db();
      ghost var fault;
      var err, position;
      err, position, fault := EnqueueBody(tx, id, w, 0);
      sent := tx.issued;
      if err != Nil { return Fail(Refused), step, sent; }
      err := Commit(tx);
      r := if err == Nil then Success((w, position)) else Fail(Refused);
    }

    /**
     ReleaseClaim: one Release step, or nothing. It succeeds exactly if the server refuses nothing
     and the claim exists and is not a dead one whose resource another claim holds while somebody waits.
     */
    method ReleaseClaim(id: Id, now: Time, newId: Id, server: Server)
      returns (r: Outcome<(Claim, Option<Waiter>)>, ghost step: Step, ghost sent: nat)
      modifies this
      ensures step.Release? && step.id == id && step.now == now
      ensures r.Success? ==>
                && Enabled(old(Db()), step) && Db() == Apply(old(Db()), step)
                && r.value.0 == old(claims)[id].(status := Released, updatedAt := now)
                && PromotedIs(old(Db()), step.promo, newId, r.value.1)
      ensures r.Success? ==> ReleaseWrites(old(Db()), id, now, newId, r.value.0, r.value.1, Db())
      ensures r.Fail? ==> Db() == old(Db())
      ensures r == Fail(NotFound) <==> !server.Refuses(0) && id !in old(claims)
      ensures newId !in old(claims) ==>
                (r.Success? <==>
                  server.Commits() && server.Clean(0, sent) && id in old(claims) && Releasable(old(Db()), id))
    {
      var tx := new Tx(claims, queue, server);
      assert tx.View() == Db();
      ghost var d;
      var err, vars;
      err, vars, d := ReleaseBody(tx, id, now, newId, ReleaseVars(None, None));
      step, sent := Release(id, now, d.Promo()), tx.issued;
      if err != Nil { return Fail(if err == NOT_FOUND && !tx.aborted then NotFound else Refused), step, sent; }
      CleanReleaseIsAStep(id, d, Db(), ReleaseVars(None, None));
      ReleaseWritesThis(Db(), id, now, newId, d.next, tx.View());
      err := Commit(tx);
      r := if err == Nil then Success((vars.released.value, vars.next)) else Fail(Refused);
    }

    /**
     RenewClaim: moves the deadline of an active claim; anything else is not found. The row is
     read back in a second round trip, before which others may run, so an error can hide a renewal
     that committed.
     */
    method RenewClaim(id: Id, expiresAt: Time, now: Time, others: Others, server: Server, readBack: Server)
      returns (r: Outcome<Claim>, ghost mid: Tables)
      requires Lawful(others)
      modifies this
      ensures r.Success? || r == Fail(Unread) ==> Next(old(Db()), Renew(id, expiresAt, now), mid) && Db() == others(mid)
      ensures r.Success? ==> id in claims && r.value == claims[id]
      ensures r.Fail? && r.error != Unread ==> Db() == mid == old(Db())
      ensures r.Success? || r == Fail(Unread) ==>
                && id in old(claims) && mid.queue == old(queue)
                && mid.claims == old(claims)[id := old(claims)[id].(expiresAt := expiresAt, updatedAt := now)]
      ensures r == Fail(NotFound) <==>
                !server.Refuses(0) && !(id in old(claims) && old(claims)[id].status == Active)
      ensures r.Success? <==>
                && !server.Refuses(0) && server.Commits() && !readBack.Refuses(0)
                && Enabled(old(Db()), Renew(id, expiresAt, now))
      ensures r == Fail(Unread) <==>
                && !server.Refuses(0) && server.Commits() && readBack.Refuses(0)
                && Enabled(old(Db()), Renew(id, expiresAt, now))
      ensures r.Success? || r.error in {NotFound, Refused, Unread}
    {
      var tx := new Tx(claims, queue, server);
      assert tx.View() == Db();
      mid := Db();
      var err, n := tx.ExtendActive(id, expiresAt, now);
      if err != Nil { return Fail(Refused), mid; }
      if n == 0 { return Fail(NotFound), mid; }
      err := Commit(tx);
      if err != Nil { return Fail(Refused), mid; }
      mid := Db();
      var moved := others(Db());
      claims, queue := moved.claims, moved.queue;
      OwnerSurvives(mid, Db(), id);
      r := GetClaim(id, readBack);
      if r.Fail? { r := Fail(Unread); }
    }

    /**
     ExpireOldClaims: one Expire step and its count, or an error and nothing changed. On tables
     with unique active claims and with fresh ids it succeeds exactly if the server refuses no
     statement and no commit. A statement refused in the sweep or in a promotion, whose error the
     code discards, makes it fail with an error that is not retried.
     */
    method ExpireOldClaims(now: Time, newId: nat -> Id, server: Server)
      returns (count: nat, err: Err, ghost promo: map<Id, Id>, ghost swept: nat, ghost sent: nat)
      modifies this
      ensures err == Nil ==>
                && Enabled(old(Db()), Expire(now, promo)) && Db() == Apply(old(Db()), Expire(now, promo))
                && count == |DueClaims(old(Db()), now)|
      ensures err == Nil ==> ExpiryWritesClaims(old(Db()), now, promo, Db())
      ensures err == Nil ==> ExpiryWritesQueue(old(Db()), now, promo, Db())
      ensures err != Nil ==> Db() == old(Db())
      ensures UniqueActive(old(Db())) && FreshIds(old(claims), newId) ==>
                (err == Nil <==> server.Commits() && server.Clean(0, sent))
      ensures 0 < swept < sent
      ensures !server.Clean(0, swept) ==> err == Wrap(IN_FAILED_TX) && !IsRetryable(err)
      ensures UniqueActive(old(Db())) && FreshIds(old(claims), newId) ==>
                (server.Clean(0, swept + 2) && !server.Clean(0, sent) ==> err == ROLLED_BACK && !IsRetryable(err))
    {
      var tx := new Tx(claims, queue, server);
      assert tx.View() == Db();
      ghost var d;
      err, count, d, swept := ExpireBody(tx, now, newId, 0);
      promo, sent := d.promo, tx.issued;
      if err != Nil { return; }
      if !tx.aborted {
        CleanExpiryIsAStep(d, Db(), 0);
        ExpiryWritesTheseClaims(Db(), now, promo, tx.View());
        ExpiryWritesThisQueue(Db(), now, promo, tx.View());
      }
      err := Commit(tx);
    }
  }
}
