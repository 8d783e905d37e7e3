/**
 Nothing in the claim protocol can get stuck: when a release can commit, that an expiry always
 can, and that every waiter on a held resource is a few releases away from its grant.
 */
module Progress {
  import opened Basics
  import opened Clock
  import opened ClaimTables
  import opened ClaimRuns
  import opened Promotion
  import opened Transaction
  import opened QueuePosition

  ghost predicate CanRelease(db: Tables, id: Id, now: Time) {
    exists promo :: Enabled(db, Release(id, now, promo))
  }

  lemma NextWaiterExists(db: Tables, r: string) returns (w: Option<Id>)
    ensures w.None? ==> forall v :: !Waiting(db, r, v)
    ensures w.Some? ==> IsNext(db, r, w.value)
  {
    var rows := set v | v in db.queue && db.queue[v].resource == r;
    assert forall v :: Waiting(db, r, v) <==> v in rows;
    if rows == {} {
      w := None;
    } else {
      var v := LeastOf(db.queue, rows);
      w := Some(v);
    }
  }

  lemma LeastOf(queue: map<Id, Waiter>, rows: set<Id>) returns (v: Id)
    requires rows != {} && rows <= queue.Keys
    ensures v in rows && forall j :: j in rows ==> !Earlier(queue[j], queue[v])
  {
    EarliestExists(queue, rows);
    v :| v in rows && forall j :: j in rows ==> !Less(Key(queue[j]), Key(queue[v]));
  }

  /** With a waiter in line behind another holder, the promotion would break the unique index. */
  lemma BlockedRelease(db: Tables, id: Id, now: Time, promo: map<Id, Id>, w: Id, j: Id)
    requires id in db.claims && Waiting(db, db.claims[id].resource, w)
    requires ActiveOn(db, db.claims[id].resource, j) && j != id
    ensures !Enabled(db, Release(id, now, promo))
  {
    if Enabled(db, Release(id, now, promo)) {
      var h := AsHandOver(db, Release(id, now, promo));
      var c := FreedIsHandedOn(db, h, w);
      PromotedOnFreed(db, h, c);
      assert false;
    }
  }

  /** A release can commit if and only if the claim exists and nobody waits behind another holder. */
  lemma ReleaseCommitsIffReleasable(db: Tables, id: Id, now: Time, newId: Id)
    requires newId !in db.claims
    ensures CanRelease(db, id, now) <==> id in db.claims && Releasable(db, id)
  {
    if id in db.claims {
      var mid, r := Ended(db, {id}, Released, now), db.claims[id].resource;
      ReleaseHolds(db, id, now);
      var w := NextWaiterExists(mid, r);
      if w.None? {
        ReleaseWithoutWaiters(db, id, now);
      } else if Held(mid, r) {
        var j :| ActiveOn(db, r, j) && j != id;
        forall promo ensures !Enabled(db, Release(id, now, promo)) {
          BlockedRelease(db, id, now, promo, w.value, j);
        }
      } else {
        ReleaseWithWaiter(db, id, now, newId, w.value);
      }
    }
  }

  /**
   A release does grant a waiter whose lifetime is over, if it is next and no expiry swept it before:
   the holder's release promotes the next waiter whatever its age, and with a full lifetime from now.
   */
  lemma ReleaseGrantsEvenTheStale(db: Tables, id: Id, now: Time, newId: Id, w: Id)
    requires UniqueActive(db) && newId !in db.claims
    requires w in db.queue && ActiveOn(db, db.queue[w].resource, id) && IsNext(db, db.queue[w].resource, w)
    ensures
      var step := Release(id, now, map[newId := w]);
      && Enabled(db, step) && GrantedBy(db, step, w)
      && w !in Apply(db, step).queue && newId in Apply(db, step).claims
      && Apply(db, step).claims[newId] == Claim(
           db.queue[w].kind, db.queue[w].resource, db.queue[w].agent, Active, db.queue[w].meta,
           now, Plus(now, db.queue[w].expiresInSec), now)
  {
    var r := db.queue[w].resource;
    var mid, step := Ended(db, {id}, Released, now), Release(id, now, map[newId := w]);
    ReleaseHolds(db, id, now);
    forall j | Waiting(mid, r, j) ensures !Earlier(mid.queue[j], mid.queue[w]) {
      assert Waiting(db, r, j);
    }
    assert Waiting(mid, r, w) && IsNext(mid, r, w);
    ReleaseWithWaiter(db, id, now, newId, w);
    assert step.promo[newId] == w;
  }

  // ---------------------------------------------------------------------- expiry

  lemma PromotionAdded(mid: Tables, rs: set<string>, promo: map<Id, Id>, r: string, c: Id, w: Id)
    requires Promotes(mid, rs, promo) && r !in rs && c !in promo && c !in mid.claims
    requires IsNext(mid, r, w) && !Held(mid, r)
    ensures Promotes(mid, rs + {r}, promo[c := w])
  {
    MoreLegalGrants(mid, rs, promo, r, c, w);
    MoreCovered(mid, rs, promo, r, c, w);
  }

  /** On resources that nobody holds, promotions can always be chosen. */
  lemma {:induction false} PromotionsExist(mid: Tables, rs: set<string>, now: Time, newId: nat -> Id)
    returns (promo: map<Id, Id>)
    requires FreshIds(mid.claims, newId) && forall r :: r in rs ==> !Held(mid, r)
    ensures Promotes(mid, rs, promo) && IdsUsed(promo, newId, |rs|)
    decreases rs
  {
    if rs == {} {
      promo := map[];
      PromotingNobody(mid, now);
    } else {
      var r :| r in rs;
      var rest := rs - {r};
      promo := PromotionsExist(mid, rest, now, newId);
      assert rs == rest + {r};
      NotYetReached(mid, rest, promo, now, r);
      var w := NextWaiterExists(mid, r);
      if w.None? {
        NobodyToPromote(mid, rest, promo, now, r);
      } else {
        var c := newId(|rest|);
        assert c !in promo;
        PromotionAdded(mid, rest, promo, r, c, w.value);
        promo := promo[c := w.value];
      }
    }
  }

  /** An expiry can commit at every instant, on all tables with unique active claims. */
  lemma ExpiryCanAlwaysCommit(db: Tables, now: Time, newId: nat -> Id) returns (promo: map<Id, Id>)
    requires UniqueActive(db) && FreshIds(db.claims, newId)
    ensures Enabled(db, Expire(now, promo))
  {
    MarkedFreesTheDue(db, now);
    promo := PromotionsExist(Marked(db, now), Freed(db, DueClaims(db, now)), now, newId);
    ExpiryCompletes(db, now, promo, Promote(Marked(db, now), promo, now));
  }

  // ------------------------------------------------------------------ every waiter

  /** Ids from k on are unused and all different. */
  ghost predicate UnusedFrom(claims: map<Id, Claim>, newId: nat -> Id, k: nat) {
    && (forall i :: k <= i ==> newId(i) !in claims)
    && (forall i, j :: newId(i) == newId(j) ==> i == j)
  }

  /** Releasing the holder of a resource with waiters hands it to one of them, and leaves it held. */
  lemma ReleaseServesSomebody(db: Tables, w: Id, now: Time, newId: nat -> Id, k: nat) returns (step: Step, v: Id)
    requires Inv(db) && w in db.queue && Held(db, db.queue[w].resource) && UnusedFrom(db.claims, newId, k)
    ensures step.Release? && Enabled(db, step) && step.promo == map[newId(k) := v]
    ensures v in db.queue && db.queue[v].resource == db.queue[w].resource && GrantedBy(db, step, v)
    ensures Inv(Apply(db, step)) && Held(Apply(db, step), db.queue[w].resource)
    ensures UnusedFrom(Apply(db, step).claims, newId, k + 1)
  {
    var r := db.queue[w].resource;
    var c :| ActiveOn(db, r, c);
    var mid := Ended(db, {c}, Released, now);
    ReleaseHolds(db, c, now);
    assert !Held(mid, r);
    assert Waiting(db, r, w);
    var next := NextWaiterExists(mid, r);
    v := next.value;
    assert Waiting(mid, r, v);
    step := Release(c, now, map[newId(k) := v]);
    ReleaseWithWaiter(db, c, now, newId(k), v);
    StepKeepsInv(db, step);
    assert step.promo[newId(k)] == v;
    GrantFollowsAnEnding(db, step, v);
  }

  /** A grant that is not w's leaves w queued, on the same resource, with a shorter line. */
  lemma SomebodyElseWasServed(db: Tables, step: Step, w: Id, v: Id)
    requires step.Release? && Enabled(db, step) && w in db.queue && v in db.queue && v != w
    requires db.queue[v].resource == db.queue[w].resource && GrantedBy(db, step, v)
    ensures
      var after := Apply(db, step);
      && w in after.queue && after.queue[w] == db.queue[w]
      && |Ahead(after, w)| < |Ahead(db, w)|
  {
    var h := AsHandOver(db, step);
    AloneInGrant(db, h, v, w);
    HandOverQueue(db, h, w);
    GrantShortensTheLine(db, h, w, v);
    ShorterLine(Ahead(db, w), h.swept, v);
  }

  /** A run of at least one and at most n releases from db, the last of which grants w. */
  ghost predicate Serves(dbs: seq<Tables>, steps: seq<Step>, db: Tables, w: Id, n: nat) {
    && Behaviour(dbs, steps) && dbs[0] == db && 1 <= |steps| <= n
    && (forall i :: 0 <= i < |steps| ==> steps[i].Release?)
    && GrantedBy(dbs[|steps| - 1], steps[|steps| - 1], w)
  }

  lemma ServesAtOnce(db: Tables, step: Step, after: Tables, w: Id)
    requires step.Release? && Behaviour([db, after], [step]) && GrantedBy(db, step, w)
    ensures Serves([db, after], [step], db, w, 1)
  {
  }

  lemma OneStep(db: Tables, step: Step, after: Tables)
    requires Next(db, step, after)
    ensures Behaviour([db, after], [step])
  {
    var dbs, steps := [db, after], [step];
    forall i | 0 <= i < 1 ensures Next(dbs[i], steps[i], dbs[i + 1]) {
    }
  }

  lemma ServesLater(db: Tables, step: Step, after: Tables, dbs: seq<Tables>, steps: seq<Step>, w: Id, n: nat)
    requires step.Release? && Next(db, step, after) && Serves(dbs, steps, after, w, n)
    ensures Serves([db] + dbs, [step] + steps, db, w, n + 1)
  {
    var dbs', steps' := [db] + dbs, [step] + steps;
    forall i | 0 <= i < |steps'| ensures Next(dbs'[i], steps'[i], dbs'[i + 1]) {
      if i > 0 { assert Next(dbs[i - 1], steps[i - 1], dbs[i]); }
    }
    assert dbs'[|steps|] == dbs[|steps| - 1] && steps'[|steps|] == steps[|steps| - 1];
  }

  lemma ServesSooner(dbs: seq<Tables>, steps: seq<Step>, db: Tables, w: Id, m: nat, n: nat)
    requires Serves(dbs, steps, db, w, m) && m <= n
    ensures Serves(dbs, steps, db, w, n)
  {
  }

  /** The first release: it serves w, or leaves w nearer to the front of a held resource. */
  lemma FirstRelease(db: Tables, w: Id, now: Time, newId: nat -> Id, k: nat) returns (step: Step, after: Tables)
    requires Inv(db) && w in db.queue && Held(db, db.queue[w].resource) && UnusedFrom(db.claims, newId, k)
    ensures step.Release? && Next(db, step, after)
    ensures GrantedBy(db, step, w) ||
            (&& Inv(after) && w in after.queue && Held(after, after.queue[w].resource)
             && UnusedFrom(after.claims, newId, k + 1) && |Ahead(after, w)| < |Ahead(db, w)|)
  {
    var v;
    step, v := ReleaseServesSomebody(db, w, now, newId, k);
    after := Apply(db, step);
    if v != w { SomebodyElseWasServed(db, step, w, v); }
  }

  /**
   No waiter on a held resource can be locked out: with n waiters that do not come after it,
   some run of at most n + 1 releases ends by granting it.
   */
  lemma {:induction false} EveryWaiterCanBeServed(db: Tables, w: Id, now: Time, newId: nat -> Id, k: nat)
    returns (dbs: seq<Tables>, steps: seq<Step>)
    requires Inv(db) && w in db.queue && Held(db, db.queue[w].resource) && UnusedFrom(db.claims, newId, k)
    ensures Serves(dbs, steps, db, w, |Ahead(db, w)| + 1)
    decreases |Ahead(db, w)|
  {
    var step, after := FirstRelease(db, w, now, newId, k);
    if GrantedBy(db, step, w) {
      OneStep(db, step, after);
      ServesAtOnce(db, step, after, w);
      dbs, steps := [db, after], [step];
      ServesSooner(dbs, steps, db, w, 1, |Ahead(db, w)| + 1);
    } else {
      var dbs', steps' := EveryWaiterCanBeServed(after, w, now, newId, k + 1);
      var n := |Ahead(after, w)| + 1;
      ServesLater(db, step, after, dbs', steps', w, n);
      dbs, steps := [db] + dbs', [step] + steps';
      ServesSooner(dbs, steps, db, w, n + 1, |Ahead(db, w)| + 1);
    }
  }

  // ----------------------------------------------------------------- a stranded waiter

  lemma ReleasedAlone(a: Claim, i: Id, now: Time)
    ensures
      var one := Tables(map[i := a], map[]);
      var two := Ended(one, {i}, Released, now);
      Next(one, Release(i, now, map[]), two) && two.claims.Keys == {i} && !Held(two, a.resource)
  {
    ReleaseWithoutWaiters(Tables(map[i := a], map[]), i, now);
  }

  /**
   The run that strands a waiter: a claims r, b is refused and goes to queue, a releases before b's
   enqueue commits. Then nobody holds r and b waits; and whoever claims r next overtakes b.
   */
  lemma AHandlerRunStrands(a: Claim, b: Claim, w: Waiter, c: Claim, i: Id, j: Id, k: Id, q: Id, now: Time)
    requires a.status.Active? && b.status.Active? && c.status.Active? && w.expiresInSec >= 1
    requires a.resource == b.resource == w.resource == c.resource && i != j && i != k
    ensures
      var steps := [Create(i, a), Release(i, now, map[]), Enqueue(q, w), Create(k, c)];
      exists dbs: seq<Tables> ::
        && Behaviour(dbs, steps) && dbs[0] == EMPTY
        && !Enabled(dbs[1], Create(j, b))
        && !Held(dbs[3], w.resource) && Waiting(dbs[3], w.resource, q)
        && ActiveOn(dbs[4], w.resource, k) && Waiting(dbs[4], w.resource, q)
  {
    var r := a.resource;
    var one := Tables(map[i := a], map[]);
    assert Next(EMPTY, Create(i, a), one);
    assert ActiveOn(one, r, i);
    var two := Ended(one, {i}, Released, now);
    ReleasedAlone(a, i, now);
    var three := two.(queue := two.queue[q := w]);
    assert Next(two, Enqueue(q, w), three);
    assert !Held(three, r) by { HeldIgnoresQueue(two, three, r); }
    CreateOvertakesAStrandedWaiter(three, q, k, c);
    var four := three.(claims := three.claims[k := c]);
    assert Next(three, Create(k, c), four);
    var dbs := [EMPTY, one, two, three, four];
    var steps := [Create(i, a), Release(i, now, map[]), Enqueue(q, w), Create(k, c)];
    forall n | 0 <= n < |steps| ensures Next(dbs[n], steps[n], dbs[n + 1]) {
    }
    assert Behaviour(dbs, steps);
  }
}
