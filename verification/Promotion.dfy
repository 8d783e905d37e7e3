/**
 How promotions add up: the state between two turns of the promotion loop, and the last step of
 a release, as values of the promotion map that ClaimTables puts into a step.
 */
module Promotion {
  import opened Basics
  import opened Clock
  import opened ClaimTables

  ghost function SetOf(rs: seq<string>): set<string> {
    set r | r in rs
  }

  lemma SetOfGrows(rs: seq<string>, i: nat)
    requires i < |rs| && forall a, b :: 0 <= a < b < |rs| ==> rs[a] != rs[b]
    ensures SetOf(rs[..i + 1]) == SetOf(rs[..i]) + {rs[i]} && rs[i] !in SetOf(rs[..i])
  {
    assert rs[..i + 1] == rs[..i] + [rs[i]];
  }

  // --------------------------------------------------------- one more promotion

  lemma PromotingNobody(mid: Tables, now: Time)
    ensures Promotes(mid, {}, map[]) && Promote(mid, map[], now) == mid
  {
    assert Promote(mid, map[], now).claims == mid.claims && Promote(mid, map[], now).queue == mid.queue;
  }

  lemma ValuesWithOneMore(promo: map<Id, Id>, c: Id, w: Id)
    requires c !in promo
    ensures promo[c := w].Values == promo.Values + {w}
  {
    var more := promo[c := w];
    assert more[c] == w;
    forall v | v in promo.Values ensures v in more.Values {
      var d :| d in promo && promo[d] == v;
      assert more[d] == v;
    }
  }

  lemma GrantingOneMore(queue: map<Id, Waiter>, promo: map<Id, Id>, now: Time, c: Id, w: Id)
    requires (forall d :: d in promo ==> promo[d] in queue) && w in queue
    ensures Grants(queue, promo[c := w], now) == Grants(queue, promo, now)[c := Granted(queue[w], now)]
  {
  }

  lemma PromotingOneMore(mid: Tables, promo: map<Id, Id>, now: Time, c: Id, w: Id)
    requires (forall d :: d in promo ==> promo[d] in mid.queue) && w in mid.queue && c !in promo
    ensures
      var view := Promote(mid, promo, now);
      Promote(mid, promo[c := w], now) ==
        Tables(view.claims[c := Granted(mid.queue[w], now)], view.queue - {w})
  {
    GrantingOneMore(mid.queue, promo, now, c, w);
    ValuesWithOneMore(promo, c, w);
    var granted := Grants(mid.queue, promo, now);
    var claim := Granted(mid.queue[w], now);
    assert mid.claims + granted[c := claim] == (mid.claims + granted)[c := claim];
    assert mid.queue - (promo.Values + {w}) == mid.queue - promo.Values - {w};
  }

  lemma PromotedLieIn(mid: Tables, rs: set<string>, promo: map<Id, Id>)
    requires Promotes(mid, rs, promo)
    ensures forall w :: w in promo.Values ==> w in mid.queue && mid.queue[w].resource in rs
  {
    forall w | w in promo.Values ensures w in mid.queue && mid.queue[w].resource in rs {
      var c :| c in promo && promo[c] == w;
      assert LegalGrant(mid, rs, c, w);
    }
  }

  /** The queue rows and the holder of a resource not reached yet are those after the expiring UPDATE. */
  lemma NotYetReached(mid: Tables, rs: set<string>, promo: map<Id, Id>, now: Time, r: string)
    requires Promotes(mid, rs, promo) && r !in rs
    ensures forall w :: Waiting(Promote(mid, promo, now), r, w) <==> Waiting(mid, r, w)
    ensures Held(Promote(mid, promo, now), r) <==> Held(mid, r)
  {
    var view := Promote(mid, promo, now);
    PromotedLieIn(mid, rs, promo);
    forall j ensures ActiveOn(view, r, j) <==> ActiveOn(mid, r, j) {
      if j in promo { assert LegalGrant(mid, rs, j, promo[j]); }
    }
    if j :| ActiveOn(view, r, j) { assert ActiveOn(mid, r, j); }
    if j :| ActiveOn(mid, r, j) { assert ActiveOn(view, r, j); }
  }

  /** Resource r has no waiter left: the promotions so far cover it. */
  lemma NobodyToPromote(mid: Tables, rs: set<string>, promo: map<Id, Id>, now: Time, r: string)
    requires Promotes(mid, rs, promo) && r !in rs
    requires forall w :: !Waiting(Promote(mid, promo, now), r, w)
    ensures Promotes(mid, rs + {r}, promo)
  {
    NotYetReached(mid, rs, promo, now, r);
    forall c | c in promo ensures LegalGrant(mid, rs + {r}, c, promo[c]) {
      assert LegalGrant(mid, rs, c, promo[c]);
    }
    forall w | w in mid.queue && mid.queue[w].resource in rs + {r} ensures Covered(mid, promo, mid.queue[w].resource) {
      assert !Waiting(Promote(mid, promo, now), r, w);
    }
  }

  lemma MoreLegalGrants(mid: Tables, rs: set<string>, promo: map<Id, Id>, r: string, c: Id, w: Id)
    requires Promotes(mid, rs, promo) && r !in rs && c !in promo && c !in mid.claims
    requires IsNext(mid, r, w) && !Held(mid, r)
    ensures var more := promo[c := w]; forall d :: d in more ==> LegalGrant(mid, rs + {r}, d, more[d])
    ensures OnePerResource(mid, promo[c := w])
  {
    var more := promo[c := w];
    forall d | d in more ensures LegalGrant(mid, rs + {r}, d, more[d]) {
      if d != c { assert LegalGrant(mid, rs, d, promo[d]); }
    }
    forall d | d in promo ensures promo[d] in mid.queue && mid.queue[promo[d]].resource != r {
      assert LegalGrant(mid, rs, d, promo[d]);
    }
  }

  lemma MoreCovered(mid: Tables, rs: set<string>, promo: map<Id, Id>, r: string, c: Id, w: Id)
    requires Promotes(mid, rs, promo) && c !in promo && Waiting(mid, r, w)
    ensures forall v :: v in mid.queue && mid.queue[v].resource in rs + {r} ==>
              Covered(mid, promo[c := w], mid.queue[v].resource)
  {
    var more := promo[c := w];
    forall v | v in mid.queue && mid.queue[v].resource in rs + {r} ensures Covered(mid, more, mid.queue[v].resource) {
      if mid.queue[v].resource == r {
        assert c in more && more[c] == w;
      } else {
        assert Covered(mid, promo, mid.queue[v].resource);
        var d :| d in promo && promo[d] in mid.queue && mid.queue[promo[d]].resource == mid.queue[v].resource;
        assert d in more && more[d] == promo[d];
      }
    }
  }

  /** One turn of the promotion loop: pop the next waiter of r and insert its claim. */
  lemma PromoteOneMore(mid: Tables, rs: set<string>, promo: map<Id, Id>, now: Time, r: string, c: Id, w: Id)
    requires Promotes(mid, rs, promo) && r !in rs
    requires
      var view := Promote(mid, promo, now);
      IsNext(view, r, w) && c !in view.claims && !Held(view, r)
    ensures Promotes(mid, rs + {r}, promo[c := w])
    ensures w in mid.queue
    ensures
      var view := Promote(mid, promo, now);
      Promote(mid, promo[c := w], now) ==
        Tables(view.claims[c := Granted(mid.queue[w], now)], view.queue - {w})
  {
    var view := Promote(mid, promo, now);
    NotYetReached(mid, rs, promo, now, r);
    assert Waiting(mid, r, w);
    assert IsNext(mid, r, w) by {
      forall j | Waiting(mid, r, j) ensures !Earlier(mid.queue[j], mid.queue[w]) {
        assert Waiting(view, r, j);
      }
    }
    MoreLegalGrants(mid, rs, promo, r, c, w);
    MoreCovered(mid, rs, promo, r, c, w);
    PromotingOneMore(mid, promo, now, c, w);
  }

  // ------------------------------------------------------------- release, as one step

  /** Nobody waits on the claim's resource, or nobody but the claim itself holds it. */
  ghost predicate Releasable(db: Tables, id: Id)
    requires id in db.claims
  {
    var r := db.claims[id].resource;
    (forall w :: !Waiting(db, r, w)) || (forall j :: ActiveOn(db, r, j) ==> j == id)
  }

  lemma HeldIgnoresQueue(a: Tables, b: Tables, r: string)
    requires a.claims == b.claims
    ensures Held(a, r) <==> Held(b, r)
  {
    if j :| ActiveOn(a, r, j) { assert ActiveOn(b, r, j); }
    if j :| ActiveOn(b, r, j) { assert ActiveOn(a, r, j); }
  }

  lemma ReleaseMiddle(db: Tables, id: Id, now: Time, promo: map<Id, Id>)
    requires id in db.claims
    ensures
      var h := AsHandOver(db, Release(id, now, promo));
      && Middle(db, h) == Ended(db, {id}, Released, now)
      && Freed(db, h.ended) == {db.claims[id].resource}
  {
    assert Without(db, {}) == db by { assert db.queue - {} == db.queue; }
  }

  lemma ReleaseHolds(db: Tables, id: Id, now: Time)
    requires id in db.claims
    ensures
      var mid, r := Ended(db, {id}, Released, now), db.claims[id].resource;
      && (Held(mid, r) <==> exists j :: ActiveOn(db, r, j) && j != id)
      && (forall w :: Waiting(mid, r, w) <==> Waiting(db, r, w))
  {
    var mid, r := Ended(db, {id}, Released, now), db.claims[id].resource;
    assert forall j :: ActiveOn(mid, r, j) <==> ActiveOn(db, r, j) && j != id;
  }

  lemma ReleaseWithoutWaiters(db: Tables, id: Id, now: Time)
    requires id in db.claims
    requires forall w :: !Waiting(Ended(db, {id}, Released, now), db.claims[id].resource, w)
    ensures Enabled(db, Release(id, now, map[]))
    ensures Apply(db, Release(id, now, map[])) == Ended(db, {id}, Released, now)
  {
    var mid := Ended(db, {id}, Released, now);
    ReleaseMiddle(db, id, now, map[]);
    forall w | w in mid.queue && mid.queue[w].resource == db.claims[id].resource ensures false {
      assert Waiting(mid, db.claims[id].resource, w);
    }
    assert Promotes(mid, {db.claims[id].resource}, map[]);
    assert Promote(mid, map[], now).claims == mid.claims && Promote(mid, map[], now).queue == mid.queue;
  }

  /** Promoting one waiter of the only freed resource. */
  lemma PromoteFirst(mid: Tables, r: string, c: Id, w: Id, now: Time)
    requires IsNext(mid, r, w) && c !in mid.claims && !Held(mid, r)
    ensures Promotes(mid, {r}, map[c := w])
    ensures Promote(mid, map[c := w], now) == Tables(mid.claims[c := Granted(mid.queue[w], now)], mid.queue - {w})
  {
    var promo := map[c := w];
    assert promo == map[][c := w];
    assert promo[c] == w;
    assert Covered(mid, promo, r);
    PromotingNobody(mid, now);
    PromotingOneMore(mid, map[], now, c, w);
  }

  lemma ReleaseWithWaiter(db: Tables, id: Id, now: Time, newId: Id, w: Id)
    requires id in db.claims
    requires
      var mid, r := Ended(db, {id}, Released, now), db.claims[id].resource;
      IsNext(mid, r, w) && newId !in mid.claims && !Held(mid, r)
    ensures Enabled(db, Release(id, now, map[newId := w]))
    ensures
      var mid := Ended(db, {id}, Released, now);
      Apply(db, Release(id, now, map[newId := w])) ==
        Tables(mid.claims[newId := Granted(db.queue[w], now)], mid.queue - {w})
  {
    var mid, promo := Ended(db, {id}, Released, now), map[newId := w];
    ReleaseMiddle(db, id, now, promo);
    PromoteFirst(mid, db.claims[id].resource, newId, w, now);
  }

  /** Once the claim is marked, it is releasable exactly if nobody waits or nobody holds its resource. */
  lemma ReleasableWhenMarked(db: Tables, id: Id, now: Time)
    requires id in db.claims
    ensures
      var mid, r := Ended(db, {id}, Released, now), db.claims[id].resource;
      Releasable(db, id) <==> (forall w :: !Waiting(mid, r, w)) || !Held(mid, r)
  {
    ReleaseHolds(db, id, now);
  }

  /** after is db with waiter w, the next of r, popped and its claim inserted, both constraints passed. */
  ghost predicate Promoted(db: Tables, r: string, now: Time, newId: Id, w: Id, after: Tables) {
    && IsNext(db, r, w) && newId !in db.claims && !Held(db, r)
    && after == Tables(db.claims[newId := Granted(db.queue[w], now)], db.queue - {w})
  }

  /** Promoting the next waiter, if there is one, completes the Release step. */
  lemma HandedOn(db: Tables, id: Id, now: Time, newId: Id, next: Option<Id>, after: Tables)
    requires id in db.claims
    requires
      var mid, r := Ended(db, {id}, Released, now), db.claims[id].resource;
      if next.Some? then Promoted(mid, r, now, newId, next.value, after)
      else after == mid && forall w :: !Waiting(mid, r, w)
    ensures Next(db, Release(id, now, if next.Some? then map[newId := next.value] else map[]), after)
  {
    if next.Some? {
      ReleaseWithWaiter(db, id, now, newId, next.value);
    } else {
      ReleaseWithoutWaiters(db, id, now);
    }
  }

  /** One turn of the promotion loop, on the tables that the turns before it have left. */
  lemma PromotedMore(
    mid: Tables, done: set<string>, promo: map<Id, Id>, now: Time, r: string, id: Id, next: Option<Id>, after: Tables)
    requires Promotes(mid, done, promo) && r !in done
    requires
      var view := Promote(mid, promo, now);
      if next.Some? then Promoted(view, r, now, id, next.value, after)
      else after == view && forall w :: !Waiting(view, r, w)
    ensures
      var more := if next.Some? then promo[id := next.value] else promo;
      Promotes(mid, done + {r}, more) && after == Promote(mid, more, now)
  {
    if next.Some? {
      PromoteOneMore(mid, done, promo, now, r, id, next.value);
    } else {
      NobodyToPromote(mid, done, promo, now, r);
    }
  }

  // -------------------------------------------------------------- expiry, as one step

  lemma ExpireMiddle(db: Tables, now: Time)
    ensures
      var swept := Without(db, Swept(db, now));
      && DueClaims(swept, now) == DueClaims(db, now)
      && Freed(swept, DueClaims(swept, now)) == Freed(db, DueClaims(db, now))
  {
  }

  /** The tables after the sweep and the expiring UPDATE. */
  ghost function Marked(db: Tables, now: Time): Tables {
    Ended(Without(db, Swept(db, now)), DueClaims(db, now), Expired, now)
  }

  /** After the expiring UPDATE nobody holds a collected resource. */
  lemma MarkedFreesTheDue(db: Tables, now: Time)
    requires UniqueActive(db)
    ensures forall r :: r in Freed(db, DueClaims(db, now)) ==> !Held(Marked(db, now), r)
    ensures Marked(db, now).claims.Keys == db.claims.Keys
  {
    ExpiryFreesEveryDueResource(db, now, Swept(db, now));
  }

  /** Promotions on all the freed resources complete the Expire step. */
  lemma ExpiryCompletes(db: Tables, now: Time, promo: map<Id, Id>, after: Tables)
    requires Promotes(Marked(db, now), Freed(db, DueClaims(db, now)), promo)
    requires after == Promote(Marked(db, now), promo, now)
    ensures Next(db, Expire(now, promo), after)
  {
    assert Middle(db, AsHandOver(db, Expire(now, promo))) == Marked(db, now);
  }

  /** Freshly generated ids: none in the table, and no two alike. */
  ghost predicate FreshIds(claims: map<Id, Claim>, newId: nat -> Id) {
    && (forall i :: newId(i) !in claims)
    && (forall i, j :: newId(i) == newId(j) ==> i == j)
  }

  ghost predicate IdsUsed(promo: map<Id, Id>, newId: nat -> Id, i: nat) {
    forall c :: c in promo ==> exists k :: 0 <= k < i && newId(k) == c
  }
}
