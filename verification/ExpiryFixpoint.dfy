/**
 ExpireOldClaims at a fixed instant: its count is the number of resources it frees, and a
 second run at the same instant finds nothing left to do.
 */
module ExpiryFixpoint {
  import opened Clock
  import opened ClaimTables

  /** Every lifetime in the queue, counted from now, ends in a year RFC 3339 can write. */
  ghost predicate Writable(db: Tables, now: Time) {
    && now.FourDigitYear()
    && forall w :: w in db.queue ==> Plus(now, db.queue[w].expiresInSec).FourDigitYear()
  }

  /** A claim promoted at now lasts at least a second, so it does not read as past at now. */
  lemma GrantedIsNotDue(w: Waiter, now: Time)
    requires w.expiresInSec >= 1 && now.FourDigitYear() && Plus(now, w.expiresInSec).FourDigitYear()
    ensures !Due(Granted(w, now), now)
  {
    PlusIsLater(now, w.expiresInSec);
    TextOrderAcrossSeconds(now, Plus(now, w.expiresInSec));
  }

  /** After an expiry at now no active claim reads as past at now. */
  lemma NothingDueAfterExpiry(db: Tables, now: Time, promo: map<Id, Id>)
    requires Inv(db) && Writable(db, now) && Enabled(db, Expire(now, promo))
    ensures DueClaims(Apply(db, Expire(now, promo)), now) == {}
  {
    var h := AsHandOver(db, Expire(now, promo));
    var after := HandedOver(db, h);
    forall id | id in after.claims ensures !Due(after.claims[id], now) {
      HandOverClaims(db, h, id);
      if id in promo {
        GrantedIsNotDue(db.queue[promo[id]], now);
      }
    }
  }

  /** After an expiry at now no waiter is stale at now. */
  lemma NothingStaleAfterExpiry(db: Tables, now: Time, promo: map<Id, Id>)
    requires Enabled(db, Expire(now, promo))
    ensures Swept(Apply(db, Expire(now, promo)), now) == {}
  {
    var h := AsHandOver(db, Expire(now, promo));
    var after := HandedOver(db, h);
    forall w | w in after.queue ensures !Stale(after.queue[w], now) {
      HandOverQueue(db, h, w);
      assert w !in Swept(db, now);
    }
  }

  lemma QuietMiddle(db: Tables, now: Time, promo: map<Id, Id>)
    requires DueClaims(db, now) == {} && Swept(db, now) == {}
    ensures
      var h := AsHandOver(db, Expire(now, promo));
      Middle(db, h) == db && Freed(db, h.ended) == {}
  {
    var h := AsHandOver(db, Expire(now, promo));
    assert Middle(db, h).queue == db.queue;
    assert Middle(db, h).claims == db.claims;
  }

  /** With nothing due and nothing stale, the only expiry that can commit changes nothing. */
  lemma QuietExpiryIsIdentity(db: Tables, now: Time, promo: map<Id, Id>)
    requires DueClaims(db, now) == {} && Swept(db, now) == {}
    ensures Enabled(db, Expire(now, promo)) <==> promo == map[]
    ensures promo == map[] ==> Apply(db, Expire(now, promo)) == db
  {
    QuietMiddle(db, now, promo);
    if promo == map[] {
      assert Promote(db, promo, now).claims == db.claims;
      assert Promote(db, promo, now).queue == db.queue;
    } else {
      var c :| c in promo;
      assert !Promotes(db, {}, promo);
    }
  }

  /** Expire is idempotent at a fixed instant: the second run can only commit as a run that changes nothing. */
  lemma ExpireTwice(db: Tables, now: Time, first: map<Id, Id>, second: map<Id, Id>)
    requires Inv(db) && Writable(db, now) && Enabled(db, Expire(now, first))
    ensures
      var once := Apply(db, Expire(now, first));
      && DueClaims(once, now) == {}
      && (Enabled(once, Expire(now, second)) <==> second == map[])
      && (second == map[] ==> Apply(once, Expire(now, second)) == once)
  {
    NothingDueAfterExpiry(db, now, first);
    NothingStaleAfterExpiry(db, now, first);
    QuietExpiryIsIdentity(Apply(db, Expire(now, first)), now, second);
  }

  /** The rows the expiring UPDATE affects are as many as the distinct resources collected before it. */
  lemma CountIsDistinctResources(db: Tables, now: Time)
    requires UniqueActive(db)
    ensures |DueClaims(db, now)| == |Freed(db, DueClaims(db, now))|
  {
    SameSizeByResource(db, DueClaims(db, now));
  }

  lemma {:induction false} SameSizeByResource(db: Tables, ids: set<Id>)
    requires ids <= db.claims.Keys && UniqueActive(db)
    requires forall id :: id in ids ==> db.claims[id].status.Active?
    ensures |ids| == |Freed(db, ids)|
  {
    if ids != {} {
      var id :| id in ids;
      var r := db.claims[id].resource;
      SameSizeByResource(db, ids - {id});
      assert r !in Freed(db, ids - {id}) by {
        forall j | j in ids - {id} ensures db.claims[j].resource != r {
          assert ActiveOn(db, db.claims[id].resource, id);
          assert ActiveOn(db, db.claims[j].resource, j);
        }
      }
      assert Freed(db, ids) == Freed(db, ids - {id}) + {r};
    }
  }
}
