/**
 The claim tables refine, resource by resource, a fair lock: an optional holder and a queue
 of tickets in key order. A free lock is taken only when nobody waits, a held one is
 joined, and an ending holder hands on to an oldest ticket.
 */
module FairLock {
  import opened Basics
  import opened Clock
  import opened ClaimTables
  import opened ClaimRuns

  // ------------------------------------------------------------ the abstract lock

  /** A place in the queue: the waiter and the text it is ordered by. */
  datatype Ticket = Ticket(id: Id, key: string)

  datatype Lock = Lock(holder: Option<Id>, waiters: seq<Ticket>)

  datatype LockOp =
    | Idle
    | Acquire(claim: Id)
    | Join(ticket: Ticket, at: nat)
    /** Tickets in `gone` give up; then, if `ends`, the holder leaves and ticket `at` is handed the lock as `claim`. */
    | Pass(gone: set<Id>, ends: bool, at: nat, claim: Id)

  predicate InOrder(ws: seq<Ticket>) {
    forall i, j :: 0 <= i < j < |ws| ==> !Less(ws[j].key, ws[i].key)
  }

  function RemoveAt(ws: seq<Ticket>, at: nat): seq<Ticket>
    requires at < |ws|
  {
    ws[..at] + ws[at + 1..]
  }

  function InsertAt(ws: seq<Ticket>, at: nat, t: Ticket): seq<Ticket>
    requires at <= |ws|
  {
    ws[..at] + [t] + ws[at..]
  }

  function Dropped(ws: seq<Ticket>, gone: set<Id>): seq<Ticket> {
    if ws == [] then []
    else (if ws[0].id in gone then [] else [ws[0]]) + Dropped(ws[1..], gone)
  }

  /** One move of the fair lock. */
  predicate LockNext(l: Lock, op: LockOp, after: Lock) {
    match op
    case Idle => after == l
    case Acquire(claim) => l.holder.None? && l.waiters == [] && after == Lock(Some(claim), [])
    case Join(ticket, at) =>
      && l.holder.Some? && at <= |l.waiters|
      && after == Lock(l.holder, InsertAt(l.waiters, at, ticket))
      && InOrder(after.waiters)
    case Pass(gone, ends, at, claim) =>
      var left := Dropped(l.waiters, gone);
      if !ends then after == Lock(l.holder, left)
      else
        && l.holder.Some?
        && (if left == [] then after == Lock(None, [])
            else at < |left| && left[at].key == left[0].key && after == Lock(Some(claim), RemoveAt(left, at)))
  }

  predicate DistinctKeys(ws: seq<Ticket>) {
    forall i, j :: 0 <= i < j < |ws| ==> ws[i].key != ws[j].key
  }

  /** With distinct keys the lock is first in, first out: an ending holder hands on to the head. */
  lemma DistinctKeysMeanFifo(l: Lock, gone: set<Id>, at: nat, claim: Id, after: Lock)
    requires LockNext(l, Pass(gone, true, at, claim), after)
    requires DistinctKeys(Dropped(l.waiters, gone)) && Dropped(l.waiters, gone) != []
    ensures after == Lock(Some(claim), Dropped(l.waiters, gone)[1..])
  {
    var left := Dropped(l.waiters, gone);
    assert at == 0;
    assert RemoveAt(left, 0) == left[1..];
  }

  // -------------------------------------------------------------- the abstraction

  predicate DistinctIds(ws: seq<Ticket>) {
    forall i, j :: 0 <= i < j < |ws| ==> ws[i].id != ws[j].id
  }

  predicate Listed(ws: seq<Ticket>, id: Id) {
    exists i :: 0 <= i < |ws| && ws[i].id == id
  }

  /** Ticket t is a row of r's queue. */
  ghost predicate IsRow(db: Tables, r: string, t: Ticket) {
    Waiting(db, r, t.id) && t.key == Key(db.queue[t.id])
  }

  /** ws lists exactly r's rows of the queue table, each once, in key order. */
  ghost predicate ShowsQueue(db: Tables, r: string, ws: seq<Ticket>) {
    && DistinctIds(ws)
    && InOrder(ws)
    && (forall i :: 0 <= i < |ws| ==> IsRow(db, r, ws[i]))
    && (forall id :: Waiting(db, r, id) ==> Listed(ws, id))
  }

  ghost predicate ShowsHolder(db: Tables, r: string, holder: Option<Id>) {
    match holder
    case None => !Held(db, r)
    case Some(id) => ActiveOn(db, r, id)
  }

  /** The lock that the tables represent for resource r. */
  ghost predicate Shows(db: Tables, r: string, l: Lock) {
    ShowsHolder(db, r, l.holder) && ShowsQueue(db, r, l.waiters)
  }

  // -------------------------------------------------------------- ticket sequences

  lemma {:induction false} DroppedMembers(ws: seq<Ticket>, gone: set<Id>, t: Ticket)
    ensures t in Dropped(ws, gone) <==> t in ws && t.id !in gone
  {
    if ws != [] { DroppedMembers(ws[1..], gone, t); }
  }

  lemma {:induction false} DroppedKeepsOrder(ws: seq<Ticket>, gone: set<Id>)
    requires InOrder(ws) && DistinctIds(ws)
    ensures InOrder(Dropped(ws, gone)) && DistinctIds(Dropped(ws, gone))
  {
    if ws != [] {
      var rest := Dropped(ws[1..], gone);
      DroppedKeepsOrder(ws[1..], gone);
      forall k | 0 <= k < |rest| ensures !Less(rest[k].key, ws[0].key) && rest[k].id != ws[0].id {
        DroppedMembers(ws[1..], gone, rest[k]);
        assert rest[k] in rest;
        var m :| 0 <= m < |ws[1..]| && ws[1..][m] == rest[k];
        assert ws[m + 1] == rest[k];
      }
    }
  }

  /** Where a new ticket goes: after every ticket that is not later. */
  lemma {:induction false} InsertPosition(ws: seq<Ticket>, t: Ticket) returns (at: nat)
    requires InOrder(ws)
    ensures at <= |ws| && InOrder(InsertAt(ws, at, t))
  {
    if ws == [] || Less(t.key, ws[0].key) {
      at := 0;
      var out := InsertAt(ws, 0, t);
      forall i, j | 0 <= i < j < |out| ensures !Less(out[j].key, out[i].key) {
        if i == 0 {
          if Less(ws[j - 1].key, t.key) {
            LessTransitive(ws[j - 1].key, t.key, ws[0].key);
            if j - 1 == 0 { LessIrreflexive(ws[0].key); }
          }
        }
      }
    } else {
      var k := InsertPosition(ws[1..], t);
      at := k + 1;
      var inner, out := InsertAt(ws[1..], k, t), InsertAt(ws, at, t);
      assert out == [ws[0]] + inner;
      forall j | 0 <= j < |inner| ensures !Less(inner[j].key, ws[0].key) {
        if j < k { assert inner[j] == ws[j + 1]; }
        else if j == k { assert inner[j] == t; }
        else { assert inner[j] == ws[j]; }
      }
    }
  }

  /** A waiter no other waiter precedes carries the head's key. */
  lemma NextHasHeadKey(ws: seq<Ticket>, at: nat)
    requires InOrder(ws) && at < |ws|
    requires forall k :: 0 <= k < |ws| ==> !Less(ws[k].key, ws[at].key)
    ensures ws[at].key == ws[0].key
  {
    LessTotal(ws[0].key, ws[at].key);
  }

  // ------------------------------------------------------------------- simulation

  /** Two tables that agree on r's queue rows show the same queue. */
  lemma SameQueueShown(db: Tables, after: Tables, r: string, ws: seq<Ticket>)
    requires ShowsQueue(db, r, ws)
    requires forall id :: Waiting(after, r, id) <==> Waiting(db, r, id)
    requires forall id :: Waiting(db, r, id) ==> id in after.queue && after.queue[id] == db.queue[id]
    ensures ShowsQueue(after, r, ws)
  {
    forall i | 0 <= i < |ws| ensures IsRow(after, r, ws[i]) {
      assert IsRow(db, r, ws[i]);
    }
  }

  lemma SameHolderShown(db: Tables, after: Tables, r: string, holder: Option<Id>)
    requires ShowsHolder(db, r, holder)
    requires forall id :: ActiveOn(after, r, id) <==> ActiveOn(db, r, id)
    ensures ShowsHolder(after, r, holder)
  {
  }

  lemma InsertedTickets(ws: seq<Ticket>, at: nat, t: Ticket)
    requires at <= |ws| && DistinctIds(ws) && !Listed(ws, t.id)
    ensures DistinctIds(InsertAt(ws, at, t))
    ensures forall k :: 0 <= k < |InsertAt(ws, at, t)| ==>
              InsertAt(ws, at, t)[k] == if k < at then ws[k] else if k == at then t else ws[k - 1]
    ensures forall id :: Listed(InsertAt(ws, at, t), id) <==> Listed(ws, id) || id == t.id
  {
    var ws' := InsertAt(ws, at, t);
    assert forall k :: 0 <= k < |ws'| ==> ws'[k] == if k < at then ws[k] else if k == at then t else ws[k - 1];
    forall id | Listed(ws, id) || id == t.id ensures Listed(ws', id) {
      if id == t.id {
        assert ws'[at].id == id;
      } else {
        var k :| 0 <= k < |ws| && ws[k].id == id;
        assert ws'[if k < at then k else k + 1].id == id;
      }
    }
  }

  lemma JoinQueueShown(db: Tables, r: string, id: Id, w: Waiter, ws: seq<Ticket>, at: nat)
    requires ShowsQueue(db, r, ws) && id !in db.queue && w.resource == r && at <= |ws|
    requires InOrder(InsertAt(ws, at, Ticket(id, Key(w))))
    ensures ShowsQueue(db.(queue := db.queue[id := w]), r, InsertAt(ws, at, Ticket(id, Key(w))))
  {
    var db' := db.(queue := db.queue[id := w]);
    var t := Ticket(id, Key(w));
    var ws' := InsertAt(ws, at, t);
    forall k | 0 <= k < |ws| ensures ws[k].id != id { assert IsRow(db, r, ws[k]); }
    assert !Listed(ws, id);
    InsertedTickets(ws, at, t);
    forall k | 0 <= k < |ws'| ensures IsRow(db', r, ws'[k]) {
      if k < at { assert IsRow(db, r, ws[k]); }
      else if k > at { assert IsRow(db, r, ws[k - 1]); }
    }
    forall j | Waiting(db', r, j) ensures Listed(ws', j) {
      if j != id { assert Waiting(db, r, j); }
    }
  }

  lemma JoinShown(db: Tables, r: string, id: Id, w: Waiter, l: Lock) returns (op: LockOp, after: Lock)
    requires Shows(db, r, l) && id !in db.queue && w.resource == r && Held(db, r)
    ensures op.Join? && op.ticket == Ticket(id, Key(w))
    ensures LockNext(l, op, after) && Shows(db.(queue := db.queue[id := w]), r, after)
  {
    var t := Ticket(id, Key(w));
    var at := InsertPosition(l.waiters, t);
    op, after := Join(t, at), Lock(l.holder, InsertAt(l.waiters, at, t));
    JoinQueueShown(db, r, id, w, l.waiters, at);
    SameHolderShown(db, db.(queue := db.queue[id := w]), r, l.holder);
  }

  /** Sweeping rows of the queue table drops their tickets. */
  lemma DropShown(db: Tables, r: string, gone: set<Id>, ws: seq<Ticket>)
    requires ShowsQueue(db, r, ws)
    ensures ShowsQueue(Without(db, gone), r, Dropped(ws, gone))
  {
    var left := Dropped(ws, gone);
    DroppedKeepsOrder(ws, gone);
    forall k | 0 <= k < |left| ensures IsRow(Without(db, gone), r, left[k]) {
      DroppedMembers(ws, gone, left[k]);
      var m :| 0 <= m < |ws| && ws[m] == left[k];
      assert IsRow(db, r, ws[m]);
    }
    forall id | Waiting(Without(db, gone), r, id) ensures Listed(left, id) {
      assert Waiting(db, r, id);
      var m :| 0 <= m < |ws| && ws[m].id == id;
      DroppedMembers(ws, gone, ws[m]);
    }
  }

  lemma RemovedTickets(ws: seq<Ticket>, at: nat)
    requires at < |ws| && DistinctIds(ws) && InOrder(ws)
    ensures DistinctIds(RemoveAt(ws, at)) && InOrder(RemoveAt(ws, at))
    ensures forall k :: 0 <= k < |RemoveAt(ws, at)| ==> RemoveAt(ws, at)[k] == ws[if k < at then k else k + 1]
    ensures forall id :: Listed(RemoveAt(ws, at), id) <==> Listed(ws, id) && id != ws[at].id
  {
    var ws' := RemoveAt(ws, at);
    assert forall k :: 0 <= k < |ws'| ==> ws'[k] == ws[if k < at then k else k + 1];
    forall id | Listed(ws, id) && id != ws[at].id ensures Listed(ws', id) {
      var k :| 0 <= k < |ws| && ws[k].id == id;
      assert ws'[if k < at then k else k - 1].id == id;
    }
  }

  /** Deleting one queue row removes its ticket. */
  lemma RemoveShown(db: Tables, after: Tables, r: string, ws: seq<Ticket>, at: nat)
    requires ShowsQueue(db, r, ws) && at < |ws|
    requires forall id :: Waiting(after, r, id) <==> Waiting(db, r, id) && id != ws[at].id
    requires forall id :: Waiting(after, r, id) ==> after.queue[id] == db.queue[id]
    ensures ShowsQueue(after, r, RemoveAt(ws, at))
  {
    var ws' := RemoveAt(ws, at);
    RemovedTickets(ws, at);
    forall k | 0 <= k < |ws'| ensures IsRow(after, r, ws'[k]) {
      assert IsRow(db, r, ws[if k < at then k else k + 1]);
    }
  }

  /** After the sweep and the ending, before the promotion: the queue shows the remaining tickets. */
  lemma MiddleShown(db: Tables, h: HandOver, r: string, l: Lock)
    requires Hands(db, h) && Shows(db, r, l)
    ensures ShowsQueue(Middle(db, h), r, Dropped(l.waiters, h.swept))
  {
    DropShown(db, r, h.swept, l.waiters);
    SameQueueShown(Without(db, h.swept), Middle(db, h), r, Dropped(l.waiters, h.swept));
  }

  /** Some waiter of r is promoted by the hand-over. */
  ghost predicate PromotesOn(db: Tables, h: HandOver, r: string, c: Id) {
    c in h.promo && h.promo[c] in db.queue && db.queue[h.promo[c]].resource == r
  }

  /** On a resource where nothing is promoted, the remaining tickets are the shown queue. */
  lemma UnpromotedShown(db: Tables, h: HandOver, r: string, l: Lock)
    requires Hands(db, h) && Shows(db, r, l)
    requires forall c :: !PromotesOn(db, h, r, c)
    ensures ShowsQueue(HandedOver(db, h), r, Dropped(l.waiters, h.swept))
  {
    var mid, after := Middle(db, h), HandedOver(db, h);
    MiddleShown(db, h, r, l);
    forall id ensures Waiting(after, r, id) <==> Waiting(mid, r, id) {
      HandOverQueue(db, h, id);
      if Waiting(mid, r, id) && id in h.promo.Values {
        var c :| c in h.promo && h.promo[c] == id;
        assert PromotesOn(db, h, r, c);
      }
    }
    forall id | Waiting(mid, r, id) ensures id in after.queue && after.queue[id] == mid.queue[id] {
      HandOverQueue(db, h, id);
    }
    SameQueueShown(mid, after, r, Dropped(l.waiters, h.swept));
  }

  /** Where a waiter w of r is promoted to c, its ticket has the head's key and leaves the shown queue. */
  lemma PromotedShown(db: Tables, h: HandOver, r: string, l: Lock, c: Id) returns (at: nat)
    requires Hands(db, h) && Shows(db, r, l)
    requires c in h.promo && h.promo[c] in db.queue && db.queue[h.promo[c]].resource == r
    ensures
      var left := Dropped(l.waiters, h.swept);
      && at < |left| && left[at].key == left[0].key && left[at].id == h.promo[c]
      && ShowsQueue(HandedOver(db, h), r, RemoveAt(left, at))
  {
    var mid, after, left := Middle(db, h), HandedOver(db, h), Dropped(l.waiters, h.swept);
    var w := h.promo[c];
    MiddleShown(db, h, r, l);
    PromotedOnFreed(db, h, c);
    assert Waiting(mid, r, w);
    assert Listed(left, w);
    at :| 0 <= at < |left| && left[at].id == w;
    assert IsRow(mid, r, left[at]);
    forall k | 0 <= k < |left| ensures !Less(left[k].key, left[at].key) {
      assert IsRow(mid, r, left[k]);
      assert IsNext(mid, r, w);
    }
    NextHasHeadKey(left, at);
    forall id ensures Waiting(after, r, id) <==> Waiting(mid, r, id) && id != w {
      HandOverQueue(db, h, id);
      if Waiting(mid, r, id) && id in h.promo.Values {
        var d :| d in h.promo && h.promo[d] == id;
      }
    }
    RemoveShown(mid, after, r, left, at);
  }

  /** The claim an ending holder hands on to was made for the very ticket that leaves the queue. */
  predicate GivesTheTicket(l: Lock, op: LockOp, promo: map<Id, Id>)
    requires op.Pass?
  {
    var left := Dropped(l.waiters, op.gone);
    op.ends && left != [] ==> op.at < |left| && op.claim in promo && promo[op.claim] == left[op.at].id
  }

  /** A hand-over that promotes a waiter of r passes the lock to that waiter's ticket. */
  lemma GrantShown(db: Tables, h: HandOver, r: string, l: Lock, c: Id) returns (op: LockOp, after: Lock)
    requires Held(db, r) && Hands(db, h) && Shows(db, r, l) && PromotesOn(db, h, r, c)
    ensures op.Pass? && op.gone == h.swept && op.ends && GivesTheTicket(l, op, h.promo)
    ensures exists id :: id in h.ended && ActiveOn(db, r, id)
    ensures LockNext(l, op, after) && Shows(HandedOver(db, h), r, after)
  {
    PromotedOnFreed(db, h, c);
    var holder :| ActiveOn(db, r, holder);
    var at := PromotedShown(db, h, r, l, c);
    op, after := Pass(h.swept, true, at, c), Lock(Some(c), RemoveAt(Dropped(l.waiters, h.swept), at));
    HandOverActive(db, h, r, c);
  }

  /** A hand-over that promotes nobody on r at most ends its holder. */
  lemma UngrantedActive(db: Tables, h: HandOver, r: string)
    requires Hands(db, h) && forall c :: !PromotesOn(db, h, r, c)
    ensures forall id :: ActiveOn(HandedOver(db, h), r, id) <==> ActiveOn(db, r, id) && id !in h.ended
  {
    forall id ensures ActiveOn(HandedOver(db, h), r, id) <==> ActiveOn(db, r, id) && id !in h.ended {
      HandOverActive(db, h, r, id);
      assert !PromotesOn(db, h, r, id);
    }
  }

  /** If the holder ends and nobody is promoted, nobody was left to promote. */
  lemma NobodyLeftWaiting(db: Tables, h: HandOver, r: string, l: Lock, e: Id)
    requires Hands(db, h) && Shows(db, r, l) && e in h.ended && ActiveOn(db, r, e)
    requires forall c :: !PromotesOn(db, h, r, c)
    ensures Dropped(l.waiters, h.swept) == []
  {
    var left := Dropped(l.waiters, h.swept);
    if left != [] {
      MiddleShown(db, h, r, l);
      var w := left[0].id;
      assert IsRow(Middle(db, h), r, left[0]);
      var c := FreedIsHandedOn(db, h, w);
      assert PromotesOn(db, h, r, c);
      assert false;
    }
  }

  lemma NoGrantShown(db: Tables, h: HandOver, r: string, l: Lock) returns (op: LockOp, after: Lock)
    requires UniqueActive(db) && Hands(db, h) && Shows(db, r, l) && forall c :: !PromotesOn(db, h, r, c)
    ensures op.Pass? && op.gone == h.swept && GivesTheTicket(l, op, h.promo)
    ensures op.ends <==> exists id :: id in h.ended && ActiveOn(db, r, id)
    ensures LockNext(l, op, after) && Shows(HandedOver(db, h), r, after)
  {
    UnpromotedShown(db, h, r, l);
    UngrantedActive(db, h, r);
    if e :| e in h.ended && ActiveOn(db, r, e) {
      NobodyLeftWaiting(db, h, r, l, e);
      op, after := Pass(h.swept, true, 0, ""), Lock(None, []);
    } else {
      op, after := Pass(h.swept, false, 0, ""), Lock(l.holder, Dropped(l.waiters, h.swept));
    }
  }

  /** If anybody waits on r, somebody holds it. */
  ghost predicate Guarded(db: Tables, r: string) {
    (exists w :: Waiting(db, r, w)) ==> Held(db, r)
  }

  lemma NoOrphansGuards(db: Tables, r: string)
    requires NoOrphans(db)
    ensures Guarded(db, r)
  {
    if w :| Waiting(db, r, w) { assert Held(db, db.queue[w].resource); }
  }

  /** A hand-over is one Pass of the lock on every guarded resource. */
  lemma HandOverShown(db: Tables, h: HandOver, r: string, l: Lock) returns (op: LockOp, after: Lock)
    requires Inv(db) && Guarded(db, r) && Hands(db, h) && Shows(db, r, l)
    ensures op.Pass? && op.gone == h.swept && GivesTheTicket(l, op, h.promo)
    ensures op.ends <==> exists id :: id in h.ended && ActiveOn(db, r, id)
    ensures LockNext(l, op, after) && Shows(HandedOver(db, h), r, after)
  {
    if c :| PromotesOn(db, h, r, c) {
      assert Waiting(db, r, h.promo[c]);
      op, after := GrantShown(db, h, r, l, c);
    } else {
      op, after := NoGrantShown(db, h, r, l);
    }
  }

  /** Nobody barges: where a claim can be taken directly, nobody is waiting. */
  lemma FreeMeansNobodyWaits(db: Tables, r: string, l: Lock)
    requires Guarded(db, r) && Shows(db, r, l) && !Held(db, r)
    ensures l == Lock(None, [])
  {
    assert l.waiters != [] ==> IsRow(db, r, l.waiters[0]);
  }

  /** A direct claim acquires the lock on its resource and is invisible on every other. */
  lemma CreateShown(db: Tables, id: Id, claim: Claim, r: string, l: Lock) returns (op: LockOp, after: Lock)
    requires Enabled(db, Create(id, claim)) && Shows(db, r, l) && (claim.resource == r ==> Guarded(db, r))
    ensures op == if claim.resource == r then Acquire(id) else Idle
    ensures LockNext(l, op, after) && Shows(Apply(db, Create(id, claim)), r, after)
  {
    var db' := Apply(db, Create(id, claim));
    SameQueueShown(db, db', r, l.waiters);
    if claim.resource == r {
      FreeMeansNobodyWaits(db, r, l);
      op, after := Acquire(id), Lock(Some(id), []);
      assert ActiveOn(db', r, id);
    } else {
      op, after := Idle, l;
      SameHolderShown(db, db', r, l.holder);
    }
  }

  /** Which kind of lock move a transaction may be, seen from resource r. */
  ghost predicate Explains(db: Tables, step: Step, r: string, l: Lock, op: LockOp) {
    match step
    case Create(id, claim) => op == if claim.resource == r then Acquire(id) else Idle
    case Enqueue(id, waiter) =>
      if waiter.resource == r then op.Join? && op.ticket == Ticket(id, Key(waiter)) else op == Idle
    case Renew(_, _, _) => op == Idle
    case Release(id, _, promo) =>
      op.Pass? && op.gone == {} && (op.ends <==> ActiveOn(db, r, id)) && GivesTheTicket(l, op, promo)
    case Expire(now, promo) =>
      && op.Pass? && op.gone == Swept(db, now)
      && (op.ends <==> exists id :: id in DueClaims(db, now) && ActiveOn(db, r, id))
      && GivesTheTicket(l, op, promo)
  }

  lemma EnqueueShown(db: Tables, step: Step, r: string, l: Lock) returns (op: LockOp, after: Lock)
    requires step.Enqueue? && Enabled(db, step) && Shows(db, r, l)
    requires step.waiter.resource == r ==> Held(db, r)
    ensures Explains(db, step, r, l, op)
    ensures LockNext(l, op, after) && Shows(Apply(db, step), r, after)
  {
    if step.waiter.resource == r {
      op, after := JoinShown(db, r, step.id, step.waiter, l);
    } else {
      op, after := Idle, l;
      SameQueueShown(db, Apply(db, step), r, l.waiters);
      SameHolderShown(db, Apply(db, step), r, l.holder);
    }
  }

  lemma RenewShown(db: Tables, step: Step, r: string, l: Lock)
    requires step.Renew? && Enabled(db, step) && Shows(db, r, l)
    ensures Shows(Apply(db, step), r, l)
  {
    SameQueueShown(db, Apply(db, step), r, l.waiters);
    SameHolderShown(db, Apply(db, step), r, l.holder);
  }

  /** On a guarded resource every transaction but an enqueue while it is free simulates one move of the fair lock. */
  lemma GuardedStepSimulatesLock(db: Tables, step: Step, r: string, l: Lock) returns (op: LockOp, after: Lock)
    requires Inv(db) && Guarded(db, r) && Enabled(db, step) && Shows(db, r, l)
    requires step.Enqueue? && step.waiter.resource == r ==> Held(db, r)
    ensures Explains(db, step, r, l, op)
    ensures LockNext(l, op, after) && Shows(Apply(db, step), r, after)
  {
    match step
    case Release(id, _, _) =>
      op, after := HandOverShown(db, AsHandOver(db, step), r, l);
      assert op.ends <==> ActiveOn(db, r, id) by { assert id in AsHandOver(db, step).ended; }
    case Expire(_, _) =>
      op, after := HandOverShown(db, AsHandOver(db, step), r, l);
    case Enqueue(_, _) =>
      op, after := EnqueueShown(db, step, r, l);
    case Create(id, claim) =>
      op, after := CreateShown(db, id, claim, r, l);
    case Renew(_, _, _) =>
      op, after := Idle, l;
      RenewShown(db, step, r, l);
  }

  /** Every committed transaction simulates one move of the fair lock on every resource. */
  lemma StepSimulatesLock(db: Tables, step: Step, r: string, l: Lock) returns (op: LockOp, after: Lock)
    requires Inv(db) && NoOrphans(db) && Enabled(db, step) && Undivided(db, step) && Shows(db, r, l)
    ensures Explains(db, step, r, l, op)
    ensures LockNext(l, op, after) && Shows(Apply(db, step), r, after)
  {
    NoOrphansGuards(db, r);
    op, after := GuardedStepSimulatesLock(db, step, r, l);
  }

  // ------------------------------------------------------------------------- runs

  /** The lock moves from l to l' by op exactly as the tables move from db to after, seen from r. */
  ghost predicate Simulated(db: Tables, step: Step, after: Tables, r: string, l: Lock, op: LockOp, l': Lock) {
    && Shows(db, r, l) && Shows(after, r, l')
    && Explains(db, step, r, l, op)
    && LockNext(l, op, l')
  }

  lemma NextSimulated(db: Tables, step: Step, after: Tables, r: string, l: Lock) returns (op: LockOp, l': Lock)
    requires Inv(db) && NoOrphans(db) && Next(db, step, after) && Undivided(db, step) && Shows(db, r, l)
    ensures Simulated(db, step, after, r, l, op, l') && Shows(after, r, l')
  {
    op, l' := StepSimulatesLock(db, step, r, l);
  }

  lemma EmptyShown(r: string)
    ensures Shows(EMPTY, r, Lock(None, []))
  {
  }

  lemma OpAt(dbs: seq<Tables>, steps: seq<Step>, r: string, n: nat, l: Lock) returns (op: LockOp, l': Lock)
    requires Behaviour(dbs, steps) && n < |steps| && dbs[0] == EMPTY && Shows(dbs[n], r, l)
    requires forall k :: 0 <= k < |steps| ==> Undivided(dbs[k], steps[k])
    ensures Simulated(dbs[n], steps[n], dbs[n + 1], r, l, op, l') && Shows(dbs[n + 1], r, l')
  {
    InvAlways(dbs, steps, n);
    NoOrphansAlways(dbs, steps, n);
    op, l' := NextSimulated(dbs[n], steps[n], dbs[n + 1], r, l);
  }

  /** One lock for each of the first n + 1 states, one operation for each of the first n steps. */
  ghost predicate Traces(
    dbs: seq<Tables>, steps: seq<Step>, r: string, n: nat, locks: seq<Lock>, ops: seq<LockOp>)
    requires n <= |steps| && |dbs| == |steps| + 1
  {
    && |locks| == n + 1 && |ops| == n && locks[0] == Lock(None, []) && Shows(dbs[n], r, locks[n])
    && forall i :: 0 <= i < n ==> Simulated(dbs[i], steps[i], dbs[i + 1], r, locks[i], ops[i], locks[i + 1])
  }

  lemma TraceOneMore(dbs: seq<Tables>, steps: seq<Step>, r: string, n: nat, locks: seq<Lock>, ops: seq<LockOp>,
                     op: LockOp, l': Lock)
    requires n < |steps| && |dbs| == |steps| + 1 && Traces(dbs, steps, r, n, locks, ops)
    requires Simulated(dbs[n], steps[n], dbs[n + 1], r, locks[n], op, l') && Shows(dbs[n + 1], r, l')
    ensures Traces(dbs, steps, r, n + 1, locks + [l'], ops + [op])
  {
  }

  /**
   Every run of the store from empty tables, with create-then-enqueue undivided, is on each
   resource a run of the fair lock.
   */
  lemma {:induction false} RunRefinesLock(dbs: seq<Tables>, steps: seq<Step>, r: string, n: nat)
    returns (locks: seq<Lock>, ops: seq<LockOp>)
    requires Behaviour(dbs, steps) && n <= |steps| && dbs[0] == EMPTY
    requires forall k :: 0 <= k < |steps| ==> Undivided(dbs[k], steps[k])
    ensures Traces(dbs, steps, r, n, locks, ops)
  {
    if n == 0 {
      locks, ops := [Lock(None, [])], [];
      EmptyShown(r);
    } else {
      var before, moves := RunRefinesLock(dbs, steps, r, n - 1);
      var op, after := OpAt(dbs, steps, r, n - 1, before[n - 1]);
      TraceOneMore(dbs, steps, r, n - 1, before, moves, op, after);
      locks, ops := before + [after], moves + [op];
    }
  }
}
