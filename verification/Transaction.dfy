/**
 One database transaction on a snapshot of the two claim tables. A statement fails if the server
 refuses it or a constraint rejects it, and a failed statement poisons the transaction: every
 later statement fails too, and so does the commit.
 */
module Transaction {
  import opened Basics
  import opened Errors
  import opened Clock
  import opened ClaimTables

  lemma HeldAsRows(db: Tables, r: string)
    ensures Held(db, r) <==> exists j | j in db.claims :: db.claims[j].resource == r && db.claims[j].status.Active?
  {
    if j :| ActiveOn(db, r, j) {}
    if j :| j in db.claims && db.claims[j].resource == r && db.claims[j].status.Active? { assert ActiveOn(db, r, j); }
  }

  /** Among finitely many keyed rows some are least. */
  lemma {:induction false} LeastExists(keys: map<Id, string>, rows: set<Id>)
    requires rows != {} && rows <= keys.Keys
    ensures exists id :: id in rows && forall j :: j in rows ==> !Less(keys[j], keys[id])
  {
    var x :| x in rows;
    var rest := rows - {x};
    LessIrreflexive(keys[x]);
    if rest == {} {
      assert rows == {x};
    } else {
      LeastExists(keys, rest);
      var y :| y in rest && forall j :: j in rest ==> !Less(keys[j], keys[y]);
      if Less(keys[x], keys[y]) {
        forall j | j in rows ensures !Less(keys[j], keys[x]) {
          if Less(keys[j], keys[x]) { LessTransitive(keys[j], keys[x], keys[y]); }
        }
      } else {
        assert forall j :: j in rows ==> j == x || j in rest;
      }
    }
  }

  lemma EarliestExists(queue: map<Id, Waiter>, rows: set<Id>)
    requires rows != {} && rows <= queue.Keys
    ensures exists id :: id in rows && forall j :: j in rows ==> !Less(Key(queue[j]), Key(queue[id]))
  {
    var keys := map id | id in queue :: Key(queue[id]);
    LeastExists(keys, rows);
    var y :| y in rows && forall j :: j in rows ==> !Less(keys[j], keys[y]);
    assert forall j :: j in rows ==> keys[j] == Key(queue[j]);
  }

  /** One of the rows with the least queue key, if there is a row. */
  method Earliest(queue: map<Id, Waiter>, rows: set<Id>) returns (next: Option<Id>)
    requires rows <= queue.Keys
    ensures next.None? <==> rows == {}
    ensures next.Some? ==> next.value in rows && forall j :: j in rows ==> !Earlier(queue[j], queue[next.value])
  {
    if rows == {} { return None; }
    EarliestExists(queue, rows);
    var id :| id in rows && forall j | j in rows :: !Less(Key(queue[j]), Key(queue[id]));
    next := Some(id);
  }

  class Tx {
    var claims: map<Id, Claim>
    var queue: map<Id, Waiter>
    /** Set by the first statement that fails. */
    var aborted: bool
    /** How many statements were sent. */
    var issued: nat
    const server: Server

    ghost function View(): Tables
      reads this
    {
      Tables(claims, queue)
    }

    /** The server refused no statement since the one numbered `start`. */
    ghost predicate CleanFrom(start: nat)
      reads this
    {
      server.Clean(start, issued)
    }

    /** What the next statement gets: the poisoned transaction answers first, then the server, then the constraints. */
    function Answer(violates: bool): Err
      reads this
    {
      if aborted then IN_FAILED_TX
      else if server.Refuses(issued) then server.fault(issued)
      else if violates then UNIQUE_VIOLATION
      else Nil
    }

    /** The row's key is taken, or it is active and the partial unique index is. */
    ghost predicate Rejects(id: Id, c: Claim)
      reads this
    {
      id in claims || (c.status.Active? && Held(View(), c.resource))
    }

    constructor (claims: map<Id, Claim>, queue: map<Id, Waiter>, server: Server)
      ensures View() == Tables(claims, queue) && !aborted && issued == 0 && this.server == server
    {
      this.claims, this.queue, this.server := claims, queue, server;
      this.aborted, this.issued := false, 0;
    }

    /** Sends one statement; `violates` says that a constraint rejects it. */
    method Issue(violates: bool) returns (err: Err)
      modifies this`aborted, this`issued
      ensures err == old(Answer(violates))
      ensures issued == old(issued) + 1 && (aborted <==> err != Nil)
    {
      err := Answer(violates);
      aborted, issued := err != Nil, issued + 1;
    }

    /** INSERT INTO claims: the primary key and the partial unique index may reject the row. */
    method InsertClaim(id: Id, c: Claim) returns (err: Err)
      modifies this
      ensures err == old(Answer(Rejects(id, c)))
      ensures issued == old(issued) + 1 && (aborted <==> err != Nil)
      ensures View() == if err == Nil then old(View()).(claims := old(claims)[id := c]) else old(View())
    {
      var taken := c.status.Active? &&
        exists j | j in claims :: claims[j].resource == c.resource && claims[j].status.Active?;
      HeldAsRows(View(), c.resource);
      err := Issue(id in claims || taken);
      if err == Nil { claims := claims[id := c]; }
    }

    /** UPDATE claims SET status = 'released' WHERE id = $3. */
    method MarkReleased(id: Id, now: Time) returns (err: Err, n: nat)
      modifies this
      ensures err == old(Answer(false)) && (n == 0 <==> id !in old(claims))
      ensures issued == old(issued) + 1 && (aborted <==> err != Nil)
      ensures View() == if err == Nil then Ended(old(View()), {id}, Released, now) else old(View())
    {
      err := Issue(false);
      n := if id in claims then 1 else 0;
      if err == Nil {
        claims := map j | j in claims ::
          if j in {id} then claims[j].(status := Released, updatedAt := now) else claims[j];
      }
    }

    method SelectClaim(id: Id) returns (err: Err, row: Option<Claim>)
      modifies this
      ensures err == old(Answer(false)) && row == if id in claims then Some(claims[id]) else None
      ensures issued == old(issued) + 1 && (aborted <==> err != Nil) && View() == old(View())
    {
      err := Issue(false);
      row := if id in claims then Some(claims[id]) else None;
    }

    /** UPDATE claims SET expires_at ... WHERE id = $3 AND status = 'active'. */
    method ExtendActive(id: Id, expiresAt: Time, now: Time) returns (err: Err, n: nat)
      modifies this
      ensures err == old(Answer(false)) && (n == 0 <==> !(id in old(claims) && old(claims)[id].status.Active?))
      ensures issued == old(issued) + 1 && (aborted <==> err != Nil)
      ensures View() ==
              if err == Nil && id in old(claims) && old(claims)[id].status.Active? then
                old(View()).(claims := old(claims)[id := old(claims)[id].(expiresAt := expiresAt, updatedAt := now)])
              else old(View())
    {
      err := Issue(false);
      n := if id in claims && claims[id].status.Active? then 1 else 0;
      if err == Nil && n == 1 {
        claims := claims[id := claims[id].(expiresAt := expiresAt, updatedAt := now)];
      }
    }

    /** SELECT DISTINCT resource FROM claims WHERE status = 'active' AND expires_at < $2, in any order. */
    method SelectDueResources(now: Time) returns (err: Err, resources: seq<string>)
      modifies this
      ensures err == old(Answer(false))
      ensures forall r :: r in resources <==> r in Freed(View(), DueClaims(View(), now))
      ensures forall i, j :: 0 <= i < j < |resources| ==> resources[i] != resources[j]
      ensures issued == old(issued) + 1 && (aborted <==> err != Nil) && View() == old(View())
    {
      err := Issue(false);
      var due := set id | id in claims && Due(claims[id], now);
      assert due == DueClaims(View(), now);
      resources := InSomeOrder(set id | id in due :: claims[id].resource);
    }

    /** UPDATE claims SET status = 'expired' WHERE status = 'active' AND expires_at < $4. */
    method MarkExpired(now: Time) returns (err: Err, n: nat)
      modifies this
      ensures err == old(Answer(false)) && n == |DueClaims(old(View()), now)|
      ensures issued == old(issued) + 1 && (aborted <==> err != Nil)
      ensures View() ==
              if err == Nil then Ended(old(View()), DueClaims(old(View()), now), Expired, now) else old(View())
    {
      err := Issue(false);
      var due := set id | id in claims && Due(claims[id], now);
      assert due == DueClaims(View(), now);
      n := |due|;
      if err == Nil {
        claims := map j | j in claims ::
          if j in due then claims[j].(status := Expired, updatedAt := now) else claims[j];
      }
    }

    method InsertWaiter(id: Id, w: Waiter) returns (err: Err)
      modifies this
      ensures err == old(Answer(id in queue))
      ensures issued == old(issued) + 1 && (aborted <==> err != Nil)
      ensures View() == if err == Nil then old(View()).(queue := old(queue)[id := w]) else old(View())
    {
      err := Issue(id in queue);
      if err == Nil { queue := queue[id := w]; }
    }

    method CountWaiters(resource: string) returns (err: Err, n: nat)
      modifies this
      ensures err == old(Answer(false)) && n == QueueLength(View(), resource)
      ensures issued == old(issued) + 1 && (aborted <==> err != Nil) && View() == old(View())
    {
      err := Issue(false);
      n := |set id | id in queue && queue[id].resource == resource|;
    }

    /** SELECT ... FROM claim_queue WHERE resource = $1 ORDER BY queued_at ASC LIMIT 1; ties go either way. */
    method SelectNext(resource: string) returns (err: Err, next: Option<Id>)
      modifies this
      ensures err == old(Answer(false))
      ensures next.Some? ==> IsNext(View(), resource, next.value)
      ensures next.None? ==> forall id :: !Waiting(View(), resource, id)
      ensures issued == old(issued) + 1 && (aborted <==> err != Nil) && View() == old(View())
    {
      err := Issue(false);
      var rows := set id | id in queue && queue[id].resource == resource;
      assert forall id :: Waiting(View(), resource, id) <==> id in rows;
      next := Earliest(queue, rows);
    }

    method DeleteWaiter(id: Id) returns (err: Err)
      modifies this
      ensures err == old(Answer(false))
      ensures issued == old(issued) + 1 && (aborted <==> err != Nil)
      ensures View() == if err == Nil then Without(old(View()), {id}) else old(View())
    {
      err := Issue(false);
      if err == Nil { queue := queue - {id}; }
    }

    /** SELECT id, expires_in_sec, queued_at FROM claim_queue, in any order. */
    method SelectQueue() returns (err: Err, ids: seq<Id>)
      modifies this
      ensures err == old(Answer(false)) && forall id :: id in ids <==> id in queue
      ensures issued == old(issued) + 1 && (aborted <==> err != Nil) && View() == old(View())
    {
      err := Issue(false);
      ids := InSomeOrder(queue.Keys);
    }
  }
}
