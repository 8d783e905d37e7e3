/**
 GitHub events as a client of the stores: closing an issue completes its tasks, and a merged
 pull request or a deleted branch releases the claims on it. Errors of the stores are logged
 and otherwise ignored.
 */
module Webhook {
  import opened Basics
  import opened Clock
  import opened IssueTitles
  import opened Ordering
  import TaskStatus
  import T = Tasks
  import C = ClaimTables
  import ClaimRuns
  import S = ClaimStore
  
  // ------------------------------------------------------------- closing an issue

  function ClosingNote(now: Time): (note: string)
    ensures note != ""
  {
    "Closed via GitHub webhook at " + Text(now.(nano := 0))
  }

  function ClosingUpdate(note: string): T.TaskUpdate {
    T.TaskUpdate(Some(TaskStatus.Done), None, Some(note), "", "")
  }

  /** The tasks among ids that closing issue n may complete: its own, and only those in progress. */
  function Closable(b: T.Board, ids: seq<T.Id>, n: int): set<T.Id> {
    set id | id in ids && id in b.tasks && HasPrefix(b.tasks[id].title, IssuePrefix(n))
             && b.tasks[id].status == TaskStatus.InProgress
  }

  /** after is b with exactly the tasks of closed done, each with the closing note added; nothing else differs. */
  ghost predicate Completed(b: T.Board, after: T.Board, closed: set<T.Id>, note: string) {
    && after.tasks.Keys == b.tasks.Keys
    && forall id :: id in b.tasks ==> RowCompleted(b, after, id, id in closed, note)
  }

  ghost predicate RowCompleted(b: T.Board, after: T.Board, id: T.Id, closed: bool, note: string)
    requires id in b.tasks && id in after.tasks
  {
    if closed then
      && after.tasks[id] ==
           b.tasks[id].(status := TaskStatus.Done, session := "", updatedAt := after.tasks[id].updatedAt)
      && T.NotesOf(after.notes, id) == T.NotesOf(b.notes, id) + [note]
    else
      after.tasks[id] == b.tasks[id] && T.NotesOf(after.notes, id) == T.NotesOf(b.notes, id)
  }

  lemma ClosingCompletes(b: T.Board, note: string, id: T.Id, at: Time, after: T.Board)
    requires T.Next(b, T.UpdateTask(id, ClosingUpdate(note), at), after) && note != ""
    ensures Completed(b, after, {id}, note)
  {
    forall other | other in b.tasks
      ensures T.NotesOf(after.notes, other) ==
              T.NotesOf(b.notes, other) + if other == id then [note] else []
    {
      T.StepAddsItsNote(b, T.UpdateTask(id, ClosingUpdate(note), at), after, other);
    }
  }

  lemma CompletedAdds(b: T.Board, mid: T.Board, after: T.Board, first: set<T.Id>, second: set<T.Id>, note: string)
    requires Completed(b, mid, first, note) && Completed(mid, after, second, note) && first !! second
    ensures Completed(b, after, first + second, note)
  {
    forall id | id in b.tasks ensures RowCompleted(b, after, id, id in first + second, note) {
      assert RowCompleted(b, mid, id, id in first, note) && RowCompleted(mid, after, id, id in second, note);
    }
  }

  /** A listed task that the handler tries to close: this issue's, and not already done when it was listed. */
  predicate Tried(rows: map<T.Id, T.Task>, id: T.Id, n: int) {
    id in rows && HasPrefix(rows[id].title, IssuePrefix(n)) && rows[id].status != TaskStatus.Done
  }

  /** The tasks the handler tries to close, in the order of the page. */
  function Candidates(rows: map<T.Id, T.Task>, page: seq<T.Id>, n: int): (ids: seq<T.Id>)
    ensures forall id :: id in ids <==> id in page && Tried(rows, id, n)
    ensures Distinct(page) ==> Distinct(ids)
  {
    if page == [] then []
    else
      var front, last := page[..|page| - 1], page[|page| - 1];
      assert page == front + [last];
      Candidates(rows, front, n) + if Tried(rows, last, n) then [last] else []
  }

  lemma OneMoreCandidate(rows: map<T.Id, T.Task>, page: seq<T.Id>, i: nat, n: int)
    requires i < |page|
    ensures Candidates(rows, page[..i + 1], n) ==
            Candidates(rows, page[..i], n) + if Tried(rows, page[i], n) then [page[i]] else []
  {
    assert page[..i + 1][..i] == page[..i];
  }

  /**
   One closing update, its error ignored: its clock, what it found, and what its own transaction left.
   Other clients run before it and after it.
   */
  datatype Turn = Turn(id: T.Id, at: Time, before: T.Board, after: T.Board)

  ghost predicate Closes(t: Turn, note: string) {
    T.Next(t.before, T.UpdateTask(t.id, ClosingUpdate(note), t.at), t.after)
  }

  /** The closing update committed, or the turn changed nothing. */
  ghost predicate LawfulTurn(t: Turn, note: string) {
    t.after == t.before || Closes(t, note)
  }

  /** The turn was up to the state machine alone, which lets through a task in progress or one meanwhile done. */
  ghost predicate FairTurn(t: Turn, note: string) {
    if t.id in t.before.tasks && t.before.tasks[t.id].status in {TaskStatus.InProgress, TaskStatus.Done}
    then Closes(t, note)
    else t.after == t.before
  }

  /** One lawful turn for each of the ids, in order. */
  ghost predicate TurnsFor(turns: seq<Turn>, ids: seq<T.Id>, note: string) {
    |turns| == |ids| && forall k :: 0 <= k < |turns| ==> turns[k].id == ids[k] && LawfulTurn(turns[k], note)
  }

  ghost predicate AllFair(turns: seq<Turn>, note: string) {
    forall k :: 0 <= k < |turns| ==> FairTurn(turns[k], note)
  }

  /** The board after the first k turns, before anyone else runs. */
  function Left(b: T.Board, turns: seq<Turn>, k: nat): T.Board
    requires k <= |turns|
  {
    if k == 0 then b else turns[k - 1].after
  }

  /** From b to final, with lawful steps of other clients before, between and after the turns. */
  ghost predicate Interleaves(b: T.Board, turns: seq<Turn>, final: T.Board) {
    && (forall k {:trigger Follows(b, turns, k)} :: 0 <= k < |turns| ==> Follows(b, turns, k))
    && T.Reaches(Left(b, turns, |turns|), final)
  }

  /** What a turn does: nothing, or its own task done with one note; every other task and its notes stay. */
  lemma TurnTouchesItsTask(t: Turn, note: string)
    requires LawfulTurn(t, note) && note != ""
    ensures Completed(t.before, t.after, {}, note) || Completed(t.before, t.after, {t.id}, note)
    ensures Closes(t, note) ==> Completed(t.before, t.after, {t.id}, note)
    ensures t.after == t.before ==> Completed(t.before, t.after, {}, note)
  {
    if Closes(t, note) { ClosingCompletes(t.before, note, t.id, t.at, t.after); }
  }

  lemma LeftStays(b: T.Board, turns: seq<Turn>, t: Turn, k: nat)
    requires k <= |turns|
    ensures Left(b, turns + [t], k) == Left(b, turns, k)
  {
  }

  /** The k-th turn follows on what the turns before it left. */
  ghost predicate Follows(b: T.Board, turns: seq<Turn>, k: nat)
    requires k < |turns|
  {
    T.Reaches(Left(b, turns, k), turns[k].before)
  }

  lemma FollowsStill(b: T.Board, turns: seq<Turn>, t: Turn, k: nat)
    requires k < |turns| && Follows(b, turns, k)
    ensures Follows(b, turns + [t], k)
  {
    LeftStays(b, turns, t, k);
  }

  lemma FollowsLast(b: T.Board, turns: seq<Turn>, mid: T.Board, t: Turn)
    requires T.Reaches(Left(b, turns, |turns|), mid) && T.Reaches(mid, t.before)
    ensures Follows(b, turns + [t], |turns|)
  {
    LeftStays(b, turns, t, |turns|);
    T.ReachesOnward(Left(b, turns, |turns|), mid, t.before);
  }

  lemma OneMoreTurn(b: T.Board, turns: seq<Turn>, mid: T.Board, t: Turn, final: T.Board)
    requires Interleaves(b, turns, mid) && T.Reaches(mid, t.before) && T.Reaches(t.after, final)
    ensures Interleaves(b, turns + [t], final)
  {
    FollowsLast(b, turns, mid, t);
    forall k | 0 <= k < |turns| ensures Follows(b, turns + [t], k) {
      FollowsStill(b, turns, t, k);
    }
  }

  lemma TurnsForMore(turns: seq<Turn>, ids: seq<T.Id>, note: string, t: Turn)
    requires TurnsFor(turns, ids, note) && LawfulTurn(t, note)
    ensures TurnsFor(turns + [t], ids + [t.id], note)
  {
  }

  lemma AllFairMore(turns: seq<Turn>, note: string, t: Turn)
    requires AllFair(turns, note) && FairTurn(t, note)
    ensures AllFair(turns + [t], note)
  {
  }

  /** Every turn is of a listed task, at that task's reading of the clock. */
  ghost predicate Timed(turns: seq<Turn>, page: seq<T.Id>, at: nat -> Time) {
    forall k :: 0 <= k < |turns| ==> exists i :: 0 <= i < |page| && page[i] == turns[k].id && turns[k].at == at(i)
  }

  /** The turns are of exactly the listed tasks with the issue's title that were not done. */
  ghost predicate TriesUnfinished(b: T.Board, page: seq<T.Id>, n: int, turns: seq<Turn>) {
    forall id :: (exists k :: 0 <= k < |turns| && turns[k].id == id) <==>
      && id in page && id in b.tasks
      && "Issue #" + Decimal(n) + ":" <= b.tasks[id].title && b.tasks[id].status != TaskStatus.Done
  }

  lemma TimedMore(turns: seq<Turn>, page: seq<T.Id>, at: nat -> Time, t: Turn, i: nat)
    requires Timed(turns, page, at) && i < |page| && t.id == page[i] && t.at == at(i)
    ensures Timed(turns + [t], page, at)
  {
  }

  lemma TurnsAreTheUnfinished(b: T.Board, page: seq<T.Id>, n: int, turns: seq<Turn>, note: string)
    requires TurnsFor(turns, Candidates(b.tasks, page, n), note)
    ensures TriesUnfinished(b, page, n, turns)
  {
    var ids := Candidates(b.tasks, page, n);
    forall id
      ensures (exists k :: 0 <= k < |turns| && turns[k].id == id) <==>
                && id in page && id in b.tasks
                && "Issue #" + Decimal(n) + ":" <= b.tasks[id].title && b.tasks[id].status != TaskStatus.Done
    {
      TurnOfEach(turns, ids, note, id);
      assert id in ids <==> id in page && Tried(b.tasks, id, n);
      assert IssuePrefix(n) == "Issue #" + Decimal(n) + ":";
    }
  }

  lemma TurnOfEach(turns: seq<Turn>, ids: seq<T.Id>, note: string, id: T.Id)
    requires TurnsFor(turns, ids, note)
    ensures (exists k :: 0 <= k < |turns| && turns[k].id == id) <==> id in ids
  {
    if id in ids {
      var k :| 0 <= k < |ids| && ids[k] == id;
      assert turns[k].id == id;
    }
  }

  /** How far the handler's loop has come: one turn for each candidate among the first i of the page. */
  ghost predicate Progress(b: T.Board, page: seq<T.Id>, i: nat, n: int, note: string, fair: bool,
                           turns: seq<Turn>, final: T.Board)
    requires i <= |page|
  {
    && TurnsFor(turns, Candidates(b.tasks, page[..i], n), note)
    && (fair ==> AllFair(turns, note))
    && Interleaves(b, turns, final)
  }

  lemma SkippedOne(
    b: T.Board, page: seq<T.Id>, i: nat, n: int, note: string, fair: bool, turns: seq<Turn>, final: T.Board)
    requires i < |page| && Progress(b, page, i, n, note, fair, turns, final) && !Tried(b.tasks, page[i], n)
    ensures Progress(b, page, i + 1, n, note, fair, turns, final)
  {
    OneMoreCandidate(b.tasks, page, i, n);
  }

  lemma TriedOne(
    b: T.Board, page: seq<T.Id>, i: nat, n: int, note: string, fair: bool, turns: seq<Turn>, mid: T.Board, t: Turn,
    final: T.Board)
    requires i < |page| && Progress(b, page, i, n, note, fair, turns, mid) && Tried(b.tasks, page[i], n)
    requires t.id == page[i] && LawfulTurn(t, note) && (fair ==> FairTurn(t, note))
    requires T.Reaches(mid, t.before) && T.Reaches(t.after, final)
    ensures Progress(b, page, i + 1, n, note, fair, turns + [t], final)
  {
    OneMoreCandidate(b.tasks, page, i, n);
    TurnsForMore(turns, Candidates(b.tasks, page[..i], n), note, t);
    if fair { AllFairMore(turns, note, t); }
    OneMoreTurn(b, turns, mid, t, final);
  }

  /** Nobody but the handler changed anything from b to final. */
  predicate Quiet(b: T.Board, turns: seq<Turn>, final: T.Board)
    decreases |turns|
  {
    if turns == [] then final == b
    else turns[0].before == b && Quiet(turns[0].after, turns[1..], final)
  }

  lemma {:induction false} QuietMore(b: T.Board, turns: seq<Turn>, mid: T.Board, t: Turn, final: T.Board)
    requires Quiet(b, turns, mid) && t.before == mid && t.after == final
    ensures Quiet(b, turns + [t], final)
    decreases |turns|
  {
    if turns == [] {
      assert [t][1..] == [];
    } else {
      assert (turns + [t])[1..] == turns[1..] + [t];
      QuietMore(turns[0].after, turns[1..], mid, t, final);
    }
  }

  function InProgressAmong(b: T.Board, ids: seq<T.Id>): set<T.Id> {
    set id | id in ids && id in b.tasks && b.tasks[id].status == TaskStatus.InProgress
  }

  /** What the state machine lets a turn complete. */
  function DoneBy(t: Turn): set<T.Id> {
    if t.id in t.before.tasks && t.before.tasks[t.id].status in {TaskStatus.InProgress, TaskStatus.Done}
    then {t.id} else {}
  }

  /** The turn completes what it may, and touches nothing else. */
  ghost predicate Effective(t: Turn, note: string) {
    Completed(t.before, t.after, DoneBy(t), note)
  }

  lemma FairIsEffective(t: Turn, note: string)
    requires FairTurn(t, note) && note != ""
    ensures Effective(t, note)
  {
    TurnTouchesItsTask(t, note);
  }

  lemma QuietTurn(b: T.Board, t: Turn, first: set<T.Id>, note: string)
    requires Completed(b, t.before, first, note) && Effective(t, note)
    requires t.id in b.tasks && t.id !in first && b.tasks[t.id].status != TaskStatus.Done
    ensures
      var done := if b.tasks[t.id].status == TaskStatus.InProgress then {t.id} else {};
      Completed(b, t.after, first + done, note)
  {
    assert RowCompleted(b, t.before, t.id, false, note);
    CompletedAdds(b, t.before, t.after, first, DoneBy(t), note);
  }

  /** The turn is effective, and of a task that b has unfinished. */
  ghost predicate EffectiveOn(b: T.Board, t: Turn, note: string) {
    Effective(t, note) && t.id in b.tasks && b.tasks[t.id].status != TaskStatus.Done
  }

  lemma InProgressByOne(b: T.Board, ids: seq<T.Id>)
    requires ids != [] && ids[0] in b.tasks
    ensures
      var done := if b.tasks[ids[0]].status == TaskStatus.InProgress then {ids[0]} else {};
      InProgressAmong(b, ids) == done + InProgressAmong(b, ids[1..])
  {
    assert ids == [ids[0]] + ids[1..];
  }

  /** The first of some undisturbed turns, and what is left for the others. */
  lemma FirstQuietTurn(
    b: T.Board, mid: T.Board, first: set<T.Id>, turns: seq<Turn>, ids: seq<T.Id>, note: string)
    returns (done: set<T.Id>)
    requires Completed(b, mid, first, note) && turns != [] && |turns| == |ids|
    requires turns[0].before == mid && turns[0].id == ids[0] && EffectiveOn(b, turns[0], note)
    requires Distinct(ids) && forall id :: id in ids ==> id !in first
    ensures Completed(b, turns[0].after, first + done, note)
    ensures forall id :: id in ids[1..] ==> id !in first + done
    ensures InProgressAmong(b, ids) == done + InProgressAmong(b, ids[1..])
  {
    var t := turns[0];
    assert ids[0] in ids;
    done := if b.tasks[t.id].status == TaskStatus.InProgress then {t.id} else {};
    QuietTurn(b, t, first, note);
    assert forall id :: id in ids[1..] ==> id in ids && id != ids[0];
    InProgressByOne(b, ids);
  }

  /** Effective turns for the ids, one right after the other from mid to final. */
  ghost predicate Undisturbed(
    b: T.Board, mid: T.Board, turns: seq<Turn>, ids: seq<T.Id>, final: T.Board, note: string)
    decreases |turns|
  {
    && |turns| == |ids|
    && if turns == [] then final == mid
       else
         && turns[0].before == mid && turns[0].id == ids[0] && EffectiveOn(b, turns[0], note)
         && Undisturbed(b, turns[0].after, turns[1..], ids[1..], final, note)
  }

  lemma {:induction false} QuietIsUndisturbed(
    b: T.Board, mid: T.Board, turns: seq<Turn>, ids: seq<T.Id>, final: T.Board, note: string)
    requires Quiet(mid, turns, final) && |turns| == |ids|
    requires forall i :: 0 <= i < |ids| ==> turns[i].id == ids[i] && EffectiveOn(b, turns[i], note)
    ensures Undisturbed(b, mid, turns, ids, final, note)
    decreases |turns|
  {
    if turns != [] { QuietIsUndisturbed(b, turns[0].after, turns[1..], ids[1..], final, note); }
  }

  /** Undisturbed turns of different tasks add up: from mid, where those of `first` are completed, to final. */
  lemma {:induction false} QuietTurns(
    b: T.Board, mid: T.Board, first: set<T.Id>, turns: seq<Turn>, ids: seq<T.Id>, final: T.Board, note: string)
    requires Completed(b, mid, first, note) && Undisturbed(b, mid, turns, ids, final, note)
    requires Distinct(ids) && forall id :: id in ids ==> id !in first
    ensures Completed(b, final, first + InProgressAmong(b, ids), note)
    decreases |turns|
  {
    if turns == [] {
      assert first + InProgressAmong(b, ids) == first;
    } else {
      var done := FirstQuietTurn(b, mid, first, turns, ids, note);
      QuietTurns(b, turns[0].after, first + done, turns[1..], ids[1..], final, note);
      assert first + done + InProgressAmong(b, ids[1..]) == first + InProgressAmong(b, ids);
    }
  }

  /** Left alone, the handler completes exactly the in-progress tasks of the issue on the listed page. */
  lemma QuietCompletionIsExact(b: T.Board, page: seq<T.Id>, n: int, note: string, turns: seq<Turn>, final: T.Board)
    requires Distinct(page) && Quiet(b, turns, final)
    requires TurnsFor(turns, Candidates(b.tasks, page, n), note) && AllFair(turns, note) && note != ""
    ensures Completed(b, final, Closable(b, page, n), note)
  {
    var ids := Candidates(b.tasks, page, n);
    forall i | 0 <= i < |ids| ensures turns[i].id == ids[i] && EffectiveOn(b, turns[i], note) {
      assert ids[i] in ids;
      FairIsEffective(turns[i], note);
    }
    QuietIsUndisturbed(b, b, turns, ids, final, note);
    QuietTurns(b, b, {}, turns, ids, final, note);
    assert InProgressAmong(b, ids) == Closable(b, page, n);
  }

  /** What closing issue n leaves, task by task: those of the listed page that were in progress under its title. */
  ghost predicate IssueClosed(b: T.Board, page: seq<T.Id>, n: int, now: Time, after: T.Board) {
    && after.tasks.Keys == b.tasks.Keys
    && forall id :: id in b.tasks ==>
         var was, left := b.tasks[id], after.tasks[id];
         if id in page && "Issue #" + Decimal(n) + ":" <= was.title && was.status == TaskStatus.InProgress then
           && left == T.Task(was.title, was.body, TaskStatus.Done, was.assignee, "", was.createdAt, left.updatedAt)
           && T.NotesOf(after.notes, id) ==
                T.NotesOf(b.notes, id) + ["Closed via GitHub webhook at " + Text(now.(nano := 0))]
         else
           left == was && T.NotesOf(after.notes, id) == T.NotesOf(b.notes, id)
  }

  lemma CompletedIsClosed(b: T.Board, page: seq<T.Id>, n: int, now: Time, after: T.Board)
    requires Completed(b, after, Closable(b, page, n), ClosingNote(now))
    ensures IssueClosed(b, page, n, now, after)
  {
    assert IssuePrefix(n) == "Issue #" + Decimal(n) + ":";
    forall id | id in b.tasks ensures RowCompleted(b, after, id, id in Closable(b, page, n), ClosingNote(now)) {}
  }

  lemma NobodyCompleted(b: T.Board, n: int, note: string)
    ensures Completed(b, b, Closable(b, [], n), note)
  {
    assert Closable(b, [], n) == {};
  }

  /** What the state machine says to the closing update: only a task in progress, or one already done, passes. */
  lemma OnlyInProgressCloses(b: T.Board, id: T.Id, note: string)
    requires id in b.tasks
    ensures T.Verdict(b, id, ClosingUpdate(note)) == None <==>
              b.tasks[id].status in {TaskStatus.InProgress, TaskStatus.Done}
  {
  }

  // ------------------------------------------------------------ releasing a resource

  /** Release of the claim that held r when the webhook looked, after whatever others did meanwhile; or no release. */
  ghost predicate AtMostOneRelease(
    before: C.Tables, r: string, now: Time, newId: C.Id, target: Option<C.Id>, mid: C.Tables, after: C.Tables)
  {
    match target
    case None => mid == before && after == before
    case Some(id) =>
      && C.ActiveOn(before, r, id)
      && ClaimRuns.Reaches(before, mid)
      && (after == mid || ReleasedAt(mid, id, now, newId, after))
  }

  /** Released at `now`, its waiter's claim, if any, under the id newId. */
  ghost predicate ReleasedAt(db: C.Tables, id: C.Id, now: Time, newId: C.Id, after: C.Tables) {
    exists promo :: C.Next(db, C.Release(id, now, promo), after) && promo.Keys <= {newId}
  }

  /** With a healthy server, the listed claim is released if it still holds r when the release runs. */
  ghost predicate ReleasesIfItCan(
    r: string, now: Time, newId: C.Id, target: Option<C.Id>, mid: C.Tables, server: Server, after: C.Tables)
  {
    target.Some? && server.Healthy() && newId !in mid.claims && C.ActiveOn(mid, r, target.value) ==>
      ReleasedAt(mid, target.value, now, newId, after)
  }

  /** Releasing one claim ends nobody else's, even if the listed claim was replaced meanwhile. */
  lemma ReleaseSparesOthers(before: C.Tables, r: string, now: Time, newId: C.Id, target: Option<C.Id>, mid: C.Tables,
                            after: C.Tables, d: C.Id)
    requires AtMostOneRelease(before, r, now, newId, target, mid, after)
    requires d in mid.claims && Some(d) != target
    ensures d in after.claims && after.claims[d] == mid.claims[d]
  {
    if target.Some? && after != mid {
      var promo :| C.Next(mid, C.Release(target.value, now, promo), after) && promo.Keys <= {newId};
      ClaimRuns.ReleaseTouchesOneClaim(mid, target.value, now, promo, d);
    }
  }

  /**
   A merge and the branch deletion that follows it are two events for one resource. The first
   hands the resource to a waiter if there is one, so the second finds it held again and
   releases the waiter's new claim.
   */
  lemma SecondEventFindsTheSuccessor(
    db: C.Tables, id: C.Id, now: Time, promo: map<C.Id, C.Id>, after: C.Tables, r: string)
    requires C.Next(db, C.Release(id, now, promo), after) && C.UniqueActive(db) && C.ActiveOn(db, r, id)
    ensures C.Held(after, r) <==> exists w :: C.Waiting(db, r, w)
    ensures forall d :: C.ActiveOn(after, r, d) ==> d in promo && d !in db.claims
  {
    var h := C.AsHandOver(db, C.Release(id, now, promo));
    forall d | C.ActiveOn(after, r, d)
      ensures d in promo && d !in db.claims && exists w :: C.Waiting(db, r, w)
    {
      C.HandOverActive(db, h, r, d);
      C.HandOverClaims(db, h, d);
      C.PromotedOnFreed(db, h, d);
      assert C.Waiting(db, r, promo[d]);
    }
    if w :| C.Waiting(db, r, w) {
      var c := C.FreedIsHandedOn(db, h, w);
      C.HandOverActive(db, h, r, c);
      assert C.ActiveOn(after, r, c);
    }
  }

  // ------------------------------------------------------------------- the handler

  /** What each store call meets: the listing, other clients around each write, the write, the reading back. */
  datatype Calls = Calls(
    listed: Server, others: nat -> T.Others, write: nat -> Server, later: nat -> T.Others, readBack: nat -> Server,
    at: nat -> Time)
  {
    ghost predicate Lawful() {
      forall i :: T.Lawful(others(i)) && T.Lawful(later(i))
    }

    /** No other client does anything. */
    ghost predicate Alone() {
      forall i, b :: others(i)(b) == b && later(i)(b) == b
    }

    /** The server refuses no write. */
    ghost predicate Healthy() {
      forall i :: write(i).Healthy()
    }
  }

  class Handler {
    const board: T.TaskStore
    const claims: S.ClaimStore

    constructor (board: T.TaskStore, claims: S.ClaimStore)
      ensures this.board == board && this.claims == claims
    {
      this.board, this.claims := board, claims;
    }

    method LetOthersRun(others: T.Others)
      requires T.Lawful(others)
      modifies board
      ensures board.View() == others(old(board.View()))
    {
      var moved := others(board.View());
      board.tasks, board.notes := moved.tasks, moved.notes;
    }

    /** One closing update, its error ignored, with other clients before and after it. */
    method CloseTask(id: T.Id, note: string, i: nat, calls: Calls) returns (ghost t: Turn)
      requires calls.Lawful()
      modifies board
      ensures t.id == id && t.at == calls.at(i) && LawfulTurn(t, note)
      ensures T.Reaches(old(board.View()), t.before) && T.Reaches(t.after, board.View())
      ensures calls.Healthy() ==> FairTurn(t, note)
      ensures calls.Alone() ==> t.before == old(board.View()) && board.View() == t.after
    {
      LetOthersRun(calls.others(i));
      ghost var before := board.View();
      ghost var committed, mid;
      var r;
      r, committed, mid := board.UpdateTask(
        id, ClosingUpdate(note), calls.at(i), calls.later(i), calls.write(i), calls.readBack(i));
      if id in before.tasks { OnlyInProgressCloses(before, id, note); }
      T.ReachesItself(before);
      t := Turn(id, calls.at(i), before, mid);
    }

    /**
     completeTaskForIssue, with any other clients before and after each of its updates. It tries
     exactly the issue's unfinished tasks on the listed page, each once and in order; a turn
     completes its task or changes nothing, and unless the server fails it the state machine decides.
     Left alone, it completes exactly the in-progress ones, with one note each.
     */
    method CompleteTaskForIssue(n: int, now: Time, calls: Calls)
      returns (ghost page: seq<T.Id>, ghost turns: seq<Turn>)
      requires calls.Lawful()
      modifies board
      ensures calls.listed.Refuses(0) ==> page == [] && board.View() == old(board.View())
      ensures !calls.listed.Refuses(0) ==> T.IsNewestPage(old(board.tasks), page)
      ensures TurnsFor(turns, Candidates(old(board.tasks), page, n), ClosingNote(now))
      ensures TriesUnfinished(old(board.View()), page, n, turns) && Timed(turns, page, calls.at)
      ensures calls.Healthy() ==> AllFair(turns, ClosingNote(now))
      ensures Interleaves(old(board.View()), turns, board.View())
      ensures calls.Healthy() && calls.Alone() ==>
                Completed(old(board.View()), board.View(), Closable(old(board.View()), page, n), ClosingNote(now))
      ensures calls.Healthy() && calls.Alone() ==> IssueClosed(old(board.View()), page, n, now, board.View())
    {
      page, turns := [], [];
      NobodyCompleted(board.View(), n, ClosingNote(now));
      T.ReachesItself(board.View());
      CompletedIsClosed(board.View(), [], n, now, board.View());
      if calls.listed.Refuses(0) { return; }
      var tasks := board.ListNewest();
      var rows := board.tasks;
      page := tasks;
      ghost var b := board.View();
      var note := ClosingNote(now);
      for i := 0 to |tasks|
        invariant Progress(b, tasks, i, n, note, calls.Healthy(), turns, board.View())
        invariant calls.Alone() ==> Quiet(b, turns, board.View())
        invariant Timed(turns, tasks, calls.at)
      {
        var id := tasks[i];
        if HasPrefix(rows[id].title, IssuePrefix(n)) && rows[id].status != TaskStatus.Done {
          ghost var mid := board.View();
          ghost var t := CloseTask(id, note, i, calls);
          if calls.Alone() { QuietMore(b, turns, mid, t, board.View()); }
          TriedOne(b, tasks, i, n, note, calls.Healthy(), turns, mid, t, board.View());
          TimedMore(turns, tasks, calls.at, t, i);
          turns := turns + [t];
        } else {
          SkippedOne(b, tasks, i, n, note, calls.Healthy(), turns, board.View());
        }
      }
      assert tasks[..|tasks|] == tasks;
      TurnsAreTheUnfinished(b, tasks, n, turns, note);
      if calls.Healthy() && calls.Alone() {
        QuietCompletionIsExact(b, tasks, n, note, turns, board.View());
        CompletedIsClosed(b, tasks, n, now, board.View());
      }
    }

    /** createTaskFromIssue and createTaskFromPR: a fresh open task, which only its own issue finds again. */
    method CreateTaskFor(title: string, body: string, id: T.Id, now: Time, server: Server) returns (ghost created: bool)
      modifies board
      ensures created ==>
                var task := T.Task(title, body, TaskStatus.Open, "", "", now, now);
                && T.Next(old(board.View()), T.CreateTask(id, task), board.View())
                && board.tasks == old(board.tasks)[id := task] && board.notes == old(board.notes)
      ensures !created ==> board.View() == old(board.View())
      ensures server.Healthy() ==> (created <==> id !in old(board.tasks))
    {
      ghost var step;
      var r;
      r, step := board.CreateTask(id, title, body, "", "", now, server);
      created := r.Success?;
    }

    method HandleIssues(action: string, n: int, title: string, body: string, id: T.Id, now: Time, calls: Calls)
      returns (ghost page: seq<T.Id>, ghost turns: seq<Turn>)
      requires calls.Lawful()
      modifies board
      ensures action !in {"opened", "closed"} ==> board.View() == old(board.View())
      ensures action == "opened" && calls.write(0).Healthy() && id !in old(board.tasks) ==>
                && board.notes == old(board.notes)
                && board.tasks == old(board.tasks)[id := T.Task(
                     "Issue #" + Decimal(n) + ": " + title, body, TaskStatus.Open, "", "", now, now)]
                && forall m :: HasPrefix(board.tasks[id].title, IssuePrefix(m)) <==> m == n
      ensures action == "closed" ==>
                && TurnsFor(turns, Candidates(old(board.tasks), page, n), ClosingNote(now))
                && TriesUnfinished(old(board.View()), page, n, turns) && Timed(turns, page, calls.at)
                && Interleaves(old(board.View()), turns, board.View())
      ensures action == "closed" && calls.Healthy() && !calls.listed.Refuses(0) ==>
                T.IsNewestPage(old(board.tasks), page) && AllFair(turns, ClosingNote(now))
      ensures action == "closed" && calls.Healthy() && calls.Alone() ==>
                IssueClosed(old(board.View()), page, n, now, board.View())
    {
      page, turns := [], [];
      if action == "opened" {
        ghost var created := CreateTaskFor(IssueTitle(n, title), body, id, now, calls.write(0));
        assert IssueTitle(n, title) == "Issue #" + Decimal(n) + ": " + title;
        forall m ensures HasPrefix(IssueTitle(n, title), IssuePrefix(m)) <==> m == n {
          TitleMatchesItsIssue(n, m, title);
        }
      } else if action == "closed" {
        page, turns := CompleteTaskForIssue(n, now, calls);
      }
    }

    /**
     releaseClaims: list the active claims on the resource, release each. The unique index
     leaves at most one to release, and others may run between the listing and the release.
     */
    method ReleaseClaims(r: string, now: Time, newId: C.Id, others: ClaimRuns.Others, listed: Server, server: Server)
      returns (ghost target: Option<C.Id>, ghost mid: C.Tables)
      requires ClaimRuns.Lawful(others) && C.Inv(claims.Db())
      modifies claims
      ensures target.None? <==> r == "" || listed.Refuses(0) || !C.Held(old(claims.Db()), r)
      ensures AtMostOneRelease(old(claims.Db()), r, now, newId, target, mid, claims.Db()) && C.Inv(claims.Db())
      ensures ReleasesIfItCan(r, now, newId, target, mid, server, claims.Db())
    {
      ghost var db := claims.Db();
      target, mid := None, db;
      if r == "" { return; }
      if listed.Refuses(0) { return; }
      var rows := claims.claims;
      var ids := InSomeOrder(set id | id in rows && rows[id].resource == r && rows[id].status.Active?);
      AtMostOneListed(db, r, ids);
      for i := 0 to |ids|
        invariant i == 0 ==> claims.Db() == db && target == None && mid == db
        invariant i == 1 ==> target == Some(ids[0]) && AtMostOneRelease(db, r, now, newId, target, mid, claims.Db())
        invariant ReleasesIfItCan(r, now, newId, target, mid, server, claims.Db())
        invariant C.Inv(claims.Db())
      {
        var moved := others(claims.Db());
        claims.claims, claims.queue := moved.claims, moved.queue;
        mid, target := claims.Db(), Some(ids[i]);
        InvReached(db, mid);
        ghost var step, sent;
        var released;
        released, step, sent := claims.ReleaseClaim(ids[i], now, newId, server);
        if released.Success? {
          assert C.Next(mid, C.Release(ids[i], now, step.promo), claims.Db());
          C.StepKeepsInv(mid, step);
        }
      }
    }

    /** handleDelete: a deleted branch releases its claim. */
    method HandleDelete(refType: string, r: string, now: Time, newId: C.Id, others: ClaimRuns.Others,
                        listed: Server, server: Server)
      returns (ghost target: Option<C.Id>, ghost mid: C.Tables)
      requires ClaimRuns.Lawful(others) && C.Inv(claims.Db())
      modifies claims
      ensures target.None? <==>
                refType != "branch" || r == "" || listed.Refuses(0) || !C.Held(old(claims.Db()), r)
      ensures AtMostOneRelease(old(claims.Db()), r, now, newId, target, mid, claims.Db()) && C.Inv(claims.Db())
      ensures ReleasesIfItCan(r, now, newId, target, mid, server, claims.Db())
    {
      target, mid := None, claims.Db();
      if refType == "branch" {
        target, mid := ReleaseClaims(r, now, newId, others, listed, server);
      }
    }

    /**
     handlePullRequest: a merge releases the branch and then the page, each with its own clock, id,
     server and other clients; an opened request becomes a task.
     */
    method HandlePullRequest(action: string, merged: bool, r: string, url: string, n: int, title: string, body: string,
                             id: T.Id, now: nat -> Time, newId: nat -> C.Id, others: nat -> ClaimRuns.Others,
                             server: nat -> Server)
      returns (ghost first: Option<C.Id>, ghost between: C.Tables, ghost second: Option<C.Id>,
               ghost mids: (C.Tables, C.Tables))
      requires ClaimRuns.Lawful(others(0)) && ClaimRuns.Lawful(others(1)) && C.Inv(claims.Db())
      modifies claims, board
      ensures AtMostOneRelease(old(claims.Db()), r, now(0), newId(0), first, mids.0, between)
      ensures AtMostOneRelease(between, url, now(1), newId(1), second, mids.1, claims.Db())
      ensures !(action == "closed" && merged) ==> first.None? && second.None?
      ensures action == "closed" && merged ==>
                && (first.None? <==> r == "" || server(0).Refuses(0) || !C.Held(old(claims.Db()), r))
                && (second.None? <==> url == "" || server(2).Refuses(0) || !C.Held(between, url))
      ensures ReleasesIfItCan(r, now(0), newId(0), first, mids.0, server(1), between)
      ensures ReleasesIfItCan(url, now(1), newId(1), second, mids.1, server(3), claims.Db())
      ensures action != "opened" ==> board.View() == old(board.View())
      ensures action == "opened" && server(4).Healthy() && id !in old(board.tasks) ==>
                && board.notes == old(board.notes)
                && board.tasks == old(board.tasks)[id := T.Task(
                     "PR #" + Decimal(n) + ": " + title, body, TaskStatus.Open, "", "", now(2), now(2))]
                && forall m :: !HasPrefix(board.tasks[id].title, IssuePrefix(m))
    {
      first, between, second := None, claims.Db(), None;
      mids := (between, between);
      if action == "closed" && merged {
        ghost var mid;
        first, mid := ReleaseClaims(r, now(0), newId(0), others(0), server(0), server(1));
        between, mids := claims.Db(), (mid, mid);
        second, mid := ReleaseClaims(url, now(1), newId(1), others(1), server(2), server(3));
        mids := (mids.0, mid);
      }
      if action == "opened" {
        ghost var created := CreateTaskFor(PullRequestTitle(n, title), body, id, now(2), server(4));
        assert PullRequestTitle(n, title) == "PR #" + Decimal(n) + ": " + title;
        forall m ensures !HasPrefix(PullRequestTitle(n, title), IssuePrefix(m)) { PullRequestIsNoIssue(n, m, title); }
      }
    }
  }

  lemma InvReached(a: C.Tables, b: C.Tables)
    requires ClaimRuns.Reaches(a, b) && C.Inv(a)
    ensures C.Inv(b)
  {
    var dbs: seq<C.Tables>, steps :| ClaimRuns.Behaviour(dbs, steps) && dbs[0] == a && dbs[|steps|] == b;
    ClaimRuns.InvAlways(dbs, steps, |steps|);
  }

  lemma AtMostOneListed(db: C.Tables, r: string, ids: seq<C.Id>)
    requires C.UniqueActive(db)
    requires forall i, j :: 0 <= i < j < |ids| ==> ids[i] != ids[j]
    requires forall id :: id in ids <==> id in db.claims && db.claims[id].resource == r && db.claims[id].status.Active?
    ensures |ids| <= 1
    ensures forall id :: id in ids <==> C.ActiveOn(db, r, id)
    ensures ids == [] <==> !C.Held(db, r)
  {
    if |ids| > 1 { assert C.ActiveOn(db, r, ids[0]) && C.ActiveOn(db, r, ids[1]); }
    if ids != [] { assert C.ActiveOn(db, r, ids[0]); }
    if id :| C.ActiveOn(db, r, id) { assert id in ids; }
  }
}
