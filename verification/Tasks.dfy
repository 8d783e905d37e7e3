/**
 Tasks and their appended notes: updates run in a transaction that checks the state machine,
 writes the row and inserts the note, all or nothing.
 */
module Tasks {
  import opened Basics
  import opened Clock
  import opened Ordering
  import opened TaskStatus

  type Id = string

  /** A row of `tasks`; description, creator, priority and tags are one opaque body. */
  datatype Task = Task(
    title: string, body: string, status: Status, assignee: string, session: string, createdAt: Time, updatedAt: Time)

  /** A row of `task_notes`; its id is its place in the table. */
  datatype Note = Note(task: Id, text: string, agent: string, createdAt: Time)

  datatype Board = Board(tasks: map<Id, Task>, notes: seq<Note>)

  datatype TaskUpdate = TaskUpdate(
    status: Option<Status>, assignee: Option<string>, note: Option<string>, agent: string, session: string)

  /** Unread: the transaction committed, but reading the task back afterwards failed. */
  datatype Failure = NotFound | InvalidTransition | Refused | Unread

  datatype Outcome<T> = Success(value: T) | Fail(error: Failure)

  // ------------------------------------------------------------------------- steps

  /** What the state machine says to an update. */
  function Verdict(b: Board, id: Id, upd: TaskUpdate): Option<Failure> {
    if id !in b.tasks then Some(NotFound)
    else if upd.status.Some? && !IsValidTransition(b.tasks[id].status, upd.status.value) then Some(InvalidTransition)
    else None
  }

  function Updated(t: Task, upd: TaskUpdate, now: Time): Task {
    t.(status := if upd.status.Some? then upd.status.value else t.status,
       assignee := if upd.assignee.Some? then upd.assignee.value else t.assignee,
       session := upd.session,
       updatedAt := now)
  }

  predicate HasNote(upd: TaskUpdate) {
    upd.note.Some? && upd.note.value != ""
  }

  function NoteRows(id: Id, upd: TaskUpdate, now: Time): seq<Note> {
    if HasNote(upd) then [Note(id, upd.note.value, upd.agent, now)] else []
  }

  /** What a committed update leaves: every asked-for field of the one row, and the note as the newest row. */
  ghost predicate UpdateWrites(b: Board, id: Id, upd: TaskUpdate, now: Time, after: Board) {
    && id in b.tasks
    && after.tasks == b.tasks[id := Task(
         b.tasks[id].title, b.tasks[id].body,
         if upd.status.None? then b.tasks[id].status else upd.status.value,
         if upd.assignee.None? then b.tasks[id].assignee else upd.assignee.value,
         upd.session, b.tasks[id].createdAt, now)]
    && after.notes ==
         if upd.note.None? || upd.note.value == "" then b.notes
         else b.notes + [Note(id, upd.note.value, upd.agent, now)]
  }

  datatype Step =
    | CreateTask(id: Id, task: Task)
    | UpdateTask(id: Id, upd: TaskUpdate, now: Time)
    | DeleteTask(id: Id)

  function WithoutNotesOf(notes: seq<Note>, id: Id): seq<Note> {
    if notes == [] then []
    else (if notes[0].task == id then [] else [notes[0]]) + WithoutNotesOf(notes[1..], id)
  }

  /** No note of the task is left; of any other task every note is, as often and in the same order. */
  ghost predicate NotesDeleted(notes: seq<Note>, gone: Id, left: seq<Note>) {
    && (forall n: Note :: multiset(left)[n] == if n.task == gone then 0 else multiset(notes)[n])
    && (forall id :: id != gone ==> NotesOf(left, id) == NotesOf(notes, id))
  }

  predicate Enabled(b: Board, step: Step) {
    match step
    case CreateTask(id, task) => id !in b.tasks && task.status == Open
    case UpdateTask(id, upd, _) => Verdict(b, id, upd) == None
    case DeleteTask(id) => id in b.tasks
  }

  function Apply(b: Board, step: Step): Board
    requires Enabled(b, step)
  {
    match step
    case CreateTask(id, task) => b.(tasks := b.tasks[id := task])
    case UpdateTask(id, upd, now) =>
      Board(b.tasks[id := Updated(b.tasks[id], upd, now)], b.notes + NoteRows(id, upd, now))
    case DeleteTask(id) => Board(b.tasks - {id}, WithoutNotesOf(b.notes, id))
  }

  /** The texts of a task's notes, in the order they were inserted. */
  function NotesOf(notes: seq<Note>, id: Id): seq<string> {
    if notes == [] then []
    else (if notes[0].task == id then [notes[0].text] else []) + NotesOf(notes[1..], id)
  }

  // ------------------------------------------------------------------------- runs

  predicate Next(b: Board, step: Step, after: Board) {
    Enabled(b, step) && after == Apply(b, step)
  }

  predicate Behaviour(bs: seq<Board>, steps: seq<Step>) {
    && |bs| == |steps| + 1
    && forall i :: 0 <= i < |steps| ==> Next(bs[i], steps[i], bs[i + 1])
  }

  /** b can be reached from a by committed steps. */
  ghost predicate Reaches(a: Board, b: Board) {
    exists bs: seq<Board>, steps :: Behaviour(bs, steps) && bs[0] == a && bs[|steps|] == b
  }

  lemma ReachesItself(a: Board)
    ensures Reaches(a, a)
  {
    var bs: seq<Board>, steps: seq<Step> := [a], [];
    assert Behaviour(bs, steps) && bs[|steps|] == a;
  }

  lemma ReachesOnward(a: Board, b: Board, c: Board)
    requires Reaches(a, b) && Reaches(b, c)
    ensures Reaches(a, c)
  {
    var bs: seq<Board>, steps :| Behaviour(bs, steps) && bs[0] == a && bs[|steps|] == b;
    var cs: seq<Board>, more :| Behaviour(cs, more) && cs[0] == b && cs[|more|] == c;
    BehavioursJoin(bs, steps, cs, more);
    var all := bs[..|steps|] + cs;
    assert all[0] == a by { if |steps| == 0 { assert all == cs; } }
    assert all[|steps + more|] == c;
  }

  lemma BehavioursJoin(bs: seq<Board>, steps: seq<Step>, cs: seq<Board>, more: seq<Step>)
    requires Behaviour(bs, steps) && Behaviour(cs, more) && bs[|steps|] == cs[0]
    ensures Behaviour(bs[..|steps|] + cs, steps + more)
  {
    var all, both := bs[..|steps|] + cs, steps + more;
    forall i | 0 <= i < |both| ensures Next(all[i], both[i], all[i + 1]) {
      if i < |steps| {
        assert all[i] == bs[i] && all[i + 1] == bs[i + 1];
      } else {
        assert all[i] == cs[i - |steps|] && all[i + 1] == cs[i - |steps| + 1];
        assert Next(cs[i - |steps|], more[i - |steps|], cs[i - |steps| + 1]);
      }
    }
  }

  /** What other clients do between two steps of one client. */
  type Others = Board -> Board

  ghost predicate Lawful(others: Others) {
    forall b :: Reaches(b, others(b))
  }

  // ------------------------------------------------------------------------- the store

  class TaskStore {
    var tasks: map<Id, Task>
    var notes: seq<Note>

    function View(): Board
      reads this
    {
      Board(tasks, notes)
    }

    constructor ()
      ensures View() == Board(map[], [])
    {
      tasks, notes := map[], [];
    }

    method CreateTask(id: Id, title: string, body: string, assignee: string, session: string, now: Time, server: Server)
      returns (r: Outcome<Task>, ghost step: Step)
      modifies this
      ensures step == Step.CreateTask(id, Task(title, body, Open, assignee, session, now, now))
      ensures r.Success? ==> Enabled(old(View()), step) && View() == Apply(old(View()), step) && r.value == step.task
      ensures r.Success? ==> tasks == old(tasks)[id := step.task] && notes == old(notes)
      ensures r.Fail? ==> View() == old(View())
      ensures r.Success? <==> !server.Refuses(0) && server.Commits() && id !in old(tasks)
    {
      var t := Task(title, body, Open, assignee, session, now, now);
      step := Step.CreateTask(id, t);
      if server.Refuses(0) || id in tasks || !server.Commits() { return Fail(Refused), step; }
      tasks := tasks[id := t];
      r := Success(t);
    }

    /** GetTask: the row, then its notes. */
    method GetTask(id: Id, server: Server) returns (r: Outcome<Task>)
      ensures r.Success? <==> server.Clean(0, 2) && id in tasks
      ensures r.Success? ==> r.value == tasks[id]
      ensures r == Fail(NotFound) <==> !server.Refuses(0) && id !in tasks
      ensures r.Success? || r.error in {NotFound, Unread}
    {
      if server.Refuses(0) { return Fail(Unread); }
      if id !in tasks { return Fail(NotFound); }
      if server.Refuses(1) { return Fail(Unread); }
      r := Success(tasks[id]);
    }

    /** UpdateTask's transaction: fetch, check the transition, write the row, insert the note; all of it or nothing. */
    method UpdateBody(id: Id, upd: TaskUpdate, now: Time, server: Server) returns (failed: Option<Failure>)
      modifies this
      ensures failed.None? <==>
                && id in old(tasks)
                && (upd.status.None? || IsValidTransition(old(tasks)[id].status, upd.status.value))
                && server.Commits() && server.Clean(0, if HasNote(upd) then 3 else 2)
      ensures failed.None? ==> Verdict(old(View()), id, upd) == None
      ensures failed == Some(NotFound) <==> !server.Refuses(0) && id !in old(tasks)
      ensures failed == Some(InvalidTransition) <==>
                && !server.Refuses(0) && id in old(tasks)
                && upd.status.Some? && !IsValidTransition(old(tasks)[id].status, upd.status.value)
      ensures failed.None? ==> Next(old(View()), Step.UpdateTask(id, upd, now), View())
      ensures failed.None? ==> UpdateWrites(old(View()), id, upd, now, View())
      ensures failed.Some? ==> View() == old(View()) && failed.value != Unread
      ensures failed.Some? && failed.value != Refused ==> Verdict(old(View()), id, upd) == failed
    {
      var tasks', notes' := tasks, notes;
      if server.Refuses(0) { return Some(Refused); }
      if id !in tasks' { return Some(NotFound); }
      var t := tasks'[id];
      if upd.status.Some? && upd.status.value != t.status {
        if !IsValidTransition(t.status, upd.status.value) { return Some(InvalidTransition); }
        t := t.(status := upd.status.value);
      }
      if upd.assignee.Some? { t := t.(assignee := upd.assignee.value); }
      if server.Refuses(1) { return Some(Refused); }
      tasks' := tasks'[id := t.(session := upd.session, updatedAt := now)];
      if upd.note.Some? && upd.note.value != "" {
        if server.Refuses(2) { return Some(Refused); }
        notes' := notes' + [Note(id, upd.note.value, upd.agent, now)];
      }
      if !server.Commits() { return Some(Refused); }
      tasks, notes := tasks', notes';
      return None;
    }

    /**
     UpdateTask: the transaction, and then the task is read back in a second round trip, before
     which others may run, so an error can hide an update that committed.
     */
    method UpdateTask(id: Id, upd: TaskUpdate, now: Time, others: Others, server: Server, readBack: Server)
      returns (r: Outcome<Task>, ghost committed: bool, ghost mid: Board)
      requires Lawful(others)
      modifies this
      ensures committed <==>
                && Verdict(old(View()), id, upd) == None
                && server.Commits() && server.Clean(0, if HasNote(upd) then 3 else 2)
      ensures if committed then Next(old(View()), Step.UpdateTask(id, upd, now), mid) && View() == others(mid)
              else mid == View() == old(View())
      ensures committed ==> UpdateWrites(old(View()), id, upd, now, mid)
      ensures r.Success? ==> committed && id in tasks && r.value == tasks[id]
      ensures !committed ==> r.Fail? && r.error != Unread
      ensures !committed && r.error != Refused ==> Verdict(old(View()), id, upd) == Some(r.error)
      ensures committed ==> (r.Success? <==> readBack.Clean(0, 2) && id in tasks)
      ensures committed ==> (r == Fail(NotFound) <==> !readBack.Refuses(0) && id !in tasks)
      ensures committed ==> r.Success? || r.error in {NotFound, Unread}
    {
      var failed := UpdateBody(id, upd, now, server);
      committed, mid := failed.None?, View();
      if failed.Some? { return Fail(failed.value), committed, mid; }
      var moved := others(View());
      tasks, notes := moved.tasks, moved.notes;
      r := GetTask(id, readBack);
    }

    method DeleteTask(id: Id, server: Server) returns (r: Outcome<()>)
      modifies this
      ensures r.Success? ==>
                Enabled(old(View()), Step.DeleteTask(id)) && View() == Apply(old(View()), Step.DeleteTask(id))
      ensures r.Success? ==> tasks == old(tasks) - {id} && NotesDeleted(old(notes), id, notes)
      ensures r.Fail? ==> View() == old(View())
      ensures r.Success? <==> !server.Refuses(0) && server.Commits() && id in old(tasks)
      ensures r == Fail(NotFound) <==> !server.Refuses(0) && id !in old(tasks)
    {
      if server.Refuses(0) { return Fail(Refused); }
      if id !in tasks { return Fail(NotFound); }
      if !server.Commits() { return Fail(Refused); }
      DeletingTakesItsNotes(notes, id);
      tasks, notes := tasks - {id}, WithoutNotesOf(notes, id);
      r := Success(());
    }

    /** ListTasks with the empty filter: the newest 50 by created_at as text; ties come in any order. */
    method ListNewest() returns (page: seq<Id>)
      ensures IsNewestPage(tasks, page)
      ensures forall i, j :: 0 <= i < j < |page| ==>
                page[i] in tasks && page[j] in tasks
                && !Less(Text(tasks[page[i]].createdAt), Text(tasks[page[j]].createdAt))
      ensures forall id, other :: id in page && id in tasks && other in tasks && other !in page ==>
                |page| == 50 && !Less(Text(tasks[id].createdAt), Text(tasks[other].createdAt))
    {
      var ids := InSomeOrder(tasks.Keys);
      NewerIsAnOrder();
      var all := SortIds(tasks, ids, Newer);
      page := if |all| <= 50 then all else all[..50];
      NewestPageOf(tasks, all, page);
    }

    /** loadTaskNotes: ORDER BY created_at ASC, id ASC, then a loop that appends each text. */
    method LoadTaskNotes(id: Id) returns (texts: seq<string>)
      ensures texts == Texts(ListedRows(notes, id))
    {
      var rows := ListedRows(notes, id);
      texts := [];
      for i := 0 to |rows|
        invariant texts == Texts(rows[..i])
      {
        texts := texts + [rows[i].text];
        assert rows[..i + 1] == rows[..i] + [rows[i]];
        TextsAppend(rows[..i], rows[i]);
      }
      assert rows[..|rows|] == rows;
    }
  }

  // --------------------------------------------------------------------- task listing

  predicate Newer(a: Task, b: Task) {
    Less(Text(b.createdAt), Text(a.createdAt))
  }

  lemma NewerIsAnOrder()
    ensures StrictWeakOrder(Newer)
  {
    TextOrderIsWeak();
    forall a: Task ensures !Newer(a, a) {}
    forall a: Task, b: Task | Newer(a, b) ensures !Newer(b, a) {}
    forall a: Task, b: Task, c: Task | !Newer(b, a) && !Newer(c, b) ensures !Newer(c, a) {}
  }

  /** The default page of tasks: up to 50, no task left out being newer than one that is in. */
  ghost predicate IsNewestPage(tasks: map<Id, Task>, page: seq<Id>) {
    && Distinct(page) && |page| <= 50
    && (forall id :: id in page ==> id in tasks)
    && (forall id, other :: id in page && other in tasks && other !in page ==>
          |page| == 50 && !Newer(tasks[other], tasks[id]))
    && (forall i, j :: 0 <= i < j < |page| ==>
          page[i] in tasks && page[j] in tasks && !Newer(tasks[page[j]], tasks[page[i]]))
    && (page == [] ==> tasks == map[])
  }

  lemma NewestPageOf(tasks: map<Id, Task>, all: seq<Id>, page: seq<Id>)
    requires Distinct(all) && forall id :: id in all <==> id in tasks
    requires forall i, j :: 0 <= i < j < |all| ==>
               all[i] in tasks && all[j] in tasks && !Newer(tasks[all[j]], tasks[all[i]])
    requires page == if |all| <= 50 then all else all[..50]
    ensures IsNewestPage(tasks, page)
  {
    forall id, other | id in page && other in tasks && other !in page
      ensures |page| == 50 && !Newer(tasks[other], tasks[id])
    {
      LeftOutIsNotNewer(tasks, all, page, id, other);
    }
    NothingListed(tasks, all, page);
  }

  lemma LeftOutIsNotNewer(tasks: map<Id, Task>, all: seq<Id>, page: seq<Id>, id: Id, other: Id)
    requires forall i, j :: 0 <= i < j < |all| ==>
               all[i] in tasks && all[j] in tasks && !Newer(tasks[all[j]], tasks[all[i]])
    requires page == if |all| <= 50 then all else all[..50]
    requires id in page && other in all && other !in page && id in tasks && other in tasks
    ensures |page| == 50 && !Newer(tasks[other], tasks[id])
  {
    var i :| 0 <= i < |page| && page[i] == id;
    var j :| 0 <= j < |all| && all[j] == other;
    assert all[i] == id && i < j;
  }

  lemma NothingListed(tasks: map<Id, Task>, all: seq<Id>, page: seq<Id>)
    requires forall id :: id in all <==> id in tasks
    requires page == if |all| <= 50 then all else all[..50]
    ensures page == [] ==> tasks == map[]
    ensures forall id :: id in page ==> id in all
  {
    if page == [] {
      assert all == [];
      assert forall id :: id !in tasks;
    }
  }

  // --------------------------------------------------------------------- note listing

  predicate NoteBefore(a: Note, b: Note) {
    Less(Text(a.createdAt), Text(b.createdAt))
  }

  lemma NoteBeforeIsAnOrder()
    ensures StrictWeakOrder(NoteBefore)
  {
    TextOrderIsWeak();
    forall a: Note ensures !NoteBefore(a, a) {}
    forall a: Note, b: Note | NoteBefore(a, b) ensures !NoteBefore(b, a) {}
    forall a: Note, b: Note, c: Note | !NoteBefore(b, a) && !NoteBefore(c, b) ensures !NoteBefore(c, a) {}
  }

  lemma TextOrderIsWeak()
    ensures forall a: string :: !Less(a, a)
    ensures forall a: string, b: string :: Less(a, b) ==> !Less(b, a)
    ensures forall a: string, b: string, c: string :: !Less(b, a) && !Less(c, b) ==> !Less(c, a)
  {
    forall a: string ensures !Less(a, a) { LessIrreflexive(a); }
    forall a: string, b: string | Less(a, b) ensures !Less(b, a) {
      if Less(b, a) { LessTransitive(a, b, a); }
    }
    forall a: string, b: string, c: string | !Less(b, a) && !Less(c, b) ensures !Less(c, a) {
      LessTotal(a, b);
      LessTotal(b, c);
      if Less(a, b) && Less(b, c) { LessTransitive(a, b, c); }
      if Less(c, a) && Less(a, c) { LessTransitive(a, c, a); }
    }
  }

  function RowsOf(notes: seq<Note>, id: Id): seq<Note> {
    if notes == [] then [] else (if notes[0].task == id then [notes[0]] else []) + RowsOf(notes[1..], id)
  }

  function Texts(rows: seq<Note>): seq<string> {
    if rows == [] then [] else [rows[0].text] + Texts(rows[1..])
  }

  /** A task's rows by created_at as text; the stable sort leaves equal times in id order. */
  function ListedRows(notes: seq<Note>, id: Id): seq<Note> {
    SortBy(RowsOf(notes, id), NoteBefore)
  }

  /** No row has a lesser created_at text than a row before it. */
  ghost predicate InTextOrder(rows: seq<Note>) {
    forall i, j :: 0 <= i < j < |rows| ==> !Less(Text(rows[j].createdAt), Text(rows[i].createdAt))
  }

  /** The listing shows every accepted note once, and in insertion order if the clock never reads backwards. */
  lemma ListingShowsEveryNote(notes: seq<Note>, id: Id)
    ensures multiset(Texts(ListedRows(notes, id))) == multiset(NotesOf(notes, id))
    ensures InTextOrder(ListedRows(notes, id))
    ensures InTextOrder(RowsOf(notes, id)) ==> Texts(ListedRows(notes, id)) == NotesOf(notes, id)
  {
    NoteBeforeIsAnOrder();
    SortBySorts(RowsOf(notes, id), NoteBefore);
    SortTexts(RowsOf(notes, id));
    TextsOfRows(notes, id);
    if InTextOrder(RowsOf(notes, id)) { SortByOfSorted(RowsOf(notes, id), NoteBefore); }
  }

  lemma {:induction false} TextsAppend(rows: seq<Note>, row: Note)
    ensures Texts(rows + [row]) == Texts(rows) + [row.text]
  {
    if rows == [] {
      assert [] + [row] == [row];
      assert Texts([row]) == [row.text] + Texts([]);
    } else {
      assert (rows + [row])[1..] == rows[1..] + [row];
      TextsAppend(rows[1..], row);
    }
  }

  lemma {:induction false} TextsOfRows(notes: seq<Note>, id: Id)
    ensures Texts(RowsOf(notes, id)) == NotesOf(notes, id)
  {
    if notes != [] {
      TextsOfRows(notes[1..], id);
      var rest := RowsOf(notes[1..], id);
      if notes[0].task == id { assert ([notes[0]] + rest)[1..] == rest; } else { assert [] + rest == rest; }
    }
  }

  lemma {:induction false} InsertTexts(row: Note, rows: seq<Note>)
    ensures multiset(Texts(Insert(row, rows, NoteBefore))) == multiset(Texts(rows)) + multiset{row.text}
  {
    if rows != [] && !NoteBefore(row, rows[0]) {
      InsertTexts(row, rows[1..]);
    }
  }

  /** Sorting rows keeps their texts, counted. */
  lemma {:induction false} SortTexts(rows: seq<Note>)
    ensures multiset(Texts(SortBy(rows, NoteBefore))) == multiset(Texts(rows))
  {
    if rows != [] {
      var front, last := rows[..|rows| - 1], rows[|rows| - 1];
      SortTexts(front);
      InsertTexts(last, SortBy(front, NoteBefore));
      TextsByLast(rows);
    }
  }

  lemma TextsByLast(rows: seq<Note>)
    requires rows != []
    ensures multiset(Texts(rows)) == multiset(Texts(rows[..|rows| - 1])) + multiset{rows[|rows| - 1].text}
  {
    assert rows == rows[..|rows| - 1] + [rows[|rows| - 1]];
    TextsAppend(rows[..|rows| - 1], rows[|rows| - 1]);
  }

  // ------------------------------------------------------------ tasks over runs

  /** The task exists throughout, so nothing deletes it. */
  predicate ExistsThrough(bs: seq<Board>, id: Id, i: nat, j: nat) {
    i <= j < |bs| && forall k :: i <= k <= j ==> id in bs[k].tasks
  }

  /** The status of a task in each state from i to j. */
  function StatusesOf(bs: seq<Board>, id: Id, i: nat, j: nat): (ss: seq<Status>)
    requires ExistsThrough(bs, id, i, j)
    ensures |ss| == j - i + 1 && forall k :: 0 <= k < |ss| ==> ss[k] == bs[i + k].tasks[id].status
  {
    seq(j - i + 1, k requires 0 <= k <= j - i && ExistsThrough(bs, id, i, j) => bs[i + k].tasks[id].status)
  }

  /** The statuses a task goes through, without stutters. */
  function History(bs: seq<Board>, id: Id, i: nat, j: nat): seq<Status>
    requires ExistsThrough(bs, id, i, j)
  {
    StutterFree(StatusesOf(bs, id, i, j))
  }

  /** A step changes of an existing task only what an update of that task asks for; title, body and birth stay. */
  lemma StepWritesWhatIsAsked(b: Board, step: Step, after: Board, id: Id)
    requires Next(b, step, after) && id in b.tasks && id in after.tasks
    ensures
      var was, now_ := b.tasks[id], after.tasks[id];
      var asked := step.UpdateTask? && step.id == id;
      && now_.title == was.title && now_.body == was.body && now_.createdAt == was.createdAt
      && now_.status == (if asked && step.upd.status.Some? then step.upd.status.value else was.status)
      && now_.assignee == (if asked && step.upd.assignee.Some? then step.upd.assignee.value else was.assignee)
      && now_.session == (if asked then step.upd.session else was.session)
      && now_.updatedAt == (if asked then step.now else was.updatedAt)
  {
  }

  /** Update k of a run names an assignee for the task. */
  predicate Assigns(steps: seq<Step>, id: Id, k: nat) {
    k < |steps| && steps[k].UpdateTask? && steps[k].id == id && steps[k].upd.assignee.Some?
  }

  /** A task keeps the last assignee it was given, and its title, body and creation time for good. */
  lemma {:induction false} LastAssigneeHolds(bs: seq<Board>, steps: seq<Step>, id: Id, i: nat, j: nat)
    requires Behaviour(bs, steps) && i < j && ExistsThrough(bs, id, i, j)
    requires Assigns(steps, id, i) && forall k :: i < k < j ==> !Assigns(steps, id, k)
    ensures bs[j].tasks[id].assignee == steps[i].upd.assignee.value
    ensures
      var a, z := bs[i].tasks[id], bs[j].tasks[id];
      z.title == a.title && z.body == a.body && z.createdAt == a.createdAt
    decreases j
  {
    StepWritesWhatIsAsked(bs[j - 1], steps[j - 1], bs[j], id);
    if i + 1 < j {
      LastAssigneeHolds(bs, steps, id, i, j - 1);
      assert !Assigns(steps, id, j - 1);
    }
  }

  lemma StatusMovesLawfully(b: Board, step: Step, after: Board, id: Id)
    requires Next(b, step, after) && id in b.tasks && id in after.tasks
    ensures IsValidTransition(b.tasks[id].status, after.tasks[id].status)
  {
  }

  lemma StatusesMoveLawfully(bs: seq<Board>, steps: seq<Step>, id: Id, i: nat, j: nat)
    requires Behaviour(bs, steps) && ExistsThrough(bs, id, i, j)
    ensures
      var ss := StatusesOf(bs, id, i, j);
      forall k :: 0 <= k < |ss| - 1 ==> IsValidTransition(ss[k], ss[k + 1])
  {
    var ss := StatusesOf(bs, id, i, j);
    forall k | 0 <= k < |ss| - 1 ensures IsValidTransition(ss[k], ss[k + 1]) {
      StatusMovesLawfully(bs[i + k], steps[i + k], bs[i + k + 1], id);
    }
  }

  /** On every run, a task's stutter-free history makes only allowed moves. */
  lemma HistoriesAreValid(bs: seq<Board>, steps: seq<Step>, id: Id, i: nat, j: nat)
    requires Behaviour(bs, steps) && ExistsThrough(bs, id, i, j)
    ensures ValidHistory(History(bs, id, i, j))
  {
    StatusesMoveLawfully(bs, steps, id, i, j);
    StutterFreeIsValid(StatusesOf(bs, id, i, j));
  }

  /** A done or failed task was open, then claimed, then in progress, on its way there. */
  lemma FinishedTasksWentThroughEveryStage(bs: seq<Board>, steps: seq<Step>, id: Id, i: nat, j: nat)
    requires Behaviour(bs, steps) && ExistsThrough(bs, id, i, j)
    requires bs[i].tasks[id].status == Open && bs[j].tasks[id].status in {Done, Failed}
    ensures
      var h := History(bs, id, i, j);
      |h| >= 4 && h[|h| - 4..] == [Open, Claimed, InProgress, bs[j].tasks[id].status]
  {
    HistoriesAreValid(bs, steps, id, i, j);
    FinishedHistoryEndsInOrder(History(bs, id, i, j));
  }

  /** A terminal status never changes while the task exists. */
  lemma TerminalStatusIsForever(bs: seq<Board>, steps: seq<Step>, id: Id, i: nat, j: nat)
    requires Behaviour(bs, steps) && ExistsThrough(bs, id, i, j) && Terminal(bs[i].tasks[id].status)
    ensures bs[j].tasks[id].status == bs[i].tasks[id].status
  {
    StatusesMoveLawfully(bs, steps, id, i, j);
    TerminalStays(StatusesOf(bs, id, i, j), j - i);
  }

  lemma {:induction false} NotesOfAppend(a: seq<Note>, b: seq<Note>, id: Id)
    ensures NotesOf(a + b, id) == NotesOf(a, id) + NotesOf(b, id)
  {
    if a == [] {
      assert a + b == b;
    } else {
      assert (a + b)[1..] == a[1..] + b;
      NotesOfAppend(a[1..], b, id);
    }
  }

  lemma {:induction false} DeletingKeepsOtherNotes(notes: seq<Note>, gone: Id, id: Id)
    requires gone != id
    ensures NotesOf(WithoutNotesOf(notes, gone), id) == NotesOf(notes, id)
  {
    if notes != [] {
      DeletingKeepsOtherNotes(notes[1..], gone, id);
      var rest := WithoutNotesOf(notes[1..], gone);
      if notes[0].task != gone { assert ([notes[0]] + rest)[1..] == rest; } else { assert [] + rest == rest; }
    }
  }

  lemma {:induction false} DeletingCounts(notes: seq<Note>, gone: Id, n: Note)
    ensures multiset(WithoutNotesOf(notes, gone))[n] == if n.task == gone then 0 else multiset(notes)[n]
  {
    if notes != [] {
      DeletingCounts(notes[1..], gone, n);
      assert notes == [notes[0]] + notes[1..];
    }
  }

  /** Deleting a task deletes its notes and no others. */
  lemma DeletingTakesItsNotes(notes: seq<Note>, gone: Id)
    ensures NotesDeleted(notes, gone, WithoutNotesOf(notes, gone))
  {
    forall n: Note
      ensures multiset(WithoutNotesOf(notes, gone))[n] == if n.task == gone then 0 else multiset(notes)[n]
    {
      DeletingCounts(notes, gone, n);
    }
    forall id | id != gone ensures NotesOf(WithoutNotesOf(notes, gone), id) == NotesOf(notes, id) {
      DeletingKeepsOtherNotes(notes, gone, id);
    }
  }

  lemma {:induction false} RowsOfCounts(notes: seq<Note>, id: Id, n: Note)
    ensures multiset(RowsOf(notes, id))[n] == if n.task == id then multiset(notes)[n] else 0
  {
    if notes != [] {
      RowsOfCounts(notes[1..], id, n);
      assert notes == [notes[0]] + notes[1..];
    }
  }

  /** The listed rows are the task's own, each as often as it is stored. */
  lemma ListedRowsAreTheTasks(notes: seq<Note>, id: Id, n: Note)
    ensures multiset(ListedRows(notes, id))[n] == if n.task == id then multiset(notes)[n] else 0
  {
    NoteBeforeIsAnOrder();
    SortBySorts(RowsOf(notes, id), NoteBefore);
    RowsOfCounts(notes, id, n);
  }

  /** What one step adds to a task's notes: its own non-empty note, and nothing else. */
  lemma StepAddsItsNote(b: Board, step: Step, after: Board, id: Id)
    requires Next(b, step, after) && id in b.tasks && id in after.tasks
    ensures NotesOf(after.notes, id) ==
            NotesOf(b.notes, id) +
            (if step.UpdateTask? && step.id == id && HasNote(step.upd)
             then [step.upd.note.value] else [])
  {
    match step
    case CreateTask(_, _) =>
    case UpdateTask(u, upd, now) =>
      NotesOfAppend(b.notes, NoteRows(u, upd, now), id);
      if NoteRows(u, upd, now) != [] {
        assert NoteRows(u, upd, now)[1..] == [];
        assert NotesOf([], id) == [];
      }
    case DeleteTask(gone) => DeletingKeepsOtherNotes(b.notes, gone, id);
  }

  /** Accepted notes are never lost while the task exists: its notes only grow at the end. */
  lemma {:induction false} NotesOnlyGrow(bs: seq<Board>, steps: seq<Step>, id: Id, i: nat, j: nat)
    requires Behaviour(bs, steps) && ExistsThrough(bs, id, i, j)
    ensures NotesOf(bs[i].notes, id) <= NotesOf(bs[j].notes, id)
    decreases j
  {
    if i < j {
      NotesOnlyGrow(bs, steps, id, i, j - 1);
      StepAddsItsNote(bs[j - 1], steps[j - 1], bs[j], id);
    }
  }
}
