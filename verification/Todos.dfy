/** Agent-scoped todos: reordering writes sort_order row by row, and the listing sorts by it. */
module Todos {
  import opened Basics
  import opened Clock
  import opened Ordering

  type Id = string

  /** A row of `todos`; title, parent and context are one opaque body. */
  datatype Todo = Todo(agent: string, body: string, status: string, sortOrder: int, createdAt: Time, updatedAt: Time)

  type Rows = map<Id, Todo>

  datatype Failure = NotFound | Refused

  // -------------------------------------------------------------------- reordering

  predicate Owned(todos: Rows, agent: string, id: Id) {
    id in todos && todos[id].agent == agent
  }

  /** ids[i] is the first id that is missing or another agent's. */
  predicate FirstForeign(todos: Rows, agent: string, ids: seq<Id>, i: int) {
    0 <= i < |ids| && !Owned(todos, agent, ids[i]) && forall k :: 0 <= k < i ==> Owned(todos, agent, ids[k])
  }

  /** The last place of id in ids. */
  function LastIndex(ids: seq<Id>, id: Id): (i: nat)
    requires id in ids
    ensures i < |ids| && ids[i] == id && id !in ids[i + 1..]
  {
    var n := |ids| - 1;
    if ids[n] == id then n
    else
      assert id in ids[..n] by { assert ids == ids[..n] + [ids[n]]; }
      var i := LastIndex(ids[..n], id);
      assert ids[i + 1..] == ids[..n][i + 1..] + [ids[n]];
      i
  }

  /** Every listed row gets its last place as sort_order; the other rows are untouched. */
  function Reordered(todos: Rows, ids: seq<Id>, now: Time): Rows {
    map id | id in todos ::
      if id in ids then todos[id].(sortOrder := LastIndex(ids, id), updatedAt := now) else todos[id]
  }

  /** Row by row: a listed row has the last place of its id and is touched now, no other row changes. */
  ghost predicate RowsReordered(todos: Rows, ids: seq<Id>, now: Time, after: Rows) {
    && after.Keys == todos.Keys
    && (forall id :: id in todos && id !in ids ==> after[id] == todos[id])
    && (forall id :: id in todos && id in ids ==>
          && after[id].agent == todos[id].agent && after[id].body == todos[id].body
          && after[id].status == todos[id].status && after[id].createdAt == todos[id].createdAt
          && after[id].updatedAt == now
          && 0 <= after[id].sortOrder < |ids| && ids[after[id].sortOrder] == id
          && id !in ids[after[id].sortOrder + 1..])
  }

  lemma ReorderOneMore(todos: Rows, ids: seq<Id>, i: nat, now: Time)
    requires i < |ids| && ids[i] in todos
    ensures
      var before := Reordered(todos, ids[..i], now);
      && ids[i] in before
      && Reordered(todos, ids[..i + 1], now) ==
           before[ids[i] := before[ids[i]].(sortOrder := i, updatedAt := now)]
  {
    var done, more := ids[..i], ids[..i + 1];
    assert more == done + [ids[i]] && more[..i] == done;
    forall id | id in todos
      ensures id in more <==> id in done || id == ids[i]
      ensures id in more ==> LastIndex(more, id) == if id == ids[i] then i else LastIndex(done, id)
    {
    }
  }

  /** Every row that passes the filter, each once, in the order of ORDER BY sort_order, created_at. */
  ghost predicate IsListing(todos: Rows, agent: string, status: string, all: seq<Id>) {
    && (forall i, j :: 0 <= i < j < |all| ==> all[i] != all[j])
    && (forall id :: id in all <==> Matches(todos, agent, status, id))
    && (forall i, j :: 0 <= i < j < |all| ==>
          all[i] in todos && all[j] in todos && !RowBefore(todos[all[j]], todos[all[i]]))
  }

  predicate Matches(todos: Rows, agent: string, status: string, id: Id) {
    id in todos && todos[id].agent == agent && (status != "" ==> todos[id].status == status)
  }

  predicate RowBefore(a: Todo, b: Todo) {
    a.sortOrder < b.sortOrder || (a.sortOrder == b.sortOrder && Less(Text(a.createdAt), Text(b.createdAt)))
  }

  /** LIMIT and OFFSET; a limit that is not positive means 100. */
  function Page(all: seq<Id>, limit: int, offset: int): seq<Id> {
    var rest := if offset <= 0 then all else if offset >= |all| then [] else all[offset..];
    var n := if limit > 0 then limit else 100;
    if n >= |rest| then rest else rest[..n]
  }

  /** Place by place what a page holds: at most `limit` rows of the listing, from `offset` on. */
  lemma PageAt(all: seq<Id>, limit: int, offset: int)
    ensures
      var from := if offset <= 0 then 0 else offset;
      var most := if limit <= 0 then 100 else limit;
      var page := Page(all, limit, offset);
      && |page| == (if |all| <= from then 0 else if |all| - from <= most then |all| - from else most)
      && forall k :: 0 <= k < |page| ==> page[k] == all[from + k]
  {
  }

  /** A page of some listing; rows that tie on both columns may come in any order. */
  ghost predicate IsPage(todos: Rows, agent: string, status: string, limit: int, offset: int, page: seq<Id>) {
    exists all: seq<Id> :: IsListing(todos, agent, status, all) && page == Page(all, limit, offset)
  }

  // ------------------------------------------------------------------------- the store

  class TodoStore {
    var todos: Rows

    constructor ()
      ensures todos == map[]
    {
      todos := map[];
    }

    /** ReorderTodos: one UPDATE per id; an id that is missing or foreign undoes them all. */
    method ReorderTodos(agent: string, ids: seq<Id>, now: Time, server: Server) returns (failed: Option<Failure>)
      modifies this
      ensures failed.None? ==>
                (forall id :: id in ids ==> Owned(old(todos), agent, id)) && todos == Reordered(old(todos), ids, now)
      ensures failed.None? ==> RowsReordered(old(todos), ids, now, todos)
      ensures failed.Some? ==> todos == old(todos)
      ensures failed.None? <==>
                && server.Commits() && server.Clean(0, |ids|)
                && forall id :: id in ids ==> Owned(old(todos), agent, id)
      ensures failed == Some(NotFound) <==>
                exists i :: FirstForeign(old(todos), agent, ids, i) && server.Clean(0, i + 1)
    {
      var rows := todos;
      assert Reordered(todos, [], now) == todos;
      for i := 0 to |ids|
        invariant todos == old(todos)
        invariant rows == Reordered(todos, ids[..i], now)
        invariant forall k :: 0 <= k < i ==> Owned(todos, agent, ids[k])
        invariant server.Clean(0, i)
      {
        var id := ids[i];
        if server.Refuses(i) { return Some(Refused); }
        if id !in rows || rows[id].agent != agent {
          assert FirstForeign(todos, agent, ids, i);
          return Some(NotFound);
        }
        ReorderOneMore(todos, ids, i, now);
        rows := rows[id := rows[id].(sortOrder := i, updatedAt := now)];
        assert ids[..i + 1] == ids[..i] + [id];
      }
      assert ids[..|ids|] == ids;
      if !server.Commits() { return Some(Refused); }
      todos := rows;
      return None;
    }

    method ListTodos(agent: string, status: string, limit: int, offset: int) returns (page: seq<Id>)
      ensures IsPage(todos, agent, status, limit, offset, page)
      ensures forall k :: 0 <= k < |page| ==>
                && page[k] in todos && todos[page[k]].agent == agent
                && (status == "" || todos[page[k]].status == status)
      ensures forall i, j :: 0 <= i < j < |page| && page[i] in todos && page[j] in todos ==>
                && page[i] != page[j] && todos[page[i]].sortOrder <= todos[page[j]].sortOrder
                && (todos[page[i]].sortOrder == todos[page[j]].sortOrder ==>
                     !Less(Text(todos[page[j]].createdAt), Text(todos[page[i]].createdAt)))
      ensures
        var n := |set id | id in todos && todos[id].agent == agent && (status == "" || todos[id].status == status)|;
        var from, most := if offset <= 0 then 0 else offset, if limit <= 0 then 100 else limit;
        |page| == if n <= from then 0 else if n - from <= most then n - from else most
    {
      var matching := set id | id in todos && todos[id].agent == agent && (status != "" ==> todos[id].status == status);
      var ids := InSomeOrder(matching);
      RowBeforeIsAnOrder();
      var sorted := SortIds(todos, ids, RowBefore);
      page := Page(sorted, limit, offset);
      assert IsListing(todos, agent, status, sorted);
      PageAt(sorted, limit, offset);
      ListingSize(todos, agent, status, sorted);
      forall k | 0 <= k < |page| ensures Matches(todos, agent, status, page[k]) {
        assert page[k] in sorted;
      }
    }

    /** PruneDoneTodos: deletes finished rows last touched before the cutoff, and counts them. */
    method PruneDoneTodos(agent: string, cutoff: Time, server: Server) returns (count: nat, failed: bool)
      modifies this
      ensures !failed ==> forall id :: id in todos <==>
                && id in old(todos)
                && (|| old(todos)[id].status == "pending" || !Less(Text(old(todos)[id].updatedAt), Text(cutoff))
                    || (agent != "" && old(todos)[id].agent != agent))
      ensures !failed ==> forall id :: id in todos ==> todos[id] == old(todos)[id]
      ensures !failed ==> |todos| == |old(todos)| - count
      ensures failed ==> todos == old(todos)
      ensures !failed <==> !server.Refuses(0) && server.Commits()
    {
      count, failed := 0, true;
      if server.Refuses(0) { return; }
      var gone := Prunable(todos, agent, cutoff);
      count := |gone|;
      if !server.Commits() { return; }
      RowsLeft(todos, gone);
      todos, failed := todos - gone, false;
    }
  }

  lemma ListingSize(todos: Rows, agent: string, status: string, all: seq<Id>)
    requires IsListing(todos, agent, status, all)
    ensures |all| ==
            |set id | id in todos && todos[id].agent == agent && (status == "" || todos[id].status == status)|
  {
    SetSize(all);
    assert (set id | id in all) ==
           set id | id in todos && todos[id].agent == agent && (status == "" || todos[id].status == status);
  }

  lemma RowsLeft(rows: Rows, gone: set<Id>)
    requires gone <= rows.Keys
    ensures |rows - gone| == |rows| - |gone|
  {
    assert (rows - gone).Keys == rows.Keys - gone;
    assert rows.Keys == (rows.Keys - gone) + gone;
    assert |rows| == |rows.Keys| && |rows - gone| == |(rows - gone).Keys|;
  }

  function Prunable(todos: Rows, agent: string, cutoff: Time): set<Id> {
    set id | id in todos && todos[id].status != "pending" && Less(Text(todos[id].updatedAt), Text(cutoff))
             && (agent != "" ==> todos[id].agent == agent)
  }

  // --------------------------------------------------------------------------- sorting

  lemma RowBeforeIsAnOrder()
    ensures StrictWeakOrder(RowBefore)
  {
    forall a: Todo ensures !RowBefore(a, a) { LessIrreflexive(Text(a.createdAt)); }
    forall a: Todo, b: Todo | RowBefore(a, b) ensures !RowBefore(b, a) {
      RowBeforeAsymmetric(a, b);
    }
    forall a: Todo, b: Todo, c: Todo | !RowBefore(b, a) && !RowBefore(c, b) ensures !RowBefore(c, a) {
      RowBeforeWeak(a, b, c);
    }
  }

  lemma RowBeforeAsymmetric(a: Todo, b: Todo)
    requires RowBefore(a, b)
    ensures !RowBefore(b, a)
  {
    var x, y := Text(a.createdAt), Text(b.createdAt);
    if Less(x, y) && Less(y, x) { LessTransitive(x, y, x); LessIrreflexive(x); }
  }

  lemma RowBeforeWeak(a: Todo, b: Todo, c: Todo)
    requires !RowBefore(b, a) && !RowBefore(c, b)
    ensures !RowBefore(c, a)
  {
    var x, y, z := Text(a.createdAt), Text(b.createdAt), Text(c.createdAt);
    LessTotal(x, y);
    LessTotal(y, z);
    if Less(x, y) && Less(y, z) { LessTransitive(x, y, z); }
    if Less(z, x) && Less(x, z) { LessTransitive(x, z, x); }
    LessIrreflexive(x);
  }

  // ------------------------------------------------------- reordering and listing agree

  /** After a reorder, the listed ids appear, in any listing, in the order of their last places in ids. */
  lemma ListingFollowsTheReorder(todos: Rows, ids: seq<Id>, now: Time, agent: string, status: string, all: seq<Id>,
                                 i: nat, j: nat)
    requires IsListing(Reordered(todos, ids, now), agent, status, all)
    requires i < j < |all| && all[i] in ids && all[j] in ids
    ensures LastIndex(ids, all[i]) < LastIndex(ids, all[j])
  {
    var rows := Reordered(todos, ids, now);
    assert all[i] in rows && all[j] in rows && !RowBefore(rows[all[j]], rows[all[i]]);
  }

  /** Increasing places below n, n of them, are 0, 1, ..., n - 1. */
  lemma {:induction false} IncreasingIsIdentity(places: seq<nat>, k: nat)
    requires forall i, j :: 0 <= i < j < |places| ==> places[i] < places[j]
    requires forall i :: 0 <= i < |places| ==> places[i] < |places|
    requires k < |places|
    ensures places[k] == k
  {
    AtLeastItsPlace(places, k);
    AtMostItsPlace(places, |places| - 1 - k);
  }

  lemma {:induction false} AtLeastItsPlace(places: seq<nat>, k: nat)
    requires forall i, j :: 0 <= i < j < |places| ==> places[i] < places[j]
    requires k < |places|
    ensures places[k] >= k
  {
    if k > 0 { AtLeastItsPlace(places, k - 1); }
  }

  lemma {:induction false} AtMostItsPlace(places: seq<nat>, d: nat)
    requires forall i, j :: 0 <= i < j < |places| ==> places[i] < places[j]
    requires forall i :: 0 <= i < |places| ==> places[i] < |places|
    requires d < |places|
    ensures places[|places| - 1 - d] <= |places| - 1 - d
  {
    if d > 0 { AtMostItsPlace(places, d - 1); }
  }

  lemma SameMembersSameLength(a: seq<Id>, b: seq<Id>)
    requires forall i, j :: 0 <= i < j < |a| ==> a[i] != a[j]
    requires forall i, j :: 0 <= i < j < |b| ==> b[i] != b[j]
    requires forall id :: id in a <==> id in b
    ensures |a| == |b|
  {
    SetSize(a);
    SetSize(b);
    assert (set id | id in a) == (set id | id in b);
  }

  lemma {:induction false} SetSize(a: seq<Id>)
    requires forall i, j :: 0 <= i < j < |a| ==> a[i] != a[j]
    ensures |set id | id in a| == |a|
  {
    if a != [] {
      var front, last := a[..|a| - 1], a[|a| - 1];
      SetSize(front);
      assert a == front + [last];
      assert (set id | id in a) == (set id | id in front) + {last};
    }
  }

  /** Reordering all of an agent's todos makes the listing exactly the given ids. */
  lemma ListingIsTheReorder(todos: Rows, ids: seq<Id>, now: Time, agent: string, all: seq<Id>)
    requires IsListing(Reordered(todos, ids, now), agent, "", all)
    requires forall i, j :: 0 <= i < j < |ids| ==> ids[i] != ids[j]
    requires forall id :: id in ids <==> Owned(todos, agent, id)
    ensures all == ids
  {
    forall id ensures id in all <==> id in ids {
      assert id in all <==> Matches(Reordered(todos, ids, now), agent, "", id);
    }
    SameMembersSameLength(all, ids);
    var places := seq(|all|, k requires 0 <= k < |all| && all[k] in ids => LastIndex(ids, all[k]));
    forall i, j | 0 <= i < j < |places| ensures places[i] < places[j] {
      ListingFollowsTheReorder(todos, ids, now, agent, "", all, i, j);
    }
    forall k | 0 <= k < |all| ensures all[k] == ids[k] {
      assert all[k] in ids;
      IncreasingIsIdentity(places, k);
    }
  }

  /** Whatever page of an agent's reordered todos is asked for, it is that page of the given ids. */
  lemma PagesFollowTheReorder(
    todos: Rows, ids: seq<Id>, now: Time, agent: string, limit: int, offset: int, page: seq<Id>)
    requires IsPage(Reordered(todos, ids, now), agent, "", limit, offset, page)
    requires forall i, j :: 0 <= i < j < |ids| ==> ids[i] != ids[j]
    requires forall id :: id in ids <==> Owned(todos, agent, id)
    ensures page == Page(ids, limit, offset)
    ensures offset <= 0 && |ids| <= (if limit > 0 then limit else 100) ==> page == ids
  {
    var all: seq<Id> :| IsListing(Reordered(todos, ids, now), agent, "", all) && page == Page(all, limit, offset);
    ListingIsTheReorder(todos, ids, now, agent, all);
  }
}
