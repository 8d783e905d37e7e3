/**
 The filter builders: each appends one condition with the next placeholder number, and one
 argument, for every filter that is set. The built query selects exactly the rows that pass
 all of them.
 */
module Queries {
  import opened Basics
  import opened Clock
  import L = Like

  // ------------------------------------------------------------ what a query means

  /** One conjunct after WHERE 1=1; `arg` is the number after the dollar sign, from 1. */
  datatype Cond =
    | Equal(col: string, arg: nat)
    | LikeCol(col: string, arg: nat)
    | HasTag(arg: nat)
    | AtLeast(col: string, arg: nat)

  datatype Arg = Text(text: string) | Number(n: int)

  /** Where LIMIT comes from: written into the text, or bound to a placeholder. */
  datatype Limit = Literal(n: int) | Bound(arg: nat)

  datatype Query = Query(conds: seq<Cond>, args: seq<Arg>, limit: Limit, offset: int)

  /** A row: its text columns, and its JSON array of tags. */
  datatype Row = Row(cols: string -> string, tags: set<string>)

  predicate BoundText(args: seq<Arg>, arg: nat) {
    1 <= arg <= |args| && args[arg - 1].Text?
  }

  predicate Holds(c: Cond, args: seq<Arg>, row: Row) {
    BoundText(args, c.arg) &&
    var value := args[c.arg - 1].text;
    match c
    case Equal(col, _) => row.cols(col) == value
    case LikeCol(col, _) => L.Matches(row.cols(col), value)
    case HasTag(_) => value in row.tags
    case AtLeast(col, _) => !Less(row.cols(col), value)
  }

  predicate Selects(conds: seq<Cond>, args: seq<Arg>, row: Row) {
    forall i :: 0 <= i < |conds| ==> Holds(conds[i], args, row)
  }

  /** The placeholders are $1, $2, ... in order, one argument each, and argIdx is the next number. */
  predicate Aligned(conds: seq<Cond>, args: seq<Arg>, argIdx: nat) {
    && |conds| == |args| && argIdx == |args| + 1
    && (forall i :: 0 <= i < |conds| ==> conds[i].arg == i + 1)
    && (forall i :: 0 <= i < |args| ==> args[i].Text?)
  }

  /** Appending a condition on the next placeholder and its argument adds exactly that conjunct. */
  lemma AddCondition(conds: seq<Cond>, args: seq<Arg>, argIdx: nat, c: Cond, value: string)
    requires Aligned(conds, args, argIdx) && c.arg == argIdx
    ensures Aligned(conds + [c], args + [Text(value)], argIdx + 1)
    ensures forall row :: Selects(conds + [c], args + [Text(value)], row) <==>
              Selects(conds, args, row) && Holds(c, args + [Text(value)], row)
  {
    var more, bound := conds + [c], args + [Text(value)];
    forall row ensures Selects(more, bound, row) <==> Selects(conds, args, row) && Holds(c, bound, row) {
      forall i | 0 <= i < |conds| ensures Holds(conds[i], bound, row) <==> Holds(conds[i], args, row) {
        assert bound[conds[i].arg - 1] == args[conds[i].arg - 1];
      }
      assert forall i :: 0 <= i < |conds| ==> more[i] == conds[i];
      assert more[|conds|] == c;
    }
  }

  /** An extra argument at the end, for LIMIT, changes no condition. */
  lemma ExtraArgument(conds: seq<Cond>, args: seq<Arg>, argIdx: nat, a: Arg)
    requires Aligned(conds, args, argIdx)
    ensures forall row :: Selects(conds, args + [a], row) <==> Selects(conds, args, row)
  {
    forall row ensures Selects(conds, args + [a], row) <==> Selects(conds, args, row) {
      forall i | 0 <= i < |conds| ensures Holds(conds[i], args + [a], row) <==> Holds(conds[i], args, row) {
        assert (args + [a])[conds[i].arg - 1] == args[conds[i].arg - 1];
      }
    }
  }

  function PageLimit(limit: int): Limit {
    Literal(if limit > 0 then limit else 50)
  }

  function PageOffset(offset: int): nat {
    if offset > 0 then offset else 0
  }

  /** A filter field that is set must equal its column. */
  predicate Passes(field: string, col: string, row: Row) {
    field != "" ==> row.cols(col) == field
  }

  // ----------------------------------------------------------------- the builders

  datatype ClaimFilter = ClaimFilter(
    kind: string, agent: string, resource: string, status: string, sessionKey: string, limit: int, offset: int)

  method ListClaims(f: ClaimFilter) returns (q: Query)
    ensures Aligned(q.conds, q.args, |q.args| + 1)
    ensures forall row :: Selects(q.conds, q.args, row) <==>
              && (f.kind == "" || row.cols("type") == f.kind)
              && (f.agent == "" || row.cols("agent_id") == f.agent)
              && (f.resource == "" || row.cols("resource") == f.resource)
              && (f.status == "" || row.cols("status") == f.status)
              && (f.sessionKey == "" || row.cols("session_key") == f.sessionKey)
    ensures q.limit == Literal(if f.limit <= 0 then 50 else f.limit)
    ensures q.offset == if f.offset <= 0 then 0 else f.offset
  {
    var conds: seq<Cond>, args: seq<Arg>, argIdx := [], [], 1;
    conds, args, argIdx := WhenSet(conds, args, argIdx, f.kind, "type");
    conds, args, argIdx := WhenSet(conds, args, argIdx, f.agent, "agent_id");
    conds, args, argIdx := WhenSet(conds, args, argIdx, f.resource, "resource");
    conds, args, argIdx := WhenSet(conds, args, argIdx, f.status, "status");
    conds, args, argIdx := WhenSet(conds, args, argIdx, f.sessionKey, "session_key");
    q := Query(conds, args, PageLimit(f.limit), PageOffset(f.offset));
  }

  /** if field != "" { q += ` AND col = $argIdx`; args = append(args, field); argIdx++ } */
  method WhenSet(conds0: seq<Cond>, args0: seq<Arg>, argIdx0: nat, field: string, col: string)
    returns (conds: seq<Cond>, args: seq<Arg>, argIdx: nat)
    requires Aligned(conds0, args0, argIdx0)
    ensures Aligned(conds, args, argIdx)
    ensures forall row :: Selects(conds, args, row) <==> Selects(conds0, args0, row) && Passes(field, col, row)
  {
    conds, args, argIdx := conds0, args0, argIdx0;
    if field != "" {
      AddCondition(conds, args, argIdx, Equal(col, argIdx), field);
      conds, args, argIdx := conds + [Equal(col, argIdx)], args + [Text(field)], argIdx + 1;
    }
  }

  datatype TaskFilter = TaskFilter(
    status: string, assignee: string, creator: string, sessionKey: string, limit: int, offset: int)

  method ListTasks(f: TaskFilter) returns (q: Query)
    ensures Aligned(q.conds, q.args, |q.args| + 1)
    ensures forall row :: Selects(q.conds, q.args, row) <==>
              && (f.status == "" || row.cols("status") == f.status)
              && (f.assignee == "" || row.cols("assignee") == f.assignee)
              && (f.creator == "" || row.cols("creator") == f.creator)
              && (f.sessionKey == "" || row.cols("session_key") == f.sessionKey)
    ensures q.limit == Literal(if f.limit <= 0 then 50 else f.limit)
    ensures q.offset == if f.offset <= 0 then 0 else f.offset
  {
    var conds: seq<Cond>, args: seq<Arg>, argIdx := [], [], 1;
    conds, args, argIdx := WhenSet(conds, args, argIdx, f.status, "status");
    conds, args, argIdx := WhenSet(conds, args, argIdx, f.assignee, "assignee");
    conds, args, argIdx := WhenSet(conds, args, argIdx, f.creator, "creator");
    conds, args, argIdx := WhenSet(conds, args, argIdx, f.sessionKey, "session_key");
    q := Query(conds, args, PageLimit(f.limit), PageOffset(f.offset));
  }

  datatype MemoryFilter = MemoryFilter(
    tag: string, agent: string, prefix: string, sessionKey: string, limit: int, offset: int)

  /** The rows a memory listing selects, with the prefix read as the LIKE pattern it becomes. */
  predicate MemoryRow(f: MemoryFilter, row: Row) {
    && (f.tag != "" ==> f.tag in row.tags)
    && Passes(f.agent, "agent_id", row)
    && (f.prefix != "" ==> L.Matches(row.cols("key"), f.prefix + "%"))
    && Passes(f.sessionKey, "session_key", row)
  }

  /** The rows a memory listing is documented to select. */
  predicate MemoryRowByPrefix(f: MemoryFilter, row: Row) {
    && (f.tag != "" ==> f.tag in row.tags)
    && Passes(f.agent, "agent_id", row)
    && L.StartsWith(row.cols("key"), f.prefix)
    && Passes(f.sessionKey, "session_key", row)
  }

  method ListMemory(f: MemoryFilter) returns (q: Query)
    ensures Aligned(q.conds, q.args, |q.args| + 1)
    ensures forall row :: Selects(q.conds, q.args, row) <==>
              && (f.tag == "" || f.tag in row.tags)
              && (f.agent == "" || row.cols("agent_id") == f.agent)
              && (f.prefix == "" || L.Matches(row.cols("key"), f.prefix + "%"))
              && (f.sessionKey == "" || row.cols("session_key") == f.sessionKey)
    ensures forall row :: Selects(q.conds, q.args, row) <==> MemoryRow(f, row)
    ensures q.limit == Literal(if f.limit <= 0 then 50 else f.limit)
    ensures q.offset == if f.offset <= 0 then 0 else f.offset
  {
    var conds: seq<Cond>, args: seq<Arg>, argIdx := [], [], 1;
    if f.tag != "" {
      AddCondition(conds, args, argIdx, HasTag(argIdx), f.tag);
      conds, args, argIdx := conds + [HasTag(argIdx)], args + [Text(f.tag)], argIdx + 1;
    }
    assert forall row :: Selects(conds, args, row) <==> (f.tag != "" ==> f.tag in row.tags);
    conds, args, argIdx := WhenSet(conds, args, argIdx, f.agent, "agent_id");
    if f.prefix != "" {
      AddCondition(conds, args, argIdx, LikeCol("key", argIdx), f.prefix + "%");
      conds, args, argIdx := conds + [LikeCol("key", argIdx)], args + [Text(f.prefix + "%")], argIdx + 1;
    }
    conds, args, argIdx := WhenSet(conds, args, argIdx, f.sessionKey, "session_key");
    q := Query(conds, args, PageLimit(f.limit), PageOffset(f.offset));
  }

  /** A listing by prefix selects the keys that start with it, on every table, if and only if it is plain. */
  lemma MemoryPrefixIsExactIffPlain(f: MemoryFilter)
    ensures L.Plain(f.prefix) ==> forall row :: MemoryRow(f, row) <==> MemoryRowByPrefix(f, row)
    ensures !L.Plain(f.prefix) ==> exists row :: MemoryRow(f, row) && !MemoryRowByPrefix(f, row)
  {
    if L.Plain(f.prefix) {
      forall row ensures MemoryRow(f, row) <==> MemoryRowByPrefix(f, row) {
        L.PlainPrefixIsStartsWith(row.cols("key"), f.prefix);
      }
    } else {
      var decoy := L.Decoy(f.prefix);
      L.DecoyMatches(f.prefix);
      var cols := (col: string) =>
        if col == "key" then decoy else if col == "agent_id" then f.agent else f.sessionKey;
      var row := Row(cols, {f.tag});
      assert MemoryRow(f, row) && !MemoryRowByPrefix(f, row);
    }
  }

  /** Without a backslash in the prefix, no row that starts with it is missed. */
  lemma MemoryPrefixMissesNothing(f: MemoryFilter, row: Row)
    requires '\\' !in f.prefix && MemoryRowByPrefix(f, row)
    ensures MemoryRow(f, row)
  {
    L.UnescapedPrefixMatchesStarts(row.cols("key"), f.prefix);
  }

  datatype SessionFilter = SessionFilter(agent: string, repo: string, path: string, since: Option<Time>, limit: int)

  predicate SessionRow(f: SessionFilter, row: Row) {
    && Passes(f.agent, "agent_id", row) && Passes(f.repo, "repo", row)
    && (f.path != "" ==> L.Matches(row.cols("paths"), "%" + f.path + "%"))
    && (f.since.Some? ==> !Less(row.cols("started_at"), Clock.Text(f.since.value)))
  }

  method WhenPath(conds0: seq<Cond>, args0: seq<Arg>, i0: nat, path: string)
    returns (conds: seq<Cond>, args: seq<Arg>, i: nat)
    requires Aligned(conds0, args0, i0)
    ensures Aligned(conds, args, i)
    ensures forall row :: Selects(conds, args, row) <==>
              Selects(conds0, args0, row) && (path != "" ==> L.Matches(row.cols("paths"), "%" + path + "%"))
  {
    conds, args, i := conds0, args0, i0;
    if path != "" {
      AddCondition(conds, args, i, LikeCol("paths", i), "%" + path + "%");
      conds, args, i := conds + [LikeCol("paths", i)], args + [Text("%" + path + "%")], i + 1;
    }
  }

  method WhenSince(conds0: seq<Cond>, args0: seq<Arg>, i0: nat, since: Option<Time>)
    returns (conds: seq<Cond>, args: seq<Arg>, i: nat)
    requires Aligned(conds0, args0, i0)
    ensures Aligned(conds, args, i)
    ensures forall row :: Selects(conds, args, row) <==>
              Selects(conds0, args0, row) && (since.Some? ==> !Less(row.cols("started_at"), Clock.Text(since.value)))
  {
    conds, args, i := conds0, args0, i0;
    if since.Some? {
      var text := Clock.Text(since.value);
      AddCondition(conds, args, i, AtLeast("started_at", i), text);
      conds, args, i := conds + [AtLeast("started_at", i)], args + [Text(text)], i + 1;
    }
  }

  method ListCapturedSessions(f: SessionFilter) returns (q: Query)
    ensures q.args != [] && Aligned(q.conds, q.args[..|q.args| - 1], |q.args|)
    ensures forall row :: Selects(q.conds, q.args, row) <==>
              && (f.agent == "" || row.cols("agent_id") == f.agent)
              && (f.repo == "" || row.cols("repo") == f.repo)
              && (f.path == "" || L.Matches(row.cols("paths"), "%" + f.path + "%"))
              && (f.since.None? || !Less(row.cols("started_at"), Clock.Text(f.since.value)))
    ensures forall row :: Selects(q.conds, q.args, row) <==> SessionRow(f, row)
    ensures q.limit == Bound(|q.args|) && q.offset == 0
    ensures q.args[|q.args| - 1] == Number(if 1 <= f.limit <= 100 then f.limit else 50)
  {
    var limit := f.limit;
    if limit <= 0 || limit > 100 { limit := 50; }
    var conds: seq<Cond>, args: seq<Arg>, i := [], [], 1;
    conds, args, i := WhenSet(conds, args, i, f.agent, "agent_id");
    conds, args, i := WhenSet(conds, args, i, f.repo, "repo");
    conds, args, i := WhenPath(conds, args, i, f.path);
    conds, args, i := WhenSince(conds, args, i, f.since);
    ExtraArgument(conds, args, i, Number(limit));
    q := Query(conds, args + [Number(limit)], Bound(i), 0);
    assert q.args[..|q.args| - 1] == args;
  }

  /** A plain path selects the sessions whose paths text contains it. */
  lemma PlainPathMeansSubstring(f: SessionFilter, row: Row)
    requires L.Plain(f.path)
    ensures SessionRow(f, row) <==>
              && Passes(f.agent, "agent_id", row) && Passes(f.repo, "repo", row)
              && (f.path != "" ==> L.Contains(row.cols("paths"), f.path))
              && (f.since.Some? ==> !Less(row.cols("started_at"), Clock.Text(f.since.value)))
  {
    L.PlainInfixIsContains(row.cols("paths"), f.path);
  }
}
