/**
 Shared memory entries with optimistic versions. UpsertMemory checks the version the caller
 presents and then overwrites that very field inside the closure that RetryTx may run again.
 */
module Memory {
  import opened Basics
  import opened Errors
  import opened Clock
  import opened Retry

  /** A row of `memory`; value, agent, tags and session columns are one opaque body. */
  datatype Row = Row(body: string, version: int, createdAt: Time, updatedAt: Time)

  type Rows = map<string, Row>

  /** The fields of the caller's entry; a zero time is None. */
  datatype Entry = Entry(key: string, body: string, version: int, createdAt: Option<Time>, updatedAt: Option<Time>)

  /** Errors the server gives to the closure's query and write; Nil when the statement works. */
  datatype Faults = Faults(query: Err, write: Err)

  const HEALTHY := Faults(Nil, Nil)
  const CONFLICT := Leaf("conflict")

  /** One run of UpsertMemory's closure on rows m and the caller's entry. */
  function UpsertStep(m: Rows, e: Entry, now: Time, f: Faults): Run<Rows, Entry> {
    if f.query != Nil then Run(m, e, Wrap(f.query), true)
    else if e.key !in m then
      if f.write != Nil then Run(m, e, Wrap(f.write), true)
      else
        var created := if e.createdAt.Some? then e.createdAt.value else now;
        Run(m[e.key := Row(e.body, 1, created, now)],
            e.(version := 1, createdAt := Some(created), updatedAt := Some(now)), Nil, false)
    else
      var existing := m[e.key];
      if e.version > 0 && existing.version != e.version then Run(m, e, CONFLICT, false)
      else if f.write != Nil then Run(m, e, Wrap(f.write), true)
      else
        Run(m[e.key := Row(e.body, existing.version + 1, existing.createdAt, now)],
            e.(version := existing.version + 1, createdAt := Some(existing.createdAt), updatedAt := Some(now)),
            Nil, false)
  }

  /** The closure: the clock is read once, before RetryTx. */
  function UpsertRun(now: Time, faults: nat -> Faults): Closure<Rows, Entry> {
    (k: nat, m: Rows, e: Entry) => UpsertStep(m, e, now, faults(k))
  }

  // -------------------------------------------------------------------- the store

  /** The caller's entry, which UpsertMemory overwrites in place. */
  class MemoryEntry {
    const key: string
    const body: string
    var version: int
    var createdAt: Option<Time>
    var updatedAt: Option<Time>

    constructor (e: Entry)
      ensures View() == e
    {
      key, body, version, createdAt, updatedAt := e.key, e.body, e.version, e.createdAt, e.updatedAt;
    }

    function View(): Entry
      reads this
    {
      Entry(key, body, version, createdAt, updatedAt)
    }
  }

  class MemoryStore {
    var rows: Rows

    constructor ()
      ensures rows == map[]
    {
      rows := map[];
    }

    /** The closure of UpsertMemory, as statements on the rows and on the caller's entry. */
    method UpsertBody(entry: MemoryEntry, now: Time, f: Faults) returns (err: Err, poisoned: bool)
      modifies this, entry
      ensures Run(rows, entry.View(), err, poisoned) == UpsertStep(old(rows), old(entry.View()), now, f)
      ensures err == Nil <==>
                && f.query == Nil && f.write == Nil
                && (entry.key in old(rows) ==>
                     old(entry.version) <= 0 || old(rows)[entry.key].version == old(entry.version))
      ensures err == Nil ==>
                entry.key in rows && rows == old(rows)[entry.key := Row(
                  entry.body,
                  if entry.key in old(rows) then old(rows)[entry.key].version + 1 else 1,
                  if entry.key in old(rows) then old(rows)[entry.key].createdAt
                  else if old(entry.createdAt).Some? then old(entry.createdAt).value else now,
                  now)]
      ensures err == Nil ==>
                && entry.version == rows[entry.key].version
                && entry.createdAt == Some(rows[entry.key].createdAt) && entry.updatedAt == Some(now)
      ensures err != Nil ==> rows == old(rows) && entry.View() == old(entry.View())
      ensures poisoned <==> err != Nil && err != CONFLICT
    {
      if f.query != Nil { return Wrap(f.query), true; }
      if entry.key !in rows {
        var createdAt := now;
        if entry.createdAt.Some? { createdAt := entry.createdAt.value; }
        if f.write != Nil { return Wrap(f.write), true; }
        rows := rows[entry.key := Row(entry.body, 1, createdAt, now)];
        entry.version := 1;
        entry.createdAt := Some(createdAt);
        entry.updatedAt := Some(now);
      } else {
        var existing := rows[entry.key];
        if entry.version > 0 && existing.version != entry.version { return CONFLICT, false; }
        if f.write != Nil { return Wrap(f.write), true; }
        rows := rows[entry.key := existing.(body := entry.body, version := existing.version + 1, updatedAt := now)];
        entry.version := existing.version + 1;
        entry.createdAt := Some(existing.createdAt);
        entry.updatedAt := Some(now);
      }
      return Nil, false;
    }

    /** DeleteMemory: one row gone, or an error and nothing changed. */
    method DeleteMemory(key: string, fault: Err, commitErr: Err) returns (err: Err)
      modifies this
      ensures err == Nil <==> fault == Nil && key in old(rows) && commitErr == Nil
      ensures rows == if err == Nil then old(rows) - {key} else old(rows)
      ensures fault == Nil && key !in old(rows) ==> err == NOT_FOUND
    {
      if fault != Nil { return Wrap(fault); }
      if key !in rows { return NOT_FOUND; }
      if commitErr != Nil { return Wrap(commitErr); }
      rows := rows - {key};
      return Nil;
    }
  }

  // ------------------------------------------------------ versions over whole runs

  /** The write of entry e, presented as it stands, is accepted on rows m. */
  predicate Accepts(m: Rows, e: Entry) {
    e.key in m ==> e.version <= 0 || m[e.key].version == e.version
  }

  /** One committed write: a single error-free run of the closure on the caller's own entry. */
  predicate Writes(m: Rows, e: Entry, now: Time, after: Rows) {
    var run := UpsertStep(m, e, now, HEALTHY);
    run.err == Nil && after == run.db
  }

  /**
   A successful call none of whose commits failed is one write of the entry exactly as the
   caller presented it, whatever statement failures were retried on the way.
   */
  lemma CallIsOneWrite(now: Time, faults: nat -> Faults, world: World<Rows>, m: Rows, e: Entry) returns (j: nat)
    requires forall i :: !IsRetryable(world(i).commitErr)
    requires RetryFrom(0, UpsertRun(now, faults), world, m, e).err == Nil
    ensures j <= MAX_RETRIES && IsLast(UpsertRun(now, faults), world, m, e, 0, j)
    ensures
      var end := RetryFrom(0, UpsertRun(now, faults), world, m, e);
      && Writes(Drift(world, m, 0, j), e, now, end.db)
      && e.key in end.db && end.vars.version == end.db[e.key].version
  {
    UpsertWritesVarsLast(now, faults);
    j := StatementRetriesAreSafe(UpsertRun(now, faults), world, m, e);
    SuccessMetNoFault(Drift(world, m, 0, j), e, now, faults(j));
  }

  /** The closure touches the caller's entry only after its last statement has worked. */
  lemma UpsertWritesVarsLast(now: Time, faults: nat -> Faults)
    ensures WritesVarsLast(UpsertRun(now, faults))
  {
    var fn := UpsertRun(now, faults);
    forall k, m, e | fn(k, m, e).err != Nil ensures fn(k, m, e).vars == e {
      assert fn(k, m, e) == UpsertStep(m, e, now, faults(k));
    }
  }

  /** When a write is accepted, and the row it leaves, field by field: a new row, or the next version of the old one. */
  lemma WriteIs(m: Rows, e: Entry, now: Time, after: Rows)
    ensures Writes(m, e, now, after) <==>
              if e.key !in m then
                after == m[e.key := Row(e.body, 1, if e.createdAt.Some? then e.createdAt.value else now, now)]
              else
                && (e.version <= 0 || e.version == m[e.key].version)
                && after == m[e.key := Row(e.body, m[e.key].version + 1, m[e.key].createdAt, now)]
  {
  }

  lemma SuccessMetNoFault(m: Rows, e: Entry, now: Time, f: Faults)
    requires UpsertStep(m, e, now, f).err == Nil
    ensures UpsertStep(m, e, now, f) == UpsertStep(m, e, now, HEALTHY)
    ensures Writes(m, e, now, UpsertStep(m, e, now, f).db)
  {
  }

  /** A run of committed writes, with no deletes. */
  predicate WriteRun(ms: seq<Rows>, es: seq<Entry>, nows: seq<Time>) {
    && |ms| == |es| + 1 && |nows| == |es|
    && forall i :: 0 <= i < |es| ==> Writes(ms[i], es[i], nows[i], ms[i + 1])
  }

  function WritesTo(es: seq<Entry>, key: string, i: nat, j: nat): nat
    requires i <= j <= |es|
    decreases j
  {
    if i == j then 0 else WritesTo(es, key, i, j - 1) + (if es[j - 1].key == key then 1 else 0)
  }

  /** Each committed write raises its key's version by exactly one, and no other. */
  lemma {:induction false} VersionsCountWrites(
    ms: seq<Rows>, es: seq<Entry>, nows: seq<Time>, key: string, i: nat, j: nat)
    requires WriteRun(ms, es, nows) && i <= j < |ms| && key in ms[i]
    ensures key in ms[j] && ms[j][key].version == ms[i][key].version + WritesTo(es, key, i, j)
    ensures ms[j][key].createdAt == ms[i][key].createdAt
    decreases j
  {
    if i < j {
      VersionsCountWrites(ms, es, nows, key, i, j - 1);
      assert Writes(ms[j - 1], es[j - 1], nows[j - 1], ms[j]);
    }
  }

  /** A key shows its last write: that body, at that time. */
  lemma {:induction false} LastWriteShows(
    ms: seq<Rows>, es: seq<Entry>, nows: seq<Time>, i: nat, j: nat)
    requires WriteRun(ms, es, nows) && i < j < |ms|
    requires forall k :: i < k < j ==> es[k].key != es[i].key
    ensures es[i].key in ms[j] && ms[j][es[i].key].body == es[i].body && ms[j][es[i].key].updatedAt == nows[i]
    decreases j
  {
    assert Writes(ms[j - 1], es[j - 1], nows[j - 1], ms[j]);
    WriteIs(ms[j - 1], es[j - 1], nows[j - 1], ms[j]);
    if i + 1 < j { LastWriteShows(ms, es, nows, i, j - 1); }
  }

  /** Optimistic concurrency: of the writers presenting one version of an existing key, at most one succeeds. */
  lemma OneWinnerPerVersion(ms: seq<Rows>, es: seq<Entry>, nows: seq<Time>, i: nat, j: nat)
    requires WriteRun(ms, es, nows) && i < j < |es|
    requires es[i].key == es[j].key && es[i].key in ms[i]
    requires es[i].version == es[j].version
    ensures es[i].version <= 0
  {
    var key := es[i].key;
    assert Writes(ms[i], es[i], nows[i], ms[i + 1]) && Writes(ms[j], es[j], nows[j], ms[j + 1]);
    VersionsCountWrites(ms, es, nows, key, i, i + 1);
    VersionsCountWrites(ms, es, nows, key, i + 1, j);
  }

  lemma WriteRaisesItsKey(ms: seq<Rows>, es: seq<Entry>, nows: seq<Time>, i: nat, j: nat)
    requires WriteRun(ms, es, nows) && i < j < |es| && es[i].key in ms[i]
    ensures
      var key := es[i].key;
      && key in ms[i + 1] && ms[i + 1][key].version == ms[i][key].version + 1
      && key in ms[j] && ms[j][key].version > ms[i][key].version
  {
    var key := es[i].key;
    assert WritesTo(es, key, i, i + 1) == WritesTo(es, key, i, i) + 1;
    VersionsCountWrites(ms, es, nows, key, i, i + 1);
    VersionsCountWrites(ms, es, nows, key, i + 1, j);
  }

  function NextVersion(m: Rows, key: string): int {
    if key in m then m[key].version + 1 else 1
  }

  // ------------------------------------------------------------- interleaved calls

  /** One call of UpsertMemory: its clock, the faults and the world it meets, the rows it starts from, its entry. */
  datatype Call = Call(now: Time, faults: nat -> Faults, world: World<Rows>, start: Rows, e: Entry) {
    function Ending(): Ending<Rows, Entry> {
      RetryFrom(0, UpsertRun(now, faults), world, start, e)
    }

    /** Its retries come from statements: no commit of it fails transiently. */
    ghost predicate CommitsCleanly() {
      forall i :: !IsRetryable(world(i).commitErr)
    }

    /** The call succeeds, and its last attempt took the rows from `before` to `after`. */
    ghost predicate Commits(before: Rows, after: Rows) {
      && Ending().err == Nil && Ending().db == after
      && exists j: nat ::
           IsLast(UpsertRun(now, faults), world, start, e, 0, j) && Drift(world, start, 0, j) == before
    }
  }

  /**
   Successful calls in the order of their commits: ms[i] is what the last attempt of call i found
   and ms[i + 1] what it left. When each began, and what it saw in earlier attempts, is open.
   */
  ghost predicate Interleaved(ms: seq<Rows>, calls: seq<Call>) {
    && |ms| == |calls| + 1
    && forall i :: 0 <= i < |calls| ==> calls[i].Commits(ms[i], ms[i + 1]) && calls[i].CommitsCleanly()
  }

  lemma CommittedCallWrites(c: Call, before: Rows, after: Rows)
    requires c.Commits(before, after) && c.CommitsCleanly()
    ensures Writes(before, c.e, c.now, after)
  {
    var fn := UpsertRun(c.now, c.faults);
    var j: nat :| IsLast(fn, c.world, c.start, c.e, 0, j) && Drift(c.world, c.start, 0, j) == before;
    var k := CallIsOneWrite(c.now, c.faults, c.world, c.start, c.e);
    OneLastAttempt(fn, c.world, c.start, c.e, j, k);
  }

  /** The writes that interleaved calls amount to. */
  lemma CallsAreAWriteRun(ms: seq<Rows>, calls: seq<Call>) returns (es: seq<Entry>, nows: seq<Time>)
    requires Interleaved(ms, calls)
    ensures |es| == |nows| == |calls| && forall i :: 0 <= i < |calls| ==> es[i] == calls[i].e
    ensures WriteRun(ms, es, nows)
  {
    es := seq(|calls|, i requires 0 <= i < |calls| => calls[i].e);
    nows := seq(|calls|, i requires 0 <= i < |calls| => calls[i].now);
    forall i | 0 <= i < |es| ensures Writes(ms[i], es[i], nows[i], ms[i + 1]) {
      CommittedCallWrites(calls[i], ms[i], ms[i + 1]);
    }
  }

  /** Each successful call raises the version of the key it finds by one, and of no other. */
  lemma EachCallRaisesItsVersion(ms: seq<Rows>, calls: seq<Call>, i: nat)
    requires Interleaved(ms, calls) && i < |calls|
    ensures ms[i + 1].Keys == ms[i].Keys + {calls[i].e.key}
    ensures ms[i + 1][calls[i].e.key].version == NextVersion(ms[i], calls[i].e.key)
    ensures forall key :: key in ms[i] && key != calls[i].e.key ==> ms[i + 1][key] == ms[i][key]
  {
    CommittedCallWrites(calls[i], ms[i], ms[i + 1]);
  }

  /**
   Optimistic concurrency of whole calls: however successful calls interleave and whatever statement
   failures they retried, of those presenting the same positive version of an existing key there is
   only one.
   */
  lemma OneCallPerVersion(ms: seq<Rows>, calls: seq<Call>, i: nat, j: nat)
    requires Interleaved(ms, calls) && i < j < |calls|
    requires calls[i].e.key == calls[j].e.key && calls[i].e.key in ms[i]
    ensures calls[i].e.version == calls[j].e.version ==> calls[i].e.version <= 0
    ensures
      var key := calls[i].e.key;
      && key in ms[i + 1] && ms[i + 1][key].version == ms[i][key].version + 1
      && key in ms[j] && ms[j][key].version > ms[i][key].version
  {
    var es, nows := CallsAreAWriteRun(ms, calls);
    WriteRaisesItsKey(ms, es, nows, i, j);
    if es[i].version == es[j].version { OneWinnerPerVersion(ms, es, nows, i, j); }
  }

  // ------------------------------------------------- retries after a failed commit

  /** The version attempt j presents: the caller's, or the one the last attempt whose commit failed computed. */
  function Presented(now: Time, faults: nat -> Faults, world: World<Rows>, m: Rows, e: Entry, j: nat): int {
    var c := LastDone(UpsertRun(now, faults), world, m, e, j);
    if c.None? then e.version else NextVersion(Drift(world, m, 0, c.value), e.key)
  }

  /** Retries keep the entry's key and body. */
  lemma {:induction false} KeyAndBodyStay(
    now: Time, faults: nat -> Faults, world: World<Rows>, m: Rows, e: Entry, j: nat)
    ensures
      var at := VarsAt(UpsertRun(now, faults), world, m, e, 0, j);
      at.key == e.key && at.body == e.body
    decreases j
  {
    if j > 0 {
      KeyAndBodyStay(now, faults, world, m, e, j - 1);
      var before := VarsAt(UpsertRun(now, faults), world, m, e, 0, j - 1);
      assert VarsAt(UpsertRun(now, faults), world, m, e, 0, j) ==
             UpsertStep(Drift(world, m, 0, j - 1), before, now, faults(j - 1)).vars;
    }
  }

  /** The entry as attempt j finds it, whatever failed before. */
  lemma EntryAtAttempt(now: Time, faults: nat -> Faults, world: World<Rows>, m: Rows, e: Entry, j: nat)
    ensures
      var fn := UpsertRun(now, faults);
      var at, c := VarsAt(fn, world, m, e, 0, j), LastDone(fn, world, m, e, j);
      && at.key == e.key && at.body == e.body && at.version == Presented(now, faults, world, m, e, j)
      && (c.None? ==> at == e)
      && (c.Some? && e.key in Drift(world, m, 0, c.value) ==>
           at.createdAt == Some(Drift(world, m, 0, c.value)[e.key].createdAt))
  {
    var fn := UpsertRun(now, faults);
    UpsertWritesVarsLast(now, faults);
    VarsAreLastWritten(fn, world, m, e, j);
    KeyAndBodyStay(now, faults, world, m, e, j);
    var c := LastDone(fn, world, m, e, j);
    if c.Some? {
      KeyAndBodyStay(now, faults, world, m, e, c.value);
      var before := Drift(world, m, 0, c.value);
      assert RunAt(fn, world, m, e, 0, c.value) ==
             UpsertStep(before, VarsAt(fn, world, m, e, 0, c.value), now, faults(c.value));
    }
  }

  /**
   What decides a retried upsert, in any world: an attempt whose statements work is accepted if and
   only if the key is missing from the rows it finds, or has there the version presented; and that is
   the version computed by the last attempt whose commit failed, if there is one.
   */
  lemma AttemptDecidesBy(now: Time, faults: nat -> Faults, world: World<Rows>, m: Rows, e: Entry, j: nat)
    requires faults(j) == HEALTHY
    ensures
      var run, before := RunAt(UpsertRun(now, faults), world, m, e, 0, j), Drift(world, m, 0, j);
      var version := Presented(now, faults, world, m, e, j);
      && (run.err == Nil <==> e.key !in before || version <= 0 || before[e.key].version == version)
      && (run.err != Nil ==> run.err == CONFLICT && run.db == before)
      && (run.err == Nil ==>
           && run.db.Keys == before.Keys + {e.key}
           && (forall key :: key in before && key != e.key ==> run.db[key] == before[key])
           && run.db[e.key].body == e.body && run.db[e.key].version == NextVersion(before, e.key))
  {
    EntryAtAttempt(now, faults, world, m, e, j);
  }

  /** The call as a whole: if its last attempt begins and commits without fault, that attempt's verdict is its own. */
  lemma RetryAfterFailedCommits(now: Time, faults: nat -> Faults, world: World<Rows>, m: Rows, e: Entry)
    returns (j: nat)
    ensures j <= MAX_RETRIES && IsLast(UpsertRun(now, faults), world, m, e, 0, j)
    ensures
      world(j).beginErr == Nil && world(j).commitErr == Nil && faults(j) == HEALTHY ==>
        var end, before := RetryFrom(0, UpsertRun(now, faults), world, m, e), Drift(world, m, 0, j);
        var version := Presented(now, faults, world, m, e, j);
        && (end.err == Nil <==> e.key !in before || version <= 0 || before[e.key].version == version)
        && (end.err != Nil ==> end.db == before)
        && (end.err == Nil ==>
             && e.key in end.db && end.db[e.key].body == e.body
             && end.db[e.key].version == end.vars.version == NextVersion(before, e.key))
  {
    j := AllOrNothing(0, UpsertRun(now, faults), world, m, e);
    if faults(j) == HEALTHY {
      AttemptDecidesBy(now, faults, world, m, e, j);
      EntryAtAttempt(now, faults, world, m, e, j);
    }
  }

  /** Every stored version is at least one, as the column's default and the two writes make it. */
  predicate Versioned(m: Rows) {
    forall key :: key in m ==> m[key].version >= 1
  }

  lemma WritesStayVersioned(m: Rows, e: Entry, now: Time, after: Rows)
    requires Versioned(m) && Writes(m, e, now, after)
    ensures Versioned(after)
  {
  }

  /** On every run of writes from rows with positive versions, versions stay positive. */
  lemma {:induction false} VersionsStayPositive(ms: seq<Rows>, es: seq<Entry>, nows: seq<Time>, i: nat)
    requires WriteRun(ms, es, nows) && Versioned(ms[0]) && i < |ms|
    ensures Versioned(ms[i])
  {
    if i > 0 {
      VersionsStayPositive(ms, es, nows, i - 1);
      assert Writes(ms[i - 1], es[i - 1], nows[i - 1], ms[i]);
      WritesStayVersioned(ms[i - 1], es[i - 1], nows[i - 1], ms[i]);
    }
  }

  /**
   Whether a retry decides as a fresh run, by what the attempt with the failed commit found (`failed`)
   and what the retry finds (`found`): always if the key is gone; otherwise the version v presented by
   the caller, the version p computed from `failed` and the version x in `found` decide. A version
   that is not positive is accepted everywhere; p is positive wherever stored versions are.
   */
  predicate RetryIsFair(failed: Rows, found: Rows, key: string, v: int) {
    key in found ==>
      var p, x := NextVersion(failed, key), found[key].version;
      if v <= 0 then p <= 0 || x == p
      else if p <= 0 then x == v
      else v == p || (x != p && x != v)
  }

  /** A retry after a failed commit decides as a fresh run of the caller's entry would if and only if it is fair. */
  lemma RetryAgreesWithAFreshRunIff(now: Time, faults: nat -> Faults, world: World<Rows>, m: Rows, e: Entry, j: nat)
    requires faults(j) == HEALTHY
    requires LastDone(UpsertRun(now, faults), world, m, e, j).Some?
    ensures
      var fn := UpsertRun(now, faults);
      var found, failed := Drift(world, m, 0, j), Drift(world, m, 0, LastDone(fn, world, m, e, j).value);
      (RunAt(fn, world, m, e, 0, j).err == Nil <==> UpsertStep(found, e, now, HEALTHY).err == Nil)
      <==> RetryIsFair(failed, found, e.key, e.version)
  {
    EntryAtAttempt(now, faults, world, m, e, j);
  }

  // ------------------------------------------------------- what a retry writes

  /** The creation time of a fresh insert. */
  function FirstCreated(e: Entry, now: Time): Time {
    if e.createdAt.Some? then e.createdAt.value else now
  }

  /** The last attempt before j that returned nil and found the key. */
  function LastSeen(now: Time, faults: nat -> Faults, world: World<Rows>, m: Rows, e: Entry, j: nat): (c: Option<nat>)
    ensures c.Some? ==> c.value < j && e.key in Drift(world, m, 0, c.value)
  {
    if j == 0 then None
    else if RunAt(UpsertRun(now, faults), world, m, e, 0, j - 1).err == Nil && e.key in Drift(world, m, 0, j - 1)
    then Some(j - 1)
    else LastSeen(now, faults, world, m, e, j - 1)
  }

  /** The creation time that attempt j writes if it inserts. */
  function InsertedCreation(now: Time, faults: nat -> Faults, world: World<Rows>, m: Rows, e: Entry, j: nat): Time {
    var c := LastSeen(now, faults, world, m, e, j);
    if c.Some? then Drift(world, m, 0, c.value)[e.key].createdAt else FirstCreated(e, now)
  }

  /** The creation time attempt j finds in the entry: of the last row seen, or what the caller left open or gave. */
  lemma {:induction false} CreationAtAttempt(
    now: Time, faults: nat -> Faults, world: World<Rows>, m: Rows, e: Entry, j: nat)
    ensures
      var created := VarsAt(UpsertRun(now, faults), world, m, e, 0, j).createdAt;
      || created == Some(InsertedCreation(now, faults, world, m, e, j))
      || (LastSeen(now, faults, world, m, e, j).None? && created == e.createdAt)
    decreases j
  {
    if j > 0 {
      CreationAtAttempt(now, faults, world, m, e, j - 1);
      KeyAndBodyStay(now, faults, world, m, e, j - 1);
      var before := VarsAt(UpsertRun(now, faults), world, m, e, 0, j - 1);
      assert RunAt(UpsertRun(now, faults), world, m, e, 0, j - 1) ==
             UpsertStep(Drift(world, m, 0, j - 1), before, now, faults(j - 1));
    }
  }

  /** An attempt that finds no row inserts the caller's body, with the creation time of the last row seen. */
  lemma MissingKeyIsInserted(now: Time, faults: nat -> Faults, world: World<Rows>, m: Rows, e: Entry, j: nat)
    requires faults(j) == HEALTHY && e.key !in Drift(world, m, 0, j)
    ensures
      var run := RunAt(UpsertRun(now, faults), world, m, e, 0, j);
      var created := InsertedCreation(now, faults, world, m, e, j);
      && run.err == Nil
      && run.db == Drift(world, m, 0, j)[e.key := Row(e.body, 1, created, now)]
      && run.vars == Entry(e.key, e.body, 1, Some(created), Some(now))
  {
    CreationAtAttempt(now, faults, world, m, e, j);
    KeyAndBodyStay(now, faults, world, m, e, j);
  }

  /**
   Attempt j may stand in for a fresh run of the caller's entry. On a row that is there, no earlier
   commit failed or the retry is fair; on a missing key, the creation time it inserts is the fresh one.
   */
  predicate StandsIn(now: Time, faults: nat -> Faults, world: World<Rows>, m: Rows, e: Entry, j: nat) {
    var found, c := Drift(world, m, 0, j), LastDone(UpsertRun(now, faults), world, m, e, j);
    if e.key in found then c.None? || RetryIsFair(Drift(world, m, 0, c.value), found, e.key, e.version)
    else InsertedCreation(now, faults, world, m, e, j) == FirstCreated(e, now)
  }

  /** On a row that is there, two entries with one body write the same if and only if they are decided alike. */
  lemma SameWriteIfDecidedAlike(found: Rows, at: Entry, e: Entry, now: Time)
    requires e.key in found && at.key == e.key && at.body == e.body
    ensures
      var run, alone := UpsertStep(found, at, now, HEALTHY), UpsertStep(found, e, now, HEALTHY);
      && (run.db == alone.db <==> (run.err == Nil <==> alone.err == Nil))
      && (run.db == alone.db ==> run.err == alone.err)
  {
    var run, alone := UpsertStep(found, at, now, HEALTHY), UpsertStep(found, e, now, HEALTHY);
    if run.err == Nil { assert run.db[e.key].version != found[e.key].version; }
    if alone.err == Nil { assert alone.db[e.key].version != found[e.key].version; }
  }

  /**
   The effect of a retried upsert, in any world: an attempt whose statements work leaves what a fresh
   run of the caller's entry would leave, and returns the same, if and only if it may stand in for one.
   */
  lemma AttemptWritesAsAFreshRunIff(now: Time, faults: nat -> Faults, world: World<Rows>, m: Rows, e: Entry, j: nat)
    requires faults(j) == HEALTHY
    ensures
      var run := RunAt(UpsertRun(now, faults), world, m, e, 0, j);
      var alone := UpsertStep(Drift(world, m, 0, j), e, now, HEALTHY);
      && (run.db == alone.db <==> StandsIn(now, faults, world, m, e, j))
      && (run.db == alone.db ==> run.err == alone.err)
  {
    var fn, found := UpsertRun(now, faults), Drift(world, m, 0, j);
    if e.key in found {
      EntryAtAttempt(now, faults, world, m, e, j);
      SameWriteIfDecidedAlike(found, VarsAt(fn, world, m, e, 0, j), e, now);
      if LastDone(fn, world, m, e, j).Some? { RetryAgreesWithAFreshRunIff(now, faults, world, m, e, j); }
    } else {
      MissingKeyIsInserted(now, faults, world, m, e, j);
      var inserted := Row(e.body, 1, InsertedCreation(now, faults, world, m, e, j), now);
      assert found[e.key := inserted][e.key] == inserted;
      var alone := UpsertStep(found, e, now, HEALTHY).db;
      assert alone[e.key].createdAt == FirstCreated(e, now);
    }
  }

  /** The same for the whole call, if its last attempt begins, works and commits. */
  lemma CallWritesAsAFreshRunIff(now: Time, faults: nat -> Faults, world: World<Rows>, m: Rows, e: Entry)
    returns (j: nat)
    ensures j <= MAX_RETRIES && IsLast(UpsertRun(now, faults), world, m, e, 0, j)
    ensures
      world(j).beginErr == Nil && world(j).commitErr == Nil && faults(j) == HEALTHY ==>
        var end := RetryFrom(0, UpsertRun(now, faults), world, m, e);
        var alone := UpsertStep(Drift(world, m, 0, j), e, now, HEALTHY);
        && (end.db == alone.db <==> StandsIn(now, faults, world, m, e, j))
        && (end.db == alone.db ==> (end.err == Nil <==> alone.err == Nil))
  {
    j := AllOrNothing(0, UpsertRun(now, faults), world, m, e);
    if faults(j) == HEALTHY {
      AttemptWritesAsAFreshRunIff(now, faults, world, m, e, j);
      AttemptDecidesBy(now, faults, world, m, e, j);
    }
  }

  lemma {:induction false} NeverSeen(now: Time, faults: nat -> Faults, world: World<Rows>, m: Rows, e: Entry, j: nat)
    requires forall i :: 0 <= i < j ==> e.key !in Drift(world, m, 0, i)
    ensures LastSeen(now, faults, world, m, e, j).None?
    decreases j
  {
    if j > 0 { NeverSeen(now, faults, world, m, e, j - 1); }
  }

  /** On a key that exists at no attempt, retries are harmless: each inserts what a fresh run inserts. */
  lemma InsertRetriesAreHarmless(now: Time, faults: nat -> Faults, world: World<Rows>, m: Rows, e: Entry, j: nat)
    requires forall i :: 0 <= i <= j ==> e.key !in Drift(world, m, 0, i)
    ensures
      var created := VarsAt(UpsertRun(now, faults), world, m, e, 0, j).createdAt;
      created == e.createdAt || (e.createdAt.None? && created == Some(now))
    ensures faults(j) == HEALTHY ==>
              var alone := UpsertStep(Drift(world, m, 0, j), e, now, HEALTHY);
              var run := RunAt(UpsertRun(now, faults), world, m, e, 0, j);
              run.err == Nil && run.db == alone.db && run.vars == alone.vars
  {
    NeverSeen(now, faults, world, m, e, j);
    CreationAtAttempt(now, faults, world, m, e, j);
    if faults(j) == HEALTHY { MissingKeyIsInserted(now, faults, world, m, e, j); }
  }

  // ------------------------------------------------------------------------ traces

  /** The first n commits fail transiently, the next works, and no statement fails. */
  ghost predicate FirstCommitsFail(world: World<Rows>, n: nat) {
    && n <= MAX_RETRIES
    && (forall k :: 0 <= k <= n ==> world(k).beginErr == Nil)
    && (forall k :: 0 <= k < n ==> IsRetryable(world(k).commitErr) && !world(k).cancelled)
    && world(n).commitErr == Nil
  }

  function NoFaults(): nat -> Faults {
    (k: nat) => HEALTHY
  }

  /** An accepted attempt among those whose commit fails is followed by another, which finds its version. */
  lemma AcceptedThenFailed(now: Time, world: World<Rows>, m: Rows, e: Entry, n: nat, k: nat)
    requires FirstCommitsFail(world, n) && k < n
    requires RunAt(UpsertRun(now, NoFaults()), world, m, e, 0, k).err == Nil
    ensures Retried(UpsertRun(now, NoFaults()), world, m, e, 0, k)
    ensures LastDone(UpsertRun(now, NoFaults()), world, m, e, k + 1) == Some(k)
  {
    var fn := UpsertRun(now, NoFaults());
    assert fn(k, Drift(world, m, 0, k), VarsAt(fn, world, m, e, 0, k)) ==
           UpsertStep(Drift(world, m, 0, k), VarsAt(fn, world, m, e, 0, k), now, HEALTHY);
  }

  /** With one failed commit, the call is decided by the second attempt. */
  lemma SecondAttemptDecides(now: Time, world: World<Rows>, m: Rows, e: Entry)
    requires FirstCommitsFail(world, 1) && Accepts(Drift(world, m, 0, 0), e)
    ensures
      var end := RetryFrom(0, UpsertRun(now, NoFaults()), world, m, e);
      var first, found := Drift(world, m, 0, 0), Drift(world, m, 0, 1);
      && (end.err == Nil <==>
           e.key !in found || NextVersion(first, e.key) <= 0 || found[e.key].version == NextVersion(first, e.key))
      && (end.err != Nil ==> end.err == CONFLICT && end.db == found)
      && end.db == RunAt(UpsertRun(now, NoFaults()), world, m, e, 0, 1).db
      && LastDone(UpsertRun(now, NoFaults()), world, m, e, 1) == Some(0)
  {
    var fn := UpsertRun(now, NoFaults());
    assert LastDone(fn, world, m, e, 0) == None;
    AttemptDecidesBy(now, NoFaults(), world, m, e, 0);
    AcceptedThenFailed(now, world, m, e, 1, 0);
    AttemptDecidesBy(now, NoFaults(), world, m, e, 1);
    assert !IsRetryable(CONFLICT);
    var j := AllOrNothing(0, fn, world, m, e);
    OneLastAttempt(fn, world, m, e, j, 1);
  }

  /**
   One failed commit on an existing key, by the number n of writes others committed in between: the
   call is accepted if and only if n is one, and decides as a fresh run would exactly when an
   unconditional write met one other write, or a conditional one met two or more.
   */
  lemma RetryAfterFailedCommit(now: Time, world: World<Rows>, m: Rows, e: Entry, n: nat)
    requires FirstCommitsFail(world, 1) && Accepts(Drift(world, m, 0, 0), e)
    requires
      var first, found := Drift(world, m, 0, 0), Drift(world, m, 0, 1);
      && e.key in first && first[e.key].version >= 1
      && e.key in found && found[e.key].version == first[e.key].version + n
    ensures
      var end, found := RetryFrom(0, UpsertRun(now, NoFaults()), world, m, e), Drift(world, m, 0, 1);
      && (end.err == Nil <==> n == 1)
      && (end.err != Nil ==> end.err == CONFLICT && end.db == found)
      && ((end.err == Nil <==> Accepts(found, e)) <==> (if e.version <= 0 then n == 1 else n >= 2))
  {
    SecondAttemptDecides(now, world, m, e);
  }

  /**
   A failed insert, and then another client's row under the key: the call is accepted if and only if
   that row is at version one, whatever version the caller presented.
   */
  lemma FailedInsertMeetsAnotherRow(now: Time, world: World<Rows>, m: Rows, e: Entry)
    requires FirstCommitsFail(world, 1)
    requires e.key !in Drift(world, m, 0, 0) && e.key in Drift(world, m, 0, 1)
    ensures
      var end, found := RetryFrom(0, UpsertRun(now, NoFaults()), world, m, e), Drift(world, m, 0, 1);
      && (end.err == Nil <==> found[e.key].version == 1)
      && (end.err != Nil ==> end.err == CONFLICT && end.db == found)
  {
    SecondAttemptDecides(now, world, m, e);
  }

  /** In attempt i the row stands where i writes of others after the presented version have put it. */
  predicate OneWriteBetween(world: World<Rows>, m: Rows, e: Entry, n: nat) {
    forall i :: 0 <= i <= n ==>
      e.key in Drift(world, m, 0, i) && Drift(world, m, 0, i)[e.key].version == e.version + i
  }

  lemma {:induction false} EachAttemptIsAccepted(now: Time, world: World<Rows>, m: Rows, e: Entry, n: nat, k: nat)
    requires FirstCommitsFail(world, n) && k <= n && OneWriteBetween(world, m, e, n)
    ensures RunAt(UpsertRun(now, NoFaults()), world, m, e, 0, k).err == Nil
    ensures RunAt(UpsertRun(now, NoFaults()), world, m, e, 0, k).vars.version == e.version + k + 1
    decreases k
  {
    assert Drift(world, m, 0, k)[e.key].version == e.version + k;
    if k > 0 {
      EachAttemptIsAccepted(now, world, m, e, n, k - 1);
      AcceptedThenFailed(now, world, m, e, n, k - 1);
      assert Drift(world, m, 0, k - 1)[e.key].version == e.version + (k - 1);
    }
    AttemptDecidesBy(now, NoFaults(), world, m, e, k);
    EntryAtAttempt(now, NoFaults(), world, m, e, k);
  }

  /**
   The trace that loses updates: up to five commits fail, another client writes once after each, and
   the writer that presented version v is accepted over all of those writes, at version v + n + 1.
   */
  lemma FailedCommitsLoseUpdates(now: Time, world: World<Rows>, m: Rows, e: Entry, n: nat)
    requires FirstCommitsFail(world, n) && OneWriteBetween(world, m, e, n)
    ensures
      var end := RetryFrom(0, UpsertRun(now, NoFaults()), world, m, e);
      && end.err == Nil && e.key in end.db
      && end.db[e.key].body == e.body && end.db[e.key].version == e.version + n + 1
  {
    var fn := UpsertRun(now, NoFaults());
    forall i | 0 <= i < n ensures Retried(fn, world, m, e, 0, i) {
      EachAttemptIsAccepted(now, world, m, e, n, i);
      AcceptedThenFailed(now, world, m, e, n, i);
    }
    EachAttemptIsAccepted(now, world, m, e, n, n);
    AttemptDecidesBy(now, NoFaults(), world, m, e, n);
    var j := AllOrNothing(0, fn, world, m, e);
    assert !Retried(fn, world, m, e, 0, n);
    OneLastAttempt(fn, world, m, e, j, n);
    assert OneWriteBetween(world, m, e, n) ==> Drift(world, m, 0, n)[e.key].version == e.version + n;
  }

  /** A world in which the first commit fails transiently and `others` then runs; everything else works. */
  function FirstCommitFails(others: Rows -> Rows): World<Rows> {
    (k: nat) => Attempt(
      if k == 1 then others else (m: Rows) => m,
      Nil,
      if k == 0 then SqlState(CRDB_RETRY_CODE, Nil) else Nil,
      false,
      1.0)
  }

  /** The trace: two writers present the same version v and both succeed; the second never saw the first's update. */
  lemma FailedCommitLosesAnUpdate(now: Time, m: Rows, a: Entry, b: Entry, others: Rows -> Rows)
    requires a.key == b.key && a.key in m && a.version == b.version == m[a.key].version && a.version >= 1
    requires others(m) == UpsertStep(m, b, now, HEALTHY).db
    ensures
      var end := RetryFrom(0, UpsertRun(now, NoFaults()), FirstCommitFails(others), m, a);
      && Writes(m, b, now, others(m))
      && end.err == Nil && a.key in end.db
      && end.db[a.key].body == a.body && end.db[a.key].version == a.version + 2
  {
    var world := FirstCommitFails(others);
    assert Drift(world, m, 0, 0) == m && Drift(world, m, 0, 1) == others(m);
    assert OneWriteBetween(world, m, a, 1);
    FailedCommitsLoseUpdates(now, world, m, a, 1);
  }

  /** The row stands at the first attempt, and is missing at each of the n attempts after it. */
  predicate DeletedMeanwhile(world: World<Rows>, m: Rows, key: string, n: nat) {
    key in Drift(world, m, 0, 0) && forall i :: 1 <= i <= n ==> key !in Drift(world, m, 0, i)
  }

  lemma {:induction false} InsertsAreAccepted(now: Time, world: World<Rows>, m: Rows, e: Entry, n: nat, k: nat)
    requires FirstCommitsFail(world, n) && k <= n
    requires Accepts(Drift(world, m, 0, 0), e) && DeletedMeanwhile(world, m, e.key, n)
    ensures RunAt(UpsertRun(now, NoFaults()), world, m, e, 0, k).err == Nil
    ensures LastSeen(now, NoFaults(), world, m, e, k) == if k == 0 then None else Some(0)
    decreases k
  {
    if k == 0 {
      assert LastDone(UpsertRun(now, NoFaults()), world, m, e, 0) == None;
      AttemptDecidesBy(now, NoFaults(), world, m, e, 0);
    } else {
      InsertsAreAccepted(now, world, m, e, n, k - 1);
      MissingKeyIsInserted(now, NoFaults(), world, m, e, k);
    }
  }

  /**
   If the row is deleted after the first failed commit, the call re-creates it with the deleted row's
   creation time, through however many further failed commits.
   */
  lemma FailedCommitRevivesCreationTime(now: Time, world: World<Rows>, m: Rows, e: Entry, n: nat)
    requires n >= 1 && FirstCommitsFail(world, n)
    requires Accepts(Drift(world, m, 0, 0), e) && DeletedMeanwhile(world, m, e.key, n)
    ensures
      var end := RetryFrom(0, UpsertRun(now, NoFaults()), world, m, e);
      && end.err == Nil
      && end.db == Drift(world, m, 0, n)[e.key := Row(e.body, 1, Drift(world, m, 0, 0)[e.key].createdAt, now)]
  {
    var fn := UpsertRun(now, NoFaults());
    forall i | 0 <= i < n ensures Retried(fn, world, m, e, 0, i) {
      InsertsAreAccepted(now, world, m, e, n, i);
      AcceptedThenFailed(now, world, m, e, n, i);
    }
    InsertsAreAccepted(now, world, m, e, n, n);
    MissingKeyIsInserted(now, NoFaults(), world, m, e, n);
    var j := AllOrNothing(0, fn, world, m, e);
    assert !Retried(fn, world, m, e, 0, n);
    OneLastAttempt(fn, world, m, e, j, n);
  }

  /** On a key that does not exist either time, the retry is harmless: it inserts what a fresh run inserts. */
  lemma FailedCommitOfAnInsertIsHarmless(now: Time, world: World<Rows>, m: Rows, e: Entry)
    requires FirstCommitsFail(world, 1)
    requires e.key !in Drift(world, m, 0, 0) && e.key !in Drift(world, m, 0, 1)
    ensures
      var end := RetryFrom(0, UpsertRun(now, NoFaults()), world, m, e);
      var alone := UpsertStep(Drift(world, m, 0, 1), e, now, HEALTHY);
      end.err == Nil && end.db == alone.db
  {
    SecondAttemptDecides(now, world, m, e);
    InsertRetriesAreHarmless(now, NoFaults(), world, m, e, 1);
  }
}
