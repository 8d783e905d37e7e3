/**
 The position returned when an agent is queued counts grants: a waiter told position p is
 granted by the p-th promotion on its resource, and sweeps only bring that forward.
 */
module QueuePosition {
  import opened Clock
  import opened ClaimTables
  import opened ClaimRuns

  /** The waiters on w's resource that do not come after w. */
  ghost function Ahead(db: Tables, w: Id): set<Id>
    requires w in db.queue
  {
    set id | id in db.queue && db.queue[id].resource == db.queue[w].resource && id != w
             && !Earlier(db.queue[w], db.queue[id])
  }

  /** The step promotes a waiter of r. */
  ghost predicate GrantsOn(db: Tables, step: Step, r: string) {
    exists id :: id in db.queue && db.queue[id].resource == r && GrantedBy(db, step, id)
  }

  ghost predicate SweepsOn(db: Tables, step: Step, r: string) {
    exists id :: id in db.queue && db.queue[id].resource == r && SweptBy(db, step, id)
  }

  /** A later arrival on w's resource sorts after w, and nobody re-uses w's id. */
  ghost predicate ArrivesAfter(db: Tables, step: Step, w: Id)
    requires w in db.queue
  {
    step.Enqueue? ==>
      && step.id != w
      && (step.waiter.resource == db.queue[w].resource ==> Earlier(db.queue[w], step.waiter))
  }

  lemma AloneInGrant(db: Tables, h: HandOver, v: Id, w: Id)
    requires Hands(db, h) && v in db.queue && w in db.queue && db.queue[v].resource == db.queue[w].resource
    requires v in h.promo.Values
    ensures w in h.promo.Values ==> w == v
    ensures w !in h.swept ==> !Earlier(db.queue[w], db.queue[v])
  {
    var c :| c in h.promo && h.promo[c] == v;
    PromotedOnFreed(db, h, c);
    if w in h.promo.Values {
      var d :| d in h.promo && h.promo[d] == w;
    }
  }

  /** A grant on w's resource that is not w's takes exactly one waiter from ahead of w. */
  lemma GrantShortensTheLine(db: Tables, h: HandOver, w: Id, v: Id)
    requires Hands(db, h) && w in db.queue && w in HandedOver(db, h).queue
    requires v in db.queue && db.queue[v].resource == db.queue[w].resource && v in h.promo.Values
    ensures v in Ahead(db, w) && Ahead(HandedOver(db, h), w) == Ahead(db, w) - h.swept - {v}
    ensures v !in h.swept
  {
    HandOverQueue(db, h, w);
    HandOverQueue(db, h, v);
    AloneInGrant(db, h, v, w);
    forall id ensures id in Ahead(HandedOver(db, h), w) <==> id in Ahead(db, w) && id !in h.swept && id != v {
      HandOverQueue(db, h, id);
      if id in Ahead(db, w) { AloneInGrant(db, h, v, id); }
    }
  }

  lemma NoGrantKeepsTheLine(db: Tables, h: HandOver, w: Id)
    requires Hands(db, h) && w in db.queue && w in HandedOver(db, h).queue
    requires forall v :: v in db.queue && db.queue[v].resource == db.queue[w].resource ==> v !in h.promo.Values
    ensures Ahead(HandedOver(db, h), w) == Ahead(db, w) - h.swept
  {
    HandOverQueue(db, h, w);
    forall id ensures id in Ahead(HandedOver(db, h), w) <==> id in Ahead(db, w) && id !in h.swept {
      HandOverQueue(db, h, id);
    }
  }

  lemma SubsetSize<T>(a: set<T>, b: set<T>)
    requires a <= b
    ensures |a| <= |b|
  {
    assert b == a + (b - a);
  }

  lemma ShorterLine(line: set<Id>, swept: set<Id>, v: Id)
    requires v in line && v !in swept
    ensures |line - swept - {v}| + 1 <= |line|
    ensures line !! swept ==> |line - swept - {v}| + 1 == |line|
  {
    var left := line - swept;
    SubsetSize(left, line);
    assert left == (left - {v}) + {v};
    assert line !! swept ==> left == line;
  }

  /** A line of n waiters becomes one of m: one shorter by a grant, and shorter still only by a sweep. */
  predicate CountMove(n: nat, m: nat, granted: bool, swept: bool) {
    var moved := if granted then 1 else 0;
    m + moved <= n && (!swept ==> m + moved == n)
  }

  ghost predicate CountStep(n: nat, db: Tables, step: Step, m: nat, r: string) {
    CountMove(n, m, GrantsOn(db, step, r), SweepsOn(db, step, r))
  }

  /** What one step may do to the line in front of a waiter w that stays. */
  ghost predicate LineStep(db: Tables, step: Step, after: Tables, w: Id)
    requires w in db.queue && w in after.queue
  {
    && after.queue[w] == db.queue[w]
    && Ahead(after, w) <= Ahead(db, w)
    && CountStep(|Ahead(db, w)|, db, step, |Ahead(after, w)|, db.queue[w].resource)
  }

  lemma LineIsUnswept(db: Tables, step: Step, w: Id)
    requires step.Release? || step.Expire?
    requires w in db.queue && !SweepsOn(db, step, db.queue[w].resource)
    ensures Ahead(db, w) !! AsHandOver(db, step).swept
  {
    forall id | id in Ahead(db, w) ensures id !in AsHandOver(db, step).swept {
      assert !SweptBy(db, step, id);
    }
  }

  /** The line in front of w after a grant to v, and w's own row. */
  lemma LineAfterGrant(db: Tables, step: Step, after: Tables, w: Id, v: Id)
    requires Next(db, step, after) && w in db.queue && w in after.queue
    requires v in db.queue && db.queue[v].resource == db.queue[w].resource && GrantedBy(db, step, v)
    ensures after.queue[w] == db.queue[w]
    ensures
      var swept := AsHandOver(db, step).swept;
      v in Ahead(db, w) && v !in swept && Ahead(after, w) == Ahead(db, w) - swept - {v}
  {
    var h := AsHandOver(db, step);
    HandOverQueue(db, h, w);
    GrantShortensTheLine(db, h, w, v);
  }

  lemma CountAfterGrant(line: set<Id>, swept: set<Id>, v: Id, sweeps: bool)
    requires v in line && v !in swept && (!sweeps ==> line !! swept)
    ensures line - swept - {v} <= line && CountMove(|line|, |line - swept - {v}|, true, sweeps)
  {
    ShorterLine(line, swept, v);
  }

  lemma GrantMovesTheLine(db: Tables, step: Step, after: Tables, w: Id, v: Id)
    requires Next(db, step, after) && w in db.queue && w in after.queue
    requires v in db.queue && db.queue[v].resource == db.queue[w].resource && GrantedBy(db, step, v)
    ensures LineStep(db, step, after, w)
  {
    var sweeps := SweepsOn(db, step, db.queue[w].resource);
    LineAfterGrant(db, step, after, w, v);
    if !sweeps { LineIsUnswept(db, step, w); }
    CountAfterGrant(Ahead(db, w), AsHandOver(db, step).swept, v, sweeps);
    assert GrantsOn(db, step, db.queue[w].resource);
  }

  lemma UnshortenedLine(line: set<Id>, swept: set<Id>)
    ensures line - swept <= line && |line - swept| <= |line|
    ensures line !! swept ==> line - swept == line
  {
    SubsetSize(line - swept, line);
  }

  lemma NoGrantMovesTheLine(db: Tables, step: Step, after: Tables, w: Id)
    requires step.Release? || step.Expire?
    requires Next(db, step, after) && w in db.queue && w in after.queue
    requires !GrantsOn(db, step, db.queue[w].resource)
    ensures LineStep(db, step, after, w)
  {
    var h := AsHandOver(db, step);
    forall v | v in db.queue && db.queue[v].resource == db.queue[w].resource ensures v !in h.promo.Values {
      assert !GrantedBy(db, step, v);
    }
    HandOverQueue(db, h, w);
    NoGrantKeepsTheLine(db, h, w);
    UnshortenedLine(Ahead(db, w), h.swept);
    if !SweepsOn(db, step, db.queue[w].resource) { LineIsUnswept(db, step, w); }
  }

  /** Each promotion on its resource takes one waiter from ahead of w; sweeps only shorten the line. */
  lemma LineMoves(db: Tables, step: Step, after: Tables, w: Id)
    requires Next(db, step, after) && w in db.queue && w in after.queue && ArrivesAfter(db, step, w)
    ensures LineStep(db, step, after, w)
  {
    if v :| v in db.queue && db.queue[v].resource == db.queue[w].resource && GrantedBy(db, step, v) {
      GrantMovesTheLine(db, step, after, w, v);
    } else if step.Release? || step.Expire? {
      NoGrantMovesTheLine(db, step, after, w);
    } else {
      assert Ahead(after, w) == Ahead(db, w);
    }
  }

  // ------------------------------------------------------------------------- runs

  /** How many of the steps start..end promote a waiter of r. */
  ghost function PromotionsOn(dbs: seq<Tables>, steps: seq<Step>, r: string, start: nat, end: nat): nat
    requires |dbs| == |steps| + 1 && start <= end <= |steps|
    decreases end
  {
    if start == end then 0
    else PromotionsOn(dbs, steps, r, start, end - 1) + (if GrantsOn(dbs[end - 1], steps[end - 1], r) then 1 else 0)
  }

  /** w queues at `start` and stays up to `end`; whoever arrives meanwhile sorts after it. */
  ghost predicate WaitsThrough(dbs: seq<Tables>, steps: seq<Step>, w: Id, start: nat, end: nat) {
    && Behaviour(dbs, steps) && start <= end < |dbs|
    && (forall k :: start <= k <= end ==> w in dbs[k].queue)
    && (forall k :: start <= k < end ==> ArrivesAfter(dbs[k], steps[k], w))
  }

  /** The line in front of w, added up over steps that each move it lawfully. */
  lemma {:induction false} LineAddsUp(
    sizes: seq<nat>, dbs: seq<Tables>, steps: seq<Step>, r: string, start: nat, end: nat)
    requires |sizes| == |dbs| == |steps| + 1 && start <= end <= |steps|
    requires forall k :: start <= k < end ==> CountStep(sizes[k], dbs[k], steps[k], sizes[k + 1], r)
    ensures sizes[end] + PromotionsOn(dbs, steps, r, start, end) <= sizes[start]
    ensures (forall k :: start <= k < end ==> !SweepsOn(dbs[k], steps[k], r)) ==>
              sizes[end] + PromotionsOn(dbs, steps, r, start, end) == sizes[start]
    decreases end
  {
    if start < end {
      LineAddsUp(sizes, dbs, steps, r, start, end - 1);
      assert CountStep(sizes[end - 1], dbs[end - 1], steps[end - 1], sizes[end], r);
    }
  }

  lemma {:induction false} LineShrinks(dbs: seq<Tables>, steps: seq<Step>, w: Id, v: Id, start: nat, end: nat)
    requires |dbs| == |steps| + 1 && start <= end <= |steps|
    requires forall k :: start <= k <= end ==> w in dbs[k].queue
    requires forall k :: start <= k < end ==> LineStep(dbs[k], steps[k], dbs[k + 1], w)
    requires v in Ahead(dbs[end], w)
    ensures forall k :: start <= k <= end ==> v in Ahead(dbs[k], w)
    decreases end
  {
    if start < end {
      assert LineStep(dbs[end - 1], steps[end - 1], dbs[end], w);
      LineShrinks(dbs, steps, w, v, start, end - 1);
    }
  }

  /** While w waits, each promotion on its resource costs one place, and nothing gives a place back. */
  lemma LineOverARun(dbs: seq<Tables>, steps: seq<Step>, w: Id, start: nat, end: nat)
    requires WaitsThrough(dbs, steps, w, start, end)
    ensures dbs[end].queue[w] == dbs[start].queue[w]
    ensures
      var r := dbs[start].queue[w].resource;
      && |Ahead(dbs[end], w)| + PromotionsOn(dbs, steps, r, start, end) <= |Ahead(dbs[start], w)|
      && ((forall k :: start <= k < end ==> !SweepsOn(dbs[k], steps[k], r)) ==>
            |Ahead(dbs[end], w)| + PromotionsOn(dbs, steps, r, start, end) == |Ahead(dbs[start], w)|)
  {
    var r := dbs[start].queue[w].resource;
    KeepsItsRow(dbs, steps, w, start, end);
    EveryStepMovesTheLine(dbs, steps, w, start, end);
    var sizes := LineSizes(dbs, w);
    forall k | start <= k < end ensures CountStep(sizes[k], dbs[k], steps[k], sizes[k + 1], r) {
      assert LineStep(dbs[k], steps[k], dbs[k + 1], w);
    }
    LineAddsUp(sizes, dbs, steps, r, start, end);
  }

  ghost function LineSizes(dbs: seq<Tables>, w: Id): (sizes: seq<nat>)
    ensures |sizes| == |dbs|
    ensures forall k :: 0 <= k < |dbs| && w in dbs[k].queue ==> sizes[k] == |Ahead(dbs[k], w)|
  {
    seq(|dbs|, k requires 0 <= k < |dbs| => if w in dbs[k].queue then |Ahead(dbs[k], w)| else 0)
  }

  lemma EveryStepMovesTheLine(dbs: seq<Tables>, steps: seq<Step>, w: Id, start: nat, end: nat)
    requires WaitsThrough(dbs, steps, w, start, end)
    ensures forall k :: start <= k < end ==> LineStep(dbs[k], steps[k], dbs[k + 1], w)
  {
    forall k | start <= k < end ensures LineStep(dbs[k], steps[k], dbs[k + 1], w) {
      assert Next(dbs[k], steps[k], dbs[k + 1]);
      LineMoves(dbs[k], steps[k], dbs[k + 1], w);
    }
  }

  /** A waiter queued throughout keeps its row. */
  lemma KeepsItsRow(dbs: seq<Tables>, steps: seq<Step>, w: Id, start: nat, end: nat)
    requires Behaviour(dbs, steps) && start <= end < |dbs|
    requires forall k :: start <= k <= end ==> w in dbs[k].queue
    ensures forall k :: start <= k <= end ==> dbs[k].queue[w] == dbs[start].queue[w]
  {
    var k := FateOfAWaiter(dbs, steps, w, start, end);
  }

  /** No row on w's resource sorts after it. */
  ghost predicate SortsLast(db: Tables, w: Id)
    requires w in db.queue
  {
    forall v :: v in db.queue && db.queue[v].resource == db.queue[w].resource ==> !Earlier(db.queue[w], db.queue[v])
  }

  lemma SameSizeMeansSame(a: set<Id>, b: set<Id>)
    requires a <= b
    ensures |a| == |b| <==> a == b
  {
    assert b == a + (b - a);
  }

  lemma FrontIsEverybody(db: Tables, w: Id, rows: set<Id>)
    requires w in db.queue && rows == set id | id in db.queue && db.queue[id].resource == db.queue[w].resource
    ensures Ahead(db, w) + {w} <= rows && (Ahead(db, w) + {w} == rows <==> SortsLast(db, w))
  {
    LessIrreflexive(Key(db.queue[w]));
    var front := Ahead(db, w) + {w};
    if front == rows {
      forall v | v in db.queue && db.queue[v].resource == db.queue[w].resource
        ensures !Earlier(db.queue[w], db.queue[v])
      {
        assert v in front;
      }
    }
  }

  /** The number of rows on the resource is a waiter's place in line if and only if no row there sorts after it. */
  lemma PositionCountsTheLine(db: Tables, w: Id)
    requires w in db.queue
    ensures QueueLength(db, db.queue[w].resource) == |Ahead(db, w)| + 1 <==> SortsLast(db, w)
  {
    var rows := set id | id in db.queue && db.queue[id].resource == db.queue[w].resource;
    FrontIsEverybody(db, w, rows);
    SameSizeMeansSame(Ahead(db, w) + {w}, rows);
  }

  /** A granted waiter that sorts strictly last was alone: everyone else would have gone first. */
  lemma LastIsGrantedAlone(db: Tables, step: Step, w: Id)
    requires Enabled(db, step) && w in db.queue && GrantedBy(db, step, w)
    requires !SweepsOn(db, step, db.queue[w].resource)
    requires forall v :: v in Ahead(db, w) ==> Earlier(db.queue[v], db.queue[w])
    ensures Ahead(db, w) == {}
  {
    var h := AsHandOver(db, step);
    forall v | v in Ahead(db, w) ensures false {
      assert !SweptBy(db, step, v);
      AloneInGrant(db, h, w, v);
    }
  }

  /**
   Grants follow arrival in real time too, except where the trimmed fractions clash: no waiter
   that arrived before the granted one is left behind, unless they arrived in one second.
   */
  lemma GrantsFollowArrival(db: Tables, step: Step, w: Id, v: Id)
    requires Enabled(db, step) && w in db.queue && GrantedBy(db, step, w)
    requires v in db.queue && db.queue[v].resource == db.queue[w].resource && !SweptBy(db, step, v)
    requires db.queue[v].queuedAt.FourDigitYear() && db.queue[w].queuedAt.FourDigitYear()
    ensures Before(db.queue[v].queuedAt, db.queue[w].queuedAt) ==>
              FractionClash(db.queue[v].queuedAt, db.queue[w].queuedAt)
  {
    AloneInGrant(db, AsHandOver(db, step), w, v);
    TextOrderIsTimeOrder(db.queue[v].queuedAt, db.queue[w].queuedAt);
  }

  /** The waiter at the front of its line is the one a promotion on its resource takes. */
  lemma FrontIsGranted(db: Tables, step: Step, after: Tables, w: Id)
    requires Next(db, step, after) && w in db.queue && Ahead(db, w) == {} && ArrivesAfter(db, step, w)
    requires GrantsOn(db, step, db.queue[w].resource)
    ensures w !in after.queue
  {
    if w in after.queue {
      LineMoves(db, step, after, w);
      assert false;
    }
  }

  /**
   Position p at `start` bounds the wait: while w still waits, fewer than p promotions have
   happened on its resource, whatever was swept.
   */
  lemma PositionBoundsTheWait(dbs: seq<Tables>, steps: seq<Step>, w: Id, start: nat, end: nat, p: nat)
    requires WaitsThrough(dbs, steps, w, start, end) && SortsLast(dbs[start], w)
    requires p == QueueLength(dbs[start], dbs[start].queue[w].resource)
    ensures PromotionsOn(dbs, steps, dbs[start].queue[w].resource, start, end) < p
  {
    PositionCountsTheLine(dbs[start], w);
    LineOverARun(dbs, steps, w, start, end);
  }

  /** Every other row on w's resource sorts before it. */
  ghost predicate SortsStrictlyLast(db: Tables, w: Id)
    requires w in db.queue
  {
    forall v :: v in db.queue && v != w && db.queue[v].resource == db.queue[w].resource ==>
      Earlier(db.queue[v], db.queue[w])
  }

  lemma StrictlyLastSortsLast(db: Tables, w: Id)
    requires w in db.queue && SortsStrictlyLast(db, w)
    ensures SortsLast(db, w)
  {
    forall v | v in db.queue && db.queue[v].resource == db.queue[w].resource
      ensures !Earlier(db.queue[w], db.queue[v])
    {
      LessIrreflexive(Key(db.queue[w]));
      if v != w && Earlier(db.queue[w], db.queue[v]) {
        LessTransitive(Key(db.queue[w]), Key(db.queue[v]), Key(db.queue[w]));
      }
    }
  }

  /**
   Position p is exact when nothing on the resource is swept and w's key is strictly the
   largest: the step that grants w is the p-th promotion on its resource since `start`.
   */
  lemma PositionIsTheGrantNumber(dbs: seq<Tables>, steps: seq<Step>, w: Id, start: nat, end: nat, p: nat)
    requires WaitsThrough(dbs, steps, w, start, end) && end < |steps| && SortsStrictlyLast(dbs[start], w)
    requires p == QueueLength(dbs[start], dbs[start].queue[w].resource)
    requires forall k :: start <= k <= end ==> !SweepsOn(dbs[k], steps[k], dbs[start].queue[w].resource)
    requires ArrivesAfter(dbs[end], steps[end], w)
    ensures GrantedBy(dbs[end], steps[end], w) <==>
              && GrantsOn(dbs[end], steps[end], dbs[start].queue[w].resource)
              && PromotionsOn(dbs, steps, dbs[start].queue[w].resource, start, end + 1) == p
  {
    var r := dbs[start].queue[w].resource;
    StrictlyLastSortsLast(dbs[start], w);
    PositionCountsTheLine(dbs[start], w);
    LineOverARun(dbs, steps, w, start, end);
    GrantedMeansInFront(dbs, steps, w, start, end);
    assert |Ahead(dbs[end], w)| == 0 <==> Ahead(dbs[end], w) == {};
  }

  /** Unswept, the waiter is granted exactly by a promotion on its resource when nobody is in front of it. */
  lemma GrantedMeansInFront(dbs: seq<Tables>, steps: seq<Step>, w: Id, start: nat, end: nat)
    requires WaitsThrough(dbs, steps, w, start, end) && end < |steps| && SortsStrictlyLast(dbs[start], w)
    requires !SweepsOn(dbs[end], steps[end], dbs[start].queue[w].resource) && ArrivesAfter(dbs[end], steps[end], w)
    ensures GrantedBy(dbs[end], steps[end], w) <==>
              GrantsOn(dbs[end], steps[end], dbs[start].queue[w].resource) && Ahead(dbs[end], w) == {}
  {
    assert Next(dbs[end], steps[end], dbs[end + 1]);
    KeepsItsRow(dbs, steps, w, start, end);
    StrictlyAheadStays(dbs, steps, w, start, end);
    InFrontIsGranted(dbs[end], steps[end], dbs[end + 1], w);
  }

  lemma InFrontIsGranted(db: Tables, step: Step, after: Tables, w: Id)
    requires Next(db, step, after) && w in db.queue && ArrivesAfter(db, step, w)
    requires !SweepsOn(db, step, db.queue[w].resource)
    requires forall v :: v in Ahead(db, w) ==> Earlier(db.queue[v], db.queue[w])
    ensures GrantedBy(db, step, w) <==> GrantsOn(db, step, db.queue[w].resource) && Ahead(db, w) == {}
  {
    if GrantedBy(db, step, w) {
      LastIsGrantedAlone(db, step, w);
      assert GrantsOn(db, step, db.queue[w].resource);
    } else if GrantsOn(db, step, db.queue[w].resource) && Ahead(db, w) == {} {
      FrontIsGranted(db, step, after, w);
      WaiterStaysUntilGrantedOrSwept(db, step, w);
      assert false;
    }
  }

  /** Whoever is ahead of w later was ahead of it from the start, with the same row. */
  lemma StrictlyAheadStays(dbs: seq<Tables>, steps: seq<Step>, w: Id, start: nat, end: nat)
    requires WaitsThrough(dbs, steps, w, start, end)
    requires forall v :: v in Ahead(dbs[start], w) ==> Earlier(dbs[start].queue[v], dbs[start].queue[w])
    ensures forall v :: v in Ahead(dbs[end], w) ==> Earlier(dbs[end].queue[v], dbs[end].queue[w])
  {
    KeepsItsRow(dbs, steps, w, start, end);
    EveryStepMovesTheLine(dbs, steps, w, start, end);
    forall v | v in Ahead(dbs[end], w) ensures Earlier(dbs[end].queue[v], dbs[end].queue[w]) {
      LineShrinks(dbs, steps, w, v, start, end);
      KeepsItsRow(dbs, steps, v, start, end);
    }
  }
}
