/**
 The stack of log destinations. SetWriter pushes the current writer and hands back a closure
 that is meant to restore it; the closure ends in Reset when it empties the stack, and Reset
 takes the lock the closure still holds, so that call never returns.
 */
module LogWriter {
  import opened Basics
  import opened Ordering

  datatype Writer = Stdout | Other(id: nat)

  /** The package variables writer and orig. */
  datatype Log = Log(writer: Writer, orig: seq<Writer>)

  const INITIAL := Log(Stdout, [])

  /** The closure SetWriter returns. */
  datatype Undo = Nothing | Leave(w: Writer)

  function Set(s: Log, w: Writer): (Log, Undo) {
    if s.writer == w then (s, Nothing) else (Log(w, s.orig + [s.writer]), Leave(w))
  }

  function WithoutFirst(xs: seq<Writer>, w: Writer): (ys: seq<Writer>)
    ensures w !in xs ==> ys == xs
    ensures w in xs ==> |ys| == |xs| - 1
  {
    if xs == [] then [] else if xs[0] == w then xs[1..] else [xs[0]] + WithoutFirst(xs[1..], w)
  }

  lemma {:induction false} WithoutFirstAt(xs: seq<Writer>, i: nat, w: Writer)
    requires i < |xs| && xs[i] == w && w !in xs[..i]
    ensures WithoutFirst(xs, w) == xs[..i] + xs[i + 1..]
  {
    if i > 0 {
      assert xs[0] == xs[..i][0] && xs[..i][1..] == xs[1..][..i - 1];
      WithoutFirstAt(xs[1..], i - 1, w);
    }
  }

  /** The state after calling the closure, or None when it deadlocks in the nested Reset. */
  function Undone(s: Log, u: Undo): Option<Log> {
    match u
    case Nothing => Some(s)
    case Leave(w) =>
      var orig := WithoutFirst(s.orig, w);
      if orig == [] then None else Some(Log(orig[|orig| - 1], orig[..|orig| - 1]))
  }

  // ------------------------------------------------------------------ well-nested use

  /** defer log.To(w)() around a body. */
  datatype Block = To(w: Writer, body: seq<Block>)

  /** One block: set the writer, run the body, restore; None if a restore deadlocks. */
  function RunBlock(b: Block, s: Log): Option<Log>
    decreases b
  {
    var (t, u) := Set(s, b.w);
    match Run(b.body, t)
    case None => None
    case Some(v) => Undone(v, u)
  }

  function Run(bs: seq<Block>, s: Log): Option<Log>
    decreases bs
  {
    if bs == [] then Some(s)
    else
      match RunBlock(bs[0], s)
      case None => None
      case Some(x) => Run(bs[1..], x)
  }

  /** No block selects a writer that is already in use further out, other than the current one. */
  predicate Fresh(bs: seq<Block>, s: Log)
    decreases bs
  {
    bs == [] || (FreshBlock(bs[0], s) && Fresh(bs[1..], s))
  }

  predicate FreshBlock(b: Block, s: Log)
    decreases b
  {
    (b.w == s.writer || b.w !in s.orig) && Fresh(b.body, Set(s, b.w).0)
  }

  /** No run leaves more on the stack than it found. */
  lemma {:induction false} RunsNeverGrowTheStack(bs: seq<Block>, s: Log)
    ensures var end := Run(bs, s); end.Some? ==> |end.value.orig| <= |s.orig|
    decreases bs
  {
    if bs != [] {
      RunsNeverGrowTheStack(bs[0].body, Set(s, bs[0].w).0);
      var x := RunBlock(bs[0], s);
      if x.Some? { RunsNeverGrowTheStack(bs[1..], x.value); }
    }
  }

  /** Fresh blocks restore everything; any other run deadlocks or loses an entry of the stack for good. */
  lemma {:induction false} RunIsExact(bs: seq<Block>, s: Log)
    ensures Fresh(bs, s) ==> Run(bs, s) == Some(s)
    ensures var end := Run(bs, s); !Fresh(bs, s) && end.Some? ==> |end.value.orig| < |s.orig|
    decreases bs
  {
    if bs != [] {
      RunBlockIsExact(bs[0], s);
      RunIsExact(bs[1..], s);
      var x := RunBlock(bs[0], s);
      if x.Some? { RunsNeverGrowTheStack(bs[1..], x.value); }
    }
  }

  lemma {:induction false} RunBlockIsExact(b: Block, s: Log)
    ensures FreshBlock(b, s) ==> RunBlock(b, s) == Some(s)
    ensures var end := RunBlock(b, s); !FreshBlock(b, s) && end.Some? ==> |end.value.orig| < |s.orig|
    decreases b
  {
    var t := Set(s, b.w).0;
    RunIsExact(b.body, t);
    RunsNeverGrowTheStack(b.body, t);
    if b.w != s.writer { assert t.orig[..|s.orig|] == s.orig; }
  }

  /** From the state at startup a run restores everything if it is fresh, and deadlocks if it is not. */
  lemma FromStartupRestoresOrDeadlocks(bs: seq<Block>)
    ensures Run(bs, INITIAL) == if Fresh(bs, INITIAL) then Some(INITIAL) else None
  {
    RunIsExact(bs, INITIAL);
  }

  // ------------------------------------------------------------- distinct writers

  /** The writers the blocks select, in order. */
  function Writers(bs: seq<Block>): seq<Writer>
    decreases bs
  {
    if bs == [] then [] else [bs[0].w] + Writers(bs[0].body) + Writers(bs[1..])
  }

  /** Pairwise distinct writers, none of them in use at the start, are fresh. */
  lemma {:induction false} DistinctIsFresh(bs: seq<Block>, s: Log)
    requires Distinct(Writers(bs))
    requires forall w :: w in Writers(bs) ==> w != s.writer && w !in s.orig
    ensures Fresh(bs, s)
    decreases bs
  {
    if bs != [] {
      var head, inner, rest := [bs[0].w], Writers(bs[0].body), Writers(bs[1..]);
      var all := Writers(bs);
      assert all == head + inner + rest;
      assert all[0] == bs[0].w;
      assert forall i :: 0 <= i < |inner| ==> inner[i] == all[1 + i];
      assert forall i :: 0 <= i < |rest| ==> rest[i] == all[1 + |inner| + i];
      forall w | w in inner ensures w in all && w != bs[0].w {
        var i :| 0 <= i < |inner| && inner[i] == w;
        assert all[0] != all[1 + i];
      }
      forall w | w in rest ensures w in all {}
      DistinctIsFresh(bs[0].body, Set(s, bs[0].w).0);
      DistinctIsFresh(bs[1..], s);
    }
  }

  /** Blocks over pairwise distinct writers end with the writer and the stack they started with. */
  lemma DistinctWritersRestore(bs: seq<Block>, s: Log)
    requires Distinct(Writers(bs))
    requires forall w :: w in Writers(bs) ==> w != s.writer && w !in s.orig
    ensures Run(bs, s) == Some(s)
  {
    DistinctIsFresh(bs, s);
    RunIsExact(bs, s);
  }

  /** Going back to the first writer inside another one: the outer restore finds nothing left to pop and deadlocks. */
  lemma ReturningToStdoutDeadlocks(a: Writer)
    requires a != Stdout
    ensures Run([To(a, [To(Stdout, [])])], INITIAL) == None
  {
    var inner, s := [To(Stdout, [])], Log(a, [Stdout]);
    assert INITIAL.orig + [Stdout] == [Stdout];
    assert Set(INITIAL, a).0 == s && !Fresh(inner, s);
    assert !Fresh([To(a, inner)], INITIAL);
    FromStartupRestoresOrDeadlocks([To(a, inner)]);
  }

  /** One block after another, none inside another, never deadlocks: two nested ones are the least it takes. */
  lemma UnnestedUseRestores(bs: seq<Block>)
    requires forall i :: 0 <= i < |bs| ==> bs[i].body == []
    ensures Run(bs, INITIAL) == Some(INITIAL)
  {
    UnnestedIsFresh(bs);
    FromStartupRestoresOrDeadlocks(bs);
  }

  lemma {:induction false} UnnestedIsFresh(bs: seq<Block>)
    requires forall i :: 0 <= i < |bs| ==> bs[i].body == []
    ensures Fresh(bs, INITIAL)
  {
    if bs != [] { UnnestedIsFresh(bs[1..]); }
  }

  /** A writer selected again inside another one, inside itself: the outermost restore deadlocks. */
  lemma NestedReuseDeadlocks(a: Writer, b: Writer)
    requires a != b && a != Stdout && b != Stdout
    ensures Run([To(a, [To(b, [To(a, [])])])], INITIAL) == None
  {
    var inner := [To(a, [])];
    var middle := [To(b, inner)];
    var outer := [To(a, middle)];
    assert INITIAL.orig + [Stdout] == [Stdout];
    var s1, s2 := Log(a, [Stdout]), Log(b, [Stdout, a]);
    assert Set(INITIAL, a).0 == s1 && Set(s1, b).0 == s2;
    assert !Fresh(inner, s2);
    assert !Fresh(middle, s1);
    assert !Fresh(outer, INITIAL);
    FromStartupRestoresOrDeadlocks(outer);
  }

  // ------------------------------------------------------------------ the package

  class Package {
    var writer: Writer
    var orig: seq<Writer>
    var locked: bool

    function View(): Log
      reads this
    {
      Log(writer, orig)
    }

    constructor ()
      ensures View() == INITIAL && !locked
    {
      writer, orig, locked := Stdout, [], false;
    }

    /** Back to the first writer. Called with the lock held it never returns. */
    method Reset() returns (returned: bool)
      modifies this
      ensures returned <==> !old(locked)
      ensures returned ==> View() == Log(if old(orig) == [] then Stdout else old(orig)[0], []) && !locked
      ensures !returned ==> View() == old(View()) && locked
    {
      if locked { return false; }
      writer := if |orig| > 0 then orig[0] else Stdout;
      orig := [];
      returned := true;
    }

    method SetWriter(w: Writer) returns (undo: Undo)
      requires !locked
      modifies this
      ensures (View(), undo) == Set(old(View()), w) && !locked && writer == w
      ensures old(writer) == w ==> orig == old(orig) && undo == Nothing
      ensures old(writer) != w ==> orig == old(orig) + [old(writer)] && undo == Leave(w)
    {
      if writer == w { return Nothing; }
      orig := orig + [writer];
      writer := w;
      undo := Leave(w);
    }

    /** The closure's loop: removes the first occurrence of its own writer, if there is one. */
    method DropFirst(w: Writer)
      modifies `orig
      ensures orig == WithoutFirst(old(orig), w)
    {
      for i := 0 to |orig|
        invariant orig == old(orig) && w !in orig[..i]
      {
        if orig[i] == w {
          WithoutFirstAt(orig, i, w);
          orig := orig[..i] + orig[i + 1..];
          return;
        }
      }
      assert orig[..|orig|] == orig;
    }

    /** The closure: drop the first occurrence of its own writer, then pop, or reset an empty stack. */
    method Restore(undo: Undo) returns (returned: bool)
      requires !locked
      modifies this
      ensures returned <==> Undone(old(View()), undo).Some?
      ensures returned ==> Some(View()) == Undone(old(View()), undo) && !locked
      ensures undo == Nothing ==> returned && View() == old(View())
      ensures undo.Leave? ==>
                var rest := WithoutFirst(old(orig), undo.w);
                && (returned <==> rest != [])
                && (returned ==> writer == rest[|rest| - 1] && orig == rest[..|rest| - 1])
      ensures !returned ==> locked
    {
      if undo == Nothing { return true; }
      locked := true;
      DropFirst(undo.w);
      if |orig| > 0 {
        writer := orig[|orig| - 1];
        orig := orig[..|orig| - 1];
      } else {
        returned := Reset();
        if !returned { return; }
      }
      locked := false;
      returned := true;
    }

    /** Each block sets its writer, runs its body, and restores. */
    method RunAll(bs: seq<Block>) returns (returned: bool)
      requires !locked
      modifies this
      ensures returned <==> Run(bs, old(View())).Some?
      ensures returned ==> Some(View()) == Run(bs, old(View())) && !locked
      decreases bs
    {
      for i := 0 to |bs|
        invariant !locked
        invariant Run(bs, old(View())) == Run(bs[i..], View())
      {
        var undo := SetWriter(bs[i].w);
        returned := RunAll(bs[i].body);
        if !returned { return; }
        returned := Restore(undo);
        if !returned { return; }
        assert bs[i..][1..] == bs[i + 1..];
      }
      returned := true;
    }
  }
}
