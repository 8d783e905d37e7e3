/** The task state machine. */
module TaskStatus {

  /** A status column; anything but the six known statuses is Unknown. */
  datatype Status = Open | Claimed | InProgress | Done | Failed | Cancelled | Unknown(text: string)

  const VALID_TRANSITIONS: map<Status, set<Status>> := map[
    Open := {Claimed, Cancelled},
    Claimed := {Open, InProgress, Cancelled},
    InProgress := {Done, Failed, Open}
  ]

  predicate IsValidTransition(src: Status, dst: Status) {
    src == dst || (src in VALID_TRANSITIONS && dst in VALID_TRANSITIONS[src])
  }

  predicate Terminal(s: Status) {
    s in {Done, Failed, Cancelled}
  }

  /** A history without stutters in which every move is allowed. */
  predicate ValidHistory(h: seq<Status>) {
    && h != []
    && forall i :: 0 <= i < |h| - 1 ==> h[i] != h[i + 1] && IsValidTransition(h[i], h[i + 1])
  }

  /** A history extended by an allowed move, a stutter being dropped. */
  function Extended(h: seq<Status>, next: Status): seq<Status>
    requires h != []
  {
    if h[|h| - 1] == next then h else h + [next]
  }

  lemma ExtendedIsValid(h: seq<Status>, next: Status)
    requires ValidHistory(h) && IsValidTransition(h[|h| - 1], next)
    ensures ValidHistory(Extended(h, next))
  {
  }

  /** A sequence of observed statuses with the stutters dropped. */
  function StutterFree(ss: seq<Status>): (h: seq<Status>)
    requires ss != []
    ensures h != [] && h[0] == ss[0] && h[|h| - 1] == ss[|ss| - 1]
  {
    if |ss| == 1 then ss else Extended(StutterFree(ss[..|ss| - 1]), ss[|ss| - 1])
  }

  lemma {:induction false} StutterFreeIsValid(ss: seq<Status>)
    requires ss != [] && forall k :: 0 <= k < |ss| - 1 ==> IsValidTransition(ss[k], ss[k + 1])
    ensures ValidHistory(StutterFree(ss))
  {
    if |ss| > 1 {
      var front := ss[..|ss| - 1];
      forall k | 0 <= k < |front| - 1 ensures IsValidTransition(front[k], front[k + 1]) {
        assert IsValidTransition(ss[k], ss[k + 1]);
      }
      StutterFreeIsValid(front);
      assert IsValidTransition(ss[|ss| - 2], ss[|ss| - 2 + 1]);
      ExtendedIsValid(StutterFree(front), ss[|ss| - 1]);
    }
  }

  /** Along allowed moves a terminal status stays what it is. */
  lemma {:induction false} TerminalStays(ss: seq<Status>, k: nat)
    requires k < |ss| && Terminal(ss[0])
    requires forall k :: 0 <= k < |ss| - 1 ==> IsValidTransition(ss[k], ss[k + 1])
    ensures ss[k] == ss[0]
  {
    if k > 0 {
      TerminalStays(ss, k - 1);
      assert IsValidTransition(ss[k - 1], ss[k - 1 + 1]);
    }
  }

  /** The moves by where they lead: work goes forward stage by stage, and may be given back or called off on the way. */
  lemma MovesByDestination(src: Status, dst: Status)
    requires src != dst
    ensures IsValidTransition(src, dst) <==>
              match dst
              case Open => src == Claimed || src == InProgress
              case Claimed => src == Open
              case InProgress => src == Claimed
              case Done => src == InProgress
              case Failed => src == InProgress
              case Cancelled => src == Open || src == Claimed
              case Unknown(_) => false
  {
    assert src in VALID_TRANSITIONS <==> src in {Open, Claimed, InProgress};
  }

  /** From a status that is not terminal every known status can still be reached, and within four moves. */
  lemma NothingIsLostBeforeTheEnd(src: Status, dst: Status) returns (h: seq<Status>)
    requires !src.Unknown? && !dst.Unknown? && !Terminal(src)
    ensures ValidHistory(h) && h[0] == src && h[|h| - 1] == dst && |h| <= 4
  {
    var stages := [Open, Claimed, InProgress];
    var at := if src == Open then 0 else if src == Claimed then 1 else 2;
    if dst == src {
      h := [src];
    } else if dst in {InProgress, Done, Failed} {
      h := stages[at..] + if dst == InProgress then [] else [dst];
    } else {
      h := if src == InProgress && dst != Open then [src, Open, dst] else [src, dst];
    }
    forall i | 0 <= i < |h| - 1 ensures h[i] != h[i + 1] && IsValidTransition(h[i], h[i + 1]) {
      MovesByDestination(h[i], h[i + 1]);
    }
  }

  /** A terminal status allows no move to another status; every other known status allows one. */
  lemma TerminalMeansNoWayOut(src: Status)
    requires !src.Unknown?
    ensures Terminal(src) <==> forall dst :: IsValidTransition(src, dst) ==> dst == src
  {
    if !Terminal(src) {
      assert IsValidTransition(src, if src.InProgress? then Done else Cancelled);
    }
  }

  /** Finished work went through every stage: a finished history ends open, claimed, in progress, final. */
  lemma FinishedHistoryEndsInOrder(h: seq<Status>)
    requires ValidHistory(h) && h[0] == Open && h[|h| - 1] in {Done, Failed}
    ensures |h| >= 4 && h[|h| - 4..] == [Open, Claimed, InProgress, h[|h| - 1]]
  {
    var n := |h|;
    assert n >= 2 && IsValidTransition(h[n - 2], h[n - 1]) && h[n - 2] != h[n - 1];
    assert h[n - 2] == InProgress;
    assert n >= 3 && IsValidTransition(h[n - 3], h[n - 2]) && h[n - 3] != h[n - 2];
    assert h[n - 3] == Claimed;
    assert n >= 4 && IsValidTransition(h[n - 4], h[n - 3]) && h[n - 4] != h[n - 3];
    assert h[n - 4] == Open;
  }

  /** A terminal status, once reached, is the last: nothing before the end of a history is terminal. */
  lemma TerminalIsLast(h: seq<Status>, i: nat)
    requires ValidHistory(h) && i < |h| - 1
    ensures !Terminal(h[i])
  {
    var next := h[i + 1];
    assert h[i] != next && IsValidTransition(h[i], next);
  }
}
