/** Small datatypes shared by every module. */
module Basics {
  import opened Errors

  /** A value that may be absent: a nil pointer, or a query that found no row. */
  datatype Option<+T> = None | Some(value: T)

  /**
   What the database server does to one transaction: the error it gives to each statement of its
   own accord, and to the commit; Nil when it works.
   */
  datatype Server = Server(fault: nat -> Err, commitErr: Err) {
    predicate Refuses(k: nat) {
      fault(k) != Nil
    }

    predicate Commits() {
      commitErr == Nil
    }

    /** No statement numbered from start up to end is refused. */
    ghost predicate Clean(start: nat, end: nat) {
      forall k :: start <= k < end ==> !Refuses(k)
    }

    ghost predicate Healthy() {
      Commits() && forall k :: !Refuses(k)
    }
  }

  /** The elements of a set, each once, in an order the caller cannot predict. */
  method InSomeOrder(s: set<string>) returns (out: seq<string>)
    ensures forall x :: x in out <==> x in s
    ensures forall i, j :: 0 <= i < j < |out| ==> out[i] != out[j]
  {
    out := [];
    var left := s;
    while left != {}
      invariant left <= s
      invariant forall x :: x in out <==> x in s && x !in left
      invariant forall i, j :: 0 <= i < j < |out| ==> out[i] != out[j]
      decreases left
    {
      var x :| x in left;
      out, left := out + [x], left - {x};
    }
  }
}
