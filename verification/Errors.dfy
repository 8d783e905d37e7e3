/** Go error values as trees, and which of them the retry loop treats as transient. */
module Errors {

  /**
   A Go error: nil; a node without Unwrap; a node with SQLState (whatever it wraps); a node
   with Unwrap() error, as %w makes; a node with Unwrap() []error, as errors.Join makes.
   */
  datatype Err =
    | Nil
    | Leaf(text: string)
    | SqlState(code: string, cause: Err)
    | Wrap(inner: Err)
    | Join(inners: seq<Err>)

  const CRDB_RETRY_CODE := "40001"

  /** What a statement gets in a transaction where an earlier one failed. */
  const IN_FAILED_TX := SqlState("25P02", Nil)
  const UNIQUE_VIOLATION := SqlState("23505", Nil)
  /** What committing such a transaction gets. */
  const ROLLED_BACK := Leaf("commit unexpectedly resulted in rollback")
  const NOT_FOUND := Leaf("not found")

  /** isRetryable: a SQLSTATE node answers for itself; otherwise unwrap, one or many. */
  predicate IsRetryable(e: Err)
    decreases e, 1
  {
    match e
    case Nil => false
    case Leaf(_) => false
    case SqlState(code, _) => code == CRDB_RETRY_CODE
    case Wrap(inner) => IsRetryable(inner)
    case Join(inners) => AnyRetryable(inners)
  }

  predicate AnyRetryable(es: seq<Err>)
    decreases es, 0
  {
    es != [] && (IsRetryable(es[0]) || AnyRetryable(es[1..]))
  }

  /** path walks down from e through nodes without SQLSTATE to a node with SQLSTATE 40001. */
  predicate LeadsToRetryCode(e: Err, path: seq<nat>)
    decreases |path|
  {
    match e
    case Nil => false
    case Leaf(_) => false
    case SqlState(code, _) => path == [] && code == "40001"
    case Wrap(inner) => path != [] && path[0] == 0 && LeadsToRetryCode(inner, path[1..])
    case Join(inners) => path != [] && path[0] < |inners| && LeadsToRetryCode(inners[path[0]], path[1..])
  }

  lemma {:induction false} PathOfRetryable(e: Err) returns (path: seq<nat>)
    requires IsRetryable(e)
    ensures LeadsToRetryCode(e, path)
    decreases e, 1
  {
    match e
    case SqlState(_, _) => path := [];
    case Wrap(inner) =>
      var rest := PathOfRetryable(inner);
      path := [0] + rest;
    case Join(inners) =>
      var i, rest := PathOfAny(inners);
      path := [i] + rest;
  }

  lemma {:induction false} PathOfAny(es: seq<Err>) returns (i: nat, path: seq<nat>)
    requires AnyRetryable(es)
    ensures i < |es| && LeadsToRetryCode(es[i], path)
    decreases es, 0
  {
    if IsRetryable(es[0]) {
      i := 0;
      path := PathOfRetryable(es[0]);
    } else {
      i, path := PathOfAny(es[1..]);
      i := i + 1;
    }
  }

  lemma {:induction false} AnyByIndex(es: seq<Err>, i: nat)
    requires i < |es| && IsRetryable(es[i])
    ensures AnyRetryable(es)
  {
    if i > 0 { AnyByIndex(es[1..], i - 1); }
  }

  lemma {:induction false} PathMeansRetryable(e: Err, path: seq<nat>)
    requires LeadsToRetryCode(e, path)
    ensures IsRetryable(e)
    decreases |path|
  {
    match e
    case SqlState(_, _) =>
    case Wrap(inner) => PathMeansRetryable(inner, path[1..]);
    case Join(inners) =>
      PathMeansRetryable(inners[path[0]], path[1..]);
      AnyByIndex(inners, path[0]);
  }

  /** An error is retryable exactly when some root path reaches SQLSTATE 40001 before any other SQLSTATE. */
  lemma RetryableIffSomePath(e: Err)
    ensures IsRetryable(e) ==> exists path: seq<nat> :: LeadsToRetryCode(e, path)
    ensures forall path: seq<nat> :: LeadsToRetryCode(e, path) ==> IsRetryable(e)
  {
    if IsRetryable(e) {
      var path := PathOfRetryable(e);
      assert LeadsToRetryCode(e, path);
    }
    forall path: seq<nat> | LeadsToRetryCode(e, path) ensures IsRetryable(e) {
      PathMeansRetryable(e, path);
    }
  }

  /** e wrapped n times by fmt.Errorf with %w. */
  function Wrapped(e: Err, n: nat): Err {
    if n == 0 then e else Wrap(Wrapped(e, n - 1))
  }

  /** Wrapping with context never changes the verdict. */
  lemma {:induction false} WrappingIsTransparent(e: Err, n: nat)
    ensures IsRetryable(Wrapped(e, n)) == IsRetryable(e)
  {
    if n > 0 { WrappingIsTransparent(e, n - 1); }
  }

  /** A SQLSTATE node hides whatever it wraps: a retry code below another code is not seen. */
  lemma SqlStateHidesItsCause(code: string, cause: Err)
    requires code != CRDB_RETRY_CODE && IsRetryable(cause)
    ensures !IsRetryable(SqlState(code, cause)) && IsRetryable(Join([SqlState(code, cause), cause]))
  {
    AnyByIndex([SqlState(code, cause), cause], 1);
  }
}
