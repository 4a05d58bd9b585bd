/** Option, Result and Outcome values for the Java exceptions, and sequence helpers shared by every module of the model. */
module Wrappers {
  datatype Option<+T> = None | Some(value: T)

  /** The Java exceptions the modelled code throws or lets escape. */
  datatype Error =
    | NoSuchElementException
    | DbException
    | IOException
    | TransactionAbortedException
    | IllegalArgumentException
    | IndexOutOfBoundsException
    | NullPointerException
    | NegativeArraySizeException
    | ArithmeticException
    | ClassCastException
    | RuntimeException
    /** System.exit: the process stops. */
    | SystemExit

  datatype Result<+T> = Ok(value: T) | Err(error: Error)

  /** The outcome of an operation that returns nothing but may throw. */
  datatype Outcome = Done | Fail(error: Error)

  /** No element of the sequence occurs twice. */
  predicate Distinct<T(==)>(xs: seq<T>)
  {
    forall i, j :: 0 <= i < j < |xs| ==> xs[i] != xs[j]
  }

  /** A non-empty sequence is its front followed by its last element. */
  lemma {:induction false} FrontLast<T>(s: seq<T>)
    requires |s| > 0
    ensures s[..|s| - 1] + [s[|s| - 1]] == s
  {
  }

  /** The first k + j elements are the first k followed by the j after them. */
  lemma {:induction false} PrefixJoin<T>(s: seq<T>, k: nat, j: nat)
    requires k + j <= |s|
    ensures s[..k + j] == s[..k] + s[k..][..j]
  {
  }

  /** Appending an element not yet listed keeps a sequence distinct. */
  lemma {:induction false} DistinctAppend<T>(xs: seq<T>, x: T)
    requires Distinct(xs) && x !in xs
    ensures Distinct(xs + [x])
  {
    var u := xs + [x];
    forall i, j | 0 <= i < j < |u|
      ensures u[i] != u[j]
    {
      assert u[i] == xs[i];
      if j < |xs| {
        assert u[j] == xs[j];
      }
    }
  }
}
