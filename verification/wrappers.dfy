/** Failure-compatible result type used by every fallible operation of the codec
    in place of the thrown strings of the original program. */
module Wrappers {

  /** Either a computed value or an error value. Usable with `:-`. */
  datatype Result<+R, +E> = Success(value: R) | Failure(error: E) {

    predicate IsFailure() {
      Failure?
    }

    function PropagateFailure<U>(): Result<U, E>
      requires Failure?
    {
      Failure(error)
    }

    function Extract(): R
      requires Success?
    {
      value
    }
  }
}

/** The closed set of failures the codec can report. */
module CodecErrors {
  import opened Wrappers

  datatype Error =
    /** A list-text token that is not an optional '-' followed by decimal digits. */
    | NonNumeric(token: string)
    /** A list-text value below 0 or above the maximum number. */
    | OutOfRange(value: int)
    /** A code-string character that is not allowed where it stands. */
    | UnexpectedChar(c: char)
    /** A high-digit character with nothing after it. */
    | UnexpectedEnd

  /** `v` in front of the values of `rest`, or the failure of `rest`. */
  function Cons(v: nat, rest: Result<seq<nat>, Error>): Result<seq<nat>, Error> {
    match rest
    case Success(vs) => Success([v] + vs)
    case Failure(e) => Failure(e)
  }

  /** `out` in front of the values of `rest`, or the failure of `rest`. */
  function Prepend(out: seq<nat>, rest: Result<seq<nat>, Error>): Result<seq<nat>, Error> {
    match rest
    case Success(vs) => Success(out + vs)
    case Failure(e) => Failure(e)
  }

  /** Putting no values in front changes nothing. */
  lemma PrependNothing(rest: Result<seq<nat>, Error>)
    ensures Prepend([], rest) == rest
  {
    if rest.Success? {
      assert [] + rest.value == rest.value;
    }
  }

  /** Putting `out` and then `v` in front is putting `out + [v]` in front. */
  lemma PrependCons(out: seq<nat>, v: nat, rest: Result<seq<nat>, Error>)
    ensures Prepend(out, Cons(v, rest)) == Prepend(out + [v], rest)
  {
    if rest.Success? {
      assert out + ([v] + rest.value) == (out + [v]) + rest.value;
    }
  }
}
