/** Failure-carrying values shared by every module: the source signals
    failures by raising Python exceptions, which the model returns as values. */
module Wrappers {

  datatype Option<+T> = None | Some(value: T)

  /** The Python exception classes the modelled code raises. */
  datatype Error =
    | AssertionError
    | ValueError
    | NotImplementedError
    | KeyError
    | IndexError
    | AttributeError
    | UnboundLocalError
    | TypeError

  datatype Result<+T> = Ok(value: T) | Err(error: Error)
  {
    predicate IsFailure() {
      Err?
    }

    function PropagateFailure<U>(): Result<U>
      requires Err?
    {
      Err(error)
    }

    function Extract(): T
      requires Ok?
    {
      value
    }
  }

  /** Outcome of an operation that returns nothing on success. */
  datatype Outcome = Pass | Fail(error: Error)

  /** Every element of a sequence occurs once. */
  predicate Distinct<T(==)>(s: seq<T>) {
    forall i, j :: 0 <= i < j < |s| ==> s[i] != s[j]
  }

  /** The set of elements of a sequence. */
  function Elems<T>(s: seq<T>): set<T> {
    set x | x in s
  }

  /** Elems of a sequence grown by one element. */
  lemma ElemsSnoc<T>(s: seq<T>, x: T)
    ensures Elems(s + [x]) == Elems(s) + {x}
  {
  }

  /** Elems of a prefix grown by one element. */
  lemma ElemsPrefixStep<T>(s: seq<T>, j: nat)
    requires j < |s|
    ensures Elems(s[..j + 1]) == Elems(s[..j]) + {s[j]}
  {
    assert s[..j + 1] == s[..j] + [s[j]];
  }

  /** Adding one element to a union. */
  lemma UnionAddOne<T>(A: set<T>, B: set<T>, x: T)
    ensures (A + B) + {x} == A + (B + {x})
  {
  }
}
