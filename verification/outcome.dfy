/**
  Outcomes of the codec's operations: a value, or the Python exception the
  modelled code raises instead of returning.
 */
module Outcome {

  /** The conventional Some/None datatype, standing for a Python value that may be `None`. */
  datatype Option<+T> = None | Some(value: T)

  /** The exceptions the modelled Python code can raise. */
  datatype Error =
    | EmptyHeap              // `heap[0]` on an empty heap: IndexError
    | MissingCode(sym: char) // `codes[ch]` for a symbol the table lacks: KeyError
    | MissingChild           // the decoder stepped to an absent child and read `.char`: AttributeError
    | RoundTripMismatch      // `assert decoded == text` in compress_text: AssertionError

  /** A value, or the exception raised while computing it; usable with `:-`. */
  datatype Result<+T> = Ok(value: T) | Err(error: Error) {

    predicate IsFailure() {
      Err?
    }

    function PropagateFailure<U>(): Result<U>
      requires Err?
    {
      Err(error)
    }

    function Extract(): T
      requires Ok?
    {
      value
    }
  }

  /** Prefixes `s` to a successful decoding; an exception passes through unchanged. */
  function Prepend(s: string, r: Result<string>): (p: Result<string>)
    ensures p.Ok? <==> r.Ok?
    ensures p.Ok? ==> p.value == s + r.value
    ensures p.Err? ==> p.error == r.error
  {
    match r
    case Ok(v) => Ok(s + v)
    case Err(e) => Err(e)
  }
}
