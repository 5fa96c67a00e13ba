/** Shared vocabulary of the model: bytes, the Python exception kinds the
    library raises, and a failure-compatible Result type. */
module PyBase {

  /** One byte of a `bytes` object. */
  type byte = b: int | 0 <= b < 256

  /** The exception classes the modelled code raises or lets escape. */
  datatype Exc =
    | PdfReadError
    | PdfStreamError
    | EmptyFileError
    | ParseError
    | ValueError
    | TypeError
    | KeyError
    | IndexError
    | NameError
    | ImportError
    | AttributeError
    | AssertionError
    | ZeroDivisionError
    | NotImplementedError

  datatype Option<+T> = None | Some(value: T)

  /** Either a value or the exception the Python code would raise. */
  datatype Result<+T> = Ok(value: T) | Err(exc: Exc) {
    predicate IsFailure() {
      Err?
    }

    function PropagateFailure<U>(): Result<U>
      requires Err?
    {
      Err(exc)
    }

    function Extract(): T
      requires Ok?
    {
      value
    }
  }

  /** The bytes of an ASCII/Latin-1 literal such as `b"%PDF-"`. */
  function Latin1(s: string): (r: seq<byte>)
    requires forall i :: 0 <= i < |s| ==> s[i] as int < 256
    ensures |r| == |s|
    ensures forall i :: 0 <= i < |s| ==> r[i] == s[i] as int
  {
    if s == [] then [] else [s[0] as int as byte] + Latin1(s[1..])
  }

  /** Python's `min`/`max` on two ints. */
  function Min(a: int, b: int): int { if a <= b then a else b }
  function Max(a: int, b: int): int { if a >= b then a else b }

  /** Python's `bytes.find`/`in` helper: does `pat` occur in `s` at `i`? */
  predicate OccursAt(s: seq<byte>, pat: seq<byte>, i: int)
  {
    0 <= i && i + |pat| <= |s| && s[i..i + |pat|] == pat
  }

  /** 2 to the power n. */
  function Pow2(n: nat): (r: nat)
    ensures r >= 1
  {
    if n == 0 then 1 else 2 * Pow2(n - 1)
  }
}
