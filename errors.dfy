/** The library's error value (error.go, repeated verbatim in whisper.go). */
module Errors {

  /** An error carries a human-readable text and a numeric code; the
      command-line front end uses the code as the process exit status.
      Both fields are immutable once the value is built. */
  datatype Error = Error(text: string, code: int) {

    /** Go's `Error()` accessor: the text the value was built with. */
    function Text(): string
    {
      text
    }

    /** Go's `Code()` accessor: the code the value was built with. */
    function Code(): int
    {
      code
    }
  }

  /** Both accessors give back exactly what the value was constructed from,
      and reading them leaves the value as it was. */
  lemma AccessorsReturnConstruction(t: string, c: int)
    ensures Error(t, c).Text() == t
    ensures Error(t, c).Code() == c
  {
  }

  /** Two errors are equal exactly when both accessors agree on them. */
  lemma AccessorsDetermineError(e1: Error, e2: Error)
    ensures e1 == e2 <==> (e1.Text() == e2.Text() && e1.Code() == e2.Code())
  {
  }
}
