/**
 The structured error value of errors/errors.go: an API-style error with a
 numeric code, a message and an open list of detail records, together with
 the operations that build it and extend it.

 Go keeps the details as `[]interface{}`. Here a detail is a closed
 variant: `Info` stands for a `*ErrorInfo` pointer, the only shape the
 matching rule recognises, and `Other` for every other value (including a
 plain `ErrorInfo` struct that is not behind a pointer, which the Go type
 assertion does not accept either).
 */
module Errors {

  /** A detailed error code and message from the API front end. */
  datatype ErrorInfo = ErrorInfo(reason: string, message: string)

  /** One entry of an error's detail list. `Other` carries an opaque
      description of a value of any other dynamic type. */
  datatype Detail = Info(info: ErrorInfo) | Other(shape: string)

  /** An error response: the status code, the message and the details. */
  datatype Error = Error(code: int, message: string, details: seq<Detail>)

  /** The dynamic value behind a Go `error` handed to `Is`: either one of
      these structured errors or an error of some other type. */
  datatype Target = Structured(err: Error) | Foreign(description: string)

  /** Builds an error from its code, message and initial details, taking
      each verbatim and in order. */
  function New(code: int, message: string, details: seq<Detail>): (r: Error)
    ensures r.code == code && r.message == message
    ensures |r.details| == |details|
    ensures forall i :: 0 <= i < |details| ==> r.details[i] == details[i]
  {
    Error(code, message, details)
  }

  /** Builds an error with no details whose message is `format` expanded
      against `args` by the formatter `sprintf`, which is a parameter. */
  function Newf<A>(code: int, format: string, args: seq<A>, sprintf: (string, seq<A>) -> string): (r: Error)
    ensures r.code == code && r.message == sprintf(format, args)
    ensures r.details == []
  {
    New(code, sprintf(format, args), [])
  }

  /** The error with `extra` appended to its details: the code and message
      are kept, the old details stay in front in their order and the new
      ones follow in the order given. */
  function WithDetails(e: Error, extra: seq<Detail>): (r: Error)
    ensures r.code == e.code && r.message == e.message
    ensures |r.details| == |e.details| + |extra|
    ensures forall i :: 0 <= i < |e.details| ==> r.details[i] == e.details[i]
    ensures forall j :: 0 <= j < |extra| ==> r.details[|e.details| + j] == extra[j]
  {
    e.(details := e.details + extra)
  }

  /** Appending nothing changes nothing. */
  lemma WithNoDetails(e: Error)
    ensures WithDetails(e, []) == e
  {
  }

  /** Two appends in a row are one append of both lists. */
  lemma WithDetailsTwice(e: Error, a: seq<Detail>, b: seq<Detail>)
    ensures WithDetails(WithDetails(e, a), b) == WithDetails(e, a + b)
  {
    assert e.details + a + b == e.details + (a + b);
  }

  /** Extending a fresh error is the same as building it with all the
      details at once. */
  lemma NewThenWithDetails(code: int, message: string, a: seq<Detail>, b: seq<Detail>)
    ensures WithDetails(New(code, message, a), b) == New(code, message, a + b)
  {
  }

  /** After appending `x` then `y` the last two details are `x` then `y`,
      whatever came before. */
  lemma WithDetailsLastTwo(e: Error, x: Detail, y: Detail)
    ensures var r := WithDetails(WithDetails(e, [x]), [y]);
      |r.details| >= 2 && r.details[|r.details| - 2] == x && r.details[|r.details| - 1] == y
  {
  }
}
