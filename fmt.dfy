/**
 The part of Go's fmt package that the localizer calls: Sprintf and Errorf.
 Format-verb semantics are not modelled; a formatter is an uninterpreted
 function from a template and its arguments to the formatted string.
 */
module Fmt {

  /** A Go value of any dynamic type, passed through `...any`. */
  type Value

  /** One argument of a formatting call. */
  datatype Arg = Int(n: int) | Other(v: Value)

  /** fmt.Sprintf: template and arguments to the formatted text. */
  type Sprintf = (string, seq<Arg>) -> string

  /** The error value fmt.Errorf builds: it carries the formatted message. */
  datatype Error = Error(message: string)

  /** fmt.Errorf without `%w` wrapping: format the message, then wrap it as an error. */
  function Errorf(sprintf: Sprintf, template: string, args: seq<Arg>): (e: Error)
    ensures e.message == sprintf(template, args)
  {
    Error(sprintf(template, args))
  }
}
