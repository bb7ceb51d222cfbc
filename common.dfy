/** Values shared by both repositories: optional values, JavaScript-style
    arguments, the error taxonomy and the result wrapper. */
module Common {

  datatype Option<+T> = None | Some(value: T)

  /** A property of a JavaScript argument object. `Absent` is `undefined`
      (the key was not given), `Null` is an explicit `null`, `Given` any
      other value. The job filter tests `!== undefined`, so `Null` counts
      as present. */
  datatype Arg<+T> = Absent | Null | Given(value: T)

  /** Faults the relational store raises on its own; the repositories
      pass them to their caller unchanged. */
  datatype Fault =
    | UniqueViolation(column: string)
    | ForeignKeyViolation(column: string)
    | UnknownColumn(column: string)
    | InvalidValue(column: string)
    | NotNullViolation(column: string)
    | RepeatedColumn(column: string)
    | BindError

  /** `NotFound` and `BadRequest` are the two error classes the models
      raise themselves; `StoreFault` is anything the store raised. */
  datatype Error =
    | NotFound(message: string)
    | BadRequest(message: string)
    | StoreFault(fault: Fault)

  datatype Result<+T> = Success(value: T) | Failure(error: Error)

  function DigitChar(d: nat): char
    requires d < 10
  {
    "0123456789"[d]
  }

  function NatToString(n: nat): string
    decreases n
  {
    if n < 10 then [DigitChar(n)] else NatToString(n / 10) + [DigitChar(n % 10)]
  }

  /** The decimal text JavaScript interpolates for an integer. */
  function IntToString(i: int): string {
    if i < 0 then "-" + NatToString(-i) else NatToString(i)
  }
}
