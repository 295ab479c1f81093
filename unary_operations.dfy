/** The unary operator table (unary_operations.rs). Execution on floats is not modelled. */
module UnaryOperations {
  import opened GenericError

  datatype UnaryOp = SquareRoot | Cos | Acos | Sin

  /** The name the table accepts for the square root: the three characters U+00E2, U+02C6
      and U+0161 that the UTF-8 bytes of the radical sign read as in Windows-1252. */
  const SquareRootName: string := "\U{00E2}\U{02C6}\U{0161}"

  /** The name an operator is written with; the inverse of `TryFrom`. */
  function Name(op: UnaryOp): string {
    match op
    case SquareRoot => SquareRootName
    case Cos => "cos"
    case Acos => "acos"
    case Sin => "sin"
  }

  /** `UnaryOp::try_from(&str)`: exact matching against the four names. */
  function TryFrom(s: string): (r: Result<UnaryOp>)
    ensures r.Ok? <==> s == SquareRootName || s == "cos" || s == "acos" || s == "sin"
    ensures r.Ok? ==> Name(r.value) == s
    ensures r.Err? ==> r.error == OperationNotImplemented
  {
    if s == SquareRootName then Ok(SquareRoot)
    else if s == "cos" then Ok(Cos)
    else if s == "acos" then Ok(Acos)
    else if s == "sin" then Ok(Sin)
    else Err(OperationNotImplemented)
  }

  /** Every operator is found again from its name. */
  lemma TryFromName(op: UnaryOp)
    ensures TryFrom(Name(op)) == Ok(op)
  {
  }

  /** Distinct accepted names give distinct operators. */
  lemma TryFromInjective(a: string, b: string)
    requires TryFrom(a).Ok? && TryFrom(b).Ok? && a != b
    ensures TryFrom(a).value != TryFrom(b).value
  {
  }

  /** Matching is exact: a prefix, a different case or a trailing space is not a name. */
  lemma TryFromRejectsNearMisses()
    ensures TryFrom("co") == Err(OperationNotImplemented)
    ensures TryFrom("Cos") == Err(OperationNotImplemented)
    ensures TryFrom("acos ") == Err(OperationNotImplemented)
    ensures TryFrom("sqrt") == Err(OperationNotImplemented)
    ensures TryFrom("\U{221A}") == Err(OperationNotImplemented)
  {
  }
}
