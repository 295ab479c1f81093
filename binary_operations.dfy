/** The binary operator table (binary_operations.rs). Execution on floats is not modelled. */
module BinaryOperations {
  import opened GenericError

  datatype BinaryOp = Sum | Sub | Mul | Div

  /** The character an operator is written with; the inverse of `TryFrom`. */
  function Symbol(op: BinaryOp): char {
    match op
    case Sum => '+'
    case Sub => '-'
    case Mul => '*'
    case Div => '/'
  }

  /** `BinaryOp::try_from(char)`: exactly the four operator characters are accepted. */
  function TryFrom(c: char): (r: Result<BinaryOp>)
    ensures r.Ok? <==> c == '+' || c == '-' || c == '*' || c == '/'
    ensures r.Ok? ==> Symbol(r.value) == c
    ensures r.Err? ==> r.error == OperationNotImplemented
  {
    match c
    case '+' => Ok(Sum)
    case '-' => Ok(Sub)
    case '*' => Ok(Mul)
    case '/' => Ok(Div)
    case _ => Err(OperationNotImplemented)
  }

  /** Every operator is found again from its character. */
  lemma TryFromSymbol(op: BinaryOp)
    ensures TryFrom(Symbol(op)) == Ok(op)
  {
  }

  /** Distinct accepted characters give distinct operators. */
  lemma TryFromInjective(a: char, b: char)
    requires TryFrom(a).Ok? && TryFrom(b).Ok? && a != b
    ensures TryFrom(a).value != TryFrom(b).value
  {
  }
}
