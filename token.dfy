/** Tokens of the calculator and the one-character step of the tokeniser (token.rs). */
module Tokens {
  import opened GenericError

  /** One lexical unit. `None` is the "nothing accumulated yet" sentinel of the tokeniser. */
  datatype Token =
    | None
    | Integer(text: string)
    | Float(text: string)
    | Operation(op: char)
    | ParenthesisOpen
    | ParenthesisClose

  predicate IsDigit(c: char) {
    '0' <= c <= '9'
  }

  /** The four characters the tokeniser classifies as an operation. */
  predicate IsOperatorChar(c: char) {
    c == '+' || c == '*' || c == '/' || c == '-'
  }

  /** Characters that can be part of a numeral: digits and the decimal point. */
  predicate IsNumeralChar(c: char) {
    IsDigit(c) || c == '.'
  }

  predicate IsNumeral(t: Token) {
    t.Integer? || t.Float?
  }

  /** The characters of the input a token stands for. */
  function Text(t: Token): string {
    match t
    case None => ""
    case Integer(s) => s
    case Float(s) => s
    case Operation(c) => [c]
    case ParenthesisOpen => "("
    case ParenthesisClose => ")"
  }

  /** The text carried by an optional token, empty when there is none. */
  function OptionText(o: Option<Token>): string {
    match o
    case None => ""
    case Some(t) => Text(t)
  }

  /** A token the tokeniser can produce: a non-empty digit run, a digit run with exactly
      one decimal point, one of the four operator characters, or a parenthesis. */
  predicate WellFormed(t: Token) {
    match t
    case None => false
    case Integer(s) => |s| > 0 && forall i :: 0 <= i < |s| ==> IsDigit(s[i])
    case Float(s) => multiset(s)['.'] == 1 && forall i :: 0 <= i < |s| ==> IsNumeralChar(s[i])
    case Operation(c) => IsOperatorChar(c)
    case ParenthesisOpen => true
    case ParenthesisClose => true
  }

  /** `Token::new`: classifies one character on its own; unknown characters give `None`. */
  function New(c: char): (t: Token)
    ensures t.Integer? <==> IsDigit(c)
    ensures t.Float? <==> c == '.'
    ensures t.Operation? <==> IsOperatorChar(c)
    ensures t.ParenthesisOpen? <==> c == '('
    ensures t.ParenthesisClose? <==> c == ')'
    ensures !t.None? ==> WellFormed(t) && Text(t) == [c]
  {
    if IsDigit(c) then Integer([c])
    else if IsOperatorChar(c) then Operation(c)
    else if c == '.' then Float(".")
    else if c == '(' then ParenthesisOpen
    else if c == ')' then ParenthesisClose
    else Token.None
  }

  /** `Token::get_grade`: only the operator tokens are graded; `+` and `-` always grade 0,
      `*` and `/` grade one million per enclosing parenthesis. */
  function GetGrade(t: Token, parenthesis: nat): (g: Option<nat>)
    ensures g.Some? <==> t.Operation? && IsOperatorChar(t.op)
    ensures t == Operation('+') || t == Operation('-') ==> g == Some(0)
    ensures t == Operation('*') || t == Operation('/') ==> g == Some(parenthesis * 1_000_000)
    ensures parenthesis == 0 && g.Some? ==> g.value == 0
  {
    match t
    case Operation('*') => Some(1 * parenthesis * 1_000_000)
    case Operation('/') => Some(1 * parenthesis * 1_000_000)
    case Operation('+') => Some(0 * parenthesis * 1_000_000)
    case Operation('-') => Some(0 * parenthesis * 1_000_000)
    case _ => Option.None
  }

  /** `Token::can_be_followed_by`: the adjacency rule of the validator. */
  function CanBeFollowedBy(previous: Token, other: Token): (r: bool)
    ensures r <==> !(previous.None? || other.None?
                     || (previous.Operation? && (other.Operation? || other.ParenthesisClose?))
                     || (IsNumeral(previous) && other.ParenthesisOpen?))
  {
    match (previous, other)
    case (_, None) => false
    case (None, _) => false
    case (Operation(_), Operation(_)) => false
    case (Operation(_), ParenthesisClose) => false
    case (Float(_), ParenthesisOpen) => false
    case (Integer(_), ParenthesisOpen) => false
    case _ => true
  }

  /** `Token::in_none`: the sentinel, which is never a well-formed token and spells nothing. */
  predicate InNone(t: Token): (r: bool)
    ensures r <==> t == Token.None
    ensures r ==> !WellFormed(t) && Text(t) == []
  {
    t.None?
  }

  /** `Token::digest`: feeds one character to the token under construction. On success it
      returns the (possibly extended) token under construction and, when the character
      starts a new token, that new token, which means the first one is committed. */
  function Digest(current: Token, c: char): (r: Result<(Token, Option<Token>)>)
    // the two error cases, and nothing else fails
    ensures r.Err? <==> New(c).None? || (current.Float? && c == '.')
    ensures New(c).None? ==> r == Err(InvalidToken)
    ensures !New(c).None? && current.Float? && c == '.' ==> r == Err(TooManyDots)
    // what it returns is never the sentinel, and no character is lost or invented
    ensures r.Ok? ==> !r.value.0.None?
    ensures r.Ok? ==> Text(r.value.0) + OptionText(r.value.1) == Text(current) + [c]
    // it commits exactly when there is a token under construction that cannot absorb c
    ensures r.Ok? ==> (r.value.1.None? <==> current.None? || (IsNumeral(current) && IsNumeralChar(c)))
    ensures r.Ok? && r.value.1.Some? ==> r.value.0 == current && r.value.1.value == New(c)
    ensures r.Ok? && r.value.1.Some? ==> !(IsNumeral(r.value.0) && IsNumeral(r.value.1.value))
    // starting from the sentinel gives the classified character; a merge keeps a numeral,
    // which is a Float as soon as either part holds the decimal point
    ensures r.Ok? && current.None? ==> r.value.0 == New(c)
    ensures r.Ok? && r.value.1.None? && !current.None? ==>
              IsNumeral(r.value.0) && (r.value.0.Float? <==> current.Float? || c == '.')
    // well-formed tokens stay well-formed
    ensures r.Ok? && (current.None? || WellFormed(current)) ==>
              WellFormed(r.value.0) && (r.value.1.Some? ==> WellFormed(r.value.1.value))
  {
    var other := New(c);
    if InNone(other) then
      Err(InvalidToken)
    else
      match (current, other)
      case (None, _) => Ok((other, Option.None))
      case (Integer(n), Integer(o)) => Ok((Integer(n + o), Option.None))
      case (Float(n), Integer(o)) => Ok((Float(n + o), Option.None))
      case (Integer(n), Float(f)) => Ok((Float(n + f), Option.None))
      case (Float(_), Float(_)) => Err(TooManyDots)
      case _ => Ok((current, Some(other)))
  }
}
