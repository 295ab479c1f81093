/** Token sequences with a validity tag: the tokeniser loop, the validator and the splitter
    (token_set.rs). */
module TokenSets {
  import opened GenericError
  import opened Tokens
  import opened TokenTrees

  /** The two tags. They record intent only: Dafny cannot hide the constructor, so any module
      can build a `TokenSet<Valid>`. */
  datatype Invalid = Invalid
  datatype Valid = Valid

  datatype TokenSet<Tag> = TokenSet(tokens: seq<Token>)

  /** The input text a token sequence stands for. */
  function Concat(ts: seq<Token>): string {
    if ts == [] then "" else Concat(ts[..|ts| - 1]) + Text(ts[|ts| - 1])
  }

  predicate AllWellFormed(ts: seq<Token>) {
    forall i :: 0 <= i < |ts| ==> WellFormed(ts[i])
  }

  predicate NoAdjacentNumerals(ts: seq<Token>) {
    forall i :: 0 <= i < |ts| - 1 ==> !(IsNumeral(ts[i]) && IsNumeral(ts[i + 1]))
  }

  // ---------------------------------------------------------------------------------------
  // Tokeniser

  /** What the tokeniser loop computes from the committed tokens `acc`, the token under
      construction `current`, and the characters `s` still to read. */
  function Scan(acc: seq<Token>, current: Token, s: string): (r: Result<seq<Token>>)
    // a committed token is never taken back
    ensures r.Ok? ==> acc <= r.value
    decreases |s|
  {
    if s == [] then
      Ok(if InNone(current) then acc else acc + [current])
    else
      var d := Digest(current, s[0]);
      if d.Err? then Err(d.error)
      else if d.value.1.Some? then Scan(acc + [d.value.0], d.value.1.value, s[1..])
      else Scan(acc, d.value.0, s[1..])
  }

  lemma {:induction false} ConcatAppend(ts: seq<Token>, t: Token)
    ensures Concat(ts + [t]) == Concat(ts) + Text(t)
  {
    assert (ts + [t])[..|ts|] == ts;
  }

  lemma {:induction false} NoAdjacentExtend(acc: seq<Token>, a: Token, b: Token)
    requires NoAdjacentNumerals(acc + [a]) && !(IsNumeral(a) && IsNumeral(b))
    ensures NoAdjacentNumerals(acc + [a] + [b])
  {
    var ts := acc + [a] + [b];
    forall i | 0 <= i < |ts| - 1
      ensures !(IsNumeral(ts[i]) && IsNumeral(ts[i + 1]))
    {
      if i < |acc| {
        assert ts[i] == (acc + [a])[i] && ts[i + 1] == (acc + [a])[i + 1];
      }
    }
  }

  lemma {:induction false} NoAdjacentReplaceLast(acc: seq<Token>, a: Token, b: Token)
    requires NoAdjacentNumerals(acc + [a]) && (acc == [] || IsNumeral(a))
    ensures NoAdjacentNumerals(acc + [b])
  {
    var ts := acc + [b];
    forall i | 0 <= i < |ts| - 1
      ensures !(IsNumeral(ts[i]) && IsNumeral(ts[i + 1]))
    {
      assert ts[i] == (acc + [a])[i];
      if i + 1 < |acc| {
        assert ts[i + 1] == (acc + [a])[i + 1];
      } else {
        assert (acc + [a])[i + 1] == a;
      }
    }
  }

  lemma {:induction false} AllWellFormedAppend(acc: seq<Token>, t: Token)
    requires AllWellFormed(acc) && WellFormed(t)
    ensures AllWellFormed(acc + [t])
  {
  }

  lemma Regroup(prefix: string, current: string, s: string, x: string, y: string)
    requires s != [] && x + y == current + [s[0]]
    ensures prefix + current + s == prefix + x + y + s[1..]
  {
    calc {
      prefix + current + s;
      { assert s == [s[0]] + s[1..]; }
      prefix + (current + [s[0]]) + s[1..];
      prefix + (x + y) + s[1..];
      prefix + x + y + s[1..];
    }
  }

  /** The loop loses and invents no character: the committed tokens, the token under
      construction and the unread characters always spell the input. */
  lemma {:induction false} ScanText(acc: seq<Token>, current: Token, s: string)
    ensures Scan(acc, current, s).Ok? ==>
              Concat(Scan(acc, current, s).value) == Concat(acc) + Text(current) + s
    decreases |s|
  {
    if s == [] {
      ConcatAppend(acc, current);
      return;
    }
    var d := Digest(current, s[0]);
    if d.Ok? {
      var built := d.value.0;
      if d.value.1.Some? {
        var next := d.value.1.value;
        assert Scan(acc, current, s) == Scan(acc + [built], next, s[1..]);
        ConcatAppend(acc, built);
        ScanText(acc + [built], next, s[1..]);
        Regroup(Concat(acc), Text(current), s, Text(built), Text(next));
      } else {
        assert Scan(acc, current, s) == Scan(acc, built, s[1..]);
        ScanText(acc, built, s[1..]);
        Regroup(Concat(acc), Text(current), s, Text(built), "");
      }
    }
  }

  /** The loop commits only well-formed tokens and never commits a numeral right after
      another numeral. */
  lemma {:induction false} ScanShape(acc: seq<Token>, current: Token, s: string)
    requires current.None? ==> acc == []
    requires AllWellFormed(acc) && (current.None? || WellFormed(current))
    requires NoAdjacentNumerals(acc + [current])
    ensures Scan(acc, current, s).Ok? ==>
              AllWellFormed(Scan(acc, current, s).value) && NoAdjacentNumerals(Scan(acc, current, s).value)
    decreases |s|
  {
    if s == [] {
      if !current.None? {
        AllWellFormedAppend(acc, current);
      }
      return;
    }
    var d := Digest(current, s[0]);
    if d.Ok? {
      var built := d.value.0;
      if d.value.1.Some? {
        var next := d.value.1.value;
        AllWellFormedAppend(acc, built);
        NoAdjacentExtend(acc, built, next);
        ScanShape(acc + [built], next, s[1..]);
      } else {
        NoAdjacentReplaceLast(acc, current, built);
        ScanShape(acc, built, s[1..]);
      }
    }
  }

  /** Once the loop has failed, the characters after the failure cannot change the outcome. */
  lemma {:induction false} ScanErrorPersists(acc: seq<Token>, current: Token, p: string, q: string)
    requires Scan(acc, current, p).Err?
    ensures Scan(acc, current, p + q) == Scan(acc, current, p)
    decreases |p|
  {
    assert p != [];
    assert (p + q)[0] == p[0] && (p + q)[1..] == p[1..] + q;
    match Digest(current, p[0])
    case Err(_) =>
    case Ok((built, Some(next))) => ScanErrorPersists(acc + [built], next, p[1..], q);
    case Ok((built, None)) => ScanErrorPersists(acc, built, p[1..], q);
  }

  /** Only the two errors of `Digest` can come out of the loop. */
  lemma {:induction false} ScanErrors(acc: seq<Token>, current: Token, s: string)
    ensures Scan(acc, current, s).Err? ==>
              Scan(acc, current, s).error == TooManyDots || Scan(acc, current, s).error == InvalidToken
    decreases |s|
  {
    if s != [] {
      match Digest(current, s[0])
      case Err(_) =>
      case Ok((built, Some(next))) => ScanErrors(acc + [built], next, s[1..]);
      case Ok((built, None)) => ScanErrors(acc, built, s[1..]);
    }
  }

  /** The result of `TokenSet::new` as a function of the input. */
  function Tokenize(s: string): (r: Result<TokenSet<Invalid>>)
    ensures s == "" ==> r == Ok(TokenSet([]))
    ensures r.Ok? ==> Concat(r.value.tokens) == s
    ensures r.Ok? ==> AllWellFormed(r.value.tokens) && NoAdjacentNumerals(r.value.tokens)
    ensures r.Ok? ==> Token.None !in r.value.tokens
    ensures r.Err? ==> r.error == TooManyDots || r.error == InvalidToken
  {
    assert [] + [Token.None] == [Token.None];
    ScanText([], Token.None, s);
    ScanShape([], Token.None, s);
    ScanErrors([], Token.None, s);
    match Scan([], Token.None, s)
    case Ok(ts) => WellFormedNotSentinel(ts); Ok(TokenSet(ts))
    case Err(e) => Err(e)
  }

  lemma WellFormedNotSentinel(ts: seq<Token>)
    requires AllWellFormed(ts)
    ensures Token.None !in ts
  {
  }

  /** A failure in a prefix of the input is the failure of the whole input. */
  lemma TokenizeErrorPersists(p: string, q: string)
    requires Tokenize(p).Err?
    ensures Tokenize(p + q) == Tokenize(p)
  {
    ScanErrorPersists([], Token.None, p, q);
  }

  /** The run of numeral characters at the end of `p`: the text of the numeral the loop is
      building after reading `p`. */
  function TrailingNumeral(p: string): string {
    if p == [] || !IsNumeralChar(p[|p| - 1]) then [] else TrailingNumeral(p[..|p| - 1]) + [p[|p| - 1]]
  }

  /** Reading character `i` of `s` fails: the character is unknown, or it is a second
      decimal point in the numeral that ends just before it. */
  predicate FailsAt(s: string, i: nat)
    requires i < |s|
  {
    Tokens.New(s[i]).None? || (s[i] == '.' && '.' in TrailingNumeral(s[..i]))
  }

  /** The error reported for a character that fails. */
  function ErrorAt(s: string, i: nat): ParsingTokenError
    requires i < |s|
  {
    if Tokens.New(s[i]).None? then InvalidToken else TooManyDots
  }

  /** What the token under construction tells about the characters `p` read so far. */
  predicate Reading(current: Token, p: string) {
    (current.None? <==> p == [])
    && (current.Float? <==> '.' in TrailingNumeral(p))
    && (!IsNumeral(current) ==> TrailingNumeral(p) == [])
  }

  /** One step of the loop fails exactly when the character fails, and keeps `Reading`. */
  lemma {:induction false} DigestReading(current: Token, s: string, i: nat)
    requires i < |s| && Reading(current, s[..i])
    ensures Digest(current, s[i]).Err? <==> FailsAt(s, i)
    ensures Digest(current, s[i]).Err? ==> Digest(current, s[i]).error == ErrorAt(s, i)
    ensures Digest(current, s[i]).Ok? ==>
              var d := Digest(current, s[i]).value;
              Reading(if d.1.Some? then d.1.value else d.0, s[..i + 1])
  {
    assert s[..i + 1][..i] == s[..i];
    assert s[..i + 1][i] == s[i];
  }

  lemma {:induction false} ScanSucceeds(acc: seq<Token>, current: Token, s: string, i: nat)
    requires i <= |s| && Reading(current, s[..i])
    requires forall j :: i <= j < |s| ==> !FailsAt(s, j)
    ensures Scan(acc, current, s[i..]).Ok?
    decreases |s| - i
  {
    if i < |s| {
      assert s[i..][0] == s[i] && s[i..][1..] == s[i + 1..];
      DigestReading(current, s, i);
      var d := Digest(current, s[i]).value;
      if d.1.Some? {
        ScanSucceeds(acc + [d.0], d.1.value, s, i + 1);
      } else {
        ScanSucceeds(acc, d.0, s, i + 1);
      }
    }
  }

  lemma {:induction false} ScanFirstFailure(acc: seq<Token>, current: Token, s: string, i: nat, k: nat)
    requires i <= k < |s| && Reading(current, s[..i])
    requires FailsAt(s, k) && forall j :: i <= j < k ==> !FailsAt(s, j)
    ensures Scan(acc, current, s[i..]) == Err(ErrorAt(s, k))
    decreases k - i
  {
    assert s[i..][0] == s[i] && s[i..][1..] == s[i + 1..];
    DigestReading(current, s, i);
    if i < k {
      var d := Digest(current, s[i]).value;
      if d.1.Some? {
        ScanFirstFailure(acc + [d.0], d.1.value, s, i + 1, k);
      } else {
        ScanFirstFailure(acc, d.0, s, i + 1, k);
      }
    }
  }

  /** An input none of whose characters fails is tokenised. */
  lemma TokenizeSucceeds(s: string)
    requires forall i :: 0 <= i < |s| ==> !FailsAt(s, i)
    ensures Tokenize(s).Ok?
  {
    assert s[..0] == [] && s[0..] == s;
    ScanSucceeds([], Token.None, s, 0);
  }

  /** The first character that fails decides the error, whatever follows it. */
  lemma TokenizeFirstFailure(s: string, k: nat)
    requires k < |s| && FailsAt(s, k)
    requires forall j :: 0 <= j < k ==> !FailsAt(s, j)
    ensures Tokenize(s) == Err(ErrorAt(s, k))
  {
    assert s[..0] == [] && s[0..] == s;
    ScanFirstFailure([], Token.None, s, 0, k);
  }

  /** A decimal point in the trailing numeral is a decimal point of the text. */
  lemma {:induction false} TrailingNumeralIn(p: string)
    ensures '.' in TrailingNumeral(p) ==> '.' in p
    decreases |p|
  {
    if p != [] && IsNumeralChar(p[|p| - 1]) {
      TrailingNumeralIn(p[..|p| - 1]);
      assert p == p[..|p| - 1] + [p[|p| - 1]];
    }
  }

  /** The number of decimal points in a text. */
  function Dots(s: string): nat {
    if s == [] then 0 else (if s[0] == '.' then 1 else 0) + Dots(s[1..])
  }

  lemma {:induction false} DotsCount(s: string)
    ensures Dots(s) == multiset(s)['.']
    decreases |s|
  {
    if s != [] {
      DotsCount(s[1..]);
      assert s == [s[0]] + s[1..];
    }
  }

  /** In a text of known characters with at most one decimal point no character fails. */
  lemma NoFailureOneDot(s: string)
    requires forall c :: c in s ==> !Tokens.New(c).None?
    requires Dots(s) <= 1
    ensures forall i :: 0 <= i < |s| ==> !FailsAt(s, i)
  {
    DotsCount(s);
    forall i | 0 <= i < |s|
      ensures !FailsAt(s, i)
    {
      assert s[i] in s;
      TrailingNumeralIn(s[..i]);
      assert s == s[..i] + [s[i]] + s[i + 1..];
    }
  }

  /** An input of known characters with at most one decimal point in all is tokenised. */
  lemma TokenizeSucceedsOneDot(s: string)
    requires forall c :: c in s ==> !Tokens.New(c).None?
    requires Dots(s) <= 1
    ensures Tokenize(s).Ok?
  {
    NoFailureOneDot(s);
    TokenizeSucceeds(s);
  }

  /** An unknown character after a text that reads without failing is the error, whatever
      follows it. */
  lemma UnknownCharacterFails(p: string, c: char, q: string)
    requires forall j :: 0 <= j < |p| ==> !FailsAt(p, j)
    requires Tokens.New(c).None?
    ensures Tokenize(p + [c] + q) == Err(InvalidToken)
  {
    var s := p + [c] + q;
    forall j | 0 <= j < |p|
      ensures !FailsAt(s, j)
    {
      assert s[..j] == p[..j] && s[j] == p[j];
      assert !FailsAt(p, j);
    }
    assert s[|p|] == c;
    TokenizeFirstFailure(s, |p|);
  }

  /** An input of known characters without a decimal point is tokenised. */
  lemma TokenizeSucceedsNoDot(s: string)
    requires forall c :: c in s ==> !Tokens.New(c).None? && c != '.'
    ensures Tokenize(s).Ok?
  {
    DotsCount(s);
    assert '.' !in s;
    TokenizeSucceedsOneDot(s);
  }

  // ---------------------------------------------------------------------------------------
  // The tokenisation is the only split of the input into well-formed tokens in which no
  // numeral directly follows another.

  lemma {:induction false} TrailingNumeralAfter(p: string, t: string)
    requires p == [] || !IsNumeralChar(p[|p| - 1])
    requires forall i :: 0 <= i < |t| ==> IsNumeralChar(t[i])
    ensures TrailingNumeral(p + t) == t
    decreases |t|
  {
    if t == [] {
      assert p + t == p;
    } else {
      var init := t[..|t| - 1];
      assert (p + t)[..|p + t| - 1] == p + init;
      TrailingNumeralAfter(p, init);
      assert init + [t[|t| - 1]] == t;
    }
  }

  /** The text of a well-formed token is non-empty, made of numeral characters for a
      numeral and of one other character otherwise. */
  lemma WellFormedText(t: Token)
    requires WellFormed(t)
    ensures |Text(t)| > 0
    ensures IsNumeral(t) ==> forall i :: 0 <= i < |Text(t)| ==> IsNumeralChar(Text(t)[i])
    ensures !IsNumeral(t) ==> |Text(t)| == 1 && !IsNumeralChar(Text(t)[0])
  {
    if t.Float? {
      assert '.' in multiset(t.text);
    }
  }

  /** Well-formed tokens with the same text are the same token. */
  lemma TextDeterminesToken(x: Token, y: Token)
    requires WellFormed(x) && WellFormed(y) && Text(x) == Text(y)
    ensures x == y
  {
  }

  lemma {:induction false} ConcatNonEmpty(ts: seq<Token>)
    requires AllWellFormed(ts) && ts != []
    ensures |Concat(ts)| >= |Text(ts[|ts| - 1])| > 0
  {
    WellFormedText(ts[|ts| - 1]);
  }

  /** The text of a final numeral is the run of numeral characters the text ends with. */
  lemma {:induction false} LastNumeralText(ts: seq<Token>)
    requires AllWellFormed(ts) && NoAdjacentNumerals(ts) && ts != [] && IsNumeral(ts[|ts| - 1])
    ensures Text(ts[|ts| - 1]) == TrailingNumeral(Concat(ts))
  {
    var init, last := ts[..|ts| - 1], ts[|ts| - 1];
    WellFormedText(last);
    if init != [] {
      var before := init[|init| - 1];
      assert before == ts[|ts| - 2];
      WellFormedText(before);
      var p := Concat(init);
      assert p == Concat(init[..|init| - 1]) + Text(before);
      assert p[|p| - 1] == Text(before)[0];
    }
    TrailingNumeralAfter(Concat(init), Text(last));
  }

  lemma {:induction false} DecompositionPrefix(ts: seq<Token>)
    requires AllWellFormed(ts) && NoAdjacentNumerals(ts) && ts != []
    ensures AllWellFormed(ts[..|ts| - 1]) && NoAdjacentNumerals(ts[..|ts| - 1])
    ensures Concat(ts) == Concat(ts[..|ts| - 1]) + Text(ts[|ts| - 1])
  {
    var init := ts[..|ts| - 1];
    forall i | 0 <= i < |init| - 1
      ensures !(IsNumeral(init[i]) && IsNumeral(init[i + 1]))
    {
      assert init[i] == ts[i] && init[i + 1] == ts[i + 1];
    }
  }

  lemma PrefixCancel(a: string, b: string, t: string)
    requires a + t == b + t
    ensures a == b
  {
    assert a == (a + t)[..|a|];
  }

  /** Two such splits of one text end with the same token. */
  lemma LastTokenUnique(xs: seq<Token>, ys: seq<Token>)
    requires AllWellFormed(xs) && NoAdjacentNumerals(xs) && xs != []
    requires AllWellFormed(ys) && NoAdjacentNumerals(ys) && ys != []
    requires Concat(xs) == Concat(ys)
    ensures xs[|xs| - 1] == ys[|ys| - 1]
  {
    var s := Concat(xs);
    var x, y := xs[|xs| - 1], ys[|ys| - 1];
    WellFormedText(x);
    WellFormedText(y);
    ConcatNonEmpty(xs);
    ConcatNonEmpty(ys);
    assert Text(x) == s[|s| - |Text(x)|..];
    assert Text(y) == s[|s| - |Text(y)|..];
    if IsNumeral(x) && IsNumeral(y) {
      LastNumeralText(xs);
      LastNumeralText(ys);
    } else if IsNumeral(x) {
      assert false;
    } else if IsNumeral(y) {
      assert false;
    }
    TextDeterminesToken(x, y);
  }

  lemma {:induction false} DecompositionUnique(xs: seq<Token>, ys: seq<Token>)
    requires AllWellFormed(xs) && NoAdjacentNumerals(xs)
    requires AllWellFormed(ys) && NoAdjacentNumerals(ys)
    requires Concat(xs) == Concat(ys)
    ensures xs == ys
    decreases |xs| + |ys|
  {
    if xs == [] || ys == [] {
      if xs != [] {
        ConcatNonEmpty(xs);
      }
      if ys != [] {
        ConcatNonEmpty(ys);
      }
      return;
    }
    DecompositionPrefix(xs);
    DecompositionPrefix(ys);
    LastTokenUnique(xs, ys);
    var x, xInit, yInit := xs[|xs| - 1], xs[..|xs| - 1], ys[..|ys| - 1];
    PrefixCancel(Concat(xInit), Concat(yInit), Text(x));
    DecompositionUnique(xInit, yInit);
    assert xs == xInit + [x] && ys == yInit + [x];
  }

  /** When the tokeniser succeeds, its tokens are the only well-formed split of the input
      with no numeral directly after another. */
  lemma TokenizeUnique(s: string, ts: seq<Token>)
    requires Tokenize(s).Ok?
    requires AllWellFormed(ts) && NoAdjacentNumerals(ts) && Concat(ts) == s
    ensures Tokenize(s) == Ok(TokenSet(ts))
  {
    DecompositionUnique(Tokenize(s).value.tokens, ts);
  }

  /** `TokenSet::new`: the character loop, committing a token whenever `Digest` starts a new one. */
  method New(s: string) returns (r: Result<TokenSet<Invalid>>)
    ensures r == Tokenize(s)
  {
    var result: seq<Token> := [];
    var currentToken := Token.None;
    for i := 0 to |s|
      invariant Scan(result, currentToken, s[i..]) == Scan([], Token.None, s)
    {
      assert s[i..][1..] == s[i + 1..];
      match Digest(currentToken, s[i]) {
        case Err(e) =>
          return Err(e);
        case Ok((built, Some(next))) =>
          result := result + [built];
          currentToken := next;
        case Ok((built, None)) =>
          currentToken := built;
      }
    }
    if !InNone(currentToken) {
      result := result + [currentToken];
    }
    return Ok(TokenSet(result));
  }

  // ---------------------------------------------------------------------------------------
  // Validator

  /** The change a token makes to the parenthesis counter. */
  function Delta(t: Token): (d: int)
    ensures -1 <= d <= 1
    ensures d == 1 <==> t.ParenthesisOpen?
    ensures d == -1 <==> t.ParenthesisClose?
  {
    match t
    case ParenthesisClose => -1
    case ParenthesisOpen => 1
    case _ => 0
  }

  /** The net parenthesis count of a sequence. */
  function Depth(ts: seq<Token>): int {
    if ts == [] then 0 else Delta(ts[0]) + Depth(ts[1..])
  }

  /** What the validator loop computes from the previous token, the counter, and the tokens
      still to check. The adjacency check of a token runs before its counter update. */
  function CheckFrom(previous: Token, count: int, rest: seq<Token>): (r: Result<()>)
    // success means the parentheses balance, and only the three validator errors occur
    ensures r.Ok? ==> count + Depth(rest) == 0
    ensures r.Err? ==> r.error in {InvalidSequence, ParenthesisClosedWithoutOpening,
                                   ParenthesisOpenedWithoutClosing}
    // an empty sequence is decided by the counter alone
    ensures rest == [] ==> (r.Ok? <==> count == 0)
    decreases |rest|
  {
    if rest == [] then
      if count != 0 then Err(ParenthesisOpenedWithoutClosing) else Ok(())
    else if !CanBeFollowedBy(previous, rest[0]) then
      Err(InvalidSequence)
    else if count + Delta(rest[0]) < 0 then
      Err(ParenthesisClosedWithoutOpening)
    else
      CheckFrom(rest[0], count + Delta(rest[0]), rest[1..])
  }

  /** The token before position `k` as the loop sees it. */
  function Before(previous: Token, ts: seq<Token>, k: nat): Token
    requires k <= |ts|
  {
    if k == 0 then previous else ts[k - 1]
  }

  /** Step `j` of the loop passes both of its checks. */
  predicate StepPasses(previous: Token, count: int, ts: seq<Token>, j: nat)
    requires j < |ts|
  {
    CanBeFollowedBy(Before(previous, ts, j), ts[j]) && count + Depth(ts[..j + 1]) >= 0
  }

  /** The first `k` steps of the loop pass both of their checks. */
  predicate StepsPass(previous: Token, count: int, ts: seq<Token>, k: nat)
    requires k <= |ts|
  {
    forall j :: 0 <= j < k ==> StepPasses(previous, count, ts, j)
  }

  /** Step `j + 1` of a run is step `j` of the run that starts after the first token. */
  lemma {:induction false} StepShift(previous: Token, count: int, ts: seq<Token>, j: nat)
    requires j + 1 < |ts|
    ensures StepPasses(previous, count, ts, j + 1)
            == StepPasses(ts[0], count + Delta(ts[0]), ts[1..], j)
  {
    assert ts[..j + 2][1..] == ts[1..][..j + 1];
    assert ts[..j + 2][0] == ts[0];
  }

  lemma {:induction false} DepthOfFirst(ts: seq<Token>)
    requires |ts| > 0
    ensures Depth(ts[..1]) == Delta(ts[0])
  {
    assert ts[..1][1..] == [];
  }

  /** When the first `k` steps pass and step `k` does not, step `k` decides the error: the
      adjacency check of a token comes before its counter check. */
  lemma {:induction false} CheckFromFirstFailure(previous: Token, count: int, ts: seq<Token>, k: nat)
    requires k < |ts| && StepsPass(previous, count, ts, k)
    ensures !CanBeFollowedBy(Before(previous, ts, k), ts[k]) ==>
              CheckFrom(previous, count, ts) == Err(InvalidSequence)
    ensures CanBeFollowedBy(Before(previous, ts, k), ts[k]) && count + Depth(ts[..k + 1]) < 0 ==>
              CheckFrom(previous, count, ts) == Err(ParenthesisClosedWithoutOpening)
    decreases k
  {
    DepthOfFirst(ts);
    if k > 0 {
      assert StepPasses(previous, count, ts, 0);
      var first, next, rest := ts[0], count + Delta(ts[0]), ts[1..];
      forall j | 0 <= j < k - 1
        ensures StepPasses(first, next, rest, j)
      {
        StepShift(previous, count, ts, j);
      }
      StepShift(previous, count, ts, k - 1);
      assert ts[..k + 1][1..] == ts[1..][..k];
      CheckFromFirstFailure(first, next, rest, k - 1);
    }
  }

  /** When every step passes, the final counter decides the outcome. */
  lemma {:induction false} CheckFromAllPass(previous: Token, count: int, ts: seq<Token>)
    requires StepsPass(previous, count, ts, |ts|)
    ensures CheckFrom(previous, count, ts) ==
              if count + Depth(ts) == 0 then Ok(()) else Err(ParenthesisOpenedWithoutClosing)
    decreases |ts|
  {
    if ts != [] {
      DepthOfFirst(ts);
      assert StepPasses(previous, count, ts, 0);
      var first, next, rest := ts[0], count + Delta(ts[0]), ts[1..];
      forall j | 0 <= j < |rest|
        ensures StepPasses(first, next, rest, j)
      {
        StepShift(previous, count, ts, j);
      }
      CheckFromAllPass(first, next, rest);
    }
  }

  /** The result of `TokenSet::validate` as a function of the unchecked set: the loop starts
      from the `None` sentinel and a counter of 0. */
  function Validated(tokenSet: TokenSet<Invalid>): (r: Result<TokenSet<Valid>>)
    ensures r.Ok? ==> r.value.tokens == tokenSet.tokens
    ensures |tokenSet.tokens| == 0 ==> r == Ok(TokenSet([]))
    // the sentinel can be followed by nothing, so the very first check fails
    ensures |tokenSet.tokens| > 0 ==> r == Err(InvalidSequence)
  {
    match CheckFrom(Token.None, 0, tokenSet.tokens)
    case Ok(_) => Ok(TokenSet(tokenSet.tokens))
    case Err(e) => Err(e)
  }

  /** `TokenSet::validate`: one left-to-right pass with the adjacency check and the
      parenthesis counter. */
  method Validate(tokenSet: TokenSet<Invalid>) returns (r: Result<TokenSet<Valid>>)
    ensures r == Validated(tokenSet)
    ensures |tokenSet.tokens| == 0 ==> r == Ok(TokenSet([]))
    ensures |tokenSet.tokens| > 0 ==> r == Err(InvalidSequence)
  {
    var parenthesisOpened: int := 0;
    var previousToken := Token.None;
    for i := 0 to |tokenSet.tokens|
      invariant CheckFrom(previousToken, parenthesisOpened, tokenSet.tokens[i..])
                == CheckFrom(Token.None, 0, tokenSet.tokens)
    {
      var token := tokenSet.tokens[i];
      assert tokenSet.tokens[i..][1..] == tokenSet.tokens[i + 1..];
      if !CanBeFollowedBy(previousToken, token) {
        return Err(InvalidSequence);
      }
      parenthesisOpened := parenthesisOpened + match token {
        case ParenthesisClose => -1
        case ParenthesisOpen => 1
        case _ => 0
      };
      if parenthesisOpened < 0 {
        return Err(ParenthesisClosedWithoutOpening);
      }
      previousToken := token;
    }
    if parenthesisOpened != 0 {
      return Err(ParenthesisOpenedWithoutClosing);
    }
    return Ok(TokenSet(tokenSet.tokens));
  }

  // ---------------------------------------------------------------------------------------
  // Splitter

  /** The indices a Rust inclusive range `lo..=hi` visits, in order. */
  function InclusiveRange(lo: nat, hi: nat): (r: seq<nat>)
    ensures |r| == if lo <= hi then hi - lo + 1 else 0
    ensures forall k :: 0 <= k < |r| ==> r[k] == lo + k
    decreases hi + 1 - lo
  {
    if lo > hi then [] else [lo] + InclusiveRange(lo + 1, hi)
  }

  /** The bound `lowest_grade` starts at and keeps: the loop never lowers it. */
  const UsizeMax: nat := 0xFFFF_FFFF_FFFF_FFFF

  /** The split-point scan over the given indices, with the parenthesis counter and the
      chosen index. `None` is a panic: an index past the end, or the unsigned counter
      going below 0. Any graded operator below `UsizeMax` is chosen, the last one winning,
      because `lowest_grade` is compared but never assigned. */
  function ScanLowestGrade(ts: seq<Token>, indices: seq<nat>, parenthesis: nat, lowestIndex: nat): (r: Option<nat>)
    // with nothing to visit the start index is kept; otherwise the result is the start
    // index or a visited index that holds an operator
    ensures indices == [] ==> r == Some(lowestIndex)
    ensures r.Some? && r.value != lowestIndex ==>
              r.value in indices && r.value < |ts| && ts[r.value].Operation?
    decreases |indices|
  {
    if indices == [] then Some(lowestIndex)
    else
      var index := indices[0];
      if index >= |ts| then Option.None
      else if ts[index].ParenthesisClose? then
        ScanLowestGrade(ts, indices[1..], parenthesis + 1, lowestIndex)
      else if ts[index].ParenthesisOpen? then
        if parenthesis == 0 then Option.None
        else ScanLowestGrade(ts, indices[1..], parenthesis - 1, lowestIndex)
      else
        var grade := GetGrade(ts[index], parenthesis);
        var chosen := if grade.Some? && grade.value < UsizeMax then index else lowestIndex;
        ScanLowestGrade(ts, indices[1..], parenthesis, chosen)
  }

  /** The split index the source computes: the scan runs over `|ts|..=0`. */
  function SplitIndex(ts: seq<Token>): (r: Option<nat>)
    requires |ts| > 0
    ensures r == Some(0)
  {
    ScanLowestGrade(ts, InclusiveRange(|ts|, 0), 0, 0)
  }

  /** The sets on which `split` returns: stripping a leading `(` and a trailing `)` over and
      over leaves exactly one token. */
  predicate Splittable(ts: seq<Token>)
    decreases |ts|
  {
    |ts| == 1
    || (|ts| >= 2 && ts[0] == ParenthesisOpen && ts[|ts| - 1] == ParenthesisClose
        && Splittable(ts[1..|ts| - 1]))
  }

  /** The token left after stripping outer parenthesis tokens, for a splittable tokenSet. */
  function Core(ts: seq<Token>): Token
    requires Splittable(ts)
    decreases |ts|
  {
    if |ts| == 1 then ts[0] else Core(ts[1..|ts| - 1])
  }

  /** `TokenSet::split` on any sequence, with `None` standing for its panic: indexing the
      first token of an empty tokenSet. Both children of an operation node come from the same
      prefix `ts[..i]`, as in the source. */
  function SplitTokens(ts: seq<Token>): (r: Option<TokenTree>)
    // whatever `split` returns is a leaf holding one of the set's tokens
    ensures r.Some? ==> r.value.Single? && r.value.token in ts
    // the empty set panics
    ensures ts == [] ==> r == Option.None
    decreases |ts|, 1
  {
    if |ts| == 1 then
      Some(Single(ts[0]))
    else if |ts| == 0 then
      Option.None
    else if ts[0] == ParenthesisOpen && ts[|ts| - 1] == ParenthesisClose then
      SplitTokens(ts[1..|ts| - 1])
    else
      match SplitIndex(ts)
      case None => Option.None
      case Some(i) => if i >= |ts| then Option.None else OperationNode(ts, i)
  }

  /** The operation node `split` builds around index `i`: the left child from the prefix
      before `i`, and the right child from that same prefix. */
  function OperationNode(ts: seq<Token>, i: nat): (r: Option<TokenTree>)
    requires i < |ts|
    ensures r.Some? ==> r.value.Operation? && r.value.op == ts[i] && r.value.left == r.value.right
    ensures i == 0 ==> r == Option.None
    decreases |ts|, 0
  {
    match (SplitTokens(ts[..i]), SplitTokens(ts[..i]))
    case (Some(left), Some(right)) => Some(TokenTree.Operation(left, ts[i], right))
    case _ => Option.None
  }

  /** The tokens after the operator play no part in the node. */
  lemma OperationNodeIgnoresRest(ts: seq<Token>, i: nat, rest: seq<Token>)
    requires i < |ts|
    ensures OperationNode(ts, i) == OperationNode(ts[..i + 1] + rest, i)
  {
    assert (ts[..i + 1] + rest)[..i] == ts[..i];
    assert (ts[..i + 1] + rest)[i] == ts[i];
  }

  /** `split` returns exactly on the splittable sets, and then always a single leaf holding
      the innermost token. */
  lemma {:induction false} SplitTokensOutcome(ts: seq<Token>)
    ensures SplitTokens(ts).Some? <==> Splittable(ts)
    ensures Splittable(ts) ==> SplitTokens(ts) == Some(Single(Core(ts)))
    decreases |ts|
  {
    if |ts| >= 2 {
      if ts[0] == ParenthesisOpen && ts[|ts| - 1] == ParenthesisClose {
        SplitTokensOutcome(ts[1..|ts| - 1]);
      } else {
        assert SplitTokens(ts[..0]) == Option.None;
        assert OperationNode(ts, 0) == Option.None;
      }
    }
  }

  /** The outer parenthesis tokens are removed whether or not they match each other. */
  lemma SplitStripsUnchecked(inner: seq<Token>)
    ensures SplitTokens([ParenthesisOpen] + inner + [ParenthesisClose]) == SplitTokens(inner)
  {
    var ts := [ParenthesisOpen] + inner + [ParenthesisClose];
    assert ts[1..|ts| - 1] == inner;
  }

  /** `TokenSet::split` on a set it returns on. */
  function Split(tokenSet: TokenSet<Valid>): (t: TokenTree)
    requires Splittable(tokenSet.tokens)
    ensures t == Single(Core(tokenSet.tokens))
    ensures Core(tokenSet.tokens) in tokenSet.tokens
  {
    SplitTokensOutcome(tokenSet.tokens);
    CoreIn(tokenSet.tokens);
    SplitTokens(tokenSet.tokens).value
  }

  lemma {:induction false} CoreIn(ts: seq<Token>)
    requires Splittable(ts)
    ensures Core(ts) in ts
    decreases |ts|
  {
    if |ts| != 1 {
      CoreIn(ts[1..|ts| - 1]);
    }
  }

  /** No set that `Validate` accepts can be split: the only accepted set is empty. */
  lemma ValidatedNeverSplittable(tokenSet: TokenSet<Invalid>)
    requires Validated(tokenSet).Ok?
    ensures !Splittable(Validated(tokenSet).value.tokens)
    ensures SplitTokens(Validated(tokenSet).value.tokens) == Option.None
  {
  }
}
