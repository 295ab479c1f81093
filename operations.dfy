/** The front of `parse_string` (mod.rs): spaces are removed, the text is tokenised, the
    tokens are validated and the validated set is split into a tree. */
module Operations {
  import opened GenericError
  import opened Tokens
  import opened TokenTrees
  import opened TokenSets
  import BinaryOperations

  /** `str::replace(" ", "")`: every space character is dropped, the rest kept in order. */
  function RemoveSpaces(s: string): (r: string)
    ensures ' ' !in r
  {
    if s == [] then []
    else (if s[0] == ' ' then [] else [s[0]]) + RemoveSpaces(s[1..])
  }

  /** Every other character is kept, as often as it occurs. */
  lemma {:induction false} RemoveSpacesKeepsOthers(s: string, c: char)
    requires c != ' '
    ensures multiset(RemoveSpaces(s))[c] == multiset(s)[c]
    decreases |s|
  {
    if s != [] {
      assert s == [s[0]] + s[1..];
      RemoveSpacesKeepsOthers(s[1..], c);
    }
  }

  /** Nothing is left exactly when the input is blank. */
  lemma {:induction false} RemoveSpacesBlank(s: string)
    ensures RemoveSpaces(s) == [] <==> forall i :: 0 <= i < |s| ==> s[i] == ' '
    decreases |s|
  {
    if s != [] {
      RemoveSpacesBlank(s[1..]);
      if forall i :: 0 <= i < |s[1..]| ==> s[1..][i] == ' ' {
        if s[0] == ' ' {
          forall i | 0 <= i < |s|
            ensures s[i] == ' '
          {
            if i > 0 {
              assert s[i] == s[1..][i - 1];
            }
          }
        }
      } else {
        var i :| 0 <= i < |s[1..]| && s[1..][i] != ' ';
        assert s[i + 1] != ' ';
      }
    }
  }

  lemma {:induction false} RemoveSpacesAppend(a: string, b: string)
    ensures RemoveSpaces(a + b) == RemoveSpaces(a) + RemoveSpaces(b)
    decreases |a|
  {
    if a != [] {
      var head := if a[0] == ' ' then [] else [a[0]];
      assert (a + b)[0] == a[0] && (a + b)[1..] == a[1..] + b;
      RemoveSpacesAppend(a[1..], b);
      calc {
        RemoveSpaces(a + b);
        head + RemoveSpaces(a[1..] + b);
        head + (RemoveSpaces(a[1..]) + RemoveSpaces(b));
        (head + RemoveSpaces(a[1..])) + RemoveSpaces(b);
        RemoveSpaces(a) + RemoveSpaces(b);
      }
    } else {
      assert a + b == b;
    }
  }

  /** A text without spaces is left as it is. */
  lemma {:induction false} RemoveSpacesKeeps(s: string)
    requires ' ' !in s
    ensures RemoveSpaces(s) == s
    decreases |s|
  {
    if s != [] {
      assert s[0] in s;
      assert forall c :: c in s[1..] ==> c in s;
      RemoveSpacesKeeps(s[1..]);
    }
  }

  /** `parse_string` up to the tree. Each `?` becomes `:-`. `Ok(None)` stands for the panic
      of `split` on the validated set. */
  function ParseString(input: string): (r: Result<Option<TokenTree>>)
    // errors of the tokeniser and of the validator come out unchanged
    ensures Tokenize(RemoveSpaces(input)).Err? ==> r == Err(Tokenize(RemoveSpaces(input)).error)
    ensures Tokenize(RemoveSpaces(input)).Ok? ==> r.Ok? == Validated(Tokenize(RemoveSpaces(input)).value).Ok?
    // as written, no input gives a tree: a blank input reaches `split` with no tokens, and
    // any other input that tokenises is refused by `validate`
    ensures r.Ok? ==> r.value == Option.None
    ensures r == Ok(Option.None) <==> forall i :: 0 <= i < |input| ==> input[i] == ' '
    ensures Tokenize(RemoveSpaces(input)).Ok? && Tokenize(RemoveSpaces(input)).value.tokens != [] ==>
              r == Err(InvalidSequence)
    ensures r.Err? ==> r.error in {TooManyDots, InvalidToken, InvalidSequence}
  {
    var stripped := RemoveSpaces(input);
    RemoveSpacesBlank(input);
    var tokens :- Tokenize(stripped);
    var valid :- Validated(tokens);
    SplitTokensOutcome(valid.tokens);
    Ok(SplitTokens(valid.tokens))
  }

  /** Spaces anywhere in the input make no difference. */
  lemma ParseStringIgnoresSpaces(a: string, b: string)
    ensures ParseString(a + " " + b) == ParseString(a + b)
  {
    SpaceIsRemoved(a, b);
  }

  lemma SpaceIsRemoved(a: string, b: string)
    ensures RemoveSpaces(a + " " + b) == RemoveSpaces(a + b)
  {
    calc {
      RemoveSpaces(a + " " + b);
      { RemoveSpacesAppend(a + " ", b); }
      RemoveSpaces(a + " ") + RemoveSpaces(b);
      { RemoveSpacesAppend(a, " "); assert RemoveSpaces(" ") == []; }
      RemoveSpaces(a) + RemoveSpaces(b);
      { RemoveSpacesAppend(a, b); }
      RemoveSpaces(a + b);
    }
  }

  /** The characters `BinaryOp::try_from` accepts are exactly those `Token::new` classifies
      as an operation, so every operation token the tokeniser emits names a binary operator. */
  lemma OperatorCharsAgree(c: char)
    ensures BinaryOperations.TryFrom(c).Ok? <==> Tokens.New(c).Operation?
  {
  }

  lemma TokenizedOperationsAreBinaryOps(s: string, i: nat)
    requires Tokenize(s).Ok? && i < |Tokenize(s).value.tokens|
    requires Tokenize(s).value.tokens[i].Operation?
    ensures BinaryOperations.TryFrom(Tokenize(s).value.tokens[i].op).Ok?
  {
    assert WellFormed(Tokenize(s).value.tokens[i]);
  }

  // ---------------------------------------------------------------------------------------
  // The repository's tokeniser tests

  /** test_invalid_floats */
  lemma InvalidFloats()
    ensures Tokenize("12.2.") == Err(TooManyDots)
    ensures Tokenize("13..") == Err(TooManyDots)
  {
  }

  /** test_invalid_tokens */
  lemma InvalidTokens()
    ensures Tokenize("12$12") == Err(InvalidToken)
    ensures Tokenize("a") == Err(InvalidToken)
    ensures Tokenize("12b") == Err(InvalidToken)
    ensures Tokenize("&") == Err(InvalidToken)
  {
    assert "12" + ['$'] + "12" == "12$12";
    NoFailureOneDot("12");
    UnknownCharacterFails("12", '$', "12");
    assert "" + ['a'] + "" == "a";
    NoFailureOneDot("");
    UnknownCharacterFails("", 'a', "");
    assert "12" + ['b'] + "" == "12b";
    UnknownCharacterFails("12", 'b', "");
    assert "" + ['&'] + "" == "&";
    UnknownCharacterFails("", '&', "");
  }

  /** test_valid_floats: each input is one Float token. */
  lemma ValidFloats()
    ensures Tokenize("12.12") == Ok(TokenSet([Float("12.12")]))
    ensures Tokenize(".12") == Ok(TokenSet([Float(".12")]))
    ensures Tokenize("12.") == Ok(TokenSet([Float("12.")]))
    ensures Tokenize("0.0") == Ok(TokenSet([Float("0.0")]))
  {
    // One lemma per input: with the facts about one literal input in scope, the solver
    // unfolds the tokeniser on the next literal and the proof grows far beyond the others.
    ValidFloat1();
    ValidFloat2();
    ValidFloat3();
    ValidFloat4();
  }

  lemma ValidFloat1()
    ensures Tokenize("12.12") == Ok(TokenSet([Float("12.12")]))
  {
    SingleFloat("12.12");
  }

  lemma ValidFloat2()
    ensures Tokenize(".12") == Ok(TokenSet([Float(".12")]))
  {
    SingleFloat(".12");
  }

  lemma ValidFloat3()
    ensures Tokenize("12.") == Ok(TokenSet([Float("12.")]))
  {
    SingleFloat("12.");
  }

  lemma ValidFloat4()
    ensures Tokenize("0.0") == Ok(TokenSet([Float("0.0")]))
  {
    SingleFloat("0.0");
  }

  /** A run of digits with one decimal point is tokenised as that one Float. */
  lemma SingleFloat(s: string)
    requires forall c :: c in s ==> IsNumeralChar(c)
    requires Dots(s) == 1
    ensures Tokenize(s) == Ok(TokenSet([Float(s)]))
  {
    forall i | 0 <= i < |s|
      ensures IsNumeralChar(s[i])
    {
      assert s[i] in s;
    }
    TokenizeSucceedsOneDot(s);
    DotsCount(s);
    assert WellFormed(Float(s));
    assert Concat([Float(s)]) == s;
    TokenizeUnique(s, [Float(s)]);
  }

  /** test_example_token */
  lemma ExampleToken()
    ensures Tokenize("7+12-3+1.1") == Ok(TokenSet(ExampleTokens()))
  {
    ExampleInput();
    ExampleTokensSplit();
    TokenizeTo("7+12-3+1.1", ExampleTokens());
  }

  /** The input of test_example_token has only known characters and one decimal point. */
  lemma ExampleInput()
    ensures forall c :: c in "7+12-3+1.1" ==> !Tokens.New(c).None?
    ensures Dots("7+12-3+1.1") == 1
  {
  }

  /** An input of known characters with at most one decimal point is tokenised into any
      well-formed split of it in which no numeral follows another. */
  lemma TokenizeTo(s: string, ts: seq<Token>)
    requires forall c :: c in s ==> !Tokens.New(c).None?
    requires Dots(s) <= 1
    requires AllWellFormed(ts) && NoAdjacentNumerals(ts) && Concat(ts) == s
    ensures Tokenize(s) == Ok(TokenSet(ts))
  {
    TokenizeSucceedsOneDot(s);
    TokenizeUnique(s, ts);
  }

  lemma ExampleTokensSplit()
    ensures AllWellFormed(ExampleTokens()) && NoAdjacentNumerals(ExampleTokens())
    ensures Concat(ExampleTokens()) == "7+12-3+1.1"
  {
    ExampleTokensWellFormed();
    ExampleTokensText();
  }

  lemma ExampleTokensWellFormed()
    ensures AllWellFormed(ExampleTokens()) && NoAdjacentNumerals(ExampleTokens())
  {
    var i7, i12, i3, f := Integer("7"), Integer("12"), Integer("3"), Float("1.1");
    var plus, minus := Token.Operation('+'), Token.Operation('-');
    assert WellFormed(i12) by {
      assert forall i :: 0 <= i < 2 ==> "12"[i] == '1' || "12"[i] == '2';
    }
    assert WellFormed(f) by {
      assert forall i :: 0 <= i < 3 ==> "1.1"[i] == '1' || "1.1"[i] == '.';
    }
    var t1 := [i7];
    var t2 := t1 + [plus];
    var t3 := t2 + [i12];
    var t4 := t3 + [minus];
    var t5 := t4 + [i3];
    var t6 := t5 + [plus];
    assert ExampleTokens() == t6 + [f];
    assert [] + [i7] == t1;
    AllWellFormedAppend([], i7);
    AllWellFormedAppend(t1, plus);
    AllWellFormedAppend(t2, i12);
    AllWellFormedAppend(t3, minus);
    AllWellFormedAppend(t4, i3);
    AllWellFormedAppend(t5, plus);
    AllWellFormedAppend(t6, f);
    NoAdjacentExtend([], i7, plus);
    NoAdjacentExtend(t1, plus, i12);
    NoAdjacentExtend(t2, i12, minus);
    NoAdjacentExtend(t3, minus, i3);
    NoAdjacentExtend(t4, i3, plus);
    NoAdjacentExtend(t5, plus, f);
  }

  lemma ExampleTokensText()
    ensures Concat(ExampleTokens()) == "7+12-3+1.1"
  {
    var plus, minus := Token.Operation('+'), Token.Operation('-');
    var t1 := [Integer("7")];
    var t3 := t1 + [plus] + [Integer("12")];
    var t5 := t3 + [minus] + [Integer("3")];
    assert ExampleTokens() == t5 + [plus] + [Float("1.1")];
    ConcatAppend([], Integer("7"));
    assert [] + [Integer("7")] == t1;
    ConcatAppend(t1, plus);
    ConcatAppend(t1 + [plus], Integer("12"));
    assert Concat(t3) == "7+12";
    ConcatAppend(t3, minus);
    ConcatAppend(t3 + [minus], Integer("3"));
    assert Concat(t5) == "7+12-3";
    ConcatAppend(t5, plus);
    ConcatAppend(t5 + [plus], Float("1.1"));
  }

  /** The seven tokens test_example_token expects, kind by kind. */
  function ExampleTokens(): seq<Token> {
    [Integer("7"), Token.Operation('+'), Integer("12"), Token.Operation('-'),
     Integer("3"), Token.Operation('+'), Float("1.1")]
  }

  /** A non-empty input without spaces that tokenises is refused by `validate`. */
  lemma RejectedByValidate(s: string)
    requires ' ' !in s && s != [] && Tokenize(s).Ok?
    ensures ParseString(s) == Err(InvalidSequence)
  {
    RemoveSpacesKeeps(s);
  }

  lemma RejectedWithOneDot(s: string)
    requires ' ' !in s && s != [] && forall c :: c in s ==> !Tokens.New(c).None?
    requires Dots(s) <= 1
    ensures ParseString(s) == Err(InvalidSequence)
  {
    TokenizeSucceedsOneDot(s);
    RejectedByValidate(s);
  }

  lemma RejectedWithoutDots(s: string)
    requires ' ' !in s && s != [] && forall c :: c in s ==> !Tokens.New(c).None? && c != '.'
    ensures ParseString(s) == Err(InvalidSequence)
  {
    TokenizeSucceedsNoDot(s);
    RejectedByValidate(s);
  }

  /** The evaluation tests reach `validate` with a non-empty set, which it refuses. */
  lemma ExampleRejectedByValidate()
    ensures ParseString("7+12-3+1.1") == Err(InvalidSequence)
    ensures ParseString("7+12*3+1+4*2") == Err(InvalidSequence)
    ensures ParseString("7+12*3+(1+4)*2") == Err(InvalidSequence)
  {
    // One lemma per input, for the same reason as in `ValidFloats`.
    RejectedExample1();
    RejectedExample2();
    RejectedExample3();
  }

  lemma RejectedExample1()
    ensures ParseString("7+12-3+1.1") == Err(InvalidSequence)
  {
    ExampleInput();
    RejectedWithOneDot("7+12-3+1.1");
  }

  lemma RejectedExample2()
    ensures ParseString("7+12*3+1+4*2") == Err(InvalidSequence)
  {
    RejectedWithoutDots("7+12*3+1+4*2");
  }

  lemma RejectedExample3()
    ensures ParseString("7+12*3+(1+4)*2") == Err(InvalidSequence)
  {
    RejectedWithoutDots("7+12*3+(1+4)*2");
  }
}
