# Calculator front end: tokeniser, validator, splitter

This project models the front end of a desktop calculator's Rust backend. That front end
takes an input line, removes its spaces, and cuts it into tokens. The tokens are integer and
float literals, the four arithmetic operators and parentheses. It then checks the token
sequence and splits it into an expression tree. The project also models the two lookup
tables that map operator symbols to binary and unary operations.

Modules, one per source file:

- `GenericError` (`generic_error.rs`): the error enum, and `Result`/`Option` as datatypes.
  `:-` plays the part of Rust's `?`.
- `Tokens` (`token.rs`): the `Token` enum, classification of one character, operator
  grades, the adjacency rule, and `digest`, the one-character step of the tokeniser.
- `TokenSets` (`token_set.rs`): the tokeniser loop (`TokenSet::new`), the validator
  (`validate`) and the splitter (`split`). The tokeniser loop and the validator are
  imperative methods. Each is proved equal to a specification function (`Tokenize`,
  `Validated`), which is a fold over the input. The lemmas are stated about those functions.
- `TokenTrees` (`token_tree.rs`): the `TokenTree` datatype.
- `BinaryOperations`, `UnaryOperations`: the `try_from` lookup tables.
- `Operations` (`operations/mod.rs`): `parse_string` up to the tree, and the repository's
  tokeniser tests as lemmas about fixed inputs.

This snapshot of the code is in the middle of a refactor. The model keeps it as written, and
the following consequences are proved:

- `validate` compares the first token with the `None` sentinel. `None` may be followed by
  nothing, so every non-empty token set is rejected with `InvalidSequence`.
- The split-point loop runs over the range `len..=0`. That range is empty, so the split
  index is always 0.
- Both children of an operation node are split from the same prefix. Because the index is 0,
  that prefix is empty and splitting it panics. So `split` returns only on sets that are one
  token inside any number of `(`…`)` pairs, and then it returns that token as a leaf.
- As a result, `parse_string` produces no tree at all: blank input reaches the panic of
  `split`, and every other input fails.

The code as written is small:

- The only tokens are `None`, `Integer`, `Float`, `Operation` and the two parentheses.
  The only errors are the five of `generic_error.rs`.
- Grades are 0 for `+ -` and `depth × 1 000 000` for `* /`.
- `split` does no precedence scan.
- `OperationNotImplemented` is added to the error enum. The lookup tables return it, but
  the enum in `generic_error.rs` does not declare it.

## Model

| member | source | states |
|---|---|---|
| Tokens.New | src-tauri/src/operations/token.rs:17-26 | A digit gives an Integer, `+ * / -` an Operation, `.` a Float, and `(`/`)` the parenthesis tokens; anything else gives `None`. Each direction is stated as an if-and-only-if. Every other token is well formed and spells exactly the character it was made from. |
| Tokens.GetGrade | src-tauri/src/operations/token.rs:28-36 | `Some` exactly for the four operator tokens. `+` and `-` grade 0 at every depth, `*` and `/` grade depth × 1 000 000, so at depth 0 all four tie at 0. |
| Tokens.CanBeFollowedBy | src-tauri/src/operations/token.rs:38-48 | False exactly when either side is `None`, an Operation is followed by an Operation or `)`, or a numeral is followed by `(`. True otherwise. |
| Tokens.InNone | src-tauri/src/operations/token.rs:50-52 | True exactly for the `None` sentinel, which is never a well-formed token and spells no character. |
| Tokens.Digest | src-tauri/src/operations/token.rs:54-76 | Fails exactly for an unknown character (`InvalidToken`, whatever the current token) or for a second `.` in a Float (`TooManyDots`). The first result is never `None`. No character is lost or invented. A digit or `.` extends a numeral, and the result is a Float when either part holds the dot. From `None` it returns the classified character with nothing committed. Otherwise it returns the current token unchanged together with the new one. Well-formedness is preserved. |
| TokenSets.Tokenize | src-tauri/src/operations/token_set.rs:14-36 | `""` gives `Ok` with no tokens. On success the token texts spell the input, every token is well formed, `None` never appears, and no numeral directly follows another. The only errors are `TooManyDots` and `InvalidToken`. |
| TokenSets.New | src-tauri/src/operations/token_set.rs:14-36 | The loop that pushes committed tokens and reassigns the token under construction returns exactly `Tokenize(s)`. Its invariant is that the fold over the unread characters equals the fold over the whole input. |
| TokenSets.Scan | src-tauri/src/operations/token_set.rs:17-33 | The fold the tokeniser loop computes. A committed token is never taken back: the tokens committed so far are a prefix of the result. |
| TokenSets.ScanText | src-tauri/src/operations/token_set.rs:17-33 | The committed tokens, the token under construction and the unread characters always spell the input. |
| TokenSets.ScanShape | src-tauri/src/operations/token_set.rs:17-33 | The loop commits only well-formed tokens and never commits a numeral right after another numeral. |
| TokenSets.ScanErrorPersists | src-tauri/src/operations/token_set.rs:18-20 | After the loop has failed, the characters that follow do not change the result. |
| TokenSets.ScanErrors | src-tauri/src/operations/token_set.rs:18-20 | The only errors that leave the loop are the two that `digest` raises. |
| TokenSets.TokenizeErrorPersists | src-tauri/src/operations/token_set.rs:18-20 | If a prefix fails, the whole input fails with the same error, and no partial tokens are returned. |
| TokenSets.DigestReading | src-tauri/src/operations/token_set.rs:17-28 | Reading character `i` fails exactly when that character is unknown, or when it is a second `.` in the run of numeral characters just before it. The error is the one named for that case. |
| TokenSets.ScanSucceeds | src-tauri/src/operations/token_set.rs:17-33 | The loop succeeds when none of the characters still to be read fails. |
| TokenSets.ScanFirstFailure | src-tauri/src/operations/token_set.rs:17-20 | The first failing character decides the error of the loop. |
| TokenSets.TokenizeSucceeds | src-tauri/src/operations/token_set.rs:14-36 | An input in which no character fails is tokenised. |
| TokenSets.TokenizeFirstFailure | src-tauri/src/operations/token_set.rs:17-20 | The first failing character decides the error, whatever follows it. |
| TokenSets.TokenizeSucceedsOneDot | src-tauri/src/operations/token_set.rs:14-36 | An input whose characters are all known and which holds at most one `.` is tokenised. |
| TokenSets.NoFailureOneDot | src-tauri/src/operations/token_set.rs:17-28 | In a text whose characters are all known and which holds at most one `.`, no character fails. |
| TokenSets.UnknownCharacterFails | src-tauri/src/operations/token_set.rs:18-20 | An unknown character after a text in which no character fails gives `InvalidToken`, whatever follows it. |
| TokenSets.TokenizeSucceedsNoDot | src-tauri/src/operations/token_set.rs:14-36 | An input whose characters are all known and which holds no `.` is tokenised. |
| TokenSets.WellFormedText | src-tauri/src/operations/token.rs:17-26 | A well-formed token has non-empty text. A numeral's text is made of numeral characters. Any other token's text is one non-numeral character. |
| TokenSets.LastNumeralText | src-tauri/src/operations/token_set.rs:17-28 | When the last token of a well-formed sequence is a numeral, its text is the run of numeral characters at the end of the spelled input. |
| TokenSets.LastTokenUnique | src-tauri/src/operations/token_set.rs:17-32 | Two well-formed sequences without adjacent numerals that spell the same non-empty text end with the same token. |
| TokenSets.DecompositionUnique | src-tauri/src/operations/token_set.rs:17-32 | Two well-formed sequences without adjacent numerals that spell the same text are equal. |
| TokenSets.TokenizeUnique | src-tauri/src/operations/token_set.rs:14-36 | A successful tokenisation is the only well-formed split of the input in which no numeral follows another. |
| TokenSets.Validated | src-tauri/src/operations/token_set.rs:38-65 | On success the tokens are unchanged. The empty set is accepted. Every non-empty set is refused with `InvalidSequence`, because the first token is checked against the `None` sentinel. |
| TokenSets.Validate | src-tauri/src/operations/token_set.rs:38-65 | The loop with the adjacency check, the depth counter and the early returns returns exactly `Validated(set)`: the empty set is accepted and every other set gets `InvalidSequence`. |
| TokenSets.Delta | src-tauri/src/operations/token_set.rs:48-52 | A counter change of +1 exactly for `(`, −1 exactly for `)`, and 0 for every other token. |
| TokenSets.CheckFrom | src-tauri/src/operations/token_set.rs:43-62 | The fold the validator loop computes. Success means the counter plus the net depth of the remaining tokens is 0. The only errors are `InvalidSequence`, `ParenthesisClosedWithoutOpening` and `ParenthesisOpenedWithoutClosing`. With no token left, the counter alone decides. |
| TokenSets.CheckFromFirstFailure | src-tauri/src/operations/token_set.rs:43-57 | At the first step that fails, a failed adjacency check gives `InvalidSequence` before the counter is looked at. A counter that drops below 0 gives `ParenthesisClosedWithoutOpening`. |
| TokenSets.CheckFromAllPass | src-tauri/src/operations/token_set.rs:43-64 | When every step passes, a final depth of 0 gives `Ok`. Any other final depth gives `ParenthesisOpenedWithoutClosing`. |
| TokenSets.InclusiveRange | src-tauri/src/operations/token_set.rs:107 | `lo..=hi` visits `hi - lo + 1` indices in increasing order, or none when `lo > hi`. |
| TokenSets.SplitIndex | src-tauri/src/operations/token_set.rs:103-124 | The split-point loop over `len..=0` never runs, so the split index is 0 for every non-empty set. |
| TokenSets.OperationNode | src-tauri/src/operations/token_set.rs:127-143 | A node built at index `i` is an operation node on `ts[i]` whose right child is its left child, because both are split from the same prefix. At index 0 it panics, since the prefix is empty. |
| TokenSets.OperationNodeIgnoresRest | src-tauri/src/operations/token_set.rs:127-143 | The tokens after the operator play no part in the node. |
| TokenSets.ScanLowestGrade | src-tauri/src/operations/token_set.rs:103-124 | With no index to visit, the start index is kept. Otherwise any index returned is the start index or a visited, in-range index that holds an operator. |
| TokenSets.SplitTokens | src-tauri/src/operations/token_set.rs:88-144 | The whole of `split`, with its panics as `None`. The empty set panics, and whatever it returns is a leaf holding one of the set's tokens. |
| TokenSets.SplitTokensOutcome | src-tauri/src/operations/token_set.rs:88-144 | `split` returns exactly on the splittable sets. It then returns a single leaf holding the token left after the outer parentheses are stripped. It never returns an operation node. |
| TokenSets.SplitStripsUnchecked | src-tauri/src/operations/token_set.rs:93-101 | A leading `(` and a trailing `)` are removed without checking that they match each other. |
| TokenSets.Split | src-tauri/src/operations/token_set.rs:88-144 | On a splittable validated set the tree is `Single` of the innermost token, which is one of the set's tokens. |
| TokenSets.CoreIn | src-tauri/src/operations/token_set.rs:89-101 | The token left after stripping outer parentheses is one of the set's tokens. |
| TokenSets.ValidatedNeverSplittable | src-tauri/src/operations/token_set.rs:41-46 | No set accepted by `validate` can be split, since the only one accepted is empty. |
| Operations.RemoveSpaces | src-tauri/src/operations/mod.rs:10 | No space is left in the result. |
| Operations.RemoveSpacesKeepsOthers | src-tauri/src/operations/mod.rs:10 | Every other character is kept, as often as it occurs. |
| Operations.RemoveSpacesBlank | src-tauri/src/operations/mod.rs:10 | The result is empty exactly when the input consists only of spaces. |
| Operations.RemoveSpacesAppend | src-tauri/src/operations/mod.rs:10 | Removing spaces distributes over concatenation. |
| Operations.RemoveSpacesKeeps | src-tauri/src/operations/mod.rs:10 | A text without spaces is unchanged. |
| Operations.ParseString | src-tauri/src/operations/mod.rs:9-12 | Tokeniser errors come out unchanged. When tokenising succeeds, the result is `Ok` exactly when `validate` accepts. Every non-empty token set gives `InvalidSequence`. The result is `Ok` (the panic of `split`) exactly for all-space input. The only errors are `TooManyDots`, `InvalidToken` and `InvalidSequence`. |
| Operations.ParseStringIgnoresSpaces | src-tauri/src/operations/mod.rs:10 | A space anywhere in the input makes no difference to the result. |
| Operations.OperatorCharsAgree | src-tauri/src/operations/binary_operations.rs:26-31 | `BinaryOp::try_from` accepts exactly the characters `Token::new` classifies as an operation. |
| Operations.TokenizedOperationsAreBinaryOps | src-tauri/src/operations/token.rs:20 | Every operation token the tokeniser emits names a binary operator. |
| Operations.InvalidFloats | src-tauri/src/operations/mod.rs:18-29 | `"12.2."` and `"13.."` fail with `TooManyDots`. |
| Operations.InvalidTokens | src-tauri/src/operations/mod.rs:30-41 | `"12$12"`, `"a"`, `"12b"` and `"&"` fail with `InvalidToken`. |
| Operations.ValidFloats | src-tauri/src/operations/mod.rs:43-56 | `"12.12"`, `".12"`, `"12."` and `"0.0"` each tokenise to exactly one Float with that text. |
| Operations.SingleFloat | src-tauri/src/operations/mod.rs:43-56 | Any run of numeral characters with exactly one `.` tokenises to that single Float. |
| Operations.ExampleToken | src-tauri/src/operations/mod.rs:58-77 | `"7+12-3+1.1"` tokenises to exactly Integer 7, `+`, Integer 12, `-`, Integer 3, `+`, Float 1.1. |
| Operations.TokenizeTo | src-tauri/src/operations/token_set.rs:14-36 | An input with known characters and at most one `.` tokenises to any well-formed split of it in which no numeral follows another. |
| Operations.ExampleRejectedByValidate | src-tauri/src/operations/mod.rs:79-121 | The three inputs of the evaluation tests tokenise, and `validate` then refuses them with `InvalidSequence`. |
| Operations.RejectedByValidate | src-tauri/src/operations/mod.rs:9-12 | A non-empty input without spaces that tokenises is refused with `InvalidSequence`. |
| BinaryOperations.TryFrom | src-tauri/src/operations/binary_operations.rs:25-33 | `Ok` exactly for `+ - * /`, and the operator found is written with that character. Any other character gives `OperationNotImplemented`. |
| BinaryOperations.TryFromSymbol | src-tauri/src/operations/binary_operations.rs:26-30 | Every operator is found again from its character. |
| BinaryOperations.TryFromInjective | src-tauri/src/operations/binary_operations.rs:26-30 | Distinct accepted characters give distinct operators. |
| UnaryOperations.TryFrom | src-tauri/src/operations/unary_operations.rs:25-33 | `Ok` exactly for the square-root literal, `cos`, `acos` and `sin`, and the operator found has that name. Any other string gives `OperationNotImplemented`. |
| UnaryOperations.TryFromName | src-tauri/src/operations/unary_operations.rs:27-30 | Every operator is found again from its name. The square-root name is the three characters U+00E2 U+02C6 U+0161 written in the source. |
| UnaryOperations.TryFromInjective | src-tauri/src/operations/unary_operations.rs:27-30 | Distinct accepted names give distinct operators. |
| UnaryOperations.TryFromRejectsNearMisses | src-tauri/src/operations/unary_operations.rs:31 | Matching is exact: `"co"`, `"Cos"`, `"acos "`, `"sqrt"` and `"√"` are refused. |

## Left out

- `BinaryOp::exec`, `UnaryOp::exec` and `TokenTree::solve`: these are 32-bit floating-point
  arithmetic and string-to-float parsing, which the model does not cover. `solve` also does
  not compile as written. `parse_string` is therefore modelled up to the tree, and its
  `Ok(f32)` becomes `Ok` of the tree.
- The evaluation tests (`mod.rs:79-121`) compare floating-point results. The model proves
  only that their inputs tokenise and are then refused by `validate`.
- `main.rs` (the desktop shell command and its formatting) and `src/App.tsx` (the user
  interface) are not part of this model.
- The message strings and the `Error`/`Display` implementations of the error enum are
  presentation, and are left out.
- Panics are modelled as values: `SplitTokens` returns `None` where `split` indexes past the
  end of a slice.
  - `TokenSets.Split` carries the `Splittable` precondition, which is exactly where the
    source returns without panicking.
  - `Operations.ParseString` returns `Ok(None)` where the source would panic inside `split`.
- The test at `mod.rs:71-75` names a `Token::BinaryOperation` variant that does not exist.
  `Operations.ExampleToken` reads it as `Operation`.
- Integer widths are not modelled. `GetGrade` works on unbounded naturals where the source
  uses `usize` multiplication, which could overflow only at a depth above 18 × 10^12.
  However, the split loop never runs, so this multiplication is never reached. The
  validator counter is an unbounded integer where the source infers `i32`.
- `TokenSets.ScanLowestGrade` models the body of the split loop, including a panic when
  `parenthesis -= 1` goes below 0. That panic exists only when integer overflow checks are
  on, as in debug builds; a release build wraps around instead. Because the loop's range is
  empty, no lemma states anything about that body beyond `SplitIndex` and the function's
  own contract.
- The `Invalid`/`Valid` tags record intent only. In the source, the private `PhantomData`
  field (`token_set.rs:6`) stops code outside the module from building a `TokenSet<Valid>`
  without `validate`. A Dafny datatype constructor cannot be hidden here, so any module can
  build a `TokenSet<Valid>` directly. The guarantee that only validated sets reach `split`
  is not kept by the model. And because of `ValidatedNeverSplittable`, every set that meets
  the precondition of `TokenSets.Split` is one built without validation.
