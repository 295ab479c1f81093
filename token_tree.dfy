/** The expression tree built by the splitter (token_tree.rs). Its evaluation is not modelled. */
module TokenTrees {
  import opened Tokens

  datatype TokenTree =
    | Single(token: Token)
    | Operation(left: TokenTree, op: Token, right: TokenTree)
    | Parenthesis(content: TokenTree)
}
