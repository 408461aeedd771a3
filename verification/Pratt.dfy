/**
 The Pratt parser as a function of the token array, the cursor and the nesting depth:
 the tree, the cursor it leaves and the diagnostics it pushes.
*/
module Pratt {
  import opened Options
  import opened Syntax

  const MAX_EXPR_DEPTH: nat := 512

  datatype Message =
    | TooDeep
    | ExpectedExpression
    | ExpectedCloseParen
    | ExpectedSelectorName
    | NonAssocChained
    | ExpectedCloseDelimiter

  datatype Diag = Diag(message: Message, at: Token)

  datatype Parsed = Parsed(node: Expr, pos: nat, diags: seq<Diag>)

  datatype ParsedArgs = ParsedArgs(args: Args, pos: nat, diags: seq<Diag>)

  /** The lexer ends every token array with EOF. */
  predicate EndsInEof(toks: seq<Token>) {
    |toks| > 0 && toks[|toks| - 1].kind == EOF
  }

  /** The cursor is on a token, as it is in every state the parser reaches. */
  predicate At(toks: seq<Token>, pos: nat) {
    EndsInEof(toks) && pos < |toks|
  }

  /** `parser_advance`: the cursor never moves past EOF. */
  function Advance(toks: seq<Token>, pos: nat): (r: nat)
    requires At(toks, pos)
    ensures At(toks, r) && pos <= r && (r == pos <==> toks[pos].kind == EOF)
  {
    if toks[pos].kind == EOF then pos else pos + 1
  }

  /** The cursor stays on the array, and moves unless it was at the end. */
  predicate Progress(toks: seq<Token>, pos: nat, pos': nat) {
    At(toks, pos) && At(toks, pos') && pos <= pos' && (pos < pos' || toks[pos].kind == EOF)
  }

  /** `make_error_node`. */
  function ErrorNode(toks: seq<Token>, pos: nat, message: Message): (r: Parsed)
    requires At(toks, pos)
    ensures Progress(toks, pos, r.pos) && r.diags != []
  {
    var pos' := Advance(toks, pos);
    Parsed(Error(toks[pos..pos']), pos', [Diag(message, toks[pos])])
  }

  /** `kavak_parse_expression`. */
  function ParseExpr(cfg: Config, toks: seq<Token>, pos: nat, min: Prec, depth: nat): (r: Parsed)
    requires At(toks, pos) && depth <= MAX_EXPR_DEPTH
    ensures Progress(toks, pos, r.pos)
    decreases MAX_EXPR_DEPTH - depth, |toks| - pos, 0
  {
    if depth >= MAX_EXPR_DEPTH then ErrorNode(toks, pos, TooDeep)
    else
      var p := ParsePrefix(cfg, toks, pos, depth + 1);
      var r := ParseLoop(cfg, toks, p.node, p.pos, min, depth + 1);
      r.(diags := p.diags + r.diags)
  }

  /** `parse_prefix_expr`. */
  function ParsePrefix(cfg: Config, toks: seq<Token>, pos: nat, depth: nat): (r: Parsed)
    requires At(toks, pos) && depth <= MAX_EXPR_DEPTH
    ensures Progress(toks, pos, r.pos)
    decreases MAX_EXPR_DEPTH - depth, |toks| - pos, 2
  {
    var t := toks[pos];
    if t.kind == IDENT then Parsed(Ident(t), pos + 1, [])
    else if IsLiteral(t) then Parsed(Literal(t), pos + 1, [])
    else if IsPunct(t, '(') then
      var r := ParseExpr(cfg, toks, pos + 1, 0, depth);
      var close := toks[r.pos];
      if IsPunct(close, ')') then Parsed(Group(t, r.node, Some(close)), r.pos + 1, r.diags)
      else Parsed(Group(t, r.node, None), r.pos, r.diags + [Diag(ExpectedCloseParen, close)])
    else
      var op := OperatorFor(cfg, t, Prefixed);
      if op.Some? then
        var r := ParseExpr(cfg, toks, pos + 1, op.value.prec, depth);
        Parsed(Prefix(t, r.node), r.pos, r.diags)
      else ErrorNode(toks, pos, ExpectedExpression)
  }

  /** The `for(;;)` of `kavak_parse_expression`, entered with the left operand `lhs`. */
  function ParseLoop(cfg: Config, toks: seq<Token>, lhs: Expr, pos: nat, min: Prec, depth: nat): (r: Parsed)
    requires At(toks, pos) && depth <= MAX_EXPR_DEPTH
    ensures At(toks, r.pos) && pos <= r.pos
    decreases MAX_EXPR_DEPTH - depth, |toks| - pos, 1
  {
    var t := toks[pos];
    if OpensCall(cfg, t) then
      var c := ParseCall(cfg, toks, lhs, pos, depth);
      var r := ParseLoop(cfg, toks, c.node, c.pos, min, depth);
      r.(diags := c.diags + r.diags)
    else if PostfixApplies(cfg, t, min) then
      ParseLoop(cfg, toks, Postfix(lhs, t), pos + 1, min, depth)
    else if !InfixApplies(cfg, t, min) then
      Parsed(lhs, pos, [])
    else
      var op := OperatorFor(cfg, t, Infix).value;
      var next := toks[pos + 1];
      if op.selector then
        if next.kind == IDENT then ParseLoop(cfg, toks, Selector(lhs, t, next), pos + 2, min, depth)
        else
          var pos' := Advance(toks, pos + 1);
          Parsed(Error(toks[pos..pos']), pos', [Diag(ExpectedSelectorName, next)])
      else
        var rhs := ParseExpr(cfg, toks, pos + 1, NextMinPrec(op), depth);
        var node := Binary(lhs, t, rhs.node);
        if Chains(cfg, node, toks[rhs.pos]) then
          Parsed(node, rhs.pos, rhs.diags + [Diag(NonAssocChained, toks[rhs.pos])])
        else
          var r := ParseLoop(cfg, toks, node, rhs.pos, min, depth);
          r.(diags := rhs.diags + r.diags)
  }

  /** `kavak_parser_parse_call` with the cursor on the opening delimiter. */
  function ParseCall(cfg: Config, toks: seq<Token>, callee: Expr, pos: nat, depth: nat): (r: Parsed)
    requires At(toks, pos) && OpensCall(cfg, toks[pos]) && depth <= MAX_EXPR_DEPTH
    ensures At(toks, r.pos) && pos < r.pos
    decreases MAX_EXPR_DEPTH - depth, |toks| - pos, 0
  {
    var d := cfg.call.value;
    var list := ParseList(cfg, d, toks, pos + 1, depth);
    var close := toks[list.pos];
    if IsPunct(close, d.close) then
      Parsed(Call(callee, toks[pos], list.args, Some(close)), list.pos + 1, list.diags)
    else
      Parsed(Call(callee, toks[pos], list.args, None), list.pos,
             list.diags + [Diag(ExpectedCloseDelimiter, close)])
  }

  /** The items of `kavak_parser_parse_delimited`, after the opening delimiter. */
  function ParseList(cfg: Config, d: Delims, toks: seq<Token>, pos: nat, depth: nat): (r: ParsedArgs)
    requires At(toks, pos) && depth <= MAX_EXPR_DEPTH
    ensures At(toks, r.pos) && pos <= r.pos
    decreases MAX_EXPR_DEPTH - depth, |toks| - pos, 2
  {
    if IsPunct(toks[pos], d.close) then ParsedArgs(NoMore, pos, [])
    else ParseItems(cfg, d, toks, pos, depth)
  }

  /** The item loop: it stops when an item consumed nothing, when no separator follows, or at the close. */
  function ParseItems(cfg: Config, d: Delims, toks: seq<Token>, pos: nat, depth: nat): (r: ParsedArgs)
    requires At(toks, pos) && depth <= MAX_EXPR_DEPTH
    ensures At(toks, r.pos) && pos <= r.pos
    decreases MAX_EXPR_DEPTH - depth, |toks| - pos, 1
  {
    var item := ParseExpr(cfg, toks, pos, 0, depth);
    var sep := toks[item.pos];
    if item.pos == pos || !IsPunct(sep, d.sep) then
      ParsedArgs(OneMore(item.node, None, NoMore), item.pos, item.diags)
    else
      var rest := ParseList(cfg, d, toks, item.pos + 1, depth);
      ParsedArgs(OneMore(item.node, Some(sep), rest.args), rest.pos, item.diags + rest.diags)
  }
}
