/**
 Tokens, operator tables and expression trees of the Pratt parser in `src/parser.c`,
 and what it means for a tree to respect the table.
*/
module Syntax {
  import opened Options

  // ----- tokens

  const EOF: nat := 1
  const IDENT: nat := 2
  const INT: nat := 4
  const FLOAT: nat := 5
  const STRING: nat := 6
  const CHAR: nat := 7
  const OP: nat := 8
  const PUNCT: nat := 9

  datatype Span = Span(start: nat, len: nat)

  /** `text` is the source text under the token's span, which punctuation is recognised by. */
  datatype Token = Token(kind: nat, v: nat, text: string, span: Span)

  predicate IsPunct(t: Token, c: char) {
    t.kind == PUNCT && t.text == [c]
  }

  predicate IsLiteral(t: Token) {
    t.kind == INT || t.kind == FLOAT || t.kind == STRING || t.kind == CHAR
  }

  // ----- operators

  datatype Assoc = LeftAssoc | RightAssoc | NonAssoc

  const MAX_PREC: int := 65535
  type Prec = p: int | 0 <= p <= 65535

  datatype Operator = Operator(id: nat, prec: Prec, assoc: Assoc, infix: bool, prefix: bool, postfix: bool,
                               selector: bool)

  datatype Role = Infix | Prefixed | Postfixed

  predicate HasRole(op: Operator, role: Role) {
    match role
    case Infix => op.infix
    case Prefixed => op.prefix
    case Postfixed => op.postfix
  }

  /** The delimiters of the call form the postfix hook adds. */
  datatype Delims = Delims(open: char, sep: char, close: char)

  /** `call` is absent when the postfix hook is unset; the hook is `kavak_parser_parse_call` otherwise. */
  datatype Config = Config(operators: seq<Operator>, call: Option<Delims>)

  /** The first entry with this id and role. */
  function FindOperator(ops: seq<Operator>, id: nat, role: Role): Option<Operator> {
    if ops == [] then None
    else if ops[0].id == id && HasRole(ops[0], role) then Some(ops[0])
    else FindOperator(ops[1..], id, role)
  }

  /** `operator_for_token`. */
  function OperatorFor(cfg: Config, t: Token, role: Role): Option<Operator> {
    if t.kind != OP then None else FindOperator(cfg.operators, t.v, role)
  }

  /** `next_min_prec`: what the right operand's operators must reach. */
  function NextMinPrec(op: Operator): Prec {
    if op.assoc == RightAssoc then op.prec
    else if op.prec == MAX_PREC then MAX_PREC
    else op.prec + 1
  }

  // ----- trees

  /**
   An expression tree with all its tokens. `Prefix` and `Postfix` are the two uses of
   KAVAK_AST_UNARY; a missing closing delimiter is `None`.
  */
  datatype Expr =
    | Ident(tok: Token)
    | Literal(tok: Token)
    | Group(open: Token, inner: Expr, close: Option<Token>)
    | Prefix(op: Token, operand: Expr)
    | Postfix(lhs: Expr, op: Token)
    | Selector(lhs: Expr, op: Token, name: Token)
    | Binary(lhs: Expr, op: Token, rhs: Expr)
    | Call(lhs: Expr, open: Token, args: Args, close: Option<Token>)
    | Error(skipped: seq<Token>)

  /** Call arguments, each with the separator after it. */
  datatype Args = NoMore | OneMore(arg: Expr, sep: Option<Token>, rest: Args)

  function Opt(t: Option<Token>): seq<Token> {
    if t.Some? then [t.value] else []
  }

  /** The tokens of a tree in source order. */
  function Yield(e: Expr): seq<Token> {
    match e
    case Ident(t) => [t]
    case Literal(t) => [t]
    case Group(open, inner, close) => [open] + Yield(inner) + Opt(close)
    case Prefix(op, operand) => [op] + Yield(operand)
    case Postfix(lhs, op) => Yield(lhs) + [op]
    case Selector(lhs, op, name) => Yield(lhs) + [op, name]
    case Binary(lhs, op, rhs) => Yield(lhs) + [op] + Yield(rhs)
    case Call(lhs, open, args, close) => Yield(lhs) + [open] + YieldArgs(args) + Opt(close)
    case Error(skipped) => skipped
  }

  function YieldArgs(args: Args): seq<Token> {
    match args
    case NoMore => []
    case OneMore(arg, sep, rest) => Yield(arg) + Opt(sep) + YieldArgs(rest)
  }

  /** How many nested calls of the expression parser a tree takes. */
  function Nesting(e: Expr): nat {
    match e
    case Group(_, inner, _) => 1 + Nesting(inner)
    case Prefix(_, operand) => 1 + Nesting(operand)
    case Postfix(lhs, _) => Nesting(lhs)
    case Selector(lhs, _, _) => Nesting(lhs)
    case Binary(lhs, _, rhs) => Max(Nesting(lhs), 1 + Nesting(rhs))
    case Call(lhs, _, args, _) => Max(Nesting(lhs), 1 + NestingArgs(args))
    case _ => 1
  }

  function NestingArgs(args: Args): nat {
    match args
    case NoMore => 0
    case OneMore(arg, _, rest) => Max(Nesting(arg), NestingArgs(rest))
  }

  function Max(a: nat, b: nat): nat {
    if a < b then b else a
  }

  // ----- trees that respect the table

  /** The token opens a call. */
  predicate OpensCall(cfg: Config, k: Token) {
    cfg.call.Some? && IsPunct(k, cfg.call.value.open)
  }

  predicate PostfixApplies(cfg: Config, k: Token, min: Prec) {
    var op := OperatorFor(cfg, k, Postfixed);
    op.Some? && op.value.prec >= min && !op.value.infix
  }

  predicate InfixApplies(cfg: Config, k: Token, min: Prec) {
    var op := OperatorFor(cfg, k, Infix);
    op.Some? && op.value.prec >= min
  }

  /** The token continues an expression parsed at level `min`. */
  predicate Extends(cfg: Config, k: Token, min: Prec) {
    OpensCall(cfg, k) || PostfixApplies(cfg, k, min) || InfixApplies(cfg, k, min)
  }

  /** An operand still open at the right edge of `e` would take the token. */
  predicate Absorbs(cfg: Config, e: Expr, k: Token) {
    match e
    case Prefix(op, operand) =>
      var o := OperatorFor(cfg, op, Prefixed);
      (o.Some? && Extends(cfg, k, o.value.prec)) || Absorbs(cfg, operand, k)
    case Binary(_, op, rhs) =>
      var o := OperatorFor(cfg, op, Infix);
      (o.Some? && Extends(cfg, k, NextMinPrec(o.value))) || Absorbs(cfg, rhs, k)
    case _ => false
  }

  /** The token would chain the non-associative operator at the top of `e`. */
  predicate Chains(cfg: Config, e: Expr, k: Token) {
    e.Binary? &&
    var o := OperatorFor(cfg, e.op, Infix);
    var next := OperatorFor(cfg, k, Infix);
    o.Some? && o.value.assoc == NonAssoc && next.Some? && next.value.prec == o.value.prec
  }

  /** The token ends `e` as an expression of level `min`. */
  predicate Ends(cfg: Config, e: Expr, min: Prec, k: Token) {
    !Extends(cfg, k, min) && !Absorbs(cfg, e, k)
  }

  /** The token can follow `e` as the next turn of the same level. */
  predicate Follows(cfg: Config, e: Expr, k: Token) {
    !Absorbs(cfg, e, k) && !Chains(cfg, e, k)
  }

  /** `e` is complete and every operator in it stands where the table lets it stand, at level `min`. */
  predicate Canonical(cfg: Config, e: Expr, min: Prec) {
    match e
    case Ident(t) => t.kind == IDENT
    case Literal(t) => IsLiteral(t)
    case Group(open, inner, close) =>
      && IsPunct(open, '(') && close.Some? && IsPunct(close.value, ')')
      && Canonical(cfg, inner, 0) && Ends(cfg, inner, 0, close.value)
    case Prefix(op, operand) =>
      var o := OperatorFor(cfg, op, Prefixed);
      o.Some? && Canonical(cfg, operand, o.value.prec)
    case Postfix(lhs, op) =>
      PostfixApplies(cfg, op, min) && Canonical(cfg, lhs, min) && Follows(cfg, lhs, op)
    case Selector(lhs, op, name) =>
      && InfixApplies(cfg, op, min) && OperatorFor(cfg, op, Infix).value.selector && !PostfixApplies(cfg, op, min)
      && name.kind == IDENT && Canonical(cfg, lhs, min) && Follows(cfg, lhs, op)
    case Binary(lhs, op, rhs) =>
      && InfixApplies(cfg, op, min) && !OperatorFor(cfg, op, Infix).value.selector && !PostfixApplies(cfg, op, min)
      && Canonical(cfg, lhs, min) && Follows(cfg, lhs, op)
      && Canonical(cfg, rhs, NextMinPrec(OperatorFor(cfg, op, Infix).value))
    case Call(lhs, open, args, close) =>
      && OpensCall(cfg, open) && Canonical(cfg, lhs, min) && Follows(cfg, lhs, open)
      && close.Some? && IsPunct(close.value, cfg.call.value.close)
      && (args.OneMore? ==> StartsArg(cfg.call.value, args))
      && CanonicalArgs(cfg, args, close.value)
    case Error(_) => false
  }

  /** The arguments are separated, and each is ended by what comes after it. */
  predicate CanonicalArgs(cfg: Config, args: Args, close: Token)
    requires cfg.call.Some?
  {
    match args
    case NoMore => true
    case OneMore(arg, sep, rest) =>
      && Canonical(cfg, arg, 0)
      && Ends(cfg, arg, 0, if sep.Some? then sep.value else close)
      && (if sep.Some? then
            IsPunct(sep.value, cfg.call.value.sep) && (rest.OneMore? ==> StartsArg(cfg.call.value, rest))
          else rest.NoMore? && !IsPunct(close, cfg.call.value.sep))
      && CanonicalArgs(cfg, rest, close)
  }

  /** The list does not begin with what would end it. */
  predicate StartsArg(d: Delims, args: Args)
    requires args.OneMore?
  {
    Yield(args.arg) != [] && !IsPunct(Yield(args.arg)[0], d.close)
  }
}
