/**
 Canonical means what a precedence table says in words: for infix operators a condition
 on each operator and the operators of its two operands only, and over all operators one
 on each operator and the edges of its operands.
*/
module PrattPrecedence {
  import opened Syntax
  import opened Pratt
  import opened PrattInversion
  import opened PrattSoundness

  /** A token that is an infix operator and nothing else, binding less tightly than the maximum. */
  predicate InfixToken(cfg: Config, t: Token) {
    && t.kind == OP && OperatorFor(cfg, t, Infix).Some? && OperatorFor(cfg, t, Postfixed).None?
    && !OperatorFor(cfg, t, Infix).value.selector
    && OperatorFor(cfg, t, Infix).value.prec < MAX_PREC
  }

  function InfixOp(cfg: Config, t: Token): Operator
    requires InfixToken(cfg, t)
  {
    OperatorFor(cfg, t, Infix).value
  }

  /** Infix operators over atoms and groups. */
  predicate InfixTree(cfg: Config, e: Expr) {
    match e
    case Binary(lhs, op, rhs) => InfixToken(cfg, op) && InfixTree(cfg, lhs) && InfixTree(cfg, rhs)
    case _ => (e.Ident? || e.Literal? || e.Group?) && Canonical(cfg, e, 0)
  }

  /** `inner` may be the operator of the left operand of `outer`. */
  predicate BindsLeft(inner: Operator, outer: Operator) {
    inner.prec > outer.prec || (inner.prec == outer.prec && inner.assoc == LeftAssoc)
  }

  /** `inner` may be the operator of the right operand of `outer`. */
  predicate BindsRight(inner: Operator, outer: Operator) {
    inner.prec > outer.prec || (inner.prec == outer.prec && outer.assoc == RightAssoc)
  }

  /** Every operator binds its operands' operators as the table demands. */
  predicate LocallyOrdered(cfg: Config, e: Expr)
    requires InfixTree(cfg, e)
  {
    e.Binary? ==>
      assert InfixTree(cfg, e.lhs) && InfixTree(cfg, e.rhs);
      && (e.lhs.Binary? ==> BindsLeft(InfixOp(cfg, e.lhs.op), InfixOp(cfg, e.op)))
      && (e.rhs.Binary? ==> BindsRight(InfixOp(cfg, e.rhs.op), InfixOp(cfg, e.op)))
      && LocallyOrdered(cfg, e.lhs) && LocallyOrdered(cfg, e.rhs)
  }

  predicate TopReaches(cfg: Config, e: Expr, min: Prec)
    requires InfixTree(cfg, e)
  {
    e.Binary? ==> InfixOp(cfg, e.op).prec >= min
  }

  /** An infix tree takes the next operator exactly when its top operator's right operand would. */
  lemma {:induction false} AbsorbsByTop(cfg: Config, e: Expr, k: Token)
    requires InfixTree(cfg, e) && LocallyOrdered(cfg, e) && InfixToken(cfg, k)
    ensures Absorbs(cfg, e, k) <==> e.Binary? && InfixOp(cfg, k).prec >= NextMinPrec(InfixOp(cfg, e.op))
  {
    if e.Binary? {
      AbsorbsByTop(cfg, e.rhs, k);
    }
  }

  /** The next operator may have `e` as its left operand exactly when it binds the top operator of `e`. */
  lemma FollowsByTop(cfg: Config, e: Expr, k: Token)
    requires InfixTree(cfg, e) && LocallyOrdered(cfg, e) && InfixToken(cfg, k)
    ensures Follows(cfg, e, k) <==> (e.Binary? ==> BindsLeft(InfixOp(cfg, e.op), InfixOp(cfg, k)))
  {
    AbsorbsByTop(cfg, e, k);
  }

  lemma OperandAnyLevel(cfg: Config, e: Expr, min: Prec)
    requires InfixTree(cfg, e) && !e.Binary?
    ensures Canonical(cfg, e, min)
  {
  }

  lemma BinaryCanonical(cfg: Config, e: Expr, min: Prec)
    requires InfixTree(cfg, e) && e.Binary?
    ensures Canonical(cfg, e, min) <==>
            && InfixOp(cfg, e.op).prec >= min && Canonical(cfg, e.lhs, min) && Follows(cfg, e.lhs, e.op)
            && Canonical(cfg, e.rhs, NextMinPrec(InfixOp(cfg, e.op)))
  {
  }

  /** On infix trees the canonical ones are the locally ordered ones, at the level their top operator reaches. */
  lemma {:induction false} CanonicalIsLocal(cfg: Config, e: Expr, min: Prec)
    requires InfixTree(cfg, e)
    ensures Canonical(cfg, e, min) <==> LocallyOrdered(cfg, e) && TopReaches(cfg, e, min)
    decreases e
  {
    hide Canonical, Follows;
    if e.Binary? {
      BinaryCanonical(cfg, e, min);
      CanonicalIsLocal(cfg, e.lhs, min);
      CanonicalIsLocal(cfg, e.rhs, NextMinPrec(InfixOp(cfg, e.op)));
      if LocallyOrdered(cfg, e.lhs) { FollowsByTop(cfg, e.lhs, e.op); }
    } else {
      OperandAnyLevel(cfg, e, min);
    }
  }

  /** So a run of operands and infix operators has at most one locally ordered tree, and it is the one parsed. */
  lemma LocallyOrderedIsParsed(cfg: Config, e: Expr, before: seq<Token>, after: seq<Token>)
    requires InfixTree(cfg, e) && LocallyOrdered(cfg, e) && Nesting(e) <= MAX_EXPR_DEPTH
    requires EndsInEof(after) && after[0].kind == EOF
    ensures var toks := before + Yield(e) + after;
            At(toks, |before|) && ParseExpr(cfg, toks, |before|, 0, 0) == Parsed(e, |before| + |Yield(e)|, [])
  {
    CanonicalIsLocal(cfg, e, 0);
    EofEnds(cfg, e, 0, after[0]);
    ParserInvertsPrinter(cfg, e, 0, before, after);
  }

  /**
   How `a op b op c` nests: to the left just for left-associative operators below the maximal precedence, and to
   the right just for right-associative ones and, as `next_min_prec` saturates there, for all at the maximum.
  */
  lemma ChainNests(cfg: Config, a: Token, b: Token, c: Token, op: Token, min: Prec)
    requires a.kind == IDENT && b.kind == IDENT && c.kind == IDENT && op.kind == OP
    requires OperatorFor(cfg, op, Infix).Some? && OperatorFor(cfg, op, Postfixed).None?
    requires OperatorFor(cfg, op, Infix).value.prec >= min && !OperatorFor(cfg, op, Infix).value.selector
    ensures var o := OperatorFor(cfg, op, Infix).value;
            Canonical(cfg, Binary(Binary(Ident(a), op, Ident(b)), op, Ident(c)), min)
            <==> o.assoc == LeftAssoc && o.prec < MAX_PREC
    ensures var o := OperatorFor(cfg, op, Infix).value;
            Canonical(cfg, Binary(Ident(a), op, Binary(Ident(b), op, Ident(c))), min)
            <==> o.assoc == RightAssoc || o.prec == MAX_PREC
  {
    var o := OperatorFor(cfg, op, Infix).value;
    var next := NextMinPrec(o);
    assert Canonical(cfg, Ident(a), min) && Canonical(cfg, Ident(b), next) && Canonical(cfg, Ident(c), next);
    var left, right := Binary(Ident(a), op, Ident(b)), Binary(Ident(b), op, Ident(c));
    assert Absorbs(cfg, left, op) <==> o.prec >= next;
    assert Chains(cfg, left, op) <==> o.assoc == NonAssoc;
    assert Canonical(cfg, left, min);
    assert Canonical(cfg, right, next) <==> o.prec >= next;
  }

  // ----- all the operators together

  /** The token continues an expression in one way only. */
  predicate OneRole(cfg: Config, k: Token) {
    var infix, postfix := OperatorFor(cfg, k, Infix), OperatorFor(cfg, k, Postfixed);
    || OpensCall(cfg, k)
    || (infix.Some? && (postfix.None? || postfix.value.infix))
    || (infix.None? && postfix.Some? && !postfix.value.infix)
  }

  /** How tightly it binds what stands before it; a call binds tighter than every operator. */
  function Binding(cfg: Config, k: Token): int
    requires OneRole(cfg, k)
  {
    if OpensCall(cfg, k) then MAX_PREC + 1
    else if OperatorFor(cfg, k, Infix).Some? then OperatorFor(cfg, k, Infix).value.prec
    else OperatorFor(cfg, k, Postfixed).value.prec
  }

  /** Every operator in the tree is used in a role the table gives it, and in no more than one. */
  predicate OpTree(cfg: Config, e: Expr) {
    match e
    case Binary(lhs, op, rhs) =>
      && OneRole(cfg, op) && OperatorFor(cfg, op, Infix).Some? && !OperatorFor(cfg, op, Infix).value.selector
      && OpTree(cfg, lhs) && OpTree(cfg, rhs)
    case Selector(lhs, op, name) =>
      && OneRole(cfg, op) && OperatorFor(cfg, op, Infix).Some? && OperatorFor(cfg, op, Infix).value.selector
      && name.kind == IDENT && OpTree(cfg, lhs)
    case Postfix(lhs, op) => OneRole(cfg, op) && OperatorFor(cfg, op, Infix).None? && op.kind == OP && OpTree(cfg, lhs)
    case Prefix(op, operand) => OperatorFor(cfg, op, Prefixed).Some? && OpTree(cfg, operand)
    case Call(lhs, open, args, close) =>
      && OpensCall(cfg, open) && close.Some? && IsPunct(close.value, cfg.call.value.close)
      && (args.OneMore? ==> StartsArg(cfg.call.value, args)) && CanonicalArgs(cfg, args, close.value)
      && OpTree(cfg, lhs)
    case _ => Canonical(cfg, e, 0)
  }

  /** The levels of the operands still open at the right edge, outermost first. */
  function OpenLevels(cfg: Config, e: Expr): seq<int>
    requires OpTree(cfg, e)
  {
    match e
    case Binary(_, op, rhs) => [NextMinPrec(OperatorFor(cfg, op, Infix).value)] + OpenLevels(cfg, rhs)
    case Prefix(op, operand) => [OperatorFor(cfg, op, Prefixed).value.prec] + OpenLevels(cfg, operand)
    case _ => []
  }

  /** `k` binds less tightly than every operator open at the right edge of `e`, and chains none that cannot be. */
  predicate TakesLeft(cfg: Config, e: Expr, k: Token)
    requires OpTree(cfg, e) && OneRole(cfg, k)
  {
    AllAbove(OpenLevels(cfg, e), Binding(cfg, k)) && !Chains(cfg, e, k)
  }

  predicate AllAbove(levels: seq<int>, binding: int) {
    levels == [] || (binding < levels[0] && AllAbove(levels[1..], binding))
  }

  /** Every operator on the left spine binds at least this tightly. */
  predicate SpineReaches(cfg: Config, e: Expr, min: int)
    requires OpTree(cfg, e)
  {
    match e
    case Binary(lhs, op, _) => Binding(cfg, op) >= min && SpineReaches(cfg, lhs, min)
    case Selector(lhs, op, _) => Binding(cfg, op) >= min && SpineReaches(cfg, lhs, min)
    case Postfix(lhs, op) => Binding(cfg, op) >= min && SpineReaches(cfg, lhs, min)
    case Call(lhs, _, _, _) => SpineReaches(cfg, lhs, min)
    case _ => true
  }

  /** Node by node: left operands are taken, and right operands reach the level of their operator. */
  predicate Placed(cfg: Config, e: Expr)
    requires OpTree(cfg, e)
  {
    match e
    case Binary(lhs, op, rhs) =>
      && Placed(cfg, lhs) && Placed(cfg, rhs) && TakesLeft(cfg, lhs, op)
      && SpineReaches(cfg, rhs, NextMinPrec(OperatorFor(cfg, op, Infix).value))
    case Selector(lhs, op, _) => Placed(cfg, lhs) && TakesLeft(cfg, lhs, op)
    case Postfix(lhs, op) => Placed(cfg, lhs) && TakesLeft(cfg, lhs, op)
    case Call(lhs, open, _, _) => Placed(cfg, lhs) && TakesLeft(cfg, lhs, open)
    case Prefix(op, operand) =>
      Placed(cfg, operand) && SpineReaches(cfg, operand, OperatorFor(cfg, op, Prefixed).value.prec)
    case _ => true
  }

  lemma ExtendsByBinding(cfg: Config, k: Token, m: Prec)
    requires OneRole(cfg, k)
    ensures Extends(cfg, k, m) <==> Binding(cfg, k) >= m
    ensures OperatorFor(cfg, k, Infix).Some? ==> !PostfixApplies(cfg, k, m)
  {
  }

  lemma {:induction false} AbsorbsByLevel(cfg: Config, e: Expr, k: Token)
    requires OpTree(cfg, e) && OneRole(cfg, k)
    ensures !Absorbs(cfg, e, k) <==> AllAbove(OpenLevels(cfg, e), Binding(cfg, k))
    decreases e
  {
    hide Extends, Binding, Canonical;
    match e
    case Binary(_, op, rhs) =>
      ExtendsByBinding(cfg, k, NextMinPrec(OperatorFor(cfg, op, Infix).value));
      AbsorbsByLevel(cfg, rhs, k);
      assert OpenLevels(cfg, e)[1..] == OpenLevels(cfg, rhs);
    case Prefix(op, operand) =>
      ExtendsByBinding(cfg, k, OperatorFor(cfg, op, Prefixed).value.prec);
      AbsorbsByLevel(cfg, operand, k);
      assert OpenLevels(cfg, e)[1..] == OpenLevels(cfg, operand);
    case _ =>
  }

  lemma FollowsByLevel(cfg: Config, e: Expr, k: Token)
    requires OpTree(cfg, e) && OneRole(cfg, k)
    ensures Follows(cfg, e, k) <==> TakesLeft(cfg, e, k)
  {
    hide OpTree, OneRole, Absorbs, OpenLevels, Binding, Chains;
    AbsorbsByLevel(cfg, e, k);
  }

  /**
   Over all operators, prefix, postfix, selector and call forms included, the canonical trees are those in which
   every node is placed and the left spine reaches the level.
  */
  lemma {:induction false} CanonicalIsPlaced(cfg: Config, e: Expr, min: Prec)
    requires OpTree(cfg, e)
    ensures Canonical(cfg, e, min) <==> Placed(cfg, e) && SpineReaches(cfg, e, min)
    decreases e
  {
    hide Follows, TakesLeft, Extends;
    match e
    case Binary(lhs, op, rhs) =>
      CanonicalIsPlaced(cfg, lhs, min);
      CanonicalIsPlaced(cfg, rhs, NextMinPrec(OperatorFor(cfg, op, Infix).value));
      FollowsByLevel(cfg, lhs, op);
      ExtendsByBinding(cfg, op, min);
    case Selector(lhs, op, _) =>
      CanonicalIsPlaced(cfg, lhs, min);
      FollowsByLevel(cfg, lhs, op);
      ExtendsByBinding(cfg, op, min);
    case Postfix(lhs, op) =>
      CanonicalIsPlaced(cfg, lhs, min);
      FollowsByLevel(cfg, lhs, op);
    case Call(lhs, open, _, _) =>
      CanonicalIsPlaced(cfg, lhs, min);
      FollowsByLevel(cfg, lhs, open);
    case Prefix(op, operand) =>
      CanonicalIsPlaced(cfg, operand, OperatorFor(cfg, op, Prefixed).value.prec);
    case _ =>
  }

  /** No operator of the table continues an expression in two ways. */
  ghost predicate OneRoleTable(cfg: Config) {
    forall k: Token :: OperatorFor(cfg, k, Infix).Some? || OperatorFor(cfg, k, Postfixed).Some? ==>
      OperatorFor(cfg, k, Infix).None? || OperatorFor(cfg, k, Postfixed).None?
      || OperatorFor(cfg, k, Postfixed).value.infix
  }

  lemma TableGivesRole(cfg: Config, k: Token, min: Prec)
    requires OneRoleTable(cfg)
    ensures InfixApplies(cfg, k, min) ==> OneRole(cfg, k)
    ensures PostfixApplies(cfg, k, min) ==> OneRole(cfg, k) && OperatorFor(cfg, k, Infix).None? && k.kind == OP
  {
  }

  lemma {:induction false} CanonicalIsOpTree(cfg: Config, e: Expr, min: Prec)
    requires OneRoleTable(cfg) && Canonical(cfg, e, min)
    ensures OpTree(cfg, e)
    decreases e
  {
    hide OneRoleTable, OneRole, Follows, CanonicalArgs;
    match e
    case Binary(lhs, op, rhs) =>
      TableGivesRole(cfg, op, min);
      CanonicalIsOpTree(cfg, lhs, min);
      CanonicalIsOpTree(cfg, rhs, NextMinPrec(OperatorFor(cfg, op, Infix).value));
    case Selector(lhs, op, _) =>
      TableGivesRole(cfg, op, min);
      CanonicalIsOpTree(cfg, lhs, min);
    case Postfix(lhs, op) =>
      TableGivesRole(cfg, op, min);
      CanonicalIsOpTree(cfg, lhs, min);
    case Call(lhs, _, _, _) => CanonicalIsOpTree(cfg, lhs, min);
    case Prefix(op, operand) => CanonicalIsOpTree(cfg, operand, OperatorFor(cfg, op, Prefixed).value.prec);
    case _ =>
  }

  /** So this is what a parse without diagnostics establishes, in local terms. */
  lemma ParsedIsPlaced(cfg: Config, toks: seq<Token>, pos: nat, min: Prec)
    requires At(toks, pos) && ParseExpr(cfg, toks, pos, min, 0).diags == [] && OneRoleTable(cfg)
    ensures var e := ParseExpr(cfg, toks, pos, min, 0).node;
            OpTree(cfg, e) && Placed(cfg, e) && SpineReaches(cfg, e, min)
  {
    hide *;
    var e := ParseExpr(cfg, toks, pos, min, 0).node;
    ParserSound(cfg, toks, pos, min);
    CanonicalIsOpTree(cfg, e, min);
    CanonicalIsPlaced(cfg, e, min);
  }
}
