/**
 Printing and parsing are inverse: the tokens of a canonical tree, followed by a token
 that cannot continue it, parse back to exactly that tree.
*/
module PrattInversion {
  import opened Options
  import opened Syntax
  import opened Pratt

  /** The tokens from `pos` to `end` are those of `e`, and the array goes on. */
  ghost predicate Printed(toks: seq<Token>, pos: nat, end: nat, e: Expr) {
    At(toks, end) && pos <= end && toks[pos..end] == Yield(e)
  }

  ghost predicate PrintedArgs(toks: seq<Token>, pos: nat, end: nat, args: Args) {
    At(toks, end) && pos <= end && toks[pos..end] == YieldArgs(args)
  }

  /** Splits printed tokens at the end of a first part. */
  lemma Unsplice(toks: seq<Token>, pos: nat, end: nat, xs: seq<Token>, ys: seq<Token>)
    requires pos <= end <= |toks| && toks[pos..end] == xs + ys
    ensures pos + |xs| <= end
    ensures toks[pos..pos + |xs|] == xs && toks[pos + |xs|..end] == ys
  {
    assert toks[pos..pos + |xs|] == toks[pos..end][..|xs|];
    assert toks[pos + |xs|..end] == toks[pos..end][|xs|..];
  }

  lemma {:induction false} InvertExpr(cfg: Config, toks: seq<Token>, pos: nat, end: nat, e: Expr, min: Prec, depth: nat)
    requires Printed(toks, pos, end, e) && Canonical(cfg, e, min) && Ends(cfg, e, min, toks[end])
    requires depth + Nesting(e) <= MAX_EXPR_DEPTH
    ensures At(toks, pos) && depth <= MAX_EXPR_DEPTH
    ensures ParseExpr(cfg, toks, pos, min, depth) == Parsed(e, end, [])
    decreases e, 2
  {
    hide Canonical, Yield, Absorbs, Extends, Chains, ParseExpr, ParseLoop, ParsePrefix;
    NestingPositive(e);
    EndsFollows(cfg, e, min, toks[end]);
    InvertSpine(cfg, toks, pos, end, e, min, depth + 1);
    LoopStops(cfg, toks, e, end, min, depth + 1);
    ExprUnfold(cfg, toks, pos, min, depth);
  }

  lemma ExprUnfold(cfg: Config, toks: seq<Token>, pos: nat, min: Prec, depth: nat)
    requires At(toks, pos) && depth < MAX_EXPR_DEPTH
    ensures var p := ParsePrefix(cfg, toks, pos, depth + 1);
            var r := ParseLoop(cfg, toks, p.node, p.pos, min, depth + 1);
            ParseExpr(cfg, toks, pos, min, depth) == r.(diags := p.diags + r.diags)
  {
  }

  lemma LoopStops(cfg: Config, toks: seq<Token>, e: Expr, pos: nat, min: Prec, depth: nat)
    requires At(toks, pos) && depth <= MAX_EXPR_DEPTH && !Extends(cfg, toks[pos], min)
    ensures ParseLoop(cfg, toks, e, pos, min, depth) == Parsed(e, pos, [])
  {
  }

  lemma {:induction false} NestingPositive(e: Expr)
    ensures Nesting(e) >= 1
  {
    match e
    case Postfix(lhs, _) => NestingPositive(lhs);
    case Selector(lhs, _, _) => NestingPositive(lhs);
    case _ =>
  }

  /** A token that ends a level cannot chain the operator at the top of it either. */
  lemma EndsFollows(cfg: Config, e: Expr, min: Prec, k: Token)
    requires Canonical(cfg, e, min) && Ends(cfg, e, min, k)
    ensures Follows(cfg, e, k)
  {
  }

  /** The tokens of a canonical tree lead the loop to the state where that tree is the left operand. */
  ghost predicate LeadsTo(cfg: Config, toks: seq<Token>, pos: nat, end: nat, e: Expr, min: Prec, depth: nat) {
    && At(toks, pos) && At(toks, end) && depth <= MAX_EXPR_DEPTH
    && var p := ParsePrefix(cfg, toks, pos, depth);
       && p.diags == []
       && ParseLoop(cfg, toks, p.node, p.pos, min, depth) == ParseLoop(cfg, toks, e, end, min, depth)
  }

  lemma LeadsOn(cfg: Config, toks: seq<Token>, pos: nat, mid: nat, end: nat, e: Expr, e': Expr, min: Prec, depth: nat)
    requires LeadsTo(cfg, toks, pos, mid, e, min, depth) && At(toks, end)
    requires ParseLoop(cfg, toks, e, mid, min, depth) == ParseLoop(cfg, toks, e', end, min, depth)
    ensures LeadsTo(cfg, toks, pos, end, e', min, depth)
  {
  }

  lemma {:induction false} InvertSpine(cfg: Config, toks: seq<Token>, pos: nat, end: nat, e: Expr, min: Prec,
                                       depth: nat)
    requires Printed(toks, pos, end, e) && Canonical(cfg, e, min) && Follows(cfg, e, toks[end])
    requires depth + Nesting(e) <= MAX_EXPR_DEPTH + 1
    ensures LeadsTo(cfg, toks, pos, end, e, min, depth)
    decreases e, 1
  {
    hide Canonical, Follows, Printed, LeadsTo;
    match e
    case Postfix(_, _) => InvertPostfix(cfg, toks, pos, end, e, min, depth);
    case Selector(_, _, _) => InvertSelector(cfg, toks, pos, end, e, min, depth);
    case Binary(_, _, _) => InvertBinary(cfg, toks, pos, end, e, min, depth);
    case Call(_, _, _, _) => InvertCall(cfg, toks, pos, end, e, min, depth);
    case _ => InvertPrimary(cfg, toks, pos, end, e, min, depth);
  }

  lemma {:induction false} InvertPostfix(cfg: Config, toks: seq<Token>, pos: nat, end: nat, e: Expr, min: Prec,
                                         depth: nat)
    requires Printed(toks, pos, end, e) && Canonical(cfg, e, min) && e.Postfix?
    requires depth + Nesting(e) <= MAX_EXPR_DEPTH + 1
    ensures LeadsTo(cfg, toks, pos, end, e, min, depth)
    decreases e, 0
  {
    assert At(toks, end) && depth <= MAX_EXPR_DEPTH by { NestingPositive(e); }
    hide Canonical, Follows, Printed, LeadsTo, ParseLoop;
    PostfixParts(cfg, toks, pos, end, e, min);
    InvertSpine(cfg, toks, pos, end - 1, e.lhs, min, depth);
    PostfixTurn(cfg, toks, end - 1, e, min, depth);
    LeadsOn(cfg, toks, pos, end - 1, end, e.lhs, e, min, depth);
  }

  lemma {:induction false} InvertSelector(cfg: Config, toks: seq<Token>, pos: nat, end: nat, e: Expr, min: Prec,
                                          depth: nat)
    requires Printed(toks, pos, end, e) && Canonical(cfg, e, min) && e.Selector?
    requires depth + Nesting(e) <= MAX_EXPR_DEPTH + 1
    ensures LeadsTo(cfg, toks, pos, end, e, min, depth)
    decreases e, 0
  {
    assert At(toks, end) && depth <= MAX_EXPR_DEPTH && Nesting(e.lhs) == Nesting(e) by { NestingPositive(e); }
    hide Canonical, Follows, Printed, LeadsTo, ParseLoop, ParseExpr, Chains, Nesting, InfixApplies, PostfixApplies;
    SelectorParts(cfg, toks, pos, end, e, min);
    InvertSpine(cfg, toks, pos, end - 2, e.lhs, min, depth);
    SelectorTurn(cfg, toks, end - 2, e, min, depth);
    LeadsOn(cfg, toks, pos, end - 2, end, e.lhs, e, min, depth);
  }

  lemma {:induction false} InvertBinary(cfg: Config, toks: seq<Token>, pos: nat, end: nat, e: Expr, min: Prec,
                                        depth: nat)
    requires Printed(toks, pos, end, e) && Canonical(cfg, e, min) && Follows(cfg, e, toks[end]) && e.Binary?
    requires depth + Nesting(e) <= MAX_EXPR_DEPTH + 1
    ensures LeadsTo(cfg, toks, pos, end, e, min, depth)
    decreases e, 0
  {
    assert At(toks, end) && depth <= MAX_EXPR_DEPTH by { NestingPositive(e); }
    hide Canonical, Follows, Printed, LeadsTo, ParseLoop, ParseExpr, Chains;
    var mid, m := BinaryParts(cfg, toks, pos, end, e, min);
    InvertSpine(cfg, toks, pos, mid, e.lhs, min, depth);
    InvertExpr(cfg, toks, mid + 1, end, e.rhs, m, depth);
    BinaryTurn(cfg, toks, mid, end, e, min, depth);
    LeadsOn(cfg, toks, pos, mid, end, e.lhs, e, min, depth);
  }

  lemma {:induction false} InvertCall(cfg: Config, toks: seq<Token>, pos: nat, end: nat, e: Expr, min: Prec,
                                      depth: nat)
    requires Printed(toks, pos, end, e) && Canonical(cfg, e, min) && e.Call?
    requires depth + Nesting(e) <= MAX_EXPR_DEPTH + 1
    ensures LeadsTo(cfg, toks, pos, end, e, min, depth)
    decreases e, 0
  {
    assert At(toks, end) && depth <= MAX_EXPR_DEPTH by { NestingPositive(e); }
    hide Canonical, Follows, Printed, PrintedArgs, LeadsTo, ParseLoop, ParseList, CanonicalArgs, StartsArg;
    var mid := CallParts(cfg, toks, pos, end, e, min);
    InvertSpine(cfg, toks, pos, mid, e.lhs, min, depth);
    InvertList(cfg, toks, mid + 1, end - 1, e.args, depth);
    CallTurn(cfg, toks, mid, end, e, min, depth);
    LeadsOn(cfg, toks, pos, mid, end, e.lhs, e, min, depth);
  }

  lemma {:induction false} InvertPrimary(cfg: Config, toks: seq<Token>, pos: nat, end: nat, e: Expr, min: Prec,
                                         depth: nat)
    requires Printed(toks, pos, end, e) && Canonical(cfg, e, min) && Follows(cfg, e, toks[end])
    requires depth + Nesting(e) <= MAX_EXPR_DEPTH + 1
    requires !e.Postfix? && !e.Selector? && !e.Binary? && !e.Call?
    ensures LeadsTo(cfg, toks, pos, end, e, min, depth)
    decreases e, 0
  {
    assert At(toks, end);
    hide Canonical, Follows, Printed, LeadsTo, Yield;
    match e
    case Group(_, inner, _) =>
      GroupParts(cfg, toks, pos, end, e, min);
      InvertExpr(cfg, toks, pos + 1, end - 1, inner, 0, depth);
      GroupLeads(cfg, toks, pos, end, e, min, depth);
    case Prefix(op, operand) =>
      var m := PrefixParts(cfg, toks, pos, end, e, min);
      InvertExpr(cfg, toks, pos + 1, end, operand, m, depth);
    case Error(_) =>
    case _ =>
  }

  lemma GroupParts(cfg: Config, toks: seq<Token>, pos: nat, end: nat, e: Expr, min: Prec)
    requires Printed(toks, pos, end, e) && Canonical(cfg, e, min) && e.Group?
    ensures pos + 1 <= end - 1 && toks[pos] == e.open && Some(toks[end - 1]) == e.close
    ensures Printed(toks, pos + 1, end - 1, e.inner)
    ensures Canonical(cfg, e.inner, 0) && Ends(cfg, e.inner, 0, toks[end - 1])
  {
    assert Yield(e) == [e.open] + (Yield(e.inner) + [e.close.value]);
    Unsplice(toks, pos + 1, end, Yield(e.inner), [e.close.value]);
  }

  lemma GroupLeads(cfg: Config, toks: seq<Token>, pos: nat, end: nat, e: Expr, min: Prec, depth: nat)
    requires At(toks, pos) && At(toks, end) && pos + 1 < end && depth <= MAX_EXPR_DEPTH
    requires e.Group? && toks[pos] == e.open && Some(toks[end - 1]) == e.close && Canonical(cfg, e, min)
    requires ParseExpr(cfg, toks, pos + 1, 0, depth) == Parsed(e.inner, end - 1, [])
    ensures LeadsTo(cfg, toks, pos, end, e, min, depth)
  {
    hide ParseLoop, ParseExpr;
  }

  lemma PrefixParts(cfg: Config, toks: seq<Token>, pos: nat, end: nat, e: Expr, min: Prec) returns (m: Prec)
    requires Printed(toks, pos, end, e) && Canonical(cfg, e, min) && Follows(cfg, e, toks[end]) && e.Prefix?
    ensures pos + 1 <= end && toks[pos] == e.op
    ensures OperatorFor(cfg, e.op, Prefixed).Some? && OperatorFor(cfg, e.op, Prefixed).value.prec == m
    ensures Printed(toks, pos + 1, end, e.operand)
    ensures Canonical(cfg, e.operand, m) && Ends(cfg, e.operand, m, toks[end])
  {
    m := OperatorFor(cfg, e.op, Prefixed).value.prec;
  }

  lemma PostfixParts(cfg: Config, toks: seq<Token>, pos: nat, end: nat, e: Expr, min: Prec)
    requires Printed(toks, pos, end, e) && Canonical(cfg, e, min) && e.Postfix?
    ensures pos + 1 <= end && toks[end - 1] == e.op && PostfixApplies(cfg, e.op, min)
    ensures Printed(toks, pos, end - 1, e.lhs)
    ensures Canonical(cfg, e.lhs, min) && Follows(cfg, e.lhs, toks[end - 1])
  {
    Unsplice(toks, pos, end, Yield(e.lhs), [e.op]);
  }

  lemma PostfixTurn(cfg: Config, toks: seq<Token>, pos: nat, e: Expr, min: Prec, depth: nat)
    requires At(toks, pos) && At(toks, pos + 1) && depth <= MAX_EXPR_DEPTH
    requires e.Postfix? && toks[pos] == e.op && PostfixApplies(cfg, e.op, min)
    ensures ParseLoop(cfg, toks, e.lhs, pos, min, depth) == ParseLoop(cfg, toks, e, pos + 1, min, depth)
  {
  }

  lemma SelectorParts(cfg: Config, toks: seq<Token>, pos: nat, end: nat, e: Expr, min: Prec)
    requires Printed(toks, pos, end, e) && Canonical(cfg, e, min) && e.Selector?
    ensures pos + 2 <= end && toks[end - 2] == e.op && toks[end - 1] == e.name && e.name.kind == IDENT
    ensures InfixApplies(cfg, e.op, min) && OperatorFor(cfg, e.op, Infix).value.selector
    ensures !PostfixApplies(cfg, e.op, min)
    ensures Printed(toks, pos, end - 2, e.lhs)
    ensures Canonical(cfg, e.lhs, min) && Follows(cfg, e.lhs, toks[end - 2])
  {
    Unsplice(toks, pos, end, Yield(e.lhs), [e.op, e.name]);
    assert toks[end - 2..end][0] == e.op && toks[end - 2..end][1] == e.name;
  }

  lemma SelectorTurn(cfg: Config, toks: seq<Token>, pos: nat, e: Expr, min: Prec, depth: nat)
    requires At(toks, pos) && At(toks, pos + 2) && depth <= MAX_EXPR_DEPTH
    requires e.Selector? && toks[pos] == e.op && toks[pos + 1] == e.name && e.name.kind == IDENT
    requires InfixApplies(cfg, e.op, min) && OperatorFor(cfg, e.op, Infix).value.selector
    requires !PostfixApplies(cfg, e.op, min)
    ensures ParseLoop(cfg, toks, e.lhs, pos, min, depth) == ParseLoop(cfg, toks, e, pos + 2, min, depth)
  {
  }

  lemma BinaryParts(cfg: Config, toks: seq<Token>, pos: nat, end: nat, e: Expr, min: Prec)
    returns (mid: nat, m: Prec)
    requires Printed(toks, pos, end, e) && Canonical(cfg, e, min) && Follows(cfg, e, toks[end]) && e.Binary?
    ensures pos <= mid < end && toks[mid] == e.op
    ensures InfixApplies(cfg, e.op, min) && !OperatorFor(cfg, e.op, Infix).value.selector
    ensures !PostfixApplies(cfg, e.op, min) && m == NextMinPrec(OperatorFor(cfg, e.op, Infix).value)
    ensures !Chains(cfg, e, toks[end])
    ensures Printed(toks, pos, mid, e.lhs) && Canonical(cfg, e.lhs, min) && Follows(cfg, e.lhs, toks[mid])
    ensures Printed(toks, mid + 1, end, e.rhs) && Canonical(cfg, e.rhs, m) && Ends(cfg, e.rhs, m, toks[end])
  {
    assert Yield(e) == Yield(e.lhs) + ([e.op] + Yield(e.rhs));
    Unsplice(toks, pos, end, Yield(e.lhs), [e.op] + Yield(e.rhs));
    mid := pos + |Yield(e.lhs)|;
    m := NextMinPrec(OperatorFor(cfg, e.op, Infix).value);
  }

  lemma BinaryTurn(cfg: Config, toks: seq<Token>, pos: nat, end: nat, e: Expr, min: Prec, depth: nat)
    requires At(toks, pos) && At(toks, end) && pos < end && depth <= MAX_EXPR_DEPTH
    requires e.Binary? && toks[pos] == e.op
    requires InfixApplies(cfg, e.op, min) && !OperatorFor(cfg, e.op, Infix).value.selector
    requires !PostfixApplies(cfg, e.op, min) && !Chains(cfg, e, toks[end])
    requires ParseExpr(cfg, toks, pos + 1, NextMinPrec(OperatorFor(cfg, e.op, Infix).value), depth) ==
             Parsed(e.rhs, end, [])
    ensures ParseLoop(cfg, toks, e.lhs, pos, min, depth) == ParseLoop(cfg, toks, e, end, min, depth)
  {
    hide ParseExpr, Chains;
  }

  lemma CallParts(cfg: Config, toks: seq<Token>, pos: nat, end: nat, e: Expr, min: Prec) returns (mid: nat)
    requires Printed(toks, pos, end, e) && Canonical(cfg, e, min) && e.Call?
    ensures pos <= mid && mid + 1 <= end - 1 && toks[mid] == e.open && Some(toks[end - 1]) == e.close
    ensures OpensCall(cfg, e.open) && IsPunct(toks[end - 1], cfg.call.value.close)
    ensures Printed(toks, pos, mid, e.lhs) && Canonical(cfg, e.lhs, min) && Follows(cfg, e.lhs, toks[mid])
    ensures PrintedArgs(toks, mid + 1, end - 1, e.args) && CanonicalArgs(cfg, e.args, toks[end - 1])
    ensures e.args.OneMore? ==> StartsArg(cfg.call.value, e.args)
  {
    hide Follows, CanonicalArgs, StartsArg, YieldArgs;
    var tail := YieldArgs(e.args) + [e.close.value];
    assert Yield(e) == Yield(e.lhs) + ([e.open] + tail);
    Unsplice(toks, pos, end, Yield(e.lhs), [e.open] + tail);
    mid := pos + |Yield(e.lhs)|;
    Unsplice(toks, mid + 1, end, YieldArgs(e.args), [e.close.value]);
  }

  lemma CallTurn(cfg: Config, toks: seq<Token>, pos: nat, end: nat, e: Expr, min: Prec, depth: nat)
    requires At(toks, pos) && At(toks, end) && pos + 1 < end && depth <= MAX_EXPR_DEPTH
    requires e.Call? && toks[pos] == e.open && Some(toks[end - 1]) == e.close
    requires OpensCall(cfg, e.open) && IsPunct(toks[end - 1], cfg.call.value.close)
    requires ParseList(cfg, cfg.call.value, toks, pos + 1, depth) == ParsedArgs(e.args, end - 1, [])
    ensures ParseLoop(cfg, toks, e.lhs, pos, min, depth) == ParseLoop(cfg, toks, e, end, min, depth)
  {
    hide ParseList;
    assert ParseCall(cfg, toks, e.lhs, pos, depth) == Parsed(e, end, []);
  }

  lemma {:induction false} InvertList(cfg: Config, toks: seq<Token>, pos: nat, end: nat, args: Args, depth: nat)
    requires cfg.call.Some? && PrintedArgs(toks, pos, end, args) && CanonicalArgs(cfg, args, toks[end])
    requires args.OneMore? ==> StartsArg(cfg.call.value, args)
    requires IsPunct(toks[end], cfg.call.value.close) && depth + NestingArgs(args) <= MAX_EXPR_DEPTH
    ensures ParseList(cfg, cfg.call.value, toks, pos, depth) == ParsedArgs(args, end, [])
    decreases args, 0
  {
    hide Canonical, CanonicalArgs, Printed, ParseExpr, StartsArg;
    if args.OneMore? {
      var mid := ItemParts(cfg, toks, pos, end, args);
      InvertExpr(cfg, toks, pos, mid, args.arg, 0, depth);
      if args.sep.Some? {
        InvertList(cfg, toks, mid + 1, end, args.rest, depth);
      }
      ItemTurn(cfg, toks, pos, mid, end, args, depth);
    } else {
      assert pos == end;
    }
  }

  lemma ItemParts(cfg: Config, toks: seq<Token>, pos: nat, end: nat, args: Args) returns (mid: nat)
    requires cfg.call.Some? && PrintedArgs(toks, pos, end, args) && CanonicalArgs(cfg, args, toks[end])
    requires args.OneMore? && StartsArg(cfg.call.value, args)
    ensures pos < mid <= end && Printed(toks, pos, mid, args.arg) && !IsPunct(toks[pos], cfg.call.value.close)
    ensures Canonical(cfg, args.arg, 0) && Ends(cfg, args.arg, 0, toks[mid])
    ensures args.sep.None? ==> mid == end && args.rest == NoMore && !IsPunct(toks[end], cfg.call.value.sep)
    ensures args.sep.Some? ==> && mid < end && toks[mid] == args.sep.value && IsPunct(toks[mid], cfg.call.value.sep)
                               && PrintedArgs(toks, mid + 1, end, args.rest)
                               && CanonicalArgs(cfg, args.rest, toks[end])
                               && (args.rest.OneMore? ==> StartsArg(cfg.call.value, args.rest))
  {
    hide Canonical, Ends;
    var tail := Opt(args.sep) + YieldArgs(args.rest);
    assert YieldArgs(args) == Yield(args.arg) + tail;
    Unsplice(toks, pos, end, Yield(args.arg), tail);
    mid := pos + |Yield(args.arg)|;
    assert toks[pos] == toks[pos..mid][0] == Yield(args.arg)[0];
    if args.sep.Some? {
      assert tail == [args.sep.value] + YieldArgs(args.rest);
    }
  }

  lemma ItemTurn(cfg: Config, toks: seq<Token>, pos: nat, mid: nat, end: nat, args: Args, depth: nat)
    requires cfg.call.Some? && At(toks, pos) && At(toks, mid) && At(toks, end) && depth <= MAX_EXPR_DEPTH
    requires pos < mid && args.OneMore? && !IsPunct(toks[pos], cfg.call.value.close)
    requires ParseExpr(cfg, toks, pos, 0, depth) == Parsed(args.arg, mid, [])
    requires args.sep.None? ==> mid == end && args.rest == NoMore && !IsPunct(toks[end], cfg.call.value.sep)
    requires args.sep.Some? ==>
               && mid < end && toks[mid] == args.sep.value && IsPunct(toks[mid], cfg.call.value.sep)
               && ParseList(cfg, cfg.call.value, toks, mid + 1, depth) == ParsedArgs(args.rest, end, [])
    ensures ParseList(cfg, cfg.call.value, toks, pos, depth) == ParsedArgs(args, end, [])
  {
    hide ParseExpr;
    assert ParseItems(cfg, cfg.call.value, toks, pos, depth) == ParsedArgs(args, end, []);
  }

  // ----- the theorems

  /**
   The parser inverts the printer: the tokens of a canonical tree of fewer than 512
   nested levels, before a token that cannot continue it, parse to that tree.
  */
  lemma ParserInvertsPrinter(cfg: Config, e: Expr, min: Prec, before: seq<Token>, after: seq<Token>)
    requires Canonical(cfg, e, min) && Nesting(e) <= MAX_EXPR_DEPTH
    requires EndsInEof(after) && Ends(cfg, e, min, after[0])
    ensures var toks := before + Yield(e) + after;
            At(toks, |before|) && ParseExpr(cfg, toks, |before|, min, 0) == Parsed(e, |before| + |Yield(e)|, [])
  {
    var toks := before + Yield(e) + after;
    var end := |before| + |Yield(e)|;
    assert toks[end..] == after && toks[|before|..end] == Yield(e);
    assert toks[end] == after[0] && toks[|toks| - 1] == after[|after| - 1];
    InvertExpr(cfg, toks, |before|, end, e, min, 0);
  }

  /** EOF ends every expression. */
  lemma {:induction false} EofEnds(cfg: Config, e: Expr, min: Prec, k: Token)
    requires k.kind == EOF
    ensures Ends(cfg, e, min, k)
  {
    match e
    case Prefix(_, operand) => EofEnds(cfg, operand, 0, k);
    case Binary(_, _, rhs) => EofEnds(cfg, rhs, 0, k);
    case _ =>
  }

  /** A token sequence has at most one canonical tree. */
  lemma CanonicalTreeUnique(cfg: Config, e: Expr, f: Expr, min: Prec)
    requires Canonical(cfg, e, min) && Canonical(cfg, f, min) && Yield(e) == Yield(f)
    requires Nesting(e) <= MAX_EXPR_DEPTH && Nesting(f) <= MAX_EXPR_DEPTH
    ensures e == f
  {
    var eof := Token(EOF, 0, "", Span(0, 0));
    EofEnds(cfg, e, min, eof);
    EofEnds(cfg, f, min, eof);
    ParserInvertsPrinter(cfg, e, min, [], [eof]);
    ParserInvertsPrinter(cfg, f, min, [], [eof]);
  }
}
