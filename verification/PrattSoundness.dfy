/**
 What a parse without diagnostics returns: a tree that respects the operator table
 and whose tokens are exactly the ones consumed.
*/
module PrattSoundness {
  import opened Options
  import opened Syntax
  import opened Pratt

  /** `e` is canonical at level `min` and its tokens are those from `start` to `pos`. */
  ghost predicate Covers(cfg: Config, toks: seq<Token>, start: nat, pos: nat, e: Expr, min: Prec) {
    start <= pos <= |toks| && Canonical(cfg, e, min) && Yield(e) == toks[start..pos]
  }

  ghost predicate CoversArgs(cfg: Config, toks: seq<Token>, start: nat, pos: nat, args: Args)
    requires cfg.call.Some? && pos < |toks|
  {
    start <= pos && CanonicalArgs(cfg, args, toks[pos]) && YieldArgs(args) == toks[start..pos]
  }

  lemma {:induction false} ExprSound(cfg: Config, toks: seq<Token>, pos: nat, min: Prec, depth: nat)
    requires At(toks, pos) && depth <= MAX_EXPR_DEPTH
    requires ParseExpr(cfg, toks, pos, min, depth).diags == []
    ensures var r := ParseExpr(cfg, toks, pos, min, depth);
            Covers(cfg, toks, pos, r.pos, r.node, min) && Ends(cfg, r.node, min, toks[r.pos])
    decreases MAX_EXPR_DEPTH - depth, |toks| - pos, 0
  {
    hide Covers, Canonical, Follows, Ends;
    var p := ParsePrefix(cfg, toks, pos, depth + 1);
    PrefixSound(cfg, toks, pos, min, depth + 1);
    LoopSound(cfg, toks, p.node, pos, p.pos, min, depth + 1);
  }

  lemma {:induction false} PrefixSound(cfg: Config, toks: seq<Token>, pos: nat, min: Prec, depth: nat)
    requires At(toks, pos) && depth <= MAX_EXPR_DEPTH
    requires ParsePrefix(cfg, toks, pos, depth).diags == []
    ensures var r := ParsePrefix(cfg, toks, pos, depth);
            Covers(cfg, toks, pos, r.pos, r.node, min) && Follows(cfg, r.node, toks[r.pos])
    decreases MAX_EXPR_DEPTH - depth, |toks| - pos, 2
  {
    hide Covers, Canonical, Yield, Ends, Follows;
    var t := toks[pos];
    if t.kind == IDENT || IsLiteral(t) {
      AtomCovers(cfg, toks, pos, min);
    } else if IsPunct(t, '(') {
      var r := ParseExpr(cfg, toks, pos + 1, 0, depth);
      ExprSound(cfg, toks, pos + 1, 0, depth);
      GroupCovers(cfg, toks, pos, r.pos, r.node, min);
    } else {
      var op := OperatorFor(cfg, t, Prefixed).value;
      var r := ParseExpr(cfg, toks, pos + 1, op.prec, depth);
      ExprSound(cfg, toks, pos + 1, op.prec, depth);
      PrefixCovers(cfg, toks, pos, r.pos, r.node, op.prec, min);
    }
  }

  lemma AtomCovers(cfg: Config, toks: seq<Token>, pos: nat, min: Prec)
    requires At(toks, pos) && pos + 1 < |toks|
    ensures toks[pos].kind == IDENT ==> Covers(cfg, toks, pos, pos + 1, Ident(toks[pos]), min)
                                        && Follows(cfg, Ident(toks[pos]), toks[pos + 1])
    ensures IsLiteral(toks[pos]) ==> Covers(cfg, toks, pos, pos + 1, Literal(toks[pos]), min)
                                     && Follows(cfg, Literal(toks[pos]), toks[pos + 1])
  {
    assert toks[pos..pos + 1] == [toks[pos]];
  }

  lemma GroupCovers(cfg: Config, toks: seq<Token>, pos: nat, end: nat, inner: Expr, min: Prec)
    requires At(toks, pos) && end + 1 < |toks| && IsPunct(toks[pos], '(') && IsPunct(toks[end], ')')
    requires Covers(cfg, toks, pos + 1, end, inner, 0) && Ends(cfg, inner, 0, toks[end])
    ensures Covers(cfg, toks, pos, end + 1, Group(toks[pos], inner, Some(toks[end])), min)
    ensures Follows(cfg, Group(toks[pos], inner, Some(toks[end])), toks[end + 1])
  {
    hide Ends;
    assert toks[pos..end + 1] == [toks[pos]] + toks[pos + 1..end] + [toks[end]];
  }

  lemma PrefixCovers(cfg: Config, toks: seq<Token>, pos: nat, end: nat, operand: Expr, m: Prec, min: Prec)
    requires At(toks, pos) && At(toks, end) && OperatorFor(cfg, toks[pos], Prefixed).Some?
    requires OperatorFor(cfg, toks[pos], Prefixed).value.prec == m
    requires Covers(cfg, toks, pos + 1, end, operand, m) && Ends(cfg, operand, m, toks[end])
    ensures Covers(cfg, toks, pos, end, Prefix(toks[pos], operand), min)
    ensures Follows(cfg, Prefix(toks[pos], operand), toks[end])
  {
    hide Extends;
    assert toks[pos..end] == [toks[pos]] + toks[pos + 1..end];
  }

  lemma {:induction false} LoopSound(cfg: Config, toks: seq<Token>, lhs: Expr, start: nat, pos: nat, min: Prec,
                                     depth: nat)
    requires At(toks, pos) && depth <= MAX_EXPR_DEPTH
    requires Covers(cfg, toks, start, pos, lhs, min) && Follows(cfg, lhs, toks[pos])
    requires ParseLoop(cfg, toks, lhs, pos, min, depth).diags == []
    ensures var r := ParseLoop(cfg, toks, lhs, pos, min, depth);
            Covers(cfg, toks, start, r.pos, r.node, min) && Ends(cfg, r.node, min, toks[r.pos])
    decreases MAX_EXPR_DEPTH - depth, |toks| - pos, 1
  {
    hide Canonical, Yield, Absorbs, Chains, CanonicalArgs;
    var t := toks[pos];
    if OpensCall(cfg, t) {
      var c := ParseCall(cfg, toks, lhs, pos, depth);
      CallSound(cfg, toks, lhs, start, pos, min, depth);
      LoopSound(cfg, toks, c.node, start, c.pos, min, depth);
    } else if PostfixApplies(cfg, t, min) {
      PostfixCovers(cfg, toks, lhs, start, pos, min);
      ClosedFollows(cfg, Postfix(lhs, t), toks[pos + 1]);
      LoopSound(cfg, toks, Postfix(lhs, t), start, pos + 1, min, depth);
    } else if InfixApplies(cfg, t, min) {
      var op := OperatorFor(cfg, t, Infix).value;
      if op.selector {
        SelectorCovers(cfg, toks, lhs, start, pos, min);
        ClosedFollows(cfg, Selector(lhs, t, toks[pos + 1]), toks[pos + 2]);
        LoopSound(cfg, toks, Selector(lhs, t, toks[pos + 1]), start, pos + 2, min, depth);
      } else {
        var rhs := ParseExpr(cfg, toks, pos + 1, NextMinPrec(op), depth);
        ExprSound(cfg, toks, pos + 1, NextMinPrec(op), depth);
        BinaryCovers(cfg, toks, lhs, start, pos, rhs.pos, rhs.node, min);
        LoopSound(cfg, toks, Binary(lhs, t, rhs.node), start, rhs.pos, min, depth);
      }
    }
  }

  /** Only a binary or a prefix expression is open at its right edge. */
  lemma ClosedFollows(cfg: Config, e: Expr, k: Token)
    requires !e.Binary? && !e.Prefix?
    ensures Follows(cfg, e, k)
  {
  }

  lemma PostfixCovers(cfg: Config, toks: seq<Token>, lhs: Expr, start: nat, pos: nat, min: Prec)
    requires At(toks, pos) && pos + 1 < |toks| && PostfixApplies(cfg, toks[pos], min)
    requires Covers(cfg, toks, start, pos, lhs, min) && Follows(cfg, lhs, toks[pos])
    ensures Covers(cfg, toks, start, pos + 1, Postfix(lhs, toks[pos]), min)
  {
    assert toks[start..pos + 1] == toks[start..pos] + [toks[pos]];
  }

  lemma SelectorCovers(cfg: Config, toks: seq<Token>, lhs: Expr, start: nat, pos: nat, min: Prec)
    requires At(toks, pos) && pos + 2 < |toks| && InfixApplies(cfg, toks[pos], min)
    requires OperatorFor(cfg, toks[pos], Infix).value.selector && !PostfixApplies(cfg, toks[pos], min)
    requires toks[pos + 1].kind == IDENT
    requires Covers(cfg, toks, start, pos, lhs, min) && Follows(cfg, lhs, toks[pos])
    ensures Covers(cfg, toks, start, pos + 2, Selector(lhs, toks[pos], toks[pos + 1]), min)
  {
    assert toks[start..pos + 2] == toks[start..pos] + [toks[pos], toks[pos + 1]];
  }

  lemma BinaryCovers(cfg: Config, toks: seq<Token>, lhs: Expr, start: nat, pos: nat, pos': nat, rhs: Expr, min: Prec)
    requires At(toks, pos) && InfixApplies(cfg, toks[pos], min) && !PostfixApplies(cfg, toks[pos], min)
    requires !OperatorFor(cfg, toks[pos], Infix).value.selector
    requires Covers(cfg, toks, start, pos, lhs, min) && Follows(cfg, lhs, toks[pos])
    requires var m := NextMinPrec(OperatorFor(cfg, toks[pos], Infix).value);
             At(toks, pos') && Covers(cfg, toks, pos + 1, pos', rhs, m) && Ends(cfg, rhs, m, toks[pos'])
    ensures Covers(cfg, toks, start, pos', Binary(lhs, toks[pos], rhs), min)
    ensures !Absorbs(cfg, Binary(lhs, toks[pos], rhs), toks[pos'])
  {
  }

  lemma {:induction false} CallSound(cfg: Config, toks: seq<Token>, lhs: Expr, start: nat, pos: nat, min: Prec,
                                     depth: nat)
    requires At(toks, pos) && depth <= MAX_EXPR_DEPTH && OpensCall(cfg, toks[pos])
    requires Covers(cfg, toks, start, pos, lhs, min) && Follows(cfg, lhs, toks[pos])
    requires ParseCall(cfg, toks, lhs, pos, depth).diags == []
    ensures var r := ParseCall(cfg, toks, lhs, pos, depth);
            Covers(cfg, toks, start, r.pos, r.node, min) && Follows(cfg, r.node, toks[r.pos])
    decreases MAX_EXPR_DEPTH - depth, |toks| - pos, 0
  {
    hide Follows, Absorbs, Chains, CanonicalArgs, StartsArg, ParseList;
    var d := cfg.call.value;
    var list := ParseList(cfg, d, toks, pos + 1, depth);
    ListSound(cfg, d, toks, pos + 1, depth);
    ClosedFollows(cfg, Call(lhs, toks[pos], list.args, Some(toks[list.pos])), toks[list.pos + 1]);
  }

  /** The list stands before a closing delimiter whenever the call that reads it is clean. */
  lemma {:induction false} ListSound(cfg: Config, d: Delims, toks: seq<Token>, pos: nat, depth: nat)
    requires At(toks, pos) && depth <= MAX_EXPR_DEPTH && cfg.call == Some(d)
    requires ParseList(cfg, d, toks, pos, depth).diags == []
    requires IsPunct(toks[ParseList(cfg, d, toks, pos, depth).pos], d.close)
    ensures var r := ParseList(cfg, d, toks, pos, depth);
            CoversArgs(cfg, toks, pos, r.pos, r.args) && (r.args.OneMore? ==> StartsArg(d, r.args))
    decreases MAX_EXPR_DEPTH - depth, |toks| - pos, 2
  {
    if !IsPunct(toks[pos], d.close) {
      ItemsSound(cfg, d, toks, pos, depth);
    }
  }

  lemma {:induction false} ItemsSound(cfg: Config, d: Delims, toks: seq<Token>, pos: nat, depth: nat)
    requires At(toks, pos) && depth <= MAX_EXPR_DEPTH && cfg.call == Some(d)
    requires ParseItems(cfg, d, toks, pos, depth).diags == [] && !IsPunct(toks[pos], d.close)
    requires IsPunct(toks[ParseItems(cfg, d, toks, pos, depth).pos], d.close)
    ensures var r := ParseItems(cfg, d, toks, pos, depth);
            CoversArgs(cfg, toks, pos, r.pos, r.args) && (r.args.OneMore? ==> StartsArg(d, r.args))
    decreases MAX_EXPR_DEPTH - depth, |toks| - pos, 1
  {
    hide Covers, Canonical, Yield, Ends, CanonicalArgs, YieldArgs, CoversArgs, StartsArg;
    var item := ParseExpr(cfg, toks, pos, 0, depth);
    ExprSound(cfg, toks, pos, 0, depth);
    ItemStarts(cfg, d, toks, pos, item.pos, item.node);
    if IsPunct(toks[item.pos], d.sep) {
      var rest := ParseList(cfg, d, toks, item.pos + 1, depth);
      ListSound(cfg, d, toks, item.pos + 1, depth);
      ItemCovers(cfg, toks, pos, item.pos, rest.pos, item.node, rest.args);
    } else {
      LastItemCovers(cfg, toks, pos, item.pos, item.node);
    }
  }

  lemma ItemStarts(cfg: Config, d: Delims, toks: seq<Token>, pos: nat, end: nat, e: Expr)
    requires At(toks, pos) && Covers(cfg, toks, pos, end, e, 0) && !IsPunct(toks[pos], d.close)
    ensures pos < end && forall sep, rest :: StartsArg(d, OneMore(e, sep, rest))
  {
    assert Yield(e)[0] == toks[pos];
  }

  lemma LastItemCovers(cfg: Config, toks: seq<Token>, pos: nat, end: nat, e: Expr)
    requires cfg.call.Some? && At(toks, end) && Covers(cfg, toks, pos, end, e, 0) && Ends(cfg, e, 0, toks[end])
    requires !IsPunct(toks[end], cfg.call.value.sep)
    ensures CoversArgs(cfg, toks, pos, end, OneMore(e, None, NoMore))
  {
    assert Yield(e) + [] + [] == Yield(e);
  }

  lemma ItemCovers(cfg: Config, toks: seq<Token>, pos: nat, mid: nat, end: nat, e: Expr, rest: Args)
    requires cfg.call.Some? && At(toks, end) && mid < end
    requires Covers(cfg, toks, pos, mid, e, 0) && Ends(cfg, e, 0, toks[mid])
    requires IsPunct(toks[mid], cfg.call.value.sep)
    requires CoversArgs(cfg, toks, mid + 1, end, rest) && (rest.OneMore? ==> StartsArg(cfg.call.value, rest))
    ensures CoversArgs(cfg, toks, pos, end, OneMore(e, Some(toks[mid]), rest))
  {
    hide Ends, Canonical, StartsArg, Yield;
  }

  /**
   Every parse that pushes no diagnostic returns a tree whose tokens are the ones it
   consumed, in which every operator stands where the table lets it, and stops at a
   token that cannot continue it.
  */
  lemma ParserSound(cfg: Config, toks: seq<Token>, pos: nat, min: Prec)
    requires At(toks, pos) && ParseExpr(cfg, toks, pos, min, 0).diags == []
    ensures var r := ParseExpr(cfg, toks, pos, min, 0);
            && Yield(r.node) == toks[pos..r.pos] && pos < r.pos
            && Canonical(cfg, r.node, min) && Ends(cfg, r.node, min, toks[r.pos])
  {
    ExprSound(cfg, toks, pos, min, 0);
  }
}
