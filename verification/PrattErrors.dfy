/**
 Trees with errors: which tokens they keep, and on which inputs there are no errors.
*/
module PrattErrors {
  import opened Syntax
  import opened Pratt
  import opened PrattSoundness
  import opened PrattInversion

  // ----- the tokens of a tree

  /** Some selector had no name behind it. */
  predicate LosesOperand(diags: seq<Diag>) {
    exists d <- diags :: d.message == ExpectedSelectorName
  }

  /** The tree holds all tokens from `from` to `to`, unless an operand was lost, and then fewer. */
  predicate Keeps(toks: seq<Token>, from: nat, to: nat, kept: seq<Token>, diags: seq<Diag>) {
    && from <= to <= |toks| && |kept| <= to - from
    && (LosesOperand(diags) <==> |kept| < to - from)
    && (!LosesOperand(diags) ==> kept == toks[from..to])
  }

  lemma LosesJoin(a: seq<Diag>, b: seq<Diag>)
    ensures LosesOperand(a + b) <==> LosesOperand(a) || LosesOperand(b)
  {
    assert forall d :: d in a + b <==> d in a || d in b;
  }

  lemma LosesOne(d: Diag)
    ensures LosesOperand([d]) <==> d.message == ExpectedSelectorName
    ensures !LosesOperand([])
  {
    assert d in [d];
  }

  lemma KeepsNothing(toks: seq<Token>, pos: nat)
    requires pos <= |toks|
    ensures Keeps(toks, pos, pos, [], [])
  {
  }

  lemma KeepsJoin(toks: seq<Token>, from: nat, mid: nat, to: nat, a: seq<Token>, b: seq<Token>, x: seq<Diag>,
                  y: seq<Diag>)
    requires Keeps(toks, from, mid, a, x) && Keeps(toks, mid, to, b, y)
    ensures Keeps(toks, from, to, a + b, x + y)
  {
    LosesJoin(x, y);
    hide LosesOperand;
    if !LosesOperand(x + y) { assert toks[from..to] == toks[from..mid] + toks[mid..to]; }
  }

  lemma KeepsOne(toks: seq<Token>, pos: nat)
    requires pos < |toks|
    ensures Keeps(toks, pos, pos + 1, [toks[pos]], [])
  {
    assert toks[pos..pos + 1] == [toks[pos]];
  }

  /** A diagnostic of another kind changes nothing. */
  lemma KeepsSaying(toks: seq<Token>, from: nat, to: nat, kept: seq<Token>, diags: seq<Diag>, d: Diag)
    requires Keeps(toks, from, to, kept, diags) && d.message != ExpectedSelectorName
    ensures Keeps(toks, from, to, kept, diags + [d])
  {
    LosesJoin(diags, [d]);
    LosesOne(d);
    hide LosesOperand;
  }

  /** One token more behind. */
  lemma KeepsMore(toks: seq<Token>, from: nat, pos: nat, kept: seq<Token>, diags: seq<Diag>)
    requires Keeps(toks, from, pos, kept, diags) && pos < |toks|
    ensures Keeps(toks, from, pos + 1, kept + [toks[pos]], diags)
  {
    hide Keeps;
    KeepsOne(toks, pos);
    KeepsJoin(toks, from, pos, pos + 1, kept, [toks[pos]], diags, []);
    assert diags + [] == diags;
  }

  lemma ErrorKeeps(toks: seq<Token>, pos: nat, message: Message)
    requires At(toks, pos) && message != ExpectedSelectorName
    ensures var r := ErrorNode(toks, pos, message);
            Keeps(toks, pos, r.pos, Yield(r.node), r.diags)
  {
    LosesOne(Diag(message, toks[pos]));
  }

  lemma {:induction false} ExprKeeps(cfg: Config, toks: seq<Token>, pos: nat, min: Prec, depth: nat)
    requires At(toks, pos) && depth <= MAX_EXPR_DEPTH
    ensures var r := ParseExpr(cfg, toks, pos, min, depth);
            Keeps(toks, pos, r.pos, Yield(r.node), r.diags)
    decreases MAX_EXPR_DEPTH - depth, |toks| - pos, 0
  {
    hide Keeps, Yield, ParsePrefix, ParseLoop, ErrorNode;
    if depth >= MAX_EXPR_DEPTH {
      ErrorKeeps(toks, pos, TooDeep);
    } else {
      PrefixKeeps(cfg, toks, pos, depth + 1);
      var p := ParsePrefix(cfg, toks, pos, depth + 1);
      LoopKeeps(cfg, toks, pos, p.node, p.pos, min, depth + 1, p.diags);
    }
  }

  lemma {:induction false} PrefixKeeps(cfg: Config, toks: seq<Token>, pos: nat, depth: nat)
    requires At(toks, pos) && depth <= MAX_EXPR_DEPTH
    ensures var r := ParsePrefix(cfg, toks, pos, depth);
            Keeps(toks, pos, r.pos, Yield(r.node), r.diags)
    decreases MAX_EXPR_DEPTH - depth, |toks| - pos, 2
  {
    hide Keeps, ParseExpr, ErrorNode;
    var t := toks[pos];
    KeepsOne(toks, pos);
    if t.kind == IDENT || IsLiteral(t) {
    } else if IsPunct(t, '(') {
      ExprKeeps(cfg, toks, pos + 1, 0, depth);
      var r := ParseExpr(cfg, toks, pos + 1, 0, depth);
      KeepsJoin(toks, pos, pos + 1, r.pos, [t], Yield(r.node), [], r.diags);
      assert [] + r.diags == r.diags;
      var close := toks[r.pos];
      if IsPunct(close, ')') {
        KeepsMore(toks, pos, r.pos, [t] + Yield(r.node), r.diags);
      } else {
        KeepsSaying(toks, pos, r.pos, [t] + Yield(r.node), r.diags, Diag(ExpectedCloseParen, close));
        assert [t] + Yield(r.node) + [] == [t] + Yield(r.node);
      }
    } else {
      var op := OperatorFor(cfg, t, Prefixed);
      if op.Some? {
        ExprKeeps(cfg, toks, pos + 1, op.value.prec, depth);
        var r := ParseExpr(cfg, toks, pos + 1, op.value.prec, depth);
        KeepsJoin(toks, pos, pos + 1, r.pos, [t], Yield(r.node), [], r.diags);
        assert [] + r.diags == r.diags;
      } else {
        ErrorKeeps(toks, pos, ExpectedExpression);
      }
    }
  }

  /** With a left operand from `from` on, parsed with the diagnostics `before`. */
  lemma {:induction false} LoopKeeps(cfg: Config, toks: seq<Token>, from: nat, lhs: Expr, pos: nat, min: Prec,
                                     depth: nat, before: seq<Diag>)
    requires At(toks, pos) && depth <= MAX_EXPR_DEPTH && Keeps(toks, from, pos, Yield(lhs), before)
    requires from < pos || toks[pos].kind == EOF
    ensures var r := ParseLoop(cfg, toks, lhs, pos, min, depth);
            Keeps(toks, from, r.pos, Yield(r.node), before + r.diags)
    decreases MAX_EXPR_DEPTH - depth, |toks| - pos, 1
  {
    hide Keeps, ParseExpr, ParseCall, Chains, Yield;
    var t := toks[pos];
    if OpensCall(cfg, t) {
      CallKeeps(cfg, toks, from, lhs, pos, depth, before);
      var c := ParseCall(cfg, toks, lhs, pos, depth);
      LoopKeeps(cfg, toks, from, c.node, c.pos, min, depth, before + c.diags);
      var r := ParseLoop(cfg, toks, c.node, c.pos, min, depth);
      assert before + (c.diags + r.diags) == before + c.diags + r.diags;
    } else if PostfixApplies(cfg, t, min) {
      YieldPostfix(lhs, t);
      KeepsMore(toks, from, pos, Yield(lhs), before);
      LoopKeeps(cfg, toks, from, Postfix(lhs, t), pos + 1, min, depth, before);
    } else if !InfixApplies(cfg, t, min) {
      assert before + [] == before;
    } else if OperatorFor(cfg, t, Infix).value.selector {
      SelectorKeeps(cfg, toks, from, lhs, pos, min, depth, before);
      if toks[pos + 1].kind == IDENT {
        LoopKeeps(cfg, toks, from, Selector(lhs, t, toks[pos + 1]), pos + 2, min, depth, before);
      }
    } else {
      BinaryKeeps(cfg, toks, from, lhs, pos, min, depth, before);
      var rhs := ParseExpr(cfg, toks, pos + 1, NextMinPrec(OperatorFor(cfg, t, Infix).value), depth);
      var node := Binary(lhs, t, rhs.node);
      if Chains(cfg, node, toks[rhs.pos]) {
        KeepsSaying(toks, from, rhs.pos, Yield(node), before + rhs.diags, Diag(NonAssocChained, toks[rhs.pos]));
        assert before + (rhs.diags + [Diag(NonAssocChained, toks[rhs.pos])])
               == before + rhs.diags + [Diag(NonAssocChained, toks[rhs.pos])];
      } else {
        LoopKeeps(cfg, toks, from, node, rhs.pos, min, depth, before + rhs.diags);
        var r := ParseLoop(cfg, toks, node, rhs.pos, min, depth);
        assert before + (rhs.diags + r.diags) == before + rhs.diags + r.diags;
      }
    }
  }

  lemma YieldPostfix(lhs: Expr, t: Token)
    ensures Yield(Postfix(lhs, t)) == Yield(lhs) + [t]
  {
  }

  /** With a name the selector takes two tokens; without one it takes the place of its operand. */
  lemma SelectorKeeps(cfg: Config, toks: seq<Token>, from: nat, lhs: Expr, pos: nat, min: Prec, depth: nat,
                      before: seq<Diag>)
    requires At(toks, pos) && depth <= MAX_EXPR_DEPTH && Keeps(toks, from, pos, Yield(lhs), before) && from < pos
    requires pos + 1 < |toks|
    ensures Keeps(toks, from, pos + 2, Yield(Selector(lhs, toks[pos], toks[pos + 1])), before) || pos + 2 > |toks|
    ensures var to, d := Advance(toks, pos + 1), Diag(ExpectedSelectorName, toks[pos + 1]);
            Keeps(toks, from, to, Yield(Error(toks[pos..to])), before + [d])
  {
    KeepsMore(toks, from, pos, Yield(lhs), before);
    KeepsMore(toks, from, pos + 1, Yield(lhs) + [toks[pos]], before);
    assert Yield(lhs) + [toks[pos]] + [toks[pos + 1]] == Yield(lhs) + [toks[pos], toks[pos + 1]];
    var d := Diag(ExpectedSelectorName, toks[pos + 1]);
    LosesJoin(before, [d]);
    LosesOne(d);
    hide LosesOperand;
  }

  lemma {:induction false} BinaryKeeps(cfg: Config, toks: seq<Token>, from: nat, lhs: Expr, pos: nat, min: Prec,
                                       depth: nat, before: seq<Diag>)
    requires At(toks, pos) && depth <= MAX_EXPR_DEPTH && Keeps(toks, from, pos, Yield(lhs), before)
    requires InfixApplies(cfg, toks[pos], min)
    ensures pos + 1 < |toks|
    ensures var rhs := ParseExpr(cfg, toks, pos + 1, NextMinPrec(OperatorFor(cfg, toks[pos], Infix).value), depth);
            Keeps(toks, from, rhs.pos, Yield(Binary(lhs, toks[pos], rhs.node)), before + rhs.diags)
    decreases MAX_EXPR_DEPTH - depth, |toks| - pos, 0
  {
    hide Keeps, ParseExpr;
    var m := NextMinPrec(OperatorFor(cfg, toks[pos], Infix).value);
    KeepsMore(toks, from, pos, Yield(lhs), before);
    ExprKeeps(cfg, toks, pos + 1, m, depth);
    var rhs := ParseExpr(cfg, toks, pos + 1, m, depth);
    KeepsJoin(toks, from, pos + 1, rhs.pos, Yield(lhs) + [toks[pos]], Yield(rhs.node), before, rhs.diags);
  }

  lemma {:induction false} CallKeeps(cfg: Config, toks: seq<Token>, from: nat, callee: Expr, pos: nat, depth: nat,
                                     before: seq<Diag>)
    requires At(toks, pos) && OpensCall(cfg, toks[pos]) && depth <= MAX_EXPR_DEPTH
    requires Keeps(toks, from, pos, Yield(callee), before)
    ensures var c := ParseCall(cfg, toks, callee, pos, depth);
            Keeps(toks, from, c.pos, Yield(c.node), before + c.diags)
    decreases MAX_EXPR_DEPTH - depth, |toks| - pos, 0
  {
    hide Keeps, ParseList;
    var d := cfg.call.value;
    KeepsMore(toks, from, pos, Yield(callee), before);
    ListKeeps(cfg, d, toks, pos + 1, depth);
    var list := ParseList(cfg, d, toks, pos + 1, depth);
    KeepsJoin(toks, from, pos + 1, list.pos, Yield(callee) + [toks[pos]], YieldArgs(list.args), before, list.diags);
    var kept := Yield(callee) + [toks[pos]] + YieldArgs(list.args);
    var close := toks[list.pos];
    if IsPunct(close, d.close) {
      KeepsMore(toks, from, list.pos, kept, before + list.diags);
    } else {
      KeepsSaying(toks, from, list.pos, kept, before + list.diags, Diag(ExpectedCloseDelimiter, close));
      assert before + (list.diags + [Diag(ExpectedCloseDelimiter, close)])
             == before + list.diags + [Diag(ExpectedCloseDelimiter, close)];
      assert kept + [] == kept;
    }
  }

  lemma {:induction false} ListKeeps(cfg: Config, d: Delims, toks: seq<Token>, pos: nat, depth: nat)
    requires At(toks, pos) && depth <= MAX_EXPR_DEPTH
    ensures var r := ParseList(cfg, d, toks, pos, depth);
            Keeps(toks, pos, r.pos, YieldArgs(r.args), r.diags)
    decreases MAX_EXPR_DEPTH - depth, |toks| - pos, 2
  {
    hide Keeps, ParseItems;
    if IsPunct(toks[pos], d.close) {
      KeepsNothing(toks, pos);
    } else {
      ItemsKeep(cfg, d, toks, pos, depth);
    }
  }

  lemma {:induction false} ItemsKeep(cfg: Config, d: Delims, toks: seq<Token>, pos: nat, depth: nat)
    requires At(toks, pos) && depth <= MAX_EXPR_DEPTH
    ensures var r := ParseItems(cfg, d, toks, pos, depth);
            Keeps(toks, pos, r.pos, YieldArgs(r.args), r.diags)
    decreases MAX_EXPR_DEPTH - depth, |toks| - pos, 1
  {
    hide Keeps, ParseExpr, ParseList, Yield;
    ExprKeeps(cfg, toks, pos, 0, depth);
    var item := ParseExpr(cfg, toks, pos, 0, depth);
    var sep := toks[item.pos];
    if item.pos == pos || !IsPunct(sep, d.sep) {
      assert Yield(item.node) + [] + [] == Yield(item.node);
    } else {
      KeepsMore(toks, pos, item.pos, Yield(item.node), item.diags);
      ListKeeps(cfg, d, toks, item.pos + 1, depth);
      var rest := ParseList(cfg, d, toks, item.pos + 1, depth);
      KeepsJoin(toks, pos, item.pos + 1, rest.pos, Yield(item.node) + [sep], YieldArgs(rest.args), item.diags,
                rest.diags);
    }
  }

  /**
   Every parse, with errors or without: the tree holds exactly the tokens consumed, if and
   only if no selector lacks its name; where one does, its operand is dropped.
  */
  lemma TreeKeepsTokens(cfg: Config, toks: seq<Token>, pos: nat, min: Prec)
    requires At(toks, pos)
    ensures var r := ParseExpr(cfg, toks, pos, min, 0);
            Yield(r.node) == toks[pos..r.pos] <==> !LosesOperand(r.diags)
  {
    hide Yield, ParseExpr, LosesOperand;
    ExprKeeps(cfg, toks, pos, min, 0);
  }

  // ----- the inputs without errors

  lemma {:induction false} ExprShallow(cfg: Config, toks: seq<Token>, pos: nat, min: Prec, depth: nat)
    requires At(toks, pos) && depth <= MAX_EXPR_DEPTH
    ensures var r := ParseExpr(cfg, toks, pos, min, depth);
            r.diags == [] ==> Nesting(r.node) + depth <= MAX_EXPR_DEPTH
    decreases MAX_EXPR_DEPTH - depth, |toks| - pos, 0
  {
    hide Nesting, ParsePrefix, ParseLoop;
    if depth < MAX_EXPR_DEPTH {
      PrefixShallow(cfg, toks, pos, depth + 1);
      var p := ParsePrefix(cfg, toks, pos, depth + 1);
      LoopShallow(cfg, toks, p.node, p.pos, min, depth + 1);
    }
  }

  lemma {:induction false} PrefixShallow(cfg: Config, toks: seq<Token>, pos: nat, depth: nat)
    requires At(toks, pos) && depth <= MAX_EXPR_DEPTH
    ensures var r := ParsePrefix(cfg, toks, pos, depth);
            r.diags == [] ==> Nesting(r.node) + depth <= MAX_EXPR_DEPTH + 1
    decreases MAX_EXPR_DEPTH - depth, |toks| - pos, 2
  {
    hide ParseExpr;
    var t := toks[pos];
    if t.kind != IDENT && !IsLiteral(t) {
      if IsPunct(t, '(') {
        ExprShallow(cfg, toks, pos + 1, 0, depth);
      } else if OperatorFor(cfg, t, Prefixed).Some? {
        ExprShallow(cfg, toks, pos + 1, OperatorFor(cfg, t, Prefixed).value.prec, depth);
      }
    }
  }

  lemma {:induction false} LoopShallow(cfg: Config, toks: seq<Token>, lhs: Expr, pos: nat, min: Prec, depth: nat)
    requires At(toks, pos) && depth <= MAX_EXPR_DEPTH
    ensures var r := ParseLoop(cfg, toks, lhs, pos, min, depth);
            r.diags == [] && Nesting(lhs) + depth <= MAX_EXPR_DEPTH + 1 ==>
              Nesting(r.node) + depth <= MAX_EXPR_DEPTH + 1
    decreases MAX_EXPR_DEPTH - depth, |toks| - pos, 1
  {
    hide ParseExpr, ParseCall, Chains;
    var t := toks[pos];
    if OpensCall(cfg, t) {
      CallShallow(cfg, toks, lhs, pos, depth);
      var c := ParseCall(cfg, toks, lhs, pos, depth);
      LoopShallow(cfg, toks, c.node, c.pos, min, depth);
    } else if PostfixApplies(cfg, t, min) {
      LoopShallow(cfg, toks, Postfix(lhs, t), pos + 1, min, depth);
    } else if InfixApplies(cfg, t, min) {
      var op := OperatorFor(cfg, t, Infix).value;
      if op.selector {
        if toks[pos + 1].kind == IDENT {
          LoopShallow(cfg, toks, Selector(lhs, t, toks[pos + 1]), pos + 2, min, depth);
        }
      } else {
        ExprShallow(cfg, toks, pos + 1, NextMinPrec(op), depth);
        var rhs := ParseExpr(cfg, toks, pos + 1, NextMinPrec(op), depth);
        LoopShallow(cfg, toks, Binary(lhs, t, rhs.node), rhs.pos, min, depth);
      }
    }
  }

  lemma {:induction false} CallShallow(cfg: Config, toks: seq<Token>, callee: Expr, pos: nat, depth: nat)
    requires At(toks, pos) && OpensCall(cfg, toks[pos]) && depth <= MAX_EXPR_DEPTH
    ensures var c := ParseCall(cfg, toks, callee, pos, depth);
            c.diags == [] && Nesting(callee) + depth <= MAX_EXPR_DEPTH + 1 ==>
              Nesting(c.node) + depth <= MAX_EXPR_DEPTH + 1
    decreases MAX_EXPR_DEPTH - depth, |toks| - pos, 0
  {
    hide ParseList;
    ListShallow(cfg, cfg.call.value, toks, pos + 1, depth);
  }

  lemma {:induction false} ListShallow(cfg: Config, d: Delims, toks: seq<Token>, pos: nat, depth: nat)
    requires At(toks, pos) && depth <= MAX_EXPR_DEPTH
    ensures var r := ParseList(cfg, d, toks, pos, depth);
            r.diags == [] ==> NestingArgs(r.args) + depth <= MAX_EXPR_DEPTH
    decreases MAX_EXPR_DEPTH - depth, |toks| - pos, 2
  {
    hide ParseItems;
    if !IsPunct(toks[pos], d.close) { ItemsShallow(cfg, d, toks, pos, depth); }
  }

  lemma {:induction false} ItemsShallow(cfg: Config, d: Delims, toks: seq<Token>, pos: nat, depth: nat)
    requires At(toks, pos) && depth <= MAX_EXPR_DEPTH
    ensures var r := ParseItems(cfg, d, toks, pos, depth);
            r.diags == [] ==> NestingArgs(r.args) + depth <= MAX_EXPR_DEPTH
    decreases MAX_EXPR_DEPTH - depth, |toks| - pos, 1
  {
    hide ParseExpr, ParseList, Nesting;
    ExprShallow(cfg, toks, pos, 0, depth);
    var item := ParseExpr(cfg, toks, pos, 0, depth);
    if item.pos != pos && IsPunct(toks[item.pos], d.sep) { ListShallow(cfg, d, toks, item.pos + 1, depth); }
  }

  /** The tokens from `pos` to `end` are those of a canonical tree of at most 512 levels, which ends there. */
  predicate IsTreeAt(cfg: Config, toks: seq<Token>, pos: nat, end: nat, e: Expr, min: Prec) {
    && At(toks, end) && pos <= end && toks[pos..end] == Yield(e)
    && Canonical(cfg, e, min) && Ends(cfg, e, min, toks[end]) && Nesting(e) <= 512
  }

  /** The parser reports nothing if and only if there is such a tree, and then it is the tree it returns. */
  lemma ParserAcceptsExactly(cfg: Config, toks: seq<Token>, pos: nat, min: Prec)
    requires At(toks, pos)
    ensures var r := ParseExpr(cfg, toks, pos, min, 0);
            && (r.diags == [] <==> exists e, end: nat :: IsTreeAt(cfg, toks, pos, end, e, min))
            && (r.diags == [] ==> IsTreeAt(cfg, toks, pos, r.pos, r.node, min))
  {
    hide Canonical, Ends, Nesting, Yield, ParseExpr;
    var r := ParseExpr(cfg, toks, pos, min, 0);
    if r.diags == [] {
      ParserSound(cfg, toks, pos, min);
      ExprShallow(cfg, toks, pos, min, 0);
      assert IsTreeAt(cfg, toks, pos, r.pos, r.node, min);
    }
    if e, end: nat :| IsTreeAt(cfg, toks, pos, end, e, min) {
      ParserInvertsPrinter(cfg, e, min, toks[..pos], toks[end..]);
      assert toks[..pos] + Yield(e) + toks[end..] == toks;
    }
  }

  // ----- what tokens mean

  /** Identifiers are tokens of kind 2 and literals those of kinds 4 to 7, whatever the table says. */
  lemma AtomsAreParsed(cfg: Config, toks: seq<Token>, pos: nat, depth: nat)
    requires At(toks, pos) && depth <= MAX_EXPR_DEPTH
    ensures toks[pos].kind == 2 ==> ParsePrefix(cfg, toks, pos, depth) == Parsed(Ident(toks[pos]), pos + 1, [])
    ensures 4 <= toks[pos].kind <= 7 ==> ParsePrefix(cfg, toks, pos, depth) == Parsed(Literal(toks[pos]), pos + 1, [])
  {
  }

  predicate Plays(op: Operator, id: nat, role: Role) {
    && op.id == id
    && (role == Infix ==> op.infix) && (role == Prefixed ==> op.prefix) && (role == Postfixed ==> op.postfix)
  }

  /** A token means the first entry of the table with its id that may play the role. */
  lemma {:induction false} FirstOperatorWins(ops: seq<Operator>, id: nat, role: Role)
    ensures var r := FindOperator(ops, id, role);
            if r.None? then forall i :: 0 <= i < |ops| ==> !Plays(ops[i], id, role)
            else exists k :: 0 <= k < |ops| && ops[k] == r.value && Plays(ops[k], id, role)
                             && forall i :: 0 <= i < k ==> !Plays(ops[i], id, role)
    decreases |ops|
  {
    if ops != [] && !Plays(ops[0], id, role) {
      FirstOperatorWins(ops[1..], id, role);
      var r := FindOperator(ops[1..], id, role);
      if r.Some? {
        var k :| 0 <= k < |ops[1..]| && ops[1..][k] == r.value && Plays(ops[1..][k], id, role)
                 && forall i :: 0 <= i < k ==> !Plays(ops[1..][i], id, role);
        forall i | 0 <= i < k + 1 ensures !Plays(ops[i], id, role) {
          if i > 0 { assert ops[1..][i - 1] == ops[i]; }
        }
        assert ops[k + 1] == r.value;
      } else {
        forall i | 0 <= i < |ops| ensures !Plays(ops[i], id, role) {
          if i > 0 { assert ops[1..][i - 1] == ops[i]; }
        }
      }
    }
  }
}
