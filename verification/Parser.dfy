/**
 The parser object of `src/parser.c`: a cursor, a depth counter and a diagnostic list
 changed in place, shown to compute what `Pratt` specifies.
*/
module Parser {
  import opened Options
  import opened Syntax
  import opened Pratt

  class ExprParser {
    const cfg: Config
    const toks: seq<Token>
    var pos: nat
    var exprDepth: nat
    var diags: seq<Diag>

    ghost predicate Valid() reads this {
      At(toks, pos) && exprDepth <= MAX_EXPR_DEPTH
    }

    constructor (cfg: Config, toks: seq<Token>)
      requires EndsInEof(toks)
      ensures Valid() && pos == 0 && exprDepth == 0 && diags == []
      ensures this.cfg == cfg && this.toks == toks
    {
      this.cfg := cfg;
      this.toks := toks;
      pos := 0;
      exprDepth := 0;
      diags := [];
    }

    /** The state after a call that parsed `r` from `pos0` with diagnostics `diags0`. */
    ghost predicate Ran(node: Expr, r: Parsed, diags0: seq<Diag>) reads this {
      Valid() && node == r.node && pos == r.pos && diags == diags0 + r.diags
    }

    /** `kavak_parser_peek`. */
    function Peek(): Token
      requires Valid()
      reads this
    {
      toks[pos]
    }

    /** `parser_advance`. */
    method Step()
      requires Valid()
      modifies this`pos
      ensures Valid() && pos == Advance(toks, old(pos))
    {
      if Peek().kind != EOF {
        pos := pos + 1;
      }
    }

    /** `kavak_parser_eat_text` for a punctuation character. */
    method EatPunct(c: char) returns (ok: bool)
      requires Valid()
      modifies this`pos
      ensures Valid() && (ok <==> IsPunct(toks[old(pos)], c))
      ensures pos == if ok then old(pos) + 1 else old(pos)
    {
      ok := IsPunct(Peek(), c);
      if ok { Step(); }
    }

    method Report(message: Message)
      requires Valid()
      modifies this`diags
      ensures Valid() && diags == old(diags) + [Diag(message, toks[pos])]
    {
      diags := diags + [Diag(message, Peek())];
    }

    /** `make_error_node`. */
    method MakeErrorNode(message: Message) returns (node: Expr)
      requires Valid()
      modifies this`pos, this`diags
      ensures Ran(node, ErrorNode(toks, old(pos), message), old(diags))
    {
      var first := pos;
      Report(message);
      Step();
      node := Error(toks[first..pos]);
    }

    /** `kavak_parse_expression`. */
    method ParseExpression(min: Prec) returns (node: Expr)
      requires Valid()
      modifies this
      ensures Ran(node, ParseExpr(cfg, toks, old(pos), min, old(exprDepth)), old(diags))
      ensures exprDepth == old(exprDepth)
      decreases MAX_EXPR_DEPTH - exprDepth, |toks| - pos, 0
    {
      if exprDepth >= MAX_EXPR_DEPTH {
        node := MakeErrorNode(TooDeep);
        return;
      }
      exprDepth := exprDepth + 1;
      node := ParsePrefixExpr();
      node := ParseTurns(node, min);
      exprDepth := exprDepth - 1;
    }

    /** `parse_prefix_expr`. */
    method ParsePrefixExpr() returns (node: Expr)
      requires Valid()
      modifies this
      ensures Ran(node, ParsePrefix(cfg, toks, old(pos), old(exprDepth)), old(diags))
      ensures exprDepth == old(exprDepth)
      decreases MAX_EXPR_DEPTH - exprDepth, |toks| - pos, 2
    {
      hide ParseLoop, ParseExpr;
      var t := Peek();
      if t.kind == IDENT {
        Step();
        return Ident(t);
      }
      if IsLiteral(t) {
        Step();
        return Literal(t);
      }
      var isGroup := EatPunct('(');
      if isGroup {
        var inner := ParseExpression(0);
        var close := Peek();
        var closed := EatPunct(')');
        if !closed { Report(ExpectedCloseParen); }
        return Group(t, inner, if closed then Some(close) else None);
      }
      var op := OperatorFor(cfg, t, Prefixed);
      if op.Some? {
        Step();
        var operand := ParseExpression(op.value.prec);
        return Prefix(t, operand);
      }
      node := MakeErrorNode(ExpectedExpression);
    }

    /** The `for(;;)` of `kavak_parse_expression`. */
    method ParseTurns(lhs: Expr, min: Prec) returns (node: Expr)
      requires Valid()
      modifies this
      ensures Ran(node, ParseLoop(cfg, toks, lhs, old(pos), min, old(exprDepth)), old(diags))
      ensures exprDepth == old(exprDepth)
      decreases MAX_EXPR_DEPTH - exprDepth, |toks| - pos, 2
    {
      hide ParseLoop;
      node := lhs;
      var more := true;
      ghost var whole := ParseLoop(cfg, toks, lhs, pos, min, exprDepth);
      while more
        invariant Valid() && exprDepth == old(exprDepth) && old(pos) <= pos
        invariant !more ==> Ran(node, whole, old(diags))
        invariant more ==>
                    var r := ParseLoop(cfg, toks, node, pos, min, exprDepth);
                    whole.node == r.node && whole.pos == r.pos && old(diags) + whole.diags == diags + r.diags
        decreases more, |toks| - pos
      {
        ghost var mid := diags;
        ghost var r := ParseLoop(cfg, toks, node, pos, min, exprDepth);
        node, more := Turn(node, min);
        if more {
          ghost var r' := ParseLoop(cfg, toks, node, pos, min, exprDepth);
          ghost var d :| diags == mid + d && r.diags == d + r'.diags;
          assert mid + (d + r'.diags) == (mid + d) + r'.diags;
        }
      }
    }

    /** What one turn of the loop from `lhs` at `pos0` leaves: the rest of the loop, or its result. */
    ghost predicate Turned(node: Expr, more: bool, lhs: Expr, min: Prec, pos0: nat, diags0: seq<Diag>) reads this {
      && Valid() && At(toks, pos0)
      && var r := ParseLoop(cfg, toks, lhs, pos0, min, exprDepth);
         if more then
           && pos0 < pos
           && var r' := ParseLoop(cfg, toks, node, pos, min, exprDepth);
              && r.node == r'.node && r.pos == r'.pos
              && exists d :: diags == diags0 + d && r.diags == d + r'.diags
         else Ran(node, r, diags0)
    }

    method Turn(lhs: Expr, min: Prec) returns (node: Expr, more: bool)
      requires Valid()
      modifies this
      ensures Turned(node, more, lhs, min, old(pos), old(diags))
      ensures exprDepth == old(exprDepth)
      decreases MAX_EXPR_DEPTH - exprDepth, |toks| - pos, 1
    {
      hide ParseExpr;
      var t := Peek();
      if OpensCall(cfg, t) {
        node := ParseCallForm(lhs);
        assert diags == old(diags) + ParseCall(cfg, toks, lhs, old(pos), exprDepth).diags;
        return node, true;
      }
      if PostfixApplies(cfg, t, min) {
        Step();
        assert diags == old(diags) + [];
        return Postfix(lhs, t), true;
      }
      if !InfixApplies(cfg, t, min) { return lhs, false; }
      var op := OperatorFor(cfg, t, Infix).value;
      Step();
      if op.selector {
        node, more := FinishSelector(lhs, t);
        assert diags == old(diags) + if more then [] else [Diag(ExpectedSelectorName, toks[old(pos) + 1])];
        return;
      }
      var rhs := ParseExpression(NextMinPrec(op));
      node := Binary(lhs, t, rhs);
      if Chains(cfg, node, Peek()) {
        Report(NonAssocChained);
        return node, false;
      }
      assert diags == old(diags) + ParseExpr(cfg, toks, old(pos) + 1, NextMinPrec(op), exprDepth).diags;
      more := true;
    }

    /** After a selector operator: the name, or an error that drops the left operand. */
    method FinishSelector(lhs: Expr, op: Token) returns (node: Expr, more: bool)
      requires Valid() && 0 < pos
      modifies this`pos, this`diags
      ensures Valid()
      ensures var next := toks[old(pos)];
              if next.kind == IDENT then
                more && node == Selector(lhs, op, next) && pos == old(pos) + 1 && diags == old(diags)
              else
                !more && pos == Advance(toks, old(pos)) && node == Error(toks[old(pos) - 1..pos])
                && diags == old(diags) + [Diag(ExpectedSelectorName, next)]
    {
      var next := Peek();
      if next.kind == IDENT {
        Step();
        return Selector(lhs, op, next), true;
      }
      var first := pos - 1;
      Report(ExpectedSelectorName);
      Step();
      return Error(toks[first..pos]), false;
    }

    /** `kavak_parser_parse_call`, positioned at the opening delimiter. */
    method ParseCallForm(callee: Expr) returns (node: Expr)
      requires Valid() && OpensCall(cfg, toks[pos])
      modifies this
      ensures Ran(node, ParseCall(cfg, toks, callee, old(pos), old(exprDepth)), old(diags))
      ensures exprDepth == old(exprDepth)
      decreases MAX_EXPR_DEPTH - exprDepth, |toks| - pos, 0
    {
      hide ParseList;
      var d := cfg.call.value;
      var open := Peek();
      Step();
      var args := ParseDelimitedItems(d);
      var close := Peek();
      var closed := EatPunct(d.close);
      if !closed { Report(ExpectedCloseDelimiter); }
      node := Call(callee, open, args, if closed then Some(close) else None);
    }

    /** The item loop of `kavak_parser_parse_delimited`. */
    method ParseDelimitedItems(d: Delims) returns (args: Args)
      requires Valid()
      modifies this
      ensures var r := ParseList(cfg, d, toks, old(pos), old(exprDepth));
              Valid() && args == r.args && pos == r.pos && diags == old(diags) + r.diags
      ensures exprDepth == old(exprDepth)
      decreases MAX_EXPR_DEPTH - exprDepth, |toks| - pos, 2
    {
      hide ParseExpr;
      ghost var whole := ParseList(cfg, d, toks, pos, exprDepth);
      var items := [];
      var more := !IsPunct(Peek(), d.close);
      while more
        invariant Valid() && exprDepth == old(exprDepth) && old(pos) <= pos
        invariant more ==> !IsPunct(toks[pos], d.close)
        invariant !more ==> whole == ParsedArgs(WithItems(items, NoMore), pos, whole.diags)
                            && diags == old(diags) + whole.diags
        invariant more ==>
                    var r := ParseItems(cfg, d, toks, pos, exprDepth);
                    whole.args == WithItems(items, r.args) && whole.pos == r.pos
                    && old(diags) + whole.diags == diags + r.diags
        decreases more, |toks| - pos
      {
        var mark := pos;
        ghost var before, rest := diags, ParseItems(cfg, d, toks, pos, exprDepth);
        var item := ParseExpression(0);
        var sep := Peek();
        var separated := false;
        if pos > mark { separated := EatPunct(d.sep); }
        WithItemsAppend(items, item, if separated then Some(sep) else None,
                        if separated then ParseList(cfg, d, toks, pos, exprDepth).args else NoMore);
        items := items + [(item, if separated then Some(sep) else None)];
        more := separated && !IsPunct(Peek(), d.close);
        if separated {
          ghost var r := ParseExpr(cfg, toks, mark, 0, exprDepth);
          ghost var tail := ParseList(cfg, d, toks, pos, exprDepth);
          assert before + (r.diags + tail.diags) == diags + tail.diags;
        }
      }
      args := WithItems(items, NoMore);
    }
  }

  /** The items in order, then `rest`. */
  function WithItems(items: seq<(Expr, Option<Token>)>, rest: Args): Args {
    if items == [] then rest
    else OneMore(items[0].0, items[0].1, WithItems(items[1..], rest))
  }

  lemma {:induction false} WithItemsAppend(items: seq<(Expr, Option<Token>)>, arg: Expr, sep: Option<Token>, rest: Args)
    ensures WithItems(items + [(arg, sep)], rest) == WithItems(items, OneMore(arg, sep, rest))
  {
    if items == [] {
      assert (items + [(arg, sep)])[1..] == [];
    } else {
      assert (items + [(arg, sep)])[1..] == items[1..] + [(arg, sep)];
      WithItemsAppend(items[1..], arg, sep, rest);
    }
  }
}
