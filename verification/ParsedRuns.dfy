/** How evaluating a parsed tree unfolds along the loops of the grammar. */
module ParsedRuns {
  import opened Evaluation
  import opened Formulas
  import opened Text

  /** Once the left operand has failed, whatever the loops would still attach is not reached. */
  lemma {:induction false} TermTailAbsorbs(ts: seq<Token>, pos: nat, left: Tree, replies: Replies)
    requires Terminated(ts) && pos < |ts| && !EvalTree(left, replies).outcome.Ok?
    ensures EvalTree(TermTail(ts, pos, left).tree, replies) == EvalTree(left, replies)
    decreases |ts| - pos
  {
    hide ParseFactor, Apply;
    if ProductOp(ts[pos]).Some? {
      var r := ParseFactor(ts, pos + 1);
      if r.ok {
        TermTailAbsorbs(ts, r.pos, Bin(ProductOp(ts[pos]).value, left, r.tree), replies);
      }
    }
  }

  lemma {:induction false} ExprTailAbsorbs(ts: seq<Token>, pos: nat, left: Tree, replies: Replies)
    requires Terminated(ts) && pos < |ts| && !EvalTree(left, replies).outcome.Ok?
    ensures EvalTree(ExprTail(ts, pos, left).tree, replies) == EvalTree(left, replies)
    decreases |ts| - pos
  {
    hide ParseTerm, Apply;
    if SumOp(ts[pos]).Some? {
      var r := ParseTerm(ts, pos + 1);
      if r.ok {
        ExprTailAbsorbs(ts, r.pos, Bin(SumOp(ts[pos]).value, left, r.tree), replies);
      }
    }
  }

  /** A tree that ends in a syntax error never evaluates to a number. */
  ghost predicate BrokenFails(p: Parsed, replies: Replies) {
    !p.ok ==> !EvalTree(p.tree, replies).outcome.Ok?
  }

  lemma {:induction false} BrokenFactorFails(ts: seq<Token>, pos: nat, replies: Replies)
    requires Terminated(ts) && pos < |ts|
    ensures BrokenFails(ParseFactor(ts, pos), replies)
    decreases |ts| - pos, 0
  {
    hide ParseExpr, Apply;
    if ts[pos] == Minus {
      BrokenFactorFails(ts, pos + 1, replies);
    } else if ts[pos] == LParen {
      BrokenExprFails(ts, pos + 1, replies);
    }
  }

  lemma {:induction false} BrokenTermFails(ts: seq<Token>, pos: nat, replies: Replies)
    requires Terminated(ts) && pos < |ts|
    ensures BrokenFails(ParseTerm(ts, pos), replies)
    decreases |ts| - pos, 1
  {
    hide ParseFactor, TermTail, BrokenFails;
    BrokenFactorFails(ts, pos, replies);
    var f := ParseFactor(ts, pos);
    if f.ok {
      BrokenTermTailFails(ts, f.pos, f.tree, replies);
    }
  }

  lemma {:induction false} BrokenExprFails(ts: seq<Token>, pos: nat, replies: Replies)
    requires Terminated(ts) && pos < |ts|
    ensures BrokenFails(ParseExpr(ts, pos), replies)
    decreases |ts| - pos, 2
  {
    hide ParseTerm, ExprTail, BrokenFails;
    BrokenTermFails(ts, pos, replies);
    var t := ParseTerm(ts, pos);
    if t.ok {
      BrokenExprTailFails(ts, t.pos, t.tree, replies);
    }
  }

  lemma {:induction false} BrokenTermTailFails(ts: seq<Token>, pos: nat, left: Tree, replies: Replies)
    requires Terminated(ts) && pos < |ts|
    ensures BrokenFails(TermTail(ts, pos, left), replies)
    decreases |ts| - pos, 1
  {
    hide ParseFactor, Apply;
    if ProductOp(ts[pos]).Some? {
      BrokenFactorFails(ts, pos + 1, replies);
      var r := ParseFactor(ts, pos + 1);
      if r.ok {
        BrokenTermTailFails(ts, r.pos, Bin(ProductOp(ts[pos]).value, left, r.tree), replies);
      }
    }
  }

  lemma {:induction false} BrokenExprTailFails(ts: seq<Token>, pos: nat, left: Tree, replies: Replies)
    requires Terminated(ts) && pos < |ts|
    ensures BrokenFails(ExprTail(ts, pos, left), replies)
    decreases |ts| - pos, 2
  {
    hide ParseTerm, Apply;
    if SumOp(ts[pos]).Some? {
      BrokenTermFails(ts, pos + 1, replies);
      var r := ParseTerm(ts, pos + 1);
      if r.ok {
        BrokenExprTailFails(ts, r.pos, Bin(SumOp(ts[pos]).value, left, r.tree), replies);
      }
    }
  }

  // ---------------------------------------------------------------- one step of each loop

  /** The first operand of a rule: a failure is the failure of the whole, a number enters the loop. */
  lemma TermStart(ts: seq<Token>, pos: nat, replies: Replies)
    requires Terminated(ts) && pos < |ts|
    ensures var f := ParseFactor(ts, pos); var run := EvalTree(f.tree, replies);
            if run.outcome.Ok? then f.ok && ParseTerm(ts, pos) == TermTail(ts, f.pos, f.tree)
            else EvalTree(ParseTerm(ts, pos).tree, replies) == run
  {
    hide ParseFactor, TermTail, EvalTree;
    var f := ParseFactor(ts, pos);
    BrokenFactorFails(ts, pos, replies);
    if f.ok && !EvalTree(f.tree, replies).outcome.Ok? {
      TermTailAbsorbs(ts, f.pos, f.tree, replies);
    }
  }

  lemma ExprStart(ts: seq<Token>, pos: nat, replies: Replies)
    requires Terminated(ts) && pos < |ts|
    ensures var t := ParseTerm(ts, pos); var run := EvalTree(t.tree, replies);
            if run.outcome.Ok? then t.ok && ParseExpr(ts, pos) == ExprTail(ts, t.pos, t.tree)
            else EvalTree(ParseExpr(ts, pos).tree, replies) == run
  {
    hide ParseTerm, ExprTail, EvalTree;
    var t := ParseTerm(ts, pos);
    BrokenTermFails(ts, pos, replies);
    if t.ok && !EvalTree(t.tree, replies).outcome.Ok? {
      ExprTailAbsorbs(ts, t.pos, t.tree, replies);
    }
  }

  /** One round of the product loop. */
  lemma TermStep(ts: seq<Token>, pos: nat, left: Tree, replies: Replies)
    requires Terminated(ts) && pos + 1 < |ts| && ProductOp(ts[pos]).Some?
    ensures var r := ParseFactor(ts, pos + 1);
            var tree := Bin(ProductOp(ts[pos]).value, left, r.tree);
            if EvalTree(tree, replies).outcome.Ok?
            then r.ok && TermTail(ts, pos, left) == TermTail(ts, r.pos, tree)
            else EvalTree(TermTail(ts, pos, left).tree, replies) == EvalTree(tree, replies)
  {
    hide ParseFactor, Apply;
    var r := ParseFactor(ts, pos + 1);
    var tree := Bin(ProductOp(ts[pos]).value, left, r.tree);
    BrokenFactorFails(ts, pos + 1, replies);
    if r.ok && !EvalTree(tree, replies).outcome.Ok? {
      TermTailAbsorbs(ts, r.pos, tree, replies);
    }
  }

  /** One round of the sum loop. */
  lemma ExprStep(ts: seq<Token>, pos: nat, left: Tree, replies: Replies)
    requires Terminated(ts) && pos + 1 < |ts| && SumOp(ts[pos]).Some?
    ensures var r := ParseTerm(ts, pos + 1);
            var tree := Bin(SumOp(ts[pos]).value, left, r.tree);
            if EvalTree(tree, replies).outcome.Ok?
            then r.ok && ExprTail(ts, pos, left) == ExprTail(ts, r.pos, tree)
            else EvalTree(ExprTail(ts, pos, left).tree, replies) == EvalTree(tree, replies)
  {
    hide ParseTerm, Apply;
    var r := ParseTerm(ts, pos + 1);
    var tree := Bin(SumOp(ts[pos]).value, left, r.tree);
    BrokenTermFails(ts, pos + 1, replies);
    if r.ok && !EvalTree(tree, replies).outcome.Ok? {
      ExprTailAbsorbs(ts, r.pos, tree, replies);
    }
  }

  lemma BinRun(op: Op, left: Tree, right: Tree, replies: Replies)
    requires EvalTree(left, replies).outcome.Ok?
    ensures var l, r := EvalTree(left, replies), EvalTree(right, replies);
            EvalTree(Bin(op, left, right), replies)
            == Run(if r.outcome.Ok? then Apply(op, l.outcome.value, r.outcome.value) else r.outcome, l.used + r.used)
  {
  }

  /** A whole formula: no equals sign, a scanning error, or an expression that must reach `End`. */
  lemma FormulaRun(formula: string, replies: Replies)
    ensures var text := Trim(formula);
            if text == [] || text[0] != '=' then
              EvalTree(FormulaTree(formula), replies) == Run(Fail(MissingEquals), [])
            else if Scan(text[1..]).Failure? then
              EvalTree(FormulaTree(formula), replies) == Run(Fail(Scan(text[1..]).error), [])
            else
              && Terminated(Scan(text[1..]).value)
              && var ts := Scan(text[1..]).value;
                 var p := ParseExpr(ts, 0);
                 var run := EvalTree(p.tree, replies);
                 EvalTree(FormulaTree(formula), replies)
                 == if run.outcome.Ok? && ts[p.pos] != End then Run(Fail(TrailingToken(ts[p.pos])), run.used) else run
  {
    hide Scan, ParseExpr;
    var text := Trim(formula);
    if text != [] && text[0] == '=' {
      ScanTerminated(text[1..]);
      if Scan(text[1..]).Success? {
        BrokenExprFails(Scan(text[1..]).value, 0, replies);
      }
    }
  }
}
