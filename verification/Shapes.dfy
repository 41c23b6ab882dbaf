/** Expressions up to their literals, and literals that give an expression of a given shape a given value. */
module Shapes {
  import opened Wrappers
  import opened Expressions
  import opened RedundantParens

  // ---------- Shapes ----------

  function Shape(s: seq<Token>): seq<Token>
  {
    if s == [] then [] else Shape(s[..|s| - 1]) + [if s[|s| - 1].Num? then Num(0) else s[|s| - 1]]
  }

  function FactorShape(f: Factor): Factor
  {
    match f
    case Lit(_) => Lit(0)
    case Paren(e) => Paren(ExprShape(e))
  }

  function TermShape(t: Term): Term
  {
    match t
    case Single(f) => Single(FactorShape(f))
    case Product(t', mul, f) => Product(TermShape(t'), mul, FactorShape(f))
  }

  function ExprShape(e: Expr): Expr
  {
    match e
    case One(t) => One(TermShape(t))
    case Sum(e', plus, t) => Sum(ExprShape(e'), plus, TermShape(t))
  }

  lemma {:induction false} ShapeConcat(s: seq<Token>, s': seq<Token>)
    ensures Shape(s + s') == Shape(s) + Shape(s')
    decreases |s'|
  {
    if s' == [] {
      assert s + s' == s;
    } else {
      assert (s + s')[..|s + s'| - 1] == s + s'[..|s'| - 1];
      ShapeConcat(s, s'[..|s'| - 1]);
    }
  }

  lemma ShapeOne(t: Token)
    ensures Shape([t]) == [if t.Num? then Num(0) else t]
  {
    assert [t][..0] == [];
  }

  lemma {:induction false} FactorShapeTokens(f: Factor)
    ensures FactorTokens(FactorShape(f)) == Shape(FactorTokens(f))
    decreases f
  {
    match f
    case Lit(n) => ShapeOne(Num(n));
    case Paren(e) =>
      ExprShapeTokens(e);
      ShapeOne(LParen);
      ShapeOne(RParen);
      ShapeConcat([LParen], ExprTokens(e));
      ShapeConcat([LParen] + ExprTokens(e), [RParen]);
  }

  lemma {:induction false} TermShapeTokens(t: Term)
    ensures TermTokens(TermShape(t)) == Shape(TermTokens(t))
    decreases t
  {
    match t
    case Single(f) => FactorShapeTokens(f);
    case Product(t', mul, f) =>
      TermShapeTokens(t');
      FactorShapeTokens(f);
      ShapeOne(Oper(MulOp(mul)));
      ShapeConcat(TermTokens(t'), [Oper(MulOp(mul))]);
      ShapeConcat(TermTokens(t') + [Oper(MulOp(mul))], FactorTokens(f));
  }

  lemma {:induction false} ExprShapeTokens(e: Expr)
    ensures ExprTokens(ExprShape(e)) == Shape(ExprTokens(e))
    decreases e
  {
    match e
    case One(t) => TermShapeTokens(t);
    case Sum(e', plus, t) =>
      ExprShapeTokens(e');
      TermShapeTokens(t);
      ShapeOne(Oper(AddOp(plus)));
      ShapeConcat(ExprTokens(e'), [Oper(AddOp(plus))]);
      ShapeConcat(ExprTokens(e') + [Oper(AddOp(plus))], TermTokens(t));
  }

  // ---------- Every shape attains every natural number, stripped or not ----------

  /** The leading factor is worth n and every other factor is worth 1. */
  predicate Leads(a: Arith, t: Term, n: nat)
  {
    match t
    case Single(f) => FactorValue(a, f) == Some(n as real)
    case Product(t', _, f) => Leads(a, t', n) && FactorValue(a, f) == Some(1.0)
  }

  /** The leading term leads with n and every other term with 0. */
  predicate LeadsExpr(a: Arith, e: Expr, n: nat)
  {
    match e
    case One(t) => Leads(a, t, n)
    case Sum(e', _, t) => LeadsExpr(a, e', n) && Leads(a, t, 0)
  }

  lemma NeutralOne(a: Arith, n: nat, mul: bool)
    ensures MulDiv(a, Some(n as real), mul, Some(1.0)) == Some(n as real)
  {
    assert Times(n as real, 1.0) == n as real == Over(n as real, 1.0);
  }

  lemma {:induction false} LeadsValue(a: Arith, t: Term, n: nat)
    requires Leads(a, t, n)
    ensures TermValue(a, t) == Some(n as real)
  {
    match t
    case Single(_) =>
    case Product(t', mul, _) =>
      LeadsValue(a, t', n);
      NeutralOne(a, n, mul);
  }

  lemma {:induction false} LeadsExprValue(a: Arith, e: Expr, n: nat)
    requires LeadsExpr(a, e, n)
    ensures ExprValue(a, e) == Some(n as real)
  {
    match e
    case One(t) => LeadsValue(a, t, n);
    case Sum(e', _, t) =>
      LeadsExprValue(a, e', n);
      LeadsValue(a, t, 0);
  }

  lemma {:induction false} LeadsAppend(a: Arith, x: Term, mul: bool, t: Term, n: nat)
    requires Leads(a, x, n) && Leads(a, t, 1)
    ensures Leads(a, AppendTerm(x, mul, t), n)
  {
    match t
    case Single(_) =>
    case Product(t', _, _) => LeadsAppend(a, x, mul, t', n);
  }

  lemma {:induction false} LeadsExprAppend(a: Arith, x: Expr, plus: bool, e: Expr, n: nat)
    requires LeadsExpr(a, x, n) && LeadsExpr(a, e, 0)
    ensures LeadsExpr(a, AppendExpr(x, plus, e), n)
  {
    match e
    case One(_) =>
    case Sum(e', _, _) => LeadsExprAppend(a, x, plus, e', n);
  }

  lemma {:induction false} AttainFactor(a: Arith, f: Factor, l: Option<Op>, r: Option<Op>, n: nat) returns (f': Factor)
    ensures FactorShape(f') == FactorShape(f) && FactorValue(a, f') == Some(n as real)
    ensures LeadsExpr(a, StripFactor(f', l, r).tree, n)
    decreases f
  {
    match f
    case Lit(_) => f' := Lit(n);
    case Paren(e) =>
      var e' := AttainExpr(a, e, None, None, n);
      f' := Paren(e');
      LeadsExprValue(a, e', n);
      LeadsExprValue(a, StripExpr(e', None, None).tree, n);
  }

  lemma {:induction false} AttainTerm(a: Arith, t: Term, l: Option<Op>, r: Option<Op>, n: nat) returns (t': Term)
    ensures TermShape(t') == TermShape(t) && Leads(a, t', n)
    ensures LeadsExpr(a, StripTerm(t', l, r).tree, n)
    decreases t
  {
    match t
    case Single(f) =>
      var f' := AttainFactor(a, f, l, r, n);
      t' := Single(f');
    case Product(t0, mul, f) =>
      var op := Some(MulOp(mul));
      var x := AttainTerm(a, t0, l, op, n);
      var f' := AttainFactor(a, f, op, r, 1);
      t' := Product(x, mul, f');
      TermGrade(x, l, op);
      FactorGrade(f', op, r);
      LeadsAppend(a, StripTerm(x, l, op).tree.t, mul, StripFactor(f', op, r).tree.t, n);
  }

  lemma {:induction false} AttainExpr(a: Arith, e: Expr, l: Option<Op>, r: Option<Op>, n: nat) returns (e': Expr)
    ensures ExprShape(e') == ExprShape(e) && LeadsExpr(a, e', n)
    ensures LeadsExpr(a, StripExpr(e', l, r).tree, n)
    decreases e
  {
    match e
    case One(t) =>
      var t' := AttainTerm(a, t, l, r, n);
      e' := One(t');
    case Sum(e0, plus, t) =>
      var op := Some(AddOp(plus));
      var x := AttainExpr(a, e0, l, op, n);
      var t' := AttainTerm(a, t, op, r, 0);
      e' := Sum(x, plus, t');
      LeadsExprAppend(a, StripExpr(x, l, op).tree, plus, StripTerm(t', op, r).tree, n);
  }
}
