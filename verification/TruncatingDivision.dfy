/**
 The evaluator divides as C does, and C's division does not associate with
 multiplication. This module settles for which expressions dropping parentheses is
 nevertheless harmless: a shape (an expression up to its literals) keeps its meaning for
 all literals if and only if no pair is dropped after * while it exposes a quotient.
 */
module TruncatingDivision {
  import opened Wrappers
  import opened Expressions
  import opened RedundantParens
  import opened Shapes

  // ---------- Shapes decide ----------

  /** Literals play no part in any decision of the stripper. */
  lemma {:induction false} FactorShapeDecides(f: Factor, l: Option<Op>, r: Option<Op>)
    ensures StripFactor(FactorShape(f), l, r).seen == StripFactor(f, l, r).seen
    ensures SafeFactor(FactorShape(f), l, r) == SafeFactor(f, l, r)
    decreases f
  {
    match f
    case Lit(_) =>
    case Paren(e) => ExprShapeDecides(e, None, None);
  }

  lemma {:induction false} TermShapeDecides(t: Term, l: Option<Op>, r: Option<Op>)
    ensures StripTerm(TermShape(t), l, r).seen == StripTerm(t, l, r).seen
    ensures SafeTerm(TermShape(t), l, r) == SafeTerm(t, l, r)
    decreases t
  {
    match t
    case Single(f) => FactorShapeDecides(f, l, r);
    case Product(t', mul, f) =>
      TermShapeDecides(t', l, Some(MulOp(mul)));
      FactorShapeDecides(f, Some(MulOp(mul)), r);
  }

  lemma {:induction false} ExprShapeDecides(e: Expr, l: Option<Op>, r: Option<Op>)
    ensures StripExpr(ExprShape(e), l, r).seen == StripExpr(e, l, r).seen
    ensures SafeExpr(ExprShape(e), l, r) == SafeExpr(e, l, r)
    decreases e
  {
    match e
    case One(t) => TermShapeDecides(t, l, r);
    case Sum(e', plus, t) =>
      ExprShapeDecides(e', l, Some(AddOp(plus)));
      TermShapeDecides(t, Some(AddOp(plus)), r);
  }

  // ---------- A dropped pair that hides a quotient after * ----------

  /** 3 / 2 among factors worth 1. */
  predicate Halves(t: Term)
  {
    t.Product? &&
    (|| (!t.mul && Leads(Truncating, t.left, 3) && FactorValue(Truncating, t.right) == Some(2.0))
     || (Halves(t.left) && FactorValue(Truncating, t.right) == Some(1.0)))
  }

  lemma TruncateHalf()
    ensures MulDiv(Truncating, Some(3.0), false, Some(2.0)) == Some(1.0)
    ensures MulDiv(Truncating, Some(9.0), false, Some(2.0)) == Some(4.0)
  {
    assert Over(3.0, 2.0) == 1.5 && 1.5.Floor == 1;
    assert Over(9.0, 2.0) == 4.5 && 4.5.Floor == 4;
  }

  lemma {:induction false} HalvesValue(t: Term)
    requires Halves(t)
    ensures TermValue(Truncating, t) == Some(1.0)
  {
    TruncateHalf();
    NeutralOne(Truncating, 1, t.mul);
    if !t.mul && Leads(Truncating, t.left, 3) && FactorValue(Truncating, t.right) == Some(2.0) {
      LeadsValue(Truncating, t.left, 3);
    } else {
      HalvesValue(t.left);
    }
  }

  lemma {:induction false} HalvesAppend(x: Term, mul: bool, t: Term)
    requires Halves(x) && Leads(Truncating, t, 1)
    ensures Halves(AppendTerm(x, mul, t))
  {
    match t
    case Single(_) =>
    case Product(t', _, _) => HalvesAppend(x, mul, t');
  }

  /** 3 * (3 / 2) is 3, but 3 * 3 / 2 is 4. */
  lemma {:induction false} ThreeTimesHalves(x: Term, t: Term)
    requires Leads(Truncating, x, 3) && Halves(t)
    ensures TermValue(Truncating, AppendTerm(x, true, t)) == Some(4.0)
  {
    TruncateHalf();
    NeutralOne(Truncating, 4, t.mul);
    if !t.mul && Leads(Truncating, t.left, 3) && FactorValue(Truncating, t.right) == Some(2.0) {
      ThreeTimesThree(x, t.left);
    } else {
      ThreeTimesHalves(x, t.left);
    }
  }

  lemma {:induction false} ThreeTimesThree(x: Term, t: Term)
    requires Leads(Truncating, x, 3) && Leads(Truncating, t, 3)
    ensures TermValue(Truncating, AppendTerm(x, true, t)) == Some(9.0)
  {
    match t
    case Single(_) =>
      LeadsValue(Truncating, x, 3);
      assert Times(3.0, 3.0) == 9.0;
    case Product(t', mul, _) =>
      ThreeTimesThree(x, t');
      NeutralOne(Truncating, 9, mul);
  }

  lemma {:induction false} HalveFactor(f: Factor, l: Option<Op>, r: Option<Op>) returns (f': Factor)
    requires SafeFactor(f, l, r) && ExposesNoSum(StripFactor(f, l, r)) && Div in StripFactor(f, l, r).seen
    ensures FactorShape(f') == FactorShape(f) && FactorValue(Truncating, f') == Some(1.0)
    ensures var y := StripFactor(f', l, r); y.tree.One? && Halves(y.tree.t)
    decreases f
  {
    var e' := HalveExpr(f.inner, None, None);
    f' := Paren(e');
    FactorShapeDecides(f, l, r);
    FactorShapeDecides(f', l, r);
  }

  lemma {:induction false} HalveTerm(t: Term, l: Option<Op>, r: Option<Op>) returns (t': Term)
    requires SafeTerm(t, l, r) && ExposesNoSum(StripTerm(t, l, r)) && Div in StripTerm(t, l, r).seen
    ensures TermShape(t') == TermShape(t) && TermValue(Truncating, t') == Some(1.0)
    ensures var y := StripTerm(t', l, r); y.tree.One? && Halves(y.tree.t)
    decreases t
  {
    match t
    case Single(f) =>
      var f' := HalveFactor(f, l, r);
      t' := Single(f');
    case Product(t0, mul, f) =>
      var op := Some(MulOp(mul));
      FactorGrade(f, op, r);
      if Div in StripTerm(t0, l, op).seen {
        var x := HalveTerm(t0, l, op);
        var f' := AttainFactor(Truncating, f, op, r, 1);
        t' := Product(x, mul, f');
        FactorGrade(f', op, r);
        HalvesAppend(StripTerm(x, l, op).tree.t, mul, StripFactor(f', op, r).tree.t);
        NeutralOne(Truncating, 1, mul);
      } else {
        var x := AttainTerm(Truncating, t0, l, op, 3);
        var f' := AttainFactor(Truncating, f, op, r, 2);
        t' := Product(x, mul, f');
        TermGrade(x, l, op);
        FactorGrade(f', op, r);
        LeadsValue(Truncating, x, 3);
        TruncateHalf();
      }
  }

  lemma {:induction false} HalveExpr(e: Expr, l: Option<Op>, r: Option<Op>) returns (e': Expr)
    requires SafeExpr(e, l, r) && ExposesNoSum(StripExpr(e, l, r)) && Div in StripExpr(e, l, r).seen
    ensures ExprShape(e') == ExprShape(e) && ExprValue(Truncating, e') == Some(1.0)
    ensures var y := StripExpr(e', l, r); y.tree.One? && Halves(y.tree.t)
    decreases e
  {
    match e
    case One(t) =>
      var t' := HalveTerm(t, l, r);
      e' := One(t');
    case Sum(_, _, _) =>
      assert false;
  }

  // ---------- The difference survives every context ----------

  /** v and w are different positive numbers. */
  ghost predicate Apart(x: Value, y: Value, v: nat, w: nat)
  {
    x == Some(v as real) && y == Some(w as real) && 0 < v && 0 < w && v != w
  }

  lemma {:induction false} AppendNeutral(a: Arith, x: Term, mul: bool, t: Term, n: nat)
    requires TermValue(a, x) == Some(n as real) && Leads(a, t, 1)
    ensures TermValue(a, AppendTerm(x, mul, t)) == Some(n as real)
  {
    match t
    case Single(_) => NeutralOne(a, n, mul);
    case Product(t', mul', _) =>
      AppendNeutral(a, x, mul, t', n);
      NeutralOne(a, n, mul');
  }

  lemma {:induction false} OneTimes(a: Arith, x: Term, t: Term)
    requires TermValue(a, x) == Some(1.0)
    ensures TermValue(a, AppendTerm(x, true, t)) == TermValue(a, t)
  {
    match t
    case Single(f) =>
      if FactorValue(a, f).Some? {
        assert Times(1.0, FactorValue(a, f).value) == FactorValue(a, f).value;
      }
    case Product(t', _, _) => OneTimes(a, x, t');
  }

  lemma DivideProduct(v: nat, w: nat)
    requires 0 < v && 0 < w
    ensures MulDiv(Truncating, Some((v * w) as real), false, Some(v as real)) == Some(w as real)
  {
    assert (v * w) as real == v as real * w as real;
    assert Over((v * w) as real, v as real) == w as real;
  }

  lemma {:induction false} DifferFactor(f: Factor, l: Option<Op>, r: Option<Op>)
      returns (f': Factor, v: nat, w: nat)
    requires f.Paren? && !SafeExpr(f.inner, None, None)
    ensures FactorShape(f') == FactorShape(f)
    ensures Apart(FactorValue(Truncating, f'), ExprValue(Truncating, StripFactor(f', l, r).tree), v, w)
    decreases f
  {
    var e';
    e', v, w := DifferExpr(f.inner, None, None);
    f' := Paren(e');
    var kept := Single(Paren(StripExpr(e', None, None).tree));
    assert ExprValue(Truncating, One(kept)) == TermValue(Truncating, kept) == FactorValue(Truncating, kept.f);
  }

  lemma {:induction false} DifferTerm(t: Term, l: Option<Op>, r: Option<Op>)
      returns (t': Term, v: nat, w: nat)
    requires !SafeTerm(t, l, r) && l != Some(Mul)
    ensures TermShape(t') == TermShape(t)
    ensures Apart(TermValue(Truncating, t'), ExprValue(Truncating, StripTerm(t', l, r).tree), v, w)
    decreases t
  {
    match t
    case Single(f) =>
      var f';
      f', v, w := DifferFactor(f, l, r);
      t' := Single(f');
    case Product(t0, mul, f) =>
      var op := Some(MulOp(mul));
      if !SafeTerm(t0, l, op) {
        var x;
        x, v, w := DifferTerm(t0, l, op);
        var f' := AttainFactor(Truncating, f, op, r, 1);
        t' := Product(x, mul, f');
        TermGrade(x, l, op);
        FactorGrade(f', op, r);
        NeutralOne(Truncating, v, mul);
        AppendNeutral(Truncating, StripTerm(x, l, op).tree.t, mul, StripFactor(f', op, r).tree.t, w);
      } else if !SafeExpr(f.inner, None, None) {
        var f';
        f', v, w := DifferFactor(f, op, r);
        t', v, w := DifferRight(t0, mul, f', l, r, v, w);
      } else {
        var e' := HalveHidden(f, r);
        var x := AttainTerm(Truncating, t0, l, op, 3);
        t', v, w := Product(x, mul, e'), 3, 4;
        TermGrade(x, l, op);
        LeadsValue(Truncating, x, 3);
        ThreeTimesHalves(StripTerm(x, l, op).tree.t, StripFactor(e', op, r).tree.t);
        assert Times(3.0, 1.0) == 3.0;
      }
  }

  lemma HalveHidden(f: Factor, r: Option<Op>) returns (f': Factor)
    requires f.Paren? && SafeExpr(f.inner, None, None) && Div in StripFactor(f, Some(Mul), r).seen
    ensures FactorShape(f') == FactorShape(f) && FactorValue(Truncating, f') == Some(1.0)
    ensures var y := StripFactor(f', Some(Mul), r); y.tree.One? && Halves(y.tree.t)
  {
    FactorGrade(f, Some(Mul), r);
    var e' := HalveExpr(f.inner, None, None);
    f' := Paren(e');
    FactorShapeDecides(f, Some(Mul), r);
    FactorShapeDecides(f', Some(Mul), r);
  }

  lemma DifferRight(t0: Term, mul: bool, f': Factor, l: Option<Op>, r: Option<Op>, v0: nat, w0: nat)
      returns (t': Term, v: nat, w: nat)
    requires var op := Some(MulOp(mul));
             Apart(FactorValue(Truncating, f'), ExprValue(Truncating, StripFactor(f', op, r).tree), v0, w0)
    ensures TermShape(t') == TermShape(Product(t0, mul, f'))
    ensures Apart(TermValue(Truncating, t'), ExprValue(Truncating, StripTerm(t', l, r).tree), v, w)
  {
    var op := Some(MulOp(mul));
    var x := AttainTerm(Truncating, t0, l, op, if mul then 1 else v0 * w0);
    t' := Product(x, mul, f');
    TermGrade(x, l, op);
    FactorGrade(f', op, r);
    if mul {
      v, w := v0, w0;
      LeadsValue(Truncating, x, 1);
      LeadsValue(Truncating, StripTerm(x, l, op).tree.t, 1);
      OneTimes(Truncating, StripTerm(x, l, op).tree.t, StripFactor(f', op, r).tree.t);
      assert Times(1.0, v as real) == v as real;
    } else {
      v, w := w0, v0;
      LeadsValue(Truncating, x, v0 * w0);
      LeadsValue(Truncating, StripTerm(x, l, op).tree.t, v0 * w0);
      DivideProduct(v0, w0);
      DivideProduct(w0, v0);
      var y := StripFactor(f', op, r).tree.t;
      assert TermValue(Truncating, y) == FactorValue(Truncating, y.f);
    }
  }

  /** A sum and the stripped sum, from the values of their parts. */
  lemma {:induction false} SumValues(x: Expr, plus: bool, t: Term, l: Option<Op>, r: Option<Op>, v: int, v': int,
                                     n: int, n': int)
    requires ExprValue(Truncating, x) == Some(v as real) && TermValue(Truncating, t) == Some(n as real)
    requires ExprValue(Truncating, StripExpr(x, l, Some(AddOp(plus))).tree) == Some(v' as real)
    requires ExprValue(Truncating, StripTerm(t, Some(AddOp(plus)), r).tree) == Some(n' as real)
    ensures ExprValue(Truncating, Sum(x, plus, t)) == Some((v + if plus then n else -n) as real)
    ensures ExprValue(Truncating, StripExpr(Sum(x, plus, t), l, r).tree) ==
            Some((v' + if plus then n' else -n') as real)
  {
    var op := Some(AddOp(plus));
    TermGrade(t, op, r);
    AppendExprValue(Truncating, StripExpr(x, l, op).tree, plus, StripTerm(t, op, r).tree);
  }

  lemma {:induction false} DifferExpr(e: Expr, l: Option<Op>, r: Option<Op>)
      returns (e': Expr, v: nat, w: nat)
    requires !SafeExpr(e, l, r) && l != Some(Mul)
    ensures ExprShape(e') == ExprShape(e)
    ensures Apart(ExprValue(Truncating, e'), ExprValue(Truncating, StripExpr(e', l, r).tree), v, w)
    decreases e
  {
    match e
    case One(t) =>
      var t';
      t', v, w := DifferTerm(t, l, r);
      e' := One(t');
    case Sum(e0, plus, t) =>
      var op := Some(AddOp(plus));
      var x, t';
      if !SafeExpr(e0, l, op) {
        x, v, w := DifferExpr(e0, l, op);
        t' := AttainTerm(Truncating, t, op, r, 0);
        LeadsValue(Truncating, t', 0);
        LeadsExprValue(Truncating, StripTerm(t', op, r).tree, 0);
        SumValues(x, plus, t', l, r, v, w, 0, 0);
      } else {
        t', v, w := DifferTerm(t, op, r);
        var n := if plus then 0 else v + w;
        x := AttainExpr(Truncating, e0, l, op, n);
        LeadsExprValue(Truncating, x, n);
        LeadsExprValue(Truncating, StripExpr(x, l, op).tree, n);
        SumValues(x, plus, t', l, r, n, n, v, w);
        if !plus {
          v, w := w, v;
        }
      }
      e' := Sum(x, plus, t');
  }

  // ---------- The exact condition ----------

  /** No pair is dropped after * while a quotient is exposed inside it. */
  predicate HidesNoQuotient(s: seq<Token>)
    requires WellFormed(s)
  {
    SafeExpr(Tree(s), None, None)
  }

  ghost predicate SameMeaning(s: seq<Token>)
    requires WellFormed(s)
  {
    Evaluate(Truncating, Strip(s)) == Evaluate(Truncating, s)
  }

  lemma TruncatingSufficient(s: seq<Token>)
    requires WellFormed(s) && HidesNoQuotient(s)
    ensures SameMeaning(s)
  {
    WellFormedIffTokens(Strip(s));
    StripExprValue(Truncating, Tree(s), None, None);
    EvaluateIsTreeValue(Truncating, s);
    EvaluateIsTreeValue(Truncating, Strip(s));
  }

  lemma SameShapeSameCondition(s: seq<Token>, s': seq<Token>)
    requires WellFormed(s) && WellFormed(s') && Shape(s) == Shape(s')
    ensures HidesNoQuotient(s) == HidesNoQuotient(s')
  {
    WellFormedIffTokens(s);
    WellFormedIffTokens(s');
    ExprShapeTokens(Tree(s));
    ExprShapeTokens(Tree(s'));
    WellFormedIffTokens(Shape(s));
    assert ExprShape(Tree(s)) == Tree(Shape(s)) == ExprShape(Tree(s'));
    ExprShapeDecides(Tree(s), None, None);
    ExprShapeDecides(Tree(s'), None, None);
  }

  lemma TruncatingNecessary(s: seq<Token>) returns (s': seq<Token>)
    requires WellFormed(s) && !HidesNoQuotient(s)
    ensures WellFormed(s') && Shape(s') == Shape(s) && !SameMeaning(s')
  {
    var e', v, w := DifferExpr(Tree(s), None, None);
    s' := ExprTokens(e');
    WellFormedIffTokens(s);
    WellFormedIffTokens(s');
    ExprShapeTokens(Tree(s));
    ExprShapeTokens(e');
    WellFormedIffTokens(Strip(s'));
    EvaluateIsTreeValue(Truncating, s');
    EvaluateIsTreeValue(Truncating, Strip(s'));
  }

  /** With C's division, stripping is harmless for all literals exactly when no quotient is hidden. */
  lemma TruncatingExactly(s: seq<Token>)
    requires WellFormed(s)
    ensures (forall s' :: WellFormed(s') && Shape(s') == Shape(s) ==> SameMeaning(s')) <==> HidesNoQuotient(s)
  {
    if HidesNoQuotient(s) {
      forall s' | WellFormed(s') && Shape(s') == Shape(s)
        ensures SameMeaning(s')
      {
        SameShapeSameCondition(s, s');
        TruncatingSufficient(s');
      }
    } else {
      var s' := TruncatingNecessary(s);
    }
  }

  // ---------- A concrete expression that changes ----------

  /** 2*(3/2), worth 2, and 2*3/2, worth 3. */
  const WITH: seq<Token> := [Num(2), Oper(Mul), LParen, Num(3), Oper(Div), Num(2), RParen]
  const WITHOUT: seq<Token> := [Num(2), Oper(Mul), Num(3), Oper(Div), Num(2)]

  lemma QuotientTrees() returns (e: Expr, e': Expr)
    ensures ExprTokens(e) == WITH && ExprTokens(e') == WITHOUT
    ensures StripExpr(e, None, None).tree == e'
    ensures ExprValue(Truncating, e) == Some(2.0) && ExprValue(Truncating, e') == Some(3.0)
  {
    var three, two := Single(Lit(3)), Single(Lit(2));
    var inner := Product(three, false, Lit(2));
    e := One(Product(two, true, Paren(One(inner))));
    e' := One(Product(Product(two, true, Lit(3)), false, Lit(2)));
    assert TermTokens(inner) == [Num(3), Oper(Div), Num(2)];
    assert FactorTokens(Paren(One(inner))) == [LParen, Num(3), Oper(Div), Num(2), RParen];
    assert TermTokens(Product(two, true, Lit(3))) == [Num(2), Oper(Mul), Num(3)];
    TruncateHalf();
    assert TermValue(Truncating, inner) == Some(1.0);
    assert Times(2.0, 1.0) == 2.0 && Times(2.0, 3.0) == 6.0;
    assert TermValue(Truncating, Product(two, true, Lit(3))) == Some(6.0);
    assert Over(6.0, 2.0) == 3.0 && 3.0.Floor == 3;
  }

  lemma QuotientChanges()
    ensures WellFormed(WITH) && Strip(WITH) == WITHOUT
    ensures Evaluate(Truncating, WITH) == Some(Some(2.0)) && Evaluate(Truncating, WITHOUT) == Some(Some(3.0))
  {
    var e, e' := QuotientTrees();
    WellFormedIffTokens(WITH);
    WellFormedIffTokens(WITHOUT);
    EvaluateIsTreeValue(Truncating, WITH);
    EvaluateIsTreeValue(Truncating, WITHOUT);
  }
}
