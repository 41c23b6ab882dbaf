/**
 The parenthesis stripper: one recursive descent decides, pair by pair, which
 parentheses to drop, from the two neighbouring characters and the set of operators
 left exposed inside the pair.
 */
module RedundantParens {
  import opened Wrappers
  import opened Expressions

  // ---------- The decision for one pair ----------

  predicate HigherPrio(op1: Op, op2: Op)
  {
    (op1 == Mul || op1 == Div) && (op2 == Plus || op2 == Minus)
  }

  /** The first operator of the enumeration that was seen. */
  function Lowest(seen: set<Op>): (op: Op)
    requires seen != {}
    ensures op in seen
  {
    if Plus in seen then Plus
    else if Minus in seen then Minus
    else if Mul in seen then Mul
    else var x :| x in seen; assert x == Div; Div
  }

  /** l and r are the operators next to the pair, None for anything else. */
  predicate Redundant(l: Option<Op>, r: Option<Op>, seen: set<Op>)
  {
    seen == {} ||
    var low := Lowest(seen);
    !(|| (l.Some? && HigherPrio(l.value, low))
      || (r.Some? && HigherPrio(r.value, low))
      || (l == Some(Minus) && (low == Plus || low == Minus))
      || l == Some(Div))
  }

  // ---------- What the descent computes, on trees ----------

  /** The tree left after stripping, the operators it exposes, and the tokens to ignore. */
  datatype Stripped = Stripped(tree: Expr, seen: set<Op>, ign: seq<bool>)

  function AsTerm(e: Expr): Term
  {
    if e.One? then e.t else Single(Paren(e))
  }

  /** l mul t, with the factors of t appended one by one. */
  function AppendTerm(l: Term, mul: bool, t: Term): Term
  {
    match t
    case Single(f) => Product(l, mul, f)
    case Product(t', mul', f) => Product(AppendTerm(l, mul, t'), mul', f)
  }

  /** l plus e, with the terms of e appended one by one. */
  function AppendExpr(l: Expr, plus: bool, e: Expr): Expr
  {
    match e
    case One(t) => Sum(l, plus, t)
    case Sum(e', plus', t) => Sum(AppendExpr(l, plus, e'), plus', t)
  }

  function StripFactor(f: Factor, l: Option<Op>, r: Option<Op>): Stripped
  {
    match f
    case Lit(n) => Stripped(One(Single(f)), {}, [false])
    case Paren(e) =>
      var inner := StripExpr(e, None, None);
      if Redundant(l, r, inner.seen) then
        Stripped(inner.tree, inner.seen, [true] + inner.ign + [true])
      else
        Stripped(One(Single(Paren(inner.tree))), {}, [false] + inner.ign + [false])
  }

  function StripTerm(t: Term, l: Option<Op>, r: Option<Op>): Stripped
  {
    match t
    case Single(f) => StripFactor(f, l, r)
    case Product(t', mul, f) =>
      var x := StripTerm(t', l, Some(MulOp(mul)));
      var y := StripFactor(f, Some(MulOp(mul)), r);
      Stripped(One(AppendTerm(AsTerm(x.tree), mul, AsTerm(y.tree))),
               x.seen + y.seen + {MulOp(mul)}, x.ign + [false] + y.ign)
  }

  function StripExpr(e: Expr, l: Option<Op>, r: Option<Op>): Stripped
  {
    match e
    case One(t) => StripTerm(t, l, r)
    case Sum(e', plus, t) =>
      var x := StripExpr(e', l, Some(AddOp(plus)));
      var y := StripTerm(t, Some(AddOp(plus)), r);
      Stripped(AppendExpr(x.tree, plus, y.tree),
               x.seen + y.seen + {AddOp(plus)}, x.ign + [false] + y.ign)
  }

  /** The tokens of w that are not ignored. */
  function Keep(w: seq<Token>, ign: seq<bool>): seq<Token>
    requires |w| == |ign|
  {
    if w == [] then []
    else Keep(w[..|w| - 1], ign[..|w| - 1]) + if ign[|w| - 1] then [] else [w[|w| - 1]]
  }

  /** The stripped form of a well-formed string. */
  function Strip(s: seq<Token>): seq<Token>
    requires WellFormed(s)
  {
    ExprTokens(StripExpr(Tree(s), None, None).tree)
  }

  // ---------- How much a stripped piece can expose ----------

  ghost predicate ExposesNoSum(x: Stripped)
  {
    Plus !in x.seen && Minus !in x.seen
  }

  ghost predicate IsMulOp(o: Option<Op>) { o == Some(Mul) || o == Some(Div) }

  /** A piece that exposes no sum is a term; one that exposes nothing is a factor. */
  ghost predicate Graded(x: Stripped)
  {
    && (ExposesNoSum(x) ==> x.tree.One?)
    && (x.seen == {} ==> x.tree.One? && x.tree.t.Single?)
  }

  lemma {:induction false} FactorGrade(f: Factor, l: Option<Op>, r: Option<Op>)
    ensures Graded(StripFactor(f, l, r))
    ensures IsMulOp(l) || IsMulOp(r) || l == Some(Minus) ==> ExposesNoSum(StripFactor(f, l, r))
    ensures l == Some(Div) ==> StripFactor(f, l, r).seen == {}
    decreases f
  {
    match f
    case Lit(_) =>
    case Paren(e) => ExprGrade(e, None, None);
  }

  lemma {:induction false} TermGrade(t: Term, l: Option<Op>, r: Option<Op>)
    ensures Graded(StripTerm(t, l, r))
    ensures IsMulOp(r) || l == Some(Minus) || t.Product? ==> ExposesNoSum(StripTerm(t, l, r))
    decreases t
  {
    match t
    case Single(f) => FactorGrade(f, l, r);
    case Product(t', mul, f) =>
      TermGrade(t', l, Some(MulOp(mul)));
      FactorGrade(f, Some(MulOp(mul)), r);
      assert MulOp(mul) in StripTerm(t, l, r).seen;
  }

  lemma {:induction false} ExprGrade(e: Expr, l: Option<Op>, r: Option<Op>)
    ensures Graded(StripExpr(e, l, r))
    decreases e
  {
    match e
    case One(t) => TermGrade(t, l, r);
    case Sum(_, plus, _) => assert AddOp(plus) in StripExpr(e, l, r).seen;
  }

  // ---------- Stripping deletes exactly the ignored tokens ----------

  lemma KeepOne(t: Token, ignored: bool)
    ensures Keep([t], [ignored]) == if ignored then [] else [t]
  {
    assert [t][..0] == [] && [ignored][..0] == [];
  }

  lemma {:induction false} KeepConcat(w: seq<Token>, i: seq<bool>, w': seq<Token>, i': seq<bool>)
    requires |w| == |i| && |w'| == |i'|
    ensures Keep(w + w', i + i') == Keep(w, i) + Keep(w', i')
    decreases |w'|
  {
    if w' == [] {
      assert w + w' == w && i + i' == i;
    } else {
      var n := |w'| - 1;
      assert (w + w')[..|w + w'| - 1] == w + w'[..n];
      assert (i + i')[..|w + w'| - 1] == i + i'[..n];
      KeepConcat(w, i, w'[..n], i'[..n]);
    }
  }

  lemma {:induction false} KeepJoin(w: seq<Token>, i: seq<bool>, o: Token, w': seq<Token>, i': seq<bool>)
    requires |w| == |i| && |w'| == |i'|
    ensures Keep(w + [o] + w', i + [false] + i') == Keep(w, i) + [o] + Keep(w', i')
  {
    KeepConcat(w + [o], i + [false], w', i');
    KeepConcat(w, i, [o], [false]);
    KeepOne(o, false);
  }

  lemma {:induction false} KeepInParens(w: seq<Token>, i: seq<bool>, b: bool)
    requires |w| == |i|
    ensures Keep([LParen] + w + [RParen], [b] + i + [b])
         == if b then Keep(w, i) else [LParen] + Keep(w, i) + [RParen]
  {
    KeepConcat([LParen] + w, [b] + i, [RParen], [b]);
    KeepConcat([LParen], [b], w, i);
    KeepOne(LParen, b);
    KeepOne(RParen, b);
  }

  lemma {:induction false} AppendTermTokens(l: Term, mul: bool, t: Term)
    ensures TermTokens(AppendTerm(l, mul, t)) == TermTokens(l) + [Oper(MulOp(mul))] + TermTokens(t)
  {
    match t
    case Single(_) =>
    case Product(t', _, _) => AppendTermTokens(l, mul, t');
  }

  lemma {:induction false} AppendExprTokens(l: Expr, plus: bool, e: Expr)
    ensures ExprTokens(AppendExpr(l, plus, e)) == ExprTokens(l) + [Oper(AddOp(plus))] + ExprTokens(e)
  {
    match e
    case One(_) =>
    case Sum(e', _, _) => AppendExprTokens(l, plus, e');
  }

  ghost predicate Deletes(x: Stripped, w: seq<Token>)
  {
    |x.ign| == |w| && ExprTokens(x.tree) == Keep(w, x.ign)
  }

  lemma {:induction false} StripFactorTokens(f: Factor, l: Option<Op>, r: Option<Op>)
    ensures Deletes(StripFactor(f, l, r), FactorTokens(f))
    decreases f
  {
    match f
    case Lit(n) => KeepOne(Num(n), false);
    case Paren(e) =>
      StripExprTokens(e, None, None);
      var inner := StripExpr(e, None, None);
      KeepInParens(ExprTokens(e), inner.ign, Redundant(l, r, inner.seen));
      var kept := Single(Paren(inner.tree));
      assert ExprTokens(One(kept)) == TermTokens(kept) == FactorTokens(kept.f);
  }

  lemma {:induction false} StripTermTokens(t: Term, l: Option<Op>, r: Option<Op>)
    ensures Deletes(StripTerm(t, l, r), TermTokens(t))
    decreases t
  {
    match t
    case Single(f) => StripFactorTokens(f, l, r);
    case Product(t', mul, f) =>
      var op := MulOp(mul);
      StripTermTokens(t', l, Some(op));
      StripFactorTokens(f, Some(op), r);
      TermGrade(t', l, Some(op));
      FactorGrade(f, Some(op), r);
      var x, y := StripTerm(t', l, Some(op)), StripFactor(f, Some(op), r);
      KeepJoin(TermTokens(t'), x.ign, Oper(op), FactorTokens(f), y.ign);
      AppendTermTokens(x.tree.t, mul, y.tree.t);
  }

  lemma {:induction false} StripExprTokens(e: Expr, l: Option<Op>, r: Option<Op>)
    ensures Deletes(StripExpr(e, l, r), ExprTokens(e))
    decreases e
  {
    match e
    case One(t) => StripTermTokens(t, l, r);
    case Sum(e', plus, t) =>
      var op := AddOp(plus);
      StripExprTokens(e', l, Some(op));
      StripTermTokens(t, Some(op), r);
      var x, y := StripExpr(e', l, Some(op)), StripTerm(t, Some(op), r);
      KeepJoin(ExprTokens(e'), x.ign, Oper(op), TermTokens(t), y.ign);
      AppendExprTokens(x.tree, plus, y.tree);
  }

  // ---------- Stripping preserves the value ----------

  predicate HasDiv(t: Term)
  {
    t.Product? && (!t.mul || HasDiv(t.left))
  }

  /** Appending a product to a product multiplies, except that C's division does not associate. */
  lemma {:induction false} AppendTermValue(a: Arith, l: Term, mul: bool, t: Term)
    requires mul || t.Single?
    requires a.Exact? || !mul || !HasDiv(t)
    ensures TermValue(a, AppendTerm(l, mul, t)) == MulDiv(a, TermValue(a, l), mul, TermValue(a, t))
  {
    match t
    case Single(_) =>
    case Product(t', mul', f) =>
      AppendTermValue(a, l, mul, t');
      Associates(a, TermValue(a, l), TermValue(a, t'), mul', FactorValue(a, f));
  }

  lemma Associates(a: Arith, x: Value, y: Value, mul: bool, z: Value)
    requires a.Exact? || mul
    ensures MulDiv(a, MulDiv(a, x, true, y), mul, z) == MulDiv(a, x, true, MulDiv(a, y, mul, z))
  {
    if x.Some? && y.Some? && z.Some? {
      if mul {
        MulAssoc(x.value, y.value, z.value);
      } else if z.value != 0.0 {
        MulDivAssoc(x.value, y.value, z.value);
      }
    }
  }

  lemma MulAssoc(x: real, y: real, z: real)
    ensures Times(Times(x, y), z) == Times(x, Times(y, z))
  {}

  lemma MulDivAssoc(x: real, y: real, z: real)
    requires z != 0.0
    ensures Over(Times(x, y), z) == Times(x, Over(y, z))
  {
    var q := y / z;
    assert y == q * z;
    assert x * y == (x * q) * z;
  }

  /** Appending a sum after + adds; after -, only a term may be appended. */
  lemma {:induction false} AppendExprValue(a: Arith, l: Expr, plus: bool, e: Expr)
    requires plus || e.One?
    ensures ExprValue(a, AppendExpr(l, plus, e)) == AddSub(ExprValue(a, l), plus, ExprValue(a, e))
  {
    match e
    case One(_) =>
    case Sum(e', _, _) => AppendExprValue(a, l, plus, e');
  }

  /** No pair is dropped after * while a quotient is exposed inside it. */
  predicate SafeFactor(f: Factor, l: Option<Op>, r: Option<Op>)
  {
    f.Paren? ==>
      && SafeExpr(f.inner, None, None)
      && (l == Some(Mul) ==> Div !in StripFactor(f, l, r).seen)
  }

  predicate SafeTerm(t: Term, l: Option<Op>, r: Option<Op>)
  {
    match t
    case Single(f) => SafeFactor(f, l, r)
    case Product(t', mul, f) => SafeTerm(t', l, Some(MulOp(mul))) && SafeFactor(f, Some(MulOp(mul)), r)
  }

  predicate SafeExpr(e: Expr, l: Option<Op>, r: Option<Op>)
  {
    match e
    case One(t) => SafeTerm(t, l, r)
    case Sum(e', plus, t) => SafeExpr(e', l, Some(AddOp(plus))) && SafeTerm(t, Some(AddOp(plus)), r)
  }

  function TermOps(t: Term): set<Op>
  {
    if t.Single? then {} else TermOps(t.left) + {MulOp(t.mul)}
  }

  /** The operators of an expression outside all of its parentheses. */
  function ExprOps(e: Expr): set<Op>
  {
    if e.One? then TermOps(e.t) else ExprOps(e.lhs) + {AddOp(e.plus)} + TermOps(e.rhs)
  }

  lemma {:induction false} AppendTermOps(l: Term, mul: bool, t: Term)
    ensures TermOps(AppendTerm(l, mul, t)) == TermOps(l) + {MulOp(mul)} + TermOps(t)
  {
    match t
    case Single(_) =>
    case Product(t', _, _) => AppendTermOps(l, mul, t');
  }

  lemma {:induction false} AppendExprOps(l: Expr, plus: bool, e: Expr)
    ensures ExprOps(AppendExpr(l, plus, e)) == ExprOps(l) + {AddOp(plus)} + ExprOps(e)
  {
    match e
    case One(_) =>
    case Sum(e', _, _) => AppendExprOps(l, plus, e');
  }

  lemma {:induction false} FactorSeen(f: Factor, l: Option<Op>, r: Option<Op>)
    ensures StripFactor(f, l, r).seen == ExprOps(StripFactor(f, l, r).tree)
    decreases f
  {
    match f
    case Lit(_) =>
    case Paren(e) => ExprSeen(e, None, None);
  }

  lemma {:induction false} TermSeen(t: Term, l: Option<Op>, r: Option<Op>)
    ensures StripTerm(t, l, r).seen == ExprOps(StripTerm(t, l, r).tree)
    decreases t
  {
    match t
    case Single(f) => FactorSeen(f, l, r);
    case Product(t', mul, f) =>
      var op := MulOp(mul);
      TermSeen(t', l, Some(op));
      FactorSeen(f, Some(op), r);
      TermGrade(t', l, Some(op));
      FactorGrade(f, Some(op), r);
      AppendTermOps(StripTerm(t', l, Some(op)).tree.t, mul, StripFactor(f, Some(op), r).tree.t);
  }

  /** The seen-set is exactly the set of operators exposed by the stripped tree. */
  lemma {:induction false} ExprSeen(e: Expr, l: Option<Op>, r: Option<Op>)
    ensures StripExpr(e, l, r).seen == ExprOps(StripExpr(e, l, r).tree)
    decreases e
  {
    match e
    case One(t) => TermSeen(t, l, r);
    case Sum(e', plus, t) =>
      var op := AddOp(plus);
      ExprSeen(e', l, Some(op));
      TermSeen(t, Some(op), r);
      AppendExprOps(StripExpr(e', l, Some(op)).tree, plus, StripTerm(t, Some(op), r).tree);
  }

  lemma {:induction false} HasDivIffOp(t: Term)
    ensures HasDiv(t) <==> Div in TermOps(t)
  {
    if t.Product? {
      HasDivIffOp(t.left);
    }
  }

  lemma {:induction false} StripFactorValue(a: Arith, f: Factor, l: Option<Op>, r: Option<Op>)
    requires a.Exact? || SafeFactor(f, l, r)
    ensures ExprValue(a, StripFactor(f, l, r).tree) == FactorValue(a, f)
    decreases f
  {
    match f
    case Lit(_) =>
    case Paren(e) =>
      StripExprValue(a, e, None, None);
      var kept := Single(Paren(StripExpr(e, None, None).tree));
      assert ExprValue(a, One(kept)) == TermValue(a, kept) == FactorValue(a, kept.f);
  }

  lemma {:induction false} StripTermValue(a: Arith, t: Term, l: Option<Op>, r: Option<Op>)
    requires a.Exact? || SafeTerm(t, l, r)
    ensures ExprValue(a, StripTerm(t, l, r).tree) == TermValue(a, t)
    decreases t
  {
    match t
    case Single(f) => StripFactorValue(a, f, l, r);
    case Product(t', mul, f) =>
      var op := MulOp(mul);
      StripTermValue(a, t', l, Some(op));
      StripFactorValue(a, f, Some(op), r);
      TermGrade(t', l, Some(op));
      FactorGrade(f, Some(op), r);
      var x, y := StripTerm(t', l, Some(op)), StripFactor(f, Some(op), r);
      FactorSeen(f, Some(op), r);
      HasDivIffOp(y.tree.t);
      AppendTermValue(a, x.tree.t, mul, y.tree.t);
  }

  lemma {:induction false} StripExprValue(a: Arith, e: Expr, l: Option<Op>, r: Option<Op>)
    requires a.Exact? || SafeExpr(e, l, r)
    ensures ExprValue(a, StripExpr(e, l, r).tree) == ExprValue(a, e)
    decreases e
  {
    match e
    case One(t) => StripTermValue(a, t, l, r);
    case Sum(e', plus, t) =>
      var op := AddOp(plus);
      StripExprValue(a, e', l, Some(op));
      StripTermValue(a, t, Some(op), r);
      TermGrade(t, Some(op), r);
      AppendExprValue(a, StripExpr(e', l, Some(op)).tree, plus, StripTerm(t, Some(op), r).tree);
  }

  /** The stripped string is well formed and means the same under exact division. */
  lemma StripPreservesMeaning(s: seq<Token>)
    requires WellFormed(s)
    ensures WellFormed(Strip(s))
    ensures Evaluate(Exact, Strip(s)) == Evaluate(Exact, s)
  {
    WellFormedIffTokens(s);
    WellFormedIffTokens(Strip(s));
    StripExprValue(Exact, Tree(s), None, None);
    EvaluateIsTreeValue(Exact, s);
    EvaluateIsTreeValue(Exact, Strip(s));
  }

  // ---------- Stripping is idempotent ----------

  /** Every pair of e is forced by a neighbour. */
  predicate ForcedFactor(f: Factor, l: Option<Op>, r: Option<Op>)
  {
    f.Paren? ==> ForcedExpr(f.inner, None, None) && !Redundant(l, r, ExprOps(f.inner))
  }

  predicate ForcedTerm(t: Term, l: Option<Op>, r: Option<Op>)
  {
    match t
    case Single(f) => ForcedFactor(f, l, r)
    case Product(t', mul, f) => ForcedTerm(t', l, Some(MulOp(mul))) && ForcedFactor(f, Some(MulOp(mul)), r)
  }

  predicate ForcedExpr(e: Expr, l: Option<Op>, r: Option<Op>)
  {
    match e
    case One(t) => ForcedTerm(t, l, r)
    case Sum(e', plus, t) => ForcedExpr(e', l, Some(AddOp(plus))) && ForcedTerm(t, Some(AddOp(plus)), r)
  }

  /** A neighbour uncovered by dropping an outer pair can only force more pairs. */
  ghost predicate Uncovers(o: Option<Op>, o': Option<Op>) { o.None? || o' == o }

  lemma {:induction false} ForcedTermMono(t: Term, l: Option<Op>, r: Option<Op>, l': Option<Op>, r': Option<Op>)
    requires ForcedTerm(t, l, r) && Uncovers(l, l') && Uncovers(r, r')
    ensures ForcedTerm(t, l', r')
  {
    match t
    case Single(_) =>
    case Product(t', mul, _) => ForcedTermMono(t', l, Some(MulOp(mul)), l', Some(MulOp(mul)));
  }

  lemma {:induction false} ForcedExprMono(e: Expr, l: Option<Op>, r: Option<Op>, l': Option<Op>, r': Option<Op>)
    requires ForcedExpr(e, l, r) && Uncovers(l, l') && Uncovers(r, r')
    ensures ForcedExpr(e, l', r')
  {
    match e
    case One(t) => ForcedTermMono(t, l, r, l', r');
    case Sum(e', plus, t) =>
      ForcedExprMono(e', l, Some(AddOp(plus)), l', Some(AddOp(plus)));
      ForcedTermMono(t, Some(AddOp(plus)), r, Some(AddOp(plus)), r');
  }

  lemma {:induction false} ForcedAppendTerm(x: Term, mul: bool, t: Term, l: Option<Op>, r: Option<Op>)
    requires ForcedTerm(x, l, Some(MulOp(mul))) && ForcedTerm(t, Some(MulOp(mul)), r)
    ensures ForcedTerm(AppendTerm(x, mul, t), l, r)
  {
    match t
    case Single(_) =>
    case Product(t', mul', _) => ForcedAppendTerm(x, mul, t', l, Some(MulOp(mul')));
  }

  lemma {:induction false} ForcedAppendExpr(x: Expr, plus: bool, e: Expr, l: Option<Op>, r: Option<Op>)
    requires ForcedExpr(x, l, Some(AddOp(plus))) && ForcedExpr(e, Some(AddOp(plus)), r)
    ensures ForcedExpr(AppendExpr(x, plus, e), l, r)
  {
    match e
    case One(_) =>
    case Sum(e', plus', _) => ForcedAppendExpr(x, plus, e', l, Some(AddOp(plus')));
  }

  lemma {:induction false} StripFactorForced(f: Factor, l: Option<Op>, r: Option<Op>)
    ensures ForcedExpr(StripFactor(f, l, r).tree, l, r)
    decreases f
  {
    match f
    case Lit(_) =>
    case Paren(e) =>
      StripExprForced(e, None, None);
      ExprSeen(e, None, None);
      ForcedExprMono(StripExpr(e, None, None).tree, None, None, l, r);
  }

  lemma {:induction false} StripTermForced(t: Term, l: Option<Op>, r: Option<Op>)
    ensures ForcedExpr(StripTerm(t, l, r).tree, l, r)
    decreases t
  {
    match t
    case Single(f) => StripFactorForced(f, l, r);
    case Product(t', mul, f) =>
      var op := MulOp(mul);
      StripTermForced(t', l, Some(op));
      StripFactorForced(f, Some(op), r);
      TermGrade(t', l, Some(op));
      FactorGrade(f, Some(op), r);
      ForcedAppendTerm(StripTerm(t', l, Some(op)).tree.t, mul, StripFactor(f, Some(op), r).tree.t, l, r);
  }

  lemma {:induction false} StripExprForced(e: Expr, l: Option<Op>, r: Option<Op>)
    ensures ForcedExpr(StripExpr(e, l, r).tree, l, r)
    decreases e
  {
    match e
    case One(t) => StripTermForced(t, l, r);
    case Sum(e', plus, t) =>
      var op := AddOp(plus);
      StripExprForced(e', l, Some(op));
      StripTermForced(t, Some(op), r);
      ForcedAppendExpr(StripExpr(e', l, Some(op)).tree, plus, StripTerm(t, Some(op), r).tree, l, r);
  }

  lemma {:induction false} ForcedFactorKept(f: Factor, l: Option<Op>, r: Option<Op>)
    requires ForcedFactor(f, l, r)
    ensures StripFactor(f, l, r).tree == One(Single(f)) && StripFactor(f, l, r).seen == {}
    decreases f
  {
    if f.Paren? {
      ForcedExprKept(f.inner, None, None);
    }
  }

  lemma {:induction false} ForcedTermKept(t: Term, l: Option<Op>, r: Option<Op>)
    requires ForcedTerm(t, l, r)
    ensures StripTerm(t, l, r).tree == One(t) && StripTerm(t, l, r).seen == TermOps(t)
    decreases t
  {
    match t
    case Single(f) => ForcedFactorKept(f, l, r);
    case Product(t', mul, f) =>
      ForcedTermKept(t', l, Some(MulOp(mul)));
      ForcedFactorKept(f, Some(MulOp(mul)), r);
  }

  /** Where every pair is forced, stripping changes nothing. */
  lemma {:induction false} ForcedExprKept(e: Expr, l: Option<Op>, r: Option<Op>)
    requires ForcedExpr(e, l, r)
    ensures StripExpr(e, l, r).tree == e && StripExpr(e, l, r).seen == ExprOps(e)
    decreases e
  {
    match e
    case One(t) => ForcedTermKept(t, l, r);
    case Sum(e', plus, t) =>
      ForcedExprKept(e', l, Some(AddOp(plus)));
      ForcedTermKept(t, Some(AddOp(plus)), r);
  }

  lemma StripIdempotent(s: seq<Token>)
    requires WellFormed(s)
    ensures WellFormed(Strip(s)) && Strip(Strip(s)) == Strip(s)
    ensures ForcedExpr(Tree(Strip(s)), None, None)
  {
    WellFormedIffTokens(Strip(s));
    StripExprForced(Tree(s), None, None);
    ForcedExprKept(Tree(Strip(s)), None, None);
  }
}
