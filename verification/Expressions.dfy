/**
 The arithmetic grammar shared by the expression evaluator and the parenthesis stripper:
 tokens, concrete syntax trees, their value, and the evaluator itself.
 */
module Expressions {
  import opened Wrappers

  datatype Op = Plus | Minus | Mul | Div

  datatype Token = Num(n: nat) | Oper(op: Op) | LParen | RParen

  // ---------- Concrete syntax: one constructor per grammar rule, left recursive ----------

  datatype Factor = Lit(n: nat) | Paren(inner: Expr)
  datatype Term = Single(f: Factor) | Product(left: Term, mul: bool, right: Factor)
  datatype Expr = One(t: Term) | Sum(lhs: Expr, plus: bool, rhs: Term)

  function MulOp(mul: bool): Op { if mul then Mul else Div }
  function AddOp(plus: bool): Op { if plus then Plus else Minus }

  function FactorTokens(f: Factor): (s: seq<Token>)
    ensures |s| > 0
  {
    match f
    case Lit(n) => [Num(n)]
    case Paren(e) => [LParen] + ExprTokens(e) + [RParen]
  }

  function TermTokens(t: Term): (s: seq<Token>)
    ensures |s| > 0
  {
    match t
    case Single(f) => FactorTokens(f)
    case Product(l, mul, f) => TermTokens(l) + [Oper(MulOp(mul))] + FactorTokens(f)
  }

  function ExprTokens(e: Expr): (s: seq<Token>)
    ensures |s| > 0
  {
    match e
    case One(t) => TermTokens(t)
    case Sum(l, plus, t) => ExprTokens(l) + [Oper(AddOp(plus))] + TermTokens(t)
  }

  // ---------- Values ----------

  /** Exact division over the rationals, or C's division, which truncates toward zero. */
  datatype Arith = Exact | Truncating

  /** A value, or None once something was divided by zero. */
  type Value = Option<real>

  function Truncate(x: real): real
  {
    if x >= 0.0 then x.Floor as real else -((-x).Floor as real)
  }

  function Times(x: real, y: real): real { x * y }

  function Over(x: real, y: real): real
    requires y != 0.0
  {
    x / y
  }

  function MulDiv(a: Arith, x: Value, mul: bool, y: Value): Value
  {
    if x.None? || y.None? then None
    else if mul then Some(Times(x.value, y.value))
    else if y.value == 0.0 then None
    else if a.Exact? then Some(Over(x.value, y.value))
    else Some(Truncate(Over(x.value, y.value)))
  }

  function AddSub(x: Value, plus: bool, y: Value): Value
  {
    if x.None? || y.None? then None
    else if plus then Some(x.value + y.value)
    else Some(x.value - y.value)
  }

  function FactorValue(a: Arith, f: Factor): Value
  {
    match f
    case Lit(n) => Some(n as real)
    case Paren(e) => ExprValue(a, e)
  }

  function TermValue(a: Arith, t: Term): Value
  {
    match t
    case Single(f) => FactorValue(a, f)
    case Product(l, mul, f) => MulDiv(a, TermValue(a, l), mul, FactorValue(a, f))
  }

  function ExprValue(a: Arith, e: Expr): Value
  {
    match e
    case One(t) => TermValue(a, t)
    case Sum(l, plus, t) => AddSub(ExprValue(a, l), plus, TermValue(a, t))
  }

  // ---------- The recursive-descent parser, with the tree as its accumulator ----------

  predicate AtMulOp(s: seq<Token>, c: nat)
  {
    c < |s| && (s[c] == Oper(Mul) || s[c] == Oper(Div))
  }

  predicate AtAddOp(s: seq<Token>, c: nat)
  {
    c < |s| && (s[c] == Oper(Plus) || s[c] == Oper(Minus))
  }

  function ParseExpr(s: seq<Token>, c: nat): (r: Option<(Expr, nat)>)
    requires c <= |s|
    ensures r.Some? ==> c < r.value.1 <= |s|
    decreases |s| - c, 5
  {
    match ParseTerm(s, c)
    case None => None
    case Some((t, d)) => ParseExprRest(s, d, One(t))
  }

  function ParseExprRest(s: seq<Token>, c: nat, acc: Expr): (r: Option<(Expr, nat)>)
    requires c <= |s|
    ensures r.Some? ==> c <= r.value.1 <= |s|
    decreases |s| - c, 4
  {
    if AtAddOp(s, c) then
      match ParseTerm(s, c + 1)
      case None => None
      case Some((t, d)) => ParseExprRest(s, d, Sum(acc, s[c] == Oper(Plus), t))
    else Some((acc, c))
  }

  function ParseTerm(s: seq<Token>, c: nat): (r: Option<(Term, nat)>)
    requires c <= |s|
    ensures r.Some? ==> c < r.value.1 <= |s|
    decreases |s| - c, 3
  {
    match ParseFactor(s, c)
    case None => None
    case Some((f, d)) => ParseTermRest(s, d, Single(f))
  }

  function ParseTermRest(s: seq<Token>, c: nat, acc: Term): (r: Option<(Term, nat)>)
    requires c <= |s|
    ensures r.Some? ==> c <= r.value.1 <= |s|
    decreases |s| - c, 2
  {
    if AtMulOp(s, c) then
      match ParseFactor(s, c + 1)
      case None => None
      case Some((f, d)) => ParseTermRest(s, d, Product(acc, s[c] == Oper(Mul), f))
    else Some((acc, c))
  }

  function ParseFactor(s: seq<Token>, c: nat): (r: Option<(Factor, nat)>)
    requires c <= |s|
    ensures r.Some? ==> c < r.value.1 <= |s|
    decreases |s| - c, 1
  {
    if c < |s| && s[c] == LParen then
      match ParseExpr(s, c + 1)
      case None => None
      case Some((e, d)) => if d < |s| && s[d] == RParen then Some((Paren(e), d + 1)) else None
    else if c < |s| && s[c].Num? then Some((Lit(s[c].n), c + 1))
    else None
  }

  /** A complete expression: the parser accepts it and reads every token. */
  predicate WellFormed(s: seq<Token>)
  {
    var r := ParseExpr(s, 0);
    r.Some? && r.value.1 == |s|
  }

  function Tree(s: seq<Token>): Expr
    requires WellFormed(s)
  {
    ParseExpr(s, 0).value.0
  }

  /** s holds the tokens w at positions c .. d. */
  predicate Holds(s: seq<Token>, c: nat, w: seq<Token>, d: nat)
  {
    c <= d <= |s| && s[c..d] == w
  }

  lemma HoldsConcat(s: seq<Token>, c: nat, w: seq<Token>, d: nat, w': seq<Token>, e: nat)
    requires Holds(s, c, w, d) && Holds(s, d, w', e)
    ensures Holds(s, c, w + w', e)
  {
    assert s[c..e] == s[c..d] + s[d..e];
  }

  lemma HoldsSplit(s: seq<Token>, c: nat, w: seq<Token>, w': seq<Token>, e: nat)
    requires Holds(s, c, w + w', e)
    ensures Holds(s, c, w, c + |w|) && Holds(s, c + |w|, w', e)
  {
    assert s[c..e][..|w|] == w && s[c..e][|w|..] == w';
  }

  /** Two pieces of a string with one token between them. */
  lemma HoldsAround(s: seq<Token>, c: nat, w: seq<Token>, x: Token, w': seq<Token>, e: nat)
    requires Holds(s, c, w + [x] + w', e)
    ensures Holds(s, c, w, c + |w|) && c + |w| < |s| && s[c + |w|] == x && Holds(s, c + |w| + 1, w', e)
  {
    HoldsSplit(s, c, w + [x], w', e);
    HoldsSplit(s, c, w, [x], c + |w| + 1);
    assert s[c + |w|] == s[c + |w|..c + |w| + 1][0];
  }

  // ---------- The parser is sound: it returns a tree of exactly the tokens it read ----------

  lemma {:induction false} ParseExprSound(s: seq<Token>, c: nat)
    requires c <= |s| && ParseExpr(s, c).Some?
    ensures var (e, d) := ParseExpr(s, c).value;
            Holds(s, c, ExprTokens(e), d) && !AtAddOp(s, d) && !AtMulOp(s, d)
    decreases |s| - c, 5
  {
    ParseTermSound(s, c);
    var (t, d) := ParseTerm(s, c).value;
    ParseExprRestSound(s, c, d, One(t));
  }

  lemma {:induction false} ParseExprRestSound(s: seq<Token>, start: nat, c: nat, acc: Expr)
    requires start <= c <= |s| && ParseExprRest(s, c, acc).Some?
    requires Holds(s, start, ExprTokens(acc), c) && !AtMulOp(s, c)
    ensures var (e, d) := ParseExprRest(s, c, acc).value;
            Holds(s, start, ExprTokens(e), d) && !AtAddOp(s, d) && !AtMulOp(s, d)
    decreases |s| - c, 4
  {
    if AtAddOp(s, c) {
      ParseTermSound(s, c + 1);
      var (t, d) := ParseTerm(s, c + 1).value;
      HoldsConcat(s, start, ExprTokens(acc), c, [s[c]], c + 1);
      HoldsConcat(s, start, ExprTokens(acc) + [s[c]], c + 1, TermTokens(t), d);
      ParseExprRestSound(s, start, d, Sum(acc, s[c] == Oper(Plus), t));
    }
  }

  lemma {:induction false} ParseTermSound(s: seq<Token>, c: nat)
    requires c <= |s| && ParseTerm(s, c).Some?
    ensures var (t, d) := ParseTerm(s, c).value;
            Holds(s, c, TermTokens(t), d) && !AtMulOp(s, d)
    decreases |s| - c, 3
  {
    ParseFactorSound(s, c);
    var (f, d) := ParseFactor(s, c).value;
    ParseTermRestSound(s, c, d, Single(f));
  }

  lemma {:induction false} ParseTermRestSound(s: seq<Token>, start: nat, c: nat, acc: Term)
    requires start <= c <= |s| && ParseTermRest(s, c, acc).Some?
    requires Holds(s, start, TermTokens(acc), c)
    ensures var (t, d) := ParseTermRest(s, c, acc).value;
            Holds(s, start, TermTokens(t), d) && !AtMulOp(s, d)
    decreases |s| - c, 2
  {
    if AtMulOp(s, c) {
      ParseFactorSound(s, c + 1);
      var (f, d) := ParseFactor(s, c + 1).value;
      HoldsConcat(s, start, TermTokens(acc), c, [s[c]], c + 1);
      HoldsConcat(s, start, TermTokens(acc) + [s[c]], c + 1, FactorTokens(f), d);
      ParseTermRestSound(s, start, d, Product(acc, s[c] == Oper(Mul), f));
    }
  }

  lemma {:induction false} ParseFactorSound(s: seq<Token>, c: nat)
    requires c <= |s| && ParseFactor(s, c).Some?
    ensures var (f, d) := ParseFactor(s, c).value; Holds(s, c, FactorTokens(f), d)
    decreases |s| - c, 1
  {
    if s[c] == LParen {
      ParseExprSound(s, c + 1);
      var (e, d) := ParseExpr(s, c + 1).value;
      HoldsConcat(s, c, [LParen], c + 1, ExprTokens(e), d);
      HoldsConcat(s, c, [LParen] + ExprTokens(e), d, [RParen], d + 1);
    }
  }

  // ---------- The parser is complete: it reads back every tree from its tokens ----------

  /** After the tokens of e the parser continues as if it had e as its accumulator. */
  lemma {:induction false} ParseExprComplete(s: seq<Token>, c: nat, e: Expr, d: nat)
    requires Holds(s, c, ExprTokens(e), d) && !AtMulOp(s, d)
    ensures ParseExpr(s, c) == ParseExprRest(s, d, e)
    decreases e
  {
    match e
    case One(t) =>
      ParseTermComplete(s, c, t, d);
    case Sum(l, plus, t) =>
      HoldsAround(s, c, ExprTokens(l), Oper(AddOp(plus)), TermTokens(t), d);
      var k := c + |ExprTokens(l)|;
      ParseExprComplete(s, c, l, k);
      ParseTermComplete(s, k + 1, t, d);
  }

  lemma {:induction false} ParseTermComplete(s: seq<Token>, c: nat, t: Term, d: nat)
    requires Holds(s, c, TermTokens(t), d)
    ensures ParseTerm(s, c) == ParseTermRest(s, d, t)
    decreases t
  {
    match t
    case Single(f) =>
      ParseFactorComplete(s, c, f, d);
    case Product(l, mul, f) =>
      HoldsAround(s, c, TermTokens(l), Oper(MulOp(mul)), FactorTokens(f), d);
      var k := c + |TermTokens(l)|;
      ParseTermComplete(s, c, l, k);
      ParseFactorComplete(s, k + 1, f, d);
  }

  lemma {:induction false} ParseFactorComplete(s: seq<Token>, c: nat, f: Factor, d: nat)
    requires Holds(s, c, FactorTokens(f), d)
    ensures ParseFactor(s, c) == Some((f, d))
    decreases f
  {
    assert s[c] == s[c..d][0];
    match f
    case Lit(n) =>
    case Paren(e) =>
      HoldsSplit(s, c, [LParen] + ExprTokens(e), [RParen], d);
      HoldsSplit(s, c, [LParen], ExprTokens(e), d - 1);
      assert s[d - 1] == s[d - 1..d][0] == RParen;
      ParseExprComplete(s, c + 1, e, d - 1);
  }

  /** The well-formed strings are exactly the token strings of trees, and the tree is unique. */
  lemma WellFormedIffTokens(s: seq<Token>)
    ensures WellFormed(s) <==> exists e :: ExprTokens(e) == s
    ensures forall e :: ExprTokens(e) == s ==> WellFormed(s) && Tree(s) == e
    ensures WellFormed(s) ==> ExprTokens(Tree(s)) == s
  {
    if WellFormed(s) {
      ParseExprSound(s, 0);
      assert s[0..|s|] == s;
      assert ExprTokens(Tree(s)) == s;
    }
    forall e | ExprTokens(e) == s
      ensures WellFormed(s) && Tree(s) == e
    {
      assert s[0..|s|] == s;
      ParseExprComplete(s, 0, e, |s|);
    }
  }

  // ---------- The evaluator: the same descent, with the value so far as its accumulator ----------

  function EvalExpr(a: Arith, s: seq<Token>, c: nat): (r: Option<(Value, nat)>)
    requires c <= |s|
    ensures r.Some? ==> c < r.value.1 <= |s|
    decreases |s| - c, 5
  {
    match EvalTerm(a, s, c)
    case None => None
    case Some((v, d)) => EvalExprRest(a, s, d, v)
  }

  function EvalExprRest(a: Arith, s: seq<Token>, c: nat, soFar: Value): (r: Option<(Value, nat)>)
    requires c <= |s|
    ensures r.Some? ==> c <= r.value.1 <= |s|
    decreases |s| - c, 4
  {
    if AtAddOp(s, c) then
      match EvalTerm(a, s, c + 1)
      case None => None
      case Some((v, d)) => EvalExprRest(a, s, d, AddSub(soFar, s[c] == Oper(Plus), v))
    else Some((soFar, c))
  }

  function EvalTerm(a: Arith, s: seq<Token>, c: nat): (r: Option<(Value, nat)>)
    requires c <= |s|
    ensures r.Some? ==> c < r.value.1 <= |s|
    decreases |s| - c, 3
  {
    match EvalFactor(a, s, c)
    case None => None
    case Some((v, d)) => EvalTermRest(a, s, d, v)
  }

  function EvalTermRest(a: Arith, s: seq<Token>, c: nat, soFar: Value): (r: Option<(Value, nat)>)
    requires c <= |s|
    ensures r.Some? ==> c <= r.value.1 <= |s|
    decreases |s| - c, 2
  {
    if AtMulOp(s, c) then
      match EvalFactor(a, s, c + 1)
      case None => None
      case Some((v, d)) => EvalTermRest(a, s, d, MulDiv(a, soFar, s[c] == Oper(Mul), v))
    else Some((soFar, c))
  }

  function EvalFactor(a: Arith, s: seq<Token>, c: nat): (r: Option<(Value, nat)>)
    requires c <= |s|
    ensures r.Some? ==> c < r.value.1 <= |s|
    decreases |s| - c, 1
  {
    if c < |s| && s[c] == LParen then
      match EvalExpr(a, s, c + 1)
      case None => None
      case Some((v, d)) => if d < |s| && s[d] == RParen then Some((v, d + 1)) else None
    else if c < |s| && s[c].Num? then Some((Some(s[c].n as real), c + 1))
    else None
  }

  /** The evaluator at the top level: it stops where no rule continues, and ignores the rest. */
  function Evaluate(a: Arith, s: seq<Token>): Option<Value>
  {
    match EvalExpr(a, s, 0)
    case None => None
    case Some((v, _)) => Some(v)
  }

  // ---------- The evaluator computes the value of the tree the parser builds ----------

  lemma {:induction false} EvalExprIsParse(a: Arith, s: seq<Token>, c: nat)
    requires c <= |s|
    ensures EvalExpr(a, s, c) == match ParseExpr(s, c) case None => None case Some((e, d)) => Some((ExprValue(a, e), d))
    decreases |s| - c, 5
  {
    EvalTermIsParse(a, s, c);
    match ParseTerm(s, c)
    case None =>
    case Some((t, d)) => EvalExprRestIsParse(a, s, d, One(t));
  }

  lemma {:induction false} EvalExprRestIsParse(a: Arith, s: seq<Token>, c: nat, acc: Expr)
    requires c <= |s|
    ensures EvalExprRest(a, s, c, ExprValue(a, acc))
         == match ParseExprRest(s, c, acc) case None => None case Some((e, d)) => Some((ExprValue(a, e), d))
    decreases |s| - c, 4
  {
    if AtAddOp(s, c) {
      EvalTermIsParse(a, s, c + 1);
      match ParseTerm(s, c + 1)
      case None =>
      case Some((t, d)) => EvalExprRestIsParse(a, s, d, Sum(acc, s[c] == Oper(Plus), t));
    }
  }

  lemma {:induction false} EvalTermIsParse(a: Arith, s: seq<Token>, c: nat)
    requires c <= |s|
    ensures EvalTerm(a, s, c) == match ParseTerm(s, c) case None => None case Some((t, d)) => Some((TermValue(a, t), d))
    decreases |s| - c, 3
  {
    EvalFactorIsParse(a, s, c);
    match ParseFactor(s, c)
    case None =>
    case Some((f, d)) => EvalTermRestIsParse(a, s, d, Single(f));
  }

  lemma {:induction false} EvalTermRestIsParse(a: Arith, s: seq<Token>, c: nat, acc: Term)
    requires c <= |s|
    ensures EvalTermRest(a, s, c, TermValue(a, acc))
         == match ParseTermRest(s, c, acc) case None => None case Some((t, d)) => Some((TermValue(a, t), d))
    decreases |s| - c, 2
  {
    if AtMulOp(s, c) {
      EvalFactorIsParse(a, s, c + 1);
      match ParseFactor(s, c + 1)
      case None =>
      case Some((f, d)) => EvalTermRestIsParse(a, s, d, Product(acc, s[c] == Oper(Mul), f));
    }
  }

  lemma {:induction false} EvalFactorIsParse(a: Arith, s: seq<Token>, c: nat)
    requires c <= |s|
    ensures EvalFactor(a, s, c)
         == match ParseFactor(s, c) case None => None case Some((f, d)) => Some((FactorValue(a, f), d))
    decreases |s| - c, 1
  {
    if c < |s| && s[c] == LParen {
      EvalExprIsParse(a, s, c + 1);
    }
  }

  /** The evaluator computes the value of the tree that the parser builds, and fails where it fails. */
  lemma EvaluateIsTreeValue(a: Arith, s: seq<Token>)
    ensures Evaluate(a, s) == if ParseExpr(s, 0).None? then None else Some(ExprValue(a, ParseExpr(s, 0).value.0))
    ensures WellFormed(s) ==> Evaluate(a, s) == Some(ExprValue(a, Tree(s)))
  {
    EvalExprIsParse(a, s, 0);
  }

  /** What is read is a well-formed beginning that no operator continues, and its value is the result. */
  lemma EvaluatesBeginning(a: Arith, s: seq<Token>) returns (d: nat)
    requires ParseExpr(s, 0).Some?
    ensures d == ParseExpr(s, 0).value.1 && WellFormed(s[..d]) && Tree(s[..d]) == ParseExpr(s, 0).value.0
    ensures Evaluate(a, s) == Some(ExprValue(a, Tree(s[..d]))) && !AtAddOp(s, d) && !AtMulOp(s, d)
  {
    d := ParseExpr(s, 0).value.1;
    ParseExprSound(s, 0);
    assert s[0..d] == s[..d];
    WellFormedIffTokens(s[..d]);
    EvaluateIsTreeValue(a, s);
  }
}
