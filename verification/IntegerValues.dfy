/**
 What the evaluator computes, in integers: sums, products and the quotients of C, given by the
 property that section 6.5.5 of ISO/IEC 9899 states for them.
 */
module IntegerValues {
  import opened Wrappers
  import opened Expressions

  // ---------- C's division ----------

  /** q is the quotient of x and y: the remainder is smaller than y in size, and zero or of the sign of x. */
  ghost predicate IsQuotient(x: int, y: int, q: int)
  {
    var r := x - q * y;
    (if y > 0 then -y < r < y else y < r < -y) && (r > 0 ==> x > 0) && (r < 0 ==> x < 0)
  }

  lemma Apart(y: int, q: int, q': int)
    requires q < q' && y > 0
    ensures q' * y - q * y >= y
  {
    assert q' * y - q * y == (q' - q) * y;
    assert (q' - q - 1) * y >= 0;
  }

  lemma Negated(x: int, y: int, q: int)
    ensures IsQuotient(-x, -y, q) <==> IsQuotient(x, y, q)
  {
    assert -x - q * -y == -(x - q * y);
  }

  lemma {:induction false} QuotientIsUnique(x: int, y: int, q: int, q': int)
    requires IsQuotient(x, y, q) && IsQuotient(x, y, q')
    ensures q == q'
    decreases y <= 0
  {
    if y < 0 {
      Negated(x, y, q);
      Negated(x, y, q');
      QuotientIsUnique(-x, -y, q, q');
    } else if q < q' {
      Apart(y, q, q');
    } else if q' < q {
      Apart(y, q', q);
    }
  }

  // ---------- The division of the model is C's division ----------

  lemma ProductOfInts(x: int, y: int)
    ensures Times(x as real, y as real) == (x * y) as real
  {
    assert (x * y) as real == (x as real) * (y as real);
  }

  lemma OverTimes(x: real, y: real)
    requires y != 0.0
    ensures Times(Over(x, y), y) == x
  {}

  lemma BelowTimes(a: real, b: real, y: real)
    requires a <= b && y > 0.0
    ensures Times(a, y) <= Times(b, y) && (a < b ==> Times(a, y) < Times(b, y))
  {}

  /** Truncation: the integer next to z on the side of zero. */
  lemma Truncated(z: real) returns (q: int)
    ensures Truncate(z) == q as real
    ensures if z >= 0.0 then q >= 0 && q as real <= z < (q + 1) as real else q <= 0 && (q - 1) as real < z <= q as real
  {
    q := if z >= 0.0 then z.Floor else -((-z).Floor);
    assert (-z).Floor as real <= -z < (-z).Floor as real + 1.0;
  }

  lemma OfPositive(x: int, y: int) returns (q: int)
    requires y > 0
    ensures Truncate(Over(x as real, y as real)) == q as real && IsQuotient(x, y, q)
  {
    var z := Over(x as real, y as real);
    q := Truncated(z);
    OverTimes(x as real, y as real);
    ProductOfInts(q, y);
    if z >= 0.0 {
      BelowTimes(0.0, z, y as real);
      BelowTimes(q as real, z, y as real);
      BelowTimes(z, (q + 1) as real, y as real);
      ProductOfInts(q + 1, y);
      assert (q + 1) * y == q * y + y && q * y >= 0;
    } else {
      BelowTimes(z, 0.0, y as real);
      BelowTimes(z, q as real, y as real);
      BelowTimes((q - 1) as real, z, y as real);
      ProductOfInts(q - 1, y);
      assert (q - 1) * y == q * y - y && q * y <= 0;
    }
  }

  lemma NegatedOver(x: real, y: real)
    requires y != 0.0
    ensures Over(-x, -y) == Over(x, y)
  {}

  lemma Quotient(x: int, y: int) returns (q: int)
    requires y != 0
    ensures Truncate(Over(x as real, y as real)) == q as real && IsQuotient(x, y, q)
  {
    if y > 0 {
      q := OfPositive(x, y);
    } else {
      q := OfPositive(-x, -y);
      Negated(x, y, q);
      NegatedOver(x as real, y as real);
      assert (-x) as real == -(x as real) && (-y) as real == -(y as real);
    }
  }

  /** A division of integers by C's rule is the quotient, and nothing else is. */
  lemma DivisionIsQuotient(x: int, y: int, q: int)
    requires y != 0
    ensures MulDiv(Truncating, Some(x as real), false, Some(y as real)) == Some(q as real) <==> IsQuotient(x, y, q)
  {
    var p := Quotient(x, y);
    if IsQuotient(x, y, q) {
      QuotientIsUnique(x, y, p, q);
    }
  }

  /** An exact division gives the number that makes up x when multiplied by y, and nothing else does. */
  lemma DivisionIsExact(x: real, y: real, q: real)
    requires y != 0.0
    ensures MulDiv(Exact, Some(x), false, Some(y)) == Some(q) <==> q * y == x
  {
    OverTimes(x, y);
    assert Over(x, y) * y == x;
    if q * y == x {
      assert (q - Over(x, y)) * y == q * y - Over(x, y) * y;
    } else {
      assert q != Over(x, y);
    }
  }

  // ---------- Expressions over the integers ----------

  lemma HasQuotient(x: int, y: int)
    requires y != 0
    ensures exists q :: IsQuotient(x, y, q)
  {
    var q := Quotient(x, y);
  }

  ghost function CQuotient(x: int, y: int): (q: int)
    requires y != 0
    ensures IsQuotient(x, y, q)
  {
    HasQuotient(x, y);
    var p :| IsQuotient(x, y, p);
    p
  }

  ghost function FactorInt(f: Factor): Option<int>
  {
    match f
    case Lit(n) => Some(n)
    case Paren(e) => ExprInt(e)
  }

  ghost function TermInt(t: Term): Option<int>
  {
    match t
    case Single(f) => FactorInt(f)
    case Product(l, mul, f) =>
      var x, y := TermInt(l), FactorInt(f);
      if x.None? || y.None? then None
      else if mul then Some(x.value * y.value)
      else if y.value == 0 then None
      else Some(CQuotient(x.value, y.value))
  }

  /** The value by C's rules, None once something is divided by zero. */
  ghost function ExprInt(e: Expr): Option<int>
  {
    match e
    case One(t) => TermInt(t)
    case Sum(l, plus, t) =>
      var x, y := ExprInt(l), TermInt(t);
      if x.None? || y.None? then None
      else Some(if plus then x.value + y.value else x.value - y.value)
  }

  function AsValue(v: Option<int>): Value
  {
    if v.None? then None else Some(v.value as real)
  }

  lemma {:induction false} FactorIsInt(f: Factor)
    ensures FactorValue(Truncating, f) == AsValue(FactorInt(f))
    decreases f
  {
    match f
    case Lit(n) =>
    case Paren(e) => ExprIsInt(e);
  }

  lemma {:induction false} TermIsInt(t: Term)
    ensures TermValue(Truncating, t) == AsValue(TermInt(t))
    decreases t
  {
    match t
    case Single(f) => FactorIsInt(f);
    case Product(l, mul, f) =>
      TermIsInt(l);
      FactorIsInt(f);
      var x, y := TermInt(l), FactorInt(f);
      if x.Some? && y.Some? {
        ProductOfInts(x.value, y.value);
        if y.value != 0 {
          DivisionIsQuotient(x.value, y.value, CQuotient(x.value, y.value));
        }
      }
  }

  /** With C's division every value is an integer, the one that C's rules give. */
  lemma {:induction false} ExprIsInt(e: Expr)
    ensures ExprValue(Truncating, e) == AsValue(ExprInt(e))
    decreases e
  {
    match e
    case One(t) => TermIsInt(t);
    case Sum(l, _, t) =>
      ExprIsInt(l);
      TermIsInt(t);
  }

  /** The evaluator: the integer value of the tree it reads. */
  lemma EvaluatesByRules(s: seq<Token>)
    ensures Evaluate(Truncating, s) ==
            if ParseExpr(s, 0).None? then None else Some(AsValue(ExprInt(ParseExpr(s, 0).value.0)))
  {
    EvaluateIsTreeValue(Truncating, s);
    if ParseExpr(s, 0).Some? {
      ExprIsInt(ParseExpr(s, 0).value.0);
    }
  }
}
