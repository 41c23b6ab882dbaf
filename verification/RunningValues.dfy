/**
 The value of an expression while it is read from left to right, and literals that make a
 given part of it neutral or worth a given number. All values here are integers and all
 divisions come out even, so that everything holds for exact and for truncating division.
 */
module RunningValues {
  import opened Wrappers
  import opened Expressions
  import opened Shapes
  import opened ParenFrames

  // ---------- Reading from left to right ----------

  function Signed(plus: bool, b: real): real { if plus then b else -b }

  /** The sum of the finished terms, and the last term with its sign; None once something was divided by zero. */
  function Run(a: Arith, e: Expr): Option<(real, real)>
  {
    match e
    case One(t) => var x := TermRun(a, t); if x.None? then None else Some((0.0, x.value))
    case Sum(e', plus, t) =>
      var v, x := Run(a, e'), TermRun(a, t);
      if v.None? || x.None? then None else Some((v.value.0 + v.value.1, Signed(plus, x.value)))
  }

  function TermRun(a: Arith, t: Term): Value
  {
    match t
    case Single(f) => FactorRun(a, f)
    case Product(t', mul, f) => MulDiv(a, TermRun(a, t'), mul, FactorRun(a, f))
  }

  function FactorRun(a: Arith, f: Factor): Value
  {
    match f
    case Lit(n) => Some(n as real)
    case Paren(e) => var v := Run(a, e); if v.None? then None else Some(v.value.0 + v.value.1)
  }

  lemma {:induction false} FactorRunIsValue(a: Arith, f: Factor)
    ensures FactorRun(a, f) == FactorValue(a, f)
    decreases f
  {
    match f
    case Lit(_) =>
    case Paren(e) => RunIsValue(a, e);
  }

  lemma {:induction false} TermRunIsValue(a: Arith, t: Term)
    ensures TermRun(a, t) == TermValue(a, t)
    decreases t
  {
    match t
    case Single(f) => FactorRunIsValue(a, f);
    case Product(t', _, f) =>
      TermRunIsValue(a, t');
      FactorRunIsValue(a, f);
  }

  lemma {:induction false} RunIsValue(a: Arith, e: Expr)
    ensures ExprValue(a, e) == if Run(a, e).None? then None else Some(Run(a, e).value.0 + Run(a, e).value.1)
    decreases e
  {
    match e
    case One(t) => TermRunIsValue(a, t);
    case Sum(e', _, t) =>
      RunIsValue(a, e');
      TermRunIsValue(a, t);
  }

  // ---------- Integers on the way ----------

  datatype Running = Running(done: int, last: int)

  function Total(v: Running): int { v.done + v.last }

  function SignedInt(plus: bool, b: int): int { if plus then b else -b }

  predicate Has(a: Arith, e: Expr, v: Running) { Run(a, e) == Some((v.done as real, v.last as real)) }

  lemma HasTotal(a: Arith, e: Expr, v: Running)
    requires Has(a, e, v)
    ensures ExprValue(a, e) == Some(Total(v) as real)
  {
    RunIsValue(a, e);
  }

  lemma {:induction false} FactorHas(a: Arith, e: Expr, v: Running)
    requires Has(a, e, v)
    ensures FactorRun(a, Paren(e)) == Some(Total(v) as real)
  {}

  /** From v, the operator op and a factor worth x lead to w; divisions come out even. */
  predicate Steps(v: Running, op: Op, x: int, w: Running)
  {
    match op
    case Plus => w == Running(Total(v), x)
    case Minus => w == Running(Total(v), -x)
    case Mul => w.done == v.done && w.last == v.last * x
    case Div => w.done == v.done && x != 0 && w.last * x == v.last
  }

  lemma FloorInt(n: int)
    ensures (n as real).Floor == n
  {}

  lemma TruncateInt(n: int)
    ensures Truncate(n as real) == n as real
  {
    FloorInt(n);
    FloorInt(-n);
    assert -(n as real) == (-n) as real;
  }

  lemma EvenProduct(a: Arith, y: int, x: int, z: int)
    requires z == y * x
    ensures MulDiv(a, Some(y as real), true, Some(x as real)) == Some(z as real)
  {
    assert Times(y as real, x as real) == (y as real) * (x as real) == z as real;
  }

  lemma EvenQuotient(a: Arith, y: int, x: int, z: int)
    requires x != 0 && z * x == y
    ensures MulDiv(a, Some(y as real), false, Some(x as real)) == Some(z as real)
  {
    assert (z as real) * (x as real) == y as real;
    assert Over(y as real, x as real) == z as real;
    TruncateInt(z);
  }

  lemma {:induction false} ProductRun(a: Arith, t: Term, y: int, op: Op, f: Factor, x: int, z: int)
    requires TermRun(a, t) == Some(y as real) && FactorRun(a, f) == Some(x as real) && IsMul(op)
    requires if op == Mul then z == y * x else x != 0 && z * x == y
    ensures TermRun(a, Product(t, op == Mul, f)) == Some(z as real)
  {
    if op == Mul {
      EvenProduct(a, y, x, z);
    } else {
      EvenQuotient(a, y, x, z);
    }
  }

  /** What the last term of e is worth, and how e changes when that term does. */
  lemma {:induction false} LastTerm(a: Arith, e: Expr, v: Running, t: Term, y: int)
    requires Has(a, e, v)
    requires TermRun(a, t) == Some(y as real)
    ensures if e.One? then
              TermRun(a, e.t) == Some(v.last as real) && v.done == 0 && Has(a, One(t), Running(0, y))
            else
              && TermRun(a, e.rhs) == Some(SignedInt(e.plus, v.last) as real)
              && Has(a, Sum(e.lhs, e.plus, t), Running(v.done, SignedInt(e.plus, y)))
  {}

  lemma {:induction false} ExtendMul(a: Arith, e: Expr, v: Running, op: Op, f: Factor, x: int, w: Running)
    requires Has(a, e, v) && FactorRun(a, f) == Some(x as real) && IsMul(op) && Steps(v, op, x, w)
    ensures Has(a, Extend(e, op, f), w)
  {
    var t, plus := if e.One? then e.t else e.rhs, e.One? || e.plus;
    LastTerm(a, e, v, Single(f), x);
    ProductRun(a, t, SignedInt(plus, v.last), op, f, x, SignedInt(plus, w.last));
    LastTerm(a, e, v, Product(t, op == Mul, f), SignedInt(plus, w.last));
  }

  lemma {:induction false} ExtendHas(a: Arith, e: Expr, v: Running, op: Op, f: Factor, x: int, w: Running)
    requires Has(a, e, v) && FactorRun(a, f) == Some(x as real) && Steps(v, op, x, w)
    ensures Has(a, Extend(e, op, f), w)
  {
    if IsMul(op) {
      ExtendMul(a, e, v, op, f, x, w);
    } else {
      assert TermRun(a, Single(f)) == Some(x as real);
    }
  }

  // ---------- Neutral items ----------

  function Unit(op: Op): nat { if IsMul(op) then 1 else 0 }

  ghost predicate Units(a: Arith, items: seq<Item>)
  {
    forall i :: 0 <= i < |items| ==> FactorRun(a, items[i].f) == Some(Unit(items[i].op) as real)
  }

  /** A unit leaves the total alone. */
  lemma {:induction false} UnitExtend(a: Arith, e: Expr, v: Running, op: Op, f: Factor) returns (w: Running)
    requires Has(a, e, v) && FactorRun(a, f) == Some(Unit(op) as real)
    ensures Has(a, Extend(e, op, f), w) && Total(w) == Total(v)
  {
    w := if IsMul(op) then v else Running(Total(v), 0);
    ExtendHas(a, e, v, op, f, Unit(op), w);
  }

  lemma {:induction false} UnitsRun(a: Arith, e: Expr, v: Running, items: seq<Item>) returns (w: Running)
    requires Has(a, e, v) && Units(a, items)
    ensures Has(a, ExtendAll(e, items), w) && Total(w) == Total(v)
    decreases |items|
  {
    w := v;
    if items != [] {
      w := UnitExtend(a, e, v, items[0].op, items[0].f);
      w := UnitsRun(a, Extend(e, items[0].op, items[0].f), w, items[1..]);
    }
  }

  // ---------- Literals of the right size ----------

  predicate SameItems(s: seq<Item>, t: seq<Item>)
  {
    |s| == |t| && forall i :: 0 <= i < |s| ==> s[i].op == t[i].op && FactorShape(s[i].f) == FactorShape(t[i].f)
  }

  lemma {:induction false} AttainFactorRun(a: Arith, f: Factor, n: nat) returns (f': Factor)
    ensures FactorShape(f') == FactorShape(f) && FactorRun(a, f') == Some(n as real)
  {
    f' := AttainFactor(a, f, None, None, n);
    FactorRunIsValue(a, f');
  }

  lemma {:induction false} LeadsRun(a: Arith, t: Term, n: nat)
    requires Leads(a, t, n)
    ensures TermRun(a, t) == Some(n as real)
  {
    LeadsValue(a, t, n);
    TermRunIsValue(a, t);
  }

  lemma {:induction false} AttainUnits(a: Arith, items: seq<Item>) returns (items': seq<Item>)
    ensures SameItems(items, items') && Units(a, items')
    decreases |items|
  {
    items' := [];
    if items != [] {
      var n := |items| - 1;
      var rest := AttainUnits(a, items[..n]);
      var f := AttainFactorRun(a, items[n].f, Unit(items[n].op));
      items' := rest + [Item(items[n].op, f)];
    }
  }

  lemma {:induction false} ZeroHas(a: Arith, pre: Expr) returns (v: Running)
    requires LeadsExpr(a, pre, 0)
    ensures Has(a, pre, v) && Total(v) == 0
    decreases pre
  {
    match pre
    case One(t) =>
      LeadsRun(a, t, 0);
      v := Running(0, 0);
    case Sum(e, plus, t) =>
      v := ZeroHas(a, e);
      LeadsRun(a, t, 0);
      v := Running(0, 0);
  }

  lemma OneHas(a: Arith, t: Term, x: int)
    requires TermRun(a, t) == Some(x as real)
    ensures Has(a, One(t), Running(0, x))
  {}

  lemma SumHas(a: Arith, e: Expr, v: Running, plus: bool, t: Term, x: int)
    requires Has(a, e, v) && TermRun(a, t) == Some(x as real)
    ensures Has(a, Sum(e, plus, t), Running(Total(v), SignedInt(plus, x)))
  {}

  /** What precedes a gap: worth 0 before + and -, and with a last term of p or -p before * and /. */
  ghost predicate Prepared(v: Running, op: Op, p: nat)
  {
    if IsMul(op) then v.done == 0 && (v.last == p || v.last + p == 0) else Total(v) == 0
  }

  lemma {:induction false} AttainBefore(a: Arith, pre: Expr, op: Op, p: nat) returns (pre': Expr, v: Running)
    ensures ExprShape(pre') == ExprShape(pre) && Has(a, pre', v) && Prepared(v, op, p)
  {
    if !IsMul(op) {
      pre' := AttainExpr(a, pre, None, None, 0);
      v := ZeroHas(a, pre');
    } else {
      match pre
      case One(t) =>
        var t' := AttainTerm(a, t, None, None, p);
        LeadsRun(a, t', p);
        OneHas(a, t', p);
        pre', v := One(t'), Running(0, p);
      case Sum(e, plus, t) =>
        var e' := AttainExpr(a, e, None, None, 0);
        var u := ZeroHas(a, e');
        var t' := AttainTerm(a, t, None, None, p);
        LeadsRun(a, t', p);
        SumHas(a, e', u, plus, t', p);
        pre', v := Sum(e', plus, t'), Running(0, SignedInt(plus, p));
    }
  }

  // ---------- A level around a value ----------

  predicate SameFrame(fr: Frame, fr': Frame)
  {
    && fr.l == fr'.l && SameItems(fr.post, fr'.post)
    && (if fr.pre.None? then fr'.pre.None? else fr'.pre.Some? && ExprShape(fr.pre.value) == ExprShape(fr'.pre.value))
  }

  ghost predicate Distinct(x: int, y: int) { x != y && x != 0 && y != 0 }

  /** Two different integers other than 0. */
  ghost predicate Differ(a: Arith, y: Expr, z: Expr)
  {
    exists v, w :: Differs(a, y, z, v, w)
  }

  ghost predicate Differs(a: Arith, y: Expr, z: Expr, v: Running, w: Running)
  {
    Has(a, y, v) && Has(a, z, w) && Distinct(Total(v), Total(w))
  }

  function Abs(x: int): nat { if x < 0 then -x else x }

  /** What may stand before the gap so that two values in it come out even and stay apart. */
  function Multiple(op: Op, x: int, y: int): nat { if op == Div then Abs(x) * Abs(y) else 1 }

  lemma {:induction false} DivideProduct(x: int, y: int, p: int) returns (u: int, w: int)
    requires Distinct(x, y) && (p == Abs(x) * Abs(y) || p == -(Abs(x) * Abs(y)))
    ensures u * x == p && w * y == p && Distinct(u, w)
  {
    var s := if p == Abs(x) * Abs(y) then 1 else -1;
    u := if x > 0 then s * Abs(y) else -(s * Abs(y));
    w := if y > 0 then s * Abs(x) else -(s * Abs(x));
  }

  lemma {:induction false} ProductsDiffer(v: Running, x: int, y: int) returns (p: Running, q: Running)
    requires Distinct(x, y) && Prepared(v, Mul, 1)
    ensures Steps(v, Mul, x, p) && Steps(v, Mul, y, q) && Distinct(Total(p), Total(q))
  {
    if v.last == 1 {
      p, q := Running(0, x), Running(0, y);
    } else {
      p, q := Running(0, -x), Running(0, -y);
    }
  }

  lemma {:induction false} QuotientsDiffer(v: Running, x: int, y: int) returns (p: Running, q: Running)
    requires Distinct(x, y) && Prepared(v, Div, Abs(x) * Abs(y))
    ensures Steps(v, Div, x, p) && Steps(v, Div, y, q) && Distinct(Total(p), Total(q))
  {
    var u, w := DivideProduct(x, y, v.last);
    p, q := Running(0, u), Running(0, w);
  }

  lemma {:induction false} StepsDiffer(v: Running, op: Op, x: int, y: int) returns (p: Running, q: Running)
    requires Distinct(x, y) && Prepared(v, op, Multiple(op, x, y))
    ensures Steps(v, op, x, p) && Steps(v, op, y, q) && Distinct(Total(p), Total(q))
  {
    if op == Plus {
      p, q := Running(0, x), Running(0, y);
    } else if op == Minus {
      p, q := Running(0, -x), Running(0, -y);
    } else if op == Mul {
      p, q := ProductsDiffer(v, x, y);
    } else {
      p, q := QuotientsDiffer(v, x, y);
    }
  }

  lemma SingleHas(a: Arith, f: Factor, x: int)
    requires FactorRun(a, f) == Some(x as real)
    ensures Has(a, One(Single(f)), Running(0, x))
  {
    assert TermRun(a, Single(f)) == Some(x as real);
  }

  lemma {:induction false} LayDiffers(a: Arith, fr: Frame, y: Expr, z: Expr, v: Running, w: Running)
    returns (pre: Option<Expr>, p: Running, q: Running)
    requires Differs(a, y, z, v, w)
    ensures if fr.pre.None? then pre.None? else pre.Some? && ExprShape(pre.value) == ExprShape(fr.pre.value)
    ensures Differs(a, Lay(pre, fr.l, Single(Paren(y))), Lay(pre, fr.l, Single(Paren(z))), p, q)
  {
    FactorHas(a, y, v);
    FactorHas(a, z, w);
    if fr.pre.None? {
      pre, p, q := None, Running(0, Total(v)), Running(0, Total(w));
      SingleHas(a, Paren(y), Total(v));
      SingleHas(a, Paren(z), Total(w));
    } else {
      var pre', u := AttainBefore(a, fr.pre.value, fr.l, Multiple(fr.l, Total(v), Total(w)));
      p, q := StepsDiffer(u, fr.l, Total(v), Total(w));
      ExtendHas(a, pre', u, fr.l, Paren(y), Total(v), p);
      ExtendHas(a, pre', u, fr.l, Paren(z), Total(w), q);
      pre := Some(pre');
    }
  }

  lemma {:induction false} LevelDiffers(a: Arith, fr: Frame, y: Expr, z: Expr) returns (fr': Frame)
    requires Differ(a, y, z)
    ensures SameFrame(fr, fr') && Differ(a, Put(fr', Paren(y)), Put(fr', Paren(z)))
  {
    var v, w :| Differs(a, y, z, v, w);
    var pre, p, q := LayDiffers(a, fr, y, z, v, w);
    var post := AttainUnits(a, fr.post);
    fr' := Frame(pre, fr.l, post);
    var c := UnitsRun(a, Lay(pre, fr.l, Single(Paren(y))), p, post);
    var d := UnitsRun(a, Lay(pre, fr.l, Single(Paren(z))), q, post);
    assert Differs(a, Put(fr', Paren(y)), Put(fr', Paren(z)), c, d);
  }

  predicate SameFrames(s: seq<Frame>, t: seq<Frame>)
  {
    |s| == |t| && forall i :: 0 <= i < |s| ==> SameFrame(s[i], t[i])
  }

  /** Around a difference, literals can be chosen so that it reaches the top. */
  lemma {:induction false} NestDiffers(a: Arith, frames: seq<Frame>, y: Expr, z: Expr) returns (frames': seq<Frame>)
    requires Differ(a, y, z)
    ensures SameFrames(frames, frames') && Differ(a, Nest(frames', y), Nest(frames', z))
    decreases |frames|
  {
    frames' := [];
    if frames != [] {
      var fr := LevelDiffers(a, frames[0], y, z);
      var rest := NestDiffers(a, frames[1..], Put(fr, Paren(y)), Put(fr, Paren(z)));
      frames' := [fr] + rest;
      assert frames'[1..] == rest;
    }
  }

  // ---------- Sums inside the pair ----------

  /** The sign of the second term. */
  function FirstSign(x: Expr): bool
    requires x.Sum?
  {
    if x.lhs.One? then x.plus else FirstSign(x.lhs)
  }

  function FirstTerm(x: Expr): Term
    requires x.Sum?
  {
    if x.lhs.One? then x.lhs.t else FirstTerm(x.lhs)
  }

  /** b and c lead the first two terms, all other terms are worth 0. */
  predicate SumLike(a: Arith, x: Expr, b: nat, c: nat)
  {
    x.Sum? && if x.lhs.One? then Leads(a, x.lhs.t, b) && Leads(a, x.rhs, c)
              else SumLike(a, x.lhs, b, c) && Leads(a, x.rhs, 0)
  }

  lemma {:induction false} AttainSum(a: Arith, x: Expr, b: nat, c: nat) returns (x': Expr)
    requires x.Sum?
    ensures ExprShape(x') == ExprShape(x) && SumLike(a, x', b, c) && FirstSign(x') == FirstSign(x)
    decreases x
  {
    if x.lhs.One? {
      var t := AttainTerm(a, x.lhs.t, None, None, b);
      var u := AttainTerm(a, x.rhs, None, None, c);
      x' := Sum(One(t), x.plus, u);
    } else {
      var y := AttainSum(a, x.lhs, b, c);
      var u := AttainTerm(a, x.rhs, None, None, 0);
      x' := Sum(y, x.plus, u);
    }
  }

  lemma {:induction false} FirstLeads(a: Arith, x: Expr, b: nat, c: nat)
    requires SumLike(a, x, b, c)
    ensures Leads(a, FirstTerm(x), b)
    decreases x
  {
    if x.lhs.Sum? {
      FirstLeads(a, x.lhs, b, c);
    }
  }

  /** The sum so far, and a last term of 0 if c is 0. */
  ghost predicate SumsTo(a: Arith, e: Expr, total: int, c: nat, v: Running)
  {
    Has(a, e, v) && Total(v) == total && (c == 0 ==> v.last == 0)
  }

  lemma {:induction false} AddSecond(a: Arith, e: Expr, w: Running, plus: bool, t: Term, c: nat)
    requires Has(a, e, w) && Leads(a, t, c)
    ensures SumsTo(a, Sum(e, plus, t), Total(w) + SignedInt(plus, c), c, Running(Total(w), SignedInt(plus, c)))
  {
    LeadsRun(a, t, c);
    SumHas(a, e, w, plus, t, c);
  }

  lemma {:induction false} SumLikeHas(a: Arith, x: Expr, b: nat, c: nat) returns (v: Running)
    requires SumLike(a, x, b, c)
    ensures SumsTo(a, x, b + SignedInt(FirstSign(x), c), c, v)
    decreases x
  {
    if x.lhs.One? {
      LeadsRun(a, x.lhs.t, b);
      OneHas(a, x.lhs.t, b);
      AddSecond(a, x.lhs, Running(0, b), x.plus, x.rhs, c);
      v := Running(b, SignedInt(x.plus, c));
    } else {
      v := SumLikeHas(a, x.lhs, b, c);
      AddSecond(a, x.lhs, v, x.plus, x.rhs, 0);
      v := Running(Total(v), 0);
    }
  }

  lemma {:induction false} JoinTermHas(a: Arith, pre: Expr, v: Running, op: Op, t: Term, n: nat, w: Running)
    requires Has(a, pre, v) && Leads(a, t, n) && Steps(v, op, n, w)
    ensures Has(a, JoinTerm(pre, op, t), w)
    decreases t
  {
    match t
    case Single(f) =>
      FactorRunIsValue(a, f);
      ExtendHas(a, pre, v, op, f, n, w);
    case Product(t', mul, f) =>
      JoinTermHas(a, pre, v, op, t', n, w);
      FactorRunIsValue(a, f);
      ExtendHas(a, JoinTerm(pre, op, t'), w, MulOp(mul), f, 1, w);
  }

  /** Without parentheses, only the first term of the sum meets the operator before it. */
  lemma {:induction false} JoinSumHas(a: Arith, pre: Expr, op: Op, x: Expr, b: nat, c: nat, w: Running)
    returns (u: Running)
    requires SumLike(a, x, b, c) && Has(a, JoinTerm(pre, op, FirstTerm(x)), w)
    ensures SumsTo(a, Join(pre, op, x), Total(w) + SignedInt(FirstSign(x), c), c, u)
    decreases x
  {
    if x.lhs.One? {
      AddSecond(a, JoinTerm(pre, op, x.lhs.t), w, x.plus, x.rhs, c);
      u := Running(Total(w), SignedInt(x.plus, c));
    } else {
      u := JoinSumHas(a, pre, op, x.lhs, b, c, w);
      AddSecond(a, Join(pre, op, x.lhs), u, x.plus, x.rhs, 0);
      u := Running(Total(u), 0);
    }
  }

  lemma {:induction false} JoinSum(a: Arith, pre: Expr, v: Running, op: Op, x: Expr, b: nat, c: nat, w: Running)
    returns (u: Running)
    requires Has(a, pre, v) && SumLike(a, x, b, c) && Steps(v, op, b, w)
    ensures SumsTo(a, Join(pre, op, x), Total(w) + SignedInt(FirstSign(x), c), c, u)
  {
    FirstLeads(a, x, b, c);
    JoinTermHas(a, pre, v, op, FirstTerm(x), b, w);
    u := JoinSumHas(a, pre, op, x, b, c, w);
  }

  lemma {:induction false} PairAfter(a: Arith, pre: Expr, v: Running, op: Op, x: Expr, b: nat, c: nat, p: Running)
    requires Has(a, pre, v) && SumLike(a, x, b, c) && Steps(v, op, b + SignedInt(FirstSign(x), c), p)
    ensures Has(a, Extend(pre, op, Paren(x)), p)
  {
    var u := SumLikeHas(a, x, b, c);
    FactorHas(a, x, u);
    ExtendHas(a, pre, v, op, Paren(x), Total(u), p);
  }
}
