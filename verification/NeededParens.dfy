/**
 The stripper leaves no pair too many: whichever pair is taken out of its output, for some
 choice of the literals the value changes.
 */
module NeededParens {
  import opened Wrappers
  import opened Expressions
  import opened RedundantParens
  import opened Shapes
  import opened ParenFrames
  import opened RunningValues

  // ---------- The pair and its place without it ----------

  function Bare(pre: Option<Expr>, l: Op, x: Expr): Expr { if pre.None? then x else Join(pre.value, l, x) }

  ghost predicate SamePre(pre: Option<Expr>, pre': Option<Expr>)
  {
    if pre.None? then pre'.None? else pre'.Some? && ExprShape(pre'.value) == ExprShape(pre.value)
  }

  /** What follows can be made neutral. */
  lemma {:induction false} BeforeUnits(a: Arith, fr: Frame, pre: Option<Expr>, x: Expr) returns (fr': Frame)
    requires Differ(a, Lay(pre, fr.l, Single(Paren(x))), Bare(pre, fr.l, x)) && SamePre(fr.pre, pre)
    ensures SameFrame(fr, fr') && Differ(a, Put(fr', Paren(x)), Splice(fr', x))
  {
    var y, z := Lay(pre, fr.l, Single(Paren(x))), Bare(pre, fr.l, x);
    var v, w :| Differs(a, y, z, v, w);
    var post := AttainUnits(a, fr.post);
    fr' := Frame(pre, fr.l, post);
    var p := UnitsRun(a, y, v, post);
    var q := UnitsRun(a, z, w, post);
    assert Differs(a, Put(fr', Paren(x)), Splice(fr', x), p, q);
  }

  // ---------- A product or a quotient after / ----------

  /** 2 / (1 * 2) against 2 / 1 * 2, and 4 / (2 / 2) against 4 / 2 / 2: the number ahead, first and last factor. */
  function Ahead(mul: bool): nat { if mul then 2 else 4 }
  function First(mul: bool): nat { if mul then 1 else 2 }

  lemma {:induction false} InnerTerm(a: Arith, t: Term, mul: bool, g: Factor)
    requires Leads(a, t, First(mul)) && FactorRun(a, g) == Some(2.0)
    ensures FactorRun(a, Paren(One(Product(t, mul, g)))) == Some((if mul then 2 else 1) as real)
  {
    LeadsRun(a, t, First(mul));
    ProductRun(a, t, First(mul), MulOp(mul), g, 2, if mul then 2 else 1);
    OneHas(a, Product(t, mul, g), if mul then 2 else 1);
    FactorHas(a, One(Product(t, mul, g)), Running(0, if mul then 2 else 1));
  }

  lemma {:induction false} OverProduct(a: Arith, pre: Expr, v: Running, t: Term, mul: bool, g: Factor)
    requires Has(a, pre, v) && Prepared(v, Div, Ahead(mul)) && Leads(a, t, First(mul)) && FactorRun(a, g) == Some(2.0)
    ensures Differ(a, Extend(pre, Div, Paren(One(Product(t, mul, g)))), Join(pre, Div, One(Product(t, mul, g))))
  {
    var s := if v.last > 0 then 1 else -1;
    var f, e := Paren(One(Product(t, mul, g))), JoinTerm(pre, Div, t);
    InnerTerm(a, t, mul, g);
    if mul {
      ExtendHas(a, pre, v, Div, f, 2, Running(0, s));
      JoinTermHas(a, pre, v, Div, t, 1, v);
      ExtendHas(a, e, v, Mul, g, 2, Running(0, 4 * s));
      assert Differs(a, Extend(pre, Div, f), Extend(e, Mul, g), Running(0, s), Running(0, 4 * s));
    } else {
      ExtendHas(a, pre, v, Div, f, 1, v);
      JoinTermHas(a, pre, v, Div, t, 2, Running(0, 2 * s));
      ExtendHas(a, e, Running(0, 2 * s), Div, g, 2, Running(0, s));
      assert Differs(a, Extend(pre, Div, f), Extend(e, Div, g), v, Running(0, s));
    }
  }

  lemma {:induction false} AfterDivision(a: Arith, fr: Frame, x: Expr) returns (fr': Frame, x': Expr)
    requires fr.pre.Some? && fr.l == Div && x.One? && x.t.Product?
    ensures SameFrame(fr, fr') && ExprShape(x') == ExprShape(x) && Differ(a, Put(fr', Paren(x')), Splice(fr', x'))
  {
    var pre, v := AttainBefore(a, fr.pre.value, Div, Ahead(x.t.mul));
    var t := AttainTerm(a, x.t.left, None, None, First(x.t.mul));
    var g := AttainFactorRun(a, x.t.right, 2);
    x' := One(Product(t, x.t.mul, g));
    OverProduct(a, pre, v, t, x.t.mul, g);
    fr' := BeforeUnits(a, fr, Some(pre), x');
  }

  // ---------- Sums after an operator ----------

  /**
   0 - (0 + 1) against 0 - 0 + 1, 2 * (0 + 1) against 2 * 0 + 1, 4 / (1 + 1) against 4 / 1 + 1,
   4 / (2 - 1) against 4 / 2 - 1: what stands ahead, and the first term; the second one is 1.
   */
  function AheadOf(op: Op): nat { if op == Mul then 2 else 4 }
  function FirstOf(op: Op, plus: bool): nat { if op == Div then (if plus then 1 else 2) else 0 }

  /** What the parentheses lead to, and what the first term alone leads to, with 1 or -1 to follow. */
  lemma {:induction false} CaseDiffers(a: Arith, pre: Expr, v: Running, op: Op, x: Expr, b: nat, p: Running, w: Running)
    requires Has(a, pre, v) && SumLike(a, x, b, 1)
    requires Steps(v, op, b + SignedInt(FirstSign(x), 1), p) && Steps(v, op, b, w)
    requires Distinct(Total(p), Total(w) + SignedInt(FirstSign(x), 1))
    ensures Differ(a, Extend(pre, op, Paren(x)), Join(pre, op, x))
  {
    PairAfter(a, pre, v, op, x, b, 1, p);
    var q := JoinSum(a, pre, v, op, x, b, 1, w);
    assert Differs(a, Extend(pre, op, Paren(x)), Join(pre, op, x), p, q);
  }

  lemma {:induction false} AfterMinus(a: Arith, pre: Expr, v: Running, x: Expr)
    requires Has(a, pre, v) && Prepared(v, Minus, 4) && SumLike(a, x, 0, 1)
    ensures Differ(a, Extend(pre, Minus, Paren(x)), Join(pre, Minus, x))
  {
    CaseDiffers(a, pre, v, Minus, x, 0, Running(0, if FirstSign(x) then -1 else 1), Running(0, 0));
  }

  lemma {:induction false} AfterTimes(a: Arith, pre: Expr, v: Running, x: Expr)
    requires Has(a, pre, v) && Prepared(v, Mul, 2) && SumLike(a, x, 0, 1)
    ensures Differ(a, Extend(pre, Mul, Paren(x)), Join(pre, Mul, x))
  {
    CaseDiffers(a, pre, v, Mul, x, 0, Running(0, if FirstSign(x) then v.last else -v.last), Running(0, 0));
  }

  lemma {:induction false} SumAfterOver(a: Arith, pre: Expr, v: Running, x: Expr)
    requires Has(a, pre, v) && Prepared(v, Div, 4) && SumLike(a, x, 1, 1) && FirstSign(x) == true
    ensures Differ(a, Extend(pre, Div, Paren(x)), Join(pre, Div, x))
  {
    CaseDiffers(a, pre, v, Div, x, 1, Running(0, if v.last > 0 then 2 else -2), v);
  }

  lemma {:induction false} DifferenceAfterOver(a: Arith, pre: Expr, v: Running, x: Expr)
    requires Has(a, pre, v) && Prepared(v, Div, 4) && SumLike(a, x, 2, 1) && FirstSign(x) == false
    ensures Differ(a, Extend(pre, Div, Paren(x)), Join(pre, Div, x))
  {
    CaseDiffers(a, pre, v, Div, x, 2, v, Running(0, if v.last > 0 then 2 else -2));
  }

  lemma {:induction false} AfterPrepared(a: Arith, pre: Expr, v: Running, op: Op, x: Expr)
    requires Has(a, pre, v) && op != Plus && Prepared(v, op, AheadOf(op))
    requires x.Sum? && SumLike(a, x, FirstOf(op, FirstSign(x)), 1)
    ensures Differ(a, Extend(pre, op, Paren(x)), Join(pre, op, x))
  {
    if op == Minus {
      AfterMinus(a, pre, v, x);
    } else if op == Mul {
      AfterTimes(a, pre, v, x);
    } else if FirstSign(x) {
      SumAfterOver(a, pre, v, x);
    } else {
      DifferenceAfterOver(a, pre, v, x);
    }
  }

  lemma {:induction false} AfterOperator(a: Arith, fr: Frame, x: Expr) returns (fr': Frame, x': Expr)
    requires fr.pre.Some? && fr.l != Plus && x.Sum?
    ensures SameFrame(fr, fr') && ExprShape(x') == ExprShape(x) && Differ(a, Put(fr', Paren(x')), Splice(fr', x'))
  {
    var pre, v := AttainBefore(a, fr.pre.value, fr.l, AheadOf(fr.l));
    x' := AttainSum(a, x, FirstOf(fr.l, FirstSign(x)), 1);
    AfterPrepared(a, pre, v, fr.l, x');
    fr' := BeforeUnits(a, fr, Some(pre), x');
  }

  // ---------- Sums before * or / ----------

  /** (2 + 0) * 2 against 2 + 0 * 2, and (2 + 0) / 2 against 2 + 0 / 2. */
  lemma {:induction false} TimesTwo(a: Arith, y: Expr, z: Expr, op: Op, f: Factor) returns (v: Running, w: Running)
    requires Has(a, y, Running(0, 2)) && Has(a, z, Running(2, 0)) && IsMul(op) && FactorRun(a, f) == Some(2.0)
    ensures Differs(a, Extend(y, op, f), Extend(z, op, f), v, w)
  {
    v, w := Running(0, if op == Mul then 4 else 1), Running(2, 0);
    ExtendHas(a, y, Running(0, 2), op, f, 2, v);
    ExtendHas(a, z, Running(2, 0), op, f, 2, w);
  }

  lemma {:induction false} BeforeTwo(a: Arith, fr: Frame, pre: Option<Expr>, x: Expr) returns (fr': Frame)
    requires fr.post != [] && IsMul(fr.post[0].op) && SamePre(fr.pre, pre)
    requires Has(a, Lay(pre, fr.l, Single(Paren(x))), Running(0, 2)) && Has(a, Bare(pre, fr.l, x), Running(2, 0))
    ensures SameFrame(fr, fr') && Differ(a, Put(fr', Paren(x)), Splice(fr', x))
  {
    var y, z, op := Lay(pre, fr.l, Single(Paren(x))), Bare(pre, fr.l, x), fr.post[0].op;
    var two := AttainFactorRun(a, fr.post[0].f, 2);
    var rest := AttainUnits(a, fr.post[1..]);
    var post := [Item(op, two)] + rest;
    assert post[1..] == rest && SameItems(fr.post, post);
    fr' := Frame(pre, fr.l, post);
    var v, w := TimesTwo(a, y, z, op, two);
    var p := UnitsRun(a, Extend(y, op, two), v, rest);
    var q := UnitsRun(a, Extend(z, op, two), w, rest);
    assert Differs(a, Put(fr', Paren(x)), Splice(fr', x), p, q);
  }

  /** The sum 2 + 0 at the beginning of a level, and after a +. */
  lemma {:induction false} TwoAlone(a: Arith, x: Expr)
    requires SumLike(a, x, 2, 0)
    ensures Has(a, One(Single(Paren(x))), Running(0, 2)) && Has(a, x, Running(2, 0))
  {
    var u := SumLikeHas(a, x, 2, 0);
    FactorHas(a, x, u);
    SingleHas(a, Paren(x), 2);
  }

  lemma {:induction false} TwoAfterPlus(a: Arith, pre: Expr, v: Running, x: Expr)
    requires Has(a, pre, v) && Total(v) == 0 && SumLike(a, x, 2, 0)
    ensures Has(a, Extend(pre, Plus, Paren(x)), Running(0, 2))
  {
    PairAfter(a, pre, v, Plus, x, 2, 0, Running(0, 2));
  }

  lemma {:induction false} TwoJoined(a: Arith, pre: Expr, v: Running, x: Expr)
    requires Has(a, pre, v) && Total(v) == 0 && SumLike(a, x, 2, 0)
    ensures Has(a, Join(pre, Plus, x), Running(2, 0))
  {
    var w := JoinSum(a, pre, v, Plus, x, 2, 0, Running(0, 2));
    assert w == Running(2, 0);
  }

  lemma {:induction false} BeforeOperator(a: Arith, fr: Frame, x: Expr) returns (fr': Frame, x': Expr)
    requires (fr.pre.None? || fr.l == Plus) && x.Sum? && fr.post != [] && IsMul(fr.post[0].op)
    ensures SameFrame(fr, fr') && ExprShape(x') == ExprShape(x) && Differ(a, Put(fr', Paren(x')), Splice(fr', x'))
  {
    x' := AttainSum(a, x, 2, 0);
    if fr.pre.None? {
      TwoAlone(a, x');
      fr' := BeforeTwo(a, fr, None, x');
    } else {
      var pre, v := AttainBefore(a, fr.pre.value, Plus, 0);
      TwoAfterPlus(a, pre, v, x');
      TwoJoined(a, pre, v, x');
      fr' := BeforeTwo(a, fr, Some(pre), x');
    }
  }

  // ---------- No pair too many ----------

  lemma {:induction false} TermOpsAreMul(t: Term)
    ensures Plus !in TermOps(t) && Minus !in TermOps(t) && (TermOps(t) == {} <==> t.Single?)
    decreases t
  {
    if t.Product? {
      TermOpsAreMul(t.left);
      assert MulOp(t.mul) in TermOps(t);
    }
  }

  lemma {:induction false} SumOps(x: Expr)
    requires x.Sum?
    ensures Plus in ExprOps(x) || Minus in ExprOps(x)
  {
    assert AddOp(x.plus) in ExprOps(x);
  }

  /** A pair that its neighbours force changes the value of its level for some literals. */
  lemma {:induction false} ForcedDiffers(a: Arith, fr: Frame, x: Expr) returns (fr': Frame, x': Expr)
    requires !Redundant(LeftOp(fr), RightOp(fr), ExprOps(x))
    ensures SameFrame(fr, fr') && ExprShape(x') == ExprShape(x) && Differ(a, Put(fr', Paren(x')), Splice(fr', x'))
  {
    if x.One? {
      TermOpsAreMul(x.t);
      fr', x' := AfterDivision(a, fr, x);
    } else {
      SumOps(x);
      if fr.pre.Some? && fr.l != Plus {
        fr', x' := AfterOperator(a, fr, x);
      } else {
        fr', x' := BeforeOperator(a, fr, x);
      }
    }
  }

  // ---------- Literals do not move tokens ----------

  function ItemsShape(items: seq<Item>): seq<Item>
  {
    seq(|items|, i requires 0 <= i < |items| => Item(items[i].op, FactorShape(items[i].f)))
  }

  function FrameShape(fr: Frame): Frame
  {
    Frame(if fr.pre.None? then None else Some(ExprShape(fr.pre.value)), fr.l, ItemsShape(fr.post))
  }

  function FramesShape(frames: seq<Frame>): seq<Frame>
  {
    seq(|frames|, i requires 0 <= i < |frames| => FrameShape(frames[i]))
  }

  lemma {:induction false} ExtendShape(e: Expr, op: Op, f: Factor)
    ensures ExprShape(Extend(e, op, f)) == Extend(ExprShape(e), op, FactorShape(f))
  {
    assert TermShape(Single(f)) == Single(FactorShape(f));
    if e.One? {
      assert TermShape(Product(e.t, op == Mul, f)) == Product(TermShape(e.t), op == Mul, FactorShape(f));
    } else {
      assert TermShape(Product(e.rhs, op == Mul, f)) == Product(TermShape(e.rhs), op == Mul, FactorShape(f));
    }
  }

  lemma {:induction false} ExtendAllShape(e: Expr, items: seq<Item>)
    ensures ExprShape(ExtendAll(e, items)) == ExtendAll(ExprShape(e), ItemsShape(items))
    decreases |items|
  {
    if items != [] {
      ExtendShape(e, items[0].op, items[0].f);
      assert ItemsShape(items)[1..] == ItemsShape(items[1..]);
      ExtendAllShape(Extend(e, items[0].op, items[0].f), items[1..]);
    }
  }

  lemma {:induction false} PutShape(fr: Frame, f: Factor)
    ensures ExprShape(Put(fr, f)) == Put(FrameShape(fr), FactorShape(f))
  {
    ExtendAllShape(Lay(fr.pre, fr.l, Single(f)), fr.post);
    if fr.pre.Some? {
      ExtendShape(fr.pre.value, fr.l, f);
    } else {
      assert ExprShape(One(Single(f))) == One(Single(FactorShape(f)));
    }
  }

  lemma {:induction false} NestShape(frames: seq<Frame>, e: Expr)
    ensures ExprShape(Nest(frames, e)) == Nest(FramesShape(frames), ExprShape(e))
    decreases |frames|
  {
    if frames != [] {
      PutShape(frames[0], Paren(e));
      assert FramesShape(frames)[1..] == FramesShape(frames[1..]);
      NestShape(frames[1..], Put(frames[0], Paren(e)));
    }
  }

  lemma {:induction false} ShapeLength(s: seq<Token>)
    ensures |Shape(s)| == |s|
    decreases |s|
  {
    if s != [] {
      ShapeLength(s[..|s| - 1]);
    }
  }

  lemma {:induction false} ExprShapeLength(e: Expr)
    ensures |ExprTokens(ExprShape(e))| == |ExprTokens(e)|
  {
    ExprShapeTokens(e);
    ShapeLength(ExprTokens(e));
  }

  lemma {:induction false} LeftLength(fr: Frame)
    ensures var g := FrameShape(fr); |Left(g.pre, g.l)| == |Left(fr.pre, fr.l)|
  {
    if fr.pre.Some? {
      ExprShapeLength(fr.pre.value);
    }
  }

  lemma {:induction false} BeforeLength(frames: seq<Frame>)
    ensures |Before(FramesShape(frames))| == |Before(frames)|
    decreases |frames|
  {
    if frames != [] {
      assert FramesShape(frames)[1..] == FramesShape(frames[1..]);
      BeforeLength(frames[1..]);
      LeftLength(frames[0]);
    }
  }

  lemma {:induction false} StartShape(frames: seq<Frame>, fr: Frame)
    ensures Start(FramesShape(frames), FrameShape(fr)) == Start(frames, fr)
  {
    BeforeLength(frames);
    LeftLength(fr);
  }

  lemma SameShapes(frames: seq<Frame>, frames': seq<Frame>)
    requires SameFrames(frames, frames')
    ensures FramesShape(frames) == FramesShape(frames')
  {
    forall i | 0 <= i < |frames|
      ensures FrameShape(frames[i]) == FrameShape(frames'[i])
    {
      SameShape(frames[i], frames'[i]);
    }
  }

  lemma SameShape(fr: Frame, fr': Frame)
    requires SameFrame(fr, fr')
    ensures FrameShape(fr) == FrameShape(fr')
  {
    assert ItemsShape(fr.post) == ItemsShape(fr'.post);
  }

  /** The same levels with other literals: the same shape, and the pair in the same place. */
  lemma {:induction false} SamePlace(frames: seq<Frame>, fr: Frame, x: Expr, frames': seq<Frame>, fr': Frame, x': Expr)
    requires SameFrames(frames, frames') && SameFrame(fr, fr') && ExprShape(x) == ExprShape(x')
    ensures Start(frames, fr) == Start(frames', fr') && |ExprTokens(x)| == |ExprTokens(x')|
    ensures Shape(ExprTokens(Nest(frames, Put(fr, Paren(x))))) == Shape(ExprTokens(Nest(frames', Put(fr', Paren(x')))))
  {
    SameShapes(frames, frames');
    SameShape(fr, fr');
    StartShape(frames, fr);
    StartShape(frames', fr');
    ExprShapeLength(x);
    ExprShapeLength(x');
    NestShape(frames, Put(fr, Paren(x)));
    NestShape(frames', Put(fr', Paren(x')));
    PutShape(fr, Paren(x));
    PutShape(fr', Paren(x'));
    ExprShapeTokens(Nest(frames, Put(fr, Paren(x))));
    ExprShapeTokens(Nest(frames', Put(fr', Paren(x'))));
  }

  // ---------- The theorem on strings ----------

  /** Matching parentheses at i and j. */
  predicate IsPair(s: seq<Token>, i: nat, j: nat)
  {
    i < j < |s| && s[i] == LParen && s[j] == RParen && WellFormed(s[i + 1..j])
  }

  lemma {:induction false} PairEnds(s: seq<Token>, i: nat, j: nat, k: nat, x: Expr)
    requires IsPair(s, i, j) && i < k < |s| && s[k] == RParen && s[i + 1..k] == ExprTokens(x)
    ensures j == k
  {
    var y := Tree(s[i + 1..j]);
    WellFormedIffTokens(s[i + 1..j]);
    ParseExprComplete(s, i + 1, y, j);
    ParseExprComplete(s, i + 1, x, k);
  }

  lemma {:induction false} DifferEvaluates(a: Arith, y: Expr, z: Expr)
    requires Differ(a, y, z)
    ensures WellFormed(ExprTokens(y)) && WellFormed(ExprTokens(z))
    ensures Evaluate(a, ExprTokens(y)) != Evaluate(a, ExprTokens(z))
    ensures Defined(Evaluate(a, ExprTokens(y))) && Defined(Evaluate(a, ExprTokens(z)))
  {
    var v, w :| Differs(a, y, z, v, w);
    WellFormedIffTokens(ExprTokens(y));
    WellFormedIffTokens(ExprTokens(z));
    EvaluateIsTreeValue(a, ExprTokens(y));
    EvaluateIsTreeValue(a, ExprTokens(z));
    HasTotal(a, y, v);
    HasTotal(a, z, w);
  }

  predicate Defined(v: Option<Value>) { v.Some? && v.value.Some? }

  lemma {:induction false} FindPair(e: Expr, i: nat, j: nat) returns (frames: seq<Frame>, fr: Frame, x: Expr)
    requires ForcedExpr(e, None, None) && IsPair(ExprTokens(e), i, j)
    ensures e == Nest(frames, Put(fr, Paren(x))) && i == Start(frames, fr) && j == i + 1 + |ExprTokens(x)|
    ensures !Redundant(LeftOp(fr), RightOp(fr), ExprOps(x))
  {
    frames, fr, x := LocateExpr(e, [], i);
    ForcedNest(frames, Put(fr, Paren(x)));
    ForcedPut(fr, Paren(x));
    var j' := i + 1 + |ExprTokens(x)|;
    PairTokens(frames, fr, x, ExprTokens(e), ExprTokens(Nest(frames, Splice(fr, x))), i, j');
    PairEnds(ExprTokens(e), i, j, j', x);
  }

  /** The string u shows that its pair at i and j is needed: with and without it the values are defined and differ. */
  ghost predicate Shows(a: Arith, u: seq<Token>, i: nat, j: nat)
  {
    && IsPair(u, i, j) && WellFormed(u) && WellFormed(Without(u, i, j))
    && Defined(Evaluate(a, u)) && Defined(Evaluate(a, Without(u, i, j)))
    && Evaluate(a, u) != Evaluate(a, Without(u, i, j))
  }

  lemma {:induction false} DifferShows(a: Arith, frames: seq<Frame>, fr: Frame, x: Expr, u: seq<Token>, i: nat,
                                       j: nat)
    requires i == Start(frames, fr) && j == i + 1 + |ExprTokens(x)|
    requires Differ(a, Nest(frames, Put(fr, Paren(x))), Nest(frames, Splice(fr, x)))
    requires u == ExprTokens(Nest(frames, Put(fr, Paren(x))))
    ensures Shows(a, u, i, j)
  {
    var z := Nest(frames, Splice(fr, x));
    PairTokens(frames, fr, x, u, ExprTokens(z), i, j);
    WellFormedIffTokens(ExprTokens(x));
    DifferEvaluates(a, Nest(frames, Put(fr, Paren(x))), z);
  }

  lemma {:induction false} OtherLiterals(a: Arith, frames: seq<Frame>, fr: Frame, x: Expr)
    returns (frames': seq<Frame>, fr': Frame, x': Expr)
    requires !Redundant(LeftOp(fr), RightOp(fr), ExprOps(x))
    ensures SameFrames(frames, frames') && SameFrame(fr, fr') && ExprShape(x) == ExprShape(x')
    ensures Differ(a, Nest(frames', Put(fr', Paren(x'))), Nest(frames', Splice(fr', x')))
  {
    fr', x' := ForcedDiffers(a, fr, x);
    frames' := NestDiffers(a, frames, Put(fr', Paren(x')), Splice(fr', x'));
  }

  lemma {:induction false} ShowsAt(a: Arith, frames: seq<Frame>, fr: Frame, x: Expr, s: seq<Token>, i: nat, j: nat)
    returns (u: seq<Token>)
    requires i == Start(frames, fr) && j == i + 1 + |ExprTokens(x)|
    requires !Redundant(LeftOp(fr), RightOp(fr), ExprOps(x)) && s == ExprTokens(Nest(frames, Put(fr, Paren(x))))
    ensures Shape(u) == Shape(s) && Shows(a, u, i, j)
  {
    var frames', fr', x' := OtherLiterals(a, frames, fr, x);
    SamePlace(frames, fr, x, frames', fr', x');
    u := ExprTokens(Nest(frames', Put(fr', Paren(x'))));
    DifferShows(a, frames', fr', x', u, i, j);
  }

  lemma {:induction false} PairInTree(a: Arith, e: Expr, i: nat, j: nat) returns (u: seq<Token>)
    requires ForcedExpr(e, None, None) && IsPair(ExprTokens(e), i, j)
    ensures Shape(u) == Shape(ExprTokens(e)) && Shows(a, u, i, j)
  {
    var frames, fr, x := FindPair(e, i, j);
    u := ShowsAt(a, frames, fr, x, ExprTokens(e), i, j);
  }

  /**
   Whichever pair is taken out of a stripped string, for some literals the value changes: with exact division and
   with C's division alike.
   */
  lemma {:induction false} EveryPairIsNeeded(a: Arith, s: seq<Token>, i: nat, j: nat) returns (u: seq<Token>)
    requires WellFormed(s) && IsPair(Strip(s), i, j)
    ensures Shape(u) == Shape(Strip(s)) && Shows(a, u, i, j)
  {
    StripIdempotent(s);
    WellFormedIffTokens(Strip(s));
    u := PairInTree(a, Tree(Strip(s)), i, j);
  }
}
