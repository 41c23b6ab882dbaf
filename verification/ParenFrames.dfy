/**
 A pair of parentheses inside an expression: the levels around it, what the expression
 becomes without it, and where its two tokens stand.
 */
module ParenFrames {
  import opened Wrappers
  import opened Expressions
  import opened RedundantParens

  // ---------- Growing an expression to the right ----------

  datatype Item = Item(op: Op, f: Factor)

  predicate IsMul(op: Op) { op == Mul || op == Div }

  /** e op f, where * and / bind to the last term of e. */
  function Extend(e: Expr, op: Op, f: Factor): Expr
  {
    if !IsMul(op) then Sum(e, op == Plus, Single(f))
    else match e
      case One(t) => One(Product(t, op == Mul, f))
      case Sum(e', plus, t) => Sum(e', plus, Product(t, op == Mul, f))
  }

  function ExtendAll(e: Expr, items: seq<Item>): Expr
    decreases |items|
  {
    if items == [] then e else ExtendAll(Extend(e, items[0].op, items[0].f), items[1..])
  }

  /** pre op t and pre op x, all of it on one level. */
  function JoinTerm(pre: Expr, op: Op, t: Term): Expr
  {
    match t
    case Single(f) => Extend(pre, op, f)
    case Product(t', mul, f) => Extend(JoinTerm(pre, op, t'), MulOp(mul), f)
  }

  function Join(pre: Expr, op: Op, x: Expr): Expr
  {
    match x
    case One(t) => JoinTerm(pre, op, t)
    case Sum(x', plus, t) => Sum(Join(pre, op, x'), plus, t)
  }

  function TermItems(op: Op, t: Term): seq<Item>
  {
    match t
    case Single(f) => [Item(op, f)]
    case Product(t', mul, f) => TermItems(op, t') + [Item(MulOp(mul), f)]
  }

  lemma {:induction false} ExtendAllAppend(e: Expr, a: seq<Item>, b: seq<Item>)
    ensures ExtendAll(e, a + b) == ExtendAll(ExtendAll(e, a), b)
    decreases |a|
  {
    if a == [] {
      assert a + b == b;
    } else {
      assert (a + b)[1..] == a[1..] + b;
      ExtendAllAppend(Extend(e, a[0].op, a[0].f), a[1..], b);
    }
  }

  lemma {:induction false} ExtendAllOne(e: Expr, op: Op, f: Factor)
    ensures ExtendAll(e, [Item(op, f)]) == Extend(e, op, f)
  {}

  lemma {:induction false} JoinTermItems(e: Expr, op: Op, t: Term)
    ensures ExtendAll(e, TermItems(op, t)) == JoinTerm(e, op, t)
    decreases t
  {
    match t
    case Single(f) => ExtendAllOne(e, op, f);
    case Product(t', mul, f) =>
      JoinTermItems(e, op, t');
      ExtendAllAppend(e, TermItems(op, t'), [Item(MulOp(mul), f)]);
      ExtendAllOne(JoinTerm(e, op, t'), MulOp(mul), f);
  }

  lemma {:induction false} SumIsJoin(e: Expr, plus: bool, t: Term)
    ensures Sum(e, plus, t) == JoinTerm(e, AddOp(plus), t)
    decreases t
  {
    match t
    case Single(_) =>
    case Product(t', _, _) => SumIsJoin(e, plus, t');
  }

  // ---------- Levels with a gap ----------

  /** One level around a factor: what stands before it, with an operator, and what follows. */
  datatype Frame = Frame(pre: Option<Expr>, l: Op, post: seq<Item>)

  /** The level up to the gap, filled with a factor or with a whole term. */
  function Lay(pre: Option<Expr>, l: Op, t: Term): Expr
  {
    if pre.None? then One(t) else JoinTerm(pre.value, l, t)
  }

  function Put(fr: Frame, f: Factor): Expr
  {
    ExtendAll(Lay(fr.pre, fr.l, Single(f)), fr.post)
  }

  /** The level with the expression x in the gap and no parentheses around it. */
  function Splice(fr: Frame, x: Expr): Expr
  {
    ExtendAll(if fr.pre.None? then x else Join(fr.pre.value, fr.l, x), fr.post)
  }

  /** The expression e inside parentheses in the gaps of frames, the innermost one first. */
  function Nest(frames: seq<Frame>, e: Expr): Expr
  {
    if frames == [] then e else Nest(frames[1..], Put(frames[0], Paren(e)))
  }

  lemma {:induction false} NestLast(frames: seq<Frame>, fr: Frame, e: Expr)
    ensures Nest(frames + [fr], e) == Put(fr, Paren(Nest(frames, e)))
    decreases |frames|
  {
    if frames == [] {
      assert [fr][1..] == [];
    } else {
      assert (frames + [fr])[1..] == frames[1..] + [fr];
      NestLast(frames[1..], fr, Put(frames[0], Paren(e)));
    }
  }

  // ---------- Their tokens ----------

  lemma ExtendTokens(e: Expr, op: Op, f: Factor)
    ensures ExprTokens(Extend(e, op, f)) == ExprTokens(e) + [Oper(op)] + FactorTokens(f)
  {}

  function ItemsTokens(items: seq<Item>): seq<Token>
  {
    if items == [] then [] else [Oper(items[0].op)] + FactorTokens(items[0].f) + ItemsTokens(items[1..])
  }

  lemma {:induction false} ExtendAllTokens(e: Expr, items: seq<Item>)
    ensures ExprTokens(ExtendAll(e, items)) == ExprTokens(e) + ItemsTokens(items)
    decreases |items|
  {
    if items != [] {
      ExtendTokens(e, items[0].op, items[0].f);
      ExtendAllTokens(Extend(e, items[0].op, items[0].f), items[1..]);
    }
  }

  lemma {:induction false} JoinTermTokens(pre: Expr, op: Op, t: Term)
    ensures ExprTokens(JoinTerm(pre, op, t)) == ExprTokens(pre) + [Oper(op)] + TermTokens(t)
    decreases t
  {
    match t
    case Single(f) => ExtendTokens(pre, op, f);
    case Product(t', mul, f) =>
      JoinTermTokens(pre, op, t');
      ExtendTokens(JoinTerm(pre, op, t'), MulOp(mul), f);
  }

  lemma {:induction false} JoinTokens(pre: Expr, op: Op, x: Expr)
    ensures ExprTokens(Join(pre, op, x)) == ExprTokens(pre) + [Oper(op)] + ExprTokens(x)
    decreases x
  {
    match x
    case One(t) => JoinTermTokens(pre, op, t);
    case Sum(x', _, _) => JoinTokens(pre, op, x');
  }

  function Left(pre: Option<Expr>, l: Op): seq<Token>
  {
    if pre.None? then [] else ExprTokens(pre.value) + [Oper(l)]
  }

  lemma {:induction false} LayTokens(pre: Option<Expr>, l: Op, t: Term)
    ensures ExprTokens(Lay(pre, l, t)) == Left(pre, l) + TermTokens(t)
  {
    if pre.Some? {
      JoinTermTokens(pre.value, l, t);
    }
  }

  lemma {:induction false} PutTokens(fr: Frame, f: Factor)
    ensures ExprTokens(Put(fr, f)) == Left(fr.pre, fr.l) + FactorTokens(f) + ItemsTokens(fr.post)
  {
    LayTokens(fr.pre, fr.l, Single(f));
    ExtendAllTokens(Lay(fr.pre, fr.l, Single(f)), fr.post);
  }

  lemma {:induction false} SpliceTokens(fr: Frame, x: Expr)
    ensures ExprTokens(Splice(fr, x)) == Left(fr.pre, fr.l) + ExprTokens(x) + ItemsTokens(fr.post)
  {
    if fr.pre.Some? {
      JoinTokens(fr.pre.value, fr.l, x);
      ExtendAllTokens(Join(fr.pre.value, fr.l, x), fr.post);
    } else {
      ExtendAllTokens(x, fr.post);
    }
  }

  function Before(frames: seq<Frame>): seq<Token>
  {
    if frames == [] then [] else Before(frames[1..]) + Left(frames[0].pre, frames[0].l) + [LParen]
  }

  function Behind(frames: seq<Frame>): seq<Token>
  {
    if frames == [] then [] else [RParen] + ItemsTokens(frames[0].post) + Behind(frames[1..])
  }

  lemma RegroupPair(a: seq<Token>, l: seq<Token>, w: seq<Token>, r: seq<Token>, b: seq<Token>)
    ensures a + (l + ([LParen] + w + [RParen]) + r) + b == (a + l + [LParen]) + w + ([RParen] + r + b)
  {}

  lemma {:induction false} NestTokens(frames: seq<Frame>, e: Expr)
    ensures ExprTokens(Nest(frames, e)) == Before(frames) + ExprTokens(e) + Behind(frames)
    decreases |frames|
  {
    if frames != [] {
      PutTokens(frames[0], Paren(e));
      NestTokens(frames[1..], Put(frames[0], Paren(e)));
      RegroupPair(Before(frames[1..]), Left(frames[0].pre, frames[0].l), ExprTokens(e), ItemsTokens(frames[0].post),
                  Behind(frames[1..]));
    }
  }

  /** The string without the two tokens at i and j. */
  function Without(s: seq<Token>, i: nat, j: nat): seq<Token>
    requires i < j < |s|
  {
    s[..i] + s[i + 1..j] + s[j + 1..]
  }

  /** At i and j stands a pair around w, and without it the string is s'. */
  predicate CutsTo(s: seq<Token>, i: nat, j: nat, w: seq<Token>, s': seq<Token>)
  {
    i < j < |s| && s[i] == LParen && s[j] == RParen && s[i + 1..j] == w && Without(s, i, j) == s'
  }

  lemma CutOut(s: seq<Token>, s': seq<Token>, i: nat, j: nat, a: seq<Token>, w: seq<Token>, b: seq<Token>)
    requires s == a + ([LParen] + w + [RParen]) + b && s' == a + w + b && i == |a| && j == i + 1 + |w|
    ensures CutsTo(s, i, j, w, s')
  {
    assert s[..|a|] == a && s[|a| + 1..|a| + 1 + |w|] == w && s[|a| + 2 + |w|..] == b;
  }

  lemma Regroup(a: seq<Token>, l: seq<Token>, w: seq<Token>, r: seq<Token>, b: seq<Token>)
    ensures a + (l + w + r) + b == (a + l) + w + (r + b)
  {}

  function LeftOf(frames: seq<Frame>, fr: Frame): seq<Token> { Before(frames) + Left(fr.pre, fr.l) }
  function RightOf(frames: seq<Frame>, fr: Frame): seq<Token> { ItemsTokens(fr.post) + Behind(frames) }

  lemma {:induction false} WithPair(frames: seq<Frame>, fr: Frame, x: Expr)
    ensures ExprTokens(Nest(frames, Put(fr, Paren(x)))) ==
            LeftOf(frames, fr) + ([LParen] + ExprTokens(x) + [RParen]) + RightOf(frames, fr)
  {
    NestTokens(frames, Put(fr, Paren(x)));
    PutTokens(fr, Paren(x));
    Regroup(Before(frames), Left(fr.pre, fr.l), FactorTokens(Paren(x)), ItemsTokens(fr.post), Behind(frames));
  }

  lemma {:induction false} WithoutPair(frames: seq<Frame>, fr: Frame, x: Expr)
    ensures ExprTokens(Nest(frames, Splice(fr, x))) == LeftOf(frames, fr) + ExprTokens(x) + RightOf(frames, fr)
  {
    NestTokens(frames, Splice(fr, x));
    SpliceTokens(fr, x);
    Regroup(Before(frames), Left(fr.pre, fr.l), ExprTokens(x), ItemsTokens(fr.post), Behind(frames));
  }

  function Start(frames: seq<Frame>, fr: Frame): nat { |LeftOf(frames, fr)| }

  /** The pair around x, and the same string without it. */
  lemma {:induction false} PairTokens(frames: seq<Frame>, fr: Frame, x: Expr, s: seq<Token>, s': seq<Token>, i: nat,
                                      j: nat)
    requires i == Start(frames, fr) && j == i + 1 + |ExprTokens(x)|
    requires s == ExprTokens(Nest(frames, Put(fr, Paren(x)))) && s' == ExprTokens(Nest(frames, Splice(fr, x)))
    ensures CutsTo(s, i, j, ExprTokens(x), s')
  {
    WithPair(frames, fr, x);
    WithoutPair(frames, fr, x);
    CutOut(s, s', i, j, LeftOf(frames, fr), ExprTokens(x), RightOf(frames, fr));
  }

  // ---------- Every opening parenthesis has its frames ----------

  lemma {:induction false} LocateFactor(pre: Option<Expr>, l: Op, f: Factor, post: seq<Item>, i: nat)
    returns (frames: seq<Frame>, fr: Frame, x: Expr)
    requires i < |FactorTokens(f)| && FactorTokens(f)[i] == LParen
    ensures ExtendAll(Lay(pre, l, Single(f)), post) == Nest(frames, Put(fr, Paren(x)))
    ensures Start(frames, fr) == |Left(pre, l)| + i
    decreases f, 0
  {
    var y := f.inner;
    var here := Frame(pre, l, post);
    if i == 0 {
      frames, fr, x := [], here, y;
    } else {
      assert FactorTokens(f)[i] == ExprTokens(y)[i - 1];
      frames, fr, x := LocateExpr(y, [], i - 1);
      NestLast(frames, here, Put(fr, Paren(x)));
      BeforeLast(frames, here);
      frames := frames + [here];
    }
  }

  lemma {:induction false} BeforeLast(frames: seq<Frame>, fr: Frame)
    ensures Before(frames + [fr]) == Left(fr.pre, fr.l) + [LParen] + Before(frames)
    decreases |frames|
  {
    if frames == [] {
      assert [fr][1..] == [];
    } else {
      assert (frames + [fr])[1..] == frames[1..] + [fr];
      BeforeLast(frames[1..], fr);
    }
  }

  lemma {:induction false} LocateTerm(pre: Option<Expr>, l: Op, t: Term, post: seq<Item>, i: nat)
    returns (frames: seq<Frame>, fr: Frame, x: Expr)
    requires i < |TermTokens(t)| && TermTokens(t)[i] == LParen
    ensures ExtendAll(Lay(pre, l, t), post) == Nest(frames, Put(fr, Paren(x)))
    ensures Start(frames, fr) == |Left(pre, l)| + i
    decreases t, 1
  {
    match t
    case Single(f) => frames, fr, x := LocateFactor(pre, l, f, post, i);
    case Product(t', mul, f) =>
      var n, op := |TermTokens(t')|, MulOp(mul);
      var before := Lay(pre, l, t');
      assert Lay(pre, l, t) == Extend(before, op, f);
      if i < n {
        frames, fr, x := LocateTerm(pre, l, t', [Item(op, f)] + post, i);
        ExtendAllAppend(before, [Item(op, f)], post);
        ExtendAllOne(before, op, f);
      } else {
        assert TermTokens(t)[n] == Oper(op);
        assert TermTokens(t)[i] == FactorTokens(f)[i - n - 1];
        frames, fr, x := LocateFactor(Some(before), op, f, post, i - n - 1);
        LayTokens(pre, l, t');
      }
  }

  lemma {:induction false} LocateExpr(e: Expr, post: seq<Item>, i: nat) returns (frames: seq<Frame>, fr: Frame, x: Expr)
    requires i < |ExprTokens(e)| && ExprTokens(e)[i] == LParen
    ensures ExtendAll(e, post) == Nest(frames, Put(fr, Paren(x)))
    ensures Start(frames, fr) == i
    decreases e, 2
  {
    match e
    case One(t) => frames, fr, x := LocateTerm(None, Plus, t, post, i);
    case Sum(e', plus, t) =>
      var n, op := |ExprTokens(e')|, AddOp(plus);
      SumIsJoin(e', plus, t);
      if i < n {
        JoinTermItems(e', op, t);
        ExtendAllAppend(e', TermItems(op, t), post);
        frames, fr, x := LocateExpr(e', TermItems(op, t) + post, i);
      } else {
        assert ExprTokens(e)[n] == Oper(op);
        assert ExprTokens(e)[i] == TermTokens(t)[i - n - 1];
        frames, fr, x := LocateTerm(Some(e'), op, t, post, i - n - 1);
      }
  }

  // ---------- Its neighbours force it ----------

  function LeftOp(fr: Frame): Option<Op> { if fr.pre.None? then None else Some(fr.l) }

  function RightOp(fr: Frame): Option<Op> { if fr.post == [] then None else Some(fr.post[0].op) }

  lemma ForcedExtend(e: Expr, op: Op, f: Factor, l: Option<Op>, r: Option<Op>)
    requires ForcedExpr(Extend(e, op, f), l, r)
    ensures ForcedExpr(e, l, Some(op)) && ForcedFactor(f, Some(op), r)
  {}

  lemma {:induction false} ForcedExtendAll(e: Expr, items: seq<Item>, l: Option<Op>, r: Option<Op>)
    requires ForcedExpr(ExtendAll(e, items), l, r)
    ensures ForcedExpr(e, l, if items == [] then r else Some(items[0].op))
    decreases |items|
  {
    if items != [] {
      var e' := Extend(e, items[0].op, items[0].f);
      ForcedExtendAll(e', items[1..], l, r);
      ForcedExtend(e, items[0].op, items[0].f, l, if items[1..] == [] then r else Some(items[1].op));
    }
  }

  lemma {:induction false} ForcedPut(fr: Frame, f: Factor)
    requires ForcedExpr(Put(fr, f), None, None)
    ensures ForcedFactor(f, LeftOp(fr), RightOp(fr))
  {
    ForcedExtendAll(Lay(fr.pre, fr.l, Single(f)), fr.post, None, None);
    if fr.pre.Some? {
      ForcedExtend(fr.pre.value, fr.l, f, None, RightOp(fr));
    }
  }

  lemma {:induction false} ForcedNest(frames: seq<Frame>, e: Expr)
    requires ForcedExpr(Nest(frames, e), None, None)
    ensures ForcedExpr(e, None, None)
    decreases |frames|
  {
    if frames != [] {
      ForcedNest(frames[1..], Put(frames[0], Paren(e)));
      ForcedPut(frames[0], Paren(e));
    }
  }
}
