/**
 The stripper as it runs: five mutually recursive procedures that advance a cursor over
 the string and mark the tokens to ignore in a shared array, then a copying loop.
 */
module ParenStripper {
  import opened Wrappers
  import opened Expressions
  import opened RedundantParens

  /** What each procedure returns: the operators seen and the value so far. */
  datatype OpsList = OpsList(seen: set<Op>, res: Value)

  function OpAt(s: seq<Token>, c: int): Option<Op>
  {
    if 0 <= c < |s| && s[c].Oper? then Some(s[c].op) else None
  }

  function MergeSeen(dest: OpsList, other: OpsList): OpsList
  {
    dest.(seen := dest.seen + other.seen)
  }

  /** ign holds the marks x.ign at c .. d, and outside of c .. d what it held before. */
  ghost predicate Marked(before: seq<bool>, now: seq<bool>, c: nat, x: Stripped, d: nat)
  {
    c <= d <= |now| == |before| && now == before[..c] + x.ign + before[d..]
  }

  /** Nothing is marked from c on. */
  ghost predicate Clear(ign: seq<bool>, c: nat)
  {
    forall k :: c <= k < |ign| ==> !ign[k]
  }

  lemma MarkedJoin(before: seq<bool>, mid: seq<bool>, now: seq<bool>, start: nat, x: Stripped, c: nat,
                   y: Stripped, d: nat, z: Stripped)
    requires Clear(before, start) && c < |before|
    requires Marked(before, mid, start, x, c) && Marked(mid, now, c + 1, y, d)
    requires z.ign == x.ign + [false] + y.ign
    ensures Marked(before, now, start, z, d)
  {
    assert mid[..c + 1] == before[..start] + x.ign + [false];
    assert mid[d..] == before[d..];
  }

  lemma MarkedParens(before: seq<bool>, mid: seq<bool>, now: seq<bool>, c: nat, x: Stripped, d: nat,
                     b: bool, z: Stripped)
    requires Clear(before, c) && c < d < |before|
    requires Marked(before, mid, c + 1, x, d) && now == mid[c := b][d := b]
    requires z.ign == [b] + x.ign + [b]
    ensures Marked(before, now, c, z, d + 1)
  {
    assert mid == before[..c] + [before[c]] + x.ign + [before[d]] + before[d + 1..];
  }

  lemma ClearAfter(before: seq<bool>, mid: seq<bool>, start: nat, x: Stripped, c: nat)
    requires Clear(before, start) && Marked(before, mid, start, x, c)
    ensures Clear(mid, c)
  {
    assert |before[..start] + x.ign| == c;
    forall k | c <= k < |mid|
      ensures !mid[k]
    {
      assert mid[k] == before[c..][k - c];
    }
  }

  lemma MarksFit(s: seq<Token>, c: nat)
    requires c <= |s|
    ensures ParseExpr(s, c).Some? ==>
              var (e, d) := ParseExpr(s, c).value;
              forall l, r :: |StripExpr(e, l, r).ign| == d - c
    ensures ParseTerm(s, c).Some? ==>
              var (t, d) := ParseTerm(s, c).value;
              forall l, r :: |StripTerm(t, l, r).ign| == d - c
    ensures ParseFactor(s, c).Some? ==>
              var (f, d) := ParseFactor(s, c).value;
              forall l, r :: |StripFactor(f, l, r).ign| == d - c
  {
    if ParseExpr(s, c).Some? {
      ParseExprSound(s, c);
      forall l, r { StripExprTokens(ParseExpr(s, c).value.0, l, r); }
    }
    if ParseTerm(s, c).Some? {
      ParseTermSound(s, c);
      forall l, r { StripTermTokens(ParseTerm(s, c).value.0, l, r); }
    }
    if ParseFactor(s, c).Some? {
      ParseFactorSound(s, c);
      forall l, r { StripFactorTokens(ParseFactor(s, c).value.0, l, r); }
    }
  }

  /** The procedures answer for the part from start to d: the operators its strip exposes, its value, its marks. */
  ghost predicate ExprDone(a: Arith, s: seq<Token>, start: nat, e: Expr, d: nat, before: seq<bool>, now: seq<bool>,
                           res: OpsList)
  {
    var x := StripExpr(e, OpAt(s, start - 1), OpAt(s, d));
    res == OpsList(x.seen, ExprValue(a, e)) && Marked(before, now, start, x, d)
  }

  ghost predicate TermDone(a: Arith, s: seq<Token>, start: nat, t: Term, d: nat, before: seq<bool>, now: seq<bool>,
                           res: OpsList)
  {
    var x := StripTerm(t, OpAt(s, start - 1), OpAt(s, d));
    res == OpsList(x.seen, TermValue(a, t)) && Marked(before, now, start, x, d)
  }

  ghost predicate FactorDone(a: Arith, s: seq<Token>, start: nat, f: Factor, d: nat, before: seq<bool>, now: seq<bool>,
                             res: OpsList)
  {
    var x := StripFactor(f, OpAt(s, start - 1), OpAt(s, d));
    res == OpsList(x.seen, FactorValue(a, f)) && Marked(before, now, start, x, d)
  }

  lemma {:induction false} SumDone(a: Arith, s: seq<Token>, start: nat, acc: Expr, c: nat, plus: bool, t: Term, d: nat,
                                   before: seq<bool>, mid: seq<bool>, now: seq<bool>, first: OpsList, second: OpsList)
    requires ExprDone(a, s, start, acc, c, before, mid, first) && TermDone(a, s, c + 1, t, d, mid, now, second)
    requires Clear(before, start) && c < |s| == |before| && s[c] == Oper(AddOp(plus))
    ensures ExprDone(a, s, start, Sum(acc, plus, t), d, before, now,
                     OpsList(MergeSeen(first, second).seen + {AddOp(plus)}, AddSub(first.res, plus, second.res)))
  {
    MarkedJoin(before, mid, now, start, StripExpr(acc, OpAt(s, start - 1), OpAt(s, c)), c,
               StripTerm(t, OpAt(s, c), OpAt(s, d)), d, StripExpr(Sum(acc, plus, t), OpAt(s, start - 1), OpAt(s, d)));
  }

  lemma {:induction false} ProductDone(a: Arith, s: seq<Token>, start: nat, acc: Term, c: nat, mul: bool, f: Factor,
                                       d: nat, before: seq<bool>, mid: seq<bool>, now: seq<bool>, first: OpsList,
                                       second: OpsList)
    requires TermDone(a, s, start, acc, c, before, mid, first) && FactorDone(a, s, c + 1, f, d, mid, now, second)
    requires Clear(before, start) && c < |s| == |before| && s[c] == Oper(MulOp(mul))
    ensures TermDone(a, s, start, Product(acc, mul, f), d, before, now,
                     OpsList(MergeSeen(first, second).seen + {MulOp(mul)}, MulDiv(a, first.res, mul, second.res)))
  {
    MarkedJoin(before, mid, now, start, StripTerm(acc, OpAt(s, start - 1), OpAt(s, c)), c,
               StripFactor(f, OpAt(s, c), OpAt(s, d)), d,
               StripTerm(Product(acc, mul, f), OpAt(s, start - 1), OpAt(s, d)));
  }

  method ExprAt(a: Arith, s: seq<Token>, cursor: nat, ign: array<bool>) returns (res: OpsList, next: nat)
    requires cursor <= |s| == ign.Length && ParseExpr(s, cursor).Some? && Clear(ign[..], cursor)
    modifies ign
    ensures var (e, d) := ParseExpr(s, cursor).value;
            next == d && ExprDone(a, s, cursor, e, d, old(ign[..]), ign[..], res)
    decreases |s| - cursor, 5
  {
    MarksFit(s, cursor);
    var first, c := TermAt(a, s, cursor, ign);
    ghost var t := ParseTerm(s, cursor).value.0;
    res, next := ExprRest(a, s, c, ign, first, cursor, One(t), old(ign[..]));
  }

  method ExprRest(a: Arith, s: seq<Token>, cursor: nat, ign: array<bool>, first: OpsList,
                  ghost start: nat, ghost acc: Expr, ghost before: seq<bool>)
      returns (res: OpsList, next: nat)
    requires start <= cursor <= |s| == ign.Length && ParseExprRest(s, cursor, acc).Some?
    requires Clear(before, start) && ExprDone(a, s, start, acc, cursor, before, ign[..], first)
    modifies ign
    ensures var (e, d) := ParseExprRest(s, cursor, acc).value;
            next == d && ExprDone(a, s, start, e, d, before, ign[..], res)
    decreases |s| - cursor, 4
  {
    if AtAddOp(s, cursor) {
      MarksFit(s, cursor + 1);
      ghost var mid := ign[..];
      ClearAfter(before, mid, start, StripExpr(acc, OpAt(s, start - 1), OpAt(s, cursor)), cursor);
      var second, c := TermAt(a, s, cursor + 1, ign);
      var plus := s[cursor] == Oper(Plus);
      var sum := MergeSeen(first, second);
      sum := OpsList(sum.seen + {AddOp(plus)}, AddSub(sum.res, plus, second.res));
      ghost var t := ParseTerm(s, cursor + 1).value.0;
      SumDone(a, s, start, acc, cursor, plus, t, c, before, mid, ign[..], first, second);
      res, next := ExprRest(a, s, c, ign, sum, start, Sum(acc, plus, t), before);
    } else {
      res, next := first, cursor;
    }
  }

  method TermAt(a: Arith, s: seq<Token>, cursor: nat, ign: array<bool>) returns (res: OpsList, next: nat)
    requires cursor <= |s| == ign.Length && ParseTerm(s, cursor).Some? && Clear(ign[..], cursor)
    modifies ign
    ensures var (t, d) := ParseTerm(s, cursor).value;
            next == d && TermDone(a, s, cursor, t, d, old(ign[..]), ign[..], res)
    decreases |s| - cursor, 3
  {
    MarksFit(s, cursor);
    var first, c := FactorAt(a, s, cursor, ign);
    ghost var f := ParseFactor(s, cursor).value.0;
    res, next := TermRest(a, s, c, ign, first, cursor, Single(f), old(ign[..]));
  }

  method TermRest(a: Arith, s: seq<Token>, cursor: nat, ign: array<bool>, first: OpsList,
                  ghost start: nat, ghost acc: Term, ghost before: seq<bool>)
      returns (res: OpsList, next: nat)
    requires start <= cursor <= |s| == ign.Length && ParseTermRest(s, cursor, acc).Some?
    requires Clear(before, start) && TermDone(a, s, start, acc, cursor, before, ign[..], first)
    modifies ign
    ensures var (t, d) := ParseTermRest(s, cursor, acc).value;
            next == d && TermDone(a, s, start, t, d, before, ign[..], res)
    decreases |s| - cursor, 2
  {
    if AtMulOp(s, cursor) {
      MarksFit(s, cursor + 1);
      ghost var mid := ign[..];
      ClearAfter(before, mid, start, StripTerm(acc, OpAt(s, start - 1), OpAt(s, cursor)), cursor);
      var second, c := FactorAt(a, s, cursor + 1, ign);
      var mul := s[cursor] == Oper(Mul);
      var product := MergeSeen(first, second);
      product := OpsList(product.seen + {MulOp(mul)}, MulDiv(a, product.res, mul, second.res));
      ghost var f := ParseFactor(s, cursor + 1).value.0;
      ProductDone(a, s, start, acc, cursor, mul, f, c, before, mid, ign[..], first, second);
      res, next := TermRest(a, s, c, ign, product, start, Product(acc, mul, f), before);
    } else {
      res, next := first, cursor;
    }
  }

  method FactorAt(a: Arith, s: seq<Token>, cursor: nat, ign: array<bool>) returns (res: OpsList, next: nat)
    requires cursor <= |s| == ign.Length && ParseFactor(s, cursor).Some? && Clear(ign[..], cursor)
    modifies ign
    ensures var (f, d) := ParseFactor(s, cursor).value;
            next == d && FactorDone(a, s, cursor, f, d, old(ign[..]), ign[..], res)
    decreases |s| - cursor, 1
  {
    if s[cursor] == LParen {
      MarksFit(s, cursor + 1);
      var inner, c := ExprAt(a, s, cursor + 1, ign);
      assert s[c] == RParen;
      ghost var mid, e := ign[..], ParseExpr(s, cursor + 1).value.0;
      ghost var f := Paren(e);
      ghost var b := Redundant(OpAt(s, cursor - 1), OpAt(s, c + 1), inner.seen);
      MarkedParens(old(ign[..]), mid, mid[cursor := b][c := b], cursor, StripExpr(e, None, None), c, b,
                   StripFactor(f, OpAt(s, cursor - 1), OpAt(s, c + 1)));
      if Redundant(OpAt(s, cursor - 1), OpAt(s, c + 1), inner.seen) {
        ign[cursor], ign[c] := true, true;
        res := inner;
      } else {
        res := inner.(seen := {});
      }
      assert ign[..] == mid[cursor := b][c := b];
      next := c + 1;
    } else {
      res, next := OpsList({}, Some(s[cursor].n as real)), cursor + 1;
    }
  }

  /** Past the place where the parser stopped nothing is marked, so the rest is kept. */
  lemma {:induction false} KeepRest(w: seq<Token>, ign: seq<bool>, d: nat)
    requires |w| == |ign| && d <= |w| && Clear(ign, d)
    ensures Keep(w, ign) == Keep(w[..d], ign[..d]) + w[d..]
    decreases |w|
  {
    var n := |w| - 1;
    if d == |w| {
      assert w[..d] == w && ign[..d] == ign;
    } else {
      assert w[..n][..d] == w[..d] && ign[..n][..d] == ign[..d] && w[..n][d..] + [w[n]] == w[d..];
      KeepRest(w[..n], ign[..n], d);
    }
  }

  /** The copy loop: the tokens that are not marked. */
  method CopyKept(s: seq<Token>, ignore: array<bool>) returns (out: seq<Token>)
    requires ignore.Length == |s|
    ensures out == Keep(s, ignore[..])
  {
    out := [];
    for i := 0 to |s|
      invariant out == Keep(s[..i], ignore[..][..i])
    {
      assert s[..i + 1][..i] == s[..i] && ignore[..][..i + 1][..i] == ignore[..][..i];
      if !ignore[i] {
        out := out + [s[i]];
      }
    }
    assert s[..|s|] == s && ignore[..][..|s|] == ignore[..];
  }

  /** The top level: the value of what was read, and the string without the redundant parentheses of that part. */
  method StripAndEvaluate(a: Arith, s: seq<Token>) returns (out: seq<Token>, value: Value)
    requires ParseExpr(s, 0).Some?
    ensures var d := ParseExpr(s, 0).value.1;
            WellFormed(s[..d]) && out == Strip(s[..d]) + s[d..]
    ensures WellFormed(s) ==> out == Strip(s)
    ensures Evaluate(a, s) == Some(value)
  {
    ghost var d := EvaluatesBeginning(a, s);
    var ignore := new bool[|s|](_ => false);
    ghost var before := ignore[..];
    var res, end := ExprAt(a, s, 0, ignore);
    value := res.res;
    TopMarks(s, before, ignore[..], d);
    out := CopyKept(s, ignore);
    Kept(s, d, ignore[..]);
    assert s[..|s|] == s;
  }

  lemma OperatorAt(s: seq<Token>, d: nat)
    ensures OpAt(s, d).Some? <==> AtAddOp(s, d) || AtMulOp(s, d)
  {
    if d < |s| && s[d].Oper? {
      match s[d].op
      case Plus =>
      case Minus =>
      case Mul =>
      case Div =>
    }
  }

  lemma {:induction false} TopMarks(s: seq<Token>, before: seq<bool>, now: seq<bool>, d: nat)
    requires ParseExpr(s, 0).Some? && ParseExpr(s, 0).value.1 == d && !AtAddOp(s, d) && !AtMulOp(s, d)
    requires Marked(before, now, 0, StripExpr(ParseExpr(s, 0).value.0, OpAt(s, -1), OpAt(s, d)), d) && Clear(before, 0)
    ensures d <= |now| && now[..d] == StripExpr(ParseExpr(s, 0).value.0, None, None).ign && Clear(now, d)
  {
    var x := StripExpr(ParseExpr(s, 0).value.0, None, None);
    MarksFit(s, 0);
    OperatorAt(s, d);
    assert now == x.ign + before[d..];
    assert forall k :: d <= k < |now| ==> now[k] == before[d..][k - d];
  }

  lemma {:induction false} Kept(s: seq<Token>, d: nat, ign: seq<bool>)
    requires d <= |s| == |ign| && WellFormed(s[..d]) && Clear(ign, d)
    requires ign[..d] == StripExpr(Tree(s[..d]), None, None).ign
    ensures Keep(s, ign) == Strip(s[..d]) + s[d..]
  {
    KeepRest(s, ign, d);
    WellFormedIffTokens(s[..d]);
    StripExprTokens(Tree(s[..d]), None, None);
  }
}
