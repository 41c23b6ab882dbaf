/** The example that the folding program documents, on the naive model. */
module FoldExample {
  import opened FoldPaper

  lemma Turned(x: nat, y: nat)
    ensures Reverse([x]) == [x] && Reverse([x, y]) == [y, x]
  {}

  lemma FirstFold()
    ensures FoldOnce(Flat(8), 'L') == [[3, 4], [2, 5], [1, 6], [0, 7]]
  {
    var st, r := Flat(8), FoldOnce(Flat(8), 'L');
    forall i: nat | i < 4
      ensures r[i] == [3 - i, 4 + i]
    {
      Turned(3 - i, 0);
      assert st[3 - i] == [3 - i] && st[4 + i] == [4 + i];
    }
    assert r[0] == [3, 4] && r[1] == [2, 5] && r[2] == [1, 6] && r[3] == [0, 7];
  }

  lemma SecondFold()
    ensures FoldOnce([[3, 4], [2, 5], [1, 6], [0, 7]], 'R') == [[7, 0, 3, 4], [6, 1, 2, 5]]
  {
    var st: seq<seq<nat>> := [[3, 4], [2, 5], [1, 6], [0, 7]];
    var r := FoldOnce(st, 'R');
    Turned(0, 7);
    Turned(1, 6);
    assert r[0] == Reverse(st[3]) + st[0] == [7, 0, 3, 4];
    assert r[1] == Reverse(st[2]) + st[1] == [6, 1, 2, 5];
  }

  lemma ThirdFold()
    ensures FoldOnce([[7, 0, 3, 4], [6, 1, 2, 5]], 'L') == [[4, 3, 0, 7, 6, 1, 2, 5]]
  {
    var st: seq<seq<nat>> := [[7, 0, 3, 4], [6, 1, 2, 5]];
    var r := FoldOnce(st, 'L');
    assert Reverse([7, 0, 3, 4]) == [4, 3, 0, 7];
    assert r[0] == Reverse(st[0]) + st[1] == [4, 3, 0, 7, 6, 1, 2, 5];
  }

  lemma ThreeFolds(st: seq<seq<nat>>)
    requires |st| == 8
    ensures Pow2(3) == 8 && FoldAll(st, "LRL") == FoldOnce(FoldOnce(FoldOnce(st, 'L'), 'R'), 'L')
  {
    assert "LRL"[1..] == "RL" && "RL"[1..] == "L" && "L"[1..] == "";
  }

  /** The documented example, 5 4 1 8 7 2 3 6 for left, right, left, counted from 0. */
  lemma Example()
    ensures Folded("LRL") == [4, 3, 0, 7, 6, 1, 2, 5]
  {
    ThreeFolds(Flat(8));
    FirstFold();
    SecondFold();
    ThirdFold();
  }
}
