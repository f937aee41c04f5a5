/** The two folding scenarios of the regular-expression module's unit tests. */
module ReExamples {
  import opened Wrappers
  import opened Re

  /** `1(21)*3` */
  function OneStarTwoOneThree(): RegExp<int> {
    Concat(Literal(1), Concat(Star(Concat(Literal(2), Literal(1))), Literal(3)))
  }

  /** `(12)*(13)` */
  function StarOneTwoOneThree(): RegExp<int> {
    Concat(Star(Concat(Literal(1), Literal(2))), Concat(Literal(1), Literal(3)))
  }

  /** Parsing the two-symbol word `ab` against `a` then `b`. */
  lemma ParsePair(a: int, b: int, s: seq<int>)
    requires |s| >= 2 && s[0] == a && s[1] == b
    ensures Parse(Concat(Literal(a), Literal(b)), s) == Some((Cat(Lit(a), Lit(b)), s[2..]))
  {
    assert s[1..][1..] == s[2..];
  }

  /** One more successful iteration in front of a star's remaining parses. */
  lemma ParseStar0Step(t: RegExp<int>, s: seq<int>, it: Val<int>, s': seq<int>)
    requires StarsProductive(t) && !Nullable(t)
    requires Parse(t, s) == Some((it, s'))
    ensures ParseStar0(t, s) == (ParseStar0(t, s').0 + [it], ParseStar0(t, s').1)
  {
  }

  /** Three successful iterations followed by a failure, collected in reverse. */
  lemma ThreeIterationsReversed(t: RegExp<int>, it: Val<int>, s0: seq<int>, s1: seq<int>, s2: seq<int>, s3: seq<int>)
    requires StarsProductive(t) && !Nullable(t)
    requires Parse(t, s0) == Some((it, s1)) && Parse(t, s1) == Some((it, s2))
    requires Parse(t, s2) == Some((it, s3)) && Parse(t, s3).None?
    ensures ParseStar0(t, s0) == ([it, it, it], s3)
  {
    assert ParseStar0(t, s3) == ([], s3);
    ParseStar0Step(t, s2, it, s3);
    ParseStar0Step(t, s1, it, s2);
    ParseStar0Step(t, s0, it, s1);
    assert [] + [it] + [it] + [it] == [it, it, it];
  }

  /** Three successful iterations followed by a failure. */
  lemma ThreeIterations(t: RegExp<int>, it: Val<int>, s0: seq<int>, s1: seq<int>, s2: seq<int>, s3: seq<int>)
    requires StarsProductive(t) && !Nullable(t)
    requires Parse(t, s0) == Some((it, s1)) && Parse(t, s1) == Some((it, s2))
    requires Parse(t, s2) == Some((it, s3)) && Parse(t, s3).None?
    ensures ParseStar1(t, s0) == ([it, it, it], s3)
  {
    ThreeIterationsReversed(t, it, s0, s1, s2, s3);
    assert Reverse([it, it, it]) == [it, it, it];
  }

  lemma StarTwoOne()
    ensures var it := Cat(Lit(2), Lit(1));
      Parse(Star(Concat(Literal(2), Literal(1))), [2, 1, 2, 1, 2, 1, 3]) == Some((Rep([it, it, it]), [3]))
  {
    var it := Cat(Lit(2), Lit(1));
    var t := Concat(Literal(2), Literal(1));
    ParsePair(2, 1, [2, 1, 2, 1, 2, 1, 3]);
    ParsePair(2, 1, [2, 1, 2, 1, 3]);
    ParsePair(2, 1, [2, 1, 3]);
    assert [2, 1, 2, 1, 2, 1, 3][2..] == [2, 1, 2, 1, 3];
    assert [2, 1, 2, 1, 3][2..] == [2, 1, 3];
    assert [2, 1, 3][2..] == [3];
    ThreeIterations(t, it, [2, 1, 2, 1, 2, 1, 3], [2, 1, 2, 1, 3], [2, 1, 3], [3]);
  }

  lemma ParseOneStarTwoOneThree()
    ensures var it := Cat(Lit(2), Lit(1));
      Parse(OneStarTwoOneThree(), [1, 2, 1, 2, 1, 2, 1, 3]) ==
      Some((Cat(Lit(1), Cat(Rep([it, it, it]), Lit(3))), []))
  {
    var it := Cat(Lit(2), Lit(1));
    var t := Concat(Literal(2), Literal(1));
    var tail := [2, 1, 2, 1, 2, 1, 3];
    StarTwoOne();
    assert Parse(Concat(Star(t), Literal(3)), tail) == Some((Cat(Rep([it, it, it]), Lit(3)), [])) by {
      assert [3][1..] == [];
    }
    assert Parse(Literal(1), [1, 2, 1, 2, 1, 2, 1, 3]) == Some((Lit(1), tail)) by {
      assert [1, 2, 1, 2, 1, 2, 1, 3][1..] == tail;
    }
  }

  /** Folding three iterations of a two-symbol loop, framed by one symbol on each side. */
  lemma FoldFramedIterations(it: Val<int>, w: seq<int>)
    requires Reduce(it, 2) == w
    ensures Reduce(Cat(Lit(1), Cat(Rep([it, it, it]), Lit(3))), 2) == [1] + w + w + [3]
  {
    FoldThreeIterations(it, w, Lit(3), [3]);
    assert [1] + (w + w + [3]) == [1] + w + w + [3];
  }

  /** The parse tree of `12121213` against `1(21)*3`, folded with `k = 2`. */
  lemma FoldOneStarTwoOneThreeTree()
    ensures var it := Cat(Lit(2), Lit(1));
      Reduce(Cat(Lit(1), Cat(Rep([it, it, it]), Lit(3))), 2) == [1, 2, 1, 2, 1, 3]
  {
    var it := Cat(Lit(2), Lit(1));
    assert Reduce(it, 2) == [2, 1];
    FoldFramedIterations(it, [2, 1]);
  }

  /** `1(21)*3` on `12121213` with `k = 2` keeps two of the three `21` iterations. */
  lemma FoldOneStarTwoOneThree(s: seq<int>)
    requires s == [1, 2, 1, 2, 1, 2, 1, 3]
    ensures Parse(OneStarTwoOneThree(), s).Some? &&
      Reduce(Parse(OneStarTwoOneThree(), s).value.0, 2) == [1, 2, 1, 2, 1, 3]
  {
    ParseOneStarTwoOneThree();
    FoldOneStarTwoOneThreeTree();
  }

  lemma StarOneTwo()
    ensures var it := Cat(Lit(1), Lit(2));
      Parse(Star(Concat(Literal(1), Literal(2))), [1, 2, 1, 2, 1, 2, 1, 3]) == Some((Rep([it, it, it]), [1, 3]))
  {
    var it := Cat(Lit(1), Lit(2));
    var t := Concat(Literal(1), Literal(2));
    ParsePair(1, 2, [1, 2, 1, 2, 1, 2, 1, 3]);
    ParsePair(1, 2, [1, 2, 1, 2, 1, 3]);
    ParsePair(1, 2, [1, 2, 1, 3]);
    assert [1, 2, 1, 2, 1, 2, 1, 3][2..] == [1, 2, 1, 2, 1, 3];
    assert [1, 2, 1, 2, 1, 3][2..] == [1, 2, 1, 3];
    assert [1, 2, 1, 3][2..] == [1, 3];
    assert Parse(t, [1, 3]).None?;
    ThreeIterations(t, it, [1, 2, 1, 2, 1, 2, 1, 3], [1, 2, 1, 2, 1, 3], [1, 2, 1, 3], [1, 3]);
  }

  lemma ParseStarOneTwoOneThree()
    ensures var it := Cat(Lit(1), Lit(2));
      Parse(StarOneTwoOneThree(), [1, 2, 1, 2, 1, 2, 1, 3]) ==
      Some((Cat(Rep([it, it, it]), Cat(Lit(1), Lit(3))), []))
  {
    StarOneTwo();
    ParsePair(1, 3, [1, 3]);
    assert [1, 3][2..] == [];
  }

  /** Folding three iterations of a two-symbol loop, followed by two more symbols. */
  lemma FoldThreeIterations(it: Val<int>, w: seq<int>, tail: Val<int>, u: seq<int>)
    requires Reduce(it, 2) == w && Reduce(tail, 2) == u
    ensures Reduce(Cat(Rep([it, it, it]), tail), 2) == w + w + u
  {
    assert [it, it, it][1..] == [it, it];
    assert [it, it][1..] == [it];
    assert ReduceIters([it], 2, 2) == [];
    assert ReduceIters([it, it], 2, 1) == w by {
      assert w + [] == w;
    }
    assert ReduceIters([it, it, it], 2, 0) == w + w;
  }

  /** `(12)*(13)` on `12121213` with `k = 2` keeps two of the three `12` iterations. */
  lemma FoldStarOneTwoOneThree(s: seq<int>)
    requires s == [1, 2, 1, 2, 1, 2, 1, 3]
    ensures Parse(StarOneTwoOneThree(), s).Some? &&
      Reduce(Parse(StarOneTwoOneThree(), s).value.0, 2) == [1, 2, 1, 2, 1, 3]
  {
    ParseStarOneTwoOneThree();
    FoldStarOneTwoOneThreeTree();
  }

  /** The parse tree of `12121213` against `(12)*(13)`, folded with `k = 2`. */
  lemma FoldStarOneTwoOneThreeTree()
    ensures var it := Cat(Lit(1), Lit(2));
      Reduce(Cat(Rep([it, it, it]), Cat(Lit(1), Lit(3))), 2) == [1, 2, 1, 2, 1, 3]
  {
    var it := Cat(Lit(1), Lit(2));
    assert Reduce(it, 2) == [1, 2];
    assert Reduce(Cat(Lit(1), Lit(3)), 2) == [1, 3];
    FoldThreeIterations(it, [1, 2], Cat(Lit(1), Lit(3)), [1, 3]);
  }
}
