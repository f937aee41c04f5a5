/** Regular expressions over an alphabet, the greedy parser that turns a word
    into a parse tree, and the folding of a parse tree that keeps only the
    first `k` iterations of every starred sub-expression (`src/re.rs`).
 */
module Re {
  import opened Wrappers
  import opened Seqs

  datatype RegExp<A> =
    | Literal(c: A)
    | Concat(r1: RegExp<A>, r2: RegExp<A>)
    | Alter(r1: RegExp<A>, r2: RegExp<A>)
    | Star(r: RegExp<A>)

  /** A parse tree. `Lit`, `Cat` and `Rep` are the source's `Val::Literal`,
      `Val::Concat` and `Val::Star`; `Rep` holds the iterations in input order. */
  datatype Val<A> =
    | Lit(c: A)
    | Cat(v1: Val<A>, v2: Val<A>)
    | Rep(vs: seq<Val<A>>)

  /** The word a parse tree stands for: its leaves, left to right. */
  function Leaves<A>(v: Val<A>): seq<A>
    decreases v
  {
    match v
    case Lit(c) => [c]
    case Cat(v1, v2) => Leaves(v1) + Leaves(v2)
    case Rep(vs) => LeavesSeq(vs)
  }

  function LeavesSeq<A>(vs: seq<Val<A>>): seq<A>
    decreases vs
  {
    if |vs| == 0 then [] else Leaves(vs[0]) + LeavesSeq(vs[1..])
  }

  /** `r` may match the empty word (syntactically). */
  predicate Nullable<A>(r: RegExp<A>) {
    match r
    case Literal(_) => false
    case Concat(r1, r2) => Nullable(r1) && Nullable(r2)
    case Alter(r1, r2) => Nullable(r1) || Nullable(r2)
    case Star(_) => true
  }

  /** No starred sub-expression of `r` can succeed without consuming input.
      The source's `parse_star0` recurses forever otherwise (on `Star(Star(x))`,
      say), so this is what `parse` demands of the expressions it is given. */
  predicate StarsProductive<A>(r: RegExp<A>) {
    match r
    case Literal(_) => true
    case Concat(r1, r2) => StarsProductive(r1) && StarsProductive(r2)
    case Alter(r1, r2) => StarsProductive(r1) && StarsProductive(r2)
    case Star(r1) => !Nullable(r1) && StarsProductive(r1)
  }

  /** Greedy, left-biased parse of a prefix of `s`; on success returns the
      parse tree and the unconsumed suffix. */
  function Parse<A(==)>(r: RegExp<A>, s: seq<A>): (res: Option<(Val<A>, seq<A>)>)
    requires StarsProductive(r)
    ensures res.Some? ==> Leaves(res.value.0) + res.value.1 == s
    ensures res.Some? && !Nullable(r) ==> |res.value.1| < |s|
    decreases r, |s|, 0
  {
    match r
    case Literal(c) =>
      if |s| == 0 then None
      else if c == s[0] then Some((Lit(c), s[1..]))
      else None
    case Concat(r1, r2) =>
      (match Parse(r1, s)
       case None => None
       case Some(p1) =>
         match Parse(r2, p1.1)
         case None => None
         case Some(p2) => Some((Cat(p1.0, p2.0), p2.1)))
    case Alter(r1, r2) =>
      (match Parse(r1, s)
       case Some(p) => Some(p)
       case None => Parse(r2, s))
    case Star(r1) =>
      var (vs, rest) := ParseStar1(r1, s);
      Some((Rep(vs), rest))
  }

  /** The iterations of a star, most recent first (the source pushes each
      iteration after the recursive call returns). */
  function ParseStar0<A(==)>(r: RegExp<A>, s: seq<A>): (res: (seq<Val<A>>, seq<A>))
    requires StarsProductive(r) && !Nullable(r)
    ensures LeavesSeq(Reverse(res.0)) + res.1 == s
    decreases r, |s|, 1
  {
    match Parse(r, s)
    case Some(p) =>
      var (vs, rest) := ParseStar0(r, p.1);
      LeavesSeqCons(p.0, Reverse(vs));
      ReverseSnoc(vs, p.0);
      (vs + [p.0], rest)
    case None => ([], s)
  }

  /** The iterations of a star, in input order. */
  function ParseStar1<A(==)>(r: RegExp<A>, s: seq<A>): (res: (seq<Val<A>>, seq<A>))
    requires StarsProductive(r) && !Nullable(r)
    ensures LeavesSeq(res.0) + res.1 == s
    decreases r, |s|, 2
  {
    var (vs, rest) := ParseStar0(r, s);
    (Reverse(vs), rest)
  }

  function Reverse<T>(xs: seq<T>): (r: seq<T>)
    ensures |r| == |xs|
    ensures forall i :: 0 <= i < |xs| ==> r[i] == xs[|xs| - 1 - i]
  {
    if |xs| == 0 then [] else [xs[|xs| - 1]] + Reverse(xs[..|xs| - 1])
  }

  lemma ReverseSnoc<T>(xs: seq<T>, x: T)
    ensures Reverse(xs + [x]) == [x] + Reverse(xs)
  {
    assert (xs + [x])[..|xs|] == xs;
  }

  lemma LeavesSeqCons<A>(v: Val<A>, vs: seq<Val<A>>)
    ensures LeavesSeq([v] + vs) == Leaves(v) + LeavesSeq(vs)
  {
    assert ([v] + vs)[1..] == vs;
  }

  /** Fold a parse tree into a word, keeping at most the first `k`
      iterations of every star. The source asserts `k != 0`. */
  function Reduce<A>(v: Val<A>, k: nat): (r: seq<A>)
    requires k != 0
    ensures Subseq(r, Leaves(v))
    decreases v
  {
    match v
    case Lit(c) =>
      SubseqRefl([c]);
      [c]
    case Cat(v1, v2) =>
      var r1 := Reduce(v1, k);
      var r2 := Reduce(v2, k);
      SubseqConcat(r1, Leaves(v1), r2, Leaves(v2));
      r1 + r2
    case Rep(vs) => ReduceIters(vs, k, 0)
  }

  /** The source's loop over the iterations of a star: `counter` iterations
      have been folded so far, and the loop stops once it reaches `k`. */
  function ReduceIters<A>(vs: seq<Val<A>>, k: nat, counter: nat): (r: seq<A>)
    requires k != 0
    ensures Subseq(r, LeavesSeq(vs))
    decreases vs
  {
    if |vs| == 0 then []
    else if counter >= k then []
    else
      var r1 := Reduce(vs[0], k);
      var r2 := ReduceIters(vs[1..], k, counter + 1);
      SubseqConcat(r1, Leaves(vs[0]), r2, LeavesSeq(vs[1..]));
      r1 + r2
  }

  // ----- What a parse means -----

  /** The words a regular expression denotes (a star's iterations are non-empty
      words, which loses nothing). */
  ghost predicate Matches<A>(r: RegExp<A>, w: seq<A>)
    decreases r, |w|
  {
    match r
    case Literal(c) => w == [c]
    case Concat(r1, r2) =>
      exists i :: 0 <= i <= |w| && Matches(r1, w[..i]) && Matches(r2, w[i..])
    case Alter(r1, r2) => Matches(r1, w) || Matches(r2, w)
    case Star(r1) =>
      |w| == 0 || exists i :: 0 < i <= |w| && Matches(r1, w[..i]) && Matches(r, w[i..])
  }

  /** `v` is a parse tree of `r`: its shape follows the expression. */
  ghost predicate Conforms<A>(v: Val<A>, r: RegExp<A>)
    decreases r
  {
    match r
    case Literal(c) => v == Lit(c)
    case Concat(r1, r2) => v.Cat? && Conforms(v.v1, r1) && Conforms(v.v2, r2)
    case Alter(r1, r2) => Conforms(v, r1) || Conforms(v, r2)
    case Star(r1) => v.Rep? && forall i :: 0 <= i < |v.vs| ==> Conforms(v.vs[i], r1)
  }

  /** The successive greedy parses of `r`, starting on `s`, are `vs`, in input
      order, and leave `rest`. */
  ghost predicate IterChain<A>(r: RegExp<A>, vs: seq<Val<A>>, s: seq<A>, rest: seq<A>)
    requires StarsProductive(r)
    decreases |vs|
  {
    if |vs| == 0 then rest == s
    else
      match Parse(r, s)
      case None => false
      case Some(p) => p.0 == vs[0] && IterChain(r, vs[1..], p.1, rest)
  }

  /** A successful parse consumes a prefix: the leaves of the tree followed by
      the remainder give back the input, so the remainder is a suffix of it. */
  lemma ParseConsumesPrefix<A>(r: RegExp<A>, s: seq<A>)
    requires StarsProductive(r) && Parse(r, s).Some?
    ensures var (v, rest) := Parse(r, s).value;
      IsSuffix(rest, s) && s == Leaves(v) + rest
  {
  }

  /** A literal consumes exactly one matching symbol and fails on an empty or
      mismatching input. */
  lemma ParseLiteral<A>(c: A, s: seq<A>)
    ensures Parse(Literal(c), s).Some? <==> |s| > 0 && s[0] == c
    ensures Parse(Literal(c), s).Some? ==> Parse(Literal(c), s).value == (Lit(c), s[1..])
  {
  }

  /** Concatenation threads the remainder: `r2` parses exactly what `r1`
      left, and the whole fails when either part does. */
  lemma ParseConcatThreads<A>(r1: RegExp<A>, r2: RegExp<A>, s: seq<A>)
    requires StarsProductive(r1) && StarsProductive(r2)
    ensures Parse(Concat(r1, r2), s).Some? <==>
      Parse(r1, s).Some? && Parse(r2, Parse(r1, s).value.1).Some?
    ensures Parse(Concat(r1, r2), s).Some? ==>
      var p1 := Parse(r1, s).value;
      var p2 := Parse(r2, p1.1).value;
      Parse(Concat(r1, r2), s).value == (Cat(p1.0, p2.0), p2.1)
  {
  }

  /** Alternation is left-biased: once `r1` succeeds, the right branch is
      never consulted; only when `r1` fails is the result that of `r2`. */
  lemma ParseAlterLeftBiased<A>(r1: RegExp<A>, r2: RegExp<A>, r2': RegExp<A>, s: seq<A>)
    requires StarsProductive(r1) && StarsProductive(r2) && StarsProductive(r2')
    ensures Parse(r1, s).Some? ==>
      Parse(Alter(r1, r2), s) == Parse(r1, s) == Parse(Alter(r1, r2'), s)
    ensures Parse(r1, s).None? ==> Parse(Alter(r1, r2), s) == Parse(r2, s)
  {
  }

  lemma {:induction false} ParseStar0Iterations<A>(r: RegExp<A>, s: seq<A>)
    requires StarsProductive(r) && !Nullable(r)
    ensures var (vs, rest) := ParseStar0(r, s);
      IterChain(r, Reverse(vs), s, rest) && Parse(r, rest).None?
    decreases |s|
  {
    match Parse(r, s)
    case Some(p) =>
      ParseStar0Iterations(r, p.1);
      var (vs, rest) := ParseStar0(r, p.1);
      ReverseSnoc(vs, p.0);
      assert ([p.0] + Reverse(vs))[1..] == Reverse(vs);
    case None =>
  }

  /** A star never fails. Its iterations are the successive greedy parses of
      the starred expression, in input order, and it stops at the first
      failure; with no iteration the remainder is the input unchanged. */
  lemma ParseStarIterations<A>(r: RegExp<A>, s: seq<A>)
    requires StarsProductive(Star(r))
    ensures Parse(Star(r), s).Some?
    ensures var (v, rest) := Parse(Star(r), s).value;
      v.Rep? && IterChain(r, v.vs, s, rest) && Parse(r, rest).None?
    ensures Parse(r, s).None? ==> Parse(Star(r), s).value == (Rep([]), s)
  {
    ParseStar0Iterations(r, s);
    if Parse(r, s).None? {
      var (vs, rest) := ParseStar0(r, s);
      assert vs == [] && rest == s;
    }
  }

  lemma {:induction false} ParseConforms<A>(r: RegExp<A>, s: seq<A>)
    requires StarsProductive(r) && Parse(r, s).Some?
    ensures Conforms(Parse(r, s).value.0, r)
    decreases r, |s|, 0
  {
    match r
    case Literal(c) =>
    case Concat(r1, r2) =>
      var p1 := Parse(r1, s).value;
      ParseConforms(r1, s);
      ParseConforms(r2, p1.1);
    case Alter(r1, r2) =>
      if Parse(r1, s).Some? {
        ParseConforms(r1, s);
      } else {
        ParseConforms(r2, s);
      }
    case Star(r1) =>
      ParseStar0Conforms(r1, s);
  }

  lemma {:induction false} ParseStar0Conforms<A>(r: RegExp<A>, s: seq<A>)
    requires StarsProductive(r) && !Nullable(r)
    ensures forall v :: v in ParseStar0(r, s).0 ==> Conforms(v, r)
    decreases r, |s|, 1
  {
    match Parse(r, s)
    case Some(p) =>
      ParseConforms(r, s);
      ParseStar0Conforms(r, p.1);
    case None =>
  }

  lemma {:induction false} ConformsMatches<A>(v: Val<A>, r: RegExp<A>)
    requires Conforms(v, r)
    ensures Matches(r, Leaves(v))
    decreases r, 0
  {
    match r
    case Literal(c) =>
    case Concat(r1, r2) =>
      ConformsMatches(v.v1, r1);
      ConformsMatches(v.v2, r2);
      var w := Leaves(v);
      var i := |Leaves(v.v1)|;
      assert w[..i] == Leaves(v.v1) && w[i..] == Leaves(v.v2);
    case Alter(r1, r2) =>
      if Conforms(v, r1) {
        ConformsMatches(v, r1);
      } else {
        ConformsMatches(v, r2);
      }
    case Star(r1) =>
      StarMatches(v.vs, r1);
  }

  lemma {:induction false} StarMatches<A>(vs: seq<Val<A>>, r: RegExp<A>)
    requires forall i :: 0 <= i < |vs| ==> Conforms(vs[i], r)
    ensures Matches(Star(r), LeavesSeq(vs))
    decreases r, 1, |vs|
  {
    if |vs| > 0 {
      var w := LeavesSeq(vs);
      var i := |Leaves(vs[0])|;
      StarMatches(vs[1..], r);
      if i > 0 {
        ConformsMatches(vs[0], r);
        assert w[..i] == Leaves(vs[0]) && w[i..] == LeavesSeq(vs[1..]);
      }
    }
  }

  /** Parsing is sound: a successful parse returns a tree of the expression
      whose leaves are a word of its language, followed by the remainder. */
  lemma ParseSound<A>(r: RegExp<A>, s: seq<A>)
    requires StarsProductive(r) && Parse(r, s).Some?
    ensures var (v, rest) := Parse(r, s).value;
      Conforms(v, r) && Matches(r, Leaves(v)) && s == Leaves(v) + rest
  {
    ParseConforms(r, s);
    ConformsMatches(Parse(r, s).value.0, r);
  }

  // ----- What folding keeps -----

  function Min(a: nat, b: nat): nat {
    if a <= b then a else b
  }

  /** Reference definition: fold every iteration of `vs`, in order. */
  function ReduceAll<A>(vs: seq<Val<A>>, k: nat): seq<A>
    requires k != 0
    decreases vs
  {
    if |vs| == 0 then [] else Reduce(vs[0], k) + ReduceAll(vs[1..], k)
  }

  lemma {:induction false} ReduceItersPrefix<A>(vs: seq<Val<A>>, k: nat, counter: nat)
    requires k != 0 && counter <= k
    ensures ReduceIters(vs, k, counter) == ReduceAll(vs[..Min(k - counter, |vs|)], k)
    decreases |vs|
  {
    var n := Min(k - counter, |vs|);
    if |vs| == 0 || counter == k {
      assert vs[..n] == [];
    } else {
      ReduceItersPrefix(vs[1..], k, counter + 1);
      assert vs[..n][0] == vs[0];
      assert vs[..n][1..] == vs[1..][..Min(k - (counter + 1), |vs| - 1)];
    }
  }

  /** A star keeps its first `min(k, |vs|)` iterations, each folded in turn. */
  lemma ReduceStarKeepsFirstK<A>(vs: seq<Val<A>>, k: nat)
    requires k != 0
    ensures Reduce(Rep(vs), k) == ReduceAll(vs[..Min(k, |vs|)], k)
  {
    ReduceItersPrefix(vs, k, 0);
  }

  /** Folding never lengthens the word. */
  lemma ReduceShrinks<A>(v: Val<A>, k: nat)
    requires k != 0
    ensures |Reduce(v, k)| <= |Leaves(v)|
  {
    SubseqLength(Reduce(v, k), Leaves(v));
  }

  /** Every star of `v` has at most `k` iterations. */
  ghost predicate StarsBounded<A>(v: Val<A>, k: nat)
    decreases v
  {
    match v
    case Lit(_) => true
    case Cat(v1, v2) => StarsBounded(v1, k) && StarsBounded(v2, k)
    case Rep(vs) => |vs| <= k && forall i :: 0 <= i < |vs| ==> StarsBounded(vs[i], k)
  }

  /** When no star has more than `k` iterations, folding loses nothing. */
  lemma {:induction false} ReduceBoundedIsLeaves<A>(v: Val<A>, k: nat)
    requires k != 0 && StarsBounded(v, k)
    ensures Reduce(v, k) == Leaves(v)
    decreases v, 0
  {
    match v
    case Lit(_) =>
    case Cat(v1, v2) =>
      ReduceBoundedIsLeaves(v1, k);
      ReduceBoundedIsLeaves(v2, k);
    case Rep(vs) =>
      ReduceItersBoundedIsLeaves(vs, k, 0);
  }

  lemma {:induction false} ReduceItersBoundedIsLeaves<A>(vs: seq<Val<A>>, k: nat, counter: nat)
    requires k != 0 && counter + |vs| <= k
    requires forall i :: 0 <= i < |vs| ==> StarsBounded(vs[i], k)
    ensures ReduceIters(vs, k, counter) == LeavesSeq(vs)
    decreases vs, 1
  {
    if |vs| > 0 {
      ReduceBoundedIsLeaves(vs[0], k);
      ReduceItersBoundedIsLeaves(vs[1..], k, counter + 1);
    }
  }
}
