/** Sequence relations used to state what the trace reducers keep of their input. */
module Seqs {

  /** `r` is what is left of `s` after a prefix has been consumed. */
  predicate IsSuffix<T(==)>(r: seq<T>, s: seq<T>) {
    |r| <= |s| && s[|s| - |r|..] == r
  }

  /** The part of `s` consumed before its suffix `r`. */
  function Consumed<T>(s: seq<T>, r: seq<T>): seq<T>
    requires |r| <= |s|
  {
    s[..|s| - |r|]
  }

  /** Consuming up to `mid` and then up to `rest` consumes up to `rest`. */
  lemma ConsumedChain<T>(s: seq<T>, mid: seq<T>, rest: seq<T>)
    requires IsSuffix(mid, s) && IsSuffix(rest, mid)
    ensures IsSuffix(rest, s)
    ensures Consumed(s, rest) == Consumed(s, mid) + Consumed(mid, rest)
  {
  }

  /** A suffix of the tail of `s` is a suffix of `s` that consumes its head too. */
  lemma ConsumedHead<T>(s: seq<T>, rest: seq<T>)
    requires |s| > 0 && IsSuffix(rest, s[1..])
    ensures IsSuffix(rest, s)
    ensures Consumed(s, rest) == [s[0]] + Consumed(s[1..], rest)
  {
  }

  /** `a` is obtained from `b` by deleting elements (order is kept). */
  ghost predicate Subseq<T>(a: seq<T>, b: seq<T>)
    decreases |b|
  {
    |a| == 0 ||
    (|b| > 0 && ((a[0] == b[0] && Subseq(a[1..], b[1..])) || Subseq(a, b[1..])))
  }

  lemma {:induction false} SubseqRefl<T>(b: seq<T>)
    ensures Subseq(b, b)
    decreases |b|
  {
    if |b| > 0 {
      SubseqRefl(b[1..]);
    }
  }

  /** Elements placed in front of the longer sequence may be skipped. */
  lemma {:induction false} SubseqSkipPrefix<T>(a: seq<T>, c: seq<T>, b: seq<T>)
    requires Subseq(a, b)
    ensures Subseq(a, c + b)
    decreases |c|
  {
    if |c| > 0 {
      SubseqSkipPrefix(a, c[1..], b);
      assert (c + b)[1..] == c[1..] + b;
      assert Subseq(a, (c + b)[1..]);
    } else {
      assert c + b == b;
    }
  }

  lemma {:induction false} SubseqConcat<T>(a1: seq<T>, b1: seq<T>, a2: seq<T>, b2: seq<T>)
    requires Subseq(a1, b1) && Subseq(a2, b2)
    ensures Subseq(a1 + a2, b1 + b2)
    decreases |b1|
  {
    if |a1| == 0 {
      assert a1 + a2 == a2;
      SubseqSkipPrefix(a2, b1, b2);
    } else {
      assert (b1 + b2)[1..] == b1[1..] + b2;
      if a1[0] == b1[0] && Subseq(a1[1..], b1[1..]) {
        SubseqConcat(a1[1..], b1[1..], a2, b2);
        assert (a1 + a2)[1..] == a1[1..] + a2;
      } else {
        SubseqConcat(a1, b1[1..], a2, b2);
      }
    }
  }

  /** Appending the same element to both sides keeps the relation. */
  lemma SubseqAppend<T>(a: seq<T>, b: seq<T>, x: T)
    requires Subseq(a, b)
    ensures Subseq(a + [x], b + [x])
  {
    SubseqRefl([x]);
    SubseqConcat(a, b, [x], [x]);
  }

  /** Extra elements at the end of the longer sequence may be skipped. */
  lemma SubseqSkipSuffix<T>(a: seq<T>, b: seq<T>, c: seq<T>)
    requires Subseq(a, b)
    ensures Subseq(a, b + c)
  {
    assert Subseq([], c);
    SubseqConcat(a, b, [], c);
    assert a + [] == a;
  }

  lemma {:induction false} SubseqPrefix<T>(a: seq<T>, b: seq<T>, j: nat)
    requires Subseq(a, b) && j <= |a|
    ensures Subseq(a[..j], b)
    decreases |b|
  {
    if j > 0 {
      if a[0] == b[0] && Subseq(a[1..], b[1..]) {
        SubseqPrefix(a[1..], b[1..], j - 1);
        assert a[..j][1..] == a[1..][..j - 1];
      } else {
        SubseqPrefix(a, b[1..], j);
      }
    }
  }

  lemma {:induction false} SubseqLength<T>(a: seq<T>, b: seq<T>)
    requires Subseq(a, b)
    ensures |a| <= |b|
    decreases |b|
  {
    if |a| > 0 {
      if a[0] == b[0] && Subseq(a[1..], b[1..]) {
        SubseqLength(a[1..], b[1..]);
      } else {
        SubseqLength(a, b[1..]);
      }
    }
  }

  lemma {:induction false} SubseqElements<T>(a: seq<T>, b: seq<T>)
    requires Subseq(a, b)
    ensures forall x :: x in a ==> x in b
    decreases |b|
  {
    if |a| > 0 {
      if a[0] == b[0] && Subseq(a[1..], b[1..]) {
        SubseqElements(a[1..], b[1..]);
        assert forall x :: x in a ==> x == a[0] || x in a[1..];
      } else {
        SubseqElements(a, b[1..]);
      }
    }
  }

  lemma {:induction false} SubseqTrans<T>(a: seq<T>, b: seq<T>, c: seq<T>)
    requires Subseq(a, b) && Subseq(b, c)
    ensures Subseq(a, c)
    decreases |c|
  {
    if |a| > 0 {
      if b[0] == c[0] && Subseq(b[1..], c[1..]) {
        if a[0] == b[0] && Subseq(a[1..], b[1..]) {
          SubseqTrans(a[1..], b[1..], c[1..]);
        } else {
          SubseqTrans(a, b[1..], c[1..]);
        }
      } else {
        SubseqTrans(a, b, c[1..]);
      }
    }
  }

  /** A prefix of a sequence is a subsequence of it. */
  lemma PrefixIsSubseq<T>(b: seq<T>, j: nat)
    requires j <= |b|
    ensures Subseq(b[..j], b)
  {
    SubseqRefl(b);
    SubseqPrefix(b, b, j);
  }

  /** Regrouping a concatenation of four sequences. */
  lemma Regroup<T>(a: seq<T>, b: seq<T>, c: seq<T>, d: seq<T>)
    ensures a + b + c + d == a + (b + c + d)
  {
  }

  lemma Regroup3<T>(a: seq<T>, b: seq<T>, c: seq<T>)
    ensures a + (b + c) == a + b + c
  {
  }

  /** Cutting a sequence and putting the pieces back together. */
  lemma SplitAt<T>(w: seq<T>, i: nat)
    requires i <= |w|
    ensures w[..i] + w[i..] == w
  {
  }

  /** The pieces of a concatenation are its operands. */
  lemma ConcatSlices<T>(u: seq<T>, v: seq<T>)
    ensures (u + v)[..|u|] == u && (u + v)[|u|..] == v
  {
  }
}
