/** What a GNFA accepts, and why the steps of the conversion in
    `src/convert.rs` keep it: `from_cfg` accepts exactly the execution paths
    of the control-flow graph, ripping a state other than the start and
    accepting ones changes nothing, and on two states the label of the arrow
    from start to accept denotes the whole language (Sipser's argument for
    the GNFA construction).
 */
module ConvertLanguage {
  import opened Wrappers
  import opened Re
  import opened Convert
  import opened Seqs
  import Graphs

  /** `w` is spelt by a walk of `steps` arrows from `q` to `p`: the label of
      each arrow matches the next piece of `w`. */
  ghost predicate Path<A>(arrows: Arrows<A>, q: State, p: State, w: seq<A>, steps: nat)
    decreases steps
  {
    if steps == 0 then q == p && w == []
    else exists r: State, i: nat :: PathVia(arrows, q, r, p, w, i, steps)
  }

  /** The first arrow of such a walk goes to `r` and spells `w[..i]`. */
  ghost predicate PathVia<A>(arrows: Arrows<A>, q: State, r: State, p: State, w: seq<A>, i: nat, steps: nat)
    requires steps > 0
    decreases steps, 0
  {
    i <= |w| && (q, r) in arrows && Matches(arrows[(q, r)], w[..i]) && Path(arrows, r, p, w[i..], steps - 1)
  }

  /** The GNFA accepts `w`: some walk from the start to the accepting state spells it. */
  ghost predicate Accepts<A>(g: GNFA<A>, w: seq<A>) {
    exists steps: nat :: Path(g.arrows, g.start, g.accept, w, steps)
  }

  // ----- walks -----

  /** The first arrow of a walk of at least one arrow. */
  lemma PathFirst<A>(arrows: Arrows<A>, q: State, p: State, w: seq<A>, steps: nat) returns (r: State, i: nat)
    requires steps > 0 && Path(arrows, q, p, w, steps)
    ensures PathVia(arrows, q, r, p, w, i, steps)
  {
    r, i :| PathVia(arrows, q, r, p, w, i, steps);
  }

  lemma PathStep<A>(arrows: Arrows<A>, q: State, r: State, p: State, u: seq<A>, w: seq<A>, steps: nat)
    requires (q, r) in arrows && Matches(arrows[(q, r)], u) && Path(arrows, r, p, w, steps)
    ensures Path(arrows, q, p, u + w, steps + 1)
  {
    ConcatSlices(u, w);
    assert PathVia(arrows, q, r, p, u + w, |u|, steps + 1);
  }

  lemma PathOne<A>(arrows: Arrows<A>, q: State, p: State, u: seq<A>)
    requires (q, p) in arrows && Matches(arrows[(q, p)], u)
    ensures Path(arrows, q, p, u, 1)
  {
    assert u + [] == u;
    PathStep(arrows, q, p, p, u, [], 0);
  }

  /** Walks compose: a walk to `r` followed by a walk from `r`. */
  lemma {:induction false} PathConcat<A>(arrows: Arrows<A>, q: State, r: State, p: State, w1: seq<A>, w2: seq<A>, s1: nat, s2: nat)
    requires Path(arrows, q, r, w1, s1) && Path(arrows, r, p, w2, s2)
    ensures Path(arrows, q, p, w1 + w2, s1 + s2)
    decreases s1
  {
    if s1 == 0 {
      assert w1 + w2 == w2;
    } else {
      var m, i := PathFirst(arrows, q, r, w1, s1);
      PathConcat(arrows, m, r, p, w1[i..], w2, s1 - 1, s2);
      SplitAt(w1, i);
      Regroup3(w1[..i], w1[i..], w2);
      PathStep(arrows, q, m, p, w1[..i], w1[i..] + w2, s1 - 1 + s2);
    }
  }

  // ----- the labels of bypasses -----

  lemma MatchesConcat<A>(r1: RegExp<A>, r2: RegExp<A>, u: seq<A>, v: seq<A>)
    requires Matches(r1, u) && Matches(r2, v)
    ensures Matches(Concat(r1, r2), u + v)
  {
    ConcatSlices(u, v);
  }

  lemma ConcatSplits<A>(r1: RegExp<A>, r2: RegExp<A>, w: seq<A>) returns (u: seq<A>, v: seq<A>)
    requires Matches(Concat(r1, r2), w)
    ensures w == u + v && Matches(r1, u) && Matches(r2, v)
  {
    var i :| 0 <= i <= |w| && Matches(r1, w[..i]) && Matches(r2, w[i..]);
    u, v := w[..i], w[i..];
    assert w == u + v;
  }

  /** Every regular expression denotes at least one word. */
  lemma {:induction false} SomeWord<A>(r: RegExp<A>) returns (w: seq<A>)
    ensures Matches(r, w)
  {
    match r
    case Literal(c) =>
      w := [c];
    case Concat(r1, r2) =>
      var w1 := SomeWord(r1);
      var w2 := SomeWord(r2);
      MatchesConcat(r1, r2, w1, w2);
      w := w1 + w2;
    case Alter(r1, _) =>
      w := SomeWord(r1);
    case Star(_) =>
      w := [];
  }

  /** One more turn of a loop in front of any number of turns. */
  lemma MatchesStarCons<A>(r: RegExp<A>, u: seq<A>, x: seq<A>)
    requires Matches(r, u) && Matches(Star(r), x)
    ensures Matches(Star(r), u + x)
  {
    if |u| == 0 {
      assert u + x == x;
    } else {
      ConcatSlices(u, x);
    }
  }

  /** The turns around the self-loop of `s` that `Star` matches are a walk
      from `s` back to `s`. */
  lemma {:induction false} StarPath<A>(arrows: Arrows<A>, s: State, x: seq<A>) returns (steps: nat)
    requires (s, s) in arrows && Matches(Star(arrows[(s, s)]), x)
    ensures Path(arrows, s, s, x, steps)
    decreases |x|
  {
    if |x| == 0 {
      steps := 0;
    } else {
      var i :| 0 < i <= |x| && Matches(arrows[(s, s)], x[..i]) && Matches(Star(arrows[(s, s)]), x[i..]);
      var rest := StarPath(arrows, s, x[i..]);
      PathStep(arrows, s, s, s, x[..i], x[i..], rest);
      SplitAt(x, i);
      steps := rest + 1;
    }
  }

  /** A bypass label matches a word for the arrow in, any turns around the
      self-loop (none when there is no self-loop), and a word for the arrow out. */
  lemma BypassMatches<A>(arrowIn: RegExp<A>, selfLoop: Option<RegExp<A>>, arrowOut: RegExp<A>, u: seq<A>, x: seq<A>, v: seq<A>)
    requires Matches(arrowIn, u) && Matches(arrowOut, v)
    requires selfLoop.Some? ==> Matches(Star(selfLoop.value), x)
    requires selfLoop.None? ==> x == []
    ensures Matches(Bypass(arrowIn, selfLoop, arrowOut), u + x + v)
  {
    match selfLoop
    case Some(l) =>
      MatchesConcat(Star(l), arrowOut, x, v);
      MatchesConcat(arrowIn, Concat(Star(l), arrowOut), u, x + v);
      Regroup3(u, x, v);
    case None =>
      MatchesConcat(arrowIn, arrowOut, u, v);
      assert u + x + v == u + v;
  }

  /** The converse: every word a bypass label matches splits that way. */
  lemma BypassSplits<A>(arrowIn: RegExp<A>, selfLoop: Option<RegExp<A>>, arrowOut: RegExp<A>, w: seq<A>)
    returns (u: seq<A>, x: seq<A>, v: seq<A>)
    requires Matches(Bypass(arrowIn, selfLoop, arrowOut), w)
    ensures w == u + x + v && Matches(arrowIn, u) && Matches(arrowOut, v)
    ensures selfLoop.Some? ==> Matches(Star(selfLoop.value), x)
    ensures selfLoop.None? ==> x == []
  {
    match selfLoop
    case Some(l) =>
      var rest;
      u, rest := ConcatSplits(arrowIn, Concat(Star(l), arrowOut), w);
      x, v := ConcatSplits(Star(l), arrowOut, rest);
      Regroup3(u, x, v);
    case None =>
      u, v := ConcatSplits(arrowIn, arrowOut, w);
      x := [];
      assert w == u + x + v;
  }

  /** The label `Ripped` gives still matches every word of the old label... */
  lemma RippedKeepsOld<A>(arrows: Arrows<A>, rip: State, q: State, p: State, u: seq<A>)
    requires (q, p) in arrows && Matches(arrows[(q, p)], u)
    ensures Ripped(arrows, rip, q, p).Some? && Matches(Ripped(arrows, rip, q, p).value, u)
  {
  }

  /** ... and every word of the bypass through `rip`. */
  lemma RippedAddsBypass<A>(arrows: Arrows<A>, rip: State, q: State, p: State, u: seq<A>)
    requires (q, rip) in arrows && (rip, p) in arrows
    requires Matches(BypassLabel(arrows, rip, SelfLoop(arrows, rip), q, p), u)
    ensures Ripped(arrows, rip, q, p).Some? && Matches(Ripped(arrows, rip, q, p).value, u)
  {
  }

  /** Every word the label `Ripped` gives matches is spelt by a walk of the
      old arrows, possibly through `rip`. */
  lemma RippedPath<A>(arrows: Arrows<A>, rip: State, q: State, p: State, u: seq<A>) returns (steps: nat)
    requires Ripped(arrows, rip, q, p).Some? && Matches(Ripped(arrows, rip, q, p).value, u)
    ensures Path(arrows, q, p, u, steps)
  {
    var selfLoop := SelfLoop(arrows, rip);
    if (q, rip) in arrows && (rip, p) in arrows &&
       Matches(BypassLabel(arrows, rip, selfLoop, q, p), u)
    {
      var u1, x, u2 := BypassSplits(arrows[(q, rip)], selfLoop, arrows[(rip, p)], u);
      var loops := 0;
      if selfLoop.Some? {
        loops := StarPath(arrows, rip, x);
      } else {
        assert Path(arrows, rip, rip, x, 0);
      }
      PathOne(arrows, rip, p, u2);
      PathConcat(arrows, rip, rip, p, x, u2, loops, 1);
      PathStep(arrows, q, rip, p, u1, x + u2, loops + 1);
      Regroup3(u1, x, u2);
      steps := loops + 2;
    } else {
      PathOne(arrows, q, p, u);
      steps := 1;
    }
  }

  // ----- rip_state keeps the language -----

  /** `arrows'` are the arrows left once `rip` is bypassed in `arrows` and
      removed, the last state taking its index. */
  ghost predicate RippedFrom<A>(arrows': Arrows<A>, arrows: Arrows<A>, rip: State, n: nat)
    requires rip < n
  {
    ArrowsInRange(arrows', n - 1) &&
    (forall a: State, b: State :: a < n - 1 && b < n - 1 ==>
      ((a, b) in arrows' <==> Linked(arrows, rip, Orig(a, rip, n), Orig(b, rip, n)))) &&
    (forall k :: k in arrows' ==>
      Ripped(arrows, rip, Orig(k.0, rip, n), Orig(k.1, rip, n)).Some? &&
      arrows'[k] == Ripped(arrows, rip, Orig(k.0, rip, n), Orig(k.1, rip, n)).value)
  }

  /** A walk leaving `rip` for a state other than `rip` turns around the
      self-loop some times, then takes one arrow out of `rip`. */
  lemma {:induction false} LeaveRip<A>(arrows: Arrows<A>, rip: State, p: State, w: seq<A>, steps: nat)
    returns (x: seq<A>, p': State, y: seq<A>, rest: seq<A>, steps': nat)
    requires Path(arrows, rip, p, w, steps) && p != rip
    ensures w == x + y + rest && steps' < steps
    ensures (rip, rip) in arrows ==> Matches(Star(arrows[(rip, rip)]), x)
    ensures (rip, rip) !in arrows ==> x == []
    ensures p' != rip && (rip, p') in arrows && Matches(arrows[(rip, p')], y)
    ensures Path(arrows, p', p, rest, steps')
    decreases steps
  {
    var m, i := PathFirst(arrows, rip, p, w, steps);
    if m != rip {
      x, p', y, rest, steps' := [], m, w[..i], w[i..], steps - 1;
      assert w == x + y + rest;
    } else {
      var x0;
      x0, p', y, rest, steps' := LeaveRip(arrows, rip, p, w[i..], steps - 1);
      x := w[..i] + x0;
      MatchesStarCons(arrows[(rip, rip)], w[..i], x0);
      SplitAt(w, i);
      Regroup(w[..i], x0, y, rest);
    }
  }

  /** An old label kept or extended by `Ripped` is an arrow between the new
      indices, matching the same words. */
  lemma RippedArrow<A>(arrows: Arrows<A>, arrows': Arrows<A>, rip: State, n: nat, q: State, m: State, u: seq<A>)
    requires rip < n && RippedFrom(arrows', arrows, rip, n)
    requires q < n && m < n && q != rip && m != rip
    requires Ripped(arrows, rip, q, m).Some? && Matches(Ripped(arrows, rip, q, m).value, u)
    ensures (Moved(q, rip, n), Moved(m, rip, n)) in arrows'
    ensures Matches(arrows'[(Moved(q, rip, n), Moved(m, rip, n))], u)
  {
    MovedOrig(q, rip, n);
    MovedOrig(m, rip, n);
    assert Linked(arrows, rip, q, m);
  }

  /** An arrow into `rip`, followed by a walk on from `rip`, starts with a
      bypass: the arrow in, turns around the self-loop, one arrow out. */
  lemma BypassFirst<A>(arrows: Arrows<A>, rip: State, q: State, p: State, u0: seq<A>, w: seq<A>, steps: nat)
    returns (m: State, u: seq<A>, rest: seq<A>, steps': nat)
    requires (q, rip) in arrows && Matches(arrows[(q, rip)], u0)
    requires p != rip && Path(arrows, rip, p, w, steps)
    ensures m != rip && (rip, m) in arrows && steps' < steps && u0 + w == u + rest
    ensures Ripped(arrows, rip, q, m).Some? && Matches(Ripped(arrows, rip, q, m).value, u)
    ensures Path(arrows, m, p, rest, steps')
  {
    var x, y;
    x, m, y, rest, steps' := LeaveRip(arrows, rip, p, w, steps);
    u := u0 + x + y;
    BypassMatches(arrows[(q, rip)], SelfLoop(arrows, rip), arrows[(rip, m)], u0, x, y);
    RippedAddsBypass(arrows, rip, q, m, u);
    Regroup(u0, x, y, rest);
  }

  /** The first arrow of a walk of the old GNFA from a state other than `rip`,
      together with the turns through `rip` that follow it, is one arrow of
      the ripped GNFA. */
  lemma ForwardFirstArrow<A>(arrows: Arrows<A>, arrows': Arrows<A>, rip: State, n: nat,
                             q: State, p: State, w: seq<A>, steps: nat)
    returns (m: State, u: seq<A>, rest: seq<A>, steps': nat)
    requires rip < n && ArrowsInRange(arrows, n) && RippedFrom(arrows', arrows, rip, n)
    requires q < n && p < n && q != rip && p != rip
    requires steps > 0 && Path(arrows, q, p, w, steps)
    ensures m < n && m != rip && steps' < steps && w == u + rest
    ensures (Moved(q, rip, n), Moved(m, rip, n)) in arrows'
    ensures Matches(arrows'[(Moved(q, rip, n), Moved(m, rip, n))], u)
    ensures Path(arrows, m, p, rest, steps')
  {
    var r, i := PathFirst(arrows, q, p, w, steps);
    SplitAt(w, i);
    if r != rip {
      m, u, rest, steps' := r, w[..i], w[i..], steps - 1;
      RippedKeepsOld(arrows, rip, q, m, u);
    } else {
      m, u, rest, steps' := BypassFirst(arrows, rip, q, p, w[..i], w[i..], steps - 1);
    }
    RippedArrow(arrows, arrows', rip, n, q, m, u);
  }

  /** Every walk of the old GNFA between states other than `rip` is matched
      by a walk of the ripped one between their new indices. */
  lemma {:induction false} PathForward<A>(arrows: Arrows<A>, arrows': Arrows<A>, rip: State, n: nat,
                                          q: State, p: State, w: seq<A>, steps: nat)
    returns (steps': nat)
    requires rip < n && ArrowsInRange(arrows, n) && RippedFrom(arrows', arrows, rip, n)
    requires q < n && p < n && q != rip && p != rip
    requires Path(arrows, q, p, w, steps)
    ensures Path(arrows', Moved(q, rip, n), Moved(p, rip, n), w, steps')
    decreases steps
  {
    if steps == 0 {
      steps' := 0;
    } else {
      var m, u, rest, s := ForwardFirstArrow(arrows, arrows', rip, n, q, p, w, steps);
      var more := PathForward(arrows, arrows', rip, n, m, p, rest, s);
      PathStep(arrows', Moved(q, rip, n), Moved(m, rip, n), Moved(p, rip, n), u, rest, more);
      steps' := more + 1;
    }
  }

  /** Every walk of the ripped GNFA is matched by a walk of the old one
      between the old states the endpoints stand for. */
  lemma {:induction false} PathBack<A>(arrows: Arrows<A>, arrows': Arrows<A>, rip: State, n: nat,
                                       a: State, b: State, w: seq<A>, steps: nat)
    returns (s: nat)
    requires rip < n && RippedFrom(arrows', arrows, rip, n)
    requires Path(arrows', a, b, w, steps)
    ensures Path(arrows, Orig(a, rip, n), Orig(b, rip, n), w, s)
    decreases steps
  {
    if steps == 0 {
      s := 0;
    } else {
      var c, i := PathFirst(arrows', a, b, w, steps);
      var first := RippedPath(arrows, rip, Orig(a, rip, n), Orig(c, rip, n), w[..i]);
      var rest := PathBack(arrows, arrows', rip, n, c, b, w[i..], steps - 1);
      PathConcat(arrows, Orig(a, rip, n), Orig(c, rip, n), Orig(b, rip, n), w[..i], w[i..], first, rest);
      SplitAt(w, i);
      s := first + rest;
    }
  }

  /** `rip_state` of a state other than the start and accepting ones does not
      change the language the GNFA accepts. */
  lemma RipStateKeepsLanguage<A>(g: GNFA<A>, rip: State)
    requires Valid(g) && rip < g.n && rip != g.start && rip != g.accept
    ensures forall w :: Accepts(g, w) <==> Accepts(RipState(g, rip).value, w)
  {
    RipStateArrows(g, rip);
    RipStateLabels(g, rip);
    RipStateEnds(g, rip);
    var g' := RipState(g, rip).value;
    assert RippedFrom(g'.arrows, g.arrows, rip, g.n);
    forall w
      ensures Accepts(g, w) ==> Accepts(g', w)
      ensures Accepts(g', w) ==> Accepts(g, w)
    {
      if Accepts(g, w) {
        var steps: nat :| Path(g.arrows, g.start, g.accept, w, steps);
        var steps' := PathForward(g.arrows, g'.arrows, rip, g.n, g.start, g.accept, w, steps);
      }
      if Accepts(g', w) {
        var steps: nat :| Path(g'.arrows, g'.start, g'.accept, w, steps);
        var s := PathBack(g.arrows, g'.arrows, rip, g.n, g'.start, g'.accept, w, steps);
      }
    }
  }

  // ----- start_to_end -----

  /** No walk leaves a state without outgoing arrows. */
  lemma SinkPath<A>(arrows: Arrows<A>, a: State, p: State, w: seq<A>, steps: nat)
    requires (forall k :: k in arrows ==> k.0 != a) && Path(arrows, a, p, w, steps)
    ensures steps == 0 && p == a && w == []
  {
  }

  /** On two states, with nothing entering the start state and nothing
      leaving the accepting state, the label `start_to_end` returns denotes
      exactly the accepted language; it panics only when that is empty of
      walks. */
  lemma StartToEndLanguage<A>(g: GNFA<A>, w: seq<A>)
    requires Valid(g) && g.n == 2 && g.start != g.accept && StartIsSource(g) && AcceptIsSink(g)
    ensures Accepts(g, w) <==> StartToEnd(g).Ok? && Matches(StartToEnd(g).value, w)
  {
    if Accepts(g, w) {
      var steps: nat :| Path(g.arrows, g.start, g.accept, w, steps);
      assert steps != 0;
      var m, i := PathFirst(g.arrows, g.start, g.accept, w, steps);
      assert m == g.accept;
      SinkPath(g.arrows, g.accept, g.accept, w[i..], steps - 1);
      assert i == |w|;
      assert w[..i] == w;
    }
    if StartToEnd(g).Ok? && Matches(StartToEnd(g).value, w) {
      PathOne(g.arrows, g.start, g.accept, w);
    }
  }

  // ----- from_cfg -----

  /** `vs` is a walk of the control-flow graph: node indices, each joined to
      the next by an edge. */
  ghost predicate CfgWalk<A>(g: Graphs.Graph<A>, vs: seq<State>) {
    |vs| > 0 &&
    (forall i :: 0 <= i < |vs| ==> vs[i] < |g.nodes|) &&
    (forall i :: 0 <= i < |vs| - 1 ==> (vs[i], vs[i + 1]) in EdgeSet(g))
  }

  /** The node weights along `vs`. */
  function Weights<A>(g: Graphs.Graph<A>, vs: seq<State>): (w: seq<A>)
    requires forall i :: 0 <= i < |vs| ==> vs[i] < |g.nodes|
    ensures |w| == |vs| && forall i :: 0 <= i < |vs| ==> w[i] == g.nodes[vs[i]]
  {
    seq(|vs|, i requires 0 <= i < |vs| => g.nodes[vs[i]])
  }

  /** `w` is an execution path: the weights along a walk from `entry` to `exit`. */
  ghost predicate ExecutionPath<A>(g: Graphs.Graph<A>, entry: State, exit: State, w: seq<A>) {
    exists vs :: CfgWalk(g, vs) && vs[0] == entry && vs[|vs| - 1] == exit && w == Weights(g, vs)
  }

  /** The arrows between the graph's own nodes are its edges, labelled with
      the weight of their target. */
  ghost predicate EdgeArrows<A>(g: Graphs.Graph<A>, arrows: Arrows<A>) {
    forall k: (State, State) :: k.0 < |g.nodes| ==>
      (k in arrows <==> k in EdgeSet(g)) &&
      (k in arrows ==> k.1 < |g.nodes| && arrows[k] == Literal(g.nodes[k.1]))
  }

  /** A walk of arrows from a node of the graph is a walk of the graph, spelling
      the weights of the nodes after the first. */
  lemma {:induction false} ArrowWalkIsCfgWalk<A>(g: Graphs.Graph<A>, arrows: Arrows<A>, v: State, p: State, w: seq<A>, steps: nat)
    returns (vs: seq<State>)
    requires EdgeArrows(g, arrows) && v < |g.nodes| && Path(arrows, v, p, w, steps)
    ensures CfgWalk(g, vs) && vs[0] == v && vs[|vs| - 1] == p && w == Weights(g, vs)[1..]
    decreases steps
  {
    if steps == 0 {
      vs := [v];
    } else {
      var m, i := PathFirst(arrows, v, p, w, steps);
      assert (v, m) in EdgeSet(g) && m < |g.nodes|;
      var rest := ArrowWalkIsCfgWalk(g, arrows, m, p, w[i..], steps - 1);
      vs := [v] + rest;
      assert w[..i] == [g.nodes[m]];
      SplitAt(w, i);
      assert Weights(g, vs)[1..] == Weights(g, rest);
    }
  }

  /** Conversely, every walk of the graph is a walk of the arrows. */
  lemma {:induction false} CfgWalkIsArrowWalk<A>(g: Graphs.Graph<A>, arrows: Arrows<A>, vs: seq<State>)
    requires EdgeArrows(g, arrows) && CfgWalk(g, vs)
    ensures Path(arrows, vs[0], vs[|vs| - 1], Weights(g, vs)[1..], |vs| - 1)
    decreases |vs|
  {
    if |vs| > 1 {
      var rest := vs[1..];
      assert CfgWalk(g, rest) by {
        assert forall i :: 0 <= i < |rest| ==> rest[i] == vs[i + 1];
      }
      CfgWalkIsArrowWalk(g, arrows, rest);
      assert (vs[0], vs[1]) in EdgeSet(g);
      assert Matches(arrows[(vs[0], vs[1])], [g.nodes[vs[1]]]);
      PathStep(arrows, vs[0], vs[1], vs[|vs| - 1], [g.nodes[vs[1]]], Weights(g, rest)[1..], |vs| - 2);
      assert Weights(g, vs)[1..] == [g.nodes[vs[1]]] + Weights(g, rest)[1..];
    }
  }

  /** The only arrow out of the fresh start state goes to `entry`, labelled
      with its weight. */
  ghost predicate StartArrow<A>(g: Graphs.Graph<A>, arrows: Arrows<A>, entry: State)
    requires entry < |g.nodes|
  {
    (|g.nodes|, entry) in arrows && arrows[(|g.nodes|, entry)] == Literal(g.nodes[entry]) &&
    forall k :: k in arrows && k.0 == |g.nodes| ==> k.1 == entry
  }

  /** A walk from the fresh start state spells an execution path. */
  lemma StartWalkIsExecutionPath<A>(g: Graphs.Graph<A>, arrows: Arrows<A>, entry: State, exit: State, w: seq<A>, steps: nat)
    requires entry < |g.nodes| && exit < |g.nodes| && EdgeArrows(g, arrows) && StartArrow(g, arrows, entry)
    requires Path(arrows, |g.nodes|, exit, w, steps)
    ensures ExecutionPath(g, entry, exit, w)
  {
    var m, i := PathFirst(arrows, |g.nodes|, exit, w, steps);
    var vs := ArrowWalkIsCfgWalk(g, arrows, entry, exit, w[i..], steps - 1);
    SplitAt(w, i);
    assert w == Weights(g, vs);
  }

  /** An execution path is spelt by a walk from the fresh start state. */
  lemma ExecutionPathIsStartWalk<A>(g: Graphs.Graph<A>, arrows: Arrows<A>, entry: State, exit: State, w: seq<A>)
    returns (steps: nat)
    requires entry < |g.nodes| && exit < |g.nodes| && EdgeArrows(g, arrows) && StartArrow(g, arrows, entry)
    requires ExecutionPath(g, entry, exit, w)
    ensures Path(arrows, |g.nodes|, exit, w, steps)
  {
    var vs :| CfgWalk(g, vs) && vs[0] == entry && vs[|vs| - 1] == exit && w == Weights(g, vs);
    CfgWalkIsArrowWalk(g, arrows, vs);
    PathStep(arrows, |g.nodes|, entry, exit, [g.nodes[entry]], Weights(g, vs)[1..], |vs| - 1);
    assert w == [g.nodes[entry]] + Weights(g, vs)[1..];
    steps := |vs|;
  }

  /** `from_cfg` accepts exactly the execution paths of the graph from `entry`
      to `exit`. */
  lemma FromCfgLanguage<A>(g: Graphs.Graph<A>, entry: State, exit: State, w: seq<A>)
    requires Graphs.ValidGraph(g) && entry < |g.nodes| && exit < |g.nodes|
    ensures Accepts(FromCfg(g, entry, exit).value, w) <==> ExecutionPath(g, entry, exit, w)
  {
    var gn := FromCfg(g, entry, exit).value;
    assert EdgeArrows(g, gn.arrows);
    assert StartArrow(g, gn.arrows, entry);
    if Accepts(gn, w) {
      var steps: nat :| Path(gn.arrows, gn.start, gn.accept, w, steps);
      StartWalkIsExecutionPath(g, gn.arrows, entry, exit, w, steps);
    }
    if ExecutionPath(g, entry, exit, w) {
      var steps := ExecutionPathIsStartWalk(g, gn.arrows, entry, exit, w);
    }
  }
}
