/** The conversion of a control-flow graph into a regular expression by state
    elimination on a generalized NFA (`src/convert.rs`).

    A GNFA has the states `0 .. n-1`; its arrows are a finite map from a
    (source, target) pair to the regular expression labelling the arrow, so
    there is at most one arrow per ordered pair. The source's petgraph graph
    differs in one place: `from_cfg` copies every edge of the control-flow
    graph, parallel edges included, where this map keeps one arrow per pair.
    Parallel edges from `from_cfg` carry the same label (the weight of their
    common target), so the collapsed arrow accepts the same words. The
    arrows that `rip_state` adds go through `add_arrow`, which extends an
    existing label instead of adding a parallel edge.
 */
module Convert {
  import opened Wrappers
  import opened Re
  import Graphs

  type State = nat
  type Arrows<A> = map<(State, State), RegExp<A>>

  datatype GNFA<A> = GNFA(n: nat, arrows: Arrows<A>, start: State, accept: State)

  /** Every arrow joins two of the `n` states (petgraph's own invariant). */
  predicate ArrowsInRange<A>(arrows: Arrows<A>, n: nat) {
    forall k :: k in arrows ==> k.0 < n && k.1 < n
  }

  /** A well-formed GNFA: its start and accepting states exist. */
  predicate Valid<A>(g: GNFA<A>) {
    g.start < g.n && g.accept < g.n && ArrowsInRange(g.arrows, g.n)
  }

  /** No arrow enters the start state. */
  predicate StartIsSource<A>(g: GNFA<A>) {
    forall k :: k in g.arrows ==> k.1 != g.start
  }

  /** No arrow leaves the accepting state. */
  predicate AcceptIsSink<A>(g: GNFA<A>) {
    forall k :: k in g.arrows ==> k.0 != g.accept
  }

  // ----- from_cfg -----

  /** The (source, target) pairs of the graph's edges. */
  function EdgeSet<A>(g: Graphs.Graph<A>): set<(State, State)> {
    set i | 0 <= i < |g.edges| :: g.edges[i]
  }

  /** `GNFA::from_cfg`: every edge `u -> v` becomes an arrow labelled with
      `v`'s weight, and a fresh start state (the last index) gets one arrow to
      `entry`, labelled with `entry`'s weight; `exit` is the accepting state.
      Looking up the weight of a missing `entry` panics. */
  function FromCfg<A>(g: Graphs.Graph<A>, entry: State, exit: State): (res: Result<GNFA<A>>)
    requires Graphs.ValidGraph(g)
    ensures res.Ok? <==> entry < |g.nodes|
    ensures res.Ok? ==> res.value.n == |g.nodes| + 1 && res.value.start == |g.nodes| && res.value.accept == exit
    ensures res.Ok? ==> ArrowsInRange(res.value.arrows, res.value.n)
    ensures res.Ok? ==> forall k: (State, State) :: k.0 < |g.nodes| ==>
      (k in res.value.arrows <==> k in EdgeSet(g))
    ensures res.Ok? ==> forall k :: k in res.value.arrows && k.0 < |g.nodes| ==>
      k.1 < |g.nodes| && res.value.arrows[k] == Literal(g.nodes[k.1])
    ensures res.Ok? ==> forall k :: k in res.value.arrows && k.0 == |g.nodes| ==>
      k.1 == entry && res.value.arrows[k] == Literal(g.nodes[entry])
    ensures res.Ok? ==> (|g.nodes|, entry) in res.value.arrows
    ensures res.Ok? ==> StartIsSource(res.value)
    ensures res.Ok? && exit < |g.nodes| ==> Valid(res.value) && res.value.start != res.value.accept
    ensures res.Ok? && exit < |g.nodes| ==> (AcceptIsSink(res.value) <==> Graphs.NoSuccessor(g, exit))
  {
    if entry >= |g.nodes| then Panic(MissingEntry)
    else
      var start := |g.nodes|;
      var edges := EdgeSet(g);
      assert forall e :: e in edges ==> e.0 < |g.nodes| && e.1 < |g.nodes|;
      var arrows := (map e | e in edges :: Literal(g.nodes[e.1]))[(start, entry) := Literal(g.nodes[entry])];
      var res := GNFA(start + 1, arrows, start, exit);
      assert exit < |g.nodes| ==> (AcceptIsSink(res) <==> Graphs.NoSuccessor(g, exit)) by {
        if exit < |g.nodes| && AcceptIsSink(res) {
          forall j | 0 <= j < |g.edges|
            ensures g.edges[j].0 != exit
          {
            assert g.edges[j] in edges;
          }
        }
      }
      Ok(res)
  }

  /** Every label `from_cfg` builds is a literal, so all are productive. */
  lemma FromCfgProductive<A>(g: Graphs.Graph<A>, entry: State, exit: State)
    requires Graphs.ValidGraph(g) && entry < |g.nodes|
    ensures ProductiveLabels(FromCfg(g, entry, exit).value.arrows)
  {
    var arrows := FromCfg(g, entry, exit).value.arrows;
    forall k | k in arrows
      ensures arrows[k].Literal?
    {
    }
  }

  // ----- next_to_rip -----

  /** `u` is the start or the accepting state. */
  predicate Special<A>(g: GNFA<A>, u: State) {
    u == g.start || u == g.accept
  }

  /** The first state from `v` on that is neither the start nor the accepting state. */
  function FirstOther<A>(g: GNFA<A>, v: State): (res: Option<State>)
    ensures res.Some? ==> v <= res.value < g.n && !Special(g, res.value)
    ensures res.Some? ==> forall u: State :: v <= u < res.value ==> Special(g, u)
    ensures res.None? ==> forall u: State :: v <= u < g.n ==> Special(g, u)
    decreases g.n - v
  {
    if v >= g.n then None
    else if v != g.start && v != g.accept then Some(v)
    else FirstOther(g, v + 1)
  }

  /** `next_to_rip`: the smallest state that is neither the start nor the
      accepting state; `unreachable!()` when there is none. */
  function NextToRip<A>(g: GNFA<A>): (res: Result<State>)
    ensures res.Ok? ==> res.value < g.n && res.value != g.start && res.value != g.accept
    ensures res.Ok? ==> forall u: State :: u < res.value ==> Special(g, u)
    ensures res.Panic? <==> forall u: State :: u < g.n ==> Special(g, u)
    ensures res.Panic? ==> res.reason == Unreachable
  {
    match FirstOther(g, 0)
    case Some(v) => Ok(v)
    case None => Panic(Unreachable)
  }

  /** With more than two states there is always one to rip. */
  lemma NextToRipSucceeds<A>(g: GNFA<A>)
    requires g.n > 2
    ensures NextToRip(g).Ok?
  {
    var u := if !Special(g, 0) then 0 else if !Special(g, 1) then 1 else 2;
    assert u < g.n && !Special(g, u);
  }

  // ----- add_arrow -----

  /** The label an arrow `s -> t` carries after `arrow` is added to it. */
  function Joined<A>(arrows: Arrows<A>, s: State, t: State, arrow: RegExp<A>): RegExp<A> {
    if (s, t) in arrows then Alter(arrows[(s, t)], arrow) else arrow
  }

  /** `add_arrow`: an existing arrow `s -> t` becomes `Alter(old, arrow)`;
      otherwise a new arrow is added. No other arrow changes. */
  function AddArrow<A>(arrows: Arrows<A>, s: State, t: State, arrow: RegExp<A>): (res: Arrows<A>)
    ensures res.Keys == arrows.Keys + {(s, t)}
    ensures (s, t) in arrows ==> res[(s, t)] == Alter(arrows[(s, t)], arrow)
    ensures (s, t) !in arrows ==> res[(s, t)] == arrow
    ensures forall k :: k in arrows && k != (s, t) ==> res[k] == arrows[k]
  {
    arrows[(s, t) := Joined(arrows, s, t, arrow)]
  }

  // ----- rip_state -----

  /** The label of the bypass `q -> p` around the ripped state: the arrow in,
      any number of turns around the ripped state's self-loop (when it has
      one), and the arrow out. */
  function Bypass<A>(arrowIn: RegExp<A>, selfLoop: Option<RegExp<A>>, arrowOut: RegExp<A>): RegExp<A> {
    match selfLoop
    case Some(l) => Concat(arrowIn, Concat(Star(l), arrowOut))
    case None => Concat(arrowIn, arrowOut)
  }

  function SelfLoop<A>(arrows: Arrows<A>, rip: State): Option<RegExp<A>> {
    if (rip, rip) in arrows then Some(arrows[(rip, rip)]) else None
  }

  /** The states `q >= from` with an arrow `q -> rip`, in increasing order. */
  function Sources<A>(arrows: Arrows<A>, n: nat, rip: State, from: nat): (qs: seq<State>)
    ensures forall q :: q in qs <==> from <= q < n && (q, rip) in arrows
    ensures forall i, j :: 0 <= i < j < |qs| ==> qs[i] < qs[j]
    decreases n - from
  {
    if from >= n then []
    else
      var rest := Sources(arrows, n, rip, from + 1);
      assert forall j :: 0 <= j < |rest| ==> rest[j] in rest;
      if (from, rip) in arrows then [from] + rest else rest
  }

  /** The states `p >= from` with an arrow `rip -> p`, in increasing order. */
  function Targets<A>(arrows: Arrows<A>, n: nat, rip: State, from: nat): (ps: seq<State>)
    ensures forall p :: p in ps <==> from <= p < n && (rip, p) in arrows
    ensures forall i, j :: 0 <= i < j < |ps| ==> ps[i] < ps[j]
    decreases n - from
  {
    if from >= n then []
    else
      var rest := Targets(arrows, n, rip, from + 1);
      assert forall j :: 0 <= j < |rest| ==> rest[j] in rest;
      if (rip, from) in arrows then [from] + rest else rest
  }

  /** The arrows `q -> rip` and `rip -> p` of the pairs still to visit are
      present (they are never changed while bypasses are added). */
  predicate RipArrows<A>(arrows: Arrows<A>, rip: State, qs: seq<State>, ps: seq<State>) {
    (forall q :: q in qs ==> (q, rip) in arrows) && (forall p :: p in ps ==> (rip, p) in arrows)
  }

  /** The pair `k` gets a bypass from the loops over `qs` and `ps`. */
  predicate Bypassed(k: (State, State), rip: State, qs: seq<State>, ps: seq<State>) {
    k.0 in qs && k.1 in ps && k.0 != rip && k.1 != rip
  }

  /** The bypass label for `q -> rip -> p`. */
  function BypassLabel<A>(arrows: Arrows<A>, rip: State, selfLoop: Option<RegExp<A>>, q: State, p: State): RegExp<A>
    requires (q, rip) in arrows && (rip, p) in arrows
  {
    Bypass(arrows[(q, rip)], selfLoop, arrows[(rip, p)])
  }

  /** The inner loop of `rip_state` for the in-arrow from `q`: add the bypass
      `q -> p` for each out-arrow `rip -> p`, skipping the self-loop. The
      labels are read from the arrows as they stand when the pair is visited. */
  function AddRow<A>(arrows: Arrows<A>, rip: State, selfLoop: Option<RegExp<A>>, q: State, ps: seq<State>): (res: Arrows<A>)
    requires RipArrows(arrows, rip, [q], ps)
    ensures arrows.Keys <= res.Keys
    decreases |ps|
  {
    if |ps| == 0 then arrows
    else
      var p := ps[0];
      var next := if q == rip || p == rip then arrows
                  else AddArrow(arrows, q, p, BypassLabel(arrows, rip, selfLoop, q, p));
      assert forall x :: x in ps[1..] ==> x in ps;
      AddRow(next, rip, selfLoop, q, ps[1..])
  }

  /** The outer loop of `rip_state`: one row of bypasses per in-arrow. */
  function AddBypasses<A>(arrows: Arrows<A>, rip: State, selfLoop: Option<RegExp<A>>, qs: seq<State>, ps: seq<State>): (res: Arrows<A>)
    requires RipArrows(arrows, rip, qs, ps)
    ensures arrows.Keys <= res.Keys
    decreases |qs|
  {
    if |qs| == 0 then arrows
    else
      var next := AddRow(arrows, rip, selfLoop, qs[0], ps);
      assert forall x :: x in qs[1..] ==> x in qs;
      AddBypasses(next, rip, selfLoop, qs[1..], ps)
  }

  lemma DistinctTail(xs: seq<State>)
    requires |xs| > 0 && Graphs.Distinct(xs)
    ensures Graphs.Distinct(xs[1..]) && xs[0] !in xs[1..]
    ensures forall x :: x in xs <==> x == xs[0] || x in xs[1..]
  {
    assert forall i :: 0 <= i < |xs[1..]| ==> xs[1..][i] == xs[i + 1];
  }

  /** One row adds exactly the bypasses `q -> p`, each joined onto the old
      label, and changes nothing else. */
  lemma {:induction false} AddRowSpec<A>(arrows: Arrows<A>, rip: State, selfLoop: Option<RegExp<A>>, q: State, ps: seq<State>)
    requires RipArrows(arrows, rip, [q], ps) && Graphs.Distinct(ps)
    ensures forall k :: k in AddRow(arrows, rip, selfLoop, q, ps) <==> k in arrows || Bypassed(k, rip, [q], ps)
    ensures forall k :: k in arrows && !Bypassed(k, rip, [q], ps) ==> AddRow(arrows, rip, selfLoop, q, ps)[k] == arrows[k]
    ensures forall k :: Bypassed(k, rip, [q], ps) ==>
      AddRow(arrows, rip, selfLoop, q, ps)[k] == Joined(arrows, k.0, k.1, BypassLabel(arrows, rip, selfLoop, k.0, k.1))
    decreases |ps|
  {
    if |ps| > 0 {
      var p := ps[0];
      DistinctTail(ps);
      var next := if q == rip || p == rip then arrows
                  else AddArrow(arrows, q, p, BypassLabel(arrows, rip, selfLoop, q, p));
      AddRowSpec(next, rip, selfLoop, q, ps[1..]);
      var res := AddRow(arrows, rip, selfLoop, q, ps);
      assert res == AddRow(next, rip, selfLoop, q, ps[1..]);
      forall k | Bypassed(k, rip, [q], ps)
        ensures res[k] == Joined(arrows, k.0, k.1, BypassLabel(arrows, rip, selfLoop, k.0, k.1))
      {
        if k.1 != p {
          assert next[(q, rip)] == arrows[(q, rip)] && next[(rip, k.1)] == arrows[(rip, k.1)];
          assert (k in next <==> k in arrows) && (k in arrows ==> next[k] == arrows[k]);
        }
      }
    }
  }

  /** All rows together add exactly the bypasses `q -> p` for `q` in `qs` and
      `p` in `ps`, each joined onto the old label, and change nothing else. */
  lemma {:induction false} AddBypassesSpec<A>(arrows: Arrows<A>, rip: State, selfLoop: Option<RegExp<A>>, qs: seq<State>, ps: seq<State>)
    requires RipArrows(arrows, rip, qs, ps) && Graphs.Distinct(qs) && Graphs.Distinct(ps)
    ensures forall k :: k in AddBypasses(arrows, rip, selfLoop, qs, ps) <==> k in arrows || Bypassed(k, rip, qs, ps)
    ensures forall k :: k in arrows && !Bypassed(k, rip, qs, ps) ==> AddBypasses(arrows, rip, selfLoop, qs, ps)[k] == arrows[k]
    ensures forall k :: Bypassed(k, rip, qs, ps) ==>
      AddBypasses(arrows, rip, selfLoop, qs, ps)[k] == Joined(arrows, k.0, k.1, BypassLabel(arrows, rip, selfLoop, k.0, k.1))
    decreases |qs|
  {
    if |qs| > 0 {
      var q := qs[0];
      DistinctTail(qs);
      AddRowSpec(arrows, rip, selfLoop, q, ps);
      var next := AddRow(arrows, rip, selfLoop, q, ps);
      AddBypassesSpec(next, rip, selfLoop, qs[1..], ps);
      var res := AddBypasses(arrows, rip, selfLoop, qs, ps);
      assert res == AddBypasses(next, rip, selfLoop, qs[1..], ps);
      forall k | Bypassed(k, rip, qs, ps)
        ensures res[k] == Joined(arrows, k.0, k.1, BypassLabel(arrows, rip, selfLoop, k.0, k.1))
      {
        if k.0 != q {
          assert !Bypassed((k.0, rip), rip, [q], ps) && !Bypassed((rip, k.1), rip, [q], ps);
          assert !Bypassed(k, rip, [q], ps);
        }
      }
    }
  }

  /** `rip_state` keeps every label productive. */
  lemma RipStateProductive<A>(g: GNFA<A>, rip: State)
    requires ArrowsInRange(g.arrows, g.n) && rip < g.n && ProductiveLabels(g.arrows)
    ensures ProductiveLabels(RipState(g, rip).value.arrows)
  {
    RipStateLabels(g, rip);
    var res := RipState(g, rip).value.arrows;
    forall k | k in res
      ensures StarsProductive(res[k]) && !Nullable(res[k])
    {
      RippedProductive(g.arrows, rip, Orig(k.0, rip, g.n), Orig(k.1, rip, g.n));
    }
  }

  /** The old state a state of the GNFA with `rip` removed stands for:
      removal moves the last state, `n - 1`, into the freed index. */
  function Orig(x: State, rip: State, n: nat): State
    requires rip < n
  {
    if x == rip then n - 1 else x
  }

  /** Where a state other than `rip` lands after the removal. */
  function Moved(x: State, rip: State, n: nat): State {
    if x == n - 1 then rip else x
  }

  /** petgraph's `remove_node`: drop `rip` with all its arrows, and renumber
      the last state as `rip`. */
  function RemoveState<A>(arrows: Arrows<A>, rip: State, n: nat): (res: Arrows<A>)
    requires rip < n
    ensures forall k: (State, State) :: k in res <==>
      k.0 < n - 1 && k.1 < n - 1 && (Orig(k.0, rip, n), Orig(k.1, rip, n)) in arrows
    ensures forall k :: k in res ==> res[k] == arrows[(Orig(k.0, rip, n), Orig(k.1, rip, n))]
  {
    var keys := set a: State, b: State | a < n - 1 && b < n - 1 && (Orig(a, rip, n), Orig(b, rip, n)) in arrows :: (a, b);
    map k | k in keys :: arrows[(Orig(k.0, rip, n), Orig(k.1, rip, n))]
  }

  /** `rip_state`: add the bypasses around `rip`, remove it, and fix up the
      start and accepting indices when removal renumbered them. Removing a
      state that does not exist fails the source's `assert!`. */
  function RipState<A>(g: GNFA<A>, rip: State): (res: Result<GNFA<A>>)
    requires ArrowsInRange(g.arrows, g.n)
    ensures res.Ok? <==> rip < g.n
    ensures res.Panic? ==> res.reason == AssertionFailed
    ensures res.Ok? ==> res.value.n == g.n - 1
  {
    var added := Bypassing(g.arrows, g.n, rip);
    if rip >= g.n then Panic(AssertionFailed)
    else
      var n := g.n - 1;
      var start := if g.start == n then rip else g.start;
      var accept := if g.accept == n then rip else g.accept;
      Ok(GNFA(n, RemoveState(added, rip, g.n), start, accept))
  }

  /** `q -> p` is an arrow once `rip` is bypassed: directly, or through `rip`. */
  predicate Linked<A>(arrows: Arrows<A>, rip: State, q: State, p: State) {
    (q, p) in arrows || ((q, rip) in arrows && (rip, p) in arrows)
  }

  /** The label `q -> p` carries once `rip` is bypassed: the old label, the
      bypass through `rip`, or their alternation; `None` when neither exists. */
  function Ripped<A>(arrows: Arrows<A>, rip: State, q: State, p: State): Option<RegExp<A>> {
    if (q, rip) in arrows && (rip, p) in arrows then
      Some(Joined(arrows, q, p, BypassLabel(arrows, rip, SelfLoop(arrows, rip), q, p)))
    else if (q, p) in arrows then Some(arrows[(q, p)])
    else None
  }

  /** Every label is an expression `parse` can run on (no starred part of it
      matches the empty word), and none matches the empty word itself. */
  predicate ProductiveLabels<A>(arrows: Arrows<A>) {
    forall k :: k in arrows ==> StarsProductive(arrows[k]) && !Nullable(arrows[k])
  }

  /** Bypassing `rip` builds only productive labels from productive ones: a
      bypass starts with the non-nullable in-label, and the self-loop it
      stars cannot match the empty word. */
  lemma RippedProductive<A>(arrows: Arrows<A>, rip: State, q: State, p: State)
    requires ProductiveLabels(arrows)
    ensures Ripped(arrows, rip, q, p).Some? ==>
      StarsProductive(Ripped(arrows, rip, q, p).value) && !Nullable(Ripped(arrows, rip, q, p).value)
  {
    if (q, rip) in arrows && (rip, p) in arrows {
      var arrowIn, arrowOut := arrows[(q, rip)], arrows[(rip, p)];
      assert StarsProductive(arrowIn) && !Nullable(arrowIn) && StarsProductive(arrowOut);
      var b := BypassLabel(arrows, rip, SelfLoop(arrows, rip), q, p);
      match SelfLoop(arrows, rip) {
        case Some(l) =>
          assert l == arrows[(rip, rip)];
          assert StarsProductive(Concat(Star(l), arrowOut));
          assert b == Concat(arrowIn, Concat(Star(l), arrowOut));
        case None =>
          assert b == Concat(arrowIn, arrowOut);
      }
      assert StarsProductive(b) && !Nullable(b);
      if (q, p) in arrows {
        assert StarsProductive(arrows[(q, p)]);
      }
    }
  }

  /** The arrows once every bypass around `rip` has been added. */
  function Bypassing<A>(arrows: Arrows<A>, n: nat, rip: State): Arrows<A>
    requires ArrowsInRange(arrows, n)
  {
    AddBypasses(arrows, rip, SelfLoop(arrows, rip), Sources(arrows, n, rip, 0), Targets(arrows, n, rip, 0))
  }

  /** The bypass loops visit the sources and targets of `rip` in the order
      petgraph lists its edges. For any listing that names each source and
      each target once, between states other than `rip` the arrows that
      result are those `Ripped` describes: the result does not depend on the
      order. */
  lemma BypassesAnyOrder<A>(arrows: Arrows<A>, n: nat, rip: State, qs: seq<State>, ps: seq<State>)
    requires ArrowsInRange(arrows, n) && rip < n
    requires Graphs.Distinct(qs) && forall q :: q in qs <==> q < n && (q, rip) in arrows
    requires Graphs.Distinct(ps) && forall p :: p in ps <==> p < n && (rip, p) in arrows
    ensures forall q: State, p: State :: q != rip && p != rip ==>
      ((q, p) in AddBypasses(arrows, rip, SelfLoop(arrows, rip), qs, ps) <==> Linked(arrows, rip, q, p))
    ensures forall q: State, p: State :: q != rip && p != rip && (q, p) in AddBypasses(arrows, rip, SelfLoop(arrows, rip), qs, ps) ==>
      Ripped(arrows, rip, q, p).Some? &&
      AddBypasses(arrows, rip, SelfLoop(arrows, rip), qs, ps)[(q, p)] == Ripped(arrows, rip, q, p).value
  {
    AddBypassesSpec(arrows, rip, SelfLoop(arrows, rip), qs, ps);
    forall q: State, p: State | q != rip && p != rip
      ensures Bypassed((q, p), rip, qs, ps) <==> (q, rip) in arrows && (rip, p) in arrows
    {
    }
  }

  /** Between states other than `rip`, the bypassed arrows are those `Ripped`
      describes. */
  lemma BypassingSpec<A>(arrows: Arrows<A>, n: nat, rip: State)
    requires ArrowsInRange(arrows, n) && rip < n
    ensures forall q: State, p: State :: q != rip && p != rip ==>
      ((q, p) in Bypassing(arrows, n, rip) <==> Linked(arrows, rip, q, p))
    ensures forall q: State, p: State :: q != rip && p != rip && (q, p) in Bypassing(arrows, n, rip) ==>
      Ripped(arrows, rip, q, p).Some? && Bypassing(arrows, n, rip)[(q, p)] == Ripped(arrows, rip, q, p).value
  {
    var qs := Sources(arrows, n, rip, 0);
    var ps := Targets(arrows, n, rip, 0);
    assert Graphs.Distinct(qs) && Graphs.Distinct(ps);
    BypassesAnyOrder(arrows, n, rip, qs, ps);
  }

  /** `rip_state` removes `rip` from the bypassed arrows. */
  lemma RipStateRemoves<A>(g: GNFA<A>, rip: State)
    requires ArrowsInRange(g.arrows, g.n) && rip < g.n
    ensures RipState(g, rip).value.arrows == RemoveState(Bypassing(g.arrows, g.n, rip), rip, g.n)
  {
  }

  /** Removing `rip` keeps, under the renumbering, exactly the arrows
      between the other states. */
  lemma RemoveStateLinks<A>(arrows: Arrows<A>, bp: Arrows<A>, rip: State, n: nat)
    requires rip < n
    requires forall q: State, p: State :: q != rip && p != rip ==> ((q, p) in bp <==> Linked(arrows, rip, q, p))
    ensures forall a: State, b: State :: a < n - 1 && b < n - 1 ==>
      ((a, b) in RemoveState(bp, rip, n) <==> Linked(arrows, rip, Orig(a, rip, n), Orig(b, rip, n)))
  {
    forall a: State, b: State | a < n - 1 && b < n - 1
      ensures (a, b) in RemoveState(bp, rip, n) <==> Linked(arrows, rip, Orig(a, rip, n), Orig(b, rip, n))
    {
      var q, p := Orig(a, rip, n), Orig(b, rip, n);
      assert q != rip && p != rip;
    }
  }

  /** After `rip_state`, two remaining states are joined exactly when the old
      states they stand for were joined, directly or through `rip`, and arrows
      stay within the states. */
  lemma RipStateArrows<A>(g: GNFA<A>, rip: State)
    requires ArrowsInRange(g.arrows, g.n) && rip < g.n
    ensures ArrowsInRange(RipState(g, rip).value.arrows, g.n - 1)
    ensures forall a: State, b: State :: a < g.n - 1 && b < g.n - 1 ==>
      ((a, b) in RipState(g, rip).value.arrows <==> Linked(g.arrows, rip, Orig(a, rip, g.n), Orig(b, rip, g.n)))
  {
    BypassingSpec(g.arrows, g.n, rip);
    RipStateRemoves(g, rip);
    RemoveStateLinks(g.arrows, Bypassing(g.arrows, g.n, rip), rip, g.n);
  }

  /** After `rip_state`, the arrow between two remaining states carries the
      label `Ripped` gives for the old states they stand for. */
  lemma RipStateLabels<A>(g: GNFA<A>, rip: State)
    requires ArrowsInRange(g.arrows, g.n) && rip < g.n
    ensures forall k :: k in RipState(g, rip).value.arrows ==>
      Ripped(g.arrows, rip, Orig(k.0, rip, g.n), Orig(k.1, rip, g.n)).Some? &&
      RipState(g, rip).value.arrows[k] == Ripped(g.arrows, rip, Orig(k.0, rip, g.n), Orig(k.1, rip, g.n)).value
  {
    BypassingSpec(g.arrows, g.n, rip);
    var b := Bypassing(g.arrows, g.n, rip);
    RipStateRemoves(g, rip);
    var res := RipState(g, rip).value.arrows;
    forall k | k in res
      ensures Ripped(g.arrows, rip, Orig(k.0, rip, g.n), Orig(k.1, rip, g.n)).Some?
      ensures res[k] == Ripped(g.arrows, rip, Orig(k.0, rip, g.n), Orig(k.1, rip, g.n)).value
    {
      var q, p := Orig(k.0, rip, g.n), Orig(k.1, rip, g.n);
      assert q != rip && p != rip;
      assert res[k] == b[(q, p)];
    }
  }

  /** A state other than `rip` comes back from its new index. */
  lemma MovedOrig(x: State, rip: State, n: nat)
    requires rip < n && x < n && x != rip
    ensures Moved(x, rip, n) < n - 1 && Orig(Moved(x, rip, n), rip, n) == x
  {
  }

  /** Every new index stands for an old state other than `rip`, and is where
      that state moved to. */
  lemma OrigMoved(x: State, rip: State, n: nat)
    requires rip < n && x < n - 1
    ensures Orig(x, rip, n) < n && Orig(x, rip, n) != rip && Moved(Orig(x, rip, n), rip, n) == x
  {
  }

  /** After `rip_state` of a state other than the start and accepting ones,
      the start and accepting indices still stand for the same old states. */
  lemma RipStateEnds<A>(g: GNFA<A>, rip: State)
    requires Valid(g) && rip < g.n && rip != g.start && rip != g.accept
    ensures Valid(RipState(g, rip).value)
    ensures Orig(RipState(g, rip).value.start, rip, g.n) == g.start
    ensures Orig(RipState(g, rip).value.accept, rip, g.n) == g.accept
    ensures RipState(g, rip).value.start == Moved(g.start, rip, g.n)
    ensures RipState(g, rip).value.accept == Moved(g.accept, rip, g.n)
    ensures RipState(g, rip).value.start == RipState(g, rip).value.accept <==> g.start == g.accept
  {
    RipStateArrows(g, rip);
    MovedOrig(g.start, rip, g.n);
    MovedOrig(g.accept, rip, g.n);
  }

  /** An accepting index past the last state stays past it: removal only
      renumbers the last state. */
  lemma RipStateKeepsMissingAccept<A>(g: GNFA<A>, rip: State)
    requires ArrowsInRange(g.arrows, g.n) && rip < g.n && g.accept >= g.n
    ensures RipState(g, rip).value.accept == g.accept
  {
  }

  /** Ripping a state other than the start and accepting ones keeps the start
      state a source and the accepting state a sink. */
  lemma RipStateShape<A>(g: GNFA<A>, rip: State)
    requires Valid(g) && rip < g.n && rip != g.start && rip != g.accept
    ensures StartIsSource(g) ==> StartIsSource(RipState(g, rip).value)
    ensures AcceptIsSink(g) ==> AcceptIsSink(RipState(g, rip).value)
  {
    RipStateArrows(g, rip);
    RipStateEnds(g, rip);
    var g' := RipState(g, rip).value;
    forall k | k in g'.arrows
      ensures StartIsSource(g) ==> k.1 != g'.start
      ensures AcceptIsSink(g) ==> k.0 != g'.accept
    {
      assert Linked(g.arrows, rip, Orig(k.0, rip, g.n), Orig(k.1, rip, g.n));
    }
  }

  // ----- start_to_end -----

  /** `start_to_end`: the label of the arrow from the start to the accepting
      state; the source's `unwrap` panics when there is none. */
  function StartToEnd<A>(g: GNFA<A>): (res: Result<RegExp<A>>)
    ensures res.Ok? <==> (g.start, g.accept) in g.arrows
    ensures res.Ok? ==> res.value == g.arrows[(g.start, g.accept)]
  {
    if (g.start, g.accept) in g.arrows then Ok(g.arrows[(g.start, g.accept)]) else Panic(MissingEntry)
  }
}
