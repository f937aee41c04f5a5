/** `GNFA::reduce`, and the conversion of one function's control-flow graph
    into a regular expression: `from_cfg`, then `reduce`, then
    `start_to_end`. This stands for the conversion `convert_cfgs` in
    `src/path_reduction.rs` performs per function, which builds its GNFA with
    `from_intern_cfg` instead of `from_cfg`.
 */
module ConvertReduce {
  import opened Wrappers
  import opened Re
  import opened Convert
  import opened ConvertLanguage
  import Graphs

  /** `reduce`: rip states until only two remain. Each ripped state is
      neither the start nor the accepting one, so the accepted language and
      the shape of the start and accepting states are kept. */
  method Reduce<A>(g0: GNFA<A>) returns (g: GNFA<A>)
    requires ArrowsInRange(g0.arrows, g0.n)
    ensures g.n == if g0.n > 2 then 2 else g0.n
    ensures ArrowsInRange(g.arrows, g.n)
    ensures g0.accept >= g0.n ==> g.accept >= g.n
    ensures Valid(g0) ==> Valid(g) && (g.start == g.accept <==> g0.start == g0.accept)
    ensures Valid(g0) ==> forall w :: Accepts(g0, w) <==> Accepts(g, w)
    ensures Valid(g0) && StartIsSource(g0) ==> StartIsSource(g)
    ensures Valid(g0) && AcceptIsSink(g0) ==> AcceptIsSink(g)
    ensures ProductiveLabels(g0.arrows) ==> ProductiveLabels(g.arrows)
  {
    g := g0;
    ghost var wellFormed := Valid(g0);
    ghost var productive := ProductiveLabels(g0.arrows);
    while g.n > 2
      invariant ArrowsInRange(g.arrows, g.n)
      invariant g.n == g0.n || (g0.n > 2 && g.n >= 2)
      invariant g0.accept >= g0.n ==> g.accept >= g.n
      invariant wellFormed ==> Valid(g) && (g.start == g.accept <==> g0.start == g0.accept)
      invariant wellFormed ==> forall w :: Accepts(g0, w) <==> Accepts(g, w)
      invariant wellFormed && StartIsSource(g0) ==> StartIsSource(g)
      invariant wellFormed && AcceptIsSink(g0) ==> AcceptIsSink(g)
      invariant productive ==> ProductiveLabels(g.arrows)
      decreases g.n
    {
      NextToRipSucceeds(g);
      var rip := NextToRip(g).value;
      RipStateArrows(g, rip);
      if g.accept >= g.n {
        RipStateKeepsMissingAccept(g, rip);
      }
      if productive {
        RipStateProductive(g, rip);
      }
      if wellFormed {
        RipStateEnds(g, rip);
        RipStateShape(g, rip);
        RipStateKeepsLanguage(g, rip);
      }
      g := RipState(g, rip).value;
    }
  }

  /** One function of `convert_cfgs`: the regular expression of its
      control-flow graph. When `exit` has no successors the expression
      denotes exactly the execution paths from `entry` to `exit`, and
      `start_to_end` panics exactly when there are none. A missing entry or
      exit panics. */
  method CfgToRegExp<A>(g: Graphs.Graph<A>, entry: State, exit: State) returns (res: Result<RegExp<A>>)
    requires Graphs.ValidGraph(g)
    ensures entry >= |g.nodes| ==> res.Panic? && res.reason == MissingEntry
    ensures entry < |g.nodes| && exit >= |g.nodes| ==> res.Panic? && res.reason == MissingEntry
    ensures entry < |g.nodes| && exit < |g.nodes| && Graphs.NoSuccessor(g, exit) ==>
      (res.Ok? <==> exists w :: ExecutionPath(g, entry, exit, w))
    ensures entry < |g.nodes| && exit < |g.nodes| && Graphs.NoSuccessor(g, exit) && res.Ok? ==>
      forall w :: Matches(res.value, w) <==> ExecutionPath(g, entry, exit, w)
    ensures res.Ok? ==> StarsProductive(res.value) && !Nullable(res.value)
  {
    var built := FromCfg(g, entry, exit);
    if built.Panic? {
      return Panic(built.reason);
    }
    var g0 := built.value;
    FromCfgProductive(g, entry, exit);
    var reduced := Reduce(g0);
    res := StartToEnd(reduced);
    if exit >= |g.nodes| {
      assert (reduced.start, reduced.accept) !in reduced.arrows;
    }
    if exit < |g.nodes| && Graphs.NoSuccessor(g, exit) {
      forall w
        ensures Accepts(reduced, w) <==> res.Ok? && Matches(res.value, w)
        ensures Accepts(g0, w) <==> ExecutionPath(g, entry, exit, w)
      {
        StartToEndLanguage(reduced, w);
        FromCfgLanguage(g, entry, exit, w);
      }
      if res.Ok? {
        var w := SomeWord(res.value);
        assert ExecutionPath(g, entry, exit, w);
      }
      if w :| ExecutionPath(g, entry, exit, w) {
        assert Accepts(reduced, w);
      }
    }
  }
}
