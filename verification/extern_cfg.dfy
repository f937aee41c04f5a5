/** The external C control-flow graphs of `src/extern_cfg.rs`: a depth-first
    traversal of the blocks reachable from a function's entry block, and the
    graph built from it.

    The block table is a sequence indexed by block id; a block's `calls` is
    the id of the function a call block calls, and -1 for any other block.
 */
module ExternCfg {
  import opened Wrappers
  import opened Graphs

  datatype BlockEntry = BlockEntry(calls: FunID, successors: seq<BlockID>)

  /** A function of the external program: its entry and exit blocks (its name
      is not modelled). */
  datatype CfgEntry = CfgEntry(entry: BlockID, exit: BlockID)

  /** `blocks.get(b as usize)` finds a block: a negative id becomes a huge
      index and misses too. */
  predicate InRange(blocks: seq<BlockEntry>, b: BlockID) {
    0 <= b < |blocks|
  }

  // ----- reachability -----

  /** Block `b` exists and lists `s` among its successors. */
  predicate Step(blocks: seq<BlockEntry>, b: BlockID, s: BlockID) {
    InRange(blocks, b) && s in blocks[b].successors
  }

  /** `p` follows successor lists from block to block. */
  ghost predicate IsWalk(blocks: seq<BlockEntry>, p: seq<BlockID>) {
    |p| > 0 && forall i :: 0 <= i < |p| - 1 ==> Step(blocks, p[i], p[i + 1])
  }

  ghost predicate Reachable(blocks: seq<BlockEntry>, entry: BlockID, b: BlockID) {
    exists p :: IsWalk(blocks, p) && p[0] == entry && p[|p| - 1] == b
  }

  lemma ReachableEntry(blocks: seq<BlockEntry>, entry: BlockID)
    ensures Reachable(blocks, entry, entry)
  {
    assert IsWalk(blocks, [entry]);
  }

  lemma ReachableStep(blocks: seq<BlockEntry>, entry: BlockID, b: BlockID, s: BlockID)
    requires Reachable(blocks, entry, b) && InRange(blocks, b) && s in blocks[b].successors
    ensures Reachable(blocks, entry, s)
  {
    var p :| IsWalk(blocks, p) && p[0] == entry && p[|p| - 1] == b;
    var p' := p + [s];
    assert IsWalk(blocks, p');
  }

  /** A set holding `entry` and closed under successors holds every block
      reachable from `entry`. */
  lemma ClosedHoldsReachable(blocks: seq<BlockEntry>, entry: BlockID, s: set<BlockID>)
    requires entry in s
    requires forall v :: v in s ==> InRange(blocks, v) && forall x :: x in blocks[v].successors ==> x in s
    ensures forall b :: Reachable(blocks, entry, b) ==> b in s
  {
    forall b | Reachable(blocks, entry, b)
      ensures b in s
    {
      var p :| IsWalk(blocks, p) && p[0] == entry && p[|p| - 1] == b;
      WalkStaysIn(blocks, p, s);
    }
  }

  lemma {:induction false} WalkStaysIn(blocks: seq<BlockEntry>, p: seq<BlockID>, s: set<BlockID>)
    requires IsWalk(blocks, p) && p[0] in s
    requires forall v :: v in s ==> InRange(blocks, v) && forall x :: x in blocks[v].successors ==> x in s
    ensures forall i :: 0 <= i < |p| ==> p[i] in s
    decreases |p|
  {
    if |p| > 1 {
      var q := p[..|p| - 1];
      assert IsWalk(blocks, q);
      WalkStaysIn(blocks, q, s);
      assert p[|p| - 2] in s;
    }
  }

  // ----- the DFS iterator -----

  /** The worklist (its top is the last element) and the visited set. */
  datatype Dfs = Dfs(toVisit: seq<BlockID>, visited: set<BlockID>)

  /** What the traversal from `entry` keeps: everything scheduled or visited
      is reachable, every visited block exists, and the successors of every
      visited block are visited or still scheduled; `entry` is one or the other. */
  ghost predicate Invariant(blocks: seq<BlockEntry>, entry: BlockID, d: Dfs) {
    (entry in d.visited || entry in d.toVisit) &&
    (forall b :: b in d.toVisit ==> Reachable(blocks, entry, b)) &&
    (forall v :: v in d.visited ==> Reachable(blocks, entry, v) && InRange(blocks, v)) &&
    (forall v :: v in d.visited ==> forall x :: x in blocks[v].successors ==> x in d.visited || x in d.toVisit)
  }

  /** `DFS::new`: only `entry` is scheduled, nothing is visited; the
      traversal invariant holds from the start. */
  function NewDfs(blocks: seq<BlockEntry>, entry: BlockID): (d: Dfs)
    ensures Invariant(blocks, entry, d)
    ensures |d.toVisit| == 1 && d.visited == {}
  {
    ReachableEntry(blocks, entry);
    Dfs([entry], {})
  }

  /** `get_next_unvisited`: pop scheduled blocks until one is not yet
      visited. The popped visited blocks are dropped; `None` only once the
      worklist is empty. */
  function GetNextUnvisited(d: Dfs): (res: (Option<BlockID>, Dfs))
    ensures res.1.visited == d.visited
    ensures res.0.None? ==> res.1.toVisit == [] && forall b :: b in d.toVisit ==> b in d.visited
    ensures res.0.Some? ==>
      var k := |res.1.toVisit|;
      k < |d.toVisit| && res.1.toVisit == d.toVisit[..k] && d.toVisit[k] == res.0.value &&
      res.0.value !in d.visited &&
      forall i :: k < i < |d.toVisit| ==> d.toVisit[i] in d.visited
    decreases |d.toVisit|
  {
    if |d.toVisit| == 0 then (None, d)
    else
      var top := d.toVisit[|d.toVisit| - 1];
      var popped := Dfs(d.toVisit[..|d.toVisit| - 1], d.visited);
      if top !in d.visited then (Some(top), popped)
      else
        var res := GetNextUnvisited(popped);
        assert forall b :: b in d.toVisit ==> b in popped.toVisit || b == top;
        res
  }

  /** `Iterator::next` for the traversal: mark the next unvisited block
      visited and schedule its successors in order. Looking up a block that
      does not exist panics. */
  function Next(blocks: seq<BlockEntry>, d: Dfs): (res: Result<(Option<BlockID>, Dfs)>)
    ensures res.Panic? <==> GetNextUnvisited(d).0.Some? && !InRange(blocks, GetNextUnvisited(d).0.value)
    ensures res.Panic? ==> res.reason == IndexOutOfRange
    ensures res.Ok? && res.value.0.None? ==> res.value.1.toVisit == [] && res.value.1.visited == d.visited
    ensures res.Ok? && res.value.0.Some? ==>
      var b := res.value.0.value;
      b in d.toVisit && b !in d.visited && InRange(blocks, b) &&
      res.value.1.visited == d.visited + {b} &&
      res.value.1.toVisit == GetNextUnvisited(d).1.toVisit + blocks[b].successors
  {
    var (next, popped) := GetNextUnvisited(d);
    match next
    case None => Ok((None, popped))
    case Some(b) =>
      if !InRange(blocks, b) then Panic(IndexOutOfRange)
      else Ok((Some(b), Dfs(popped.toVisit + blocks[b].successors, popped.visited + {b})))
  }

  /** Each step of the traversal keeps its invariant. */
  lemma NextKeepsInvariant(blocks: seq<BlockEntry>, entry: BlockID, d: Dfs)
    requires Invariant(blocks, entry, d) && Next(blocks, d).Ok?
    ensures Invariant(blocks, entry, Next(blocks, d).value.1)
  {
    var (next, popped) := GetNextUnvisited(d);
    var d' := Next(blocks, d).value.1;
    var k := |popped.toVisit|;
    assert forall b :: b in popped.toVisit ==> b in d.toVisit;
    assert forall b :: b in d.toVisit ==> b in popped.toVisit || b in d.visited || (next.Some? && b == next.value) by {
      forall b | b in d.toVisit
        ensures b in popped.toVisit || b in d.visited || (next.Some? && b == next.value)
      {
        var i :| 0 <= i < |d.toVisit| && d.toVisit[i] == b;
        if next.Some? && i < k {
          assert popped.toVisit[i] == b;
        }
      }
    }
    if next.Some? {
      var b := next.value;
      forall x | x in blocks[b].successors
        ensures Reachable(blocks, entry, x)
      {
        ReachableStep(blocks, entry, b, x);
      }
      assert forall x :: x in d'.toVisit ==> x in popped.toVisit || x in blocks[b].successors;
    }
  }

  /** The blocks that exist and have not been visited yet. */
  function Unvisited(blocks: seq<BlockEntry>, visited: set<BlockID>): set<BlockID> {
    set b | 0 <= b < |blocks| && b !in visited
  }

  /** The traversal as `get_cfg_with_root` consumes it: the blocks in the
      order the iterator yields them. It panics exactly when some block
      reachable from `entry` does not exist; otherwise it yields `entry`
      first, no block twice, and exactly the reachable blocks. */
  method Traverse(blocks: seq<BlockEntry>, entry: BlockID) returns (res: Result<seq<BlockID>>)
    ensures res.Ok? <==> forall b :: Reachable(blocks, entry, b) ==> InRange(blocks, b)
    ensures res.Panic? ==> res.reason == IndexOutOfRange
    ensures res.Ok? ==> |res.value| > 0 && res.value[0] == entry
    ensures res.Ok? ==> forall i, j :: 0 <= i < j < |res.value| ==> res.value[i] != res.value[j]
    ensures res.Ok? ==> forall b :: b in res.value <==> Reachable(blocks, entry, b)
  {
    var d := NewDfs(blocks, entry);
    var order: seq<BlockID> := [];
    while true
      invariant Invariant(blocks, entry, d)
      invariant forall b :: b in order <==> b in d.visited
      invariant forall i, j :: 0 <= i < j < |order| ==> order[i] != order[j]
      invariant |order| == 0 ==> d.toVisit == [entry] && d.visited == {}
      invariant |order| > 0 ==> order[0] == entry
      decreases Unvisited(blocks, d.visited)
    {
      var step := Next(blocks, d);
      if step.Panic? {
        var b := GetNextUnvisited(d).0.value;
        assert Reachable(blocks, entry, b);
        return Panic(step.reason);
      }
      var (next, d') := step.value;
      NextKeepsInvariant(blocks, entry, d);
      if next.None? {
        ClosedHoldsReachable(blocks, entry, d.visited);
        return Ok(order);
      }
      var b := next.value;
      assert Unvisited(blocks, d'.visited) < Unvisited(blocks, d.visited) by {
        assert b in Unvisited(blocks, d.visited);
      }
      order := order + [b];
      d := d';
    }
  }

  // ----- building the graph -----

  /** The graph of one function: its node weights, edges, and the nodes of
      its entry and exit blocks. */
  datatype RootedCfg = RootedCfg(entry: nat, exit: nat, graph: Graph<Node>)

  /** The node a block becomes: the function it calls for a call block, the
      block itself otherwise. */
  function Weight(blocks: seq<BlockEntry>, b: BlockID): Node
    requires InRange(blocks, b)
  {
    if blocks[b].calls == -1 then Literal(b) else Var(blocks[b].calls)
  }

  predicate AllInRange(blocks: seq<BlockEntry>, ids: seq<BlockID>) {
    forall i :: 0 <= i < |ids| ==> InRange(blocks, ids[i])
  }

  function SuccessorLists(blocks: seq<BlockEntry>, ids: seq<BlockID>): (succs: seq<seq<BlockID>>)
    requires AllInRange(blocks, ids)
    ensures |succs| == |ids| && forall i :: 0 <= i < |ids| ==> succs[i] == blocks[ids[i]].successors
  {
    seq(|ids|, i requires 0 <= i < |ids| => blocks[ids[i]].successors)
  }

  /** `get_cfg_with_root` succeeds: every block reachable from `entry`
      exists, and `exit` is one of them. */
  ghost predicate Buildable(blocks: seq<BlockEntry>, entry: BlockID, exit: BlockID) {
    (forall b :: Reachable(blocks, entry, b) ==> InRange(blocks, b)) && Reachable(blocks, entry, exit)
  }

  /** `cfg` is the graph of the blocks reachable from `entry`, node `k`
      standing for block `ids[k]`: one node per reachable block, labelled by
      `Weight`, the node of `entry` first, and one edge per successor entry. */
  ghost predicate Describes(blocks: seq<BlockEntry>, entry: BlockID, exit: BlockID, cfg: RootedCfg, ids: seq<BlockID>) {
    var g := cfg.graph;
    |ids| == |g.nodes| && Distinct(ids) && AllInRange(blocks, ids) &&
    (forall b :: b in ids <==> Reachable(blocks, entry, b)) &&
    (forall k :: 0 <= k < |ids| ==> g.nodes[k] == Weight(blocks, ids[k])) &&
    |ids| > 0 && cfg.entry == 0 && ids[0] == entry &&
    cfg.exit < |ids| && ids[cfg.exit] == exit &&
    ValidGraph(g) &&
    |g.edges| == TotalLength(SuccessorLists(blocks, ids)) &&
    forall u, v :: 0 <= u < |ids| && 0 <= v < |ids| ==>
      multiset(g.edges)[(u, v)] == multiset(blocks[ids[u]].successors)[ids[v]]
  }

  /** `cfg` is the graph of function `f`, for some numbering of its blocks. */
  ghost predicate GraphOf(blocks: seq<BlockEntry>, entry: BlockID, exit: BlockID, cfg: RootedCfg) {
    exists ids :: Describes(blocks, entry, exit, cfg, ids)
  }

  /** `get_cfg_with_root`: a node for each block the traversal from `entry`
      yields, then the edges of a second, identical traversal. A missing
      block panics during the traversal; an unreachable `exit` has no node
      and its lookup panics. */
  method GetCfgWithRoot(blocks: seq<BlockEntry>, entry: BlockID, exit: BlockID) returns (res: Result<RootedCfg>)
    ensures res.Ok? <==> Buildable(blocks, entry, exit)
    ensures res.Panic? ==>
      res.reason == if forall b :: Reachable(blocks, entry, b) ==> InRange(blocks, b) then MissingEntry else IndexOutOfRange
    ensures res.Ok? ==> GraphOf(blocks, entry, exit, res.value)
  {
    var order := Traverse(blocks, entry);
    if order.Panic? {
      return Panic(order.reason);
    }
    var ids := order.value;
    assert AllInRange(blocks, ids);
    var nodes := seq(|ids|, k requires 0 <= k < |ids| => Weight(blocks, ids[k]));
    var edges := LinkSuccessors(ids, SuccessorLists(blocks, ids));
    if edges.Panic? {
      var k, s :| 0 <= k < |ids| && s in blocks[ids[k]].successors && s !in ids;
      ReachableStep(blocks, entry, ids[k], s);
      assert false;
    }
    if exit !in ids {
      return Panic(MissingEntry);
    }
    var cfg := RootedCfg(0, IndexOf(ids, exit), Graph(nodes, edges.value));
    assert Describes(blocks, entry, exit, cfg, ids);
    return Ok(cfg);
  }

  /** The graphs of the first `n` functions can be built. */
  ghost predicate AllBuildable(blocks: seq<BlockEntry>, cfgs: seq<CfgEntry>, n: nat)
    requires n <= |cfgs|
  {
    forall j :: 0 <= j < n ==> Buildable(blocks, cfgs[j].entry, cfgs[j].exit)
  }

  lemma AllBuildableExtend(blocks: seq<BlockEntry>, cfgs: seq<CfgEntry>, n: nat)
    requires n < |cfgs| && AllBuildable(blocks, cfgs, n)
    requires Buildable(blocks, cfgs[n].entry, cfgs[n].exit)
    ensures AllBuildable(blocks, cfgs, n + 1)
  {
  }

  /** `graphs[j]` is the graph of function `j`, for every `j` it covers. */
  ghost predicate AllGraphs(blocks: seq<BlockEntry>, cfgs: seq<CfgEntry>, graphs: seq<RootedCfg>)
    requires |graphs| <= |cfgs|
  {
    forall j :: 0 <= j < |graphs| ==> GraphOf(blocks, cfgs[j].entry, cfgs[j].exit, graphs[j])
  }

  lemma AllGraphsExtend(blocks: seq<BlockEntry>, cfgs: seq<CfgEntry>, graphs: seq<RootedCfg>, g: RootedCfg)
    requires |graphs| < |cfgs| && AllGraphs(blocks, cfgs, graphs)
    requires GraphOf(blocks, cfgs[|graphs|].entry, cfgs[|graphs|].exit, g)
    ensures AllGraphs(blocks, cfgs, graphs + [g])
  {
    var graphs' := graphs + [g];
    forall j | 0 <= j < |graphs'|
      ensures GraphOf(blocks, cfgs[j].entry, cfgs[j].exit, graphs'[j])
    {
      if j < |graphs| {
        assert graphs'[j] == graphs[j];
      }
    }
  }

  /** `process_cfgs`: function `i` of the table gets id `i` and the graph of
      its entry and exit blocks; any function whose graph cannot be built
      panics the whole table. */
  method ProcessCfgs(cfgs: seq<CfgEntry>, blocks: seq<BlockEntry>) returns (res: Result<map<FunID, RootedCfg>>)
    ensures res.Ok? <==> forall i :: 0 <= i < |cfgs| ==> Buildable(blocks, cfgs[i].entry, cfgs[i].exit)
    ensures res.Ok? ==> forall f :: f in res.value <==> 0 <= f < |cfgs|
    ensures res.Ok? ==> forall i :: 0 <= i < |cfgs| ==> GraphOf(blocks, cfgs[i].entry, cfgs[i].exit, res.value[i])
  {
    var graphs: seq<RootedCfg> := [];
    while |graphs| < |cfgs|
      invariant |graphs| <= |cfgs|
      invariant AllBuildable(blocks, cfgs, |graphs|)
      invariant AllGraphs(blocks, cfgs, graphs)
    {
      var cfg := GetCfgWithRoot(blocks, cfgs[|graphs|].entry, cfgs[|graphs|].exit);
      if cfg.Panic? {
        return Panic(cfg.reason);
      }
      AllBuildableExtend(blocks, cfgs, |graphs|);
      AllGraphsExtend(blocks, cfgs, graphs, cfg.value);
      graphs := graphs + [cfg.value];
    }
    var table := map f | 0 <= f < |graphs| :: graphs[f];
    assert forall i :: 0 <= i < |cfgs| ==> table[i] == graphs[i];
    return Ok(table);
  }
}
