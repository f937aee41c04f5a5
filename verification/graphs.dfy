/** The graph representation the control-flow-graph builders produce: a
    petgraph `Graph` is modelled by its node weights, indexed from 0 in
    insertion order, and its edges, in insertion order. Edge weights are
    unit and are left out.
 */
module Graphs {
  import opened Wrappers

  type BlockID = int
  type FunID = int

  /** The weight of a control-flow-graph node: an ordinary block, a call
      block standing for the function it calls, or an external node. */
  datatype Node = Literal(block: BlockID) | Var(fun: FunID) | Extern

  datatype Graph<N> = Graph(nodes: seq<N>, edges: seq<(nat, nat)>)

  /** Every edge joins two existing nodes (petgraph panics otherwise). */
  predicate ValidGraph<N>(g: Graph<N>) {
    forall i :: 0 <= i < |g.edges| ==> g.edges[i].0 < |g.nodes| && g.edges[i].1 < |g.nodes|
  }

  /** Node `i` has no outgoing edge. */
  predicate NoSuccessor<N>(g: Graph<N>, i: nat) {
    forall j :: 0 <= j < |g.edges| ==> g.edges[j].0 != i
  }

  // ----- the edge pass shared by both control-flow-graph builders -----

  predicate Distinct(ids: seq<BlockID>) {
    forall i, j :: 0 <= i < j < |ids| ==> ids[i] != ids[j]
  }

  /** The node standing for block `b`, when node `k` stands for `ids[k]`. */
  function IndexOf(ids: seq<BlockID>, b: BlockID): (i: nat)
    requires b in ids
    ensures i < |ids| && ids[i] == b
  {
    if ids[0] == b then 0 else 1 + IndexOf(ids[1..], b)
  }

  /** The number of entries of all successor lists together. */
  function TotalLength(succs: seq<seq<BlockID>>): nat {
    if |succs| == 0 then 0 else TotalLength(succs[..|succs| - 1]) + |succs[|succs| - 1]|
  }

  /** The edges one block adds: one from node `k` for each entry of its
      successor list `succ`, in order; a successor no node stands for is a
      failed lookup. */
  method LinkBlock(ids: seq<BlockID>, k: nat, succ: seq<BlockID>) returns (res: Result<seq<(nat, nat)>>)
    requires Distinct(ids)
    ensures res.Ok? <==> forall s :: s in succ ==> s in ids
    ensures res.Panic? ==> res.reason == MissingEntry
    ensures res.Ok? ==> |res.value| == |succ|
    ensures res.Ok? ==> forall i :: 0 <= i < |res.value| ==> res.value[i].0 == k && res.value[i].1 < |ids|
    ensures res.Ok? ==> forall v :: 0 <= v < |ids| ==> multiset(res.value)[(k, v)] == multiset(succ)[ids[v]]
  {
    var edges: seq<(nat, nat)> := [];
    var j := 0;
    while j < |succ|
      invariant 0 <= j <= |succ|
      invariant forall s :: s in succ[..j] ==> s in ids
      invariant |edges| == j
      invariant forall i :: 0 <= i < |edges| ==> edges[i].0 == k && edges[i].1 < |ids|
      invariant forall v :: 0 <= v < |ids| ==> multiset(edges)[(k, v)] == multiset(succ[..j])[ids[v]]
    {
      var s := succ[j];
      if s !in ids {
        assert s in succ;
        return Panic(MissingEntry);
      }
      var t := IndexOf(ids, s);
      assert succ[..j + 1] == succ[..j] + [s];
      assert multiset(succ[..j + 1]) == multiset(succ[..j]) + multiset{s};
      assert multiset(edges + [(k, t)]) == multiset(edges) + multiset{(k, t)};
      forall v | 0 <= v < |ids|
        ensures multiset(edges + [(k, t)])[(k, v)] == multiset(succ[..j + 1])[ids[v]]
      {
        assert (ids[v] == s) == (v == t);
      }
      edges := edges + [(k, t)];
      j := j + 1;
    }
    assert succ[..j] == succ;
    return Ok(edges);
  }

  /** The second pass of both builders: node `k` stands for block `ids[k]`,
      and each entry of its successor list `succs[k]`, in order, adds one
      edge from `k` to the node of that block. Looking up a successor that no
      node stands for fails. The result holds one edge per successor entry
      (parallel edges included), and nothing else. */
  method LinkSuccessors(ids: seq<BlockID>, succs: seq<seq<BlockID>>) returns (res: Result<seq<(nat, nat)>>)
    requires |ids| == |succs| && Distinct(ids)
    ensures res.Ok? <==> forall k, s :: 0 <= k < |succs| && s in succs[k] ==> s in ids
    ensures res.Panic? ==> res.reason == MissingEntry
    ensures res.Ok? ==> ValidGraph(Graph(ids, res.value))
    ensures res.Ok? ==> |res.value| == TotalLength(succs)
    ensures res.Ok? ==> forall u, v :: 0 <= u < |ids| && 0 <= v < |ids| ==>
      multiset(res.value)[(u, v)] == multiset(succs[u])[ids[v]]
  {
    var edges: seq<(nat, nat)> := [];
    var k := 0;
    while k < |succs|
      invariant 0 <= k <= |succs|
      invariant forall k', s :: 0 <= k' < k && s in succs[k'] ==> s in ids
      invariant forall i :: 0 <= i < |edges| ==> edges[i].0 < k && edges[i].1 < |ids|
      invariant |edges| == TotalLength(succs[..k])
      invariant forall u, v :: 0 <= u < k && 0 <= v < |ids| ==>
        multiset(edges)[(u, v)] == multiset(succs[u])[ids[v]]
    {
      var block := LinkBlock(ids, k, succs[k]);
      if block.Panic? {
        return Panic(block.reason);
      }
      var added := block.value;
      forall u, v | 0 <= u <= k && 0 <= v < |ids|
        ensures multiset(edges + added)[(u, v)] == multiset(succs[u])[ids[v]]
      {
        if u < k {
          assert (u, v) !in added;
        } else {
          assert (u, v) !in edges;
        }
      }
      assert succs[..k + 1][..k] == succs[..k];
      edges := edges + added;
      k := k + 1;
    }
    assert succs[..k] == succs;
    return Ok(edges);
  }
}
