/** The textual control-flow graph of `src/gen_cfg.rs`: a function id and a
    list of block entries, turned into a graph with one node per entry.
 */
module GenCfg {
  import opened Wrappers
  import opened Graphs

  /** A block: its id, the function it calls if it is a call block, and the
      ids of its successor blocks. */
  datatype BlockEntry = BlockEntry(id: BlockID, calls: Option<FunID>, successors: seq<BlockID>)

  datatype Cfg = Cfg(id: FunID, blockEntries: seq<BlockEntry>)

  /** The node a block entry becomes: the function it calls, or itself. */
  function Weight(e: BlockEntry): Node {
    match e.calls
    case Some(f) => Var(f)
    case None => Literal(e.id)
  }

  function Ids(es: seq<BlockEntry>): (ids: seq<BlockID>)
    ensures |ids| == |es| && forall i :: 0 <= i < |es| ==> ids[i] == es[i].id
  {
    seq(|es|, i requires 0 <= i < |es| => es[i].id)
  }

  function SuccessorLists(es: seq<BlockEntry>): (succs: seq<seq<BlockID>>)
    ensures |succs| == |es| && forall i :: 0 <= i < |es| ==> succs[i] == es[i].successors
  {
    seq(|es|, i requires 0 <= i < |es| => es[i].successors)
  }

  /** Every successor of every entry is the id of some entry. */
  predicate Closed(es: seq<BlockEntry>) {
    forall k, s :: 0 <= k < |es| && s in es[k].successors ==> s in Ids(es)
  }

  /** `CFG::new`: node `k` stands for block entry `k`, and every successor
      entry adds one edge between the nodes of the two blocks. It panics on a
      repeated block id and, failing that, on a successor that is not
      declared; the function id is passed through. */
  method New(cfg: Cfg) returns (res: Result<(FunID, Graph<Node>)>)
    ensures res.Ok? <==> Distinct(Ids(cfg.blockEntries)) && Closed(cfg.blockEntries)
    ensures res.Panic? ==>
      res.reason == if Distinct(Ids(cfg.blockEntries)) then MissingEntry else DuplicateEntry
    ensures res.Ok? ==> res.value.0 == cfg.id
    ensures res.Ok? ==> var g := res.value.1;
      |g.nodes| == |cfg.blockEntries| &&
      (forall k :: 0 <= k < |g.nodes| ==> g.nodes[k] == Weight(cfg.blockEntries[k])) &&
      ValidGraph(g) &&
      |g.edges| == TotalLength(SuccessorLists(cfg.blockEntries)) &&
      forall u, v :: 0 <= u < |g.nodes| && 0 <= v < |g.nodes| ==>
        multiset(g.edges)[(u, v)] == multiset(cfg.blockEntries[u].successors)[cfg.blockEntries[v].id]
  {
    var es := cfg.blockEntries;
    var nodes: seq<Node> := [];
    var ids: seq<BlockID> := [];
    var k := 0;
    while k < |es|
      invariant 0 <= k <= |es|
      invariant ids == Ids(es[..k]) && Distinct(ids)
      invariant |nodes| == k && forall i :: 0 <= i < k ==> nodes[i] == Weight(es[i])
    {
      if es[k].id in ids {
        var i :| 0 <= i < k && ids[i] == es[k].id;
        assert Ids(es)[i] == Ids(es)[k];
        return Panic(DuplicateEntry);
      }
      nodes := nodes + [Weight(es[k])];
      ids := ids + [es[k].id];
      k := k + 1;
    }
    assert ids == Ids(es);
    var edges := LinkSuccessors(ids, SuccessorLists(es));
    if edges.Panic? {
      return Panic(edges.reason);
    }
    return Ok((cfg.id, Graph(nodes, edges.value)));
  }
}
