/** The active path reducer (`src/path_reduction.rs`): the per-function tables,
    their construction, and the `k == 42` reduction that walks a flat block
    trace activation by activation, elides recursive re-entries and folds
    loop iterations.
 */
module PathReduction {
  import opened Wrappers
  import opened Seqs
  import opened Graphs

  /** The sentinel of the `firsts` table: no function starts at this block. */
  const NoFun: FunID := -1

  /** The number of slots of the `firsts` and `lasts` tables: block ids must
      lie below it. */
  const TableSize: nat := 1024 * 128

  /** The `k` that selects the simple reduction. */
  const SimpleK: nat := 42

  /** The tables a reducer consults, all indexed or keyed by block id:
      `firsts[b]` is the function whose entry block is `b` (or `NoFun`),
      `lasts[b]` the exit blocks of the function entered at `b`, and
      `loopHeads[b]` the loop heads of the function entered at `b`. */
  datatype Tables = Tables(
    firsts: seq<FunID>,
    lasts: seq<Option<set<BlockID>>>,
    loopHeads: map<BlockID, set<BlockID>>)

  datatype PathReducer = PathReducer(tables: Tables, k: nat)

  /** What one activation leaves behind: its reduced blocks, the unconsumed
      rest of the path, and the set of entry blocks of activations in progress. */
  datatype Walk = Walk(buffer: seq<BlockID>, rest: seq<BlockID>, stack: set<BlockID>)

  // ----- Loop folding -----

  /** Where the last occurrence of `b` sits, counted from the end of `buffer`. */
  function RevPosition(buffer: seq<BlockID>, b: BlockID): (r: Option<nat>)
    ensures r.None? <==> b !in buffer
    ensures r.Some? ==> r.value < |buffer| && buffer[|buffer| - 1 - r.value] == b
    ensures r.Some? ==> forall j :: |buffer| - 1 - r.value < j < |buffer| ==> buffer[j] != b
  {
    if |buffer| == 0 then None
    else if buffer[|buffer| - 1] == b then Some(0)
    else
      match RevPosition(buffer[..|buffer| - 1], b)
      case None => None
      case Some(p) => Some(p + 1)
  }

  /** The source's `foo` as written: when `block` occurs in the buffer,
      truncate the buffer to the position of its last occurrence counted
      from the END of the buffer; otherwise leave the buffer alone. The
      length passed to the truncation is a reverse index, so the cut lands
      elsewhere than just before that occurrence unless as many blocks
      precede the occurrence as follow it (see `FooIntended`). The
      reduction below calls this definition, as the source does. */
  function FooAsWritten(buffer: seq<BlockID>, block: BlockID): (r: seq<BlockID>)
    ensures |r| <= |buffer| && r == buffer[..|r|]
    ensures block !in buffer ==> r == buffer
    ensures block in buffer ==>
      exists i :: 0 <= i < |buffer| && buffer[i] == block &&
        (forall j :: i < j < |buffer| ==> buffer[j] != block) &&
        |r| == |buffer| - 1 - i
  {
    match RevPosition(buffer, block)
    case None => buffer
    case Some(pos) => buffer[..pos]
  }

  /** The loop fold `foo` evidently means: cut the buffer just before the
      last occurrence of `block`, so that recording the loop head again
      drops the iteration just completed. */
  function FooIntended(buffer: seq<BlockID>, block: BlockID): (r: seq<BlockID>)
    ensures |r| <= |buffer| && r == buffer[..|r|]
    ensures block !in buffer ==> r == buffer
    ensures block in buffer ==>
      |r| < |buffer| && buffer[|r|] == block &&
      forall j :: |r| < j < |buffer| ==> buffer[j] != block
  {
    match RevPosition(buffer, block)
    case None => buffer
    case Some(pos) => buffer[..|buffer| - 1 - pos]
  }

  // ----- The simple reduction -----

  /** `simple_reduce_one_fun`: reduce the activation that starts at the head
      of `path`. In skip mode nothing is recorded. */
  function ReduceOneFun(t: Tables, path: seq<BlockID>, stack: set<BlockID>, skip: bool): (res: Result<Walk>)
    ensures res.Ok? ==> IsSuffix(res.value.rest, path)
    ensures res.Ok? && |path| > 0 ==> |res.value.rest| < |path|
    ensures |path| == 0 ==> res == Ok(Walk([], [], stack))
    ensures res.Ok? && skip ==> res.value.buffer == [] && stack <= res.value.stack
    ensures res.Ok? ==> Subseq(res.value.buffer, Consumed(path, res.value.rest))
    decreases |path|, 0
  {
    if |path| == 0 then Ok(Walk([], path, stack))
    else
      var first := path[0];
      if first !in t.loopHeads then Panic(MissingEntry)
      else if !(0 <= first < |t.lasts|) then Panic(IndexOutOfRange)
      else if t.lasts[first].None? then Panic(MissingEntry)
      else
        var heads := t.loopHeads[first];
        var lasts := t.lasts[first].value;
        var stack1 := stack + {first};
        var buffer := if skip then [] else [first];
        if first in lasts then
          // a one-block function returns straight away
          SubseqRefl(buffer);
          Ok(Walk(buffer, path[1..], if skip then stack1 else stack1 - {first}))
        else
          var res := Body(t, first, lasts, heads, path[1..], stack1, skip, buffer);
          if res.Ok? then
            assert [first] + Consumed(path[1..], res.value.rest) == Consumed(path, res.value.rest);
            res
          else res
  }

  /** The loop of `simple_reduce_one_fun`, after the entry block `first` has
      been read: consume blocks until an exit block of the activation. */
  function Body(t: Tables, first: BlockID, lasts: set<BlockID>, heads: set<BlockID>,
                path: seq<BlockID>, stack: set<BlockID>, skip: bool, buffer: seq<BlockID>): (res: Result<Walk>)
    ensures res.Ok? ==> IsSuffix(res.value.rest, path)
    ensures res.Ok? && skip && buffer == [] ==> res.value.buffer == []
    ensures res.Ok? && skip ==> stack <= res.value.stack
    ensures res.Ok? ==> Subseq(res.value.buffer, buffer + Consumed(path, res.value.rest))
    decreases |path|, 1
  {
    if |path| == 0 then
      SubseqRefl(buffer);
      assert buffer + Consumed(path, path) == buffer;
      Ok(Walk(buffer, path, stack))
    else
      var block := path[0];
      if !(0 <= block < |t.firsts|) then Panic(IndexOutOfRange)
      else if t.firsts[block] != NoFun then
        // `block` starts a call
        if skip || block in stack then
          // a recursive re-entry (or anything while skipping) is consumed silently
          var w :- ReduceOneFun(t, path, stack, true);
          var res := Body(t, first, lasts, heads, w.rest, w.stack, skip, buffer);
          if res.Ok? then
            assert buffer + [] == buffer;
            Step(buffer, path, w.rest, res.value.rest, [], res.value.buffer);
            res
          else res
        else
          var w :- ReduceOneFun(t, path, stack, skip);
          var res := Body(t, first, lasts, heads, w.rest, w.stack, skip, buffer + w.buffer);
          if res.Ok? then
            Step(buffer, path, w.rest, res.value.rest, w.buffer, res.value.buffer);
            res
          else res
      else if block in lasts then
        // the end of the current activation
        if !skip then
          SubseqRefl(buffer + [block]);
          assert Consumed(path, path[1..]) == [block];
          assert buffer + [block] + Consumed(path[1..], path[1..]) == buffer + [block];
          Step(buffer, path, path[1..], path[1..], [block], buffer + [block]);
          Ok(Walk(buffer + [block], path[1..], stack - {first}))
        else
          SubseqRefl(buffer);
          assert buffer + [] + Consumed(path[1..], path[1..]) == buffer;
          Step(buffer, path, path[1..], path[1..], [], buffer);
          Ok(Walk(buffer, path[1..], stack))
      else if skip then
        var res := Body(t, first, lasts, heads, path[1..], stack, skip, buffer);
        if res.Ok? then
          assert buffer + [] == buffer;
          Step(buffer, path, path[1..], res.value.rest, [], res.value.buffer);
          res
        else res
      else if block !in heads then
        var res := Body(t, first, lasts, heads, path[1..], stack, skip, buffer + [block]);
        if res.Ok? then
          SubseqRefl([block]);
          assert Consumed(path, path[1..]) == [block];
          Step(buffer, path, path[1..], res.value.rest, [block], res.value.buffer);
          res
        else res
      else
        // a loop head: fold the buffer back before recording it again
        var folded := FooAsWritten(buffer, block);
        var res := Body(t, first, lasts, heads, path[1..], stack, skip, folded + [block]);
        if res.Ok? then
          FoldStep(buffer, folded, block, path, res.value.rest, res.value.buffer);
          res
        else res
  }

  /** One step of the activation loop keeps the buffer a subsequence of the
      blocks consumed so far: `mid` is the rest after the step, which added
      `added` (drawn from the consumed blocks) to the buffer. */
  lemma Step(buffer: seq<BlockID>, path: seq<BlockID>, mid: seq<BlockID>, rest: seq<BlockID>,
             added: seq<BlockID>, out: seq<BlockID>)
    requires IsSuffix(mid, path) && IsSuffix(rest, mid)
    requires Subseq(added, Consumed(path, mid))
    requires Subseq(out, buffer + added + Consumed(mid, rest))
    ensures IsSuffix(rest, path)
    ensures Subseq(out, buffer + Consumed(path, rest))
  {
    var c1 := Consumed(path, mid);
    var c2 := Consumed(mid, rest);
    ConsumedChain(path, mid, rest);
    SubseqRefl(buffer);
    SubseqConcat(buffer, buffer, added, c1);
    SubseqRefl(c2);
    SubseqConcat(buffer + added, buffer + c1, c2, c2);
    assert buffer + c1 + c2 == buffer + Consumed(path, rest);
    SubseqTrans(out, buffer + added + c2, buffer + Consumed(path, rest));
  }

  /** The loop-head step: the folded buffer is a prefix of the old one. */
  lemma FoldStep(buffer: seq<BlockID>, folded: seq<BlockID>, block: BlockID,
                 path: seq<BlockID>, rest: seq<BlockID>, out: seq<BlockID>)
    requires |path| > 0 && path[0] == block
    requires |folded| <= |buffer| && folded == buffer[..|folded|]
    requires IsSuffix(rest, path[1..])
    requires Subseq(out, folded + [block] + Consumed(path[1..], rest))
    ensures IsSuffix(rest, path)
    ensures Subseq(out, buffer + Consumed(path, rest))
  {
    var c := Consumed(path[1..], rest);
    ConsumedHead(path, rest);
    Regroup3(buffer, [block], c);
    PrefixIsSubseq(buffer, |folded|);
    SubseqAppend(folded, buffer, block);
    SubseqRefl(c);
    SubseqConcat(folded + [block], buffer + [block], c, c);
    SubseqTrans(out, folded + [block] + c, buffer + Consumed(path, rest));
  }

  /** `simple_reduce`: reduce activation after activation, each with a fresh
      stack, until the path is used up. */
  function SimpleReduce(t: Tables, path: seq<BlockID>): (res: Result<seq<BlockID>>)
    ensures res.Ok? ==> Subseq(res.value, path)
    decreases |path|
  {
    if |path| == 0 then Ok([])
    else
      var w :- ReduceOneFun(t, path, {}, false);
      var r :- SimpleReduce(t, w.rest);
      assert path == Consumed(path, w.rest) + w.rest;
      SubseqConcat(w.buffer, Consumed(path, w.rest), r, w.rest);
      Ok(w.buffer + r)
  }

  /** `PathReducer::reduce`: `k == 42` selects the simple reduction; otherwise
      an empty path reduces to the empty path before any table is consulted,
      and any other path reaches the unimplemented general reduction. */
  function ReducePath(r: PathReducer, path: seq<BlockID>, entryFun: FunID): (res: Result<seq<BlockID>>)
    ensures r.k == SimpleK ==> res == SimpleReduce(r.tables, path)
    ensures r.k != SimpleK ==> (res.Ok? <==> |path| == 0)
    ensures res.Ok? ==> Subseq(res.value, path)
  {
    if r.k == SimpleK then SimpleReduce(r.tables, path)
    else if |path| == 0 then Ok([])
    else if !(0 <= path[0] < |r.tables.firsts|) then Panic(MissingEntry)
    else Panic(Unimplemented)
  }

  // ----- Building the tables -----

  /** A function's control-flow graph as the reducer's constructor sees it:
      `id` is its function id, the node weights are block ids, `entry` is the
      entry node and `heads` its loop heads (found outside this model). */
  datatype FunCfg = FunCfg(id: FunID, graph: Graph<BlockID>, entry: nat, heads: set<BlockID>)

  predicate EntryValid(c: FunCfg) {
    c.entry < |c.graph.nodes|
  }

  predicate AllEntriesValid(cfgs: seq<FunCfg>) {
    forall i :: 0 <= i < |cfgs| ==> EntryValid(cfgs[i])
  }

  /** The function's entry block. */
  function First(c: FunCfg): BlockID
    requires EntryValid(c)
  {
    c.graph.nodes[c.entry]
  }

  /** The blocks of the nodes without successors: the function's exits. */
  function ExitBlocks(g: Graph<BlockID>): set<BlockID> {
    set i: nat | i < |g.nodes| && NoSuccessor(g, i) :: g.nodes[i]
  }

  /** Every entry block fits in a table of `size` slots. */
  predicate FirstsInRange(cfgs: seq<FunCfg>, size: nat)
    requires AllEntriesValid(cfgs)
  {
    forall i :: 0 <= i < |cfgs| ==> 0 <= First(cfgs[i]) < size
  }

  /** No two functions share an entry block. */
  predicate DistinctFirsts(cfgs: seq<FunCfg>)
    requires AllEntriesValid(cfgs)
  {
    forall i, j :: 0 <= i < j < |cfgs| ==> First(cfgs[i]) != First(cfgs[j])
  }

  /** No function id is the table's own sentinel. */
  predicate NoSentinelIds(cfgs: seq<FunCfg>) {
    forall i :: 0 <= i < |cfgs| ==> cfgs[i].id != NoFun
  }

  /** The loop of `last_map`: record each function's exits at its entry block. */
  function FillLasts(cfgs: seq<FunCfg>, table: seq<Option<set<BlockID>>>): (res: Result<seq<Option<set<BlockID>>>>)
    ensures res.Ok? <==> AllEntriesValid(cfgs) && FirstsInRange(cfgs, |table|)
    ensures res.Ok? ==> |res.value| == |table|
    ensures res.Ok? ==> forall i :: (0 <= i < |cfgs| &&
      (forall j :: i < j < |cfgs| ==> First(cfgs[j]) != First(cfgs[i]))) ==>
        res.value[First(cfgs[i])] == Some(ExitBlocks(cfgs[i].graph))
    ensures res.Ok? ==> forall b :: (0 <= b < |table| &&
      (forall i :: 0 <= i < |cfgs| ==> First(cfgs[i]) != b)) ==> res.value[b] == table[b]
    decreases |cfgs|
  {
    if |cfgs| == 0 then Ok(table)
    else
      var c := cfgs[0];
      if !EntryValid(c) then Panic(MissingEntry)
      else if !(0 <= First(c) < |table|) then Panic(IndexOutOfRange)
      else
        var rest := cfgs[1..];
        assert forall i :: 1 <= i < |cfgs| ==> cfgs[i] == rest[i - 1];
        assert AllEntriesValid(cfgs) <==> AllEntriesValid(rest);
        assert AllEntriesValid(rest) ==>
          (FirstsInRange(cfgs, |table|) <==> FirstsInRange(rest, |table|));
        FillLasts(rest, table[First(c) := Some(ExitBlocks(c.graph))])
  }

  /** `last_map`: a table of `TableSize` slots holding, at each function's
      entry block, the set of its exit blocks. */
  function LastMap(cfgs: seq<FunCfg>): (res: Result<seq<Option<set<BlockID>>>>)
    ensures res.Ok? <==> AllEntriesValid(cfgs) && FirstsInRange(cfgs, TableSize)
    ensures res.Ok? ==> |res.value| == TableSize
    ensures res.Ok? && DistinctFirsts(cfgs) ==> forall i :: 0 <= i < |cfgs| ==>
      res.value[First(cfgs[i])] == Some(ExitBlocks(cfgs[i].graph))
    ensures res.Ok? ==> forall b :: (0 <= b < TableSize &&
      (forall i :: 0 <= i < |cfgs| ==> First(cfgs[i]) != b)) ==> res.value[b] == None
  {
    FillLasts(cfgs, seq(TableSize, _ => None))
  }

  /** The loop of `from_cfgs` that fills the `firsts` table, panicking when a
      slot is already taken. */
  function FillFirsts(cfgs: seq<FunCfg>, table: seq<FunID>): (res: Result<seq<FunID>>)
    requires AllEntriesValid(cfgs)
    ensures res.Ok? ==> FirstsInRange(cfgs, |table|) && |res.value| == |table|
    ensures res.Ok? ==> forall i :: 0 <= i < |cfgs| ==> table[First(cfgs[i])] == NoFun
    ensures res.Ok? ==> forall b :: (0 <= b < |table| &&
      (forall i :: 0 <= i < |cfgs| ==> First(cfgs[i]) != b)) ==> res.value[b] == table[b]
    ensures res.Ok? && NoSentinelIds(cfgs) ==>
      forall i :: 0 <= i < |cfgs| ==> res.value[First(cfgs[i])] == cfgs[i].id
    ensures res.Ok? && NoSentinelIds(cfgs) ==> DistinctFirsts(cfgs)
    decreases |cfgs|
  {
    if |cfgs| == 0 then Ok(table)
    else
      var c := cfgs[0];
      var first := First(c);
      if !(0 <= first < |table|) then Panic(IndexOutOfRange)
      else
        var old_fun_id := table[first];
        if old_fun_id != NoFun then Panic(DuplicateEntry)
        else
          var res := FillFirsts(cfgs[1..], table[first := c.id]);
          assert forall i :: 1 <= i < |cfgs| ==> cfgs[i] == cfgs[1..][i - 1];
          res
  }

  /** The `firsts` table of `from_cfgs`: `TableSize` slots naming, at each
      function's entry block, that function, and `NoFun` elsewhere. Two
      functions with the same entry block panic. */
  function FirstsMap(cfgs: seq<FunCfg>): (res: Result<seq<FunID>>)
    requires AllEntriesValid(cfgs) && NoSentinelIds(cfgs)
    ensures res.Ok? <==> FirstsInRange(cfgs, TableSize) && DistinctFirsts(cfgs)
    ensures res.Ok? ==> |res.value| == TableSize
    ensures res.Ok? ==> forall i :: 0 <= i < |cfgs| ==> res.value[First(cfgs[i])] == cfgs[i].id
    ensures res.Ok? ==> forall b :: (0 <= b < TableSize &&
      (forall i :: 0 <= i < |cfgs| ==> First(cfgs[i]) != b)) ==> res.value[b] == NoFun
  {
    var empty := seq(TableSize, _ => NoFun);
    assert FirstsInRange(cfgs, TableSize) && DistinctFirsts(cfgs) ==> FillFirsts(cfgs, empty).Ok? by {
      if FirstsInRange(cfgs, TableSize) && DistinctFirsts(cfgs) {
        FillFirstsSucceeds(cfgs, empty);
      }
    }
    FillFirsts(cfgs, empty)
  }

  /** The loop heads of each function, keyed by its entry block. */
  function HeadsMap(cfgs: seq<FunCfg>): (m: map<BlockID, set<BlockID>>)
    requires AllEntriesValid(cfgs) && DistinctFirsts(cfgs)
    ensures forall i :: 0 <= i < |cfgs| ==> First(cfgs[i]) in m && m[First(cfgs[i])] == cfgs[i].heads
    ensures forall b :: b in m ==> exists i :: 0 <= i < |cfgs| && First(cfgs[i]) == b
  {
    map i | 0 <= i < |cfgs| :: First(cfgs[i]) := cfgs[i].heads
  }

  /** The tables describe exactly the functions of `cfgs`: at each entry
      block, the function, its exit blocks and its loop heads; at every other
      block, nothing. */
  ghost predicate TablesFor(cfgs: seq<FunCfg>, t: Tables)
    requires AllEntriesValid(cfgs) && FirstsInRange(cfgs, TableSize)
  {
    |t.firsts| == TableSize && |t.lasts| == TableSize &&
    (forall i :: 0 <= i < |cfgs| ==>
      var b := First(cfgs[i]);
      t.firsts[b] == cfgs[i].id && t.lasts[b] == Some(ExitBlocks(cfgs[i].graph)) &&
      b in t.loopHeads && t.loopHeads[b] == cfgs[i].heads) &&
    (forall b :: (0 <= b < TableSize && (forall i :: 0 <= i < |cfgs| ==> First(cfgs[i]) != b)) ==>
      t.firsts[b] == NoFun && t.lasts[b] == None && b !in t.loopHeads)
  }

  /** `PathReducer::from_cfgs`: the exit table, the entry table and the
      loop-head table, for the functions in iteration order. */
  function FromCfgs(cfgs: seq<FunCfg>, k: nat): (res: Result<PathReducer>)
    requires NoSentinelIds(cfgs)
    ensures res.Ok? <==> AllEntriesValid(cfgs) && FirstsInRange(cfgs, TableSize) && DistinctFirsts(cfgs)
    ensures res.Ok? ==> res.value.k == k && TablesFor(cfgs, res.value.tables)
  {
    var lasts :- LastMap(cfgs);
    var firsts :- FirstsMap(cfgs);
    var t := Tables(firsts, lasts, HeadsMap(cfgs));
    assert TablesFor(cfgs, t);
    Ok(PathReducer(t, k))
  }

  /** The converse of `FillFirsts`'s contract: with in-range, pairwise
      distinct entry blocks whose slots are still free, no panic occurs. */
  lemma {:induction false} FillFirstsSucceeds(cfgs: seq<FunCfg>, table: seq<FunID>)
    requires AllEntriesValid(cfgs) && FirstsInRange(cfgs, |table|) && DistinctFirsts(cfgs)
    requires forall i :: 0 <= i < |cfgs| ==> table[First(cfgs[i])] == NoFun
    ensures FillFirsts(cfgs, table).Ok?
    decreases |cfgs|
  {
    if |cfgs| > 0 {
      var first := First(cfgs[0]);
      var rest := cfgs[1..];
      assert forall i :: 0 <= i < |rest| ==> rest[i] == cfgs[i + 1];
      FillFirstsSucceeds(rest, table[first := cfgs[0].id]);
    }
  }
}
