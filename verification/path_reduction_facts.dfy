/** Properties of the simple path reduction that relate several calls:
    when it cannot panic, what it does to a call-free and loop-free
    activation, what it keeps of its input, and worked traces of loop
    folding and recursion elision. */
module PathReductionFacts {
  import opened Wrappers
  import opened Seqs
  import opened Graphs
  import opened PathReduction

  predicate IsEntry(t: Tables, b: BlockID) {
    0 <= b < |t.firsts| && t.firsts[b] != NoFun
  }

  /** The tables know every block of `path`: each lies within the `firsts`
      table, and each entry block has an exit set and a loop-head set. */
  predicate Covers(t: Tables, path: seq<BlockID>) {
    forall i :: 0 <= i < |path| ==>
      0 <= path[i] < |t.firsts| &&
      (t.firsts[path[i]] != NoFun ==>
         path[i] in t.loopHeads && 0 <= path[i] < |t.lasts| && t.lasts[path[i]].Some?)
  }

  lemma CoversSuffix(t: Tables, path: seq<BlockID>, rest: seq<BlockID>)
    requires Covers(t, path) && IsSuffix(rest, path)
    ensures Covers(t, rest)
  {
    var d := |path| - |rest|;
    assert forall i :: 0 <= i < |rest| ==> rest[i] == path[i + d];
  }

  /** An activation that starts at an entry block, on a path the tables
      cover, never panics. */
  lemma {:induction false} ReduceOneFunNoPanic(t: Tables, path: seq<BlockID>, stack: set<BlockID>, skip: bool)
    requires Covers(t, path)
    requires |path| > 0 ==> IsEntry(t, path[0])
    ensures ReduceOneFun(t, path, stack, skip).Ok?
    decreases |path|, 0
  {
    if |path| > 0 {
      var first := path[0];
      var lasts := t.lasts[first].value;
      if first !in lasts {
        CoversSuffix(t, path, path[1..]);
        var buffer := if skip then [] else [first];
        BodyNoPanic(t, first, lasts, t.loopHeads[first], path[1..], stack + {first}, skip, buffer);
      }
    }
  }

  /** The activation loop never panics on a covered path. */
  lemma {:induction false} BodyNoPanic(t: Tables, first: BlockID, lasts: set<BlockID>, heads: set<BlockID>,
                                       path: seq<BlockID>, stack: set<BlockID>, skip: bool, buffer: seq<BlockID>)
    requires Covers(t, path)
    ensures Body(t, first, lasts, heads, path, stack, skip, buffer).Ok?
    decreases |path|, 1
  {
    if |path| > 0 {
      var block := path[0];
      if t.firsts[block] != NoFun {
        if skip || block in stack {
          ReduceOneFunNoPanic(t, path, stack, true);
          var w := ReduceOneFun(t, path, stack, true).value;
          CoversSuffix(t, path, w.rest);
          BodyNoPanic(t, first, lasts, heads, w.rest, w.stack, skip, buffer);
        } else {
          ReduceOneFunNoPanic(t, path, stack, skip);
          var w := ReduceOneFun(t, path, stack, skip).value;
          CoversSuffix(t, path, w.rest);
          BodyNoPanic(t, first, lasts, heads, w.rest, w.stack, skip, buffer + w.buffer);
        }
      } else if block !in lasts {
        CoversSuffix(t, path, path[1..]);
        if skip {
          BodyNoPanic(t, first, lasts, heads, path[1..], stack, skip, buffer);
        } else if block !in heads {
          BodyNoPanic(t, first, lasts, heads, path[1..], stack, skip, buffer + [block]);
        } else {
          BodyNoPanic(t, first, lasts, heads, path[1..], stack, skip, FooAsWritten(buffer, block) + [block]);
        }
      }
    }
  }

  /** An activation whose entry block is unknown to the loop-head table
      panics before consuming anything. */
  lemma UnknownEntryPanics(t: Tables, path: seq<BlockID>, stack: set<BlockID>, skip: bool)
    requires |path| > 0 && path[0] !in t.loopHeads
    ensures ReduceOneFun(t, path, stack, skip) == Panic(MissingEntry)
  {
  }

  /** What the simple reduction keeps: only blocks of the input, in input
      order, and never more of them. */
  lemma SimpleReduceKeeps(t: Tables, path: seq<BlockID>)
    requires SimpleReduce(t, path).Ok?
    ensures |SimpleReduce(t, path).value| <= |path|
    ensures forall b :: b in SimpleReduce(t, path).value ==> b in path
  {
    SubseqLength(SimpleReduce(t, path).value, path);
    SubseqElements(SimpleReduce(t, path).value, path);
  }

  // ----- Call-free, loop-free activations are copied verbatim -----

  /** Blocks that neither start a call, nor end the activation, nor head a loop. */
  predicate Plain(t: Tables, lasts: set<BlockID>, heads: set<BlockID>, body: seq<BlockID>) {
    forall i :: 0 <= i < |body| ==>
      0 <= body[i] < |t.firsts| && t.firsts[body[i]] == NoFun && body[i] !in lasts && body[i] !in heads
  }

  lemma {:induction false} BodyPlain(t: Tables, first: BlockID, lasts: set<BlockID>, heads: set<BlockID>,
                                     body: seq<BlockID>, exit: BlockID, tail: seq<BlockID>,
                                     stack: set<BlockID>, buffer: seq<BlockID>)
    requires Plain(t, lasts, heads, body)
    requires 0 <= exit < |t.firsts| && t.firsts[exit] == NoFun && exit in lasts
    ensures Body(t, first, lasts, heads, body + [exit] + tail, stack, false, buffer)
         == Ok(Walk(buffer + body + [exit], tail, stack - {first}))
    decreases |body|
  {
    var path := body + [exit] + tail;
    if |body| == 0 {
      assert path == [exit] + tail;
      assert path[1..] == tail;
      assert buffer + body == buffer;
    } else {
      var b := body[0];
      assert path[0] == b && path[1..] == body[1..] + [exit] + tail;
      assert Plain(t, lasts, heads, body[1..]);
      BodyPlain(t, first, lasts, heads, body[1..], exit, tail, stack, buffer + [b]);
      assert buffer + [b] + body[1..] == buffer + body;
    }
  }

  /** An activation that calls nothing and passes no loop head reduces to
      itself, and leaves the stack as it found it (minus its own entry). */
  lemma PlainActivationCopied(t: Tables, first: BlockID, body: seq<BlockID>, exit: BlockID,
                              tail: seq<BlockID>, stack: set<BlockID>)
    requires first in t.loopHeads && 0 <= first < |t.lasts| && t.lasts[first].Some?
    requires first !in t.lasts[first].value
    requires Plain(t, t.lasts[first].value, t.loopHeads[first], body)
    requires 0 <= exit < |t.firsts| && t.firsts[exit] == NoFun && exit in t.lasts[first].value
    ensures ReduceOneFun(t, [first] + body + [exit] + tail, stack, false)
         == Ok(Walk([first] + body + [exit], tail, (stack + {first}) - {first}))
  {
    var path := [first] + body + [exit] + tail;
    assert path[0] == first && path[1..] == body + [exit] + tail;
    BodyPlain(t, first, t.lasts[first].value, t.loopHeads[first], body, exit, tail, stack + {first}, [first]);
  }

  /** A one-block function is recorded as its entry block alone. */
  lemma SingleBlockActivation(t: Tables, path: seq<BlockID>, stack: set<BlockID>)
    requires |path| > 0 && path[0] in t.loopHeads
    requires 0 <= path[0] < |t.lasts| && t.lasts[path[0]].Some? && path[0] in t.lasts[path[0]].value
    ensures ReduceOneFun(t, path, stack, false) == Ok(Walk([path[0]], path[1..], (stack + {path[0]}) - {path[0]}))
    ensures ReduceOneFun(t, path, stack, true) == Ok(Walk([], path[1..], stack + {path[0]}))
  {
  }

  // ----- One step of the activation loop -----

  /** A known entry block that is not its own exit opens the activation loop. */
  lemma EnterStep(t: Tables, path: seq<BlockID>, stack: set<BlockID>, skip: bool)
    requires |path| > 0 && path[0] in t.loopHeads
    requires 0 <= path[0] < |t.lasts| && t.lasts[path[0]].Some? && path[0] !in t.lasts[path[0]].value
    ensures ReduceOneFun(t, path, stack, skip)
         == Body(t, path[0], t.lasts[path[0]].value, t.loopHeads[path[0]], path[1..],
                 stack + {path[0]}, skip, if skip then [] else [path[0]])
  {
  }

  /** A block of the current function that is neither an exit nor a loop
      head: recorded, unless skipping. */
  lemma PlainStep(t: Tables, first: BlockID, lasts: set<BlockID>, heads: set<BlockID>,
                  path: seq<BlockID>, stack: set<BlockID>, skip: bool, buffer: seq<BlockID>)
    requires |path| > 0 && 0 <= path[0] < |t.firsts| && t.firsts[path[0]] == NoFun
    requires path[0] !in lasts && (skip || path[0] !in heads)
    ensures Body(t, first, lasts, heads, path, stack, skip, buffer)
         == Body(t, first, lasts, heads, path[1..], stack, skip, if skip then buffer else buffer + [path[0]])
  {
  }

  /** A loop head outside skip mode: the buffer is folded first. */
  lemma HeadStep(t: Tables, first: BlockID, lasts: set<BlockID>, heads: set<BlockID>,
                 path: seq<BlockID>, stack: set<BlockID>, buffer: seq<BlockID>)
    requires |path| > 0 && 0 <= path[0] < |t.firsts| && t.firsts[path[0]] == NoFun
    requires path[0] !in lasts && path[0] in heads
    ensures Body(t, first, lasts, heads, path, stack, false, buffer)
         == Body(t, first, lasts, heads, path[1..], stack, false, FooAsWritten(buffer, path[0]) + [path[0]])
  {
  }

  /** An exit block ends the activation; outside skip mode it is recorded
      and the activation's entry leaves the stack. */
  lemma ExitStep(t: Tables, first: BlockID, lasts: set<BlockID>, heads: set<BlockID>,
                 path: seq<BlockID>, stack: set<BlockID>, skip: bool, buffer: seq<BlockID>)
    requires |path| > 0 && 0 <= path[0] < |t.firsts| && t.firsts[path[0]] == NoFun && path[0] in lasts
    ensures Body(t, first, lasts, heads, path, stack, skip, buffer)
         == Ok(Walk(if skip then buffer else buffer + [path[0]], path[1..],
                    if skip then stack else stack - {first}))
  {
  }

  /** A call into a function already on the stack (or any call while
      skipping) is walked in skip mode and leaves the buffer alone. */
  lemma ReentryStep(t: Tables, first: BlockID, lasts: set<BlockID>, heads: set<BlockID>,
                    path: seq<BlockID>, stack: set<BlockID>, skip: bool, buffer: seq<BlockID>, w: Walk)
    requires |path| > 0 && 0 <= path[0] < |t.firsts| && t.firsts[path[0]] != NoFun
    requires skip || path[0] in stack
    requires ReduceOneFun(t, path, stack, true) == Ok(w)
    ensures Body(t, first, lasts, heads, path, stack, skip, buffer)
         == Body(t, first, lasts, heads, w.rest, w.stack, skip, buffer)
  {
  }

  /** A call into a function not on the stack appends its reduced activation. */
  lemma CallStep(t: Tables, first: BlockID, lasts: set<BlockID>, heads: set<BlockID>,
                 path: seq<BlockID>, stack: set<BlockID>, buffer: seq<BlockID>, w: Walk)
    requires |path| > 0 && 0 <= path[0] < |t.firsts| && t.firsts[path[0]] != NoFun
    requires path[0] !in stack
    requires ReduceOneFun(t, path, stack, false) == Ok(w)
    ensures Body(t, first, lasts, heads, path, stack, false, buffer)
         == Body(t, first, lasts, heads, w.rest, w.stack, false, buffer + w.buffer)
  {
  }

  /** The reduction of a path that one activation uses up entirely. */
  lemma SimpleReduceOne(t: Tables, path: seq<BlockID>, buffer: seq<BlockID>, stack: set<BlockID>)
    requires |path| > 0 && ReduceOneFun(t, path, {}, false) == Ok(Walk(buffer, [], stack))
    ensures SimpleReduce(t, path) == Ok(buffer)
  {
    assert buffer + [] == buffer;
  }

  // ----- Worked traces -----

  /** `res` is the walk with these three components. */
  predicate Yields(res: Result<Walk>, buffer: seq<BlockID>, rest: seq<BlockID>, stack: set<BlockID>) {
    res.Ok? && res.value.buffer == buffer && res.value.rest == rest && res.value.stack == stack
  }

  /** One function, entered at block 0 and left at block 3, whose loop is
      headed by block 1. */
  function LoopTables(): Tables {
    Tables([7, NoFun, NoFun, NoFun], [Some({3}), None, None, None], map[0 := {1}])
  }

  // The trace `0 1 2 1 3` through `LoopTables`, one step per lemma, last step first.

  lemma LoopTraceExit(t: Tables)
    requires t == LoopTables()
    ensures Yields(Body(t, 0, {3}, {1}, [1, 3], {0}, false, [0, 1, 2]), [0, 1, 3], [], {})
  {
    ExitStep(t, 0, {3}, {1}, [3], {0}, false, [0, 1]);
    assert [3][1..] == [] && {0} - {0} == {} && [0, 1] + [3] == [0, 1, 3];
    HeadStep(t, 0, {3}, {1}, [1, 3], {0}, [0, 1, 2]);
    assert FooAsWritten([0, 1, 2], 1) + [1] == [0, 1] && [1, 3][1..] == [3];
  }

  lemma LoopTraceBody(t: Tables)
    requires t == LoopTables()
    ensures Yields(Body(t, 0, {3}, {1}, [2, 1, 3], {0}, false, [0, 1]), [0, 1, 3], [], {})
  {
    LoopTraceExit(t);
    PlainStep(t, 0, {3}, {1}, [2, 1, 3], {0}, false, [0, 1]);
    assert [2, 1, 3][1..] == [1, 3] && [0, 1] + [2] == [0, 1, 2];
  }

  lemma LoopTraceHead(t: Tables)
    requires t == LoopTables()
    ensures Yields(Body(t, 0, {3}, {1}, [1, 2, 1, 3], {0}, false, [0]), [0, 1, 3], [], {})
  {
    LoopTraceBody(t);
    HeadStep(t, 0, {3}, {1}, [1, 2, 1, 3], {0}, [0]);
    assert FooAsWritten([0], 1) + [1] == [0, 1] && [1, 2, 1, 3][1..] == [2, 1, 3];
  }

  lemma LoopTraceEnter(t: Tables)
    requires t == LoopTables()
    ensures Yields(ReduceOneFun(t, [0, 1, 2, 1, 3], {}, false), [0, 1, 3], [], {})
  {
    LoopTraceHead(t);
    EnterStep(t, [0, 1, 2, 1, 3], {}, false);
    assert [0, 1, 2, 1, 3][1..] == [1, 2, 1, 3] && {} + {0} == {0};
  }

  /** Two iterations of the loop `1 2` fold into one visit of its head. */
  lemma LoopFolded()
    ensures SimpleReduce(LoopTables(), [0, 1, 2, 1, 3]) == Ok([0, 1, 3])
  {
    LoopTraceEnter(LoopTables());
    SimpleReduceOne(LoopTables(), [0, 1, 2, 1, 3], [0, 1, 3], {});
  }

  /** One recursive function, entered at block 0 and left at block 2. */
  function RecursionTables(): Tables {
    Tables([5, NoFun, NoFun], [Some({2}), None, None], map[0 := {}])
  }

  // The trace `0 1 0 1 2 2` through `RecursionTables`: the inner activation
  // `0 1 2` first, in skip mode, then the outer one.

  lemma InnerTraceBody(t: Tables)
    requires t == RecursionTables()
    ensures Yields(Body(t, 0, {2}, {}, [1, 2, 2], {0}, true, []), [], [2], {0})
  {
    ExitStep(t, 0, {2}, {}, [2, 2], {0}, true, []);
    assert [2, 2][1..] == [2];
    PlainStep(t, 0, {2}, {}, [1, 2, 2], {0}, true, []);
    assert [1, 2, 2][1..] == [2, 2];
  }

  lemma InnerTraceEnter(t: Tables)
    requires t == RecursionTables()
    ensures ReduceOneFun(t, [0, 1, 2, 2], {0}, true) == Ok(Walk([], [2], {0}))
  {
    InnerTraceBody(t);
    EnterStep(t, [0, 1, 2, 2], {0}, true);
    assert [0, 1, 2, 2][1..] == [1, 2, 2] && {0} + {0} == {0};
  }

  lemma OuterTraceBody(t: Tables)
    requires t == RecursionTables()
    ensures Yields(Body(t, 0, {2}, {}, [0, 1, 2, 2], {0}, false, [0, 1]), [0, 1, 2], [], {})
  {
    InnerTraceEnter(t);
    ReentryStep(t, 0, {2}, {}, [0, 1, 2, 2], {0}, false, [0, 1], Walk([], [2], {0}));
    ExitStep(t, 0, {2}, {}, [2], {0}, false, [0, 1]);
    assert [2][1..] == [] && {0} - {0} == {} && [0, 1] + [2] == [0, 1, 2];
  }

  lemma OuterTraceStart(t: Tables)
    requires t == RecursionTables()
    ensures Yields(Body(t, 0, {2}, {}, [1, 0, 1, 2, 2], {0}, false, [0]), [0, 1, 2], [], {})
  {
    OuterTraceBody(t);
    PlainStep(t, 0, {2}, {}, [1, 0, 1, 2, 2], {0}, false, [0]);
    assert [1, 0, 1, 2, 2][1..] == [0, 1, 2, 2] && [0] + [1] == [0, 1];
  }

  lemma OuterTraceEnter(t: Tables)
    requires t == RecursionTables()
    ensures Yields(ReduceOneFun(t, [0, 1, 0, 1, 2, 2], {}, false), [0, 1, 2], [], {})
  {
    OuterTraceStart(t);
    EnterStep(t, [0, 1, 0, 1, 2, 2], {}, false);
    assert [0, 1, 0, 1, 2, 2][1..] == [1, 0, 1, 2, 2] && {} + {0} == {0};
  }

  /** The inner, recursive activation `0 1 2` is consumed without a trace. */
  lemma RecursionElided()
    ensures SimpleReduce(RecursionTables(), [0, 1, 0, 1, 2, 2]) == Ok([0, 1, 2])
  {
    OuterTraceEnter(RecursionTables());
    SimpleReduceOne(RecursionTables(), [0, 1, 0, 1, 2, 2], [0, 1, 2], {});
  }

  /** One function, entered at block 0 and left at block 4, whose loop
      `1 2 3` is headed by block 1. */
  function LongLoopTables(): Tables {
    Tables([7, NoFun, NoFun, NoFun, NoFun], [Some({4}), None, None, None, None], map[0 := {1}])
  }

  // The trace `0 1 2 3 1 4` through `LongLoopTables`, last step first.

  lemma LongLoopTraceExit(t: Tables)
    requires t == LongLoopTables()
    ensures Yields(Body(t, 0, {4}, {1}, [1, 4], {0}, false, [0, 1, 2, 3]), [0, 1, 1, 4], [], {})
  {
    ExitStep(t, 0, {4}, {1}, [4], {0}, false, [0, 1, 1]);
    assert [4][1..] == [] && {0} - {0} == {} && [0, 1, 1] + [4] == [0, 1, 1, 4];
    HeadStep(t, 0, {4}, {1}, [1, 4], {0}, [0, 1, 2, 3]);
    FooCountsFromEndExample();
    assert [1, 4][1..] == [4];
  }

  lemma LongLoopTraceLate(t: Tables)
    requires t == LongLoopTables()
    ensures Yields(Body(t, 0, {4}, {1}, [3, 1, 4], {0}, false, [0, 1, 2]), [0, 1, 1, 4], [], {})
  {
    LongLoopTraceExit(t);
    PlainStep(t, 0, {4}, {1}, [3, 1, 4], {0}, false, [0, 1, 2]);
    assert [3, 1, 4][1..] == [1, 4] && [0, 1, 2] + [3] == [0, 1, 2, 3];
  }

  lemma LongLoopTraceBody(t: Tables)
    requires t == LongLoopTables()
    ensures Yields(Body(t, 0, {4}, {1}, [2, 3, 1, 4], {0}, false, [0, 1]), [0, 1, 1, 4], [], {})
  {
    LongLoopTraceLate(t);
    PlainStep(t, 0, {4}, {1}, [2, 3, 1, 4], {0}, false, [0, 1]);
    assert [2, 3, 1, 4][1..] == [3, 1, 4] && [0, 1] + [2] == [0, 1, 2];
  }

  lemma LongLoopTraceHead(t: Tables)
    requires t == LongLoopTables()
    ensures Yields(Body(t, 0, {4}, {1}, [1, 2, 3, 1, 4], {0}, false, [0]), [0, 1, 1, 4], [], {})
  {
    LongLoopTraceBody(t);
    HeadStep(t, 0, {4}, {1}, [1, 2, 3, 1, 4], {0}, [0]);
    assert FooAsWritten([0], 1) + [1] == [0, 1] && [1, 2, 3, 1, 4][1..] == [2, 3, 1, 4];
  }

  lemma LongLoopTraceEnter(t: Tables)
    requires t == LongLoopTables()
    ensures Yields(ReduceOneFun(t, [0, 1, 2, 3, 1, 4], {}, false), [0, 1, 1, 4], [], {})
  {
    LongLoopTraceHead(t);
    EnterStep(t, [0, 1, 2, 3, 1, 4], {}, false);
    assert [0, 1, 2, 3, 1, 4][1..] == [1, 2, 3, 1, 4] && {} + {0} == {0};
  }

  /** With a two-block loop body the fold as written records the head
      twice: the trace `0 1 2 3 1 4` reduces to `0 1 1 4`, where folding
      the iteration away would give `0 1 4`. */
  lemma LongLoopHeadRepeated()
    ensures SimpleReduce(LongLoopTables(), [0, 1, 2, 3, 1, 4]) == Ok([0, 1, 1, 4])
  {
    LongLoopTraceEnter(LongLoopTables());
    SimpleReduceOne(LongLoopTables(), [0, 1, 2, 3, 1, 4], [0, 1, 1, 4], {});
  }

  // ----- The loop fold as written and as intended -----

  /** As written, the truncation length of the loop fold is counted from the
      end of the buffer: when `h` last occurs just before the blocks `xs`,
      the buffer is cut to its first `|xs|` blocks. */
  lemma FooCountsFromEnd(pre: seq<BlockID>, h: BlockID, xs: seq<BlockID>)
    requires h !in xs
    ensures FooAsWritten(pre + [h] + xs, h) == (pre + [h] + xs)[..|xs|]
  {
    var buffer := pre + [h] + xs;
    assert buffer[|pre|] == h;
    assert forall k :: |pre| < k < |buffer| ==> buffer[k] == xs[k - |pre| - 1];
    var i :| 0 <= i < |buffer| && buffer[i] == h && (forall j :: i < j < |buffer| ==> buffer[j] != h) &&
      |FooAsWritten(buffer, h)| == |buffer| - 1 - i;
    assert i <= |pre|;
    assert i >= |pre|;
  }

  /** As written, with the loop `1 2 3` a second visit of head 1 cuts the
      buffer `0 1 2 3` to `0 1`, so 1 is recorded twice; the intended fold
      cuts it to `0`. */
  lemma FooCountsFromEndExample()
    ensures FooAsWritten([0, 1, 2, 3], 1) + [1] == [0, 1, 1]
    ensures FooIntended([0, 1, 2, 3], 1) + [1] == [0, 1]
  {
    FooCountsFromEnd([0], 1, [2, 3]);
    FoldsIteration([0], 1, [2, 3]);
    assert [0] + [1] + [2, 3] == [0, 1, 2, 3];
  }

  /** As written, a self-loop on head 1 entered from block 0 loses the
      entry block: the buffer `0 1` is cut to nothing before 1 is recorded
      again. The intended fold keeps `0 1`. */
  lemma FooAsWrittenDropsEntry()
    ensures FooAsWritten([0, 1], 1) + [1] == [1]
    ensures FooIntended([0, 1], 1) + [1] == [0, 1]
  {
    FooCountsFromEnd([0], 1, []);
    FoldsIteration([0], 1, []);
    assert [0] + [1] + [] == [0, 1];
  }

  /** The intended fold undoes a whole loop iteration: when the buffer ends
      with the head `h` followed by one iteration `xs` of its body, folding
      and recording `h` again gives back the buffer as it stood when the
      head was first recorded. */
  lemma FoldsIteration(pre: seq<BlockID>, h: BlockID, xs: seq<BlockID>)
    requires h !in xs
    ensures FooIntended(pre + [h] + xs, h) + [h] == pre + [h]
  {
    var buffer := pre + [h] + xs;
    var r := FooIntended(buffer, h);
    assert buffer[|pre|] == h;
    assert forall k :: |pre| < k < |buffer| ==> buffer[k] == xs[k - |pre| - 1];
    assert |r| >= |pre|;
    assert |r| <= |pre|;
    assert r == buffer[..|pre|] == pre;
  }

  /** The fold as written and the intended one agree exactly when as many
      blocks precede the head's last occurrence as follow it. */
  lemma FoldsAgree(pre: seq<BlockID>, h: BlockID, xs: seq<BlockID>)
    requires h !in xs
    ensures FooAsWritten(pre + [h] + xs, h) == FooIntended(pre + [h] + xs, h) <==> |pre| == |xs|
  {
    var buffer := pre + [h] + xs;
    FooCountsFromEnd(pre, h, xs);
    FoldsIteration(pre, h, xs);
    var r := FooIntended(buffer, h);
    assert r == (r + [h])[..|r|] == (pre + [h])[..|pre|] == pre;
    assert |FooAsWritten(buffer, h)| == |xs|;
  }
}
