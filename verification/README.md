# path-cov path reduction, modelled in Dafny

path-cov compresses the execution paths of a program for coverage-guided
fuzzing. A path is a flat sequence of basic-block ids. The reducer walks it
activation by activation, and records every block of the current function
call. It means to fold repeated iterations of a loop back to the last visit
of the loop's head, but its `foo` cuts the record elsewhere (see
"## Findings"). It consumes recursive re-entries without recording them.

Around the reducer sit three further parts:

- the conversion of each function's control-flow graph into a regular
  expression, by state elimination on a generalized NFA;
- a greedy parser of paths against such expressions, with a folding of parse
  trees that keeps the first `k` iterations of every loop;
- two builders of control-flow graphs: one from a C block table by
  depth-first traversal, and one from a parsed textual description.

This project models those parts as pure functions and loop methods, and
proves what each operation computes. The modules are:

- `Wrappers` (wrappers.dfy): `Option`, and `Result`, whose `Panic` case
  stands for every panic of the code (`unwrap`, `expect`, a failed index,
  `assert!`, `unreachable!`, `todo!`).
- `Seqs` (seqs.dfy): suffixes and subsequences of block sequences.
- `Graphs` (graphs.dfy): a petgraph graph, as its node weights and its edges
  in insertion order, plus the edge pass both graph builders share.
- `Re` (re.dfy) and `ReExamples` (re_examples.dfy): regular expressions,
  `parse` and `Val::reduce`, and the two unit-test scenarios.
- `Convert` (convert.dfy), `ConvertLanguage` (convert_language.dfy) and
  `ConvertReduce` (convert_reduce.dfy): the GNFA with its operations
  `from_cfg`, `next_to_rip`, `add_arrow`, `rip_state`, `reduce` and
  `start_to_end`. The language proofs (Sipser's state-elimination argument)
  show that `from_cfg` accepts exactly the execution paths and that ripping
  a state keeps the language. Together they show that the expression
  `start_to_end` returns denotes exactly the execution paths from entry to
  exit.
- `PathReduction` (path_reduction.dfy) and `PathReductionFacts`
  (path_reduction_facts.dfy) cover the reducer's tables (`last_map`,
  `from_cfgs`), `simple_reduce`, `simple_reduce_one_fun`, `foo` and the
  `reduce` dispatch. They prove when the reduction cannot panic, that its
  output is a subsequence of the input, what one activation step does, and
  traces showing loop folding and recursion elision.
- `ExternCfg` (extern_cfg.dfy): the DFS iterator over the C block table,
  `get_cfg_with_root` and `process_cfgs`.
- `GenCfg` (gen_cfg.dfy): `CFG::new` for the textual control-flow graph.

What the code does:

- the only implemented reduction (`k == 42`) returns a block sequence
  without counts;
- any other `k` reaches `todo!()` for a non-empty path;
- a malformed path panics.

The model follows the code, including the loop fold `foo` as written. Its
evident slip is recorded under "## Findings", beside a corrected fold with
the property the loop fold is meant to have.

## Model

| member | source | states |
|---|---|---|
| Re.Parse | src/re.rs:26-55 | a successful parse returns a tree whose leaves, followed by the remainder, give back the input; an expression that cannot match the empty word consumes at least one symbol |
| Re.ParseStar0 | src/re.rs:57-66 | the iterations collected most recent first, whose leaves in input order followed by the remainder give back the input |
| Re.ParseStar1 | src/re.rs:68-72 | the iterations in input order: their leaves followed by the remainder give back the input |
| Re.ParseConsumesPrefix | src/re.rs:26-55 | the remainder of a successful parse is a suffix of the input, preceded exactly by the tree's leaves |
| Re.ParseLiteral | src/re.rs:28-38 | a literal succeeds iff the input starts with it, and then consumes exactly that one symbol |
| Re.ParseConcatThreads | src/re.rs:39-43 | a concatenation succeeds iff the first part succeeds and the second succeeds on what the first left; the tree pairs both parts |
| Re.ParseAlterLeftBiased | src/re.rs:44-49 | once the left branch succeeds the right one is irrelevant; when it fails the result is the right branch's |
| Re.ParseStar0Iterations | src/re.rs:57-66 | the collected iterations, reversed, are the successive greedy parses, and the starred expression fails on the remainder |
| Re.ParseStarIterations | src/re.rs:50-72 | a star never fails; its iterations are the successive greedy parses in input order, ending at the first failure; with no iteration the input is left unchanged |
| Re.ParseConforms | src/re.rs:26-72 | every parse tree follows the shape of its expression |
| Re.ParseSound | src/re.rs:26-55 | parsing is sound: the leaves of the tree are a word of the expression's language, followed by the remainder |
| Re.Reduce | src/re.rs:82-106 | folding yields a subsequence of the tree's leaves |
| Re.ReduceIters | src/re.rs:92-104 | the loop over a star's iterations yields a subsequence of their leaves |
| Re.ReduceItersPrefix | src/re.rs:92-104 | the loop, started with `counter` iterations folded, folds exactly the first `k - counter` remaining iterations |
| Re.ReduceStarKeepsFirstK | src/re.rs:92-104 | a star keeps exactly its first `min(k, n)` iterations, each folded in turn |
| Re.ReduceShrinks | src/re.rs:82-106 | folding never lengthens the word |
| Re.ReduceBoundedIsLeaves | src/re.rs:82-106 | when no star has more than `k` iterations, folding gives back the whole word |
| ReExamples.ParseOneStarTwoOneThree | src/re.rs:113-126 | `1(21)*3` parses `12121213` completely, with three iterations of `21` |
| ReExamples.FoldOneStarTwoOneThree | src/re.rs:113-130 | folding that parse with `k = 2` gives `121213` |
| ReExamples.ParseStarOneTwoOneThree | src/re.rs:132-137 | `(12)*(13)` parses `12121213` completely, with three iterations of `12` |
| ReExamples.FoldStarOneTwoOneThree | src/re.rs:132-141 | folding that parse with `k = 2` gives `121213` |
| Convert.FromCfg | src/convert.rs:23-41 | fails iff `entry` is not a node; otherwise the arrows between nodes are exactly the edges, each labelled with its target's weight, and the one arrow from the new start state goes to `entry`; nothing enters the start state, and the accepting state is a sink iff `exit` has no successor |
| Convert.FirstOther | src/convert.rs:50-57 | the first state from `v` on that is neither start nor accepting, or none when every later state is one of them |
| Convert.NextToRip | src/convert.rs:48-57 | the smallest state other than start and accepting; panics (unreachable) iff every state is start or accepting |
| Convert.NextToRipSucceeds | src/convert.rs:122-126 | with more than two states `next_to_rip` cannot panic, so `reduce` never reaches `unreachable!()` |
| Convert.AddArrow | src/convert.rs:59-74 | an existing arrow becomes the alternation of old and new label, a missing one is added, and no other arrow changes |
| Convert.Sources | src/convert.rs:79-81 | exactly the states with an arrow into the ripped state, in increasing order |
| Convert.Targets | src/convert.rs:79-82 | exactly the states with an arrow out of the ripped state, in increasing order |
| Convert.AddRowSpec | src/convert.rs:85-106 | the inner loop adds exactly the bypasses from one source, each joined onto the old label, and changes nothing else |
| Convert.AddBypassesSpec | src/convert.rs:84-107 | both loops together add exactly the bypasses for every in-arrow and out-arrow pair that avoids the self-loop, and change nothing else |
| Convert.RemoveState | src/convert.rs:108-109 | removing a state drops its arrows and renumbers the last state into its index; every other arrow is kept under that renumbering |
| Convert.RipState | src/convert.rs:78-117 | panics (the `assert!`) iff the state does not exist; otherwise one state fewer |
| Convert.BypassesAnyOrder | src/convert.rs:84-107 | for any listing that names each source and each target of the ripped state once, in any order, the arrows between other states after the bypass loops are the direct or bypassing links, each with the label `Ripped` describes |
| Convert.BypassingSpec | src/convert.rs:84-107 | between states other than the ripped one, the arrows after the bypass loops (visiting sources and targets in increasing order) are the direct or bypassing links, each with the label `Ripped` describes |
| Convert.RippedProductive | src/convert.rs:84-107 | the bypass label built from an in-arrow, an optional self-loop and an out-arrow, alternated with any direct arrow, stays unable to match the empty word and free of starred parts that can, when the arrows it is built from are so |
| Convert.RipStateProductive | src/convert.rs:76-117 | ripping a state keeps every label unable to match the empty word and free of starred parts that can, so `parse` can run on every label |
| Convert.RipStateArrows | src/convert.rs:78-117 | after ripping, two states are joined iff the old states they stand for were joined directly or through the ripped state |
| Convert.RipStateLabels | src/convert.rs:78-117 | after ripping, every arrow carries the old label, the bypass label, or their alternation |
| Convert.RipStateEnds | src/convert.rs:110-116 | the fix-up keeps start and accepting pointing at the same old states, and keeps them distinct iff they were |
| Convert.RipStateShape | src/convert.rs:78-117 | ripping a state other than start and accepting keeps the start a source and the accepting state a sink |
| Convert.StartToEnd | src/convert.rs:128-132 | panics iff there is no arrow from start to accepting state; otherwise returns its label |
| ConvertLanguage.RipStateKeepsLanguage | src/convert.rs:76-117 | ripping a state other than start and accepting leaves the accepted words unchanged, in both directions |
| ConvertLanguage.PathForward | src/convert.rs:84-107 | every walk of the old GNFA between kept states is a walk of the ripped one |
| ConvertLanguage.PathBack | src/convert.rs:84-117 | every walk of the ripped GNFA is a walk of the old one between the states its ends stand for |
| ConvertLanguage.StartToEndLanguage | src/convert.rs:128-132 | on two states, with a source start and a sink accepting state, a word is accepted iff `start_to_end` succeeds and its label matches the word |
| ConvertLanguage.FromCfgLanguage | src/convert.rs:20-41 | the GNFA of `from_cfg` accepts exactly the execution paths of the graph from `entry` to `exit` |
| ConvertReduce.Reduce | src/convert.rs:120-126 | leaves two states (or as many as there were), and keeps the accepted language, the start and accepting states, and their source and sink shape; labels that `parse` can run on stay so |
| ConvertReduce.CfgToRegExp | src/convert.rs:23-132 | `from_cfg`, then `reduce`, then `start_to_end`: a missing entry or exit panics; when the exit has no successor, the conversion succeeds iff an execution path exists, and the expression then matches exactly the execution paths; every expression it returns can be given to `parse` |
| PathReduction.RevPosition | src/path_reduction.rs:209 | the position of the last occurrence counted from the end, or none iff the block does not occur |
| PathReduction.FooAsWritten | src/path_reduction.rs:208-213 | `foo` as written: the result is a prefix of the buffer; it is unchanged when the block is absent, and otherwise cut to the reversed position of the last occurrence |
| PathReduction.FooIntended | src/path_reduction.rs:183-196 | the fold the loop-head step evidently means: the buffer cut just before the last occurrence of the head, unchanged when the head is absent |
| PathReduction.ReduceOneFun | src/path_reduction.rs:109-146 | consumes a non-empty prefix of the path; in skip mode records nothing and only grows the stack; the record is a subsequence of what was consumed |
| PathReduction.Body | src/path_reduction.rs:147-205 | the activation loop consumes a prefix of the path, and its record is a subsequence of the old buffer followed by what was consumed |
| PathReduction.Step | src/path_reduction.rs:147-205 | each step of the activation loop keeps the record a subsequence of what was consumed |
| PathReduction.FoldStep | src/path_reduction.rs:187-196 | the loop-head step keeps the record a subsequence of what was consumed |
| PathReduction.SimpleReduce | src/path_reduction.rs:92-100 | the reduced path is a subsequence of the input |
| PathReduction.ReducePath | src/path_reduction.rs:34-90 | `k == 42` is the simple reduction; any other `k` succeeds only on the empty path; every result is a subsequence of the input |
| PathReduction.FillLasts | src/path_reduction.rs:310-333 | fails iff some entry node is missing or its block is outside the table; each function's exits land at its entry block (the last writer wins) and other slots are kept |
| PathReduction.LastMap | src/path_reduction.rs:305-335 | a table of 128K slots; when entry blocks are distinct it holds each function's exit set at its entry block, and it holds nothing at any other block |
| PathReduction.FillFirsts | src/path_reduction.rs:251-264 | on success every entry block fits the table and was free, entry blocks are distinct, and each slot names its function |
| PathReduction.FirstsMap | src/path_reduction.rs:251-263 | succeeds iff every entry block fits the 128K-slot table and no two functions share one; then each entry block's slot names its function and every other slot holds the sentinel -1 |
| PathReduction.FillFirstsSucceeds | src/path_reduction.rs:251-264 | with distinct in-range entry blocks on free slots, filling cannot panic |
| PathReduction.HeadsMap | src/path_reduction.rs:272-284 | loop heads keyed by each function's entry block, and no other keys |
| PathReduction.FromCfgs | src/path_reduction.rs:217-285 | succeeds iff every entry block exists, fits the tables and no two functions share one; then the three tables describe exactly the functions, and every other block is unknown |
| PathReductionFacts.ReduceOneFunNoPanic | src/path_reduction.rs:109-146 | on a path the tables cover, an activation starting at an entry block never panics |
| PathReductionFacts.BodyNoPanic | src/path_reduction.rs:147-205 | on a covered path the activation loop never panics |
| PathReductionFacts.UnknownEntryPanics | src/path_reduction.rs:125-128 | an activation whose first block has no loop-head entry panics before consuming anything |
| PathReductionFacts.SimpleReduceKeeps | src/path_reduction.rs:92-100 | the reduction is no longer than its input and holds only its blocks |
| PathReductionFacts.PlainActivationCopied | src/path_reduction.rs:130-181 | an activation that calls nothing and passes no loop head is recorded verbatim |
| PathReductionFacts.SingleBlockActivation | src/path_reduction.rs:139-146 | a function whose entry is its own exit is recorded as that block alone (nothing in skip mode) |
| PathReductionFacts.EnterStep | src/path_reduction.rs:120-146 | a known entry that is not its own exit enters the activation loop with the entry recorded and pushed |
| PathReductionFacts.PlainStep | src/path_reduction.rs:171-181 | an ordinary block is recorded, or silently consumed in skip mode |
| PathReductionFacts.HeadStep | src/path_reduction.rs:177-196 | a loop head cuts the buffer with `foo` as written and is then recorded |
| PathReductionFacts.ExitStep | src/path_reduction.rs:159-170 | an exit block ends the activation, recorded and popped unless skipping |
| PathReductionFacts.ReentryStep | src/path_reduction.rs:150-153 | a call into a function on the stack (or any call while skipping) is consumed without recording |
| PathReductionFacts.CallStep | src/path_reduction.rs:154-156 | a call into a function not on the stack appends its reduced activation |
| PathReductionFacts.SimpleReduceOne | src/path_reduction.rs:92-100 | a path one activation uses up reduces to that activation's record |
| PathReductionFacts.LoopFolded | src/path_reduction.rs:177-196 | the trace `0 1 2 1 3`, with loop head 1, reduces to `0 1 3` |
| PathReductionFacts.LongLoopHeadRepeated | src/path_reduction.rs:177-213 | the trace `0 1 2 3 1 4`, with loop head 1 and a two-block body, reduces to `0 1 1 4`: the head is recorded twice |
| PathReductionFacts.RecursionElided | src/path_reduction.rs:150-153 | the trace `0 1 0 1 2 2` of a recursive function reduces to `0 1 2` |
| PathReductionFacts.FooCountsFromEnd | src/path_reduction.rs:208-213 | `foo` cuts the buffer to as many blocks as follow the last occurrence of the head |
| PathReductionFacts.FooCountsFromEndExample | src/path_reduction.rs:183-213 | on buffer `0 1 2 3` and head 1, `foo` as written records the head twice (`0 1 1`), the intended fold once (`0 1`) |
| PathReductionFacts.FooAsWrittenDropsEntry | src/path_reduction.rs:183-213 | on a self-loop, buffer `0 1` and head 1, `foo` as written loses the entry block (`1`), the intended fold keeps it (`0 1`) |
| PathReductionFacts.FoldsAgree | src/path_reduction.rs:183-213 | `foo` as written and the intended fold agree iff as many blocks precede the head's last occurrence as follow it |
| PathReductionFacts.FoldsIteration | src/path_reduction.rs:183-213 | the intended fold undoes one whole loop iteration: folding and recording the head gives back the buffer as it was at the head's last visit |
| Graphs.LinkBlock | src/gen_cfg.rs:41-45 | one edge from the block's node per successor entry, to the node of that successor; fails iff a successor has no node |
| Graphs.LinkSuccessors | src/gen_cfg.rs:35-46 | fails iff some successor has no node; otherwise one edge per successor entry (parallel edges counted), all between existing nodes |
| GenCfg.New | src/gen_cfg.rs:15-48 | panics on a repeated block id, and otherwise on an undeclared successor; on success node `k` is entry `k`'s call or block, and the edges between two nodes are exactly as many as the occurrences of the second block among the first's successors |
| ExternCfg.NewDfs | src/extern_cfg.rs:129-135 | a new traversal schedules one block, has visited none, and satisfies the traversal invariant |
| ExternCfg.GetNextUnvisited | src/extern_cfg.rs:138-145 | pops visited blocks off the worklist until an unvisited one; none only when the worklist is used up, all of it visited |
| ExternCfg.Next | src/extern_cfg.rs:151-164 | panics iff the next unvisited block does not exist; otherwise marks it visited and schedules its successors in order |
| ExternCfg.NextKeepsInvariant | src/extern_cfg.rs:151-164 | each step keeps scheduled and visited blocks reachable, and the successors of visited blocks visited or scheduled |
| ExternCfg.ClosedHoldsReachable | src/extern_cfg.rs:151-164 | a set holding the entry and closed under successors holds every reachable block |
| ExternCfg.Traverse | src/extern_cfg.rs:121-165 | panics iff some reachable block does not exist; otherwise yields the entry first, no block twice, and exactly the reachable blocks |
| ExternCfg.SuccessorLists | src/extern_cfg.rs:115-118 | each node's successor list is its block's list |
| ExternCfg.GetCfgWithRoot | src/extern_cfg.rs:75-111 | succeeds iff every reachable block exists and the exit is reachable; then one node per reachable block labelled by its call or block id, the entry first, and one edge per successor entry |
| ExternCfg.ProcessCfgs | src/extern_cfg.rs:57-71 | succeeds iff every function's graph can be built; then function `i` gets id `i` and its graph |

## Left out

- The C interface (`c_api.rs`), the hashing of reduced paths (`hash.rs`), the text format of the textual control-flow graph (`file_format.rs`) and `process_top_level`: these are foreign-interface and I/O glue. `slice::from_raw_parts` is modelled by sequences, so a negative `successor_size` and invalid addresses are not modelled.
- The search for loop heads with `tarjan_scc` in `from_cfgs`: each function's loop heads are an input of `PathReduction.FromCfgs`. So is the conversion of internal control-flow graphs to block ids (`from_intern_cfg`, `to_block_id`), whose definitions are not part of this model.
- The general reduction (`k != 42`) calls `parse_k` and `RegExp::Var`, which the regular-expression module does not define, behind `todo!()`. It is modelled as a panic on any non-empty path. The environment variables, `println!` and the error-handling branches that lie behind it are left out.
- Hash-map iteration order in `from_cfgs` and `convert_cfgs` is modelled as the order of a sequence of functions. The contracts state what holds for every order, except where the last writer wins (noted on `FillLasts`).
- The GNFA keeps one arrow per ordered pair of states. `from_cfg` copies parallel control-flow edges as parallel petgraph edges; the model keeps one arrow for them. They all carry the same literal label, the weight of their common target, so the words accepted are the same.
- `Convert.RipState` lists the in- and out-edges of the ripped state in increasing state order, where petgraph lists them in its own edge order. `Convert.BypassesAnyOrder` proves that the resulting arrows and labels are the same for every duplicate-free listing.
- `Re.Matches` defines the words of a star as concatenations of non-empty words of its body. This is the same language, because the empty word is always in a star.
- `Re.Reduce` keeps the source's `assert!(k != 0)` as a precondition rather than a panic, because every call passes the same nonzero `k`.
- `Re.Parse` requires that no starred sub-expression can match the empty word: such a sub-expression makes `parse_star0` recurse forever once the parse reaches it. `ConvertReduce.CfgToRegExp` proves that every expression it produces meets this requirement.
- `RegExp::first`, which `from_cfgs` calls to find each function's first block, is not part of this model. `PathReduction.FromCfgs` takes the block of the function's entry node, the same block `last_map` uses.
- `PathReduction.FromCfgs` does not build the reducer's table of regular expressions (`convert_cfgs`, which the simple reduction never reads), so it leaves out the panics of that conversion.
- `ConvertReduce.CfgToRegExp` builds its GNFA with `from_cfg`, where `convert_cfgs` (src/path_reduction.rs:288-301) uses `from_intern_cfg`, whose definition is not part of this model. Its contract is stated for `from_cfg`'s GNFA.
- `PathReduction.FromCfgs` requires that no function id is the `firsts` sentinel -1. Function ids are positions from `enumerate`, so they are non-negative.
- `ExternCfg.ProcessCfgs`: the cast `fun_id as FunID` cannot wrap, because the function count comes from a `c_int`.
- `ExternCfg.GetCfgWithRoot`: the two `debug_assert!` checks (non-negative successor count, no duplicate block) are not modelled. The second always holds, because `Traverse` yields no block twice. The second traversal of the source is modelled by reusing the first one's order, since the traversal is deterministic.
- Block ids and function ids are unbounded integers. The tables of 128K slots and the `as usize` conversions are modelled explicitly: a negative id misses every table.

## Findings

| source | as written | input that shows it | evidently intended | confidence | as-written member | corrected member |
|---|---|---|---|---|---|---|
| src/path_reduction.rs:208-213 | `foo` passes the position of the head's last occurrence counted from the end (`iter().rev().position`) to `truncate`, which takes a length counted from the start | buffer `0 1`, head 1 (a self-loop entered from block 0): cut to nothing, so the entry block is lost; buffer `0 1 2 3`, head 1: cut to `0 1`, so the head is recorded twice, and the path `0 1 2 3 1 4` reduces to `0 1 1 4` | cut the buffer just before the head's last occurrence, as the commented-out `loop_stack` variant at src/path_reduction.rs:188-191 does with a forward offset, so that one loop iteration folds away (`PathReductionFacts.FoldsIteration`) | high, not executed | PathReductionFacts.FooAsWrittenDropsEntry | PathReduction.FooIntended |
