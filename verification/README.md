# A verified model of the kli compiler's core

kli is a small optimising compiler. This project models the parts of it whose correctness is not
obvious from one function at a time, and proves what they promise:

- **The MIR middle end.** `Mir.dfy` gives bodies an operational semantics: locals and a return place,
  places with field and case projections, printing and calls as a trace, and the outcomes return, panic,
  unreachable and stuck (which is what a load of memory that was never completely written leads to).
  Primitive arithmetic and the results of calls are parameters, so every statement holds for all of them.
  Each pass is a method on a `Body` whose fields it rewrites in place, proved equal to a function on block
  sequences, and that function is proved to preserve behaviour: `SimplifyCfg.dfy` (with `Settling.dfy`), `Inline.dfy`,
  `Reachability.dfy` (unreachable blocks), `DeadStore.dfy`, `UnusedLocals.dfy`. `Program.dfy` ties the
  calls of all bodies together as a least fixpoint, `Traces.dfy` says what a program prints even if it never returns
  (with `InlineTraces.dfy` for inlining), and `Pipeline.dfy` runs the passes in their order on one
  body and then replaces bodies in a whole program, one after another.
- **Facts about the graph.** `Postorder.dfy` is the depth-first iterator, `BasicBlocks.dfy` the lazily filled
  cache that clones share.
- **Type unification.** `Infer.dfy`: the mutable table of type variables, with acyclicity, termination,
  soundness, most general solutions, the unifier as a function, and what a failure means.
- **Exhaustiveness of patterns.** `Patterns.dfy`: both directions, with witnesses. `Emptiness.dfy`: the test for types
  without values on types with definitions. `PatternTypes.dfy`: the trees that such types are to pattern matching.
- **Layout.** `Layout.dfy` (aggregates and records), `VariantLayout.dfy` (tags, niches and the bytes that
  storing a case writes), `RecursiveTypes.dfy` (the check that by-value types are finite), `TypeUnfolding.dfy` and
  `FiniteTypes.dfy` (what the check finds, and when types are finite) and `CalculateLayout.dfy` (the computation
  that relies on it).
- **Monomorphisation.** `Monomorph.dfy`: the worklist computes the least set of instances, and `FunctionFlow.dfy`: the
  program needs no others.
- **Expressions.** `Parser.dfy`: the precedence-climbing parser inverts a printer that uses parentheses only
  where they are needed (`Printer.dfy`), accepts exactly a grammar (`Grammar.dfy`), and groups any sequence of operators
  as `Grouping.dfy` says, which has a table of operators of its own.

The supporting modules are `Prelude.dfy`, `Types.dfy`, `MirSim.dfy` (simulation and lockstep arguments),
`Visitor.dfy` (what counts as a mention of a local), `Cfg.dfy` and `Renumbering.dfy`. `dafny verify
dfyconfig.toml` checks everything.

## Where the code does not do what it might be taken to promise

For each of these there is a lemma that says exactly when the property holds, and a concrete input on which it does not.

- A variant's layout looks at the alignment of its biggest case only. A payload is in bounds and aligned
  exactly when its case is no more aligned than that (or than the tag): `VariantLayout.TaggedPayloadFits`.
  Nine bytes against one word is a counterexample: `VariantLayout.WordPastEnd`.
- What `SimplifyCfg` does with a block keeps behaviour exactly when it does not merge the entry block into another
  one, or when there was nothing to keep: `SimplifyCfg.SimplifiedSameExactly`. A loop through the entry block
  is a counterexample: `SimplifyCfg.EntryLoopBroken`.
- The loop of `SimplifyCfg` ends exactly when no sweep leaves a block that is its own sole target and its own only
  predecessor, for which it is enough to look at as many sweeps as there are blocks: `SimplifyCfg.SettlesExactly`.
  Without switches on constants that can be told from the body: it ends exactly when no blocks jump around in a circle
  which nothing enters (`Settling.EndsWithoutRing`); and with them it ends where there is no such circle even with
  their dead edges left out, and only where there is none with them (`Settling.EndsBetween`). A constant switch whose
  folding leaves such a circle is a counterexample: `SimplifyCfg.ConstantSwitchNeverSettles`.
- The check for recursive types refuses a definition exactly when some named type is met at two places of its unfolding
  (`TypeUnfolding.RecursiveExactly`), while types are infinite exactly when some definition contains itself by value
  (`FiniteTypes.FiniteExactly`). Holding another type twice, pointing to oneself, and wrapping a wrapper are
  refused for nothing: `RecursiveTypes.DiamondRefused`, `FiniteTypes.PointedRefused`, `FiniteTypes.WrappedRefused`.
- The check for recursive types stops at boxes, but the test for types without values does not. Under an accepted table it
  does not end exactly on a type that is one of some types each of which holds one of them, behind fields that all have
  values or behind cases that have none (`Emptiness.EndlessExactly`); and on a type that leads to finitely many others
  it ends within as many calls deep as they are, or never (`Emptiness.EndsWithin`). A variant whose first case holds
  itself in a box is a counterexample (`Emptiness.NodeFirstEndless`); written the other way round it is not
  (`Emptiness.LeafFirstEnds`). Where the test ends it is right (`Emptiness.EmptyRight`).
- The occurs check refuses to unify a variable with a type it occurs in; that is wrong exactly when the two are
  the same already (`Infer.OccursRight`), as two aliased variables are (`Infer.AliasRefused`). So unification can fail
  although the types have a common instance, but only if it comes to unify a general variable with one that stands
  for it in the table it then has (`Infer.TypeInfer.Unify`), as it does on `(a, b)` and `(b, a)` when nothing
  is bound yet (`Infer.SwappedRefused`).
- The rows that the exhaustiveness check returns are counterexamples exactly when the matched type is not a
  tuple or a box without values (`Patterns.WitnessesExactly`).
- A pointer's case is read back from a niche exactly when the pointer is not the other case's index
  (`VariantLayout.NicheRoundTrip`).
- Removing unused locals leaves one local more than it keeps, exactly if there is one (`UnusedLocals.RunPass`).

## Model

| member | source | states |
|---|---|---|
| Mir.ReadWrite | src/mir/mod.rs:28-34 | reading a place just written gives back what was written |
| Mir.WriteConcat | src/mir/passes/inlining.rs:198-207 | writing through a place put behind another one writes the inner part of what the outer place holds |
| Mir.WriteBeside | src/mir/mod.rs:28-34 | writing a place leaves every place that parts from it at a different field of the same record as it is |
| Mir.WriteUnderTag | src/codegen/mod.rs:605-623 | writing into the payload of a variant leaves its case and its tag |
| Mir.AggregateReads | src/codegen/mod.rs:1775-1847 | each operand of an aggregate is read back from its own field, and of a variant under its case, which is the one its tag tells |
| Mir.AssertionHolds | src/codegen/mod.rs:2033-2058 | an assertion that an index is in bounds holds if its condition is not 0, and one against overflow or division by zero if it is; it jumps then, and panics otherwise |
| Mir.EndsAre | src/codegen/mod.rs:2094-2124 | a return gives what the return place holds, and a panic is told from reaching the unreachable |
| Mir.OperationsAre | src/codegen/mod.rs:1855-1880 | the left operand of an operation comes first, and a discriminant is the case of a variant whose tag was written, and of nothing else |
| Mir.PrintAdds | src/codegen/mod.rs:2002-2012 | printing adds the value and where it goes to the trace, and nothing else |
| Mir.SwitchTargets.BranchForValue | src/mir/mod.rs:405-411 | a switch goes to the target of its first entry for the value, and to its default if it has none for it |
| Cfg.MapSuccessorsMember | src/mir/mod.rs:486-505 | the successors after rewriting are exactly the images of those before |
| Cfg.StepMapSuccessors | src/mir/mod.rs:486-505 | rewriting successors redirects the jump and changes nothing else of a step |
| Cfg.StepAlongEdge | src/mir/mod.rs:473-485 | control leaves a block only along one of its successors |
| Cfg.PredecessorListMember | src/mir/basic_blocks.rs:43-54 | a block is listed as predecessor exactly if it has an edge to the target |
| Cfg.PredecessorListCount | src/mir/basic_blocks.rs:43-54 | it is listed once for each of its ways to the target, and the list ascends |
| Cfg.SuccessorsExactly | src/mir/mod.rs:473-485 | the ways out of a block in order: the one of a jump or an assertion; of a switch its targets in order, then its default; none otherwise |
| Cfg.OneWayExactly | src/mir/basic_blocks.rs:43-54 | a block has at most one predecessor exactly if no two ways, of two blocks or of one, lead to it |
| Visitor.BodyBelowMentions | src/mir/visitor/mod.rs:16-116 | the locals a walk over the body finds are below n exactly if every place of every statement and terminator is |
| Visitor.MentionedExactly | src/mir/visitor/mod.rs:16-116 | they are exactly the locals that some operand loads from, some discriminant is taken of or some assignment stores to |
| Visitor.StmtMentionsMap | src/mir/visitor/mod.rs:16-99 | rewriting the places of a statement rewrites exactly its mentions |
| Program.ResultFixpoint | src/mir/mod.rs:658-684 | the results of a program's functions are what their bodies compute when calls have those same results |
| Program.ReplaceBody | src/mir/passes/mod.rs:70-83 | replacing a body by a refinement of it keeps every result of every function, through any depth of calls and recursion |
| Program.SameRefines | src/mir/passes/mod.rs:70-83 | a body with the same observable behaviour is a refinement: it returns or panics alike, prints all that was printed at any time, and runs for ever where the other does |
| Traces.ResultPrints | src/mir/mod.rs:658-684 | what a function prints, calls in it that do not come back included, is a part of what its result says, if it has one |
| Traces.AlwaysCarriesOver | src/mir/passes/mod.rs:70-83 | a body that refines another whatever calls do prints all that it prints, whatever calls that do not come back may print |
| Traces.ReplaceBodyPrints | src/mir/passes/mod.rs:70-83 | replacing a body by one that returns and prints at least as much keeps all that any function of the program prints, also if it never returns |
| SimplifyCfg.NoopsRemovedSame | src/mir/passes/simplify_cfg.rs:99-103 | removing no-ops changes no run's trace or outcome, divergence included |
| SimplifyCfg.StolenSame | src/mir/passes/simplify_cfg.rs:85-98 | moving the only successor's code into a block changes no run's trace or outcome |
| SimplifyCfg.ThreadedSame | src/mir/passes/simplify_cfg.rs:42-76 | jump threading changes no run's trace or outcome, also when it is the entry block that only forwards control |
| SimplifyCfg.SimplifiedSameExactly | src/mir/passes/simplify_cfg.rs:22-76 | what the pass does with a block keeps every run's trace and outcome exactly if it does not merge the entry block into another one, or if every run gets stuck without printing anything |
| SimplifyCfg.SweptSame | src/mir/passes/simplify_cfg.rs:20-77 | a whole sweep keeps every run's trace and outcome, targets in range and the entry block unentered |
| SimplifyCfg.SweepsSame | src/mir/passes/simplify_cfg.rs:18-78 | so does any number of sweeps, whether or not the loop ends, when no edge enters the entry block |
| SimplifyCfg.SimplifiedShrinks | src/mir/passes/simplify_cfg.rs:22-76 | each modification leaves strictly fewer blocks with an incoming edge, except that a block which is its own sole target and its own only predecessor is merged with itself for nothing |
| SimplifyCfg.SweptShrinks | src/mir/passes/simplify_cfg.rs:19-78 | a sweep that reports a modification has strictly shrunk that set, and one that does not has changed nothing, unless it leaves such a self-trapped block |
| SimplifyCfg.SweptSettled | src/mir/passes/simplify_cfg.rs:19-78 | after a sweep without modification nothing has changed and no block can be merged or threaded |
| SimplifyCfg.StealsExactly | src/mir/passes/simplify_cfg.rs:22-41 | a block is merged exactly with one that control certainly goes to, by a jump or by a switch on a constant, if no other way leads there |
| SimplifyCfg.ThreadsExactly | src/mir/passes/simplify_cfg.rs:42-66 | a switch is threaded exactly if one of its ways leads to a block of no-ops and a jump that no other way leads to |
| SimplifyCfg.SettlesExactly | src/mir/passes/simplify_cfg.rs:18-78 | the loop ends exactly if none of the first sweeps, as many as there are blocks, brings about a self-trapped block, and then within that many sweeps |
| Settling.SettlesWithoutRing | src/mir/passes/simplify_cfg.rs:18-78 | for a body without constant switches: exactly if it has no blocks that jump around in a circle which nothing outside enters |
| Settling.EndsWithoutRing | src/mir/passes/simplify_cfg.rs:14-78 | the same for the pass, which removes no-ops first |
| Settling.EndsBetween | src/mir/passes/simplify_cfg.rs:14-78 | with constant switches: it ends if there is no such circle once their dead edges are left out, and only if there is none before |
| Settling.DescendsNoRing | src/mir/passes/simplify_cfg.rs:18-78 | there is no such circle where every entered block is entered from one nearer to where control comes from |
| Settling.FoldableFolds | src/mir/passes/simplify_cfg.rs:32-41 | where the loop ends it leaves no switch on a constant, if each such switch is the only way to the block that it takes |
| Settling.WhileTrueFolds | src/mir/build/stmt.rs:43-65 | an instance: the switch of an endless loop, whatever stands before it, in it and behind it |
| SimplifyCfg.ConstantSwitchNeverSettles | src/mir/passes/simplify_cfg.rs:32-41 | an input to SettlesExactly: on a given reachable body every sweep, however many came before, reports a modification |
| SimplifyCfg.TrappedForever | src/mir/passes/simplify_cfg.rs:24-41 | once a block is self-trapped every later sweep reports a modification |
| SimplifyCfg.EntryStolen | src/mir/passes/simplify_cfg.rs:85-98 | merging the entry block into another leaves every run stuck at once |
| SimplifyCfg.EntryLoopBroken | src/mir/passes/simplify_cfg.rs:24-31 | an input to SimplifiedSameExactly: a run that returned before does not after, on a given body with an edge to the entry block |
| SimplifyCfg.RemoveNoops | src/mir/passes/simplify_cfg.rs:15-17 | computes the body without no-ops, in place |
| SimplifyCfg.Steal | src/mir/passes/simplify_cfg.rs:85-98 | moves statements and terminator, leaving the other block empty and unreachable |
| SimplifyCfg.ThreadSwitch | src/mir/passes/simplify_cfg.rs:42-76 | redirects exactly the edges to blocks that only forward, and reports whether there were any |
| SimplifyCfg.Sweep | src/mir/passes/simplify_cfg.rs:19-77 | computes the swept body and the modification flag, in place |
| SimplifyCfg.RunPass | src/mir/passes/simplify_cfg.rs:14-82 | where the loop ends the pass does, with what it has swept the body to; every run's trace and outcome is kept; no block is the only way to where it certainly leads, no switch leads to a block that is only passed through, no no-op is left, and the loop ends if it is run again |
| Renumbering.NewIdGrows | src/mir/passes/remove_unused_locals.rs:30-47 | kept numbers are renumbered monotonically, so injectively |
| Reachability.Preorder | src/mir/passes/mod.rs:85-101 | the worklist visits exactly the reachable blocks, each once, breadth first: each comes with a parent that has an edge to it, was visited before it and is one step nearer to the entry block, and no block comes before one that is nearer |
| Reachability.NextDistance | src/mir/passes/mod.rs:91-100 | what is visited next is as far from the entry block as its parent tells: no way to it is shorter |
| Reachability.CompactedSame | src/mir/passes/remove_unreachable.rs:11-40 | the compacted body runs in lockstep with the original |
| Reachability.CompactedWellFormed | src/mir/passes/remove_unreachable.rs:27-39 | every target of the compacted body is in range and every block is reachable |
| Reachability.BlockMap | src/mir/passes/remove_unreachable.rs:13-26 | the map gives each reachable block its new number and no other block any |
| Reachability.RetargetAll | src/mir/passes/remove_unreachable.rs:27-36 | rewrites every successor to its new number, in place |
| Reachability.Retain | src/mir/passes/remove_unreachable.rs:37-39 | keeps exactly the reachable blocks, in order |
| Reachability.RemoveUnreachable | src/mir/passes/remove_unreachable.rs:11-40 | the pass keeps all behaviour and leaves only reachable blocks, with targets in range |
| Reachability.DistanceIs | src/mir/passes/mod.rs:85-101 | every reachable block has a shortest distance from the entry block |
| DeadStore.EliminatedInStep | src/mir/passes/dead_store.rs:14-63 | with the dead assignments gone every run shows the same trace and outcome at every step; but where the original gets stuck evaluating a dropped assignment, the same up to there, and then what had been printed stays printed |
| DeadStore.DeadStep | src/mir/passes/dead_store.rs:51-63 | two stores that differ only on locals never read stay so related through every step, unless the original is stuck at a dropped assignment |
| DeadStore.DeadExactly | src/mir/passes/dead_store.rs:33-63 | the dead assignments are those of something other than a call to a whole local that is no parameter and no place of which is read anywhere |
| DeadStore.FindLive | src/mir/passes/dead_store.rs:15-26 | finds exactly the parameters and the locals that are read |
| DeadStore.RunPass | src/mir/passes/dead_store.rs:14-31 | replaces exactly these assignments by no-ops and changes nothing else, observably the same unless the original gets stuck at one of them |
| UnusedLocals.RenamedSame | src/mir/passes/remove_unused_locals.rs:29-48 | the renamed body behaves the same, for calls that pass the kept parameters |
| UnusedLocals.RenamedMentions | src/mir/passes/remove_unused_locals.rs:73-77 | every mention in the renamed body is one of the kept locals' new numbers |
| UnusedLocals.FindMentioned | src/mir/passes/remove_unused_locals.rs:18-29 | finds exactly the parameters and the mentioned locals |
| UnusedLocals.SwapDown | src/mir/passes/remove_unused_locals.rs:30-47 | the swaps leave each kept local's information at its new number, and that of dropped ones behind |
| UnusedLocals.ReplaceLocals | src/mir/passes/remove_unused_locals.rs:48-48 | renames every mention, in place |
| UnusedLocals.RunPass | src/mir/passes/remove_unused_locals.rs:17-50 | behaviour up to renaming is kept, information follows its local, parameters keep their numbers and no other local becomes one, and all mentions are in range |
| Inline.InlinedRefines | src/mir/passes/inlining.rs:42-114 | inlining one call: whatever the caller returned or panicked with, with whatever trace, the inlined body does too; what any run has printed at any time it prints; and where the caller runs for ever it does |
| Inline.CalleeStep | src/mir/passes/inlining.rs:168-207 | each step of the callee is the same step of its rewritten block in the caller, its locals behind the caller's and its return place in the call's place |
| Inline.StoreArgs | src/mir/passes/inlining.rs:98-105 | the stores put the arguments where the callee's parameters now are, and change nothing else |
| Inline.CallSite | src/mir/passes/inlining.rs:83-106 | a call is matched by the argument stores, the callee's run and the jump back |
| InlineTraces.InlinedCarriesOver | src/mir/passes/inlining.rs:42-114 | inlining one call keeps all that the caller prints, also where that call or a call in the callee does not come back |
| Inline.InlinedBelow | src/mir/passes/inlining.rs:48-64 | every local the inlined body mentions is one of its locals |
| Inline.InlinedEdges | src/mir/passes/inlining.rs:168-188 | targets stay in range and the entry block stays unentered |
| Inline.SitesExactly | src/mir/passes/inlining.rs:132-158 | what is inlined first is the first in block order of all calls of a non-generic function by its name |
| Inline.CallsExactly | src/mir/passes/inlining.rs:51-64 | what inlining asks of a body it asks of exactly these calls: that the bodies they name are there, and have locals for the arguments |
| Inline.FindSite | src/mir/passes/inlining.rs:132-158 | finds the first call of a known non-generic function |
| Inline.InlineSite | src/mir/passes/inlining.rs:48-114 | splits the block and rewrites the appended blocks, in place; behind the old locals come the callee's, each with its type, parameters and variables as temporaries |
| Inline.RunPass | src/mir/passes/inlining.rs:22-116 | the first call site is inlined again and again, until none is left or ten were inlined, or the next one is of a function whose body is not there, and then exactly the result is false; so it is true if all bodies are there; what is left refines the body, whatever the other bodies compute; and its parameters are the same locals as before |
| Pipeline.ReachableDescends | src/mir/passes/mod.rs:85-101 | where all blocks are reachable, every entered block is entered from one nearer to the entry block |
| Pipeline.ReachableEnds | src/mir/passes/simplify_cfg.rs:18-78 | where all blocks are reachable and no switch is on a constant, SimplifyCfg ends |
| Pipeline.Prepare | src/mir/passes/mod.rs:70-83 | the passes up to the last SimplifyCfg refine every body on which the first one ends, constant switches or not, leave what those passes make of it one after another, and succeed if the bodies of all called functions are there |
| Pipeline.Finish | src/mir/passes/mod.rs:70-83 | the last two passes refine every body on which the last SimplifyCfg ends |
| Pipeline.CompactedKeeps | src/mir/passes/remove_unreachable.rs:11-40 | removing unreachable blocks keeps what the other passes require |
| Pipeline.Optimise | src/mir/passes/mod.rs:70-83 | the passes in order refine every body on which both loops end, the last one being asked about what the passes between make of the body, and leave only reachable blocks; they succeed if the bodies of all called functions are there; and if exactly the first locals were the parameters, they still are |
| Pipeline.FoldedBothEnd | src/mir/passes/simplify_cfg.rs:18-78 | both loops end if the first folds all switches on constants and the bodies that are inlined have none |
| Pipeline.WithoutRingFolds | src/mir/passes/simplify_cfg.rs:18-78 | which the first does on every body that has no constant switches and no circle of jumps that nothing enters |
| Pipeline.OptimisedProgram | src/mir/passes/mod.rs:70-83 | putting an optimised body into a program keeps every result of every function and all that any function prints, whether it ever returns or not |
| Pipeline.OptimisedProgramByProgram | src/mir/passes/mod.rs:70-83 | so does optimising one body after another, each with the others as they then are |
| Postorder.PostorderIs | src/mir/traversal.rs:145-188 | every reachable block is emitted once, the entry block last, and the target of an edge before its source unless it leads back |
| Postorder.PostorderSearch | src/mir/traversal.rs:145-188 | the order is that of a recursive depth-first search, which takes the successors of a block from the last to the first |
| Postorder.ReversePostorderTopological | src/mir/basic_blocks.rs:55-61 | without cycles the reversed order is topological and starts with the entry block |
| Postorder.EmitsPostorder | src/mir/traversal.rs:170-188 | from any point of the traversal what is still emitted completes a postorder |
| Postorder.EmitsSearch | src/mir/traversal.rs:170-188 | from any stack the iterator emits what that search emits below the topmost block, then the block, then goes on below it |
| Postorder.SameGraphSameOrder | src/mir/traversal.rs:162-168 | the order depends on the successors only |
| Postorder.Postorder.constructor | src/mir/traversal.rs:152-161 | a new iterator has the whole postorder before it |
| Postorder.Postorder.TraverseSuccessors | src/mir/traversal.rs:170-178 | walking down changes nothing of what is still to come |
| Postorder.Postorder.Next | src/mir/traversal.rs:180-188 | gives the next block of the order |
| Postorder.CollectReversePostorder | src/mir/basic_blocks.rs:55-61 | collecting and reversing gives the reverse postorder |
| BasicBlocks.ComputePredecessors | src/mir/basic_blocks.rs:43-54 | gives each block its predecessors, one entry for each edge, in block order |
| BasicBlocks.SameGraphSamePredecessors | src/mir/basic_blocks.rs:43-54 | predecessors depend on the successors only |
| BasicBlocks.BasicBlocks.Predecessors | src/mir/basic_blocks.rs:43-54 | the answer is a fresh computation on the current blocks, and every handle stays coherent |
| BasicBlocks.BasicBlocks.ReversePostorder | src/mir/basic_blocks.rs:55-61 | likewise for the reverse postorder |
| BasicBlocks.BasicBlocks.Clone | src/mir/basic_blocks.rs:20-24 | a clone shares the cache and every handle stays coherent |
| BasicBlocks.BasicBlocks.DirtyCache | src/mir/basic_blocks.rs:69-75 | the handle has an empty cache of its own afterwards and the others keep theirs |
| BasicBlocks.BasicBlocks.BlocksMut | src/mir/basic_blocks.rs:62-65 | after any edit through it queries are right again, for this handle and all others |
| BasicBlocks.BasicBlocks.BlocksMutDontDirty | src/mir/basic_blocks.rs:66-68 | an edit that keeps all successors leaves the cached facts right; any other bars queries until the cache is dirtied |
| BasicBlocks.BasicBlocks.IntoBlocks | src/mir/basic_blocks.rs:32-34 | giving up a handle leaves all others coherent |
| Infer.OccursMeaning | src/typecheck/infer.rs:34-64 | the occurs check finds a variable exactly if it is in every set closed under the bindings that has the type's variables |
| Infer.SolvesSimplify | src/typecheck/infer.rs:226-245 | simplifying a type does not change it under any solution of the bindings |
| Infer.CanonicalSolves | src/typecheck/infer.rs:71-74 | following the bindings is itself a solution of them |
| Infer.SimplifySame | src/typecheck/infer.rs:71-74 | a table with at least the solutions' constraints and the same unbound variables simplifies types alike |
| Infer.BindRanked | src/typecheck/infer.rs:102-105 | binding a variable that does not occur keeps the table acyclic |
| Infer.OccursRight | src/typecheck/infer.rs:89-92 | where a variable occurs in a type, some solution equates the two exactly if they simplify to the same type already |
| Infer.OccursLarger | src/typecheck/infer.rs:34-64 | where it occurs, the type is a variable that stands for it, or every solution makes the type larger |
| Infer.AliasRefused | src/typecheck/infer.rs:198-202 | an input to OccursRight: an aliased variable occurs in its alias, although every solution makes the two equal |
| Infer.MetFails | src/typecheck/infer.rs:109-223 | a run that meets a pair of clashing shapes, or a general variable and a different type in which it occurs, does not succeed |
| Infer.SwappedRefused | src/typecheck/infer.rs:198-202 | an input to Unify: with nothing bound, (a, b) is not unified with (b, a), although there is a solution that equates them |
| Infer.TypeInfer.Clear | src/typecheck/infer.rs:26-28 | empties the table |
| Infer.TypeInfer.FreshTy | src/typecheck/infer.rs:29-33 | a fresh variable is unbound, and the table stays valid |
| Infer.TypeInfer.SimplifyType | src/typecheck/infer.rs:71-74 | ends, with only unbound variables left |
| Infer.TypeInfer.UnifyVarTy | src/typecheck/infer.rs:89-108 | refuses exactly when the variable occurs; an unbound variable that does not is bound to the type and nothing else changes; on success the new solutions are the old ones that equate variable and type; on failure none did, or the run met an alias; the table stays acyclic and kinded |
| Infer.TypeInfer.UnifyTy | src/typecheck/infer.rs:109-223 | ends; on success result and table are what the unifier as a function gives, and the solutions of the new table are exactly the old ones that equate the two types; on failure the run has met, on the way recorded, a pair that nothing unifies at the table it then had, and either no solution equates the types, or that pair is a general variable and one that stands for it there, which all of them equate; the table stays acyclic and integer variables integer |
| Infer.TypeInfer.Unify | src/typecheck/infer.rs:109-223 | succeeds exactly if the unifier as a function does; on success both types and the result simplify to the same type, all earlier equalities still hold, and the bindings are most general; a variable without binding is refused exactly a different type in which it occurs; on failure as UnifyTy; and whenever some old solution equates the types and gives different variables different types, it succeeds |
| Patterns.UninhabitedEmpty | src/types/mod.rs:531-565 | a type that the emptiness test reports has no value |
| Patterns.Inhabitant | src/types/mod.rs:531-565 | and any other type has one |
| Emptiness.EmptyRight | src/types/mod.rs:531-565 | with definitions, recursive through boxes or not: under an accepted table, whenever the test ends it reports exactly the types without values |
| Emptiness.EndlessExactly | src/types/mod.rs:531-565 | under an accepted table the test does not end on a type exactly if that is one of some types each of which holds one of them, in a box, tuple or record behind types that have values, or as a payload behind payloads that have none |
| Emptiness.EndsWithin | src/types/mod.rs:531-565 | on a type in a finite set that is closed under what the test asks about, it is done within as many calls deep as the set has types, or never |
| Emptiness.NodeFirstEndless | src/types/mod.rs:531-565 | an input to EndlessExactly: an accepted variant with a value, whose first case holds it in a box, on which the test does not end |
| Emptiness.LeafFirstEnds | src/types/mod.rs:555-562 | with the two cases the other way round it ends |
| Emptiness.NotLookedInto | src/types/mod.rs:531-555 | a definition that is reported to be recursive is never called empty, and of the types that are not looked into only the one without values is |
| PatternTypes.TreeRight | src/patterns/ctors.rs:27-125 | the tree that pattern matching sees of a type with definitions, unfolded by value and cut off at boxes, is well formed, and has no values exactly if the type has none |
| PatternTypes.AcceptedTree | src/patterns/ctors.rs:27-79 | under an accepted table every type has such a tree, recursive through a box or not, and where the emptiness test ends it answers as the tree says |
| PatternTypes.TreeSame | src/patterns/ctors.rs:27-125 | how deep a type is unfolded does not matter, if it is deep enough |
| Patterns.ValueCtor | src/patterns/ctors.rs:27-125 | a value's constructor is in its type's constructor set, and what is below it has the constructor's field types |
| Patterns.MadeValue | src/patterns/ctors.rs:27-125 | each constructor of the set, put on values of its field types, makes a value of the type |
| Patterns.SpecializedMatches | src/patterns/pat.rs:109-146 | the matrix below a value's constructor matches what is below the value exactly if the matrix matches the value |
| Patterns.MissingRowsCover | src/patterns/pat.rs:190-261 | every tuple of values that no row matches is matched by a returned row; so an empty result means the match is exhaustive |
| Patterns.MissingRowsWitness | src/patterns/pat.rs:190-261 | every returned row is matched by some tuple of values that no row matches |
| Patterns.WitnessesExactly | src/patterns/ctors.rs:45-46 | for one column the witnesses exist exactly if the type is not a tuple or a box without values |
| Patterns.MissingRowsLength | src/patterns/pat.rs:226-257 | every returned row has one pattern for each column |
| Patterns.NothingMatched | src/patterns/pat.rs:147-189 | where nothing is matched there is one answer for each constructor, with wildcards below: true before false, and cases as declared |
| Patterns.SizeBelow | src/patterns/pat.rs:216-224 | the columns below a constructor have a smaller total size, so the recursion ends |
| Patterns.Specialize | src/patterns/pat.rs:109-146 | computes the specialised matrix |
| Patterns.SplitConstructors | src/patterns/pat.rs:147-189 | splits a constructor set into the seen and the missing ones, in order |
| Patterns.MissingPatternsInner | src/patterns/pat.rs:190-261 | computes the missing rows, in order, and ends |
| Patterns.MissingPatterns | src/patterns/pat.rs:95-107 | every unmatched value matches a returned pattern, and each returned pattern is matched by an unmatched value |
| Layout.AlignToIs | src/layout/mod.rs:53-58 | rounding up gives a multiple of the alignment less than one alignment away |
| Layout.AlignToLeast | src/layout/mod.rs:53-58 | and the least one |
| Layout.MultipleIs | src/layout/mod.rs:53-58 | a multiple of an alignment is a number of times its bytes |
| Layout.AggregateLayout | src/layout/mod.rs:405-433 | the loop over the fields computes the aggregate's layout |
| Layout.AggregateGood | src/layout/mod.rs:405-433 | fields are aligned, disjoint and in bounds, the size is a multiple of the alignment, and the two field maps are inverse |
| Layout.AggregateAlignment | src/layout/mod.rs:407-409 | some field is as aligned as the whole |
| Layout.SortedIs | src/layout/mod.rs:443-443 | the sort descends by alignment and keeps every field |
| Layout.SortedStable | src/layout/mod.rs:443-443 | equally aligned fields stay in declaration order |
| Layout.RecordGood | src/layout/mod.rs:434-445 | every record is a good aggregate in which each declared field has its own layout |
| Layout.RecordSize | src/layout/mod.rs:434-445 | each field takes up its size rounded up to the greatest alignment |
| Layout.RecordPermuted | src/layout/mod.rs:434-445 | the order of declaration changes neither size nor alignment |
| Layout.RecordLayout | src/layout/mod.rs:434-445 | computes the record's layout |
| VariantLayout.FormExactly | src/layout/mod.rs:331-403 | two cases share the room of a pointer if one is never null and the other takes no room at alignment one; other variants have a tag, of a byte for up to 255 cases and else of a word, and the least room for the first of their biggest cases; without cases there is no room |
| VariantLayout.DowncastExactly | src/layout/mod.rs:173-191 | the place of a case holds its payload as its only field, at the first aligned offset behind the tag |
| VariantLayout.TaggedOffset | src/layout/mod.rs:173-191 | behind a tag a payload starts at the greater of the two alignments, never inside the tag |
| VariantLayout.TaggedPayloadFits | src/layout/mod.rs:383-395 | a payload is in bounds, and aligned wherever the variant may stand, exactly if its case is no more aligned than the tag and the biggest case |
| VariantLayout.BiggestMostAligned | src/layout/mod.rs:383-395 | so every payload fits when the biggest case is also the most aligned |
| VariantLayout.WordPastEnd | src/layout/mod.rs:383-395 | a given variant whose payload reaches past its end |
| VariantLayout.NichePayloadFits | src/layout/mod.rs:359-382 | without a tag both payloads start at the start, fit and are aligned |
| VariantLayout.DowncastGood | src/codegen/mod.rs:605-623 | the place of a case is a good one-field aggregate holding the case's layout |
| VariantLayout.BytesRoundTrip | src/codegen/mod.rs:1810-1820 | a number that fits is read back from its bytes |
| VariantLayout.TagHolds | src/collect/mod.rs:100-111 | the chosen tag can hold every case's index |
| VariantLayout.StoreVariant | src/codegen/mod.rs:1788-1847 | writes the payload and then the index exactly where the form has one |
| VariantLayout.LoadDiscriminant | src/codegen/mod.rs:1668-1737 | reads the discriminant from memory |
| VariantLayout.TaggedRoundTrip | src/codegen/mod.rs:1668-1737 | the tagged form reads back every case and payload, and writes inside the variant if the case fits |
| VariantLayout.NicheRoundTrip | src/codegen/mod.rs:1668-1737 | the form without tag reads back the empty case always and the pointer's case exactly if the pointer is not the other's index |
| VariantLayout.VariantRoundTrip | src/codegen/mod.rs:1788-1847 | whichever form is chosen, what was stored is read back |
| VariantLayout.NicheAgreesWithTagged | src/layout/mod.rs:359-395 | the two forms read back the same |
| Types.BindCompose | src/scheme.rs:18-37 | binding twice is binding once with the bound arguments, parameters out of range included |
| Types.BindIdentity | src/scheme.rs:18-37 | binding the parameters to themselves changes nothing, and a parameter without an argument becomes unknown |
| Types.ClosedBind | src/scheme.rs:18-37 | closed arguments for all parameters give a closed type |
| RecursiveTypes.RecursiveIndirection.VisitType | src/collect/mod.rs:312-335 | the visitor ends and computes the set of named types seen and the flag |
| RecursiveTypes.CheckRecursive | src/collect/mod.rs:308-344 | the check computes the flag that the visitor of a fresh seen set ends with |
| TypeUnfolding.RecursiveExactly | src/collect/mod.rs:308-344 | the check refuses a definition exactly if some named type is met at two places of its unfolding, which goes through everything but arrays, boxes and functions |
| TypeUnfolding.VisitFinds | src/collect/mod.rs:312-335 | from any seen set: the flag tells whether a name repeats, and the seen set which names are met |
| RecursiveTypes.VisitedUnfolds | src/collect/mod.rs:312-335 | what the visitor passes unfolds finitely by value |
| RecursiveTypes.UnfoldsBind | src/layout/mod.rs:483-510 | substituting types that unfold finitely into one that does gives one that does |
| RecursiveTypes.AcceptedUnfolds | src/collect/mod.rs:308-344 | when every definition passes, every type unfolds finitely, nested generic instances included |
| FiniteTypes.FiniteExactly | src/layout/mod.rs:446-512 | every type unfolds finitely, nested generic instances included, exactly if no definition contains itself by value |
| FiniteTypes.CheckExactly | src/collect/mod.rs:308-344 | a table is accepted exactly if no definition meets a name twice, and then all types are finite |
| FiniteTypes.ContainedRefused | src/collect/mod.rs:308-344 | a definition that contains itself by value is refused |
| RecursiveTypes.DiamondRefused | src/collect/mod.rs:318-322 | an input to RecursiveExactly: a definition that holds another twice is refused although it unfolds in two steps |
| FiniteTypes.PointedRefused | src/collect/mod.rs:329-330 | an input to RecursiveExactly: a record that holds only a raw pointer to itself is refused although it unfolds in one step |
| FiniteTypes.WrappedRefused | src/collect/mod.rs:317-328 | an input to RecursiveExactly: a generic wrapper around itself as its argument is refused although it unfolds in three steps |
| CalculateLayout.CalculatedSound | src/layout/mod.rs:446-512 | every computed layout is sound all the way down: good aggregates, variants as above, sizes multiples of alignments; what each kind of type is laid out as is in the next rows |
| CalculateLayout.TupleLayout | src/layout/mod.rs:483-485 | a tuple is a record of its fields: a good aggregate in which the i-th field has the layout of the i-th type |
| CalculateLayout.NamedRecordLayout | src/layout/mod.rs:486-495 | so is a named record, with the type's arguments put into the types of its declared fields |
| CalculateLayout.NamedVariantLayout | src/layout/mod.rs:496-508 | a variant has as many cases as it declares, in that order, each with the layout of its payload, the arguments put in, or of nothing |
| CalculateLayout.UninitLayout | src/layout/mod.rs:451-459 | uninitialised memory has the size and alignment of its content |
| CalculateLayout.LeafLayout | src/layout/mod.rs:450-482 | bytes and alignment of every other type: 1 of booleans and small integers, 4 of characters, 8 of pointers, 16 and 8 of arrays and strings, which are a pointer and behind it a length, 0 and 1 of the type without values |
| CalculateLayout.LeafError | src/layout/mod.rs:460-480 | which types have no layout, and the error for them |
| CalculateLayout.FirstError | src/layout/mod.rs:434-445 | the first component without a layout decides the error |
| CalculateLayout.LayoutUnique | src/layout/mod.rs:446-512 | a type has one layout at most |
| CalculateLayout.AcceptedHasLayout | src/layout/mod.rs:446-512 | under an accepted table every closed type has a layout, which is the one that the rows above speak of, and it is sound |
| CalculateLayout.BoundIrrelevant | src/layout/mod.rs:446-512 | the layout does not depend on the depth bound |
| CalculateLayout.SoundVariantRoundTrip | src/codegen/mod.rs:1788-1847 | in a computed layout every stored case is read back with its payload |
| CalculateLayout.SoundPayloadFits | src/layout/mod.rs:331-403 | in a computed layout a payload fits exactly if its case is no more aligned than the variant |
| Monomorph.NeededIsLeast | src/monomorph/collect.rs:48-90 | the needed instances are the least set with the entry that is closed under mention |
| Monomorph.InstanceCollector.Collect | src/monomorph/collect.rs:48-90 | returns each needed instance once, the entry first, and ends if there are finitely many; needed is what some needed body mentions, which is all that can be called (FunctionFlow.CollectedEnough) |
| Monomorph.VisitBody | src/monomorph/collect.rs:57-87 | pushes the instance of each function constant of a body, in order, which are those that occur in it (FunctionFlow.BodyFnsOccur) |
| FunctionFlow.BodyFnsOccur | src/monomorph/collect.rs:57-87 | the functions that a body mentions are those that are an operand anywhere in it: as callee, argument, field, part of an operation or cast, printed, asserted or switched on |
| FunctionFlow.StepHolds | src/monomorph/collect.rs:57-87 | while the values at hand and the mentions of a body hold functions of a set only, every step keeps that, and a call is of one of them, with such arguments |
| FunctionFlow.RestrictedResult | src/monomorph/collect.rs:48-90 | functions that mention none outside a set have the same results, through any depth of calls, when the program is cut down to that set |
| FunctionFlow.CollectedEnough | src/codegen/mod.rs:1368-1379 | so the entry has the same result in the program of the needed instances alone, each being its generic body with its arguments put in, if arithmetic makes up no functions |
| Monomorph.NeededGround | src/monomorph/collect.rs:62-66 | a ground entry with parameters in range needs ground instances only |
| Monomorph.GrowingInfinite | src/monomorph/collect.rs:51-88 | a given function that mentions itself at a larger type needs infinitely many instances |
| Printer.RoundTrip | src/parsing/parse.rs:724-754 | parsing a printed expression gives it back and leaves what follows; the printer puts parentheses only around what binds too little |
| Printer.BareTooWeak | src/parsing/parse.rs:724-737 | and without such parentheses it is not read back |
| Grammar.GrammarExactly | src/parsing/parse.rs:415-754 | the parser gives an expression and what is left exactly if some tree of the grammar denotes that expression and has just the tokens before what is left, with which no expression could go on; so it gives an error exactly if there is none. In the grammar equal operators group to the right and assignments to the left, parentheses may stand around anything, a tuple has a comma, and a comma may end a list |
| Grouping.ChainGroups | src/parsing/parse.rs:724-737 | any number of operands with operators between them are split at the first operator that binds least: products, quotients and bitwise and bind most, then sums, differences and bitwise or, then less and greater, then equality, then and, then or |
| Grouping.ThreeNumbers | src/parsing/parse.rs:184-199 | in particular a + b * c is read as a + (b * c), and of two operators of a kind the second is inside the first; and each token is read as its operator |
| Grouping.AssignGroups | src/parsing/parse.rs:738-754 | an equals sign assigns the operands up to the next one to everything before it |
| Grammar.BpRead | src/parsing/parse.rs:724-737 | after the tokens of an operand, however it is written, the parser has read it and goes on with its loop, at any power up to the operand's |
| Grammar.PostfixRead | src/parsing/parse.rs:666-723 | after the tokens of anything but an operation or an assignment the parser has read it, whatever follows |
| Grammar.TooWeak | src/parsing/parse.rs:724-737 | an operation or assignment that binds less than the level is not read there without parentheses |
| Parser.TokenOf | src/parsing/parse.rs:184-199 | each operator has a token that is read as it; which one is in Grouping.ThreeNumbers |
| Parser.Parser.ParseExpr | src/parsing/parse.rs:738-754 | the assignment loop computes the specified parse and ends |
| Parser.Parser.ParseExprBindingPower | src/parsing/parse.rs:724-737 | the operator loop computes the specified parse and ends, which groups as Grouping.ChainGroups says |
| Parser.Parser.ParseExprPostfixSingle | src/parsing/parse.rs:666-710 | reads one call, method call or dereference |
| Parser.Parser.ParseExprPostfix | src/parsing/parse.rs:711-723 | likewise the postfix loop |
| Parser.Parser.ParseParenExpr | src/parsing/parse.rs:415-442 | likewise what stands in parentheses |
| Parser.Parser.DelimitedComaSep | src/parsing/parse.rs:139-171 | likewise comma-separated lists |

## Left out

- Heap projections, `Copy`, `GcAlloc`, `ReadLine`, `ArrayPtr`, `Len`, array and string aggregates and string constants: the MIR semantics has no heap.
- A block's terminator is always present, as every pass expects; source locations and the names of locals, parameters and nominal types are dropped, and with them the assertion on parameter names during unification.
- `RemoveZst` and `DumpMir` among the passes, and `dominators`.
- Inlining a body into itself, or calling a function without a body: the source aborts, and `Inline.RunPass` then returns false, with a body that still refines the first.
- SimplifyCfg.RunPass: a body on which the loop does not end is left out, as the source never returns on it; `SimplifyCfg.SweepsSame` still covers every sweep. The pass is stated for bodies whose entry block has no incoming edge; `SimplifyCfg.SimplifiedSameExactly` covers each step on all others.
- Pipeline.Optimise: a body on which a loop does not end is left out, as the source never returns on it.
- Program.ReplaceBody: concerns functions with a result. Of one that gets stuck or never returns it is promised that it prints as much (`Traces.ReplaceBodyPrints`), not that it still has no result; a body that runs for ever, its calls all coming back, does so after every pass.
- What the bindings are after a failed unification: nothing is promised but that the table stays acyclic and kinded.
- Patterns.MissingPatterns: takes it as given whether the content of a box has values; where the emptiness test does not end (`Emptiness.EndlessExactly`) the source does not return.
- Opaque types, numbers and characters are infinite domains to pattern matching; the emptiness test's special answer for types that the check for recursive types reports is modelled in `Emptiness.dfy` only.
- `backend_repr`, register pairs and the ABI: a variant's bytes are modelled as in memory, little endian; a variant of a single case is treated like any other.
- The overflow of 64-bit sizes, which the source turns into a panic, and the error for layouts that are too big.
- The parser's other expressions (paths of several names, generics, records, blocks, control flow, lambdas, annotations, indexing) and error messages; tokens that begin them are not in the model's token type.
- The lexer, name resolution, the type checker around unification, diagnostics, the runtime and the standard library.
- Interners and other caches that only memoise.
