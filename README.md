# Chuffed decision layer: composite branchings and the hash-consed layered graph

This project models two pieces of the Chuffed constraint solver's decision layer
in Dafny and proves what they promise.

**Composite branchings** (`chuffed/branching/branching.cpp`, module `Branching` in
`branching.dfy`). A `BranchGroup` delegates each `branch()` call to one child
branching. It may take the cached child `cur`. Otherwise it takes the first
unfinished child (encounter order), or the lowest-indexed unfinished child at the
best score (scored strategies). Its `finished()` caches a true answer in `fin`.
A `RandomBranch` walks its children with a forward-only cursor. Each step swaps the
child at the cursor with a random child of the remaining suffix (one step of a
Fisher-Yates shuffle). The factory `branch(x, var_branch, val_branch)` builds a
`RandomBranch` for the random strategy and a terminal `BranchGroup` otherwise. It
also resolves the value policy into the preferred-value hint given to every variable.

A child branching is a record `Child(finished, score)`. The score is the child's
`getScore` under the group's strategy. The opaque decision a leaf returns is
replaced by `Delegate(i)`, "delegated to child i", or `NoDecision` (NULL).
`BranchGroup` and `RandomBranch` are classes whose methods update `fin`, `cur`,
`moves` and `x` in place. Each method is proved against specification functions:
`FirstUnfinished`, `MaxScore`, `Tied`, `BestMoves`, `Select` and `Shuffle` (the
swap-then-test walk of the random branching, driven by the sequence of `rand()`
draws). Their contracts and the lemmas about them state the selection rules outright.

**Layered-graph node store** (`chuffed/mdd/weighted_dfa.h`, module `WeightedDfa` in
`weighted_dfa.dfy`). Node records are `NodeInfo(variable, sz, edges)` with edges
`EInfo(val, weight, dest)`. `EqNode` is the cache's equality functor, a scan with
early exit. It is proved equal to the content relation `SameContent` and, on
well-formed records, to plain equality. `HashNode` is the cache's hash functor. It
is a djb2 seed over the variable and the size, followed by MurmurHash3 over the
edge bytes. MurmurHash3 is passed in as a function parameter, which makes it
deterministic with no further assumption. `LayerGraph` is the store: an arena `nodes`
plus a content-to-id map `cache`. Its `Insert` is proved against the pure
hash-consing function `HashCons`. `EVNode` is the `(graph, index)` view.

Integer widths are explicit. Node variables and sizes are `uint32`, and the seed
arithmetic wraps modulo 2^32. Edge fields are `int32`.

## Model

| member | source | states |
|---|---|---|
| `Branching.FirstUnfinished` | chuffed/branching/branching.cpp:36-39 | the result is the lowest index at or after `from` whose child is unfinished, or `|x|` when every child from there on is finished |
| `Branching.MaxScore` | chuffed/branching/branching.cpp:47-59 | the best score among unfinished children: attained by some unfinished child and at least every unfinished child's score; None exactly when all children are finished |
| `Branching.Tied` | chuffed/branching/branching.cpp:52-58 | exactly the indices of unfinished children with score `s`, in strictly increasing order |
| `Branching.BestMoves` | chuffed/branching/branching.cpp:47-60 | the tie set `moves`: exactly the unfinished children whose score is maximal, increasing; empty exactly when every child is finished |
| `Branching.Select` | chuffed/branching/branching.cpp:35-71 | no decision exactly when all children are finished; otherwise an unfinished child that is, in encounter order, preceded only by finished children, and in scored mode of maximal score and, without random tie-break, strictly better than every unfinished child before it |
| `Branching.ScanStep` | chuffed/branching/branching.cpp:50-58 | one iteration of the scan: a finished or worse child changes nothing, a strictly better one restarts `moves` as `[i]`, an equal one appends `i` |
| `Branching.BranchGroup.constructor` | chuffed/branching/branching.cpp:9-10 | a new group has `fin` unset, `cur == -1` and the given children, strategy and terminal flag |
| `Branching.BranchGroup.Finished` | chuffed/branching/branching.cpp:12-19 | once `fin` is set it answers true and keeps `fin`; while unset it answers whether every child is finished and sets `fin` exactly then |
| `Branching.BranchGroup.FastPath` | chuffed/branching/branching.cpp:30 | the cached child is taken only by a non-terminal group, and never once every child is finished |
| `Branching.BranchGroup.Branch` | chuffed/branching/branching.cpp:29-72 | with an unfinished cached child it delegates to `cur` and changes nothing; otherwise its decision is `Select` of the children, `cur` changes only in a non-terminal group and only to the chosen child, and `moves` becomes `BestMoves` in scored mode |
| `Branching.BranchGroup.FindNewChild` | chuffed/branching/branching.cpp:35-71 | the slow path: decision equal to `Select`, `cur` written only when the group is non-terminal and a child was chosen |
| `Branching.BranchGroup.ScanScores` | chuffed/branching/branching.cpp:47-59 | after the scan `moves` equals `BestMoves` of the children |
| `Branching.RepeatedBranchSameChild` | chuffed/branching/branching.cpp:29-72 | two calls of `branch()` with nothing changed in between, each with its own draw, either both return no decision (exactly when all children are finished) or both delegate; they delegate to the same child for a non-terminal group, in encounter order, and without random tie-breaking, but a terminal scored group with random tie-breaking may pick another tied child |
| `Branching.SelectIgnoresRnd` | chuffed/branching/branching.cpp:35-65 | without random tie-breaking, or in encounter order, the new child does not depend on the draw |
| `Branching.Swap` | chuffed/branching/branching.cpp:114 | the two positions exchange their children and every other position keeps its own |
| `Branching.SwapInSuffix` | chuffed/branching/branching.cpp:114 | a swap of two positions at or after the cursor leaves the prefix untouched and the suffix a permutation of itself |
| `Branching.PermutedFinished` | chuffed/branching/branching.cpp:112-121 | permuting the suffix neither creates nor removes unfinished children |
| `Branching.RandomBranch.constructor` | chuffed/branching/branching.cpp:85-86 | a new random branching starts with its cursor at 0 |
| `Branching.RandomBranch.Add` | chuffed/branching/branching.cpp:125 | appends one child and leaves the cursor alone |
| `Branching.RandomBranch.Finished` | chuffed/branching/branching.cpp:88-103 | the cursor never decreases and becomes the first unfinished index at or after its old value (or `|x|`); the answer is true exactly when the cursor reaches `|x|` |
| `Branching.Pick` | chuffed/branching/branching.cpp:114 | the draw selects a position in the remaining suffix `idx .. sz - 1` |
| `Branching.Shuffle` | chuffed/branching/branching.cpp:110-121 | the walk keeps the length and stops at a position between its start and `|x|` |
| `Branching.ShufflePermutes` | chuffed/branching/branching.cpp:110-121 | the walk leaves every position before its start alone and permutes the rest |
| `Branching.ShuffleStops` | chuffed/branching/branching.cpp:110-121 | every child the walk passes over is finished, and the child it stops at (if any) is unfinished |
| `Branching.ShuffleExhausts` | chuffed/branching/branching.cpp:110-121 | the walk runs to the end exactly when every child from its start on was finished |
| `Branching.RandomBranch.Branch` | chuffed/branching/branching.cpp:107-123 | the new children and cursor are those of the walk `Shuffle` from the old cursor with the draws `rand`; the result delegates to the new cursor, or is no decision when the cursor reached `|x|` |
| `Branching.CompositeFor` | chuffed/branching/branching.cpp:130-136 | a random branching exactly for the random strategy, otherwise a terminal group with the requested strategy |
| `Branching.PreferenceOf` | chuffed/branching/branching.cpp:138-146 | the default policy sets no preference, the four supported policies set one, every other policy is an error |
| `Branching.ValBranchOf` | chuffed/branching/branching.cpp:141-144 | every preference comes from a supported, non-default policy |
| `Branching.PreferenceRoundTrip` | chuffed/branching/branching.cpp:141-144 | the four supported policies and the four preferences correspond one to one |
| `Branching.MakeBranching` | chuffed/branching/branching.cpp:128-147 | builds a fresh `RandomBranch` at cursor 0 exactly for the random strategy, else a fresh terminal `BranchGroup` with nothing cached, and returns the resolved preference or the error |
| `WeightedDfa.EqNode` | chuffed/mdd/weighted_dfa.h:109-127 | true exactly when variable and size agree and every edge agrees in value, destination and weight; false whenever variable or size differ |
| `WeightedDfa.SameContentIsEquality` | chuffed/mdd/weighted_dfa.h:109-127 | on well-formed records the cache equality is exactly record equality |
| `WeightedDfa.SameContentReflexive` | chuffed/mdd/weighted_dfa.h:109-127 | the cache equality is reflexive |
| `WeightedDfa.SameContentSymmetric` | chuffed/mdd/weighted_dfa.h:109-127 | the cache equality is symmetric |
| `WeightedDfa.SameContentTransitive` | chuffed/mdd/weighted_dfa.h:109-127 | the cache equality is transitive |
| `WeightedDfa.WeightDifferenceNotMerged` | chuffed/mdd/weighted_dfa.h:20-23 | no normalisation: records differing in one edge weight are not equal, so they are not merged |
| `WeightedDfa.Djb2Step` | chuffed/mdd/weighted_dfa.h:135-136 | `(h << 5) + h + c` with unsigned wrap-around is `(33 h + c) mod 2^32` |
| `WeightedDfa.Seed` | chuffed/mdd/weighted_dfa.h:133-136 | the seed is `((5381 * 33 + var) * 33 + sz) mod 2^32` |
| `WeightedDfa.EdgeBytes` | chuffed/mdd/weighted_dfa.h:147 | the hashed byte string is `sizeof(EInfo) * sz` = 12 bytes per edge |
| `WeightedDfa.HashNode` | chuffed/mdd/weighted_dfa.h:131-151 | the hash is MurmurHash3 over the 12-byte images of all `sz` edges, seeded with the djb2 mix `Seed` of the variable and the edge count |
| `WeightedDfa.HashRespectsEqNode` | chuffed/mdd/weighted_dfa.h:129-153 | records equal under the cache equality get equal hashes, for any deterministic MurmurHash3 |
| `WeightedDfa.ViewEq` | chuffed/mdd/weighted_dfa.h:43-46 | two views are equal exactly when graph and index are equal |
| `WeightedDfa.ViewNe` | chuffed/mdd/weighted_dfa.h:47-50 | `!=` is the negation of `==` |
| `WeightedDfa.Find` | chuffed/mdd/weighted_dfa.h:153 | the cache probe: a position holding the record, or none exactly when the record is not stored |
| `WeightedDfa.HashCons` | chuffed/mdd/weighted_dfa.h:153-160 | the returned id holds the record; stored records keep their ids; a stored record adds nothing, a new one is appended under the next id |
| `WeightedDfa.HashConsKeepsDistinct` | chuffed/mdd/weighted_dfa.h:12-13 | insertion keeps at most one stored record per content |
| `WeightedDfa.HashConsCanonical` | chuffed/mdd/weighted_dfa.h:153-160 | inserting content equal to an earlier insertion returns the earlier id and stores nothing |
| `WeightedDfa.HashConsSeparates` | chuffed/mdd/weighted_dfa.h:153-160 | inserting content not equal to an earlier insertion returns a different id |
| `WeightedDfa.LayerGraph.constructor` | chuffed/mdd/weighted_dfa.h:157 | a new store is empty and consistent |
| `WeightedDfa.LayerGraph.Candidate` | chuffed/mdd/weighted_dfa.h:160 | the record built for `insert` is well formed and carries the level and the edges |
| `WeightedDfa.LayerGraph.Insert` | chuffed/mdd/weighted_dfa.h:153-160 | the arena and id are `HashCons` of the old arena; the cache maps the content to the id; content equal to a stored node returns that node's id and leaves the arena unchanged; the store stays duplicate-free |
| `WeightedDfa.LayerGraph.TravEnd` | chuffed/mdd/weighted_dfa.h:166 | the end view belongs to this graph and has a negative index |
| `WeightedDfa.TravEndIsNoNode` | chuffed/mdd/weighted_dfa.h:166 | the end view differs from the view of every stored node |

## Left out

- `BranchGroup::getScore` (chuffed/branching/branching.cpp:21-27) is a floating-point mean divided by `x.size()`. Scores are integers here, with "no candidate yet" as `None` instead of the `-1e100` sentinel. A real score at or below `-1e100`, or NaN, is not modelled.
- `RandomBranch::getScore` aborts through `NEVER`, so it has no model.
- Branching.BranchGroup.Branch: the random tie-break `rand()` and the global flag `so.branch_random` become the parameters `rnd` and `branchRandom`.
- Branching.RandomBranch.Branch: `rand()` becomes the oracle `rand`, where `rand(k)` is the k-th call made during one `branch()`. Only its value modulo the suffix length matters.
- Trailing is not modelled: `RandomBranch`'s `Tint cur` is restored by the engine's trail on backtracking, and whatever trail the solver keeps for the group's state is likewise out of scope. The group's `fin` and `cur` and the random branching's `cur` are plain fields here.
- Children are values, not shared objects. A child's own `finished()` and `branch()` (and their side effects on nested composites) are opaque.
- `engine.branching->add`, the `Var*` cast with `setPreferredVal` and the debug `fprintf` are engine and I/O effects. `MakeBranching` returns the preference that would be applied to every element.
- The abort in `CHUFFED_ERROR` becomes the error result `Err(UnsupportedValueBranching)`. In the source the new branching is already registered when this abort happens, but the process stops.
- The enumerations `VarBranch` and `ValBranch` are declared in branching.h, which is not part of this model. Scored strategies are `VarScored(h)`, and unsupported value policies are `ValOther(code)`.
- Branching.BranchGroup.constructor: the constructor without children (chuffed/branching/branching.cpp:6-7) and `BranchGroup::add` are not modelled.
- Branching.RandomBranch.constructor: the constructor without children (chuffed/branching/branching.cpp:83-84) is not modelled; it is the given-children constructor applied to `[]`.
- MurmurHash3 is a foreign library and is a function parameter here. `OpCache` is left out for the same reason. The disabled djb2 edge loop under `#if 0` (chuffed/mdd/weighted_dfa.h:137-145) is dead code.
- The bodies of `insert`, `traverse`, `create_edges` and `wdfa_to_layergraph` (chuffed/mdd/weighted_dfa.h:160-164, 195-200) are not part of this model. `Insert` carries only the hash-consing contract, and traversal order, `status`, `travBegin`, node-view iteration and layer construction are not modelled.
- The constructor of the store and the sentinel ids `EVFalse`/`EVTrue` are defined in weighted_dfa.cpp, which is not part of this model. The modelled arena starts empty.
- `insert` takes an `int` level and stores it in an unsigned field. The model takes the level as a `uint32` and does not model the conversion of a negative level.
- Raw memory management is replaced by sequences: `allocNode`/`deallocNode`, the flexible `edges[1]` array, the `intermed` scratch buffer and the destructor. The little-endian byte layout of an edge is written out, but no round-trip of it is proved.
