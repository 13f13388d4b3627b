# Dataflow transfer functions of Passes/DFA

This project models the three analyses that the LLVM passes in `Passes/DFA`
plug into a generic worklist dataflow engine, and proves what each of them
computes:

- **Liveness** (`LivenessAnalysis.cpp`): a backward analysis. Its fact is the
  set of indices of the instructions whose values may still be used. A
  value-defining instruction kills its own index and generates its tracked
  operands. A run of phis kills every phi of the run. It then splits its result
  edge by edge: each incoming value goes only to the edge that leads back to its
  incoming block.
- **Reaching definitions** (`ReachingDefinitionAnalysis.cpp`): a forward
  analysis over sets of indices. Nothing is killed. A value-defining
  instruction, or each phi of a phi run, adds its own index.
- **May-point-to** (`MayPointToAnalysis.cpp`): a forward analysis over two maps.
  - The register map sends an instruction index to the allocation sites it may
    point to.
  - The memory map sends a location to the locations that may be stored in it.
  - There are rules for alloca, bitcast, getelementptr, load, store, select and
    phi.

Each analysis has the same two parts:

- An Info lattice. `equals` and `join` are pure functions (`IndexSets` for the
  two set-valued analyses, whose code is identical, and `MayPointTo` for the
  map pair). The in-place mutators live on a class (`LivenessInfo`,
  `MayPointToInfo`) with `modifies` clauses.
- A `FlowFunction` method written as the source's loops are. It joins the facts
  of the incoming edges into `combineInfo`, applies the opcode's rule, and
  returns one fact per outgoing edge (`Ir.Copies`). In Liveness and
  May-point-to `combineInfo` is a fresh Info object and the rule runs through
  its mutators; in Reaching, whose Info has no mutators, it is a set value
  that each step rebinds to a new join, as the source rebinds its pointer.
  Its postcondition ties every returned fact to a declarative specification
  function:
  - `Liveness.LiveOut` gives the fact for each outgoing edge.
  - `Reaching.RdOut` and `MayPointTo.Transfer` give the single broadcast fact.

  The properties of the analyses are lemmas about these functions.

The LLVM IR is abstracted in module `Ir`:

- An instruction is its index, an opcode, its operands and, for a phi, its
  (incoming value, index of the incoming block's terminator) pairs.
- An operand is `Tracked(idx)` when it is an instruction of the analysed
  function, and `External` otherwise. This replaces the `InstrToIndex.find`
  tests.
- "The rest of the block" is the sequence `run`, whose first element is the
  current instruction. The `getNextNode` walks become `PhiRunLength(run)`.

Two behaviours of the code are easy to misread, and the model follows the
code in both:

- **The phi rule of may-point-to.** It inserts the points-to sets of every
  incoming value of every phi of the run under the index of the run's FIRST
  phi. The loop advances `I`, but the target stays `idx`
  (`MayPointToAnalysis.cpp:247-263`). In that call no later phi of the run
  gets a set; each later phi gets one from its own call, made of its own and
  the following phis' incoming values.
- **Liveness opcodes outside the list.** Liveness treats only the opcodes it
  lists (`LivenessAnalysis.cpp:85-108`) as definitions. bitcast, store, call and
  every other opcode fall into the "other" case: they generate their tracked
  operands and kill nothing.

## Model

| member | source | states |
|---|---|---|
| `Ir.TrackedIndices` | Passes/DFA/LivenessAnalysis.cpp:110-115 | an index is in the result exactly when `Tracked(index)` is among the operands; untracked operands contribute nothing |
| `Ir.PhiRunLength` | Passes/DFA/LivenessAnalysis.cpp:122-126 | the walk covers only phis and stops at the first non-phi of the block (or its end) |
| `Ir.DefinesValue` | Passes/DFA/LivenessAnalysis.cpp:85-108 | the value-defining opcode list (the same as `ReachingDefinitionAnalysis.cpp:75-98`) contains alloca, load, getelementptr and select, and leaves out phi, bitcast and store |
| `Ir.Indices` | Passes/DFA/ReachingDefinitionAnalysis.cpp:101-106 | an index is in the result exactly when it is the index of some phi of the run |
| `IndexSets.Equals` | Passes/DFA/LivenessAnalysis.cpp:32-35 | `equals` is true exactly when the two index sets are equal; `ReachingDefinitionAnalysis.cpp:30-33` is the same code |
| `IndexSets.Join` | Passes/DFA/LivenessAnalysis.cpp:37-50 | the result contains both inputs and nothing outside them, so it is exactly their union |
| `IndexSets.JoinLaws` | Passes/DFA/ReachingDefinitionAnalysis.cpp:35-48 | `join` is commutative, associative and idempotent, and it is the least upper bound of inclusion |
| `IndexSets.JoinedIncoming` | Passes/DFA/LivenessAnalysis.cpp:80-83 | the fold of `join` over the incoming edges contains the fact of every incoming edge; `ReachingDefinitionAnalysis.cpp:70-73` is the same loop |
| `IndexSets.JoinedIncomingMembers` | Passes/DFA/LivenessAnalysis.cpp:80-83 | an index is in the joined incoming fact exactly when it is in the fact of some incoming edge |
| `Liveness.LivenessInfo.constructor` | Passes/DFA/LivenessAnalysis.cpp:15 | a fresh LivenessInfo is empty |
| `Liveness.LivenessInfo.Singleton` | Passes/DFA/LivenessAnalysis.cpp:16-18 | `LivenessInfo(index)` holds exactly `{index}` |
| `Liveness.LivenessInfo.SetInfo` | Passes/DFA/LivenessAnalysis.cpp:63-65 | the set becomes the given one |
| `Liveness.LivenessInfo.Insert` | Passes/DFA/LivenessAnalysis.cpp:56-58 | afterwards `idx` is a member; every other index keeps its membership |
| `Liveness.LivenessInfo.Remove` | Passes/DFA/LivenessAnalysis.cpp:52-54 | afterwards `idx` is not a member; every other index keeps its membership |
| `Liveness.EdgeGen` | Passes/DFA/LivenessAnalysis.cpp:133-143 | `v` is generated for the edge to terminator `t` exactly when `(Tracked(v), t)` is an incoming pair of the phi |
| `Liveness.PhiGen` | Passes/DFA/LivenessAnalysis.cpp:131-146 | `v` is generated for the edge to `t` exactly when some phi of the run has the incoming pair `(Tracked(v), t)` |
| `Ir.Copies` | Passes/DFA/LivenessAnalysis.cpp:117-119 | exactly `count` facts are pushed, each equal to the given fact; the same loop ends all three transfer functions (`ReachingDefinitionAnalysis.cpp:107-109`, `MayPointToAnalysis.cpp:265-267`) |
| `Liveness.JoinOperands` | Passes/DFA/LivenessAnalysis.cpp:110-116 | the operand loop adds exactly the tracked operand indices to `combineInfo` |
| `Liveness.RemovePhiRun` | Passes/DFA/LivenessAnalysis.cpp:122-126 | the first phi walk removes exactly the indices of the run's phis |
| `Liveness.AddIncoming` | Passes/DFA/LivenessAnalysis.cpp:133-143 | edge `j`'s fact gains exactly the tracked incoming values whose incoming block's terminator is `OutgoingEdges[j]` |
| `Liveness.AddPhiIncoming` | Passes/DFA/LivenessAnalysis.cpp:130-146 | the second phi walk adds to each edge's fact exactly `PhiGen` of the run for that edge |
| `Liveness.LiveOut` | Passes/DFA/LivenessAnalysis.cpp:109-158 | the specification of one edge's fact: nothing but `idx` or the indices of the phi run leaves the joined fact, and outside a phi run nothing but the tracked operands enters it |
| `Liveness.FlowFunction` | Passes/DFA/LivenessAnalysis.cpp:74-160 | one fact per outgoing edge, and fact `j` is `LiveOut` of the joined incoming facts for the target `OutgoingEdges[j]` |
| `Liveness.DefKillGen` | Passes/DFA/LivenessAnalysis.cpp:85-116 | for a listed value-defining opcode, the fact on every edge is exactly (joined minus `idx`) plus the tracked operands |
| `Liveness.OtherOnlyGens` | Passes/DFA/LivenessAnalysis.cpp:148-155 | for any other non-phi opcode, nothing is removed and exactly the tracked operands are added |
| `Liveness.BroadcastOutsidePhi` | Passes/DFA/LivenessAnalysis.cpp:156-158 | outside a phi run, every outgoing edge gets the same fact |
| `Liveness.PhiBaseKept` | Passes/DFA/LivenessAnalysis.cpp:122-129 | in a phi run, every edge keeps each joined index that is not a phi of the run |
| `Liveness.PhiEdgeSplit` | Passes/DFA/LivenessAnalysis.cpp:131-146 | beyond the base fact, an index reaches the edge to `t` exactly when it is a tracked incoming value from the block that ends in `t` |
| `Liveness.PhiUnmatchedEdge` | Passes/DFA/LivenessAnalysis.cpp:138-142 | an edge whose target is the terminator of no incoming block keeps exactly the base fact |
| `Liveness.OnlyTrackedEnter` | Passes/DFA/LivenessAnalysis.cpp:110-155 | every index in an outgoing fact was joined in, or is a tracked operand, or is a tracked incoming value for that edge |
| `Liveness.LiveOutMonotone` | Passes/DFA/LivenessAnalysis.cpp:74-160 | a larger joined fact gives a larger fact on every edge |
| `Liveness.StraightLineExample` | Passes/DFA/LivenessAnalysis.cpp:109-119 | `%1 = add; %2 = add %1, %1; ret`: `%1` is live above `%2`, and nothing is live above `%1` |
| `Liveness.PhiSplitExample` | Passes/DFA/LivenessAnalysis.cpp:131-146 | for `%m = phi [%a, A], [%b, B]`, the edge back to A carries `%a` and not `%b`, and the edge back to B carries `%b` and not `%a` |
| `Reaching.JoinIncoming` | Passes/DFA/ReachingDefinitionAnalysis.cpp:70-73 | the loop over the incoming edges gives exactly the join of their facts, starting from the empty fact |
| `Reaching.JoinPhiRun` | Passes/DFA/ReachingDefinitionAnalysis.cpp:101-106 | the phi walk adds exactly the indices of the run's phis |
| `Reaching.RdOut` | Passes/DFA/ReachingDefinitionAnalysis.cpp:75-109 | the specification of the output fact: it contains the joined fact, and adds at most `idx` and the indices of the phi run |
| `Reaching.FlowFunction` | Passes/DFA/ReachingDefinitionAnalysis.cpp:64-110 | one fact per outgoing edge, each equal to `RdOut` of the joined incoming facts |
| `Reaching.DefGen` | Passes/DFA/ReachingDefinitionAnalysis.cpp:75-100 | for a value-defining opcode, the output is exactly the joined fact plus `idx` |
| `Reaching.PhiRunGen` | Passes/DFA/ReachingDefinitionAnalysis.cpp:101-106 | for a phi run, the output is exactly the joined fact plus the index of each phi of the run |
| `Reaching.OtherPassesThrough` | Passes/DFA/ReachingDefinitionAnalysis.cpp:107-109 | any other opcode passes the joined fact through unchanged |
| `Reaching.OnlyGrows` | Passes/DFA/ReachingDefinitionAnalysis.cpp:99-103 | the output contains the joined fact, and everything new is `idx` or the index of a phi of the run |
| `Reaching.RdOutMonotone` | Passes/DFA/ReachingDefinitionAnalysis.cpp:64-110 | a larger joined fact gives a larger output |
| `Reaching.StraightLineExample` | Passes/DFA/ReachingDefinitionAnalysis.cpp:75-100 | `%1 = add; %2 = add %1, %1` from nothing: `{%1}` reaches `%2`, and `{%1, %2}` holds after it |
| `MayPointTo.MapEquals` | Passes/DFA/MayPointToAnalysis.cpp:53-54 | same size and pairwise-equal entries hold exactly when the two maps are equal |
| `MayPointTo.Equals` | Passes/DFA/MayPointToAnalysis.cpp:48-55 | `equals` is true exactly when both maps are equal |
| `MayPointTo.MapJoin` | Passes/DFA/MayPointToAnalysis.cpp:64-76 | the keys of the result are the union of the keys of the inputs |
| `MayPointTo.Join` | Passes/DFA/MayPointToAnalysis.cpp:57-96 | both inputs lie pointwise below the result, on both maps |
| `MayPointTo.JoinIsPointwiseUnion` | Passes/DFA/MayPointToAnalysis.cpp:64-90 | on both maps, the keys are the union of the keys and each key's set is the union of its two sets |
| `MayPointTo.JoinLeast` | Passes/DFA/MayPointToAnalysis.cpp:57-96 | `join` is the least upper bound of pointwise inclusion |
| `MayPointTo.JoinLaws` | Passes/DFA/MayPointToAnalysis.cpp:57-96 | `join` is commutative, associative and idempotent |
| `MayPointTo.JoinKeepsConsistent` | Passes/DFA/MayPointToAnalysis.cpp:64-90 | `join` of facts without empty sets has no empty set |
| `MayPointTo.MayPointToInfo.constructor` | Passes/DFA/MayPointToAnalysis.cpp:15 | a fresh MayPointToInfo has two empty maps |
| `MayPointTo.MayPointToInfo.Points` | Passes/DFA/MayPointToAnalysis.cpp:16-20 | `MayPointToInfo(p, q)` is `p -> {q}` with an empty memory map, and it has no empty set |
| `MayPointTo.MayPointToInfo.SetInfo` | Passes/DFA/MayPointToAnalysis.cpp:128-130 | the register map is replaced and the memory map kept |
| `MayPointTo.MayPointToInfo.SetMemInfo` | Passes/DFA/MayPointToAnalysis.cpp:132-134 | the memory map is replaced and the register map kept |
| `MayPointTo.MayPointToInfo.Insert` | Passes/DFA/MayPointToAnalysis.cpp:98-107 | `pointee` joins `pointer`'s set, which is a new singleton if `pointer` was absent; no other key and not the memory map changes; no empty set appears |
| `MayPointTo.MayPointToInfo.InsertStore` | Passes/DFA/MayPointToAnalysis.cpp:109-118 | the same on the memory map only |
| `MayPointTo.InsertAll` | Passes/DFA/MayPointToAnalysis.cpp:170-171 | inserting every element of a set adds exactly that set to `pointer`'s entry |
| `MayPointTo.AddFrom` | Passes/DFA/MayPointToAnalysis.cpp:164-174 | the set of a tracked source that is present is copied into `pointer`'s; otherwise nothing changes |
| `MayPointTo.LoadThrough` | Passes/DFA/MayPointToAnalysis.cpp:188-204 | the two nested loops add exactly the union of `mem(X)` over `X` in the address's set (intended rule, see Findings) |
| `MayPointTo.StoreThrough` | Passes/DFA/MayPointToAnalysis.cpp:206-224 | the nested loops add every `X` of the value's set to `mem(Y)` for every `Y` of the address's set, and leave the register map alone |
| `MayPointTo.IncomingSources` | Passes/DFA/MayPointToAnalysis.cpp:250-259 | the union of the sets of one phi's tracked, present incoming values |
| `MayPointTo.PhiSources` | Passes/DFA/MayPointToAnalysis.cpp:248-262 | the union over every incoming value of every phi of the run |
| `MayPointTo.AddIncomingSources` | Passes/DFA/MayPointToAnalysis.cpp:250-260 | the loop over one phi's incoming values adds exactly `IncomingSources` to the first phi's entry |
| `MayPointTo.AddPhiSources` | Passes/DFA/MayPointToAnalysis.cpp:247-263 | the phi walk adds exactly `PhiSources` of the run to the first phi's entry |
| `MayPointTo.JoinedIncoming` | Passes/DFA/MayPointToAnalysis.cpp:149-152 | the fold of `join` over the incoming edges has, on both maps, every key of every incoming edge's fact |
| `MayPointTo.Transfer` | Passes/DFA/MayPointToAnalysis.cpp:160-263 | the specification of the output fact: only store changes the memory map, store leaves the register map alone, and no key other than `idx` changes its set |
| `MayPointTo.TransferAsWritten` | Passes/DFA/MayPointToAnalysis.cpp:188-204 | the rules as the code is written differ from `Transfer` at most in the set of `idx`: the memory map and every other key are the same |
| `MayPointTo.FlowFunction` | Passes/DFA/MayPointToAnalysis.cpp:143-268 | one fact per outgoing edge, each equal to `Transfer` of the joined incoming facts; when no incoming fact has an empty set, no outgoing fact has one |
| `MayPointTo.JoinedIncomingAbove` | Passes/DFA/MayPointToAnalysis.cpp:149-152 | the joined fact lies pointwise above the fact of every incoming edge |
| `MayPointTo.JoinedIncomingConsistent` | Passes/DFA/MayPointToAnalysis.cpp:149-152 | the joined fact has no empty set when no incoming fact has one |
| `MayPointTo.JoinedIncomingLeast` | Passes/DFA/MayPointToAnalysis.cpp:149-152 | the joined fact lies pointwise below every fact that lies above all the incoming facts, so it holds no key or pointee that no incoming fact has |
| `MayPointTo.TransferOnlyAdds` | Passes/DFA/MayPointToAnalysis.cpp:160-263 | the output lies pointwise above the joined input, on both maps |
| `MayPointTo.TransferKeepsConsistent` | Passes/DFA/MayPointToAnalysis.cpp:160-263 | no rule creates a key with an empty set |
| `MayPointTo.TransferMonotone` | Passes/DFA/MayPointToAnalysis.cpp:143-268 | a larger joined fact gives a larger output |
| `MayPointTo.AllocaRule` | Passes/DFA/MayPointToAnalysis.cpp:160-162 | after alloca, `pts(idx)` is exactly its old set plus `idx`; no other key and not the memory map changes |
| `MayPointTo.CopyRule` | Passes/DFA/MayPointToAnalysis.cpp:164-186 | bitcast and getelementptr make `pts(idx)` exactly its old set plus the source's set; no other key and not the memory map changes; an untracked or absent source leaves the fact unchanged |
| `MayPointTo.SelectRule` | Passes/DFA/MayPointToAnalysis.cpp:226-245 | select makes `pts(idx)` exactly its old set plus both candidates' sets; no other key and not the memory map changes; with neither candidate tracked and present the fact is unchanged |
| `MayPointTo.PhiRule` | Passes/DFA/MayPointToAnalysis.cpp:247-263 | the first phi's set becomes exactly its old set plus `PhiSources` of the run; no other key and not the memory map changes; with no tracked, present incoming value the fact is unchanged |
| `MayPointTo.PhiIncomingRule` | Passes/DFA/MayPointToAnalysis.cpp:250-258 | the set of each incoming value of each phi of the run ends up under the first phi's index |
| `MayPointTo.StoreRule` | Passes/DFA/MayPointToAnalysis.cpp:206-224 | for every `Y`, `mem(Y)` is exactly its old set plus `pts(value)` when `Y` is in `pts(ptr)` and unchanged otherwise; so every `X` in `pts(value)` is in `mem(Y)` for every `Y` in `pts(ptr)`; the register map is unchanged; an untracked or absent operand makes it a no-op |
| `MayPointTo.LoadRule` | Passes/DFA/MayPointToAnalysis.cpp:192-199 | with the pointer operand as address, `pts(idx)` is exactly its old set plus the union of `mem(X)` over `X` in `pts(ptr)`, so it contains each such `mem(X)`; no other key and not the memory map changes |
| `MayPointTo.OtherPassesThrough` | Passes/DFA/MayPointToAnalysis.cpp:160-263 | an opcode outside the seven rules (the if/else chain has no final else) leaves the fact unchanged |
| `MayPointTo.StoreLoadRoundTrip` | Passes/DFA/MayPointToAnalysis.cpp:188-224 | `%p = alloca; store %v, %p; %r = load %p`: whatever `%v` may point to, `%r` may point to |
| `MayPointTo.LoadAsWrittenIsNoOp` | Passes/DFA/MayPointToAnalysis.cpp:188-190 | as written, a load whose uninitialised `Rv` is not a tracked register with a set leaves the fact unchanged |
| `MayPointTo.LoadAsWrittenLosesStore` | Passes/DFA/MayPointToAnalysis.cpp:188-204 | for `%2 = alloca; store %1, %2; %4 = load %2`, the code as written gives `%4` no set, while the intended rule gives it `{1}` |

## Left out

- The worklist engine, the `DataFlowAnalysis` base class and the numbering
  `InstrToIndex`: their header `231DFA.h` is not part of this model. The engine
  is modelled only through the interface the transfer functions use:
  - the edge map `edgeToInfo`, keyed by (from, to);
  - the `incoming` and `outgoing` index lists;
  - the returned `infos`.
  Edge maps are required to hold every incoming edge (`EdgesPresent`). The
  engine guarantees this, and the source reads the entry without a check.
- `Infos`: the engine hands each `flowfunction` an empty vector. The model
  therefore returns a fresh sequence. Liveness's in-place `Infos[j]->insert`
  patch is modelled as an update of the sequence's element `j`.
- `print()` and all `errs()` output, pass registration (`runOnFunction`,
  `RegisterPass`) and the `part1` instruction-counting passes. They are I/O and
  host integration with no analysable logic.
- Heap management: the fresh objects each `join` allocates and the leaked
  accumulators. Facts are values; `combineInfo` is one fresh object per call.
- The copy constructors (`LivenessInfo(LivenessInfo&)` and its two siblings)
  are value copies in the model.
- LLVM casts, `isa<PHINode>` and `getNextNode`. They are replaced by the
  `Tracked`/`External` operand and by the phi run `run[..PhiRunLength(run)]`.
- `unsigned` indices are `nat`. No rule does arithmetic on an index, so the
  width never matters.
- Floating-point opcodes appear only as opcode names. No float arithmetic is
  modelled or needed.
- Operand counts: every rule's operand exists in LLVM (`Ir.WellFormed`). The
  may-point-to rules require it.
- `MayPointTo.MapJoin`: its own contract states only the key set. The
  per-key union is stated by `MayPointTo.JoinIsPointwiseUnion` instead.

## Findings

| source | as written | input that shows it | evidently intended | confidence | as-written member | corrected member |
|---|---|---|---|---|---|---|
| Passes/DFA/MayPointToAnalysis.cpp:188-204 | the load rule assigns the pointer operand to `Rp` but looks up `Rv`, declared at line 155 and never assigned on the load path, so a load reads an indeterminate pointer (undefined behaviour); whenever that pointer is not a tracked register with a set, the load gains nothing | after `%1 = alloca`, the code `%2 = alloca; store %1, %2; %4 = load %2` leaves `%4` with no points-to set | the two-hop lookup through the pointer operand: `pts(%4)` contains `mem(X)` for every `X` in `pts(%2)`, here `{1}` | high, by reading; not executed | `MayPointTo.LoadAsWrittenLosesStore` | `MayPointTo.StoreLoadRoundTrip` |
