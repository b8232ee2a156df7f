# Three LLVM function passes, modelled in Dafny

This project models the core of three LLVM new-pass-manager passes and proves
properties of them.

- **`LocalOpts`** is a peephole rewriter for integer binary instructions. It
  walks each basic block once. On each binary operator it tries three rule
  functions, in order:
  - algebraic identities (`x + 0`, `0 + x`, `x - 0`, `x * 1`, `1 * x`,
    `x sdiv 1`, `x udiv 1`);
  - strength reduction, which holds two rules:
    - `mul` by a constant to `shl`/`sub`/`neg` (as written, this also fires
      on constants for which the result is wrong; see Findings);
    - `sdiv` by a power of two to a biased arithmetic shift;
  - cancellation of a constant that is added and then subtracted again.

  The first rule that fires creates its new instructions in front of the
  instruction, replaces every use of it, and queues it for erasure. After the
  walk, the queued instructions are erased.
- **`LICMopt`** is a loop-invariant code motion pass. For each top-level loop
  with a preheader, one depth-first walk over the loop's blocks collects the
  binary operators that are loop invariant and safe to move. Each of them is
  then moved, in that order, to just before the preheader's terminator.
- **`LoopFusionOpt`** fuses adjacent top-level loops. `runOnLoops` walks the
  loops from last to first and tries each consecutive pair.
  - `isOptimizable` checks four things: the loop structure, adjacency
    (guarded or not), an equal backedge-taken count, and control-flow
    equivalence. It also rejects any dependence whose distance, in
    elements, is negative.
  - `fuseLoops` does the fusion in five steps:
    1. unify the induction variables;
    2. re-home the header and LCSSA phi nodes;
    3. unify the skip paths of guarded loops;
    4. splice the second body into the first loop;
    5. update LoopInfo.
  - `deleteBlock` removes blocks that are no longer used.

Modules:

- `TwosComplement`: w-bit arithmetic (`Wrap`, `ToSigned`, truncating division, powers of two).
- `Common`: `Option` and sequence helpers.
- `LocalOptsIr`: the instruction trees the peephole rules inspect, with LLVM's poison and undefined-behaviour cases.
- `LocalOpts`: the rules.
- `LocalOptsDriver`: `runOnBasicBlock` and `run`, as a class proved against ghost functions of the walk.
- `Licm`: the LICM pass, with a class proved against `LoopResult`/`RunFrom`.
- `FusionIr`: the control-flow graph, LoopInfo queries, and the analyses as fixed inputs.
- `FusionEdit`: the IR-editing primitives (`replaceAllUsesWith`, `setSuccessor`, `moveBefore`, ...).
- `FusionLegality`: `isOptimizable`.
- `FusionFuse`: `fuseLoops` as functions.
- `FusionPass`: the in-place class with `deleteBlock`, `fuseLoops` and `runOnLoops`.

Correctness of a peephole rewrite is stated as refinement: wherever the
original instruction is defined, its replacement has the same value. It may
remove poison but never add it.

## Model

| member | source | states |
|---|---|---|
| LocalOptsIr.ApplyBinOpUndefined | Assignment_1/LocalOpts.cpp:259-265 | An integer instruction is undefined exactly for a zero divisor, `sdiv`/`srem` of the minimum by -1, or a shift amount of at least the width (both directions). |
| LocalOptsIr.SubstRefines | Assignment_1/LocalOpts.cpp:69 | Replacing every use of an instruction by a value that refines it makes every user tree refine the original, and keeps its type. |
| LocalOpts.AlgebraicIdentity | Assignment_1/LocalOpts.cpp:54-148 | When an identity fires, it creates nothing and the replacement is one of the two operands; it fires only on add, sub, mul, sdiv or udiv. |
| LocalOpts.AlgebraicIdentitySound | Assignment_1/LocalOpts.cpp:54-148 | The operand that replaces `x+0`, `0+x`, `x-0`, `x*1`, `1*x`, `x sdiv 1` or `x udiv 1` refines the instruction and has its type. |
| LocalOpts.ZeroMinusNotIdentity | Assignment_1/LocalOpts.cpp:82-95 | `0 - x` is not treated as an identity: only a zero subtrahend is. |
| LocalOpts.IdentityArith | Assignment_1/LocalOpts.cpp:61-146 | On w-bit values, adding 0, subtracting 0, multiplying by 1 and `udiv` by 1 return the operand. |
| LocalOpts.SDivByOne | Assignment_1/LocalOpts.cpp:118-131 | Whenever `sdiv` by the constant 1 is defined, it returns its dividend, including at width 1, where 1 is -1. |
| LocalOpts.MulStrengthReductionAsWritten | Assignment_1/LocalOpts.cpp:157-227 | Fires only on a multiplication with exactly one constant operand that is not 0, 1 or -1. Creates `shl` (power of two) or `shl`+`sub` (otherwise), then `neg` for a negative constant, numbered from the next free id. |
| LocalOpts.MulAsWrittenExact | Assignment_1/LocalOpts.cpp:181-225 | When abs(C) or abs(C)+1 is a power of two, the sequence as written refines `x * C`. |
| LocalOpts.MulAsWrittenInexact | Assignment_1/LocalOpts.cpp:204-225 | When neither abs(C) nor abs(C)+1 is a power of two, the sequence as written differs from `x * C` at x = 1, where the multiplication is defined. |
| LocalOpts.MulAsWrittenCounterexample | Assignment_1/LocalOpts.cpp:204-225 | For i8 `x * 5` with x = 1, the multiplication gives 5 and the rewrite as written gives 7. |
| LocalOpts.ResultAtOne | Assignment_1/LocalOpts.cpp:204-225 | At x = 1, the non-power-of-two sequence as written evaluates to 2^(log2 abs(C)+1) - 1, negated for a negative C. |
| LocalOpts.MulStrengthReduction | Assignment_1/LocalOpts.cpp:157-227 | The corrected rule fires only when abs(C) or abs(C)+1 is a power of two, and then creates exactly what the code as written creates. |
| LocalOpts.MulStrengthReductionSound | Assignment_1/LocalOpts.cpp:157-227 | The corrected rule's replacement refines `x * C` (`x * C == x * abs(C)` negated for negative C, with `shl` and `shl - x` computing `x * abs(C)` modulo 2^w). |
| LocalOpts.UnsignedProduct | Assignment_1/LocalOpts.cpp:181-216 | The `shl` or `shl`-`sub` part has x's type and computes `x * abs(C)` modulo 2^w. |
| LocalOpts.SignedProduct | Assignment_1/LocalOpts.cpp:195-198 | Negating `x * abs(C)` for a negative C gives `x * C` modulo 2^w. |
| LocalOpts.ShiftSubProduct | Assignment_1/LocalOpts.cpp:206-216 | `(x << (log2 abs(C) + 1)) - x` is `x * abs(C)` when abs(C)+1 is a power of two. |
| LocalOpts.SDivStrengthReduction | Assignment_1/LocalOpts.cpp:229-298 | Fires only on `x sdiv C` with the constant on the right and x non-constant and integer-typed. C must not be 0, 1 or -1, abs(C) must be a power of two, and the shift must be below the width. It creates the biased shift numbered from the next free id. |
| LocalOpts.SDivStrengthReductionSound | Assignment_1/LocalOpts.cpp:229-298 | The biased-shift replacement refines `x sdiv C`. |
| LocalOpts.SDivResult | Assignment_1/LocalOpts.cpp:267-295 | When x is defined, the replacement evaluates to x divided by signed C, truncating toward zero, modulo 2^w. |
| LocalOpts.EvalBiasedShift | Assignment_1/LocalOpts.cpp:267-288 | `(x + ((x >>a (w-1)) & (2^k - 1))) >>a k` evaluates to `x / 2^k` truncated toward zero. |
| LocalOpts.BiasedQuotient | Assignment_1/LocalOpts.cpp:277-288 | The biased dividend shifted arithmetically by k is the truncating quotient by 2^k. |
| LocalOpts.BiasedDividend | Assignment_1/LocalOpts.cpp:281-283 | Adding the bias to x cannot overflow: the signed value of `x + bias` is the signed value of x plus the bias. |
| LocalOpts.SignBiasArith | Assignment_1/LocalOpts.cpp:272-279 | `x >>a (w-1)` is all ones for negative x and 0 otherwise; masking it with `2^k - 1` gives the bias. |
| LocalOpts.SDivArith | Assignment_1/LocalOpts.cpp:229-298 | A defined w-bit `sdiv` has a non-zero signed divisor and is the truncating signed quotient modulo 2^w. |
| LocalOpts.StrengthReduction | Assignment_1/LocalOpts.cpp:150-304 | Strength reduction, with the multiply rule as written, fires only on mul or sdiv, and what it creates is freshly numbered and non-empty. |
| LocalOpts.MultiInstruction | Assignment_1/LocalOpts.cpp:308-437 | The cancellation rules fire only on integer add or sub, and create nothing. |
| LocalOpts.AddSubCancels | Assignment_1/LocalOpts.cpp:348-376 | `(x + C) - C` and `(C + x) - C` are refined by x, which has their type. |
| LocalOpts.SubSubCancels | Assignment_1/LocalOpts.cpp:378-393 | `C - (C - x)` is refined by x, which has its type. |
| LocalOpts.SubAddCancels | Assignment_1/LocalOpts.cpp:398-431 | `(x - C) + C` and `C + (x - C)` are refined by x, which has their type. |
| LocalOpts.MultiInstructionSound | Assignment_1/LocalOpts.cpp:308-437 | Whatever cancellation fires, its replacement refines the instruction and has its type. |
| LocalOpts.TryRules | Assignment_1/LocalOpts.cpp:34-39 | The chain the pass runs, with the multiply rule as written: the first rule that fires wins; what it creates is numbered from the next free id, and the replacement is the last created instruction when there is one. |
| LocalOpts.TryRulesSound | Assignment_1/LocalOpts.cpp:34-39 | Whichever rule fires on a binary instruction, its replacement refines the instruction, except for an inexact multiplication (`InexactMul`: neither abs(C) nor abs(C)+1 is a power of two). |
| LocalOpts.TryRulesUnsound | Assignment_1/LocalOpts.cpp:204-225 | On an inexact multiplication the chain fires, and where the non-constant operand is 1 its replacement differs from the defined `x * C`. |
| LocalOpts.TryRulesCorrected | Assignment_1/LocalOpts.cpp:34-39 | The corrected chain declines exactly on an inexact multiplication or where the chain declines, and otherwise rewrites as the chain does. |
| LocalOpts.TryRulesCorrectedSound | Assignment_1/LocalOpts.cpp:34-39 | Whatever the corrected chain rewrites is refined by its replacement. |
| LocalOptsDriver.UseReplacedRefines | Assignment_1/LocalOpts.cpp:69 | Rewriting the operands of a user of I after `replaceAllUsesWith` keeps the user's value wherever it was defined. |
| LocalOptsDriver.EraseIdsTwice | Assignment_1/LocalOpts.cpp:48-49 | Erasing one set of instructions and then another is erasing their union. |
| LocalOptsDriver.ScanQuiet | Assignment_1/LocalOpts.cpp:32-46 | A walk over instructions on which no rule fires changes nothing. |
| LocalOptsDriver.ScanChangedIff | Assignment_1/LocalOpts.cpp:32-46 | Starting from an empty `toBeErased`, the walk queues something exactly when a rule fires on some instruction from the starting position on (both directions). |
| LocalOptsDriver.ScanKeepsOthers | Assignment_1/LocalOpts.cpp:32-46 | An instruction that is not a binary operator is still in the block after the walk. |
| LocalOptsDriver.BlockChangedIff | Assignment_1/LocalOpts.cpp:28-52 | `runOnBasicBlock` reports a change exactly when some rule fires in the block, and leaves the function as it was otherwise. |
| LocalOptsDriver.BlockKeepsOthers | Assignment_1/LocalOpts.cpp:28-52 | No instruction that is not a binary operator is removed from the block. |
| LocalOptsDriver.RunChangedIff | Assignment_1/LocalOpts.cpp:9-19 | `run` from block b on reports a change exactly when some rule fires on some instruction of block b or a later block of the function as it stands when the walk reaches block b (both directions). |
| LocalOptsDriver.Function.VisitInstruction | Assignment_1/LocalOpts.cpp:32-46 | Visiting one instruction reports whether a rule fired. The new blocks, the id counter and the queue are those of `Visit`, and the walk resumes behind the created instructions. |
| LocalOptsDriver.Function.Walk | Assignment_1/LocalOpts.cpp:29-46 | The first loop of `runOnBasicBlock` leaves the state of `Scan` from the block start. `blockChanged` is that `toBeErased` is non-empty. |
| LocalOptsDriver.Function.EraseQueued | Assignment_1/LocalOpts.cpp:48-49 | Only block b changes, losing exactly the queued instructions; nothing else changes. |
| LocalOptsDriver.Function.RunOnBasicBlock | Assignment_1/LocalOpts.cpp:28-52 | The function afterwards, the id counter and the result are those of `BlockResult`. |
| LocalOptsDriver.Function.Run | Assignment_1/LocalOpts.cpp:9-19 | Every block in order; the function afterwards and `functionChanged` are those of `RunFrom`. |
| Licm.OperandsInvariant | Assignment_3/LICMopt.cpp:75-96 | The operand loop accepts exactly when every operand is a non-instruction, or a non-phi instruction outside the loop or already in `movable`. |
| Licm.InvariantGrows | Assignment_3/LICMopt.cpp:60-97 | An instruction that is loop invariant with respect to `movable` stays invariant as `movable` grows. |
| Licm.Insert | Assignment_3/LICMopt.cpp:111 | `SetVector::insert` keeps the order, keeps the elements distinct, and adds x. |
| Licm.ChosenInsert | Assignment_3/LICMopt.cpp:107-120 | Inserting a visited, invariant, safe instruction keeps every candidate invariant with respect to the candidates before it. |
| Licm.CandidatesSound | Assignment_3/LICMopt.cpp:100-121 | Every candidate is distinct and a binary operator, and sits in a loop block of the depth-first walk where it is safe to move. Each instruction operand is not a phi, and is outside the loop or an earlier candidate. |
| Licm.MovableAtPrefix | Assignment_3/LICMopt.cpp:100-121 | `movable` as the walk holds it on reaching instruction j of the t-th visited block is a prefix of the final candidates. |
| Licm.CandidatesComplete | Assignment_3/LICMopt.cpp:100-121 | A safe binary operator that is loop invariant with respect to `movable` as it stands when the walk reaches it becomes a candidate, so invariance chains through earlier candidates. |
| Licm.CandidatesCompleteOutside | Assignment_3/LICMopt.cpp:100-121 | Every binary operator in a visited loop block whose instruction operands are non-phi and outside the loop, and which is safe to move, becomes a candidate. |
| Licm.CandidatesAreBinary | Assignment_3/LICMopt.cpp:70-73 | Only binary operators are candidates. |
| Licm.MoveBefore | Assignment_3/LICMopt.cpp:125 | `moveBefore(preheader->getTerminator())` removes the instruction from every block and places it just before the preheader's terminator; terminated blocks stay terminated. |
| Licm.MoveAllLayout | Assignment_3/LICMopt.cpp:123-128 | After moving all candidates, the preheader is its old body, then the candidates in order, then its terminator; every other block has lost exactly the candidates. |
| Licm.HoistLayout | Assignment_3/LICMopt.cpp:36-133 | A null loop or a loop without a preheader is left alone and reports false. Otherwise the preheader and the other blocks end up as in `MoveAllLayout`, and the loop reports a change exactly when there was a candidate. |
| Licm.NoCandidatesNoChange | Assignment_3/LICMopt.cpp:130-132 | A loop that reports no change leaves the function as it was. |
| Licm.RunChangedIff | Assignment_3/LICMopt.cpp:5-28 | `run` reports no change exactly when no loop, run in turn, reports a change (both directions). |
| Licm.RunQuietUnchanged | Assignment_3/LICMopt.cpp:5-28 | When `run` reports no change, the function is unchanged. |
| Licm.FunctionBody.ScanLoopBlock | Assignment_3/LICMopt.cpp:107-120 | The instruction loop over one block yields `ScanBlock` of `movable`; after j instructions it holds `ScanBlockPrefix`. |
| Licm.FunctionBody.CollectCandidates | Assignment_3/LICMopt.cpp:100-121 | The depth-first scan yields exactly `Candidates`. |
| Licm.FunctionBody.HoistAll | Assignment_3/LICMopt.cpp:123-128 | The blocks become `MoveAll` of the candidates; `moved` holds the candidates. |
| Licm.FunctionBody.RunOnLoop | Assignment_3/LICMopt.cpp:36-133 | The new blocks and the result are `LoopResult`. |
| Licm.FunctionBody.Run | Assignment_3/LICMopt.cpp:5-28 | The new blocks and `changed` are `RunFrom` over the top-level loops in order. |
| FusionIr.SinglePredecessor | Assignment_4/LoopFusionOpt.cpp:116-125 | `getSinglePredecessor` exists exactly when one edge enters the block, and then names a predecessor. |
| FusionIr.Preheader | Assignment_4/LoopFusionOpt.cpp:101-105 | A preheader is outside the loop, has one successor slot, and enters the header. |
| FusionIr.ExitBlock | Assignment_4/LoopFusionOpt.cpp:103-107 | An exit block is outside the loop and is the target of the only edge leaving it. |
| FusionLegality.AdjacentUnguarded | Assignment_4/LoopFusionOpt.cpp:352-394 | Two unguarded loops are adjacent exactly when First's exit block is Second's preheader. |
| FusionLegality.AdjacentGuarded | Assignment_4/LoopFusionOpt.cpp:352-394 | Two guarded loops are adjacent exactly when First's exit block has Second's guard block as its only successor. |
| FusionLegality.SameTripCountIff | Assignment_4/LoopFusionOpt.cpp:398-429 | The trip-count check passes exactly when both backedge-taken counts are computable, of the same type, and known to be equal. |
| FusionLegality.ControlFlowEquivalentIff | Assignment_4/LoopFusionOpt.cpp:434-500 | Control flow is equivalent exactly when both loops or neither are guarded. Guarded loops need identical guard compares, with the first guard dominating and the second post-dominating. Unguarded loops need the first header dominating and the second post-dominating. |
| FusionLegality.ElementOffsetNegative | Assignment_4/LoopFusionOpt.cpp:565-585 | For an in-range byte offset and element size, the truncated element offset is negative exactly when the offset is at most minus one element. |
| FusionLegality.PairRejectsIff | Assignment_4/LoopFusionOpt.cpp:522-591 | A dependent pair of affine accesses with equal steps and a constant start difference rejects fusion exactly when the difference is at most minus one element, the element being that of First's address when it is a GEP and of Second's otherwise. |
| FusionLegality.DependenceGateIff | Assignment_4/LoopFusionOpt.cpp:505-601 | The dependence check fails exactly when some instruction of First and some of Second reject the pair. |
| FusionLegality.IsOptimizable | Assignment_4/LoopFusionOpt.cpp:297-624 | A pair that passes is non-null, both loops are well-formed, and all four checks hold. |
| FusionLegality.IsOptimizableIff | Assignment_4/LoopFusionOpt.cpp:297-624 | For well-formed loops, the pair passes exactly when adjacency, trip count, control flow and dependences all pass. |
| FusionEdit.Rauw | Assignment_4/LoopFusionOpt.cpp:136 | `replaceAllUsesWith` keeps the edges and instructions and leaves no use of the old value. |
| FusionEdit.ReplacePhiUsesWith | Assignment_4/LoopFusionOpt.cpp:162-168 | `replacePhiUsesWith` renames only the incoming blocks of the block's leading phi nodes; afterwards none names the old block. |
| FusionEdit.Erase | Assignment_4/LoopFusionOpt.cpp:137 | `eraseFromParent` removes exactly that instruction from every block, keeps the others in order, and adds no use. |
| FusionEdit.SetSuccessor | Assignment_4/LoopFusionOpt.cpp:265 | `setSuccessor(k, t)` changes successor slot k of the block, and nothing else. |
| FusionEdit.ReplaceSuccessorWith | Assignment_4/LoopFusionOpt.cpp:266-268 | `replaceSuccessorWith(from, to)` changes every slot naming `from` to `to`, in that block only. |
| FusionEdit.MoveBefore | Assignment_4/LoopFusionOpt.cpp:206 | `moveBefore` keeps the function's ids and every other instruction in place and in order. A missing instruction or anchor changes nothing; otherwise the only copy of the instruction sits just before the anchor. |
| FusionEdit.PlaceBefore | Assignment_4/LoopFusionOpt.cpp:206 | Inserting an instruction in the anchor's block puts it just before the anchor, adds its id, and leaves every other block as it was. |
| FusionEdit.InsertAt | Assignment_4/LoopFusionOpt.cpp:206 | Inserting at position j keeps the instructions before and after j, in order, and adds exactly the new id. |
| FusionEdit.DeleteBlockSpec | Assignment_4/LoopFusionOpt.cpp:77-86 | A null block changes nothing. Otherwise that block leaves the function, and every other block and LoopInfo are unchanged. |
| FusionEdit.MoveBlockBefore | Assignment_4/LoopFusionOpt.cpp:284 | `BasicBlock::moveBefore` keeps the blocks and places b just before the anchor. |
| FusionFuse.UnifyIv | Assignment_4/LoopFusionOpt.cpp:130-137 | Second's induction variable is removed and no longer used anywhere. |
| FusionFuse.RenamePhiBlocksHeader | Assignment_4/LoopFusionOpt.cpp:162-168 | Second's header phi nodes are renamed from `secondLatch` to `firstLatch` and from `secondPreheader` to `firstPreheader`; afterwards none names either old block. |
| FusionFuse.LcssaSource | Assignment_4/LoopFusionOpt.cpp:142-157 | An LCSSA source is a phi in First's exit block, outside First, with incoming blocks all inside First. |
| FusionFuse.EditsBeforeGuards | Assignment_4/LoopFusionOpt.cpp:129-223 | Steps 1 and 2 keep the block order and LoopInfo, and remove Second's induction variable. |
| FusionFuse.UnifyGuards | Assignment_4/LoopFusionOpt.cpp:226-259 | The guarded step aborts exactly when Second's exit has no single successor, and keeps LoopInfo. |
| FusionFuse.RewireEdges | Assignment_4/LoopFusionOpt.cpp:265-268 | The four branch edits change exactly the successor slots the source names in the four blocks, and no other block. |
| FusionFuse.RewireLatch | Assignment_4/LoopFusionOpt.cpp:265 | `setSuccessor(1, secondExit)` on First's latch redirects its second slot to Second's exit when the latch has one, and leaves a latch with a single slot as it was. |
| FusionFuse.LatchStillReferenced | Assignment_4/LoopFusionOpt.cpp:268-270 | After the branch edits, `secondLatch` still branches to itself, so it is still referenced when it is deleted. |
| FusionFuse.AdoptBlocksLoops | Assignment_4/LoopFusionOpt.cpp:282-285 | Adopting blocks appends them to First's block list, leaves other loops and the set of blocks unchanged. |
| FusionFuse.FuseParts | Assignment_4/LoopFusionOpt.cpp:129-287 | Fusion fails only in the guarded case without a single successor, leaving the edits made so far. On success it returns First, whose block list gains Second's blocks other than its latch and preheader. |
| FusionFuse.ThroughGuards | Assignment_4/LoopFusionOpt.cpp:129-259 | Steps 1 to 3 give up exactly when both loops are guarded and Second's exit, after steps 1 and 2, has no single successor; otherwise LoopInfo is as it was. |
| FusionFuse.FuseSpec | Assignment_4/LoopFusionOpt.cpp:91-288 | A null loop or a missing structural part returns null with the function untouched. A null result after edits happens only on the guarded abort. A success returns First. |
| FusionFuse.GuardAbortAfterEdits | Assignment_4/LoopFusionOpt.cpp:226-231 | The guarded abort returns null after steps 1 and 2 have edited the function (Second's induction variable is gone). |
| FusionFuse.FuseJoinsBlocks | Assignment_4/LoopFusionOpt.cpp:274-287 | After a fusion, every block of Second other than its latch and preheader belongs to First, and no other loop changes. |
| FusionFuse.FuseEdges | Assignment_4/LoopFusionOpt.cpp:262-287 | After a successful fusion, First's latch leaves for Second's exit through slot 1 (a single-slot latch keeps its successors), First's body enters Second's header instead of First's latch, and Second's body enters First's latch instead of Second's latch; each relative to the function after steps 1 to 3. |
| FusionPass.Visit | Assignment_4/LoopFusionOpt.cpp:45-69 | One step of the walk reports a change exactly when it fuses. A null entry is skipped. A pair that does not pass makes the current loop the previous one, with the function unchanged. A pair that passes leaves the function `fuseLoops` leaves; the fused loop (First) stays the previous one on success, and the current loop becomes it on failure. |
| FusionPass.DriveKeepsChanged | Assignment_4/LoopFusionOpt.cpp:37-71 | Once a fusion has been reported, `runOnLoops` returns true. |
| FusionPass.DriveReportsFusion | Assignment_4/LoopFusionOpt.cpp:54-61 | A successful fusion of the first pair the walk visits makes `runOnLoops` return true, whatever comes after. |
| FusionPass.DriveChangedIff | Assignment_4/LoopFusionOpt.cpp:35-72 | `runOnLoops` returns true exactly when the incoming flag is set or some pair the walk visits, in the function as the walk has edited it so far, passes `isOptimizable` and fuses (both directions). |
| FusionPass.DriveSkipsNull | Assignment_4/LoopFusionOpt.cpp:48-51 | Null entries of the loop list have no effect. |
| FusionPass.DriveQuiet | Assignment_4/LoopFusionOpt.cpp:35-72 | When no two consecutive non-null loops of the list (nor the incoming previous loop and the last non-null one) pass `isOptimizable`, the function is unchanged and the result is the incoming flag. |
| FusionPass.DriveFailureUnreported | Assignment_4/LoopFusionOpt.cpp:54-68 | A pair that passes `isOptimizable` but whose fusion fails leaves the partial edits in the function while `runOnLoops` returns false. |
| FusionPass.Function.DeleteBlock | Assignment_4/LoopFusionOpt.cpp:77-86 | Erasing the instructions from the back and then the block gives `DeleteBlockSpec`. |
| FusionPass.Function.UnifyInductionVariables | Assignment_4/LoopFusionOpt.cpp:136-137 | The graph becomes `UnifyIv`. |
| FusionPass.Function.RenameIncomingBlocks | Assignment_4/LoopFusionOpt.cpp:162-168 | The graph becomes `RenamePhiBlocks`. |
| FusionPass.Function.RetargetFirstHeaderPhis | Assignment_4/LoopFusionOpt.cpp:195-197 | The loop over First's header phi nodes gives `RetargetFirstPhis`. |
| FusionPass.Function.MergeSecondHeaderPhi | Assignment_4/LoopFusionOpt.cpp:186-206 | One header phi of Second is either merged through an LCSSA phi or moved before First's first non-phi, as in `MergePhi`. |
| FusionPass.Function.MergeSecondHeaderPhis | Assignment_4/LoopFusionOpt.cpp:171-207 | The graph becomes `MergeHeaderPhis`. |
| FusionPass.Function.MoveEachBefore | Assignment_4/LoopFusionOpt.cpp:221-222 | The graph becomes `MoveAllBefore` of the listed instructions. |
| FusionPass.Function.MoveFirstExitPhis | Assignment_4/LoopFusionOpt.cpp:212-222 | The graph becomes `MoveExitPhis`. |
| FusionPass.Function.UnifyGuardPaths | Assignment_4/LoopFusionOpt.cpp:226-259 | Succeeds exactly when `UnifyGuards` does. On success the graph is its result; on failure it is untouched. |
| FusionPass.Function.SpliceBodies | Assignment_4/LoopFusionOpt.cpp:265-271 | The graph becomes `Splice`. |
| FusionPass.Function.AdoptSecondBlocks | Assignment_4/LoopFusionOpt.cpp:275-285 | The graph becomes `AdoptBlocks` of Second's blocks other than its latch and preheader. |
| FusionPass.Function.LoopParts | Assignment_4/LoopFusionOpt.cpp:100-134 | The structural parts are found exactly when `ReadyToFuse` holds, and are `PartsOf`. |
| FusionPass.Function.FuseWith | Assignment_4/LoopFusionOpt.cpp:129-287 | The graph and the result are `FuseParts`. |
| FusionPass.Function.FuseLoops | Assignment_4/LoopFusionOpt.cpp:91-288 | The graph and the result are `FuseSpec`. |
| FusionPass.Function.VisitLoop | Assignment_4/LoopFusionOpt.cpp:46-68 | One iteration gives `Visit`. |
| FusionPass.Function.RunOnLoops | Assignment_4/LoopFusionOpt.cpp:35-72 | The graph and the result are `Drive` over the loop list, last entry first. |

## Left out

- Printing (`errs()`, `outs()`) is not modelled. The `PreservedAnalyses` results and the plugin registration are reduced to the change flag. The `LocalOpts.h`, `LICMopt.h` and `LoopFusionOpt.h` headers hold only declarations.
- Analysis results are fixed inputs to the model:
  - dominator and post-dominator trees;
  - ScalarEvolution trip counts and `isKnownPredicate`;
  - `getLoopGuardBranch`;
  - `getInductionVariable`;
  - DependenceAnalysis;
  - the SCEV of pointer operands and the allocation size of GEP element types.

  The dominator trees and the ScalarEvolution results come from the analysis manager's cache, which the loop fusion pass does not invalidate after an edit, so in the source too they describe the function as it was before the first fusion.
- The guard branch, the induction variable and the dependence queries are frozen per loop and per instruction for the whole run. In the source they are recomputed from the current IR on every call: `getLoopGuardBranch` from the preheader's predecessor, its branch and the exit block; `getInductionVariable` from the header phis and the latch compare; `DependenceInfo::depends` against the current loop structure. When a fused First stays the previous loop and is tested against the next one (`Visit`, `Drive`), the model reads First's guard and induction variable from before the fusion, while the source reads them off the fused loop, whose exit block is now Second's. The verdicts of `isOptimizable` and the result of `fuseLoops` on pairs that involve an already fused loop may therefore differ from the source's.
- In the peephole pass, only integer binary operators are modelled. Floating-point and vector operands are left out. A non-integer type makes the rules decline, as the source's `isIntegerTy` checks do.
- Instruction names (`"mul.sr.shl"`, ...) are not modelled.
- Use lists are not modelled as LLVM keeps them. `replaceAllUsesWith` rewrites the operands that name the instruction.
- LocalOptsDriver.UseReplacedRefines: in the peephole model, users that are not binary operators (`store`, `call`, `ret`, ...) are opaque leaves; `replaceAllUsesWith` does not rewrite their operands, so the refinement is stated for binary users only.
- The `nsw`, `nuw` and `exact` flags of the peephole pass's instructions are not modelled. Instructions are evaluated with wrap-around semantics. The replacements the rules create carry no such flags, so refinement holds without them.
- FusionFuse.RenamePhiBlocks: when `secondPreheader` has no single predecessor, `getSinglePredecessor` returns null and the model leaves the phi nodes as they are. This is what a release build does; a build with assertions enabled would stop there.
- In the LICM model, the users of an instruction are the instructions that name it as an operand.
- LocalOptsDriver.Function.Walk: the walk is specified through the ghost `Scan`. Where rewritten instructions sit relative to uses in other blocks is stated only as the value-level refinement of `UseReplacedRefines`, not as a full dataflow semantics of the block.
- Licm.HoistLayout: it states the layout when instruction ids are unique and the preheader is not a loop block. These are LoopInfo's invariants, and the model does not derive them.
- FusionPass.Function.DeleteBlock: the `use_empty` assertion is not modelled; a block is deleted even when it is still referenced. `LatchStillReferenced` shows that `secondLatch` is still referenced (by its own branch) when step 4 deletes it, so a build with assertions enabled would stop there.
- FusionFuse.FuseSpec: the edges into deleted blocks are not rewritten, so whether the fused graph is a valid CFG is not stated. The model states the edited edges (`RewireEdges`), the block sets, and LoopInfo.
- FusionEdit.SetSuccessor: a slot past the end of the terminator's successor list is left alone. In the source, `setSuccessor(1, secondExit)` on a first loop whose latch ends in an unconditional branch (one successor) is out of range: a build with assertions enabled stops, and otherwise the write is undefined. The model's fusion then succeeds with that latch's edges unchanged (`RewireLatch`, `FuseEdges`).
- FusionFuse.MergePhi: a header phi of Second with fewer than two incoming values is left in place, `LcssaSource` does not match a phi without incoming values, and `RetargetFirstPhi` skips a phi of First with fewer than two. The source reads incoming values 0 and 1 unchecked, which is out of range there; a well-formed header phi always has both.
- The walk through `isOptimizable` and `fuseLoops` is stated as whole-run lemmas about `Drive` (`DriveChangedIff`, `DriveQuiet`). The semantics of the fused loop (that it computes what the two loops computed) is not stated.
- The depth-first order of `depth_first(header)` and the exit blocks of a loop are inputs, not computed from the graph.

## Findings

| source | as written | input that shows it | evidently intended | confidence | as-written member | corrected member |
|---|---|---|---|---|---|---|
| Assignment_1/LocalOpts.cpp:204-225 | Every `x * C` whose abs(C) is not a power of two becomes `(x << (log2 abs(C) + 1)) - x`, negated for negative C. That equals `x * (2^(log2 abs(C)+1) - 1)`, which is `x * C` only when abs(C)+1 is a power of two. | i8 `mul x, 5` with x = 1: the multiplication gives 5, the rewrite gives `(1 << 3) - 1 = 7` | Apply the shift-and-subtract form only when abs(C)+1 is a power of two, and decline otherwise | not executed | LocalOpts.MulStrengthReductionAsWritten, LocalOpts.MulAsWrittenCounterexample, LocalOpts.MulAsWrittenInexact, LocalOpts.TryRulesUnsound | LocalOpts.MulStrengthReduction, LocalOpts.MulStrengthReductionSound, LocalOpts.TryRulesCorrected, LocalOpts.TryRulesCorrectedSound |
