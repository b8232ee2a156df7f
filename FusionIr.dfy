/**
 * The control-flow graph the loop-fusion pass works on, and the structural
 * queries LoopInfo answers about a loop (preheader, latch, exit block, ...),
 * computed from the graph as it stands the way LoopInfo computes them.
 *
 * A function is its block list (`order`) and the instructions of each block;
 * phi nodes lead a block and a branch ends it. LoopInfo is a map from each
 * loop to its block list, whose first entry is the header.
 */
module FusionIr {
  import opened Common

  /** An operand: an instruction by id, or some other value (constant, argument). */
  datatype Val = InstVal(id: nat) | OtherVal(n: nat)

  /** `ICmp` with its predicate, a memory access, or any other instruction (its opcode, type and flags). */
  datatype OpKind = ICmp(pred: nat) | Load | Store | OtherOp(code: nat)

  datatype Incoming = Incoming(value: Val, block: nat)

  datatype Inst =
    | PhiInst(id: nat, incoming: seq<Incoming>)
    | OpInst(id: nat, kind: OpKind, operands: seq<Val>)
    | BrInst(id: nat, cond: Option<Val>, succs: seq<nat>)   // a branch, conditional when it has a condition

  datatype Cfg = Cfg(order: seq<nat>, blocks: map<nat, seq<Inst>>, loops: map<nat, seq<nat>>)

  // ---------------------------------------------------------------------
  // Blocks

  function Insts(g: Cfg, b: nat): seq<Inst> {
    if b in g.blocks then g.blocks[b] else []
  }

  /** `getTerminator`: the branch ending the block, if it ends with one. */
  function Terminator(s: seq<Inst>): (r: Option<Inst>)
    ensures r.Some? ==> |s| > 0 && r.value == s[|s| - 1] && r.value.BrInst?
  {
    if |s| > 0 && s[|s| - 1].BrInst? then Some(s[|s| - 1]) else None
  }

  /** The successor slots of a block's terminator, in order. */
  function Succs(g: Cfg, b: nat): seq<nat> {
    match Terminator(Insts(g, b))
    case Some(t) => t.succs
    case None => []
  }

  /** `getSingleSuccessor`: the block's terminator has exactly one successor slot. */
  function SingleSuccessor(g: Cfg, b: nat): (r: Option<nat>)
    ensures r.Some? <==> |Succs(g, b)| == 1
    ensures r.Some? ==> Succs(g, b) == [r.value]
  {
    if |Succs(g, b)| == 1 then Some(Succs(g, b)[0]) else None
  }

  /** `p`, once per successor slot of p that names `b`. */
  function EdgesTo(g: Cfg, p: nat, b: nat): (r: seq<nat>)
    ensures |r| == Count(Succs(g, p), b)
    ensures forall q :: q in r ==> q == p
  {
    Repeat(p, Count(Succs(g, p), b))
  }

  function Repeat(x: nat, n: nat): (r: seq<nat>)
    ensures |r| == n && forall y :: y in r ==> y == x
  {
    if n == 0 then [] else [x] + Repeat(x, n - 1)
  }

  /** The predecessors of `b` among the blocks order[k..], one entry per edge, in block order. */
  function PredsFrom(g: Cfg, b: nat, k: nat): (r: seq<nat>)
    requires k <= |g.order|
    ensures forall p :: p in r <==> p in g.order[k..] && b in Succs(g, p)
    decreases |g.order| - k
  {
    if k == |g.order| then []
    else
      var p := g.order[k];
      var rest := PredsFrom(g, b, k + 1);
      assert g.order[k..] == [p] + g.order[k + 1..];
      EdgesTo(g, p, b) + rest
  }

  /** `predecessors(b)`. */
  function Preds(g: Cfg, b: nat): seq<nat> {
    PredsFrom(g, b, 0)
  }

  /** `getSinglePredecessor`: exactly one edge enters the block. */
  function SinglePredecessor(g: Cfg, b: nat): (r: Option<nat>)
    ensures r.Some? <==> |Preds(g, b)| == 1
    ensures r.Some? ==> r.value in g.order && b in Succs(g, r.value)
  {
    assert g.order[0..] == g.order;
    if |Preds(g, b)| == 1 then Some(Preds(g, b)[0]) else None
  }

  /** `getFirstNonPHI`: the first instruction that is not a phi node. */
  function FirstNonPhi(s: seq<Inst>): (r: Option<Inst>)
    ensures r.Some? ==> r.value in s && !r.value.PhiInst?
    ensures r.None? ==> forall i :: i in s ==> i.PhiInst?
  {
    if s == [] then None else if !s[0].PhiInst? then Some(s[0]) else FirstNonPhi(s[1..])
  }

  /** The phi nodes of a block (`dyn_cast<PHINode>` over its instructions), in order. */
  function PhisOf(s: seq<Inst>): (r: seq<Inst>)
    ensures forall i :: i in r <==> i in s && i.PhiInst?
  {
    if s == [] then [] else (if s[0].PhiInst? then [s[0]] else []) + PhisOf(s[1..])
  }

  // ---------------------------------------------------------------------
  // Finding instructions

  function IndexOfInst(s: seq<Inst>, id: nat): (r: Option<nat>)
    ensures r.Some? ==> r.value < |s| && s[r.value].id == id
    ensures r.None? ==> forall i :: i in s ==> i.id != id
  {
    if s == [] then None
    else if s[0].id == id then Some(0)
    else match IndexOfInst(s[1..], id)
      case None => None
      case Some(j) => Some(j + 1)
  }

  /** `getParent` of an instruction: the first block in order holding it. */
  function ParentOfFrom(g: Cfg, id: nat, k: nat): (r: Option<nat>)
    requires k <= |g.order|
    ensures r.Some? ==> r.value in g.order && IndexOfInst(Insts(g, r.value), id).Some?
    decreases |g.order| - k
  {
    if k == |g.order| then None
    else if IndexOfInst(Insts(g, g.order[k]), id).Some? then Some(g.order[k])
    else ParentOfFrom(g, id, k + 1)
  }

  function ParentOf(g: Cfg, id: nat): Option<nat> {
    ParentOfFrom(g, id, 0)
  }

  /** The instruction with this id, if it is in the function. */
  function FindInst(g: Cfg, id: nat): (r: Option<Inst>)
    ensures r.Some? ==> r.value.id == id
  {
    match ParentOf(g, id)
    case None => None
    case Some(b) => Some(Insts(g, b)[IndexOfInst(Insts(g, b), id).value])
  }

  // ---------------------------------------------------------------------
  // Loops

  function LoopBlocks(g: Cfg, l: nat): seq<nat> {
    if l in g.loops then g.loops[l] else []
  }

  predicate Contains(g: Cfg, l: nat, b: nat) {
    b in LoopBlocks(g, l)
  }

  /** `getHeader`: the first block of the loop's block list. */
  function Header(g: Cfg, l: nat): Option<nat> {
    if |LoopBlocks(g, l)| > 0 then Some(LoopBlocks(g, l)[0]) else None
  }

  /** The entries of s that are (inside) or are not (outside) blocks of loop l. */
  function Select(g: Cfg, l: nat, s: seq<nat>, inside: bool): (r: seq<nat>)
    ensures forall b :: b in r <==> b in s && Contains(g, l, b) == inside
  {
    if s == [] then []
    else (if Contains(g, l, s[0]) == inside then [s[0]] else []) + Select(g, l, s[1..], inside)
  }

  /** The single element of a non-empty sequence whose entries are all equal. */
  function TheOnly(s: seq<nat>): (r: Option<nat>)
    ensures r.Some? <==> s != [] && forall x :: x in s ==> x == s[0]
    ensures r.Some? ==> r.value == s[0]
  {
    if s != [] && forall x :: x in s ==> x == s[0] then Some(s[0]) else None
  }

  /** `getLoopPreheader`: the one block outside the loop entering the header, when it has one successor slot. */
  function Preheader(g: Cfg, l: nat): (r: Option<nat>)
    ensures r.Some? ==> Header(g, l).Some? && !Contains(g, l, r.value) && |Succs(g, r.value)| == 1
    ensures r.Some? ==> r.value in Preds(g, Header(g, l).value)
  {
    match Header(g, l)
    case None => None
    case Some(h) =>
      match TheOnly(Select(g, l, Preds(g, h), false))
      case None => None
      case Some(p) => if |Succs(g, p)| == 1 then Some(p) else None
  }

  /** `getLoopLatch`: the header has exactly one entering edge from inside the loop. */
  function Latch(g: Cfg, l: nat): (r: Option<nat>)
    ensures r.Some? ==> Header(g, l).Some? && Contains(g, l, r.value) && r.value in Preds(g, Header(g, l).value)
  {
    match Header(g, l)
    case None => None
    case Some(h) =>
      var inside := Select(g, l, Preds(g, h), true);
      if |inside| == 1 then Some(inside[0]) else None
  }

  /** The edges leaving the loop: for each loop block in order, its successors outside the loop. */
  function ExitEdgesFrom(g: Cfg, l: nat, k: nat): (r: seq<nat>)
    requires k <= |LoopBlocks(g, l)|
    ensures forall b :: b in r ==> !Contains(g, l, b)
    decreases |LoopBlocks(g, l)| - k
  {
    if k == |LoopBlocks(g, l)| then []
    else Select(g, l, Succs(g, LoopBlocks(g, l)[k]), false) + ExitEdgesFrom(g, l, k + 1)
  }

  /** `getExitBlock`: exactly one edge leaves the loop. */
  function ExitBlock(g: Cfg, l: nat): (r: Option<nat>)
    ensures r.Some? ==> !Contains(g, l, r.value) && ExitEdgesFrom(g, l, 0) == [r.value]
  {
    var e := ExitEdgesFrom(g, l, 0);
    if |e| == 1 then Some(e[0]) else None
  }

  // ---------------------------------------------------------------------
  // Analyses, read-only for the whole run

  /** A scalar-evolution expression with its type; ids stand for uniqued expressions. */
  datatype Scev = Scev(ty: nat, expr: nat)

  /** The scalar evolution of a pointer operand: an affine recurrence `{start,+,step}`, or anything else. */
  datatype AddrScev = AddRec(start: nat, step: nat) | NotAddRec

  /** What is known about the pointer operand of a load or store. */
  datatype PointerInfo = PointerInfo(scev: AddrScev, gepElemSize: Option<nat>)

  datatype Analyses = Analyses(
    dom: (nat, nat) -> bool,                 // DominatorTree::dominates(a, b) on blocks
    postdom: (nat, nat) -> bool,             // PostDominatorTree::dominates(a, b)
    backedgeTaken: nat -> Option<Scev>,      // getBackedgeTakenCount, None when it cannot be computed
    knownEqual: (Scev, Scev) -> bool,        // isKnownPredicate(ICMP_EQ, a, b)
    guardBlock: nat -> Option<nat>,          // the block whose branch getLoopGuardBranch finds
    inductionVar: nat -> Option<nat>,        // getInductionVariable: the id of a phi node
    depends: (nat, nat) -> bool,             // DependenceAnalysis::depends is non-null
    pointer: nat -> PointerInfo,             // per load/store: its pointer operand
    startDiff: (nat, nat) -> Option<int>)    // getMinusSCEV(start1, start2) when it is a constant

  /** `getLoopGuardBranch`: the guard block, when it ends in a branch; `isGuarded` is that this exists. */
  function GuardBlock(g: Cfg, an: Analyses, l: nat): (r: Option<nat>)
    ensures r.Some? ==> Terminator(Insts(g, r.value)).Some?
  {
    match an.guardBlock(l)
    case None => None
    case Some(b) => if Terminator(Insts(g, b)).Some? then Some(b) else None
  }

  predicate IsGuarded(g: Cfg, an: Analyses, l: nat) {
    GuardBlock(g, an, l).Some?
  }
}
