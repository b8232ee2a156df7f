/**
 * What `fuseLoops` does to the function, phase by phase, and what
 * `runOnLoops` does with it: the specification the class in FusionPass is
 * proved against, and the properties proved about it.
 */
module FusionFuse {
  import opened Common
  import opened FusionIr
  import opened FusionLegality
  import opened FusionEdit

  // ---------------------------------------------------------------------
  // The blocks and values fusion works with

  /** The blocks of both loops fusion reads before its first edit, the guard blocks, and the induction variables. */
  datatype Parts = Parts(
    firstPreheader: nat, firstLatch: nat, firstExit: nat, firstBody: nat, firstHeader: nat,
    firstGuard: Option<nat>, firstIv: nat,
    secondPreheader: nat, secondLatch: nat, secondExit: nat, secondBody: nat, secondHeader: nat,
    secondGuard: Option<nat>, secondIv: nat)

  /** The checks `fuseLoops` makes before its first edit: six blocks, single successors and predecessors, two induction variables. */
  predicate ReadyToFuse(g: Cfg, an: Analyses, first: nat, second: nat) {
    Preheader(g, first).Some? && Latch(g, first).Some? && ExitBlock(g, first).Some? &&
    Preheader(g, second).Some? && Latch(g, second).Some? && ExitBlock(g, second).Some? &&
    SingleSuccessor(g, Preheader(g, first).value).Some? && SinglePredecessor(g, Latch(g, first).value).Some? &&
    SingleSuccessor(g, Preheader(g, second).value).Some? && SinglePredecessor(g, Latch(g, second).value).Some? &&
    an.inductionVar(first).Some? && an.inductionVar(second).Some?
  }

  function PartsOf(g: Cfg, an: Analyses, first: nat, second: nat): Parts
    requires ReadyToFuse(g, an, first, second)
  {
    Parts(
      Preheader(g, first).value, Latch(g, first).value, ExitBlock(g, first).value,
      SinglePredecessor(g, Latch(g, first).value).value, SingleSuccessor(g, Preheader(g, first).value).value,
      GuardBlock(g, an, first), an.inductionVar(first).value,
      Preheader(g, second).value, Latch(g, second).value, ExitBlock(g, second).value,
      SinglePredecessor(g, Latch(g, second).value).value, SingleSuccessor(g, Preheader(g, second).value).value,
      GuardBlock(g, an, second), an.inductionVar(second).value)
  }

  /** The id of a block's first instruction that is not a phi, the insertion point `getFirstNonPHI` gives. */
  function AnchorOf(s: seq<Inst>): (r: Option<nat>)
    ensures r.Some? ==> exists i :: i in s && !i.PhiInst? && i.id == r.value
  {
    match FirstNonPhi(s)
    case None => None
    case Some(i) => Some(i.id)
  }

  /** The ids of the phi nodes among s, in order. */
  function PhiIds(s: seq<Inst>): (r: seq<nat>)
    ensures forall x :: x in r <==> exists i :: i in s && i.PhiInst? && i.id == x
  {
    if s == [] then []
    else
      assert forall i :: i in s <==> i == s[0] || i in s[1..];
      (if s[0].PhiInst? then [s[0].id] else []) + PhiIds(s[1..])
  }

  // ---------------------------------------------------------------------
  // 1) One induction variable

  /** Second's induction variable is replaced by First's everywhere, then erased. */
  function UnifyIv(g: Cfg, p: Parts): (r: Cfg)
    ensures Ids(r) == Ids(g) - {p.secondIv}
    ensures p.secondIv != p.firstIv ==> !UsedIn(r, InstVal(p.secondIv))
    ensures r.order == g.order && r.loops == g.loops
  {
    Erase(Rauw(g, InstVal(p.secondIv), InstVal(p.firstIv)), p.secondIv)
  }

  // ---------------------------------------------------------------------
  // 2) Phi incoming blocks, and the header phis

  /** The four `replacePhiUsesWith` calls made before any phi moves. */
  function RenamePhiBlocks(g: Cfg, p: Parts): (r: Cfg)
    ensures SameEdges(g, r) && Ids(r) == Ids(g)
  {
    var g1 := ReplacePhiUsesWith(g, p.secondHeader, p.secondLatch, p.firstLatch);
    var g2 := ReplacePhiUsesWith(g1, p.secondHeader, p.secondPreheader, p.firstPreheader);
    var g3 := match SinglePredecessor(g2, p.secondPreheader)
      case Some(q) => ReplacePhiUsesWith(g2, p.secondPreheader, q, p.firstBody)
      case None => g2;
    ReplacePhiUsesWith(g3, p.secondExit, p.secondLatch, p.firstLatch)
  }

  /** `isLCSSAPhi`: a phi outside the loop all of whose incoming blocks are inside it. */
  predicate IsLcssaPhi(g: Cfg, phi: Inst, parent: nat, l: nat)
    requires phi.PhiInst?
  {
    !Contains(g, l, parent) && forall e :: e in phi.incoming ==> Contains(g, l, e.block)
  }

  /**
   * The LCSSA phi `in0` names, when it is a phi in First's exit block whose
   * incoming blocks are all in First, and it has an incoming value to pass on.
   */
  function LcssaSource(g: Cfg, first: nat, firstExit: nat, in0: Val): (r: Option<Inst>)
    ensures r.Some? ==> in0 == InstVal(r.value.id) && r.value.PhiInst? && |r.value.incoming| >= 1
    ensures r.Some? ==> ParentOf(g, r.value.id) == Some(firstExit) && IsLcssaPhi(g, r.value, firstExit, first)
  {
    match in0
    case OtherVal(_) => None
    case InstVal(q) =>
      match FindInst(g, q)
      case None => None
      case Some(lp) =>
        if lp.PhiInst? && ParentOf(g, q) == Some(firstExit) && IsLcssaPhi(g, lp, firstExit, first) && |lp.incoming| >= 1
        then Some(lp) else None
  }

  /** One phi of First's header: when its incoming value 1 is lcssaValue, in1 replaces it. */
  function RetargetFirstPhi(g: Cfg, firstPhi: nat, lcssaValue: Val, in1: Val): (r: Cfg)
    ensures SameEdges(g, r) && Ids(r) == Ids(g)
  {
    match FindInst(g, firstPhi)
    case Some(PhiInst(_, inc)) =>
      if |inc| >= 2 && inc[1].value == lcssaValue then SetIncomingValue(g, firstPhi, 1, in1) else g
    case _ => g
  }

  /** The loop over First's header phis. */
  function RetargetFirstPhis(g: Cfg, firstPhis: seq<nat>, lcssaValue: Val, in1: Val): (r: Cfg)
    ensures SameEdges(g, r) && Ids(r) == Ids(g)
    decreases |firstPhis|
  {
    if firstPhis == [] then g
    else RetargetFirstPhis(RetargetFirstPhi(g, firstPhis[0], lcssaValue, in1), firstPhis[1..], lcssaValue, in1)
  }

  /**
   * One phi of Second's header. If its incoming value 0 is an LCSSA phi of
   * First's exit, First's header phis fed by that phi's value take the phi's
   * incoming value 1 instead, the phi's uses take the LCSSA value, and both
   * phis are erased. Otherwise the phi moves before `anchor`, in First's
   * header. A phi with fewer than two incoming values is left in place.
   */
  function MergePhi(g: Cfg, first: nat, firstExit: nat, firstPhis: seq<nat>, anchor: Option<nat>, phi: nat): (r: Cfg)
    ensures r.order == g.order && r.loops == g.loops && r.blocks.Keys == g.blocks.Keys
    ensures Ids(r) <= Ids(g)
  {
    match FindInst(g, phi)
    case Some(PhiInst(_, inc)) =>
      if |inc| < 2 then g
      else
        (match LcssaSource(g, first, firstExit, inc[0].value)
         case Some(lp) =>
           var lv := lp.incoming[0].value;
           var g1 := RetargetFirstPhis(g, firstPhis, lv, inc[1].value);
           Erase(Erase(Rauw(g1, InstVal(phi), lv), phi), lp.id)
         case None => MoveBefore(g, phi, anchor))
    case _ => g
  }

  /** The loop over Second's header phis. */
  function MergePhis(g: Cfg, first: nat, firstExit: nat, firstPhis: seq<nat>, anchor: Option<nat>, phis: seq<nat>): (r: Cfg)
    ensures r.order == g.order && r.loops == g.loops && r.blocks.Keys == g.blocks.Keys
    ensures Ids(r) <= Ids(g)
    decreases |phis|
  {
    if phis == [] then g
    else MergePhis(MergePhi(g, first, firstExit, firstPhis, anchor, phis[0]), first, firstExit, firstPhis, anchor, phis[1..])
  }

  /** Both phi lists are taken, and the insertion point chosen, before the first phi moves. */
  function MergeHeaderPhis(g: Cfg, first: nat, p: Parts): (r: Cfg)
    ensures r.order == g.order && r.loops == g.loops && Ids(r) <= Ids(g)
  {
    var secondPhis := PhiIds(Insts(g, p.secondHeader));
    var firstPhis := PhiIds(Insts(g, p.firstHeader));
    MergePhis(g, first, p.firstExit, firstPhis, AnchorOf(Insts(g, p.firstHeader)), secondPhis)
  }

  // ---------------------------------------------------------------------
  // 2b) First's exit phis move to Second's exit

  /** `setIncomingBlock(0, firstLatch)` on each of the listed phis. */
  function RetargetExitPhis(g: Cfg, phis: seq<nat>, firstLatch: nat): (r: Cfg)
    ensures SameEdges(g, r) && Ids(r) == Ids(g)
    decreases |phis|
  {
    if phis == [] then g
    else RetargetExitPhis(SetIncomingBlock(g, phis[0], 0, firstLatch), phis[1..], firstLatch)
  }

  /** The listed instructions, one after the other, each moved just before the anchor. */
  function MoveAllBefore(g: Cfg, ids: seq<nat>, anchor: Option<nat>): (r: Cfg)
    ensures r.order == g.order && r.loops == g.loops && r.blocks.Keys == g.blocks.Keys
    ensures Ids(r) <= Ids(g)
    decreases |ids|
  {
    if ids == [] then g
    else MoveAllBefore(MoveBefore(g, ids[0], anchor), ids[1..], anchor)
  }

  function MoveExitPhis(g: Cfg, p: Parts): (r: Cfg)
    ensures r.order == g.order && r.loops == g.loops && Ids(r) <= Ids(g)
  {
    var movePoint := AnchorOf(Insts(g, p.secondExit));
    var lcssa := PhiIds(Insts(g, p.firstExit));
    MoveAllBefore(RetargetExitPhis(g, lcssa, p.firstLatch), lcssa, movePoint)
  }

  /** Every edit made before the guarded case is looked at. */
  function EditsBeforeGuards(g: Cfg, first: nat, p: Parts): (r: Cfg)
    ensures r.order == g.order && r.loops == g.loops
    ensures Ids(r) <= Ids(g) - {p.secondIv}
  {
    MoveExitPhis(MergeHeaderPhis(RenamePhiBlocks(UnifyIv(g, p), p), first, p), p)
  }

  // ---------------------------------------------------------------------
  // 3) Both loops guarded

  /** The instructions of Second's guard block to move: not the terminator, not the branch condition. */
  function GuardBody(s: seq<Inst>, cond: Option<Val>): (r: seq<nat>)
    ensures forall x :: x in r ==> exists i :: i in s && !i.BrInst? && i.id == x && cond != Some(InstVal(x))
  {
    if s == [] then []
    else
      assert forall i :: i in s[1..] ==> i in s;
      (if !s[0].BrInst? && cond != Some(InstVal(s[0].id)) then [s[0].id] else []) + GuardBody(s[1..], cond)
  }

  function CondOf(s: seq<Inst>): Option<Val> {
    match Terminator(s)
    case None => None
    case Some(br) => br.cond
  }

  /**
   * First's guard skips to the block after Second's exit, Second's guard
   * branches to itself, First's exit branches to itself, the guard body moves
   * to the common exit, and both guard-side blocks go. None when Second's exit
   * has no single successor; the edits made until then stay.
   */
  function UnifyGuards(g: Cfg, p: Parts, firstGuard: nat, secondGuard: nat): (r: Option<Cfg>)
    ensures r.None? <==> SingleSuccessor(g, p.secondExit).None?
    ensures r.Some? ==> r.value.loops == g.loops
  {
    match SingleSuccessor(g, p.secondExit)
    case None => None
    case Some(dest) =>
      var g1 := SetSuccessor(g, firstGuard, 1, dest);
      var g2 := ReplacePhiUsesWith(g1, dest, secondGuard, firstGuard);
      var g3 := ReplaceSuccessorWith(g2, secondGuard, dest, secondGuard);
      var g4 := SetSuccessor(g3, p.firstExit, 0, p.firstExit);
      var insertPt := AnchorOf(Insts(g4, dest));
      var toMove := GuardBody(Insts(g4, secondGuard), CondOf(Insts(g4, secondGuard)));
      var g5 := MoveAllBefore(g4, toMove, insertPt);
      var g6 := ReplacePhiUsesWith(g5, dest, p.firstExit, p.secondExit);
      Some(DeleteBlockSpec(DeleteBlockSpec(g6, Some(secondGuard)), Some(p.firstExit)))
  }

  // ---------------------------------------------------------------------
  // 4) The splice

  /** The four branch edits that put Second's body inside First's latch. */
  function Rewire(g: Cfg, p: Parts): Cfg {
    var g1 := SetSuccessor(g, p.firstLatch, 1, p.secondExit);
    var g2 := ReplaceSuccessorWith(g1, p.firstBody, p.firstLatch, p.secondHeader);
    var g3 := ReplaceSuccessorWith(g2, p.secondBody, p.secondLatch, p.firstLatch);
    ReplaceSuccessorWith(g3, p.secondLatch, p.secondExit, p.secondLatch)
  }

  function Splice(g: Cfg, p: Parts): (r: Cfg)
    ensures r.loops == g.loops
  {
    DeleteBlockSpec(DeleteBlockSpec(Rewire(g, p), Some(p.secondLatch)), Some(p.secondPreheader))
  }

  // ---------------------------------------------------------------------
  // 5) LoopInfo

  /** Second's blocks other than its latch and preheader, in order. */
  function SecondBlocks(bs: seq<nat>, secondLatch: nat, secondPreheader: nat): (r: seq<nat>)
    ensures forall b :: b in r <==> b in bs && b != secondLatch && b != secondPreheader
  {
    if bs == [] then []
    else
      assert forall b :: b in bs <==> b == bs[0] || b in bs[1..];
      (if bs[0] != secondLatch && bs[0] != secondPreheader then [bs[0]] else []) + SecondBlocks(bs[1..], secondLatch, secondPreheader)
  }

  /** Each block joins First and moves before First's latch. */
  function AdoptBlocks(g: Cfg, first: nat, firstLatch: nat, bs: seq<nat>): (r: Cfg)
    ensures r.blocks == g.blocks
    decreases |bs|
  {
    if bs == [] then g
    else AdoptBlocks(MoveBlockBefore(AddBlockToLoop(g, first, bs[0]), bs[0], firstLatch), first, firstLatch, bs[1..])
  }

  // ---------------------------------------------------------------------
  // fuseLoops

  /** Both loops guarded, with Second's exit lacking a single successor once the edits before the guarded case are made. */
  predicate GuardAbort(g: Cfg, an: Analyses, first: nat, second: nat)
    requires ReadyToFuse(g, an, first, second)
  {
    var p := PartsOf(g, an, first, second);
    p.firstGuard.Some? && p.secondGuard.Some? &&
    SingleSuccessor(EditsBeforeGuards(g, first, p), p.secondExit).None?
  }

  /**
   * The function after `fuseLoops(first, second)`, and what it returns. A
   * success returns First itself. The checks made before the first edit leave
   * the function untouched when they fail; the one failure that leaves it
   * changed is the guarded case whose Second exit has no single successor.
   */
  function FuseSpec(g: Cfg, an: Analyses, first: Option<nat>, second: Option<nat>): (r: (Cfg, Option<nat>))
    ensures r.1.Some? ==> first.Some? && second.Some? && r.1 == first && ReadyToFuse(g, an, first.value, second.value)
    ensures first.None? || second.None? || !ReadyToFuse(g, an, first.value, second.value) ==> r == (g, None)
    ensures r.1.None? && r.0 != g ==>
      first.Some? && second.Some? && ReadyToFuse(g, an, first.value, second.value) && GuardAbort(g, an, first.value, second.value)
  {
    if first.None? || second.None? || !ReadyToFuse(g, an, first.value, second.value) then (g, None)
    else FuseParts(g, first.value, second.value, PartsOf(g, an, first.value, second.value))
  }

  /** The edits of `fuseLoops` once the blocks it works with are known. */
  function FuseParts(g: Cfg, f: nat, s: nat, p: Parts): (r: (Cfg, Option<nat>))
    ensures r.1.None? <==> p.firstGuard.Some? && p.secondGuard.Some? && SingleSuccessor(EditsBeforeGuards(g, f, p), p.secondExit).None?
    ensures r.1.None? ==> r.0 == EditsBeforeGuards(g, f, p)
    ensures r.1.Some? ==> r.1 == Some(f)
    ensures r.1.Some? ==> LoopBlocks(r.0, f) == LoopBlocks(g, f) + SecondBlocks(LoopBlocks(g, s), p.secondLatch, p.secondPreheader)
    ensures r.1.Some? ==> forall m :: m != f ==> LoopBlocks(r.0, m) == LoopBlocks(g, m)
  {
    match ThroughGuards(g, f, p)
    case None => (EditsBeforeGuards(g, f, p), None)
    case Some(h) =>
      FinishFusionLoops(g, h, f, s, p);
      (FinishFusion(h, f, s, p), Some(f))
  }

  /** The function after steps 1 to 3, which the splice starts from; None on the guarded abort. */
  function ThroughGuards(g: Cfg, f: nat, p: Parts): (r: Option<Cfg>)
    ensures r.None? <==> p.firstGuard.Some? && p.secondGuard.Some? && SingleSuccessor(EditsBeforeGuards(g, f, p), p.secondExit).None?
    ensures r.Some? ==> r.value.loops == g.loops
  {
    var g4 := EditsBeforeGuards(g, f, p);
    if p.firstGuard.Some? && p.secondGuard.Some? then UnifyGuards(g4, p, p.firstGuard.value, p.secondGuard.value) else Some(g4)
  }

  /** FinishFusion reads only the loop lists of the function it starts from. */
  lemma {:induction false} FinishFusionLoops(g: Cfg, h: Cfg, f: nat, s: nat, p: Parts)
    requires h.loops == g.loops
    ensures LoopBlocks(FinishFusion(h, f, s, p), f) == LoopBlocks(g, f) + SecondBlocks(LoopBlocks(g, s), p.secondLatch, p.secondPreheader)
    ensures forall m :: m != f ==> LoopBlocks(FinishFusion(h, f, s, p), m) == LoopBlocks(g, m)
  {
    assert LoopBlocks(h, f) == LoopBlocks(g, f) && LoopBlocks(h, s) == LoopBlocks(g, s);
    forall m | m != f
      ensures LoopBlocks(FinishFusion(h, f, s, p), m) == LoopBlocks(g, m)
    {
      assert LoopBlocks(h, m) == LoopBlocks(g, m);
    }
  }

  /**
   * The splice, then LoopInfo: First's block list gains every block of
   * Second except Second's latch and preheader, in Second's order, and no
   * other loop's block list changes.
   */
  function FinishFusion(h: Cfg, f: nat, s: nat, p: Parts): (r: Cfg)
    ensures LoopBlocks(r, f) == LoopBlocks(h, f) + SecondBlocks(LoopBlocks(h, s), p.secondLatch, p.secondPreheader)
    ensures forall m :: m != f ==> LoopBlocks(r, m) == LoopBlocks(h, m)
  {
    var spliced := Splice(h, p);
    var bs := SecondBlocks(LoopBlocks(spliced, s), p.secondLatch, p.secondPreheader);
    AdoptBlocksLoops(spliced, f, p.firstLatch, bs);
    AdoptBlocks(spliced, f, p.firstLatch, bs)
  }

  // ---------------------------------------------------------------------
  // Properties of fuseLoops

  /**
   * The guarded abort comes after the edits: the function returned is the one
   * edited up to that point, and it differs from the input whenever Second's
   * induction variable was an instruction of it (that instruction is gone).
   */
  lemma {:induction false} GuardAbortAfterEdits(g: Cfg, an: Analyses, first: nat, second: nat)
    requires ReadyToFuse(g, an, first, second) && GuardAbort(g, an, first, second)
    ensures var p := PartsOf(g, an, first, second);
      FuseSpec(g, an, Some(first), Some(second)) == (EditsBeforeGuards(g, first, p), None) &&
      (p.secondIv in Ids(g) ==> FuseSpec(g, an, Some(first), Some(second)).0 != g)
  {
    var p := PartsOf(g, an, first, second);
    var g4 := EditsBeforeGuards(g, first, p);
    assert FuseSpec(g, an, Some(first), Some(second)) == FuseParts(g, first, second, p) == (g4, None);
    if p.secondIv in Ids(g) {
      assert p.secondIv !in Ids(g4);
    }
  }

  /** No leading phi of the block names `x` in its incoming blocks. */
  predicate PhisAvoid(s: seq<Inst>, x: nat) {
    forall k, e :: 0 <= k < PhiPrefix(s) && e in s[k].incoming ==> e.block != x
  }

  /** Renaming `from` to `to` keeps a block free of `x` when `to` is not `x`. */
  lemma {:induction false} RenameKeepsAvoid(s: seq<Inst>, from: nat, to: nat, x: nat)
    requires PhisAvoid(s, x) && to != x
    ensures PhisAvoid(RenameLeading(s, from, to), x)
  {
    var r := RenameLeading(s, from, to);
    forall k, e | 0 <= k < PhiPrefix(r) && e in r[k].incoming
      ensures e.block != x
    {
      var j :| 0 <= j < |r[k].incoming| && r[k].incoming[j] == e;
      assert s[k].incoming[j] in s[k].incoming;
    }
  }

  /**
   * After the incoming-block renaming, the phis at the head of Second's header
   * are those of the input with Second's latch renamed First's latch and
   * Second's preheader renamed First's preheader, and neither of Second's
   * blocks is named any more.
   */
  lemma {:induction false} RenamePhiBlocksHeader(g: Cfg, p: Parts)
    requires p.secondHeader != p.secondPreheader && p.secondHeader != p.secondExit
    requires p.secondLatch != p.firstLatch && p.secondPreheader != p.firstPreheader
    requires p.secondLatch != p.firstPreheader
    ensures var h := Insts(RenamePhiBlocks(g, p), p.secondHeader);
      h == RenameLeading(RenameLeading(Insts(g, p.secondHeader), p.secondLatch, p.firstLatch), p.secondPreheader, p.firstPreheader)
      && PhisAvoid(h, p.secondLatch) && PhisAvoid(h, p.secondPreheader)
  {
    var g1 := ReplacePhiUsesWith(g, p.secondHeader, p.secondLatch, p.firstLatch);
    var g2 := ReplacePhiUsesWith(g1, p.secondHeader, p.secondPreheader, p.firstPreheader);
    assert PhisAvoid(Insts(g1, p.secondHeader), p.secondLatch);
    RenameKeepsAvoid(Insts(g1, p.secondHeader), p.secondPreheader, p.firstPreheader, p.secondLatch);
    assert PhisAvoid(Insts(g2, p.secondHeader), p.secondPreheader);
    var g3 := match SinglePredecessor(g2, p.secondPreheader)
      case Some(q) => ReplacePhiUsesWith(g2, p.secondPreheader, q, p.firstBody)
      case None => g2;
    assert Insts(g3, p.secondHeader) == Insts(g2, p.secondHeader);
  }

  /**
   * The splice. With the four edited blocks distinct: First's latch leaves
   * the loop for Second's exit through successor 1, First's body enters
   * Second's header where it entered First's latch, Second's body enters
   * First's latch where it entered Second's latch, and Second's latch branches
   * to itself where it branched to Second's exit. No other block changes.
   */
  lemma {:induction false} RewireEdges(h: Cfg, p: Parts)
    requires p.firstLatch != p.firstBody && p.firstLatch != p.secondBody && p.firstLatch != p.secondLatch
    requires p.firstBody != p.secondBody && p.firstBody != p.secondLatch && p.secondBody != p.secondLatch
    requires Terminator(Insts(h, p.firstLatch)).Some? && |Succs(h, p.firstLatch)| >= 2
    ensures var r := Rewire(h, p);
      Succs(r, p.firstLatch) == Succs(h, p.firstLatch)[1 := p.secondExit] &&
      Succs(r, p.firstBody) == ReplaceAllIn(Succs(h, p.firstBody), p.firstLatch, p.secondHeader) &&
      Succs(r, p.secondBody) == ReplaceAllIn(Succs(h, p.secondBody), p.secondLatch, p.firstLatch) &&
      Succs(r, p.secondLatch) == ReplaceAllIn(Succs(h, p.secondLatch), p.secondExit, p.secondLatch) &&
      forall c :: c !in {p.firstLatch, p.firstBody, p.secondBody, p.secondLatch} ==> Insts(r, c) == Insts(h, c)
  {
    var g1 := SetSuccessor(h, p.firstLatch, 1, p.secondExit);
    var g2 := ReplaceSuccessorWith(g1, p.firstBody, p.firstLatch, p.secondHeader);
    var g3 := ReplaceSuccessorWith(g2, p.secondBody, p.secondLatch, p.firstLatch);
    var r := ReplaceSuccessorWith(g3, p.secondLatch, p.secondExit, p.secondLatch);
    assert Succs(g1, p.firstLatch) == Succs(h, p.firstLatch)[1 := p.secondExit];
    assert Succs(g2, p.firstBody) == ReplaceAllIn(Succs(h, p.firstBody), p.firstLatch, p.secondHeader);
    assert Succs(g3, p.secondBody) == ReplaceAllIn(Succs(h, p.secondBody), p.secondLatch, p.firstLatch);
    assert Succs(r, p.secondLatch) == ReplaceAllIn(Succs(h, p.secondLatch), p.secondExit, p.secondLatch);
  }

  /**
   * `setSuccessor(1, secondExit)` on First's latch: a latch with a second
   * successor slot now leaves for Second's exit through it; a latch with one
   * slot only (an unconditional branch) keeps its successors.
   */
  lemma {:induction false} RewireLatch(h: Cfg, p: Parts)
    requires p.firstLatch != p.firstBody && p.firstLatch != p.secondBody && p.firstLatch != p.secondLatch
    ensures var ss := Succs(h, p.firstLatch);
      Succs(Rewire(h, p), p.firstLatch) == (if 1 < |ss| then ss[1 := p.secondExit] else ss)
  {
    var ss := Succs(h, p.firstLatch);
    var g1 := SetSuccessor(h, p.firstLatch, 1, p.secondExit);
    assert Succs(g1, p.firstLatch) == (if 1 < |ss| then ss[1 := p.secondExit] else ss);
  }

  /** The splice and the LoopInfo update keep every block other than Second's latch and preheader as `Rewire` leaves it. */
  lemma {:induction false} FinishFusionFrame(h: Cfg, f: nat, s: nat, p: Parts, c: nat)
    requires c != p.secondLatch && c != p.secondPreheader
    ensures Insts(FinishFusion(h, f, s, p), c) == Insts(Rewire(h, p), c)
  {
    var spliced := Splice(h, p);
    assert Insts(spliced, c) == Insts(Rewire(h, p), c);
  }

  /** The edges the splice leaves in First's latch, First's body and Second's body, in terms of the function it starts from. */
  predicate SplicedEdges(h: Cfg, r: Cfg, p: Parts) {
    var ss := Succs(h, p.firstLatch);
    Succs(r, p.firstLatch) == (if 1 < |ss| then ss[1 := p.secondExit] else ss) &&
    Succs(r, p.firstBody) == ReplaceAllIn(Succs(h, p.firstBody), p.firstLatch, p.secondHeader) &&
    Succs(r, p.secondBody) == ReplaceAllIn(Succs(h, p.secondBody), p.secondLatch, p.firstLatch)
  }

  /** The three blocks that `Rewire` edits and `Splice` keeps, all distinct from each other and from the deleted blocks. */
  predicate SpliceDistinct(p: Parts) {
    p.firstLatch != p.firstBody && p.firstLatch != p.secondBody && p.firstBody != p.secondBody &&
    p.firstLatch != p.secondLatch && p.firstLatch != p.secondPreheader &&
    p.firstBody != p.secondLatch && p.firstBody != p.secondPreheader &&
    p.secondBody != p.secondLatch && p.secondBody != p.secondPreheader
  }

  /** The splice and the LoopInfo update leave the edges of `SplicedEdges`. */
  lemma {:induction false} FinishFusionEdges(h: Cfg, f: nat, s: nat, p: Parts)
    requires SpliceDistinct(p)
    ensures SplicedEdges(h, FinishFusion(h, f, s, p), p)
  {
    var w := Rewire(h, p);
    RewireLatch(h, p);
    RewireBodies(h, p);
    assert SplicedEdges(h, w, p);
    FinishFusionFrame(h, f, s, p, p.firstLatch);
    FinishFusionFrame(h, f, s, p, p.firstBody);
    FinishFusionFrame(h, f, s, p, p.secondBody);
    SplicedEdgesFrame(h, w, FinishFusion(h, f, s, p), p);
  }

  /** `SplicedEdges` depends only on the three edited blocks. */
  lemma {:induction false} SplicedEdgesFrame(h: Cfg, w: Cfg, r: Cfg, p: Parts)
    requires SplicedEdges(h, w, p)
    requires Insts(r, p.firstLatch) == Insts(w, p.firstLatch) && Insts(r, p.firstBody) == Insts(w, p.firstBody)
    requires Insts(r, p.secondBody) == Insts(w, p.secondBody)
    ensures SplicedEdges(h, r, p)
  {
    assert Succs(r, p.firstLatch) == Succs(w, p.firstLatch);
  }

  /** The two `replaceSuccessorWith` edits of the bodies, whatever First's latch holds. */
  lemma {:induction false} RewireBodies(h: Cfg, p: Parts)
    requires SpliceDistinct(p)
    ensures Succs(Rewire(h, p), p.firstBody) == ReplaceAllIn(Succs(h, p.firstBody), p.firstLatch, p.secondHeader)
    ensures Succs(Rewire(h, p), p.secondBody) == ReplaceAllIn(Succs(h, p.secondBody), p.secondLatch, p.firstLatch)
  {
    var g1 := SetSuccessor(h, p.firstLatch, 1, p.secondExit);
    var g2 := ReplaceSuccessorWith(g1, p.firstBody, p.firstLatch, p.secondHeader);
    var g3 := ReplaceSuccessorWith(g2, p.secondBody, p.secondLatch, p.firstLatch);
    assert Succs(g2, p.firstBody) == ReplaceAllIn(Succs(h, p.firstBody), p.firstLatch, p.secondHeader);
    assert Succs(g3, p.secondBody) == ReplaceAllIn(Succs(h, p.secondBody), p.secondLatch, p.firstLatch);
  }

  /**
   * The edges a successful fusion leaves, relative to the function the splice
   * starts from. First's latch leaves for Second's exit through successor 1
   * when it has that slot, and keeps its successors when it has one slot
   * only. First's body enters Second's header where it entered First's latch,
   * and Second's body enters First's latch where it entered Second's latch.
   */
  lemma {:induction false} FuseEdges(g: Cfg, an: Analyses, first: nat, second: nat)
    requires FuseSpec(g, an, Some(first), Some(second)).1.Some?
    requires SpliceDistinct(PartsOf(g, an, first, second))
    ensures var p := PartsOf(g, an, first, second);
      ThroughGuards(g, first, p).Some? &&
      SplicedEdges(ThroughGuards(g, first, p).value, FuseSpec(g, an, Some(first), Some(second)).0, p)
  {
    var p := PartsOf(g, an, first, second);
    assert FuseSpec(g, an, Some(first), Some(second)) == FuseParts(g, first, second, p);
    var h := ThroughGuards(g, first, p).value;
    FinishFusionEdges(h, first, second, p);
  }

  /**
   * When Second's latch is the block that leaves Second, the splice leaves it
   * branching to itself: it is still referenced when `deleteBlock` asserts
   * that it has no remaining use.
   */
  lemma {:induction false} LatchStillReferenced(h: Cfg, p: Parts)
    requires p.firstLatch != p.firstBody && p.firstLatch != p.secondBody && p.firstLatch != p.secondLatch
    requires p.firstBody != p.secondBody && p.firstBody != p.secondLatch && p.secondBody != p.secondLatch
    requires Terminator(Insts(h, p.firstLatch)).Some? && |Succs(h, p.firstLatch)| >= 2
    requires p.secondLatch in h.blocks && p.secondExit in Succs(h, p.secondLatch)
    ensures Referenced(Rewire(h, p), p.secondLatch)
  {
    RewireEdges(h, p);
    var r := Rewire(h, p);
    var j :| 0 <= j < |Succs(h, p.secondLatch)| && Succs(h, p.secondLatch)[j] == p.secondExit;
    assert Succs(r, p.secondLatch)[j] == p.secondLatch;
    assert p.secondLatch in r.blocks;
  }

  /** Adopting blocks appends them, in order, to First's block list and leaves every other loop alone. */
  lemma {:induction false} AdoptBlocksLoops(g: Cfg, first: nat, firstLatch: nat, bs: seq<nat>)
    ensures LoopBlocks(AdoptBlocks(g, first, firstLatch, bs), first) == LoopBlocks(g, first) + bs
    ensures forall m :: m != first ==> LoopBlocks(AdoptBlocks(g, first, firstLatch, bs), m) == LoopBlocks(g, m)
    ensures forall c :: c in AdoptBlocks(g, first, firstLatch, bs).order <==> c in g.order
  {
    AdoptBlocksFirst(g, first, firstLatch, bs);
    AdoptBlocksOthers(g, first, firstLatch, bs);
    AdoptBlocksOrder(g, first, firstLatch, bs);
  }

  lemma {:induction false} AdoptBlocksFirst(g: Cfg, first: nat, firstLatch: nat, bs: seq<nat>)
    ensures LoopBlocks(AdoptBlocks(g, first, firstLatch, bs), first) == LoopBlocks(g, first) + bs
    decreases |bs|
  {
    if bs != [] {
      var g' := MoveBlockBefore(AddBlockToLoop(g, first, bs[0]), bs[0], firstLatch);
      var before := LoopBlocks(g, first);
      assert LoopBlocks(g', first) == before + [bs[0]] by {
        assert g'.loops == AddBlockToLoop(g, first, bs[0]).loops;
      }
      assert AdoptBlocks(g, first, firstLatch, bs) == AdoptBlocks(g', first, firstLatch, bs[1..]);
      AdoptBlocksFirst(g', first, firstLatch, bs[1..]);
      SnocThenRest(before, bs);
    }
  }

  lemma {:induction false} SnocThenRest(a: seq<nat>, bs: seq<nat>)
    requires bs != []
    ensures (a + [bs[0]]) + bs[1..] == a + bs
  {
    assert bs == [bs[0]] + bs[1..];
  }

  lemma {:induction false} AdoptBlocksOthers(g: Cfg, first: nat, firstLatch: nat, bs: seq<nat>)
    ensures forall m :: m != first ==> LoopBlocks(AdoptBlocks(g, first, firstLatch, bs), m) == LoopBlocks(g, m)
    decreases |bs|
  {
    if bs != [] {
      var g' := MoveBlockBefore(AddBlockToLoop(g, first, bs[0]), bs[0], firstLatch);
      assert g'.loops == AddBlockToLoop(g, first, bs[0]).loops;
      AdoptBlocksOthers(g', first, firstLatch, bs[1..]);
    }
  }

  lemma {:induction false} AdoptBlocksOrder(g: Cfg, first: nat, firstLatch: nat, bs: seq<nat>)
    ensures forall c :: c in AdoptBlocks(g, first, firstLatch, bs).order <==> c in g.order
    decreases |bs|
  {
    if bs != [] {
      var g' := MoveBlockBefore(AddBlockToLoop(g, first, bs[0]), bs[0], firstLatch);
      AdoptBlocksOrder(g', first, firstLatch, bs[1..]);
    }
  }

  /**
   * A successful fusion leaves First's block list holding its old blocks
   * followed by every block of Second except Second's latch and preheader; no
   * other loop's block list changes.
   */
  lemma {:induction false} FuseJoinsBlocks(g: Cfg, an: Analyses, first: nat, second: nat)
    requires FuseSpec(g, an, Some(first), Some(second)).1.Some?
    ensures var p := PartsOf(g, an, first, second); var r := FuseSpec(g, an, Some(first), Some(second)).0;
      LoopBlocks(r, first) == LoopBlocks(g, first) + SecondBlocks(LoopBlocks(g, second), p.secondLatch, p.secondPreheader) &&
      (forall b :: b in LoopBlocks(g, second) && b != p.secondLatch && b != p.secondPreheader ==> Contains(r, first, b)) &&
      forall m :: m != first ==> LoopBlocks(r, m) == LoopBlocks(g, m)
  {
    var p := PartsOf(g, an, first, second);
    assert FuseSpec(g, an, Some(first), Some(second)) == FuseParts(g, first, second, p);
  }
}
