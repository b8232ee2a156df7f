/**
 * `isOptimizable` of the loop-fusion pass: whether two loops may be fused.
 * A structural gate (both loops in simplified form) comes first; after it,
 * four gates are all evaluated and ANDed: adjacency, equal trip counts,
 * control-flow equivalence and the absence of a negative dependence distance.
 */
module FusionLegality {
  import opened Common
  import opened TwosComplement
  import opened FusionIr

  /** `strutturaAdeguata`: preheader, latch, exit and header exist, the preheader has one successor and the latch one predecessor. */
  predicate StructureOk(g: Cfg, l: nat) {
    Preheader(g, l).Some? && Latch(g, l).Some? && ExitBlock(g, l).Some? && Header(g, l).Some? &&
    SingleSuccessor(g, Preheader(g, l).value).Some? && SinglePredecessor(g, Latch(g, l).value).Some?
  }

  // ---------------------------------------------------------------------
  // 1) Adjacency

  /** Where control goes after First: its exit block, or that block's single successor when First is guarded. */
  function FirstExitBB(g: Cfg, an: Analyses, first: nat): Option<nat> {
    if IsGuarded(g, an, first) then
      match ExitBlock(g, first)
      case None => None
      case Some(e) => SingleSuccessor(g, e)
    else ExitBlock(g, first)
  }

  /** Where control enters Second: its guard block when guarded, otherwise its preheader. */
  function SecondEntryBB(g: Cfg, an: Analyses, second: nat): Option<nat> {
    if IsGuarded(g, an, second) then GuardBlock(g, an, second) else Preheader(g, second)
  }

  predicate Adjacent(g: Cfg, an: Analyses, first: nat, second: nat) {
    FirstExitBB(g, an, first).Some? && SecondEntryBB(g, an, second).Some? &&
    FirstExitBB(g, an, first) == SecondEntryBB(g, an, second)
  }

  /** Two unguarded loops are adjacent exactly when First's exit block is Second's preheader. */
  lemma {:induction false} AdjacentUnguarded(g: Cfg, an: Analyses, first: nat, second: nat)
    requires !IsGuarded(g, an, first) && !IsGuarded(g, an, second)
    ensures Adjacent(g, an, first, second) <==>
      ExitBlock(g, first).Some? && ExitBlock(g, first) == Preheader(g, second)
  {
  }

  /** Two guarded loops are adjacent exactly when First's exit block leads straight to Second's guard block. */
  lemma {:induction false} AdjacentGuarded(g: Cfg, an: Analyses, first: nat, second: nat)
    requires IsGuarded(g, an, first) && IsGuarded(g, an, second)
    ensures Adjacent(g, an, first, second) <==>
      ExitBlock(g, first).Some? && Succs(g, ExitBlock(g, first).value) == [GuardBlock(g, an, second).value]
  {
  }

  // ---------------------------------------------------------------------
  // 2) Trip count

  predicate SameTripCount(an: Analyses, first: nat, second: nat) {
    match (an.backedgeTaken(first), an.backedgeTaken(second))
    case (Some(tc1), Some(tc2)) => tc1.ty == tc2.ty && an.knownEqual(tc1, tc2)
    case _ => false
  }

  /**
   * Both counts must be computable and of one type, and their equality must
   * be provable by scalar evolution; two equal expressions that it cannot
   * prove equal do not pass.
   */
  lemma {:induction false} SameTripCountIff(an: Analyses, first: nat, second: nat)
    ensures SameTripCount(an, first, second) <==>
      an.backedgeTaken(first).Some? && an.backedgeTaken(second).Some? &&
      an.backedgeTaken(first).value.ty == an.backedgeTaken(second).value.ty &&
      an.knownEqual(an.backedgeTaken(first).value, an.backedgeTaken(second).value)
  {
  }

  // ---------------------------------------------------------------------
  // 3) Control-flow equivalence

  /** The condition of a block's terminator when it is an `icmp` instruction of the function. */
  function GuardCompare(g: Cfg, gb: nat): (r: Option<Inst>)
    ensures r.Some? ==> r.value.OpInst? && r.value.kind.ICmp?
  {
    match Terminator(Insts(g, gb))
    case None => None
    case Some(t) =>
      match t.cond
      case Some(InstVal(c)) =>
        (match FindInst(g, c)
         case Some(i) => if i.OpInst? && i.kind.ICmp? then Some(i) else None
         case None => None)
      case _ => None
  }

  /** `isIdenticalTo` on two instructions: same opcode, predicate and operands. */
  predicate Identical(a: Inst, b: Inst) {
    a.OpInst? && b.OpInst? && a.kind == b.kind && a.operands == b.operands
  }

  /** Both guarded: both guards conditional branches on identical `icmp`s, entries the guard blocks. Neither: the headers. */
  function FlowEntries(g: Cfg, an: Analyses, first: nat, second: nat): (r: Option<(nat, nat)>)
  {
    if IsGuarded(g, an, first) != IsGuarded(g, an, second) then None
    else if IsGuarded(g, an, first) then
      var (b1, b2) := (GuardBlock(g, an, first).value, GuardBlock(g, an, second).value);
      var (c1, c2) := (GuardCompare(g, b1), GuardCompare(g, b2));
      if c1.Some? && c2.Some? && Identical(c1.value, c2.value) then Some((b1, b2)) else None
    else if Header(g, first).Some? && Header(g, second).Some? then Some((Header(g, first).value, Header(g, second).value))
    else None
  }

  predicate ControlFlowEquivalent(g: Cfg, an: Analyses, first: nat, second: nat) {
    match FlowEntries(g, an, first, second)
    case None => false
    case Some((e1, e2)) => an.dom(e1, e2) && an.postdom(e2, e1)
  }

  /**
   * Control-flow equivalence: the loops agree on being guarded, the guards
   * (if any) test identical comparisons, and First's entry dominates Second's
   * entry while Second's entry post-dominates First's.
   */
  lemma {:induction false} ControlFlowEquivalentIff(g: Cfg, an: Analyses, first: nat, second: nat)
    ensures ControlFlowEquivalent(g, an, first, second) <==>
      IsGuarded(g, an, first) == IsGuarded(g, an, second) &&
      (if IsGuarded(g, an, first) then
         var (b1, b2) := (GuardBlock(g, an, first).value, GuardBlock(g, an, second).value);
         GuardCompare(g, b1).Some? && GuardCompare(g, b2).Some? &&
         Identical(GuardCompare(g, b1).value, GuardCompare(g, b2).value) &&
         an.dom(b1, b2) && an.postdom(b2, b1)
       else
         Header(g, first).Some? && Header(g, second).Some? &&
         an.dom(Header(g, first).value, Header(g, second).value) &&
         an.postdom(Header(g, second).value, Header(g, first).value))
  {
  }

  // ---------------------------------------------------------------------
  // 4) Dependences

  /** The instructions of a loop's blocks, block by block. */
  function LoopInstsFrom(g: Cfg, l: nat, k: nat): (r: seq<Inst>)
    requires k <= |LoopBlocks(g, l)|
    decreases |LoopBlocks(g, l)| - k
  {
    if k == |LoopBlocks(g, l)| then [] else Insts(g, LoopBlocks(g, l)[k]) + LoopInstsFrom(g, l, k + 1)
  }

  function LoopInsts(g: Cfg, l: nat): seq<Inst> {
    LoopInstsFrom(g, l, 0)
  }

  predicate IsLoadStore(i: Inst) {
    i.OpInst? && (i.kind == Load || i.kind == Store)
  }

  /** `ByteOffset.getSExtValue() / (int64_t)ElemSize`: both read as 64-bit signed, the quotient truncated toward zero. */
  function ElementOffset(byteOffset: int, elemSize: nat): int
    requires Wrap(64, elemSize) != 0
  {
    ToSignedRange(64, elemSize);
    WrapSmall(64, 0);
    TruncDiv(ToSigned(64, byteOffset), ToSigned(64, elemSize))
  }

  /** The element size the gate divides by: First's GEP element type, else Second's. */
  function GateElemSize(an: Analyses, i1: Inst, i2: Inst): Option<nat> {
    var (p1, p2) := (an.pointer(i1.id), an.pointer(i2.id));
    if p1.gepElemSize.Some? then p1.gepElemSize else p2.gepElemSize
  }

  /** The distance the gate computes for a pair, when every step of the computation succeeds. */
  function PairDistance(an: Analyses, i1: Inst, i2: Inst): Option<int> {
    if !an.depends(i1.id, i2.id) || !IsLoadStore(i1) || !IsLoadStore(i2) then None
    else
      var (p1, p2) := (an.pointer(i1.id), an.pointer(i2.id));
      if !p1.scev.AddRec? || !p2.scev.AddRec? || p1.scev.step != p2.scev.step then None
      else match an.startDiff(p1.scev.start, p2.scev.start)
        case None => None
        case Some(d) =>
          match GateElemSize(an, i1, i2)
          case None => None
          case Some(size) => if Wrap(64, size) == 0 then None else Some(ElementOffset(d, size))
  }

  /** One pair of instructions makes the gate fail. */
  predicate PairRejects(an: Analyses, i1: Inst, i2: Inst) {
    var d := PairDistance(an, i1, i2);
    d.Some? && d.value < 0
  }

  predicate NoNegativeDependence(g: Cfg, an: Analyses, first: nat, second: nat) {
    var (s1, s2) := (LoopInsts(g, first), LoopInsts(g, second));
    forall k1, k2 :: 0 <= k1 < |s1| && 0 <= k2 < |s2| ==> !PairRejects(an, s1[k1], s2[k2])
  }

  /**
   * With a positive element size below 2^63 the truncating division is
   * negative exactly when the byte distance is at least one element below
   * zero: a distance smaller than one element in magnitude passes the gate.
   */
  lemma {:induction false} ElementOffsetNegative(byteOffset: int, elemSize: nat)
    requires -(Pow2(63) as int) <= byteOffset < Pow2(63) && 0 < elemSize < Pow2(63)
    ensures Wrap(64, elemSize) != 0
    ensures ElementOffset(byteOffset, elemSize) < 0 <==> byteOffset <= -(elemSize as int)
  {
    SignedDivisionNegative(64, byteOffset, elemSize);
  }

  /** The same at any width w: reading both as w-bit signed values changes neither. */
  lemma {:induction false} SignedDivisionNegative(w: nat, a: int, k: nat)
    requires w >= 1 && -(Pow2(w - 1) as int) <= a < Pow2(w - 1) && 0 < k < Pow2(w - 1)
    ensures Wrap(w, k) != 0 && ToSigned(w, k) != 0
    ensures TruncDiv(ToSigned(w, a), ToSigned(w, k)) < 0 <==> a <= -(k as int)
  {
    SignedOfInRange(w, a);
    SignedOfInRange(w, k);
    TruncDivNegative(a, k);
  }

  /** A quotient truncated toward zero by a positive divisor is negative exactly when the dividend is at most minus the divisor. */
  lemma {:induction false} TruncDivNegative(a: int, k: int)
    requires k >= 1
    ensures TruncDiv(a, k) < 0 <==> a <= -k
  {
    if a >= 0 {
      DivAtMost(a, k);
      assert TruncDiv(a, k) == a / k;
    } else if a <= -k {
      DivAtLeastOne(-a, k);
    } else {
      DivBelowOne(-a, k);
    }
  }

  /** A w-bit signed value reads back as itself. */
  lemma {:induction false} SignedOfInRange(w: nat, x: int)
    requires w >= 1 && -(Pow2(w - 1) as int) <= x < Pow2(w - 1)
    ensures ToSigned(w, x) == x
  {
    assert Pow2(w) == 2 * Pow2(w - 1);
    if x >= 0 {
      WrapSmall(w, x);
    } else {
      WrapOfNegated(w, -x);
    }
  }

  lemma {:induction false} DivAtLeastOne(a: int, k: int)
    requires k >= 1 && a >= k
    ensures TruncDiv(-a, k) < 0
  {
    DivModUnique(a, k, a / k, a % k);
    assert a / k >= 1;
  }

  lemma {:induction false} DivBelowOne(a: int, k: int)
    requires k >= 1 && 0 < a < k
    ensures TruncDiv(-a, k) == 0
  {
    DivModUnique(a, k, 0, a);
  }

  /**
   * The dependence gate fails exactly when some instruction of First and some
   * instruction of Second are dependent memory accesses whose addresses are
   * affine with one step, differ by a constant, at least one through a GEP of
   * non-zero element size, and whose distance in elements is negative.
   */
  lemma {:induction false} DependenceGateIff(g: Cfg, an: Analyses, first: nat, second: nat)
    ensures !NoNegativeDependence(g, an, first, second) <==>
      exists i1, i2 :: i1 in LoopInsts(g, first) && i2 in LoopInsts(g, second) && PairRejects(an, i1, i2)
  {
    var (s1, s2) := (LoopInsts(g, first), LoopInsts(g, second));
    if exists i1, i2 :: i1 in s1 && i2 in s2 && PairRejects(an, i1, i2) {
      var i1, i2 :| i1 in s1 && i2 in s2 && PairRejects(an, i1, i2);
      var k1 :| 0 <= k1 < |s1| && s1[k1] == i1;
      var k2 :| 0 <= k2 < |s2| && s2[k2] == i2;
      assert !PairRejects(an, s1[k1], s2[k2]) == false;
    }
  }

  /**
   * A pair rejects exactly when its addresses are comparable and it is at
   * least one element behind, the element being that of whichever address is
   * a GEP, First's first (sizes below 2^63, 64-bit offsets).
   */
  lemma {:induction false} PairRejectsIff(an: Analyses, i1: Inst, i2: Inst)
    requires IsLoadStore(i1) && IsLoadStore(i2) && an.depends(i1.id, i2.id)
    requires an.pointer(i1.id).scev.AddRec? && an.pointer(i2.id).scev.AddRec?
    requires an.pointer(i1.id).scev.step == an.pointer(i2.id).scev.step
    requires an.startDiff(an.pointer(i1.id).scev.start, an.pointer(i2.id).scev.start).Some?
    requires var d := an.startDiff(an.pointer(i1.id).scev.start, an.pointer(i2.id).scev.start).value;
      -(Pow2(63) as int) <= d < Pow2(63)
    requires GateElemSize(an, i1, i2).Some? && 0 < GateElemSize(an, i1, i2).value < Pow2(63)
    ensures PairRejects(an, i1, i2) <==>
      an.startDiff(an.pointer(i1.id).scev.start, an.pointer(i2.id).scev.start).value <= -(GateElemSize(an, i1, i2).value as int)
  {
    var d := an.startDiff(an.pointer(i1.id).scev.start, an.pointer(i2.id).scev.start).value;
    var e := GateElemSize(an, i1, i2).value;
    ElementOffsetNegative(d, e);
    assert PairDistance(an, i1, i2) == Some(ElementOffset(d, e));
  }

  // ---------------------------------------------------------------------
  // isOptimizable

  function IsOptimizable(g: Cfg, an: Analyses, first: Option<nat>, second: Option<nat>): (r: bool)
    ensures r ==> first.Some? && second.Some? && StructureOk(g, first.value) && StructureOk(g, second.value)
    ensures r ==> Adjacent(g, an, first.value, second.value) && SameTripCount(an, first.value, second.value)
    ensures r ==> ControlFlowEquivalent(g, an, first.value, second.value) && NoNegativeDependence(g, an, first.value, second.value)
  {
    if first.None? || second.None? then false
    else if !StructureOk(g, first.value) || !StructureOk(g, second.value) then false
    else
      var (f, s) := (first.value, second.value);
      var adj := Adjacent(g, an, f, s);
      var tc := SameTripCount(an, f, s);
      var cf := ControlFlowEquivalent(g, an, f, s);
      var dep := NoNegativeDependence(g, an, f, s);
      adj && tc && cf && dep
  }

  /** Every gate is needed: two structurally sound loops pass exactly when all four gates hold. */
  lemma {:induction false} IsOptimizableIff(g: Cfg, an: Analyses, first: nat, second: nat)
    requires StructureOk(g, first) && StructureOk(g, second)
    ensures IsOptimizable(g, an, Some(first), Some(second)) <==>
      Adjacent(g, an, first, second) && SameTripCount(an, first, second) &&
      ControlFlowEquivalent(g, an, first, second) && NoNegativeDependence(g, an, first, second)
  {
  }
}
