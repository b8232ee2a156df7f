/**
 * The loop-fusion pass as it runs: a function whose control-flow graph and
 * LoopInfo are edited in place, `deleteBlock`, `fuseLoops` and `runOnLoops`.
 * Each method is proved against the specification in FusionFuse.
 */
module FusionPass {
  import opened Common
  import opened FusionIr
  import opened FusionLegality
  import opened FusionEdit
  import opened FusionFuse

  // ---------------------------------------------------------------------
  // runOnLoops, as a function

  /**
   * One iteration of the walk, with `corr` the current entry: the function,
   * the previous loop and the change flag afterwards. A null entry is skipped
   * and the previous loop kept. A pair that passes `isOptimizable` is fused;
   * on success the fused loop is the previous loop of the next pair and the
   * run counts as a change. Otherwise the current loop becomes the previous
   * one, and the function keeps whatever a failed fusion left in it.
   */
  function Visit(g: Cfg, an: Analyses, prec: Option<nat>, corr: Option<nat>, changed: bool): (r: (Cfg, Option<nat>, bool))
    ensures r.2 <==> changed || (corr.Some? && prec.Some? && IsOptimizable(g, an, prec, corr) && FuseSpec(g, an, prec, corr).1.Some?)
    ensures corr.None? ==> r == (g, prec, changed)
    ensures corr.Some? && !(prec.Some? && IsOptimizable(g, an, prec, corr)) ==> r == (g, corr, changed)
    ensures r.1.None? ==> corr.None? && prec.None?
    ensures corr.Some? && prec.Some? && IsOptimizable(g, an, prec, corr) ==>
      r.0 == FuseSpec(g, an, prec, corr).0 && r.1 == (if FuseSpec(g, an, prec, corr).1.Some? then prec else corr)
  {
    if corr.None? then (g, prec, changed)
    else if prec.Some? && IsOptimizable(g, an, prec, corr) then
      var (g', fused) := FuseSpec(g, an, prec, corr);
      if fused.Some? then (g', fused, true) else (g', corr, changed)
    else (g, corr, changed)
  }

  /** The walk over the top-level loops from the back of the list to the front. */
  function Drive(g: Cfg, an: Analyses, loops: seq<Option<nat>>, prec: Option<nat>, changed: bool): (r: (Cfg, bool))
    decreases |loops|
  {
    if loops == [] then (g, changed)
    else
      var (g', prec', changed') := Visit(g, an, prec, loops[|loops| - 1], changed);
      Drive(g', an, loops[..|loops| - 1], prec', changed')
  }

  /** Once a fusion has been reported the run reports a change, whatever comes after. */
  lemma {:induction false} DriveKeepsChanged(g: Cfg, an: Analyses, loops: seq<Option<nat>>, prec: Option<nat>)
    ensures Drive(g, an, loops, prec, true).1
    decreases |loops|
  {
    if loops != [] {
      var (g', prec', changed') := Visit(g, an, prec, loops[|loops| - 1], true);
      DriveKeepsChanged(g', an, loops[..|loops| - 1], prec');
    }
  }

  /** A successful fusion of the first pair the walk visits makes the run report a change, whatever comes after. */
  lemma {:induction false} DriveReportsFusion(g: Cfg, an: Analyses, loops: seq<Option<nat>>, prec: Option<nat>, changed: bool)
    requires loops != [] && loops[|loops| - 1].Some? && prec.Some?
    requires IsOptimizable(g, an, prec, loops[|loops| - 1]) && FuseSpec(g, an, prec, loops[|loops| - 1]).1.Some?
    ensures Drive(g, an, loops, prec, changed).1
  {
    var (g', prec', changed') := Visit(g, an, prec, loops[|loops| - 1], changed);
    DriveKeepsChanged(g', an, loops[..|loops| - 1], prec');
  }

  /**
   * Some pair the walk visits, in the function as the earlier steps left it,
   * passes `isOptimizable` and fuses.
   */
  ghost predicate FusesSomewhere(g: Cfg, an: Analyses, loops: seq<Option<nat>>, prec: Option<nat>)
    decreases |loops|
  {
    if loops == [] then false
    else
      var corr := loops[|loops| - 1];
      var v := Visit(g, an, prec, corr, false);
      (corr.Some? && prec.Some? && IsOptimizable(g, an, prec, corr) && FuseSpec(g, an, prec, corr).1.Some?)
      || FusesSomewhere(v.0, an, loops[..|loops| - 1], v.1)
  }

  /** `runOnLoops` reports a change exactly when some pair the walk visits is fused. */
  lemma {:induction false} DriveChangedIff(g: Cfg, an: Analyses, loops: seq<Option<nat>>, prec: Option<nat>, changed: bool)
    ensures Drive(g, an, loops, prec, changed).1 <==> changed || FusesSomewhere(g, an, loops, prec)
    decreases |loops|
  {
    if loops != [] {
      var corr := loops[|loops| - 1];
      var v := Visit(g, an, prec, corr, changed);
      VisitIgnoresFlag(g, an, prec, corr, changed);
      DriveChangedIff(v.0, an, loops[..|loops| - 1], v.1, v.2);
    }
  }

  /** The function and previous loop after a step do not depend on the change flag. */
  lemma {:induction false} VisitIgnoresFlag(g: Cfg, an: Analyses, prec: Option<nat>, corr: Option<nat>, changed: bool)
    ensures Visit(g, an, prec, corr, changed).0 == Visit(g, an, prec, corr, false).0
    ensures Visit(g, an, prec, corr, changed).1 == Visit(g, an, prec, corr, false).1
  {
  }

  /** The entries of the list that are not null, in order. */
  function NonNull(loops: seq<Option<nat>>): (r: seq<Option<nat>>)
    ensures forall x :: x in r <==> x in loops && x.Some?
  {
    if loops == [] then []
    else
      assert forall x :: x in loops <==> x in loops[..|loops| - 1] || x == loops[|loops| - 1];
      NonNull(loops[..|loops| - 1]) + (if loops[|loops| - 1].Some? then [loops[|loops| - 1]] else [])
  }

  /** Null entries in the list of top-level loops make no difference to the run. */
  lemma {:induction false} DriveSkipsNull(g: Cfg, an: Analyses, loops: seq<Option<nat>>, prec: Option<nat>, changed: bool)
    ensures Drive(g, an, loops, prec, changed) == Drive(g, an, NonNull(loops), prec, changed)
    decreases |loops|
  {
    if loops != [] {
      var corr := loops[|loops| - 1];
      var rest := loops[..|loops| - 1];
      var nn := NonNull(loops);
      if corr.None? {
        assert nn == NonNull(rest) + [] == NonNull(rest);
        DriveSkipsNull(g, an, rest, prec, changed);
      } else {
        assert nn == NonNull(rest) + [corr];
        assert nn[|nn| - 1] == corr && nn[..|nn| - 1] == NonNull(rest);
        var (g', prec', changed') := Visit(g, an, prec, corr, changed);
        DriveSkipsNull(g', an, rest, prec', changed');
      }
    }
  }

  /**
   * When no pair the walk meets passes `isOptimizable` (the pending previous
   * loop with the last non-null entry, then each non-null entry with the
   * non-null entry before it), the function is left as it was and the change
   * flag is passed through.
   */
  lemma {:induction false} DriveQuiet(g: Cfg, an: Analyses, loops: seq<Option<nat>>, prec: Option<nat>, changed: bool)
    requires var nn := NonNull(loops);
      forall k :: 0 <= k < |nn| - 1 ==> !IsOptimizable(g, an, nn[k + 1], nn[k])
    requires var nn := NonNull(loops);
      prec.Some? && nn != [] ==> !IsOptimizable(g, an, prec, nn[|nn| - 1])
    ensures Drive(g, an, loops, prec, changed) == (g, changed)
  {
    var nn := NonNull(loops);
    DriveSkipsNull(g, an, loops, prec, changed);
    forall k | 0 <= k < |nn|
      ensures nn[k].Some?
    {
      assert nn[k] in nn;
    }
    DriveQuietAdjacent(g, an, nn, prec, changed);
  }

  lemma {:induction false} DriveQuietAdjacent(g: Cfg, an: Analyses, nn: seq<Option<nat>>, prec: Option<nat>, changed: bool)
    requires forall k :: 0 <= k < |nn| ==> nn[k].Some?
    requires forall k :: 0 <= k < |nn| - 1 ==> !IsOptimizable(g, an, nn[k + 1], nn[k])
    requires prec.Some? && nn != [] ==> !IsOptimizable(g, an, prec, nn[|nn| - 1])
    ensures Drive(g, an, nn, prec, changed) == (g, changed)
    decreases |nn|
  {
    if nn != [] {
      var n := |nn| - 1;
      var rest := nn[..n];
      assert forall k :: 0 <= k < n ==> rest[k] == nn[k];
      DriveSkip(g, an, nn, prec, changed);
      DriveQuietAdjacent(g, an, rest, nn[n], changed);
    }
  }

  /** An entry that is null or does not pair with the previous loop only moves the walk on. */
  lemma {:induction false} DriveSkip(g: Cfg, an: Analyses, loops: seq<Option<nat>>, prec: Option<nat>, changed: bool)
    requires loops != []
    requires var corr := loops[|loops| - 1]; !(prec.Some? && corr.Some? && IsOptimizable(g, an, prec, corr))
    ensures var corr := loops[|loops| - 1];
      Drive(g, an, loops, prec, changed) == Drive(g, an, loops[..|loops| - 1], if corr.Some? then corr else prec, changed)
  {
  }

  /**
   * A failed fusion is not reported. For two loops whose pair passes
   * `isOptimizable` but whose fusion returns None, the run reports no change
   * and hands back the function as the failed fusion left it; after the
   * guarded abort that function differs from the input (GuardAbortAfterEdits),
   * and `run` then declares every analysis preserved.
   */
  lemma {:induction false} DriveFailureUnreported(g: Cfg, an: Analyses, first: nat, second: nat)
    requires IsOptimizable(g, an, Some(first), Some(second))
    requires FuseSpec(g, an, Some(first), Some(second)).1.None?
    ensures Drive(g, an, [Some(second), Some(first)], None, false) == (FuseSpec(g, an, Some(first), Some(second)).0, false)
  {
    PairSlices(Some(second), Some(first));
    DriveSkip(g, an, [Some(second), Some(first)], None, false);
    DriveLastFails(g, an, first, second);
  }

  lemma {:induction false} DriveLastFails(g: Cfg, an: Analyses, first: nat, second: nat)
    requires IsOptimizable(g, an, Some(first), Some(second))
    requires FuseSpec(g, an, Some(first), Some(second)).1.None?
    ensures Drive(g, an, [Some(second)], Some(first), false) == (FuseSpec(g, an, Some(first), Some(second)).0, false)
  {
    PairSlices(Some(second), Some(first));
    var v := Visit(g, an, Some(first), Some(second), false);
    assert Drive(g, an, [Some(second)], Some(first), false) == Drive(v.0, an, [], v.1, v.2);
  }

  lemma {:induction false} PairSlices<T>(a: T, b: T)
    ensures [a, b][..1] == [a] && [a][..0] == [] && [a, b][1] == b && [a][0] == a
  {
  }

  /** Second's blocks other than its latch and preheader, one entry longer each time. */
  lemma {:induction false} SecondBlocksSnoc(bs: seq<nat>, k: nat, secondLatch: nat, secondPreheader: nat)
    requires k < |bs|
    ensures SecondBlocks(bs[..k + 1], secondLatch, secondPreheader) ==
      SecondBlocks(bs[..k], secondLatch, secondPreheader) + (if bs[k] != secondLatch && bs[k] != secondPreheader then [bs[k]] else [])
    decreases k
  {
    if k > 0 {
      SecondBlocksSnoc(bs[1..], k - 1, secondLatch, secondPreheader);
      assert bs[..k + 1][1..] == bs[1..][..k];
      assert bs[..k][1..] == bs[1..][..k - 1];
      assert bs[1..][k - 1] == bs[k];
    }
  }

  // ---------------------------------------------------------------------
  // The function being transformed

  class Function {
    var cfg: Cfg

    constructor(g: Cfg)
      ensures cfg == g
    {
      cfg := g;
    }

    /**
     * `deleteBlock`: a null block is ignored; otherwise the block's
     * instructions are erased from the last one back, then the block leaves
     * the function. The block's uses are not checked (see `LatchStillReferenced`).
     */
    method DeleteBlock(b: Option<nat>)
      modifies this
      ensures cfg == DeleteBlockSpec(old(cfg), b)
    {
      if b.None? {
        return;
      }
      var x := b.value;
      if x in cfg.blocks {
        while cfg.blocks[x] != []
          invariant x in cfg.blocks
          invariant cfg.order == old(cfg).order && cfg.loops == old(cfg).loops
          invariant cfg.blocks - {x} == old(cfg).blocks - {x}
          invariant |cfg.blocks[x]| <= |old(cfg).blocks[x]|
          invariant cfg.blocks[x] == old(cfg).blocks[x][..|cfg.blocks[x]|]
          decreases |cfg.blocks[x]|
        {
          var s := cfg.blocks[x];
          cfg := cfg.(blocks := cfg.blocks[x := s[..|s| - 1]]);
        }
      }
      cfg := Cfg(Remove(cfg.order, x), cfg.blocks - {x}, cfg.loops);
    }

    /** Step 1: Second's induction variable is replaced by First's, then erased. */
    method UnifyInductionVariables(p: Parts)
      modifies this
      ensures cfg == UnifyIv(old(cfg), p)
    {
      cfg := Rauw(cfg, InstVal(p.secondIv), InstVal(p.firstIv));
      cfg := Erase(cfg, p.secondIv);
    }

    /** Step 2, first part: the four `replacePhiUsesWith` calls. */
    method RenameIncomingBlocks(p: Parts)
      modifies this
      ensures cfg == RenamePhiBlocks(old(cfg), p)
    {
      cfg := ReplacePhiUsesWith(cfg, p.secondHeader, p.secondLatch, p.firstLatch);
      cfg := ReplacePhiUsesWith(cfg, p.secondHeader, p.secondPreheader, p.firstPreheader);
      var pred := SinglePredecessor(cfg, p.secondPreheader);
      if pred.Some? {
        cfg := ReplacePhiUsesWith(cfg, p.secondPreheader, pred.value, p.firstBody);
      }
      cfg := ReplacePhiUsesWith(cfg, p.secondExit, p.secondLatch, p.firstLatch);
    }

    /** The loop over First's header phis fed by `lcssaValue`. */
    method RetargetFirstHeaderPhis(firstPhis: seq<nat>, lcssaValue: Val, in1: Val)
      modifies this
      ensures cfg == RetargetFirstPhis(old(cfg), firstPhis, lcssaValue, in1)
    {
      var k := 0;
      while k < |firstPhis|
        invariant 0 <= k <= |firstPhis|
        invariant RetargetFirstPhis(old(cfg), firstPhis, lcssaValue, in1) == RetargetFirstPhis(cfg, firstPhis[k..], lcssaValue, in1)
      {
        assert firstPhis[k..][1..] == firstPhis[k + 1..];
        cfg := RetargetFirstPhi(cfg, firstPhis[k], lcssaValue, in1);
        k := k + 1;
      }
    }

    /** One phi of Second's header: merged with an LCSSA phi of First's exit, or moved to First's header. */
    method MergeSecondHeaderPhi(first: nat, firstExit: nat, firstPhis: seq<nat>, insertBefore: Option<nat>, phi: nat)
      modifies this
      ensures cfg == MergePhi(old(cfg), first, firstExit, firstPhis, insertBefore, phi)
    {
      match FindInst(cfg, phi)
      case Some(PhiInst(_, inc)) =>
        if |inc| >= 2 {
          var lcssa := LcssaSource(cfg, first, firstExit, inc[0].value);
          if lcssa.Some? {
            var lcssaValue := lcssa.value.incoming[0].value;
            RetargetFirstHeaderPhis(firstPhis, lcssaValue, inc[1].value);
            cfg := Rauw(cfg, InstVal(phi), lcssaValue);
            cfg := Erase(cfg, phi);
            cfg := Erase(cfg, lcssa.value.id);
          } else {
            cfg := MoveBefore(cfg, phi, insertBefore);
          }
        }
      case _ =>
    }

    /** Step 2, second part: both phi lists and the insertion point are taken, then Second's header phis are merged one by one. */
    method MergeSecondHeaderPhis(first: nat, p: Parts)
      modifies this
      ensures cfg == MergeHeaderPhis(old(cfg), first, p)
    {
      var secondPhis := PhiIds(Insts(cfg, p.secondHeader));
      var firstPhis := PhiIds(Insts(cfg, p.firstHeader));
      var insertBefore := AnchorOf(Insts(cfg, p.firstHeader));
      var k := 0;
      while k < |secondPhis|
        invariant 0 <= k <= |secondPhis|
        invariant MergeHeaderPhis(old(cfg), first, p) == MergePhis(cfg, first, p.firstExit, firstPhis, insertBefore, secondPhis[k..])
      {
        assert secondPhis[k..][1..] == secondPhis[k + 1..];
        MergeSecondHeaderPhi(first, p.firstExit, firstPhis, insertBefore, secondPhis[k]);
        k := k + 1;
      }
    }

    /** The listed instructions, one after the other, moved before the anchor. */
    method MoveEachBefore(ids: seq<nat>, anchor: Option<nat>)
      modifies this
      ensures cfg == MoveAllBefore(old(cfg), ids, anchor)
    {
      var k := 0;
      while k < |ids|
        invariant 0 <= k <= |ids|
        invariant MoveAllBefore(old(cfg), ids, anchor) == MoveAllBefore(cfg, ids[k..], anchor)
      {
        assert ids[k..][1..] == ids[k + 1..];
        cfg := MoveBefore(cfg, ids[k], anchor);
        k := k + 1;
      }
    }

    /** Step 2, last part: First's exit phis take First's latch as incoming block 0 and move to Second's exit. */
    method MoveFirstExitPhis(p: Parts)
      modifies this
      ensures cfg == MoveExitPhis(old(cfg), p)
    {
      var movePoint := AnchorOf(Insts(cfg, p.secondExit));
      var lcssaToMove := PhiIds(Insts(cfg, p.firstExit));
      var k := 0;
      while k < |lcssaToMove|
        invariant 0 <= k <= |lcssaToMove|
        invariant RetargetExitPhis(old(cfg), lcssaToMove, p.firstLatch) == RetargetExitPhis(cfg, lcssaToMove[k..], p.firstLatch)
      {
        assert lcssaToMove[k..][1..] == lcssaToMove[k + 1..];
        cfg := SetIncomingBlock(cfg, lcssaToMove[k], 0, p.firstLatch);
        k := k + 1;
      }
      MoveEachBefore(lcssaToMove, movePoint);
    }

    /** Step 3: the guarded case. False, with the function as the earlier steps left it, when Second's exit has no single successor. */
    method UnifyGuardPaths(p: Parts, firstGuard: nat, secondGuard: nat) returns (ok: bool)
      modifies this
      ensures ok <==> UnifyGuards(old(cfg), p, firstGuard, secondGuard).Some?
      ensures ok ==> cfg == UnifyGuards(old(cfg), p, firstGuard, secondGuard).value
      ensures !ok ==> cfg == old(cfg)
    {
      var guardDest := SingleSuccessor(cfg, p.secondExit);
      if guardDest.None? {
        return false;
      }
      var dest := guardDest.value;
      cfg := SetSuccessor(cfg, firstGuard, 1, dest);
      cfg := ReplacePhiUsesWith(cfg, dest, secondGuard, firstGuard);
      cfg := ReplaceSuccessorWith(cfg, secondGuard, dest, secondGuard);
      cfg := SetSuccessor(cfg, p.firstExit, 0, p.firstExit);
      var insertPt := AnchorOf(Insts(cfg, dest));
      var toMove := GuardBody(Insts(cfg, secondGuard), CondOf(Insts(cfg, secondGuard)));
      MoveEachBefore(toMove, insertPt);
      cfg := ReplacePhiUsesWith(cfg, dest, p.firstExit, p.secondExit);
      DeleteBlock(Some(secondGuard));
      DeleteBlock(Some(p.firstExit));
      return true;
    }

    /** Step 4: Second's body goes inside First's latch; Second's latch and preheader are deleted. */
    method SpliceBodies(p: Parts)
      modifies this
      ensures cfg == Splice(old(cfg), p)
    {
      cfg := SetSuccessor(cfg, p.firstLatch, 1, p.secondExit);
      cfg := ReplaceSuccessorWith(cfg, p.firstBody, p.firstLatch, p.secondHeader);
      cfg := ReplaceSuccessorWith(cfg, p.secondBody, p.secondLatch, p.firstLatch);
      cfg := ReplaceSuccessorWith(cfg, p.secondLatch, p.secondExit, p.secondLatch);
      DeleteBlock(Some(p.secondLatch));
      DeleteBlock(Some(p.secondPreheader));
    }

    /** Step 5: Second's blocks, less its latch and preheader, join First and move before First's latch. */
    method AdoptSecondBlocks(first: nat, second: nat, p: Parts)
      modifies this
      ensures cfg == AdoptBlocks(old(cfg), first, p.firstLatch, SecondBlocks(LoopBlocks(old(cfg), second), p.secondLatch, p.secondPreheader))
    {
      var bs := LoopBlocks(cfg, second);
      var secondBlocks: seq<nat> := [];
      var k := 0;
      while k < |bs|
        invariant 0 <= k <= |bs|
        invariant secondBlocks == SecondBlocks(bs[..k], p.secondLatch, p.secondPreheader)
        invariant cfg == old(cfg)
      {
        SecondBlocksSnoc(bs, k, p.secondLatch, p.secondPreheader);
        if bs[k] != p.secondLatch && bs[k] != p.secondPreheader {
          secondBlocks := secondBlocks + [bs[k]];
        }
        k := k + 1;
      }
      assert bs[..|bs|] == bs;
      assert secondBlocks[0..] == secondBlocks;
      var j := 0;
      while j < |secondBlocks|
        invariant 0 <= j <= |secondBlocks|
        invariant AdoptBlocks(old(cfg), first, p.firstLatch, secondBlocks) == AdoptBlocks(cfg, first, p.firstLatch, secondBlocks[j..])
      {
        assert secondBlocks[j..][1..] == secondBlocks[j + 1..];
        cfg := AddBlockToLoop(cfg, first, secondBlocks[j]);
        cfg := MoveBlockBefore(cfg, secondBlocks[j], p.firstLatch);
        j := j + 1;
      }
    }

    /**
     * The blocks `fuseLoops` reads before its first edit: None, as the source
     * returns null, when one of them or an induction variable is missing.
     */
    method LoopParts(an: Analyses, f: nat, s: nat) returns (p: Option<Parts>)
      ensures p.Some? <==> ReadyToFuse(cfg, an, f, s)
      ensures p.Some? ==> p.value == PartsOf(cfg, an, f, s)
    {
      var firstPreheader, firstLatch, firstExit := Preheader(cfg, f), Latch(cfg, f), ExitBlock(cfg, f);
      var secondPreheader, secondLatch, secondExit := Preheader(cfg, s), Latch(cfg, s), ExitBlock(cfg, s);
      if firstPreheader.None? || firstLatch.None? || firstExit.None? || secondPreheader.None? || secondLatch.None? || secondExit.None? {
        return None;
      }
      var firstHeader, firstBody := SingleSuccessor(cfg, firstPreheader.value), SinglePredecessor(cfg, firstLatch.value);
      var secondHeader, secondBody := SingleSuccessor(cfg, secondPreheader.value), SinglePredecessor(cfg, secondLatch.value);
      if firstHeader.None? || firstBody.None? || secondHeader.None? || secondBody.None? {
        return None;
      }
      var firstGuard, secondGuard := GuardBlock(cfg, an, f), GuardBlock(cfg, an, s);
      var firstIv, secondIv := an.inductionVar(f), an.inductionVar(s);
      if firstIv.None? || secondIv.None? {
        return None;
      }
      return Some(Parts(
        firstPreheader.value, firstLatch.value, firstExit.value, firstBody.value, firstHeader.value, firstGuard, firstIv.value,
        secondPreheader.value, secondLatch.value, secondExit.value, secondBody.value, secondHeader.value, secondGuard, secondIv.value));
    }

    /** Steps 1 and 2: the edits made before the guarded case is looked at. */
    method EditBeforeGuards(f: nat, p: Parts)
      modifies this
      ensures cfg == EditsBeforeGuards(old(cfg), f, p)
    {
      UnifyInductionVariables(p);
      RenameIncomingBlocks(p);
      MergeSecondHeaderPhis(f, p);
      MoveFirstExitPhis(p);
    }

    /** Steps 4 and 5: the splice, then LoopInfo. */
    method Finish(f: nat, s: nat, p: Parts)
      modifies this
      ensures cfg == FinishFusion(old(cfg), f, s, p)
    {
      SpliceBodies(p);
      assert LoopBlocks(cfg, s) == LoopBlocks(old(cfg), s);
      AdoptSecondBlocks(f, s, p);
    }

    /** Steps 1 to 5 of `fuseLoops`, once the blocks are known. */
    method FuseWith(f: nat, s: nat, p: Parts) returns (fused: Option<nat>)
      modifies this
      ensures (cfg, fused) == FuseParts(old(cfg), f, s, p)
    {
      EditBeforeGuards(f, p);
      if p.firstGuard.Some? && p.secondGuard.Some? {
        var ok := UnifyGuardPaths(p, p.firstGuard.value, p.secondGuard.value);
        if !ok {
          return None;
        }
      }
      Finish(f, s, p);
      return Some(f);
    }

    /**
     * `fuseLoops(first, second)`: First on success, None otherwise. The checks
     * before the first edit return None with the function untouched; the
     * guarded case returns None after the edits of steps 1 and 2.
     */
    method FuseLoops(an: Analyses, first: Option<nat>, second: Option<nat>) returns (fused: Option<nat>)
      modifies this
      ensures (cfg, fused) == FuseSpec(old(cfg), an, first, second)
    {
      if first.None? || second.None? {
        return None;
      }
      var p := LoopParts(an, first.value, second.value);
      if p.None? {
        return None;
      }
      fused := FuseWith(first.value, second.value, p.value);
    }

    /** One iteration of the loop in `runOnLoops`, on the current entry `corr`. */
    method VisitLoop(an: Analyses, prec: Option<nat>, corr: Option<nat>, changed: bool) returns (prec': Option<nat>, changed': bool)
      modifies this
      ensures (cfg, prec', changed') == Visit(old(cfg), an, prec, corr, changed)
    {
      prec', changed' := prec, changed;
      if corr.None? {
        return;
      }
      if prec.Some? && IsOptimizable(cfg, an, prec, corr) {
        var fused := FuseLoops(an, prec, corr);
        if fused.Some? {
          prec', changed' := fused, true;
          return;
        }
      }
      prec' := corr;
    }

    /**
     * `runOnLoops`: the top-level loops are walked from the back of the list,
     * each pair that passes `isOptimizable` is fused, and the result says
     * whether any fusion succeeded.
     */
    method RunOnLoops(an: Analyses, loops: seq<Option<nat>>) returns (changed: bool)
      modifies this
      ensures (cfg, changed) == Drive(old(cfg), an, loops, None, false)
    {
      changed := false;
      var prec: Option<nat> := None;
      var i := |loops|;
      assert loops[..i] == loops;
      while i > 0
        invariant 0 <= i <= |loops|
        invariant Drive(old(cfg), an, loops, None, false) == Drive(cfg, an, loops[..i], prec, changed)
      {
        assert loops[..i][..i - 1] == loops[..i - 1];
        prec, changed := VisitLoop(an, prec, loops[i - 1], changed);
        i := i - 1;
      }
    }
  }
}
