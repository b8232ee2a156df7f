/**
 * The loop-invariant code motion pass: for each top-level loop, one
 * depth-first walk over the loop's blocks collects, in visit order, the
 * binary operators that are loop invariant and safe to move; afterwards each
 * of them is moved, in that order, to just before the terminator of the
 * loop's preheader.
 *
 * A function is a sequence of blocks, each a sequence of instructions.
 * Instructions refer to the instructions they use by id. The loop structure
 * (header, blocks, preheader, exit blocks, the depth-first order from the
 * header) and the dominator tree are analysis results the pass reads and
 * does not change.
 */
module Licm {
  import opened Common

  datatype Kind = BinaryOp | Phi | Terminator | OtherInst

  /** An operand: a value that is not an instruction (constant, argument, ...), or an instruction by id. */
  datatype Operand = NonInstruction | InstOperand(id: nat)

  datatype Instr = Instr(id: nat, kind: Kind, operands: seq<Operand>)

  /**
   * What LoopInfo says about one loop: its header, the blocks it contains,
   * its preheader if it has one, its exit blocks, and the order in which
   * `depth_first(header)` visits the function's blocks.
   */
  datatype Loop = Loop(header: nat, blocks: set<nat>, preheader: Option<nat>, exits: seq<nat>, dfsOrder: seq<nat>)

  /** `DominatorTree::dominates` on blocks. */
  type Dominance = (nat, nat) -> bool

  // ---------------------------------------------------------------------
  // Looking instructions up

  /** The position of the first instruction with this id. */
  function IndexOf(s: seq<Instr>, id: nat): (r: Option<nat>)
    ensures r.Some? ==> r.value < |s| && s[r.value].id == id
    ensures r.Some? ==> forall j :: 0 <= j < r.value ==> s[j].id != id
    ensures r.None? ==> forall j :: 0 <= j < |s| ==> s[j].id != id
  {
    if s == [] then None
    else if s[0].id == id then Some(0)
    else match IndexOf(s[1..], id)
      case None => None
      case Some(j) => Some(j + 1)
  }

  /** The block an instruction lives in (`getParent`), searching from block b on. */
  function ParentFrom(bs: seq<seq<Instr>>, id: nat, b: nat): (r: Option<nat>)
    requires b <= |bs|
    ensures r.Some? ==> b <= r.value < |bs| && IndexOf(bs[r.value], id).Some?
    ensures r.None? ==> forall c :: b <= c < |bs| ==> IndexOf(bs[c], id).None?
    decreases |bs| - b
  {
    if b == |bs| then None
    else if IndexOf(bs[b], id).Some? then Some(b)
    else ParentFrom(bs, id, b + 1)
  }

  function Parent(bs: seq<seq<Instr>>, id: nat): Option<nat> {
    ParentFrom(bs, id, 0)
  }

  /** `isa<PHINode>` on an operand instruction. */
  predicate IsPhi(bs: seq<seq<Instr>>, id: nat) {
    match Parent(bs, id)
    case None => false
    case Some(b) => bs[b][IndexOf(bs[b], id).value].kind == Phi
  }

  /** `L->contains(I)`: the instruction lives in one of the loop's blocks. */
  predicate InLoop(bs: seq<seq<Instr>>, l: Loop, id: nat) {
    match Parent(bs, id)
    case None => false
    case Some(b) => b in l.blocks
  }

  predicate HasId(s: seq<Instr>, id: nat) {
    exists k :: 0 <= k < |s| && s[k].id == id
  }

  /** `u` is a user of the instruction `id`. */
  predicate Uses(u: Instr, id: nat) {
    InstOperand(id) in u.operands
  }

  // ---------------------------------------------------------------------
  // Invariance

  /** One operand of a candidate is acceptable given the instructions chosen so far. */
  predicate OperandAccepted(bs: seq<seq<Instr>>, l: Loop, movable: seq<Instr>, o: Operand) {
    match o
    case NonInstruction => true
    case InstOperand(d) => !IsPhi(bs, d) && (!InLoop(bs, l, d) || HasId(movable, d))
  }

  /** The operand loop of `isLoopInvariant`: stop at the first operand that is rejected. */
  function OperandsInvariant(bs: seq<seq<Instr>>, l: Loop, movable: seq<Instr>, ops: seq<Operand>): (r: bool)
    ensures r <==> forall k :: 0 <= k < |ops| ==> OperandAccepted(bs, l, movable, ops[k])
  {
    if ops == [] then true
    else if !OperandAccepted(bs, l, movable, ops[0]) then false
    else
      var rest := OperandsInvariant(bs, l, movable, ops[1..]);
      assert forall k :: 1 <= k < |ops| ==> ops[k] == ops[1..][k - 1];
      rest
  }

  /** `isLoopInvariant`: a binary operator whose every operand is acceptable. */
  predicate IsLoopInvariant(bs: seq<seq<Instr>>, l: Loop, movable: seq<Instr>, x: Instr) {
    x.kind == BinaryOp && OperandsInvariant(bs, l, movable, x.operands)
  }

  /** Choosing more instructions never makes an invariant instruction variant. */
  lemma {:induction false} InvariantGrows(bs: seq<seq<Instr>>, l: Loop, m: seq<Instr>, m': seq<Instr>, x: Instr)
    requires IsLoopInvariant(bs, l, m, x)
    requires forall k :: 0 <= k < |m| ==> m[k] in m'
    ensures IsLoopInvariant(bs, l, m', x)
  {
    forall k | 0 <= k < |x.operands|
      ensures OperandAccepted(bs, l, m', x.operands[k])
    {
      assert OperandAccepted(bs, l, m, x.operands[k]);
      if x.operands[k].InstOperand? && HasId(m, x.operands[k].id) {
        var i :| 0 <= i < |m| && m[i].id == x.operands[k].id;
        var i' :| 0 <= i' < |m'| && m'[i'] == m[i];
      }
    }
  }

  // ---------------------------------------------------------------------
  // Safety: the four checks of `isSafeToMove`, for x living in block xb

  /** No instruction outside the loop uses x. */
  predicate DeadOutsideLoop(bs: seq<seq<Instr>>, l: Loop, x: Instr) {
    forall b, j :: 0 <= b < |bs| && 0 <= j < |bs[b]| && Uses(bs[b][j], x.id) ==> b in l.blocks
  }

  /** x's block dominates every exit block of the loop. */
  predicate DominatesAllExits(l: Loop, dom: Dominance, xb: nat) {
    forall k :: 0 <= k < |l.exits| ==> dom(xb, l.exits[k])
  }

  /** No phi node inside the loop uses x. */
  predicate DefinedOnlyOnce(bs: seq<seq<Instr>>, l: Loop, x: Instr) {
    forall b, j :: 0 <= b < |bs| && 0 <= j < |bs[b]| && Uses(bs[b][j], x.id) && bs[b][j].kind == Phi ==> b !in l.blocks
  }

  /** x's block dominates the block of every user. */
  predicate DominatesAllUses(bs: seq<seq<Instr>>, dom: Dominance, x: Instr, xb: nat) {
    forall b, j :: 0 <= b < |bs| && 0 <= j < |bs[b]| && Uses(bs[b][j], x.id) ==> dom(xb, b)
  }

  predicate IsSafeToMove(bs: seq<seq<Instr>>, l: Loop, dom: Dominance, x: Instr, xb: nat) {
    (DeadOutsideLoop(bs, l, x) || DominatesAllExits(l, dom, xb)) && DefinedOnlyOnce(bs, l, x) && DominatesAllUses(bs, dom, x, xb)
  }

  // ---------------------------------------------------------------------
  // Selection

  /** `SetVector::insert`: append unless already present. */
  function Insert(m: seq<Instr>, x: Instr): (r: seq<Instr>)
    ensures x in r
    ensures forall y :: y in r <==> y in m || y == x
    ensures Distinct(m) ==> Distinct(r)
    ensures m <= r
  {
    if x in m then m else m + [x]
  }

  predicate DfsInBounds(bs: seq<seq<Instr>>, l: Loop) {
    forall t :: 0 <= t < |l.dfsOrder| ==> l.dfsOrder[t] < |bs|
  }

  /** The walk over block xb from its j-th instruction. */
  function ScanBlock(bs: seq<seq<Instr>>, l: Loop, dom: Dominance, xb: nat, j: nat, movable: seq<Instr>): (r: seq<Instr>)
    requires xb < |bs| && j <= |bs[xb]|
    ensures movable <= r
    decreases |bs[xb]| - j
  {
    if j == |bs[xb]| then movable
    else ScanBlock(bs, l, dom, xb, j + 1, Choose(bs, l, dom, xb, movable, bs[xb][j]))
  }

  /** One instruction of the walk: it joins `movable` when it is loop invariant and safe to move. */
  function Choose(bs: seq<seq<Instr>>, l: Loop, dom: Dominance, xb: nat, movable: seq<Instr>, x: Instr): (r: seq<Instr>)
    ensures movable <= r
  {
    if IsLoopInvariant(bs, l, movable, x) && IsSafeToMove(bs, l, dom, x, xb) then Insert(movable, x) else movable
  }

  /** The walk over the blocks in depth-first order from position t, skipping blocks outside the loop. */
  function ScanBlocks(bs: seq<seq<Instr>>, l: Loop, dom: Dominance, t: nat, movable: seq<Instr>): (r: seq<Instr>)
    requires DfsInBounds(bs, l) && t <= |l.dfsOrder|
    ensures movable <= r
    decreases |l.dfsOrder| - t
  {
    if t == |l.dfsOrder| then movable
    else
      var b := l.dfsOrder[t];
      var m := if b in l.blocks then ScanBlock(bs, l, dom, b, 0, movable) else movable;
      ScanBlocks(bs, l, dom, t + 1, m)
  }

  /** The `movable` set-vector the first phase of `runOnLoop` builds. */
  function Candidates(bs: seq<seq<Instr>>, l: Loop, dom: Dominance): seq<Instr>
    requires DfsInBounds(bs, l)
  {
    ScanBlocks(bs, l, dom, 0, [])
  }

  /** x lives in a loop block that the walk visits, and is safe to move from there. */
  predicate Visited(bs: seq<seq<Instr>>, l: Loop, dom: Dominance, x: Instr) {
    exists b :: 0 <= b < |bs| && b in l.blocks && b in l.dfsOrder && x in bs[b] && IsSafeToMove(bs, l, dom, x, b)
  }

  /** What every prefix of `movable` satisfies: no repeats, and each entry was chosen legitimately after those before it. */
  predicate Chosen(bs: seq<seq<Instr>>, l: Loop, dom: Dominance, m: seq<Instr>) {
    Distinct(m) &&
    forall k :: 0 <= k < |m| ==> Visited(bs, l, dom, m[k]) && IsLoopInvariant(bs, l, m[..k], m[k])
  }

  lemma {:induction false} ChosenInsert(bs: seq<seq<Instr>>, l: Loop, dom: Dominance, m: seq<Instr>, x: Instr)
    requires Chosen(bs, l, dom, m)
    requires Visited(bs, l, dom, x) && IsLoopInvariant(bs, l, m, x)
    ensures Chosen(bs, l, dom, Insert(m, x))
  {
    if x !in m {
      var m' := m + [x];
      assert m'[..|m|] == m;
      forall k | 0 <= k < |m|
        ensures m'[..k] == m[..k]
      {
      }
    }
  }

  lemma {:induction false} ScanBlockChosen(bs: seq<seq<Instr>>, l: Loop, dom: Dominance, xb: nat, j: nat, movable: seq<Instr>)
    requires xb < |bs| && j <= |bs[xb]| && xb in l.blocks && xb in l.dfsOrder
    requires Chosen(bs, l, dom, movable)
    ensures Chosen(bs, l, dom, ScanBlock(bs, l, dom, xb, j, movable))
    decreases |bs[xb]| - j
  {
    if j < |bs[xb]| {
      var x := bs[xb][j];
      if IsLoopInvariant(bs, l, movable, x) && IsSafeToMove(bs, l, dom, x, xb) {
        assert Visited(bs, l, dom, x);
        ChosenInsert(bs, l, dom, movable, x);
        ScanBlockChosen(bs, l, dom, xb, j + 1, Insert(movable, x));
      } else {
        ScanBlockChosen(bs, l, dom, xb, j + 1, movable);
      }
    }
  }

  lemma {:induction false} ScanBlocksChosen(bs: seq<seq<Instr>>, l: Loop, dom: Dominance, t: nat, movable: seq<Instr>)
    requires DfsInBounds(bs, l) && t <= |l.dfsOrder|
    requires Chosen(bs, l, dom, movable)
    ensures Chosen(bs, l, dom, ScanBlocks(bs, l, dom, t, movable))
    decreases |l.dfsOrder| - t
  {
    if t < |l.dfsOrder| {
      var b := l.dfsOrder[t];
      if b in l.blocks {
        ScanBlockChosen(bs, l, dom, b, 0, movable);
        ScanBlocksChosen(bs, l, dom, t + 1, ScanBlock(bs, l, dom, b, 0, movable));
      } else {
        ScanBlocksChosen(bs, l, dom, t + 1, movable);
      }
    }
  }

  /**
   * Every candidate is a binary operator living in a visited loop block from
   * which it is safe to move; no candidate occurs twice; and each candidate's
   * in-loop operands are candidates chosen before it (so moving them in
   * order keeps definitions ahead of uses), while no operand is a phi node.
   */
  lemma {:induction false} CandidatesSound(bs: seq<seq<Instr>>, l: Loop, dom: Dominance)
    requires DfsInBounds(bs, l)
    ensures var c := Candidates(bs, l, dom);
      Distinct(c) &&
      forall k :: 0 <= k < |c| ==>
        c[k].kind == BinaryOp && Visited(bs, l, dom, c[k]) &&
        forall o :: o in c[k].operands && o.InstOperand? ==>
          !IsPhi(bs, o.id) && (!InLoop(bs, l, o.id) || HasId(c[..k], o.id))
  {
    ScanBlocksChosen(bs, l, dom, 0, []);
    var c := Candidates(bs, l, dom);
    forall k, o | 0 <= k < |c| && o in c[k].operands && o.InstOperand?
      ensures !IsPhi(bs, o.id) && (!InLoop(bs, l, o.id) || HasId(c[..k], o.id))
    {
      var i :| 0 <= i < |c[k].operands| && c[k].operands[i] == o;
      assert OperandAccepted(bs, l, c[..k], c[k].operands[i]);
    }
  }

  /** `movable` after the walk has taken the first j instructions of block xb, starting from m. */
  function ScanBlockPrefix(bs: seq<seq<Instr>>, l: Loop, dom: Dominance, xb: nat, j: nat, m: seq<Instr>): (r: seq<Instr>)
    requires xb < |bs| && j <= |bs[xb]|
    ensures m <= r
  {
    if j == 0 then m else Choose(bs, l, dom, xb, ScanBlockPrefix(bs, l, dom, xb, j - 1, m), bs[xb][j - 1])
  }

  /** `movable` as the walk enters depth-first position t. */
  function ScanBlocksPrefix(bs: seq<seq<Instr>>, l: Loop, dom: Dominance, t: nat): (r: seq<Instr>)
    requires DfsInBounds(bs, l) && t <= |l.dfsOrder|
  {
    if t == 0 then []
    else
      var b := l.dfsOrder[t - 1];
      var m := ScanBlocksPrefix(bs, l, dom, t - 1);
      if b in l.blocks then ScanBlock(bs, l, dom, b, 0, m) else m
  }

  /** `movable` as the walk reaches instruction j of the block at depth-first position t. */
  function MovableAt(bs: seq<seq<Instr>>, l: Loop, dom: Dominance, t: nat, j: nat): seq<Instr>
    requires DfsInBounds(bs, l) && t < |l.dfsOrder| && j <= |bs[l.dfsOrder[t]]|
  {
    ScanBlockPrefix(bs, l, dom, l.dfsOrder[t], j, ScanBlocksPrefix(bs, l, dom, t))
  }

  /** The block walk resumed after j instructions ends where the whole walk ends. */
  lemma {:induction false} ScanBlockResume(bs: seq<seq<Instr>>, l: Loop, dom: Dominance, xb: nat, j: nat, m: seq<Instr>)
    requires xb < |bs| && j <= |bs[xb]|
    ensures ScanBlock(bs, l, dom, xb, j, ScanBlockPrefix(bs, l, dom, xb, j, m)) == ScanBlock(bs, l, dom, xb, 0, m)
    decreases j
  {
    if j > 0 {
      var p := ScanBlockPrefix(bs, l, dom, xb, j - 1, m);
      ScanBlockResume(bs, l, dom, xb, j - 1, m);
      assert ScanBlock(bs, l, dom, xb, j - 1, p) == ScanBlock(bs, l, dom, xb, j, Choose(bs, l, dom, xb, p, bs[xb][j - 1]));
    }
  }

  /** The walk over the blocks resumed at position t ends in `Candidates`. */
  lemma {:induction false} ScanBlocksResume(bs: seq<seq<Instr>>, l: Loop, dom: Dominance, t: nat)
    requires DfsInBounds(bs, l) && t <= |l.dfsOrder|
    ensures ScanBlocks(bs, l, dom, t, ScanBlocksPrefix(bs, l, dom, t)) == Candidates(bs, l, dom)
    decreases t
  {
    if t > 0 {
      var p := ScanBlocksPrefix(bs, l, dom, t - 1);
      ScanBlocksResume(bs, l, dom, t - 1);
      assert ScanBlocks(bs, l, dom, t - 1, p) == ScanBlocks(bs, l, dom, t, ScanBlocksPrefix(bs, l, dom, t));
    }
  }

  /** What the walk has chosen when it reaches an instruction is a prefix of the final candidates: nothing is dropped or reordered later. */
  lemma {:induction false} MovableAtPrefix(bs: seq<seq<Instr>>, l: Loop, dom: Dominance, t: nat, j: nat)
    requires DfsInBounds(bs, l) && t < |l.dfsOrder| && l.dfsOrder[t] in l.blocks && j <= |bs[l.dfsOrder[t]]|
    ensures MovableAt(bs, l, dom, t, j) <= Candidates(bs, l, dom)
  {
    var b, pre := l.dfsOrder[t], ScanBlocksPrefix(bs, l, dom, t);
    ScanBlockResume(bs, l, dom, b, j, pre);
    ScanBlocksResume(bs, l, dom, t + 1);
    assert ScanBlocksPrefix(bs, l, dom, t + 1) == ScanBlock(bs, l, dom, b, 0, pre);
  }

  /**
   * Conversely, a binary operator in a visited loop block that is safe to
   * move is chosen whenever each of its instruction operands is a non-phi
   * that lives outside the loop or was chosen before the walk reached it,
   * so chains of invariant instructions are found in walk order.
   */
  lemma {:induction false} CandidatesComplete(bs: seq<seq<Instr>>, l: Loop, dom: Dominance, t: nat, j: nat)
    requires DfsInBounds(bs, l) && t < |l.dfsOrder|
    requires l.dfsOrder[t] in l.blocks && j < |bs[l.dfsOrder[t]]|
    requires IsLoopInvariant(bs, l, MovableAt(bs, l, dom, t, j), bs[l.dfsOrder[t]][j])
    requires IsSafeToMove(bs, l, dom, bs[l.dfsOrder[t]][j], l.dfsOrder[t])
    ensures bs[l.dfsOrder[t]][j] in Candidates(bs, l, dom)
  {
    MovableAtPrefix(bs, l, dom, t, j + 1);
    assert bs[l.dfsOrder[t]][j] in MovableAt(bs, l, dom, t, j + 1);
  }

  /** In particular every instruction whose instruction operands are non-phis outside the loop is chosen. */
  lemma {:induction false} CandidatesCompleteOutside(bs: seq<seq<Instr>>, l: Loop, dom: Dominance, t: nat, j: nat)
    requires DfsInBounds(bs, l) && t < |l.dfsOrder|
    requires l.dfsOrder[t] in l.blocks && j < |bs[l.dfsOrder[t]]|
    requires IsLoopInvariant(bs, l, [], bs[l.dfsOrder[t]][j])
    requires IsSafeToMove(bs, l, dom, bs[l.dfsOrder[t]][j], l.dfsOrder[t])
    ensures bs[l.dfsOrder[t]][j] in Candidates(bs, l, dom)
  {
    InvariantGrows(bs, l, [], MovableAt(bs, l, dom, t, j), bs[l.dfsOrder[t]][j]);
    CandidatesComplete(bs, l, dom, t, j);
  }

  // ---------------------------------------------------------------------
  // Moving

  predicate Terminated(s: seq<Instr>) {
    |s| >= 1 && s[|s| - 1].kind == Terminator
  }

  /** `I->moveBefore(preheader->getTerminator())`: x leaves its block and is put just before the terminator of block pre. */
  function MoveBefore(bs: seq<seq<Instr>>, x: Instr, pre: nat): (r: seq<seq<Instr>>)
    requires pre < |bs| && Terminated(bs[pre]) && x.kind != Terminator
    ensures |r| == |bs|
    ensures forall b :: 0 <= b < |bs| && b != pre ==> r[b] == Remove(bs[b], x)
    ensures var p := bs[pre]; r[pre] == Remove(p[..|p| - 1], x) + [x, p[|p| - 1]]
    ensures forall b :: 0 <= b < |bs| && Terminated(bs[b]) ==> Terminated(r[b])
  {
    var removed := seq(|bs|, b requires 0 <= b < |bs| => Remove(bs[b], x));
    var p := bs[pre];
    forall b | 0 <= b < |bs| && Terminated(bs[b])
      ensures removed[b] == Remove(bs[b][..|bs[b]| - 1], x) + [bs[b][|bs[b]| - 1]]
    {
      var s := bs[b];
      assert s == s[..|s| - 1] + [s[|s| - 1]];
      RemoveConcat(s[..|s| - 1], [s[|s| - 1]], x);
    }
    removed[pre := Remove(p[..|p| - 1], x) + [x, p[|p| - 1]]]
  }

  /** The second phase of `runOnLoop`: every instruction of ms moved, in order. */
  function MoveAll(bs: seq<seq<Instr>>, ms: seq<Instr>, pre: nat): (r: seq<seq<Instr>>)
    requires pre < |bs| && Terminated(bs[pre])
    requires forall k :: 0 <= k < |ms| ==> ms[k].kind != Terminator
    ensures |r| == |bs| && Terminated(r[pre])
    ensures forall b :: 0 <= b < |bs| && Terminated(bs[b]) ==> Terminated(r[b])
    decreases |ms|
  {
    if ms == [] then bs else MoveAll(MoveBefore(bs, ms[0], pre), ms[1..], pre)
  }

  /**
   * The layout after the moves: the preheader holds its old instructions,
   * then the moved ones in order, then its terminator; every other block has
   * lost the moved instructions and is otherwise as it was.
   */
  lemma {:induction false} MoveAllLayout(bs: seq<seq<Instr>>, ms: seq<Instr>, pre: nat)
    requires pre < |bs| && Terminated(bs[pre])
    requires forall k :: 0 <= k < |ms| ==> ms[k].kind != Terminator
    requires Distinct(ms) && forall k :: 0 <= k < |ms| ==> ms[k] !in bs[pre]
    ensures var r := MoveAll(bs, ms, pre); var p := bs[pre];
      r[pre] == p[..|p| - 1] + ms + [p[|p| - 1]] &&
      forall b :: 0 <= b < |bs| && b != pre ==> r[b] == RemoveAll(bs[b], set m | m in ms)
  {
    MoveAllPreheader(bs, ms, pre);
    MoveAllOthers(bs, ms, pre);
  }

  /** The preheader part of `MoveAllLayout`. */
  lemma {:induction false} MoveAllPreheader(bs: seq<seq<Instr>>, ms: seq<Instr>, pre: nat)
    requires pre < |bs| && Terminated(bs[pre])
    requires forall k :: 0 <= k < |ms| ==> ms[k].kind != Terminator
    requires Distinct(ms) && forall k :: 0 <= k < |ms| ==> ms[k] !in bs[pre]
    ensures var p := bs[pre]; MoveAll(bs, ms, pre)[pre] == p[..|p| - 1] + ms + [p[|p| - 1]]
    decreases |ms|
  {
    var p := bs[pre];
    if ms == [] {
      assert p == p[..|p| - 1] + ms + [p[|p| - 1]];
    } else {
      var x := ms[0];
      var next := MoveBefore(bs, x, pre);
      assert x !in p[..|p| - 1];
      RemoveAbsent(p[..|p| - 1], x);
      var p' := p[..|p| - 1] + [x, p[|p| - 1]];
      assert next[pre] == p';
      assert p'[..|p'| - 1] == p[..|p| - 1] + [x];
      assert p'[|p'| - 1] == p[|p| - 1];
      forall k | 0 <= k < |ms[1..]|
        ensures ms[1..][k] !in next[pre]
      {
        assert ms[1..][k] == ms[k + 1] && ms[k + 1] != ms[0];
      }
      MoveAllPreheader(next, ms[1..], pre);
    }
  }

  /** The other blocks' part of `MoveAllLayout`. */
  lemma {:induction false} MoveAllOthers(bs: seq<seq<Instr>>, ms: seq<Instr>, pre: nat)
    requires pre < |bs| && Terminated(bs[pre])
    requires forall k :: 0 <= k < |ms| ==> ms[k].kind != Terminator
    ensures forall b :: 0 <= b < |bs| && b != pre ==> MoveAll(bs, ms, pre)[b] == RemoveAll(bs[b], set m | m in ms)
    decreases |ms|
  {
    if ms == [] {
      assert (set m | m in ms) == {};
      forall b | 0 <= b < |bs| && b != pre
        ensures bs[b] == RemoveAll(bs[b], {})
      {
        RemoveAllNothing(bs[b]);
      }
    } else {
      var x := ms[0];
      var next := MoveBefore(bs, x, pre);
      MoveAllOthers(next, ms[1..], pre);
      var rest := set m | m in ms[1..];
      assert rest + {x} == set m | m in ms by {
        assert ms == [x] + ms[1..];
      }
      forall b | 0 <= b < |bs| && b != pre
        ensures RemoveAll(next[b], rest) == RemoveAll(bs[b], set m | m in ms)
      {
        RemoveAllAfterRemove(bs[b], x, rest);
      }
    }
  }

  lemma {:induction false} RemoveAllNothing(s: seq<Instr>)
    ensures RemoveAll(s, {}) == s
  {
    if s != [] {
      RemoveAllNothing(s[1..]);
    }
  }

  // ---------------------------------------------------------------------
  // runOnLoop and run

  /** What `runOnLoop` needs of its input: depth-first order and preheader name real blocks, and the preheader is terminated. */
  predicate LoopInputsOk(bs: seq<seq<Instr>>, l: Option<Loop>) {
    l.Some? ==>
      DfsInBounds(bs, l.value) &&
      (l.value.preheader.Some? ==> l.value.preheader.value < |bs| && Terminated(bs[l.value.preheader.value]))
  }

  lemma {:induction false} CandidatesAreBinary(bs: seq<seq<Instr>>, l: Loop, dom: Dominance)
    requires DfsInBounds(bs, l)
    ensures forall k :: 0 <= k < |Candidates(bs, l, dom)| ==> Candidates(bs, l, dom)[k].kind == BinaryOp
  {
    CandidatesSound(bs, l, dom);
  }

  /** `runOnLoop`: the new blocks and whether anything moved. */
  ghost function LoopResult(bs: seq<seq<Instr>>, l: Option<Loop>, dom: Dominance): (r: (seq<seq<Instr>>, bool))
    requires LoopInputsOk(bs, l)
    ensures |r.0| == |bs|
    ensures forall b :: 0 <= b < |bs| && Terminated(bs[b]) ==> Terminated(r.0[b])
  {
    if l.None? || l.value.preheader.None? then (bs, false)
    else
      var c := Candidates(bs, l.value, dom);
      CandidatesAreBinary(bs, l.value, dom);
      (MoveAll(bs, c, l.value.preheader.value), |c| > 0)
  }

  /** Every instruction id occurs once in the function. */
  predicate UniqueIds(bs: seq<seq<Instr>>) {
    forall b1, j1, b2, j2 ::
      (0 <= b1 < |bs| && 0 <= j1 < |bs[b1]| && 0 <= b2 < |bs| && 0 <= j2 < |bs[b2]| && bs[b1][j1].id == bs[b2][j2].id) ==>
        b1 == b2 && j1 == j2
  }

  /**
   * The shape of `runOnLoop`'s result: nothing happens without a loop or a
   * preheader; otherwise the candidates, in selection order, end up right
   * before the preheader's terminator and disappear from where they were, and
   * no other instruction moves. It reports a change exactly when it moved
   * something.
   */
  lemma {:induction false} HoistLayout(bs: seq<seq<Instr>>, l: Option<Loop>, dom: Dominance)
    requires LoopInputsOk(bs, l) && UniqueIds(bs)
    requires l.Some? && l.value.preheader.Some? ==> l.value.preheader.value !in l.value.blocks
    ensures l.None? || l.value.preheader.None? ==> LoopResult(bs, l, dom) == (bs, false)
    ensures l.Some? && l.value.preheader.Some? ==>
      var c := Candidates(bs, l.value, dom); var pre := l.value.preheader.value;
      var r := LoopResult(bs, l, dom).0; var p := bs[pre];
      r[pre] == p[..|p| - 1] + c + [p[|p| - 1]] &&
      (forall b :: 0 <= b < |bs| && b != pre ==> r[b] == RemoveAll(bs[b], set m | m in c)) &&
      (LoopResult(bs, l, dom).1 <==> |c| > 0)
  {
    if l.Some? && l.value.preheader.Some? {
      var c := Candidates(bs, l.value, dom);
      var pre := l.value.preheader.value;
      CandidatesSound(bs, l.value, dom);
      forall k | 0 <= k < |c|
        ensures c[k] !in bs[pre]
      {
        var b :| 0 <= b < |bs| && b in l.value.blocks && b in l.value.dfsOrder && c[k] in bs[b] && IsSafeToMove(bs, l.value, dom, c[k], b);
      }
      MoveAllLayout(bs, c, pre);
    }
  }

  /** `run`: every top-level loop in turn, from loop i on; the flag ORs the loops' results. */
  ghost function RunFrom(bs: seq<seq<Instr>>, loops: seq<Loop>, dom: Dominance, i: nat): (r: (seq<seq<Instr>>, bool))
    requires i <= |loops|
    requires forall k :: i <= k < |loops| ==> LoopInputsOk(bs, Some(loops[k]))
    decreases |loops| - i
  {
    if i == |loops| then (bs, false)
    else
      var (bs', c) := LoopResult(bs, Some(loops[i]), dom);
      assert forall k :: i + 1 <= k < |loops| ==> LoopInputsOk(bs', Some(loops[k])) by {
        forall k | i + 1 <= k < |loops|
          ensures LoopInputsOk(bs', Some(loops[k]))
        {
          assert LoopInputsOk(bs, Some(loops[k]));
        }
      }
      var (bs'', c') := RunFrom(bs', loops, dom, i + 1);
      (bs'', c || c')
  }

  lemma {:induction false} NoCandidatesNoChange(bs: seq<seq<Instr>>, l: Loop, dom: Dominance)
    requires LoopInputsOk(bs, Some(l))
    ensures !LoopResult(bs, Some(l), dom).1 ==> LoopResult(bs, Some(l), dom).0 == bs
  {
  }

  /** `run` reports a change exactly when some loop, run on the function as it stands, would move something. */
  lemma {:induction false} RunChangedIff(bs: seq<seq<Instr>>, loops: seq<Loop>, dom: Dominance, i: nat)
    requires i <= |loops|
    requires forall k :: i <= k < |loops| ==> LoopInputsOk(bs, Some(loops[k]))
    ensures !RunFrom(bs, loops, dom, i).1 <==> forall k :: i <= k < |loops| ==> !LoopResult(bs, Some(loops[k]), dom).1
    decreases |loops| - i
  {
    if i < |loops| {
      NoCandidatesNoChange(bs, loops[i], dom);
      RunStep(bs, loops, dom, i);
      if !LoopResult(bs, Some(loops[i]), dom).1 {
        RunChangedIff(bs, loops, dom, i + 1);
        assert (forall k :: i <= k < |loops| ==> !LoopResult(bs, Some(loops[k]), dom).1)
          <==> (forall k :: i + 1 <= k < |loops| ==> !LoopResult(bs, Some(loops[k]), dom).1);
      }
    }
  }

  /** A run that reports no change hands back the function as it was. */
  lemma {:induction false} RunQuietUnchanged(bs: seq<seq<Instr>>, loops: seq<Loop>, dom: Dominance, i: nat)
    requires i <= |loops|
    requires forall k :: i <= k < |loops| ==> LoopInputsOk(bs, Some(loops[k]))
    ensures !RunFrom(bs, loops, dom, i).1 ==> RunFrom(bs, loops, dom, i).0 == bs
    decreases |loops| - i
  {
    if i < |loops| {
      NoCandidatesNoChange(bs, loops[i], dom);
      RunStep(bs, loops, dom, i);
      if !LoopResult(bs, Some(loops[i]), dom).1 {
        RunQuietUnchanged(bs, loops, dom, i + 1);
      }
    }
  }

  /** One loop of `run`: a loop that moves something makes the run report a change; one that does not leaves the rest of the run as it was. */
  lemma {:induction false} RunStep(bs: seq<seq<Instr>>, loops: seq<Loop>, dom: Dominance, i: nat)
    requires i < |loops|
    requires forall k :: i <= k < |loops| ==> LoopInputsOk(bs, Some(loops[k]))
    ensures LoopResult(bs, Some(loops[i]), dom).1 ==> RunFrom(bs, loops, dom, i).1
    ensures LoopResult(bs, Some(loops[i]), dom) == (bs, false) ==> RunFrom(bs, loops, dom, i) == RunFrom(bs, loops, dom, i + 1)
  {
  }

  class FunctionBody {
    /** The instructions of each block, in order. */
    var blocks: seq<seq<Instr>>

    constructor (bs: seq<seq<Instr>>)
      ensures blocks == bs
    {
      blocks := bs;
    }

    /** The first phase of `runOnLoop`, over one block: each instruction that is invariant and safe to move joins `movable`. */
    method ScanLoopBlock(loop: Loop, dom: Dominance, bb: nat, movable: seq<Instr>) returns (r: seq<Instr>)
      requires bb < |blocks|
      ensures r == ScanBlock(blocks, loop, dom, bb, 0, movable)
    {
      var bs := blocks;
      r := movable;
      var j := 0;
      while j < |bs[bb]|
        invariant j <= |bs[bb]|
        invariant r == ScanBlockPrefix(bs, loop, dom, bb, j, movable)
      {
        r := Choose(bs, loop, dom, bb, r, bs[bb][j]);
        j := j + 1;
      }
      ScanBlockResume(bs, loop, dom, bb, j, movable);
    }

    /** The first phase of `runOnLoop`: the loop's blocks in depth-first order, collecting `movable`. */
    method CollectCandidates(loop: Loop, dom: Dominance) returns (movable: seq<Instr>)
      requires DfsInBounds(blocks, loop)
      ensures movable == Candidates(blocks, loop, dom)
    {
      movable := [];
      var t := 0;
      while t < |loop.dfsOrder|
        invariant t <= |loop.dfsOrder|
        invariant movable == ScanBlocksPrefix(blocks, loop, dom, t)
      {
        var bb := loop.dfsOrder[t];
        if bb in loop.blocks {
          movable := ScanLoopBlock(loop, dom, bb, movable);
        }
        t := t + 1;
      }
      ScanBlocksResume(blocks, loop, dom, t);
    }

    /** The second phase of `runOnLoop`: each chosen instruction moves in front of the preheader's terminator, in order. */
    method HoistAll(movable: seq<Instr>, pre: nat) returns (moved: seq<Instr>)
      requires pre < |blocks| && Terminated(blocks[pre])
      requires forall k :: 0 <= k < |movable| ==> movable[k].kind != Terminator
      modifies this
      ensures blocks == MoveAll(old(blocks), movable, pre)
      ensures moved == movable
    {
      moved := [];
      var k := 0;
      while k < |movable|
        invariant k <= |movable| && pre < |blocks| && Terminated(blocks[pre])
        invariant MoveAll(old(blocks), movable, pre) == MoveAll(blocks, movable[k..], pre)
        invariant moved == movable[..k]
      {
        assert movable[k..][1..] == movable[k + 1..];
        blocks := MoveBefore(blocks, movable[k], pre);
        moved := moved + [movable[k]];
        k := k + 1;
      }
      assert movable[..k] == movable;
    }

    /** `LICMopt::runOnLoop`. */
    method RunOnLoop(l: Option<Loop>, dom: Dominance) returns (changed: bool)
      requires LoopInputsOk(blocks, l)
      modifies this
      ensures (blocks, changed) == LoopResult(old(blocks), l, dom)
    {
      if l.None? {
        return false;
      }
      var loop := l.value;
      if loop.preheader.None? {
        return false;
      }
      var pre := loop.preheader.value;
      var movable := CollectCandidates(loop, dom);
      CandidatesAreBinary(blocks, loop, dom);
      var moved := HoistAll(movable, pre);
      changed := |moved| > 0;
    }

    /** `LICMopt::run`: every top-level loop once, in order. */
    method Run(loops: seq<Loop>, dom: Dominance) returns (changed: bool)
      requires forall k :: 0 <= k < |loops| ==> LoopInputsOk(blocks, Some(loops[k]))
      modifies this
      ensures (blocks, changed) == RunFrom(old(blocks), loops, dom, 0)
    {
      changed := false;
      var i := 0;
      while i < |loops|
        invariant i <= |loops|
        invariant forall k :: i <= k < |loops| ==> LoopInputsOk(blocks, Some(loops[k]))
        invariant RunFrom(old(blocks), loops, dom, 0) == (RunFrom(blocks, loops, dom, i).0, changed || RunFrom(blocks, loops, dom, i).1)
      {
        var localChanged := RunOnLoop(Some(loops[i]), dom);
        if localChanged {
          changed := true;
        }
        i := i + 1;
      }
    }
  }
}
