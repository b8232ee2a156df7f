/**
 * The in-place IR edits loop fusion performs, as functions from the graph
 * before to the graph after: branch-successor updates, phi incoming-block
 * renaming, replace-all-uses-with, erasing and moving instructions, and
 * deleting blocks. Instruction ids are object identities, so an id occurs at
 * most once in a well-formed function.
 */
module FusionEdit {
  import opened Common
  import opened FusionIr

  // ---------------------------------------------------------------------
  // Which instructions exist, and which values are used

  function IdsOf(s: seq<Inst>): set<nat> {
    set i | i in s :: i.id
  }

  /** The ids of all instructions of all blocks. */
  function Ids(g: Cfg): set<nat> {
    set b, x | b in g.blocks && x in IdsOf(g.blocks[b]) :: x
  }

  predicate UsesVal(i: Inst, v: Val) {
    match i
    case PhiInst(_, inc) => exists e :: e in inc && e.value == v
    case OpInst(_, _, ops) => v in ops
    case BrInst(_, c, _) => c == Some(v)
  }

  /** Some instruction of the function has `v` as an operand. */
  predicate UsedIn(g: Cfg, v: Val) {
    exists b, i :: b in g.blocks && i in g.blocks[b] && UsesVal(i, v)
  }

  /** A block is referenced when some block's terminator names it as a successor (`!use_empty()`). */
  predicate Referenced(g: Cfg, b: nat) {
    exists c :: c in g.blocks && b in Succs(g, c)
  }

  /** An edit keeps the CFG when the order, the loops and every block's successor slots stay as they were. */
  ghost predicate SameEdges(g: Cfg, r: Cfg) {
    r.order == g.order && r.loops == g.loops && r.blocks.Keys == g.blocks.Keys &&
    forall b :: Succs(r, b) == Succs(g, b)
  }

  // ---------------------------------------------------------------------
  // Editing every instruction

  function MapSeq(s: seq<Inst>, f: Inst -> Inst): (r: seq<Inst>)
    ensures |r| == |s| && forall k :: 0 <= k < |s| ==> r[k] == f(s[k])
  {
    seq(|s|, k requires 0 <= k < |s| => f(s[k]))
  }

  function MapAll(g: Cfg, f: Inst -> Inst): (r: Cfg)
    ensures r.order == g.order && r.loops == g.loops && r.blocks.Keys == g.blocks.Keys
    ensures forall b :: b in g.blocks ==> r.blocks[b] == MapSeq(g.blocks[b], f)
  {
    g.(blocks := map b | b in g.blocks :: MapSeq(g.blocks[b], f))
  }

  /** An instruction-wise edit that keeps every id keeps the set of ids. */
  lemma {:induction false} MapAllIds(g: Cfg, f: Inst -> Inst)
    requires forall i :: f(i).id == i.id
    ensures Ids(MapAll(g, f)) == Ids(g)
  {
    var r := MapAll(g, f);
    forall b | b in g.blocks
      ensures IdsOf(r.blocks[b]) == IdsOf(g.blocks[b])
    {
      var s := g.blocks[b];
      forall x | x in IdsOf(s) ensures x in IdsOf(r.blocks[b]) {
        var i :| i in s && i.id == x;
        var k :| 0 <= k < |s| && s[k] == i;
        assert r.blocks[b][k] == f(i);
      }
      forall x | x in IdsOf(r.blocks[b]) ensures x in IdsOf(s) {
        var i :| i in r.blocks[b] && i.id == x;
        var k :| 0 <= k < |r.blocks[b]| && r.blocks[b][k] == i;
        assert s[k] in s;
      }
    }
  }

  /** An edit that maps each branch to a branch with the same slots keeps every block's successors. */
  lemma {:induction false} MapAllEdges(g: Cfg, f: Inst -> Inst)
    requires forall i: Inst :: f(i).BrInst? <==> i.BrInst?
    requires forall i: Inst :: i.BrInst? ==> f(i).succs == i.succs
    ensures SameEdges(g, MapAll(g, f))
  {
    var r := MapAll(g, f);
    forall b ensures Succs(r, b) == Succs(g, b) {
      if b in g.blocks {
        var s := g.blocks[b];
        if |s| > 0 {
          assert r.blocks[b][|s| - 1] == f(s[|s| - 1]);
        }
      }
    }
  }

  function ReplaceVal(x: Val, v: Val, w: Val): Val {
    if x == v then w else x
  }

  /** `replaceAllUsesWith` on one user: every operand equal to v becomes w. */
  function UseReplaced(i: Inst, v: Val, w: Val): (r: Inst)
    ensures r.id == i.id && (r.PhiInst? <==> i.PhiInst?) && (r.BrInst? <==> i.BrInst?)
    ensures r.BrInst? ==> r.succs == i.succs
    ensures r.PhiInst? ==> (|r.incoming| == |i.incoming| &&
      forall k :: 0 <= k < |i.incoming| ==> r.incoming[k].block == i.incoming[k].block)
    ensures v != w ==> !UsesVal(r, v)
    ensures !UsesVal(i, v) ==> r == i
  {
    match i
    case PhiInst(id, inc) =>
      var inc' := seq(|inc|, k requires 0 <= k < |inc| => Incoming(ReplaceVal(inc[k].value, v, w), inc[k].block));
      assert !UsesVal(i, v) ==> inc' == inc;
      PhiInst(id, inc')
    case OpInst(id, kind, ops) =>
      var ops' := seq(|ops|, k requires 0 <= k < |ops| => ReplaceVal(ops[k], v, w));
      assert !UsesVal(i, v) ==> ops' == ops;
      OpInst(id, kind, ops')
    case BrInst(id, c, ss) => BrInst(id, if c == Some(v) then Some(w) else c, ss)
  }

  /** `v->replaceAllUsesWith(w)`: afterwards nothing uses v, and the CFG and the instructions present are as before. */
  function Rauw(g: Cfg, v: Val, w: Val): (r: Cfg)
    ensures SameEdges(g, r) && Ids(r) == Ids(g)
    ensures v != w ==> !UsedIn(r, v)
  {
    var f := (i: Inst) => UseReplaced(i, v, w);
    MapAllIds(g, f);
    MapAllEdges(g, f);
    MapAll(g, f)
  }

  /** The phi with this id gets `f` applied; any other instruction is left alone. */
  function EditPhi(g: Cfg, id: nat, f: seq<Incoming> -> seq<Incoming>): (r: Cfg)
    requires forall inc :: |f(inc)| == |inc|
    ensures SameEdges(g, r) && Ids(r) == Ids(g)
  {
    var h := (i: Inst) => if i.PhiInst? && i.id == id then i.(incoming := f(i.incoming)) else i;
    MapAllIds(g, h);
    MapAllEdges(g, h);
    MapAll(g, h)
  }

  /** `setIncomingValue(k, v)` on the phi `id`; a slot past the end is left alone. */
  function SetIncomingValue(g: Cfg, id: nat, k: nat, v: Val): (r: Cfg)
    ensures SameEdges(g, r) && Ids(r) == Ids(g)
  {
    EditPhi(g, id, (inc: seq<Incoming>) => if k < |inc| then inc[k := inc[k].(value := v)] else inc)
  }

  /** `setIncomingBlock(k, b)` on the phi `id`; a slot past the end is left alone. */
  function SetIncomingBlock(g: Cfg, id: nat, k: nat, b: nat): (r: Cfg)
    ensures SameEdges(g, r) && Ids(r) == Ids(g)
  {
    EditPhi(g, id, (inc: seq<Incoming>) => if k < |inc| then inc[k := inc[k].(block := b)] else inc)
  }

  // ---------------------------------------------------------------------
  // Editing one block

  /** Replacing one block's instructions adds at most the new block's ids, and removes at most the old block's. */
  lemma {:induction false} UpdateIds(g: Cfg, b: nat, s: seq<Inst>)
    requires b in g.blocks
    ensures Ids(g.(blocks := g.blocks[b := s])) <= Ids(g) + IdsOf(s)
    ensures IdsOf(g.blocks[b]) <= IdsOf(s) ==> Ids(g) <= Ids(g.(blocks := g.blocks[b := s]))
  {
    var r := g.(blocks := g.blocks[b := s]);
    forall x | x in Ids(r) ensures x in Ids(g) + IdsOf(s) {
      var c :| c in r.blocks && x in IdsOf(r.blocks[c]);
    }
    if IdsOf(g.blocks[b]) <= IdsOf(s) {
      forall x | x in Ids(g) ensures x in Ids(r) {
        var c :| c in g.blocks && x in IdsOf(g.blocks[c]);
        assert x in IdsOf(r.blocks[c]);
      }
    }
  }

  /** The successor slots of block b's terminator rewritten by f; a block without a terminator is left alone. */
  function EditSuccs(g: Cfg, b: nat, f: seq<nat> -> seq<nat>): (r: Cfg)
    ensures r.order == g.order && r.loops == g.loops && r.blocks.Keys == g.blocks.Keys
    ensures forall c :: c != b ==> Insts(r, c) == Insts(g, c)
    ensures Terminator(Insts(g, b)).Some? ==> Succs(r, b) == f(Succs(g, b))
    ensures Terminator(Insts(g, b)).None? ==> r == g
    ensures Ids(r) == Ids(g)
  {
    var s := Insts(g, b);
    match Terminator(s)
    case None => g
    case Some(br) =>
      var s' := s[..|s| - 1] + [br.(succs := f(br.succs))];
      assert IdsOf(s') == IdsOf(s) by {
        assert s == s[..|s| - 1] + [br];
      }
      UpdateIds(g, b, s');
      g.(blocks := g.blocks[b := s'])
  }

  /** `getTerminator()->setSuccessor(k, t)`; a slot past the end is left alone. */
  function SetSuccessor(g: Cfg, b: nat, k: nat, t: nat): (r: Cfg)
    ensures r.order == g.order && r.loops == g.loops && r.blocks.Keys == g.blocks.Keys
    ensures forall c :: c != b ==> Insts(r, c) == Insts(g, c)
    ensures |Succs(r, b)| == |Succs(g, b)|
    ensures k < |Succs(g, b)| ==> Succs(r, b)[k] == t
    ensures forall j :: 0 <= j < |Succs(g, b)| && j != k ==> Succs(r, b)[j] == Succs(g, b)[j]
    ensures Ids(r) == Ids(g)
  {
    EditSuccs(g, b, (ss: seq<nat>) => if k < |ss| then ss[k := t] else ss)
  }

  /** `getTerminator()->replaceSuccessorWith(from, to)`: every slot naming from now names to. */
  function ReplaceSuccessorWith(g: Cfg, b: nat, from: nat, to: nat): (r: Cfg)
    ensures r.order == g.order && r.loops == g.loops && r.blocks.Keys == g.blocks.Keys
    ensures forall c :: c != b ==> Insts(r, c) == Insts(g, c)
    ensures |Succs(r, b)| == |Succs(g, b)|
    ensures forall j :: 0 <= j < |Succs(g, b)| ==>
      Succs(r, b)[j] == (if Succs(g, b)[j] == from then to else Succs(g, b)[j])
    ensures Ids(r) == Ids(g)
  {
    EditSuccs(g, b, (ss: seq<nat>) => ReplaceAllIn(ss, from, to))
  }

  /** The length of the run of phi nodes a block starts with. */
  function PhiPrefix(s: seq<Inst>): (n: nat)
    ensures n <= |s| && (forall k :: 0 <= k < n ==> s[k].PhiInst?) && (n < |s| ==> !s[n].PhiInst?)
  {
    if s == [] || !s[0].PhiInst? then 0 else 1 + PhiPrefix(s[1..])
  }

  function RenameIncoming(inc: seq<Incoming>, from: nat, to: nat): (r: seq<Incoming>)
    ensures |r| == |inc| && forall k :: 0 <= k < |inc| ==>
      r[k].value == inc[k].value && r[k].block == (if inc[k].block == from then to else inc[k].block)
  {
    seq(|inc|, k requires 0 <= k < |inc| => inc[k].(block := if inc[k].block == from then to else inc[k].block))
  }

  /** `replacePhiUsesWith` on a block's instructions: it stops at the first instruction that is not a phi. */
  function RenameLeading(s: seq<Inst>, from: nat, to: nat): (r: seq<Inst>)
    ensures |r| == |s| && PhiPrefix(r) == PhiPrefix(s)
    ensures forall k :: 0 <= k < |s| ==> r[k].id == s[k].id
    ensures forall k :: PhiPrefix(s) <= k < |s| ==> r[k] == s[k]
    ensures forall k :: 0 <= k < PhiPrefix(s) ==> r[k] == s[k].(incoming := RenameIncoming(s[k].incoming, from, to))
    decreases |s|
  {
    if s == [] || !s[0].PhiInst? then s
    else [s[0].(incoming := RenameIncoming(s[0].incoming, from, to))] + RenameLeading(s[1..], from, to)
  }

  /** Renaming incoming blocks keeps the ids and the terminator of a block, and clears `from` from its leading phis. */
  lemma {:induction false} RenameLeadingKeeps(s: seq<Inst>, from: nat, to: nat)
    ensures IdsOf(RenameLeading(s, from, to)) == IdsOf(s)
    ensures Terminator(RenameLeading(s, from, to)) == Terminator(s)
    ensures from != to ==> forall k, e :: 0 <= k < PhiPrefix(s) && e in RenameLeading(s, from, to)[k].incoming ==> e.block != from
  {
    RenameLeadingIds(s, from, to);
    RenameLeadingTerminator(s, from, to);
    if from != to {
      RenameLeadingClears(s, from, to);
    }
  }

  lemma {:induction false} RenameLeadingIds(s: seq<Inst>, from: nat, to: nat)
    ensures IdsOf(RenameLeading(s, from, to)) == IdsOf(s)
  {
    var s' := RenameLeading(s, from, to);
    forall x | x in IdsOf(s) ensures x in IdsOf(s') {
      var i :| i in s && i.id == x;
      var k :| 0 <= k < |s| && s[k] == i;
      assert s'[k] in s';
    }
    forall x | x in IdsOf(s') ensures x in IdsOf(s) {
      var i :| i in s' && i.id == x;
      var k :| 0 <= k < |s'| && s'[k] == i;
      assert s[k] in s;
    }
  }

  lemma {:induction false} RenameLeadingTerminator(s: seq<Inst>, from: nat, to: nat)
    ensures Terminator(RenameLeading(s, from, to)) == Terminator(s)
  {
    var s' := RenameLeading(s, from, to);
    if |s| > 0 {
      var n := |s| - 1;
      if n < PhiPrefix(s) {
        assert s[n].PhiInst? && s'[n].PhiInst?;
      } else {
        assert s'[n] == s[n];
      }
    }
  }

  lemma {:induction false} RenameLeadingClears(s: seq<Inst>, from: nat, to: nat)
    requires from != to
    ensures forall k, e :: 0 <= k < PhiPrefix(s) && e in RenameLeading(s, from, to)[k].incoming ==> e.block != from
  {
    var s' := RenameLeading(s, from, to);
    forall k, e | 0 <= k < PhiPrefix(s) && e in s'[k].incoming ensures e.block != from {
      var inc := s[k].incoming;
      var j :| 0 <= j < |s'[k].incoming| && s'[k].incoming[j] == e;
      assert s'[k].incoming == RenameIncoming(inc, from, to);
    }
  }

  /**
   * `b->replacePhiUsesWith(from, to)`: in each leading phi of b every incoming
   * block from becomes to. Afterwards no leading phi names from, and nothing
   * else changes.
   */
  function ReplacePhiUsesWith(g: Cfg, b: nat, from: nat, to: nat): (r: Cfg)
    ensures SameEdges(g, r) && Ids(r) == Ids(g)
    ensures forall c :: c != b ==> Insts(r, c) == Insts(g, c)
    ensures Insts(r, b) == RenameLeading(Insts(g, b), from, to)
    ensures from != to ==> forall k, e :: 0 <= k < PhiPrefix(Insts(r, b)) && e in Insts(r, b)[k].incoming ==> e.block != from
  {
    if b !in g.blocks then
      assert RenameLeading([], from, to) == [];
      g
    else
      var s' := RenameLeading(g.blocks[b], from, to);
      RenameLeadingKeeps(g.blocks[b], from, to);
      UpdateIds(g, b, s');
      g.(blocks := g.blocks[b := s'])
  }

  // ---------------------------------------------------------------------
  // Erasing and moving instructions

  function Without(s: seq<Inst>, id: nat): (r: seq<Inst>)
    ensures forall i :: i in r <==> i in s && i.id != id
    ensures IdsOf(r) == IdsOf(s) - {id}
  {
    if s == [] then []
    else if s[0].id == id then Without(s[1..], id)
    else
      var rest := Without(s[1..], id);
      assert s == [s[0]] + s[1..];
      [s[0]] + rest
  }

  /** `eraseFromParent` on the instruction `id`: it leaves the function; its uses are not touched. */
  function Erase(g: Cfg, id: nat): (r: Cfg)
    ensures r.order == g.order && r.loops == g.loops && r.blocks.Keys == g.blocks.Keys
    ensures forall b :: b in g.blocks ==> r.blocks[b] == Without(g.blocks[b], id)
    ensures Ids(r) == Ids(g) - {id}
    ensures forall v :: !UsedIn(g, v) ==> !UsedIn(r, v)
  {
    var r := g.(blocks := map b | b in g.blocks :: Without(g.blocks[b], id));
    assert Ids(r) == Ids(g) - {id} by {
      forall x | x in Ids(r) ensures x in Ids(g) - {id} {
        var c :| c in r.blocks && x in IdsOf(r.blocks[c]);
      }
      forall x | x in Ids(g) - {id} ensures x in Ids(r) {
        var c :| c in g.blocks && x in IdsOf(g.blocks[c]);
        assert x in IdsOf(r.blocks[c]);
      }
    }
    r
  }

  /** An instruction the function finds is among its ids. */
  lemma {:induction false} FoundInIds(g: Cfg, id: nat)
    requires FindInst(g, id).Some?
    ensures id in Ids(g)
  {
    var p := ParentOf(g, id).value;
    var x := Insts(g, p)[IndexOfInst(Insts(g, p), id).value];
    assert p in g.blocks && x in g.blocks[p] && x.id == id;
    assert id in IdsOf(g.blocks[p]);
  }

  /** Without on a sequence that has no instruction with this id changes nothing. */
  lemma {:induction false} WithoutNone(s: seq<Inst>, id: nat)
    requires forall x :: x in s ==> x.id != id
    ensures Without(s, id) == s
  {
    if s != [] {
      assert s == [s[0]] + s[1..];
      WithoutNone(s[1..], id);
    }
  }

  /** s with i inserted just before position j: everything before j and from j on keeps its place relative to i. */
  function InsertAt(s: seq<Inst>, j: nat, i: Inst): (r: seq<Inst>)
    requires j < |s|
    ensures |r| == |s| + 1 && r[j] == i
    ensures forall k :: 0 <= k < j ==> r[k] == s[k]
    ensures forall k :: j <= k < |s| ==> r[k + 1] == s[k]
    ensures IdsOf(r) == IdsOf(s) + {i.id}
  {
    var r := s[..j] + [i] + s[j..];
    assert forall y :: y in r <==> y in s || y == i by {
      assert s == s[..j] + s[j..];
    }
    r
  }

  /**
   * `moveBefore(anchor)`: the instruction leaves its place and is put just before
   * the anchor, in the anchor's block. With no anchor, or an instruction or
   * anchor not in the function, nothing moves. Apart from the instruction
   * itself every block keeps its instructions in order, and the function keeps
   * its ids.
   */
  function MoveBefore(g: Cfg, id: nat, anchor: Option<nat>): (r: Cfg)
    ensures r.order == g.order && r.loops == g.loops && r.blocks.Keys == g.blocks.Keys
    ensures Ids(r) == Ids(g)
    ensures forall c :: c in r.blocks ==> Without(r.blocks[c], id) == Without(g.blocks[c], id)
    ensures FindInst(g, id).None? || anchor.None? ==> r == g
    ensures r != g ==> exists q, j :: (q in r.blocks && 0 <= j < |r.blocks[q]| - 1 &&
      r.blocks[q][j] == FindInst(g, id).value && r.blocks[q][j + 1].id == anchor.value && OnlyAt(r, id, q, j))
  {
    match (FindInst(g, id), anchor)
    case (Some(i), Some(a)) =>
      if a == id then g
      else
        var h := Erase(g, id);
        (match ParentOf(h, a)
         case None => g
         case Some(q) =>
           MovedIds(g, id, i, q, a);
           MovedBlocks(g, id, i, q, a);
           PlaceBefore(h, q, a, i))
    case _ => g
  }

  /** The only instruction of the function with this id is instruction j of block q. */
  predicate OnlyAt(g: Cfg, id: nat, q: nat, j: nat) {
    forall c, k :: c in g.blocks && 0 <= k < |g.blocks[c]| && g.blocks[c][k].id == id ==> c == q && k == j
  }

  /** Moving an instruction found in the function keeps the function's ids. */
  lemma {:induction false} MovedIds(g: Cfg, id: nat, i: Inst, q: nat, a: nat)
    requires FindInst(g, id) == Some(i) && IndexOfInst(Insts(Erase(g, id), q), a).Some?
    ensures Ids(PlaceBefore(Erase(g, id), q, a, i)) == Ids(g)
  {
    var h := Erase(g, id);
    var before, after := Ids(g), Ids(PlaceBefore(h, q, a, i));
    FoundInIds(g, id);
    assert after == (before - {id}) + {id};
    assert id in before;
  }

  /** Moving an instruction leaves every other instruction in place, and one copy of it just before the anchor. */
  lemma {:induction false} MovedBlocks(g: Cfg, id: nat, i: Inst, q: nat, a: nat)
    requires FindInst(g, id) == Some(i) && IndexOfInst(Insts(Erase(g, id), q), a).Some?
    ensures var r := PlaceBefore(Erase(g, id), q, a, i);
      (forall c :: c in r.blocks ==> Without(r.blocks[c], id) == Without(g.blocks[c], id))
      && OnlyAt(r, id, q, IndexOfInst(Insts(Erase(g, id), q), a).value)
  {
    var h := Erase(g, id);
    var r := PlaceBefore(h, q, a, i);
    var j := IndexOfInst(Insts(h, q), a).value;
    forall c | c in r.blocks
      ensures Without(r.blocks[c], id) == Without(g.blocks[c], id)
      ensures forall k :: 0 <= k < |r.blocks[c]| && r.blocks[c][k].id == id ==> c == q && k == j
    {
      assert Insts(h, c) == Without(g.blocks[c], id);
      MovedSeq(g.blocks[c], r.blocks[c], i, c == q, j);
    }
  }

  /** One block after the move, as a sequence: the moved instruction is the only one with its id, and removing it gives the block before the move without it. */
  lemma {:induction false} MovedSeq(before: seq<Inst>, after: seq<Inst>, i: Inst, target: bool, j: nat)
    requires target ==> j < |Without(before, i.id)| && after == InsertAt(Without(before, i.id), j, i)
    requires !target ==> after == Without(before, i.id)
    ensures Without(after, i.id) == Without(before, i.id)
    ensures forall k :: 0 <= k < |after| && after[k].id == i.id ==> target && k == j
  {
    var w := Without(before, i.id);
    WithoutNone(w, i.id);
    if target {
      InsertedOnce(w, j, i);
    }
  }

  /** Inserting i into a block without its id: removing the id again gives the block back, and i is the only instruction with its id. */
  lemma {:induction false} InsertedOnce(w: seq<Inst>, j: nat, i: Inst)
    requires j < |w| && forall x :: x in w ==> x.id != i.id
    ensures Without(InsertAt(w, j, i), i.id) == w
    ensures forall k :: 0 <= k < |w| + 1 && InsertAt(w, j, i)[k].id == i.id ==> k == j
  {
    InsertedRemoved(w, j, i);
    var s' := InsertAt(w, j, i);
    forall k | 0 <= k < |s'| && k != j
      ensures s'[k].id != i.id
    {
      if k < j {
        assert s'[k] == w[k];
      } else {
        assert s'[k] == w[k - 1];
      }
    }
  }

  lemma {:induction false} InsertedRemoved(w: seq<Inst>, j: nat, i: Inst)
    requires j < |w| && forall x :: x in w ==> x.id != i.id
    ensures Without(InsertAt(w, j, i), i.id) == w
    decreases j
  {
    var s' := InsertAt(w, j, i);
    if j == 0 {
      assert s'[0] == i && s'[1..] == w;
      WithoutNone(w, i.id);
    } else {
      var t := InsertAt(w[1..], j - 1, i);
      assert s'[0] == w[0] && s'[1..] == t by {
        assert |s'| == |t| + 1;
        forall k | 0 <= k < |t|
          ensures s'[k + 1] == t[k]
        {
        }
      }
      InsertedRemoved(w[1..], j - 1, i);
      assert Without(s', i.id) == [w[0]] + w[1..] by {
        assert w[0] in w;
      }
      assert w == [w[0]] + w[1..];
    }
  }

  /** Inserts `i` just before the instruction `a` of block q; no other block changes. */
  function PlaceBefore(h: Cfg, q: nat, a: nat, i: Inst): (r: Cfg)
    requires IndexOfInst(Insts(h, q), a).Some?
    ensures r.order == h.order && r.loops == h.loops && r.blocks.Keys == h.blocks.Keys
    ensures Ids(r) == Ids(h) + {i.id}
    ensures q in r.blocks && r.blocks[q] == InsertAt(Insts(h, q), IndexOfInst(Insts(h, q), a).value, i)
    ensures forall c :: c != q ==> Insts(r, c) == Insts(h, c)
    ensures exists j :: 0 <= j < |r.blocks[q]| - 1 && r.blocks[q][j] == i && r.blocks[q][j + 1].id == a
  {
    var s := Insts(h, q);
    var j := IndexOfInst(s, a).value;
    var s' := InsertAt(s, j, i);
    UpdateIds(h, q, s');
    var r := h.(blocks := h.blocks[q := s']);
    assert r.blocks[q][j] == i && r.blocks[q][j + 1].id == a;
    assert i.id in IdsOf(r.blocks[q]);
    assert IdsOf(s) <= Ids(h) by {
      forall x | x in IdsOf(s) ensures x in Ids(h) {
        assert q in h.blocks && x in IdsOf(h.blocks[q]);
      }
    }
    r
  }

  // ---------------------------------------------------------------------
  // Blocks and loops

  /**
   * What `deleteBlock` leaves behind: the block and its instructions are gone,
   * every other block and every loop's block list are as they were. Branches
   * naming the block are not rewritten.
   */
  function DeleteBlockSpec(g: Cfg, b: Option<nat>): (r: Cfg)
    ensures b.Some? ==> b.value !in r.order && b.value !in r.blocks
    ensures forall c :: (b.None? || c != b.value) ==> Insts(r, c) == Insts(g, c)
    ensures forall c :: c in r.order <==> c in g.order && (b.None? || c != b.value)
    ensures r.loops == g.loops && Ids(r) <= Ids(g)
  {
    match b
    case None => g
    case Some(x) =>
      var r := Cfg(Remove(g.order, x), g.blocks - {x}, g.loops);
      assert Ids(r) <= Ids(g) by {
        forall y | y in Ids(r) ensures y in Ids(g) {
          var c :| c in r.blocks && y in IdsOf(r.blocks[c]);
        }
      }
      r
  }

  /** `addBasicBlockToLoop`: b is appended to loop l's block list. */
  function AddBlockToLoop(g: Cfg, l: nat, b: nat): (r: Cfg)
    ensures r.order == g.order && r.blocks == g.blocks
    ensures LoopBlocks(r, l) == LoopBlocks(g, l) + [b]
    ensures forall m :: m != l ==> LoopBlocks(r, m) == LoopBlocks(g, m)
  {
    g.(loops := g.loops[l := LoopBlocks(g, l) + [b]])
  }

  function IndexOfBlock(s: seq<nat>, b: nat): (r: Option<nat>)
    ensures r.Some? ==> r.value < |s| && s[r.value] == b
    ensures r.None? ==> b !in s
  {
    if s == [] then None
    else if s[0] == b then Some(0)
    else match IndexOfBlock(s[1..], b)
      case None => None
      case Some(j) => Some(j + 1)
  }

  /**
   * `BasicBlock::moveBefore(anchor)` on the function's block list: b is put
   * just before the anchor. The set of blocks listed does not change.
   */
  function MoveBlockBefore(g: Cfg, b: nat, anchor: nat): (r: Cfg)
    ensures r.blocks == g.blocks && r.loops == g.loops
    ensures forall c :: c in r.order <==> c in g.order
    ensures b in g.order && anchor in g.order && b != anchor ==>
      exists j :: 0 <= j < |r.order| - 1 && r.order[j] == b && r.order[j + 1] == anchor
  {
    if b !in g.order || b == anchor then g
    else
      var rest := Remove(g.order, b);
      match IndexOfBlock(rest, anchor)
      case None => g
      case Some(j) =>
        var o := rest[..j] + [b] + rest[j..];
        assert o[j] == b && o[j + 1] == anchor;
        assert forall c :: c in o <==> c in rest || c == b by {
          assert rest == rest[..j] + rest[j..];
        }
        g.(order := o)
  }
}
