/**
 * The driver of the peephole pass: `runOnBasicBlock` walks a block once,
 * tries the rules on each binary instruction, inserts what a rule created in
 * front of the instruction, replaces all uses of the instruction in the
 * function, and erases the rewritten instructions after the walk; `run`
 * does this for every block and reports whether anything changed.
 */
module LocalOptsDriver {
  import opened Common
  import opened LocalOptsIr
  import opened LocalOpts

  /** A rule fires on `i`: it is a binary operator and one of the three rules rewrites it. */
  predicate Fires(i: Value, next: nat) {
    i.Bin? && TryRules(i, next).Some?
  }

  /** One instruction after `replaceAllUsesWith(n, res)`: its operands no longer mention n. */
  function UseReplaced(e: Value, n: nat, res: Value): (r: Value)
    ensures r.Bin? == e.Bin?
    ensures e.Bin? ==> r.id == e.id && r.op == e.op
    ensures !e.Bin? ==> r == e
  {
    match e
    case Bin(id, op, l, r) => Bin(id, op, Subst(l, n, res), Subst(r, n, res))
    case _ => e
  }

  /** `replaceAllUsesWith` over every instruction of every block. */
  function Rauw(bs: seq<seq<Value>>, n: nat, res: Value): (r: seq<seq<Value>>)
    ensures |r| == |bs|
    ensures forall i :: 0 <= i < |bs| ==> |r[i]| == |bs[i]|
    ensures forall i, j :: 0 <= i < |bs| && 0 <= j < |bs[i]| ==> r[i][j] == UseReplaced(bs[i][j], n, res)
  {
    seq(|bs|, i requires 0 <= i < |bs| => seq(|bs[i]|, j requires 0 <= j < |bs[i]| => UseReplaced(bs[i][j], n, res)))
  }

  /** The block without the binary instructions whose ids are in `ids`. */
  function EraseIds(s: seq<Value>, ids: set<nat>): (r: seq<Value>)
    ensures |r| <= |s|
    ensures forall e :: e in r ==> e in s && !(e.Bin? && e.id in ids)
    ensures forall e :: e in s && !(e.Bin? && e.id in ids) ==> e in r
  {
    if s == [] then []
    else if s[0].Bin? && s[0].id in ids then EraseIds(s[1..], ids)
    else [s[0]] + EraseIds(s[1..], ids)
  }

  lemma {:induction false} EraseIdsTwice(s: seq<Value>, a: set<nat>, b: set<nat>)
    ensures EraseIds(EraseIds(s, a), b) == EraseIds(s, a + b)
  {
    if s != [] {
      EraseIdsTwice(s[1..], a, b);
    }
  }

  lemma {:induction false} EraseNothing(s: seq<Value>)
    ensures EraseIds(s, {}) == s
  {
    if s != [] {
      EraseNothing(s[1..]);
    }
  }

  /** The state the walk carries: the function's blocks, the next unused id and `toBeErased`. */
  datatype State = State(blocks: seq<seq<Value>>, next: nat, erased: set<nat>)

  /** The walk over block b from position k, as `runOnBasicBlock`'s first loop performs it. */
  ghost function Scan(s: State, b: nat, k: nat): (t: State)
    requires b < |s.blocks| && k <= |s.blocks[b]|
    ensures |t.blocks| == |s.blocks| && b < |t.blocks|
    ensures s.erased <= t.erased
    ensures s.next <= t.next
    decreases |s.blocks[b]| - k
  {
    if k == |s.blocks[b]| then s
    else Scan(Visit(s, b, k), b, VisitEnd(s, b, k) + 1)
  }

  lemma {:induction false} ScanUnfold(s: State, b: nat, k: nat)
    requires b < |s.blocks| && k < |s.blocks[b]|
    ensures Scan(s, b, k) == Scan(Visit(s, b, k), b, VisitEnd(s, b, k) + 1)
  {
  }

  /** The state after visiting the k-th instruction: rewritten when a rule fires on it, as it was otherwise. */
  function Visit(s: State, b: nat, k: nat): (t: State)
    requires b < |s.blocks| && k < |s.blocks[b]|
    ensures |t.blocks| == |s.blocks| && VisitEnd(s, b, k) < |t.blocks[b]|
    ensures |t.blocks[b]| - VisitEnd(s, b, k) == |s.blocks[b]| - k
    ensures s.erased <= t.erased && s.next <= t.next
  {
    if Fires(s.blocks[b][k], s.next) then Fire(s, b, k) else s
  }

  /** The position of the visited instruction afterwards: behind what the rule created in front of it. */
  function VisitEnd(s: State, b: nat, k: nat): nat
    requires b < |s.blocks| && k < |s.blocks[b]|
  {
    if Fires(s.blocks[b][k], s.next) then k + |Created(s, b, k)| else k
  }

  /** What the rule firing on the k-th instruction of block b creates. */
  function Created(s: State, b: nat, k: nat): seq<Value>
    requires b < |s.blocks| && k < |s.blocks[b]| && Fires(s.blocks[b][k], s.next)
  {
    TryRules(s.blocks[b][k], s.next).value.created
  }

  /**
   * One firing on the k-th instruction I of block b: the created instructions
   * go in front of I, every use of I is replaced, and I is queued for erasure.
   */
  function Fire(s: State, b: nat, k: nat): (t: State)
    requires b < |s.blocks| && k < |s.blocks[b]| && Fires(s.blocks[b][k], s.next)
    ensures |t.blocks| == |s.blocks| && |t.blocks[b]| == |s.blocks[b]| + |Created(s, b, k)|
    ensures t.erased == s.erased + {s.blocks[b][k].id} && t.next == s.next + |Created(s, b, k)|
  {
    var i := s.blocks[b][k];
    var rw := TryRules(i, s.next).value;
    State(Rauw(s.blocks[b := s.blocks[b][..k] + rw.created + s.blocks[b][k..]], i.id, rw.res), s.next + |rw.created|, s.erased + {i.id})
  }

  /** `runOnBasicBlock` as a whole: the walk, then the erasure of `toBeErased`. */
  ghost function BlockResult(s: State, b: nat): (t: State)
    requires b < |s.blocks|
    ensures |t.blocks| == |s.blocks|
  {
    var w := Scan(s, b, 0);
    State(w.blocks[b := EraseIds(w.blocks[b], w.erased)], w.next, w.erased)
  }

  /** `run`: every block in order, each starting with an empty `toBeErased`. */
  ghost function RunFrom(s: State, b: nat): (r: (State, bool))
    requires b <= |s.blocks|
    ensures |r.0.blocks| == |s.blocks|
    decreases |s.blocks| - b
  {
    if b == |s.blocks| then (s, false)
    else
      var t := BlockResult(State(s.blocks, s.next, {}), b);
      var (u, changed) := RunFrom(State(t.blocks, t.next, {}), b + 1);
      (u, changed || t.erased != {})
  }

  // ---------------------------------------------------------------------
  // Properties of the walk

  /** A walk over instructions on which no rule fires changes nothing. */
  lemma {:induction false} ScanQuiet(s: State, b: nat, k: nat)
    requires b < |s.blocks| && k <= |s.blocks[b]|
    requires forall j :: k <= j < |s.blocks[b]| ==> !Fires(s.blocks[b][j], s.next)
    ensures Scan(s, b, k) == s
    decreases |s.blocks[b]| - k
  {
    if k < |s.blocks[b]| {
      ScanQuiet(s, b, k + 1);
    }
  }

  /**
   * The walk erases something exactly when some rule fires on an instruction
   * of the block as it stood: everything before the first firing is left as
   * it was.
   */
  lemma {:induction false} ScanChangedIff(s: State, b: nat, k: nat)
    requires b < |s.blocks| && k <= |s.blocks[b]| && s.erased == {}
    ensures Scan(s, b, k).erased != {} <==> exists j :: k <= j < |s.blocks[b]| && Fires(s.blocks[b][j], s.next)
    decreases |s.blocks[b]| - k
  {
    if k < |s.blocks[b]| {
      if Fires(s.blocks[b][k], s.next) {
        assert s.blocks[b][k].id in Scan(Visit(s, b, k), b, VisitEnd(s, b, k) + 1).erased;
      } else {
        ScanChangedIff(s, b, k + 1);
      }
    }
  }

  /** Instructions that are not binary operators stay in the block through the walk. */
  lemma {:induction false} ScanKeepsOthers(s: State, b: nat, k: nat, e: Value)
    requires b < |s.blocks| && k <= |s.blocks[b]|
    requires e in s.blocks[b] && !e.Bin?
    ensures e in Scan(s, b, k).blocks[b]
    decreases |s.blocks[b]| - k
  {
    if k < |s.blocks[b]| {
      ScanUnfold(s, b, k);
      VisitKeepsOthers(s, b, k, e);
      ScanKeepsOthers(Visit(s, b, k), b, VisitEnd(s, b, k) + 1, e);
    }
  }

  lemma {:induction false} VisitKeepsOthers(s: State, b: nat, k: nat, e: Value)
    requires b < |s.blocks| && k < |s.blocks[b]|
    requires e in s.blocks[b] && !e.Bin?
    ensures e in Visit(s, b, k).blocks[b]
  {
    if Fires(s.blocks[b][k], s.next) {
      FireKeepsOthers(s, b, k, e);
    }
  }

  lemma {:induction false} FireKeepsOthers(s: State, b: nat, k: nat, e: Value)
    requires b < |s.blocks| && k < |s.blocks[b]| && Fires(s.blocks[b][k], s.next)
    requires e in s.blocks[b] && !e.Bin?
    ensures e in Fire(s, b, k).blocks[b]
  {
    var rw := TryRules(s.blocks[b][k], s.next).value;
    var nb := s.blocks[b][..k] + rw.created + s.blocks[b][k..];
    var j :| 0 <= j < |s.blocks[b]| && s.blocks[b][j] == e;
    var j' := if j < k then j else j + |rw.created|;
    assert nb[j'] == e;
    assert Fire(s, b, k).blocks[b][j'] == UseReplaced(e, s.blocks[b][k].id, rw.res);
  }

  /** `runOnBasicBlock` changes the block exactly when some rule fires on one of its instructions; otherwise nothing changes. */
  lemma {:induction false} BlockChangedIff(s: State, b: nat)
    requires b < |s.blocks| && s.erased == {}
    ensures BlockResult(s, b).erased != {} <==> exists j :: 0 <= j < |s.blocks[b]| && Fires(s.blocks[b][j], s.next)
    ensures BlockResult(s, b).erased == {} ==> BlockResult(s, b) == s
  {
    ScanChangedIff(s, b, 0);
    if BlockResult(s, b).erased == {} {
      ScanQuiet(s, b, 0);
      EraseNothing(s.blocks[b]);
    }
  }

  /** Erasing after the walk removes only binary operators: every other instruction survives `runOnBasicBlock`. */
  lemma {:induction false} BlockKeepsOthers(s: State, b: nat, e: Value)
    requires b < |s.blocks| && e in s.blocks[b] && !e.Bin?
    ensures e in BlockResult(s, b).blocks[b]
  {
    ScanKeepsOthers(s, b, 0, e);
  }

  /** Some rule fires on an instruction of block b or of a later block. */
  ghost predicate FiresFrom(s: State, b: nat) {
    exists i, j :: b <= i < |s.blocks| && 0 <= j < |s.blocks[i]| && Fires(s.blocks[i][j], s.next)
  }

  /** `run` reports a change exactly when some rule fires in some block. */
  lemma {:induction false} RunChangedIff(s: State, b: nat)
    requires b <= |s.blocks| && s.erased == {}
    ensures RunFrom(s, b).1 <==> FiresFrom(s, b)
    decreases |s.blocks| - b
  {
    if b < |s.blocks| {
      BlockChangedIff(s, b);
      if BlockResult(s, b).erased == {} {
        RunQuietStep(s, b);
        RunChangedIff(s, b + 1);
        QuietRowShift(s, b);
      } else {
        RunReportsBlock(s, b);
        var j :| 0 <= j < |s.blocks[b]| && Fires(s.blocks[b][j], s.next);
        assert b <= b < |s.blocks| && 0 <= j < |s.blocks[b]| && Fires(s.blocks[b][j], s.next);
        assert FiresFrom(s, b);
      }
    }
  }

  lemma {:induction false} RunQuietStep(s: State, b: nat)
    requires b < |s.blocks| && s.erased == {} && BlockResult(s, b) == s
    ensures RunFrom(s, b) == RunFrom(s, b + 1)
  {
  }

  lemma {:induction false} RunReportsBlock(s: State, b: nat)
    requires b < |s.blocks| && s.erased == {} && BlockResult(s, b).erased != {}
    ensures RunFrom(s, b).1
  {
  }

  lemma {:induction false} QuietRowShift(s: State, b: nat)
    requires b < |s.blocks|
    requires forall j :: 0 <= j < |s.blocks[b]| ==> !Fires(s.blocks[b][j], s.next)
    ensures FiresFrom(s, b) <==> FiresFrom(s, b + 1)
  {
  }

  /**
   * One `replaceAllUsesWith` step keeps every user's value, given the rule's
   * soundness: where the replaced instruction is defined, so is its replacement
   * and with the same value.
   */
  lemma {:induction false} UseReplacedRefines(e: Value, n: nat, d: Value, res: Value, env: Env)
    requires e.Bin? && DefinedAs(e.lhs, n, d) && DefinedAs(e.rhs, n, d)
    requires Refines(Eval(res, env), Eval(d, env))
    requires Eval(d, env).Some? ==> TypeOf(res) == TypeOf(d)
    ensures Refines(Eval(UseReplaced(e, n, res), env), Eval(e, env))
  {
    SubstRefines(e.lhs, n, d, res, env);
    SubstRefines(e.rhs, n, d, res, env);
  }

  // ---------------------------------------------------------------------
  // The pass on a function

  class Function {
    /** The instructions of each basic block, in order. */
    var blocks: seq<seq<Value>>
    /** The next id to give a created instruction. */
    var nextId: nat

    constructor (bs: seq<seq<Value>>, next: nat)
      ensures blocks == bs && nextId == next
    {
      blocks := bs;
      nextId := next;
    }

    /**
     * The body of the first loop of `runOnBasicBlock` on the k-th instruction
     * I: when a rule fires, insert what it created in front of I, replace all
     * uses of I, and queue I in `toBeErased`; `at` is I's new position.
     */
    method VisitInstruction(b: nat, k: nat, toBeErased: set<nat>) returns (at: nat, queued: set<nat>, instructionChanged: bool)
      requires b < |blocks| && k < |blocks[b]|
      modifies this
      ensures var s := State(old(blocks), old(nextId), toBeErased);
        instructionChanged == Fires(s.blocks[b][k], s.next)
        && State(blocks, nextId, queued) == Visit(s, b, k) && at == VisitEnd(s, b, k)
    {
      ghost var s := State(blocks, nextId, toBeErased);
      var i := blocks[b][k];
      at, queued, instructionChanged := k, toBeErased, false;
      if i.Bin? {
        var rw := TryRules(i, nextId);
        if rw.Some? {
          var created := rw.value.created;
          blocks := Rauw(blocks[b := blocks[b][..k] + created + blocks[b][k..]], i.id, rw.value.res);
          nextId := nextId + |created|;
          at := k + |created|;
          instructionChanged := true;
        }
      }
      if instructionChanged {
        queued := toBeErased + {i.id};
        assert State(blocks, nextId, queued) == Fire(s, b, k);
      }
    }

    /** The first loop of `runOnBasicBlock`: rewrite each binary instruction a rule fires on, queueing it in `toBeErased`. */
    method Walk(b: nat) returns (toBeErased: set<nat>, blockChanged: bool)
      requires b < |blocks|
      modifies this
      ensures State(blocks, nextId, toBeErased) == Scan(State(old(blocks), old(nextId), {}), b, 0)
      ensures blockChanged == (toBeErased != {})
    {
      ghost var start := State(blocks, nextId, {});
      toBeErased := {};
      blockChanged := false;
      var k: nat := 0;
      while k < |blocks[b]|
        invariant b < |blocks| && k <= |blocks[b]|
        invariant Scan(start, b, 0) == Scan(State(blocks, nextId, toBeErased), b, k)
        invariant blockChanged == (toBeErased != {})
        decreases |blocks[b]| - k
      {
        ScanUnfold(State(blocks, nextId, toBeErased), b, k);
        var instructionChanged;
        k, toBeErased, instructionChanged := VisitInstruction(b, k, toBeErased);
        blockChanged := blockChanged || instructionChanged;
        k := k + 1;
      }
    }

    /** The second loop of `runOnBasicBlock`: erase every queued instruction from block b. */
    method EraseQueued(b: nat, toBeErased: set<nat>)
      requires b < |blocks|
      modifies this
      ensures blocks == old(blocks)[b := EraseIds(old(blocks)[b], toBeErased)] && nextId == old(nextId)
    {
      ghost var scanned := blocks;
      EraseNothing(scanned[b]);
      assert toBeErased - toBeErased == {};
      assert scanned[b := scanned[b]] == scanned;
      var toErase := toBeErased;
      while toErase != {}
        invariant toErase <= toBeErased && nextId == old(nextId)
        invariant |blocks| == |scanned| && b < |blocks|
        invariant blocks == scanned[b := EraseIds(scanned[b], toBeErased - toErase)]
        decreases toErase
      {
        var n :| n in toErase;
        EraseIdsTwice(scanned[b], toBeErased - toErase, {n});
        assert (toBeErased - toErase) + {n} == toBeErased - (toErase - {n});
        blocks := blocks[b := EraseIds(blocks[b], {n})];
        toErase := toErase - {n};
      }
      assert toBeErased - toErase == toBeErased;
    }

    /** `LocalOpts::runOnBasicBlock` on block b. */
    method RunOnBasicBlock(b: nat) returns (blockChanged: bool)
      requires b < |blocks|
      modifies this
      ensures var t := BlockResult(State(old(blocks), old(nextId), {}), b);
        blocks == t.blocks && nextId == t.next && blockChanged == (t.erased != {})
    {
      var toBeErased;
      toBeErased, blockChanged := Walk(b);
      EraseQueued(b, toBeErased);
    }

    /** `LocalOpts::run`: every block once, in order; the result ORs the blocks' results. */
    method Run() returns (functionChanged: bool)
      modifies this
      ensures var r := RunFrom(State(old(blocks), old(nextId), {}), 0);
        blocks == r.0.blocks && nextId == r.0.next && functionChanged == r.1
    {
      ghost var start := State(blocks, nextId, {});
      functionChanged := false;
      var b := 0;
      while b < |blocks|
        invariant b <= |blocks|
        invariant var r := RunFrom(State(blocks, nextId, {}), b);
          RunFrom(start, 0) == (r.0, r.1 || functionChanged)
        decreases |blocks| - b
      {
        var c := RunOnBasicBlock(b);
        functionChanged := functionChanged || c;
        b := b + 1;
      }
    }
  }
}
