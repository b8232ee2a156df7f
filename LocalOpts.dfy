/**
 * The rewrite rules of the local peephole pass (`LocalOpts`): algebraic
 * identities, strength reduction of multiplication and signed division by a
 * constant, and cancellation of a constant added and subtracted again.
 *
 * Each rule looks at one binary instruction `I = op l, r` and either declines
 * (`None`) or yields the instructions it created in front of `I` and the
 * value that replaces every use of `I`.
 */
module LocalOpts {
  import opened Common
  import opened TwosComplement
  import opened LocalOptsIr

  /** Instructions created in front of `I`, in program order, and the value that replaces `I`. */
  datatype Rewrite = Rewrite(created: seq<Value>, res: Value)

  /** The APInt of a `ConstantInt`. */
  function ConstValue(c: Value): nat
    requires c.ConstInt?
  {
    Wrap(c.width, c.bits)
  }

  predicate IsZero(v: Value) { v.ConstInt? && ConstValue(v) == 0 }
  predicate IsOne(v: Value) { v.ConstInt? && ConstValue(v) == 1 }
  predicate IsMinusOne(v: Value) { v.ConstInt? && ConstValue(v) == Pow2(v.width) - 1 }

  /** `BinaryOperator::CreateNeg`: `sub 0, v` in the type of `v`. */
  function Neg(id: nat, v: Value, w: nat): Value {
    Bin(id, Sub, ConstInt(w, 0), v)
  }

  /** The created instructions carry consecutive new ids starting at `next` and the last of them is the result. */
  predicate FreshlyNumbered(rw: Rewrite, next: nat) {
    (forall i :: 0 <= i < |rw.created| ==> rw.created[i].Bin? && rw.created[i].id == next + i)
    && (rw.created != [] ==> rw.res == rw.created[|rw.created| - 1])
  }

  /** The sequence `created`, followed by its negation when `neg` holds. */
  function WithSign(neg: bool, created: seq<Value>, next: nat, w: nat): (rw: Rewrite)
    requires created != []
    requires forall i :: 0 <= i < |created| ==> created[i].Bin? && created[i].id == next + i
    ensures FreshlyNumbered(rw, next)
    ensures rw.res == if neg then Neg(next + |created|, created[|created| - 1], w) else created[|created| - 1]
  {
    var last := created[|created| - 1];
    if neg then Rewrite(created + [Neg(next + |created|, last, w)], Neg(next + |created|, last, w))
    else Rewrite(created, last)
  }

  // ---------------------------------------------------------------------
  // AlgebraicIdentityOpt2

  /** `x+0`, `0+x`, `x-0`, `x*1`, `1*x`, `x sdiv 1`, `x udiv 1` become `x`. */
  function AlgebraicIdentity(op: Opcode, l: Value, r: Value): (rw: Option<Rewrite>)
    ensures rw.Some? ==> rw.value.created == [] && (rw.value.res == l || rw.value.res == r)
    ensures rw.Some? ==> op in {Add, Sub, Mul, SDiv, UDiv}
  {
    match op
    case Add =>
      if IsZero(l) then Some(Rewrite([], r))
      else if IsZero(r) then Some(Rewrite([], l))
      else None
    case Sub => if IsZero(r) then Some(Rewrite([], l)) else None
    case Mul =>
      if IsOne(l) then Some(Rewrite([], r))
      else if IsOne(r) then Some(Rewrite([], l))
      else None
    case SDiv => if IsOne(r) then Some(Rewrite([], l)) else None
    case UDiv => if IsOne(r) then Some(Rewrite([], l)) else None
    case _ => None
  }

  /** `0 - x` is not an identity: the rule declines it unless x is itself zero. */
  lemma {:induction false} ZeroMinusNotIdentity(l: Value, r: Value)
    requires IsZero(l) && !IsZero(r)
    ensures AlgebraicIdentity(Sub, l, r).None?
  {
  }

  /** Every identity replaces `I` by a value that computes what `I` computes. */
  lemma {:induction false} AlgebraicIdentitySound(n: nat, op: Opcode, l: Value, r: Value, env: Env)
    requires AlgebraicIdentity(op, l, r).Some?
    ensures Refines(Eval(AlgebraicIdentity(op, l, r).value.res, env), Eval(Bin(n, op, l, r), env))
    ensures Eval(Bin(n, op, l, r), env).Some? ==>
      TypeOf(AlgebraicIdentity(op, l, r).value.res) == TypeOf(Bin(n, op, l, r))
  {
    var i := Bin(n, op, l, r);
    if Eval(i, env).Some? {
      EvalDefined(n, op, l, r, env);
      var w := TypeOf(l).width;
      if l.ConstInt? {
        EvalConst(l, env);
      }
      if r.ConstInt? {
        EvalConst(r, env);
      }
      IdentityArith(w, Eval(l, env).value);
      IdentityArith(w, Eval(r, env).value);
      if op == SDiv {
        SDivByOne(w, Eval(l, env).value);
      }
    }
  }

  /** Adding or subtracting zero, multiplying or dividing unsigned by one, on w-bit values. */
  lemma {:induction false} IdentityArith(w: nat, a: int)
    requires w >= 1 && 0 <= a < Pow2(w)
    ensures ApplyBinOp(Add, w, a, 0) == Some(a) && ApplyBinOp(Add, w, 0, a) == Some(a)
    ensures ApplyBinOp(Sub, w, a, 0) == Some(a)
    ensures ApplyBinOp(Mul, w, a, 1) == Some(a) && ApplyBinOp(Mul, w, 1, a) == Some(a)
    ensures ApplyBinOp(UDiv, w, a, 1) == Some(a)
  {
    WrapSmall(w, a);
  }

  /** Signed division by one, on w-bit values (in i1 the constant 1 reads as -1, and `-1 sdiv -1` overflows). */
  lemma {:induction false} SDivByOne(w: nat, a: int)
    requires w >= 1 && 0 <= a < Pow2(w)
    ensures ApplyBinOp(SDiv, w, a, 1).Some? ==> ApplyBinOp(SDiv, w, a, 1) == Some(a)
  {
    if w == 1 {
      assert Pow2(1) == 2 * Pow2(0);
      assert a == 0 || a == 1;
    } else {
      SignedOne(w);
      var s := ToSigned(w, a);
      ToSignedRange(w, a);
      assert TruncDiv(s, 1) == s;
      WrapSmall(w, a);
    }
  }

  /** In two or more bits the constant 1 reads as 1. */
  lemma {:induction false} SignedOne(w: nat)
    requires w >= 2
    ensures ToSigned(w, 1) == 1
  {
    Pow2Monotone(1, w - 1);
    assert Pow2(1) == 2 * Pow2(0);
    assert Pow2(w) == 2 * Pow2(w - 1);
    WrapSmall(w, 1);
  }

  // ---------------------------------------------------------------------
  // StrengthReductionOpt, multiplication

  /** The constant operand of a multiply with exactly one constant operand. */
  function MulConst(l: Value, r: Value): Value {
    if l.ConstInt? then l else r
  }

  /** The other operand, X. */
  function MulOther(l: Value, r: Value): Value {
    if l.ConstInt? then r else l
  }

  /** `|C|` as `APInt::abs` computes it. */
  function Magnitude(c: Value): nat
    requires c.ConstInt? && c.width >= 1
  {
    Abs(c.width, c.bits)
  }

  /**
   * The multiply reduction as the pass writes it: `X << log2|C|` when |C| is
   * a power of two, `(X << (log2|C| + 1)) - X` otherwise, negated when C < 0.
   */
  function MulStrengthReductionAsWritten(l: Value, r: Value, next: nat): (rw: Option<Rewrite>)
    ensures rw.Some? ==> l.ConstInt? != r.ConstInt?
    ensures rw.Some? ==> !IsZero(MulConst(l, r)) && !IsOne(MulConst(l, r)) && !IsMinusOne(MulConst(l, r))
    ensures rw.Some? ==> MulConst(l, r).width >= 1 && TypeOf(MulOther(l, r)).IntTy?
    ensures rw.Some? ==> FreshlyNumbered(rw.value, next) && rw.value.created != []
  {
    if l.ConstInt? == r.ConstInt? then None
    else
      var c, x := MulConst(l, r), MulOther(l, r);
      if IsZero(c) || IsOne(c) || IsMinusOne(c) then None
      else
        var k := Magnitude(c);
        var neg := IsNegative(c.width, c.bits);
        match TypeOf(x)
        case NonIntegerTy => None
        case IntTy(w) =>
          if IsPowerOf2(k) then
            Some(WithSign(neg, [Bin(next, Shl, x, ConstInt(w, Log2(k)))], next, w))
          else
            var sh := Bin(next, Shl, x, ConstInt(w, Log2(k) + 1));
            Some(WithSign(neg, [sh, Bin(next + 1, Sub, sh, x)], next, w))
  }

  /** The multiply reduction with the shift-and-subtract form kept to constants where it is exact. */
  function MulStrengthReduction(l: Value, r: Value, next: nat): (rw: Option<Rewrite>)
    ensures rw.Some? ==> rw == MulStrengthReductionAsWritten(l, r, next)
    ensures rw.Some? ==> IsPowerOf2(Magnitude(MulConst(l, r))) || IsPowerOf2(Magnitude(MulConst(l, r)) + 1)
  {
    var rw := MulStrengthReductionAsWritten(l, r, next);
    if rw.Some? && !IsPowerOf2(Magnitude(MulConst(l, r))) && !IsPowerOf2(Magnitude(MulConst(l, r)) + 1)
    then None
    else rw
  }

  /** Evaluating a binary operator whose operands are defined and of one type. */
  lemma {:induction false} EvalBin(id: nat, op: Opcode, l: Value, r: Value, env: Env)
    requires Eval(l, env).Some? && Eval(r, env).Some? && TypeOf(l) == TypeOf(r)
    ensures Eval(Bin(id, op, l, r), env) == ApplyBinOp(op, TypeOf(l).width, Eval(l, env).value, Eval(r, env).value)
  {
  }

  /** A defined binary operator has defined operands of one integer type, and applies its opcode to them. */
  lemma {:induction false} EvalDefined(id: nat, op: Opcode, l: Value, r: Value, env: Env)
    requires Eval(Bin(id, op, l, r), env).Some?
    ensures TypeOf(l) == TypeOf(r) && TypeOf(l).IntTy? && TypeOf(l).width >= 1
    ensures Eval(l, env).Some? && Eval(r, env).Some?
    ensures Eval(Bin(id, op, l, r), env) == ApplyBinOp(op, TypeOf(l).width, Eval(l, env).value, Eval(r, env).value)
  {
  }

  /** A defined multiply computes the product of its operands modulo 2^w. */
  lemma {:induction false} EvalMul(n: nat, l: Value, r: Value, env: Env)
    requires Eval(Bin(n, Mul, l, r), env).Some?
    ensures var x, c := MulOther(l, r), MulConst(l, r);
      c.ConstInt? ==> Eval(Bin(n, Mul, l, r), env) == Some(Wrap(c.width, Eval(x, env).value * ConstValue(c)))
  {
    var x, c := MulOther(l, r), MulConst(l, r);
    if c.ConstInt? {
      EvalDefined(n, Mul, l, r, env);
      EvalConst(c, env);
      MulArith(c.width, Eval(l, env).value, Eval(r, env).value);
    }
  }

  /** A w-bit multiplication wraps the product, in either operand order. */
  lemma {:induction false} MulArith(w: nat, a: int, b: int)
    requires w >= 1 && 0 <= a < Pow2(w) && 0 <= b < Pow2(w)
    ensures ApplyBinOp(Mul, w, a, b) == Some(Wrap(w, a * b)) == Some(Wrap(w, b * a))
  {
    assert a * b == b * a;
  }

  /** Shifting a defined w-bit value left by a constant below w. */
  lemma {:induction false} EvalShl(id: nat, x: Value, s: nat, env: Env)
    requires Eval(x, env).Some? && TypeOf(x).IntTy? && s < TypeOf(x).width
    ensures Eval(Bin(id, Shl, x, ConstInt(TypeOf(x).width, s)), env)
         == Some(Wrap(TypeOf(x).width, Eval(x, env).value * Pow2(s)))
  {
    var w := TypeOf(x).width;
    var xv := Eval(x, env).value;
    LessThanPow2(w);
    EvalSmallConst(w, s, env);
    ShlArith(w, xv, s);
    EvalBin(id, Shl, x, ConstInt(w, s), env);
  }

  lemma {:induction false} ShlArith(w: nat, xv: int, s: nat)
    requires w >= 1 && 0 <= xv < Pow2(w) && s < w && s < Pow2(w)
    ensures ApplyBinOp(Shl, w, xv, s) == Some(Wrap(w, xv * Pow2(s)))
  {
  }

  /** Negating a defined w-bit value. */
  lemma {:induction false} EvalNeg(id: nat, v: Value, w: nat, env: Env)
    requires Eval(v, env).Some? && TypeOf(v) == IntTy(w)
    ensures Eval(Neg(id, v, w), env) == Some(Wrap(w, 0 - Eval(v, env).value))
  {
    WrapSmall(w, 0);
  }

  /** Facts about |C| for a w-bit constant that is neither 0, 1 nor -1. */
  lemma {:induction false} MagnitudeFacts(c: Value)
    requires c.ConstInt? && c.width >= 1 && !IsZero(c) && !IsOne(c) && !IsMinusOne(c)
    ensures 2 <= Magnitude(c) <= Pow2(c.width - 1)
    ensures !IsNegative(c.width, c.bits) ==> Magnitude(c) == ConstValue(c)
    ensures IsNegative(c.width, c.bits) ==> Magnitude(c) == Pow2(c.width) - ConstValue(c)
    ensures !IsPowerOf2(Magnitude(c)) ==> Magnitude(c) < Pow2(c.width - 1)
  {
    var w := c.width;
    AbsBound(w, c.bits);
    assert Pow2(w) == 2 * Pow2(w - 1);
    Log2OfPow2(w - 1);
  }

  /** Negating `X * |C|` when C is negative gives `X * C`. */
  lemma {:induction false} SignedProduct(c: Value, last: Value, id: nat, xv: int, env: Env)
    requires c.ConstInt? && c.width >= 1 && !IsZero(c) && !IsOne(c) && !IsMinusOne(c)
    requires TypeOf(last) == IntTy(c.width)
    requires Eval(last, env) == Some(Wrap(c.width, xv * Magnitude(c)))
    ensures Eval(if IsNegative(c.width, c.bits) then Neg(id, last, c.width) else last, env)
         == Some(Wrap(c.width, xv * ConstValue(c)))
  {
    MagnitudeFacts(c);
    if IsNegative(c.width, c.bits) {
      EvalNeg(id, last, c.width, env);
      NegMulMagnitude(c.width, xv, ConstValue(c));
    }
  }

  /** `X << log2|C|` computes `X * |C|` when |C| is a power of two. */
  lemma {:induction false} ShiftProduct(x: Value, c: Value, id: nat, env: Env)
    requires c.ConstInt? && c.width >= 1 && !IsZero(c) && !IsOne(c) && !IsMinusOne(c)
    requires IsPowerOf2(Magnitude(c))
    requires Eval(x, env).Some? && TypeOf(x) == IntTy(c.width)
    ensures Eval(Bin(id, Shl, x, ConstInt(c.width, Log2(Magnitude(c)))), env)
         == Some(Wrap(c.width, Eval(x, env).value * Magnitude(c)))
  {
    var k := Magnitude(c);
    MagnitudeFacts(c);
    PowerOf2Log(k);
    Log2Below(k, c.width);
    EvalShl(id, x, Log2(k), env);
  }

  /** `(X << (log2|C| + 1)) - X` when |C| is not a power of two; the shift amount is below w. */
  lemma {:induction false} EvalShiftSub(x: Value, c: Value, id: nat, env: Env)
    requires c.ConstInt? && c.width >= 1 && !IsZero(c) && !IsOne(c) && !IsMinusOne(c)
    requires !IsPowerOf2(Magnitude(c))
    requires Eval(x, env).Some? && TypeOf(x) == IntTy(c.width)
    ensures 1 <= Log2(Magnitude(c)) + 1 < c.width
    ensures var s := Log2(Magnitude(c)) + 1;
      var sh := Bin(id, Shl, x, ConstInt(c.width, s));
      Eval(Bin(id + 1, Sub, sh, x), env)
        == Some(Wrap(c.width, Wrap(c.width, Eval(x, env).value * Pow2(s)) - Eval(x, env).value))
  {
    var w, k, xv := c.width, Magnitude(c), Eval(x, env).value;
    MagnitudeFacts(c);
    Log2Below(k, w - 1);
    var s := Log2(k) + 1;
    var sh := Bin(id, Shl, x, ConstInt(w, s));
    EvalShl(id, x, s, env);
    assert Eval(sh, env) == Some(Wrap(w, xv * Pow2(s)));
    EvalBin(id + 1, Sub, sh, x, env);
  }

  /** The shift created for `X * C`: by log2|C|, or by log2|C| + 1 when |C| is not a power of two. */
  function MulShift(l: Value, r: Value, next: nat): Value
    requires MulConst(l, r).ConstInt? && MulConst(l, r).width >= 1 && TypeOf(MulOther(l, r)).IntTy?
  {
    var c, x := MulConst(l, r), MulOther(l, r);
    var k := Magnitude(c);
    Bin(next, Shl, x, ConstInt(TypeOf(x).width, if IsPowerOf2(k) then Log2(k) else Log2(k) + 1))
  }

  /** The value the reduction computes before its sign is applied. */
  function MulUnsigned(l: Value, r: Value, next: nat): Value
    requires MulConst(l, r).ConstInt? && MulConst(l, r).width >= 1 && TypeOf(MulOther(l, r)).IntTy?
  {
    if IsPowerOf2(Magnitude(MulConst(l, r))) then MulShift(l, r, next)
    else Bin(next + 1, Sub, MulShift(l, r, next), MulOther(l, r))
  }

  /** The shape of the reduction's result: the shift (and subtract), negated when C is negative. */
  lemma {:induction false} MulAsWrittenShape(l: Value, r: Value, next: nat)
    requires MulStrengthReductionAsWritten(l, r, next).Some?
    ensures var c, u := MulConst(l, r), MulUnsigned(l, r, next);
      var last := if IsPowerOf2(Magnitude(c)) then next + 1 else next + 2;
      MulStrengthReductionAsWritten(l, r, next).value.res
        == if IsNegative(c.width, c.bits) then Neg(last, u, TypeOf(MulOther(l, r)).width) else u
  {
  }

  /**
   * The reduction of `X * C` is exact when |C| or |C| + 1 is a power of two;
   * the power-of-two case includes the minimum, whose magnitude is itself.
   */
  lemma {:induction false} MulAsWrittenExact(n: nat, l: Value, r: Value, next: nat, env: Env)
    requires MulStrengthReductionAsWritten(l, r, next).Some?
    requires IsPowerOf2(Magnitude(MulConst(l, r))) || IsPowerOf2(Magnitude(MulConst(l, r)) + 1)
    ensures Refines(Eval(MulStrengthReductionAsWritten(l, r, next).value.res, env), Eval(Bin(n, Mul, l, r), env))
  {
    if Eval(Bin(n, Mul, l, r), env).Some? {
      var c, x := MulConst(l, r), MulOther(l, r);
      var xv := Eval(x, env).value;
      EvalDefined(n, Mul, l, r, env);
      EvalMul(n, l, r, env);
      MulAsWrittenShape(l, r, next);
      UnsignedProduct(l, r, next, env);
      var last := if IsPowerOf2(Magnitude(c)) then next + 1 else next + 2;
      SignedProduct(c, MulUnsigned(l, r, next), last, xv, env);
    }
  }

  /** Before the sign, the reduction computes `X * |C|` when |C| or |C| + 1 is a power of two. */
  lemma {:induction false} UnsignedProduct(l: Value, r: Value, next: nat, env: Env)
    requires var c := MulConst(l, r); c.ConstInt? && c.width >= 1 && !IsZero(c) && !IsOne(c) && !IsMinusOne(c)
    requires IsPowerOf2(Magnitude(MulConst(l, r))) || IsPowerOf2(Magnitude(MulConst(l, r)) + 1)
    requires Eval(MulOther(l, r), env).Some? && TypeOf(MulOther(l, r)) == IntTy(MulConst(l, r).width)
    ensures TypeOf(MulUnsigned(l, r, next)) == IntTy(MulConst(l, r).width)
    ensures Eval(MulUnsigned(l, r, next), env)
         == Some(Wrap(MulConst(l, r).width, Eval(MulOther(l, r), env).value * Magnitude(MulConst(l, r))))
  {
    var c, x := MulConst(l, r), MulOther(l, r);
    var w, k, xv := c.width, Magnitude(c), Eval(x, env).value;
    MagnitudeFacts(c);
    if IsPowerOf2(k) {
      ShiftProduct(x, c, next, env);
    } else {
      ShiftSubProduct(x, c, next, env);
    }
  }

  /** `(X << (log2|C| + 1)) - X` is `X * |C|` when |C| + 1 is a power of two. */
  lemma {:induction false} ShiftSubProduct(x: Value, c: Value, id: nat, env: Env)
    requires c.ConstInt? && c.width >= 1 && !IsZero(c) && !IsOne(c) && !IsMinusOne(c)
    requires !IsPowerOf2(Magnitude(c)) && IsPowerOf2(Magnitude(c) + 1)
    requires Eval(x, env).Some? && TypeOf(x) == IntTy(c.width)
    ensures var sh := Bin(id, Shl, x, ConstInt(c.width, Log2(Magnitude(c)) + 1));
      Eval(Bin(id + 1, Sub, sh, x), env) == Some(Wrap(c.width, Eval(x, env).value * Magnitude(c)))
  {
    var k := Magnitude(c);
    MagnitudeFacts(c);
    EvalShiftSub(x, c, id, env);
    NextPowerOf2(k);
    ShiftSubIsProduct(c.width, Eval(x, env).value, k, Log2(k) + 1);
  }

  /**
   * Otherwise it is not: for X = 1 the shift-and-subtract form computes
   * `±(2^(log2|C| + 1) - 1)`, which differs from C.
   */
  lemma {:induction false} MulAsWrittenInexact(n: nat, l: Value, r: Value, next: nat, env: Env)
    requires MulStrengthReductionAsWritten(l, r, next).Some?
    requires !IsPowerOf2(Magnitude(MulConst(l, r))) && !IsPowerOf2(Magnitude(MulConst(l, r)) + 1)
    requires Eval(MulOther(l, r), env) == Some(1) && TypeOf(MulOther(l, r)) == TypeOf(MulConst(l, r))
    ensures Eval(Bin(n, Mul, l, r), env).Some?
    ensures Eval(MulStrengthReductionAsWritten(l, r, next).value.res, env) != Eval(Bin(n, Mul, l, r), env)
  {
    var c := MulConst(l, r);
    MulAtOne(n, l, r, env);
    ResultAtOne(l, r, next, env);
    AtOneDiffers(c);
  }

  /** What the shift-and-subtract form computes at X = 1: `2^s - 1` for s = log2|C| + 1, negated when C is negative. */
  function AtOne(c: Value): int
    requires c.ConstInt? && c.width >= 1
  {
    var w, s := c.width, Log2(Magnitude(c)) + 1;
    if IsNegative(w, c.bits) then Pow2(w) - (Pow2(s) - 1) else Pow2(s) - 1
  }

  /** At X = 1 the reduction computes AtOne(C). */
  lemma {:induction false} ResultAtOne(l: Value, r: Value, next: nat, env: Env)
    requires MulStrengthReductionAsWritten(l, r, next).Some?
    requires !IsPowerOf2(Magnitude(MulConst(l, r)))
    requires Eval(MulOther(l, r), env) == Some(1) && TypeOf(MulOther(l, r)) == TypeOf(MulConst(l, r))
    ensures Eval(MulStrengthReductionAsWritten(l, r, next).value.res, env) == Some(AtOne(MulConst(l, r)))
  {
    var c := MulConst(l, r);
    MulAsWrittenShape(l, r, next);
    ShiftSubAtOneEval(l, r, next, env);
    if IsNegative(c.width, c.bits) {
      EvalNeg(next + 2, MulUnsigned(l, r, next), c.width, env);
      NegatedBelow(c.width, Log2(Magnitude(c)) + 1);
    }
  }

  /** AtOne(C) is not C when neither |C| nor |C| + 1 is a power of two. */
  lemma {:induction false} AtOneDiffers(c: Value)
    requires c.ConstInt? && c.width >= 1 && !IsZero(c) && !IsOne(c) && !IsMinusOne(c)
    requires !IsPowerOf2(Magnitude(c)) && !IsPowerOf2(Magnitude(c) + 1)
    ensures AtOne(c) != ConstValue(c)
  {
    var w, k := c.width, Magnitude(c);
    MagnitudeFacts(c);
    Log2Below(k, w - 1);
    InexactArith(w, Log2(k) + 1, k, ConstValue(c), IsNegative(w, c.bits));
  }

  /** `2^s - 1`, or its negation when C is negative, is not C when |C| is not `2^s - 1`. */
  lemma {:induction false} InexactArith(w: nat, s: nat, k: nat, cv: int, neg: bool)
    requires 1 <= s < w && !IsPowerOf2(k + 1)
    requires !neg ==> k == cv
    requires neg ==> k == Pow2(w) - cv
    ensures (if neg then Pow2(w) - (Pow2(s) - 1) else Pow2(s) - 1) != cv
  {
    Log2OfPow2(s);
  }

  /** `X * C` at X = 1 is C. */
  lemma {:induction false} MulAtOne(n: nat, l: Value, r: Value, env: Env)
    requires l.ConstInt? != r.ConstInt? && MulConst(l, r).width >= 1
    requires Eval(MulOther(l, r), env) == Some(1) && TypeOf(MulOther(l, r)) == TypeOf(MulConst(l, r))
    ensures Eval(Bin(n, Mul, l, r), env) == Some(ConstValue(MulConst(l, r)))
  {
    var c := MulConst(l, r);
    EvalConst(c, env);
    EvalBin(n, Mul, l, r, env);
    EvalMul(n, l, r, env);
    WrapSmall(c.width, ConstValue(c));
  }

  /** At X = 1 the shift-and-subtract form computes `2^(log2|C| + 1) - 1`, and the shift is below w. */
  lemma {:induction false} ShiftSubAtOneEval(l: Value, r: Value, next: nat, env: Env)
    requires MulStrengthReductionAsWritten(l, r, next).Some?
    requires !IsPowerOf2(Magnitude(MulConst(l, r)))
    requires Eval(MulOther(l, r), env) == Some(1) && TypeOf(MulOther(l, r)) == TypeOf(MulConst(l, r))
    ensures var c := MulConst(l, r); var s := Log2(Magnitude(c)) + 1;
      1 <= s < c.width && TypeOf(MulUnsigned(l, r, next)) == IntTy(c.width)
      && Eval(MulUnsigned(l, r, next), env) == Some(Pow2(s) - 1)
  {
    var c, x := MulConst(l, r), MulOther(l, r);
    var w, s := c.width, Log2(Magnitude(c)) + 1;
    MagnitudeFacts(c);
    assert MulUnsigned(l, r, next) == Bin(next + 1, Sub, Bin(next, Shl, x, ConstInt(w, s)), x);
    EvalShiftSub(x, c, next, env);
    ShiftSubAtOne(w, s, Eval(x, env).value);
  }

  /** `-(2^s - 1)` in w bits, for 1 <= s < w. */
  lemma {:induction false} NegatedBelow(w: nat, s: nat)
    requires 1 <= s < w
    ensures Wrap(w, 0 - (Pow2(s) - 1)) == Pow2(w) - (Pow2(s) - 1)
  {
    Pow2Monotone(s, w);
    Pow2Monotone(0, s);
    WrapOfNegated(w, Pow2(s) - 1);
  }

  /** The smallest input that exposes the shift-and-subtract form: `X * 5` in i8 with X = 1. */
  lemma {:induction false} MulAsWrittenCounterexample()
    ensures var l, r := Opaque(0, IntTy(8)), ConstInt(8, 5);
      var env: Env := _ => 1;
      Eval(Bin(0, Mul, l, r), env) == Some(5)
      && Eval(MulStrengthReductionAsWritten(l, r, 1).value.res, env) == Some(7)
  {
    var l, r := Opaque(0, IntTy(8)), ConstInt(8, 5);
    var env: Env := _ => 1;
    assert Pow2(8) == 256;
    WrapSmall(8, 5);
    WrapSmall(8, 1);
    assert Log2(5) == 2;
    assert !IsPowerOf2(5) by { assert 5 % 2 == 1; }
    var sh := Bin(1, Shl, l, ConstInt(8, 3));
    EvalShl(1, l, 3, env);
    assert Pow2(3) == 8;
    WrapSmall(8, 8);
    WrapSmall(8, 7);
    EvalBin(2, Sub, sh, l, env);
    assert Eval(Bin(2, Sub, sh, l), env) == Some(7);
  }

  /** The corrected multiply reduction computes `X * C` whenever the multiply is defined. */
  lemma {:induction false} MulStrengthReductionSound(n: nat, l: Value, r: Value, next: nat, env: Env)
    requires MulStrengthReduction(l, r, next).Some?
    ensures Refines(Eval(MulStrengthReduction(l, r, next).value.res, env), Eval(Bin(n, Mul, l, r), env))
  {
    MulAsWrittenExact(n, l, r, next, env);
  }

  // ---------------------------------------------------------------------
  // StrengthReductionOpt, signed division

  /**
   * `X sdiv C` for |C| = 2^k: `((X + ((X >>a (w-1)) & (2^k-1))) >>a k)`,
   * negated when C < 0.
   */
  function SDivStrengthReduction(l: Value, r: Value, next: nat): (rw: Option<Rewrite>)
    ensures rw.Some? ==> r.ConstInt? && !l.ConstInt? && TypeOf(l).IntTy? && TypeOf(l).width >= 1
    ensures rw.Some? ==> !IsZero(r) && !IsOne(r) && !IsMinusOne(r) && r.width >= 1
    ensures rw.Some? ==> IsPowerOf2(Magnitude(r)) && Log2(Magnitude(r)) < TypeOf(l).width
    ensures rw.Some? ==> FreshlyNumbered(rw.value, next) && rw.value.created != []
  {
    if !r.ConstInt? || l.ConstInt? then None
    else
      match TypeOf(l)
      case NonIntegerTy => None
      case IntTy(w) =>
        if w == 0 then None
        else if IsZero(r) || IsOne(r) || IsMinusOne(r) then None
        else
          var k := Magnitude(r);
          if !IsPowerOf2(k) then None
          else
            var shift := Log2(k);
            if shift >= w then None
            else
              var sign := Bin(next, AShr, l, ConstInt(w, w - 1));
              var bias := Bin(next + 1, And, sign, ConstInt(w, Pow2(shift) - 1));
              var adj := Bin(next + 2, Add, l, bias);
              var quot := Bin(next + 3, AShr, adj, ConstInt(w, shift));
              Some(WithSign(IsNegative(r.width, r.bits), [sign, bias, adj, quot], next, w))
  }

  /** The bias the sign selects: 2^k - 1 for a negative X, zero otherwise. */
  function Bias(w: nat, xv: int, k: nat): nat
    requires w >= 1
  {
    if ToSigned(w, xv) < 0 then Pow2(k) - 1 else 0
  }

  /** The biased dividend's signed reading does not overflow: it is X plus the bias. */
  lemma {:induction false} BiasedDividend(w: nat, xv: int, k: nat)
    requires w >= 1 && 0 <= xv < Pow2(w) && k < w
    ensures ToSigned(w, Wrap(w, xv + Bias(w, xv, k))) == ToSigned(w, xv) + Bias(w, xv, k)
  {
    BiasBound(w, xv, k);
    AddWithoutOverflow(w, xv, Bias(w, xv, k));
  }

  /** The bias is zero for a non-negative dividend and below 2^(w-1) for a negative one. */
  lemma {:induction false} BiasBound(w: nat, xv: int, k: nat)
    requires w >= 1 && k < w
    ensures 0 <= Bias(w, xv, k) < Pow2(w - 1)
    ensures Bias(w, xv, k) != 0 ==> ToSigned(w, xv) < 0
  {
    Pow2Monotone(k, w - 1);
  }

  /** Adding nothing, or less than 2^(w-1) to a negative w-bit value, does not overflow. */
  lemma {:induction false} AddWithoutOverflow(w: nat, xv: int, b: int)
    requires w >= 1 && 0 <= xv < Pow2(w) && 0 <= b < Pow2(w - 1)
    requires b != 0 ==> ToSigned(w, xv) < 0
    ensures ToSigned(w, Wrap(w, xv + b)) == ToSigned(w, xv) + b
  {
    var sx := ToSigned(w, xv);
    ToSignedRange(w, xv);
    WrapSmall(w, xv);
    WrapAdd(w, sx, b);
    SignedRoundTrip(w, sx + b);
  }

  /** Shifting the biased dividend right by k divides X by 2^k, rounding toward zero. */
  lemma {:induction false} BiasedQuotient(w: nat, xv: int, k: nat)
    requires w >= 1 && 0 <= xv < Pow2(w) && k < w
    ensures ToSigned(w, Wrap(w, xv + Bias(w, xv, k))) / Pow2(k) == TruncDiv(ToSigned(w, xv), Pow2(k))
  {
    var sx := ToSigned(w, xv);
    BiasedDividend(w, xv, k);
    ToSignedRange(w, xv);
    TruncDivBiased(sx, Pow2(k));
  }

  /** `X >>a (w - 1)` is all ones for a negative X, zero otherwise. */
  lemma {:induction false} SignSplatArith(w: nat, xv: int)
    requires w >= 1 && 0 <= xv < Pow2(w) && w - 1 < Pow2(w)
    ensures ApplyBinOp(AShr, w, xv, w - 1) == Some(if ToSigned(w, xv) < 0 then Pow2(w) - 1 else 0)
  {
    SignSplat(w, xv);
  }

  /** The splat masked with 2^k - 1: the bias. */
  lemma {:induction false} BiasArith(w: nat, sv: int, mask: nat)
    requires w >= 1 && (sv == 0 || sv == Pow2(w) - 1) && mask < Pow2(w)
    ensures ApplyBinOp(And, w, sv, mask) == Some(if sv == 0 then 0 else mask)
  {
    if sv != 0 {
      AndAllOnes(w, mask);
    }
  }

  /** A constant of a width w >= 1 whose bits are already below 2^w evaluates to those bits. */
  lemma {:induction false} EvalSmallConst(w: nat, v: nat, env: Env)
    requires w >= 1 && v < Pow2(w)
    ensures Eval(ConstInt(w, v), env) == Some(v)
  {
    WrapSmall(w, v);
  }

  /**
   * The four created instructions compute `X sdiv |C|`: the sign splat, the
   * bias it selects, the biased dividend and its arithmetic shift.
   */
  lemma {:induction false} EvalBiasedShift(x: Value, w: nat, shift: nat, next: nat, env: Env)
    requires Eval(x, env).Some? && TypeOf(x) == IntTy(w) && shift < w
    ensures Eval(BiasedShift(x, w, shift, next), env)
         == Some(Wrap(w, TruncDiv(ToSigned(w, Eval(x, env).value), Pow2(shift))))
  {
    var xv := Eval(x, env).value;
    var bias := BiasTerm(x, w, shift, next);
    var adj := Bin(next + 2, Add, x, bias);
    EvalBias(x, w, shift, next, env);
    BiasedShiftArith(w, xv, shift);
    EvalBin(next + 2, Add, x, bias, env);
    EvalSmallConst(w, shift, env);
    EvalBin(next + 3, AShr, adj, ConstInt(w, shift), env);
  }

  /** The add and the shift on values: biasing then shifting right divides, rounding toward zero. */
  lemma {:induction false} BiasedShiftArith(w: nat, xv: int, shift: nat)
    requires w >= 1 && 0 <= xv < Pow2(w) && shift < w
    ensures shift < Pow2(w) && Bias(w, xv, shift) < Pow2(w)
    ensures ApplyBinOp(Add, w, xv, Bias(w, xv, shift)) == Some(Wrap(w, xv + Bias(w, xv, shift)))
    ensures ApplyBinOp(AShr, w, Wrap(w, xv + Bias(w, xv, shift)), shift)
         == Some(Wrap(w, TruncDiv(ToSigned(w, xv), Pow2(shift))))
  {
    LessThanPow2(w);
    Pow2Monotone(shift, w);
    var y := Wrap(w, xv + Bias(w, xv, shift));
    AShrValue(w, y, shift);
    BiasedQuotient(w, xv, shift);
  }

  lemma {:induction false} AShrValue(w: nat, y: nat, shift: nat)
    requires w >= 1 && y < Pow2(w) && shift < w && shift < Pow2(w)
    ensures ApplyBinOp(AShr, w, y, shift) == Some(Wrap(w, ToSigned(w, y) / Pow2(shift)))
  {
  }

  /** `(X ashr w-1) & (2^shift - 1)`, numbered from `next`. */
  function BiasTerm(x: Value, w: nat, shift: nat, next: nat): Value {
    Bin(next + 1, And, Bin(next, AShr, x, ConstInt(w, w - 1)), ConstInt(w, Pow2(shift) - 1))
  }

  /** The bias is `2^shift - 1` for a negative dividend and 0 otherwise. */
  lemma {:induction false} EvalBias(x: Value, w: nat, shift: nat, next: nat, env: Env)
    requires Eval(x, env).Some? && TypeOf(x) == IntTy(w) && shift < w
    ensures TypeOf(BiasTerm(x, w, shift, next)) == IntTy(w)
    ensures Eval(BiasTerm(x, w, shift, next), env) == Some(Bias(w, Eval(x, env).value, shift))
  {
    var xv := Eval(x, env).value;
    var sign := Bin(next, AShr, x, ConstInt(w, w - 1));
    SignBiasArith(w, xv, shift);
    EvalSign(x, w, next, env);
    EvalSmallConst(w, Pow2(shift) - 1, env);
    EvalBin(next + 1, And, sign, ConstInt(w, Pow2(shift) - 1), env);
  }

  /** `X ashr (w - 1)` splats the sign bit. */
  lemma {:induction false} EvalSign(x: Value, w: nat, next: nat, env: Env)
    requires Eval(x, env).Some? && TypeOf(x) == IntTy(w) && w >= 1
    ensures TypeOf(Bin(next, AShr, x, ConstInt(w, w - 1))) == IntTy(w)
    ensures Eval(Bin(next, AShr, x, ConstInt(w, w - 1)), env) == Some(SignSplatValue(w, Eval(x, env).value))
  {
    var xv := Eval(x, env).value;
    LessThanPow2(w);
    SignSplatArith(w, xv);
    EvalSmallConst(w, w - 1, env);
    EvalBin(next, AShr, x, ConstInt(w, w - 1), env);
  }

  /** All ones for a negative value, zero otherwise: what `X ashr (w - 1)` yields. */
  function SignSplatValue(w: nat, xv: int): nat
    requires w >= 1
  {
    if ToSigned(w, xv) < 0 then Pow2(w) - 1 else 0
  }

  /** The sign splat and the mask on values. */
  lemma {:induction false} SignBiasArith(w: nat, xv: int, shift: nat)
    requires w >= 1 && 0 <= xv < Pow2(w) && shift < w
    ensures w - 1 < Pow2(w) && Pow2(shift) - 1 < Pow2(w) && SignSplatValue(w, xv) < Pow2(w)
    ensures ApplyBinOp(AShr, w, xv, w - 1) == Some(SignSplatValue(w, xv))
    ensures ApplyBinOp(And, w, SignSplatValue(w, xv), Pow2(shift) - 1) == Some(Bias(w, xv, shift))
  {
    LessThanPow2(w);
    Pow2Monotone(shift, w);
    SignSplatArith(w, xv);
    BiasArith(w, SignSplatValue(w, xv), Pow2(shift) - 1);
  }

  /** The signed reading of a constant |C| = 2^k that is neither 0, 1 nor -1 is 2^k or -2^k. */
  lemma {:induction false} SignedDivisor(c: Value)
    requires c.ConstInt? && c.width >= 1 && !IsZero(c) && !IsOne(c) && !IsMinusOne(c)
    ensures ConstValue(c) != 0 && ConstValue(c) != Pow2(c.width) - 1
    ensures ToSigned(c.width, ConstValue(c)) == if IsNegative(c.width, c.bits) then -(Magnitude(c) as int) else Magnitude(c)
  {
    MagnitudeFacts(c);
    WrapSmall(c.width, ConstValue(c));
    assert Pow2(c.width) == 2 * Pow2(c.width - 1);
  }

  /** The quotient of the four created instructions, before the sign. */
  function SDivQuotient(l: Value, r: Value, next: nat): Value
    requires r.ConstInt? && r.width >= 1 && TypeOf(l).IntTy?
  {
    BiasedShift(l, TypeOf(l).width, Log2(Magnitude(r)), next)
  }

  /** `(X + ((X ashr w-1) & (2^shift - 1))) ashr shift`, numbered from `next`. */
  function BiasedShift(x: Value, w: nat, shift: nat, next: nat): Value {
    Bin(next + 3, AShr, Bin(next + 2, Add, x, BiasTerm(x, w, shift, next)), ConstInt(w, shift))
  }

  /** The shape of the reduction's result: the quotient, negated when C is negative. */
  lemma {:induction false} SDivShape(l: Value, r: Value, next: nat)
    requires SDivStrengthReduction(l, r, next).Some?
    ensures SDivStrengthReduction(l, r, next).value.res
      == if IsNegative(r.width, r.bits) then Neg(next + 4, SDivQuotient(l, r, next), TypeOf(l).width) else SDivQuotient(l, r, next)
  {
  }

  /** Negating the quotient by |C| gives the quotient by -|C|. */
  lemma {:induction false} NegQuotient(w: nat, sx: int, k: nat)
    requires k >= 1
    ensures Wrap(w, 0 - Wrap(w, TruncDiv(sx, k))) == Wrap(w, TruncDiv(sx, -(k as int)))
  {
    TruncDivNegDivisor(sx, k);
    WrapSub(w, 0, TruncDiv(sx, k));
  }

  /** The reduced signed division computes `X sdiv C`, rounding toward zero, whenever the division is defined. */
  lemma {:induction false} SDivStrengthReductionSound(n: nat, l: Value, r: Value, next: nat, env: Env)
    requires SDivStrengthReduction(l, r, next).Some?
    ensures Refines(Eval(SDivStrengthReduction(l, r, next).value.res, env), Eval(Bin(n, SDiv, l, r), env))
  {
    if Eval(Bin(n, SDiv, l, r), env).Some? {
      EvalDefined(n, SDiv, l, r, env);
      EvalConst(r, env);
      SDivResult(l, r, next, env);
      SDivArith(r.width, Eval(l, env).value, ConstValue(r));
    }
  }

  /** A defined w-bit `sdiv` divides the signed readings, rounding toward zero. */
  lemma {:induction false} SDivArith(w: nat, xv: int, cv: int)
    requires w >= 1 && 0 <= xv < Pow2(w) && 0 <= cv < Pow2(w)
    ensures ApplyBinOp(SDiv, w, xv, cv).Some? ==>
      ToSigned(w, cv) != 0 && ApplyBinOp(SDiv, w, xv, cv) == Some(Wrap(w, TruncDiv(ToSigned(w, xv), ToSigned(w, cv))))
  {
    WrapSmall(w, cv);
  }

  /** What the reduction computes: `X sdiv C`, the signed quotient rounded toward zero. */
  lemma {:induction false} SDivResult(l: Value, r: Value, next: nat, env: Env)
    requires SDivStrengthReduction(l, r, next).Some?
    requires Eval(l, env).Some? && r.width == TypeOf(l).width
    ensures ToSigned(r.width, ConstValue(r)) != 0
    ensures Eval(SDivStrengthReduction(l, r, next).value.res, env)
         == Some(Wrap(r.width, TruncDiv(ToSigned(r.width, Eval(l, env).value), ToSigned(r.width, ConstValue(r)))))
  {
    SignedDivisor(r);
    SDivShape(l, r, next);
    SignedQuotientEval(l, r, next, env);
  }

  /** The quotient by |C|, negated when C is negative, is `X sdiv ±|C|`. */
  lemma {:induction false} SignedQuotientEval(l: Value, r: Value, next: nat, env: Env)
    requires r.ConstInt? && r.width >= 1 && TypeOf(l) == IntTy(r.width)
    requires IsPowerOf2(Magnitude(r)) && Log2(Magnitude(r)) < r.width
    requires Eval(l, env).Some?
    ensures var q := SDivQuotient(l, r, next);
      var sx := ToSigned(r.width, Eval(l, env).value);
      Eval(if IsNegative(r.width, r.bits) then Neg(next + 4, q, r.width) else q, env)
        == Some(Wrap(r.width, TruncDiv(sx, if IsNegative(r.width, r.bits) then -(Magnitude(r) as int) else Magnitude(r))))
  {
    var w := r.width;
    var k := Magnitude(r);
    QuotientEval(l, r, next, env);
    if IsNegative(w, r.bits) {
      PowerOf2Log(k);
      EvalNeg(next + 4, SDivQuotient(l, r, next), w, env);
      NegQuotient(w, ToSigned(w, Eval(l, env).value), k);
    }
  }

  /** The four created instructions compute `X sdiv |C|`. */
  lemma {:induction false} QuotientEval(l: Value, r: Value, next: nat, env: Env)
    requires r.ConstInt? && r.width >= 1 && TypeOf(l).IntTy?
    requires IsPowerOf2(Magnitude(r)) && Log2(Magnitude(r)) < TypeOf(l).width
    requires Eval(l, env).Some?
    ensures TypeOf(SDivQuotient(l, r, next)) == TypeOf(l)
    ensures Eval(SDivQuotient(l, r, next), env)
         == Some(Wrap(TypeOf(l).width, TruncDiv(ToSigned(TypeOf(l).width, Eval(l, env).value), Magnitude(r))))
  {
    var k := Magnitude(r);
    PowerOf2Log(k);
    EvalBiasedShift(l, TypeOf(l).width, Log2(k), next, env);
    assert Pow2(Log2(k)) == k;
  }

  /** `StrengthReductionOpt`: multiplication and signed division only. */
  function StrengthReduction(op: Opcode, l: Value, r: Value, next: nat): (rw: Option<Rewrite>)
    ensures rw.Some? ==> op in {Mul, SDiv} && FreshlyNumbered(rw.value, next) && rw.value.created != []
  {
    match op
    case Mul => MulStrengthReductionAsWritten(l, r, next)
    case SDiv => SDivStrengthReduction(l, r, next)
    case _ => None
  }

  // ---------------------------------------------------------------------
  // MultiInstructionOpt

  /** `sameConst`: both are constants of one type with one value. */
  predicate SameConst(a: Value, b: Value) {
    a.ConstInt? && b.ConstInt? && a.width == b.width && ConstValue(a) == ConstValue(b)
  }

  /**
   * `(x + C) - C`, `(C + x) - C`, `C - (C - x)`, `(x - C) + C` and
   * `C + (x - C)` become `x`, for an integer-typed instruction.
   */
  function MultiInstruction(op: Opcode, l: Value, r: Value): (rw: Option<Rewrite>)
    ensures rw.Some? ==> rw.value.created == [] && TypeOf(l).IntTy? && op in {Add, Sub}
  {
    if !TypeOf(l).IntTy? then None
    else
      match op
      case Sub =>
        // (x + C) - C, the add normalised so that its constant is on the right
        var p1 :=
          if r.ConstInt? && l.Bin? && l.op == Add then
            var (il, ir) := if !l.rhs.ConstInt? && l.lhs.ConstInt? then (l.rhs, l.lhs) else (l.lhs, l.rhs);
            if ir.ConstInt? && SameConst(ir, r) then Some(Rewrite([], il)) else None
          else None;
        if p1.Some? then p1
        // C - (C - x)
        else if l.ConstInt? && r.Bin? && r.op == Sub && SameConst(r.lhs, l) then Some(Rewrite([], r.rhs))
        else None
      case Add =>
        // (x - C) + C, the constant moved to the right first
        var (inner, cout) := if l.ConstInt? then (r, l) else (l, r);
        if !cout.ConstInt? then None
        else if !inner.Bin? || inner.op != Sub then None
        else if !inner.rhs.ConstInt? then None
        else if SameConst(inner.rhs, cout) then Some(Rewrite([], inner.lhs))
        else None
      case _ => None
  }

  /** `(x + C) - C` and `(C + x) - C` compute x. */
  lemma {:induction false} AddSubCancels(n: nat, m: nat, x: Value, c: Value, d: Value, swapped: bool, env: Env)
    requires SameConst(c, d)
    ensures var inner := if swapped then Bin(m, Add, c, x) else Bin(m, Add, x, c);
      Refines(Eval(x, env), Eval(Bin(n, Sub, inner, d), env))
      && (Eval(Bin(n, Sub, inner, d), env).Some? ==> TypeOf(x) == TypeOf(Bin(n, Sub, inner, d)))
  {
    var inner := if swapped then Bin(m, Add, c, x) else Bin(m, Add, x, c);
    var i := Bin(n, Sub, inner, d);
    if Eval(i, env).Some? {
      EvalDefined(n, Sub, inner, d, env);
      if swapped {
        EvalDefined(m, Add, c, x, env);
      } else {
        EvalDefined(m, Add, x, c, env);
      }
      EvalConst(c, env);
      EvalConst(d, env);
      AddSubArith(c.width, ConstValue(c), Eval(x, env).value);
    }
  }

  lemma {:induction false} AddSubArith(w: nat, cv: int, xv: int)
    requires w >= 1 && 0 <= xv < Pow2(w) && 0 <= cv < Pow2(w)
    ensures ApplyBinOp(Sub, w, ApplyBinOp(Add, w, xv, cv).value, cv) == Some(xv)
    ensures ApplyBinOp(Sub, w, ApplyBinOp(Add, w, cv, xv).value, cv) == Some(xv)
  {
    WrapAdd(w, xv + cv, -cv);
    assert cv + xv == xv + cv;
    WrapSmall(w, xv);
  }

  lemma {:induction false} SubSubArith(w: nat, cv: int, xv: int)
    requires w >= 1 && 0 <= xv < Pow2(w) && 0 <= cv < Pow2(w)
    ensures ApplyBinOp(Sub, w, cv, ApplyBinOp(Sub, w, cv, xv).value) == Some(xv)
  {
    WrapSub(w, cv, cv - xv);
    assert cv - (cv - xv) == xv;
    WrapSmall(w, xv);
  }

  lemma {:induction false} EvalConst(c: Value, env: Env)
    requires c.ConstInt? && c.width >= 1
    ensures Eval(c, env) == Some(ConstValue(c))
  {
  }

  /** `C - (C - x)` computes x. */
  lemma {:induction false} SubSubCancels(n: nat, m: nat, x: Value, c: Value, d: Value, env: Env)
    requires SameConst(c, d)
    ensures Refines(Eval(x, env), Eval(Bin(n, Sub, d, Bin(m, Sub, c, x)), env))
    ensures Eval(Bin(n, Sub, d, Bin(m, Sub, c, x)), env).Some? ==> TypeOf(x) == TypeOf(d)
  {
    var inner := Bin(m, Sub, c, x);
    var i := Bin(n, Sub, d, inner);
    if Eval(i, env).Some? {
      EvalDefined(n, Sub, d, inner, env);
      EvalDefined(m, Sub, c, x, env);
      EvalConst(c, env);
      EvalConst(d, env);
      SubSubArith(c.width, ConstValue(c), Eval(x, env).value);
    }
  }

  /** `(x - C) + C` and `C + (x - C)` compute x. */
  lemma {:induction false} SubAddCancels(n: nat, m: nat, x: Value, c: Value, d: Value, swapped: bool, env: Env)
    requires SameConst(c, d)
    ensures var i := if swapped then Bin(n, Add, d, Bin(m, Sub, x, c)) else Bin(n, Add, Bin(m, Sub, x, c), d);
      Refines(Eval(x, env), Eval(i, env)) && (Eval(i, env).Some? ==> TypeOf(x) == TypeOf(i))
  {
    var inner := Bin(m, Sub, x, c);
    var i := if swapped then Bin(n, Add, d, inner) else Bin(n, Add, inner, d);
    if Eval(i, env).Some? {
      if swapped {
        EvalDefined(n, Add, d, inner, env);
      } else {
        EvalDefined(n, Add, inner, d, env);
      }
      EvalDefined(m, Sub, x, c, env);
      EvalConst(c, env);
      EvalConst(d, env);
      SubAddArith(c.width, ConstValue(c), Eval(x, env).value);
    }
  }

  lemma {:induction false} SubAddArith(w: nat, cv: int, xv: int)
    requires w >= 1 && 0 <= xv < Pow2(w) && 0 <= cv < Pow2(w)
    ensures ApplyBinOp(Add, w, ApplyBinOp(Sub, w, xv, cv).value, cv) == Some(xv)
    ensures ApplyBinOp(Add, w, cv, ApplyBinOp(Sub, w, xv, cv).value) == Some(xv)
  {
    WrapAdd(w, xv - cv, cv);
    assert cv + Wrap(w, xv - cv) == Wrap(w, xv - cv) + cv;
    WrapSmall(w, xv);
  }

  /** Every cancellation replaces `I` by a value that computes what `I` computes. */
  lemma {:induction false} MultiInstructionSound(n: nat, op: Opcode, l: Value, r: Value, env: Env)
    requires MultiInstruction(op, l, r).Some?
    ensures Refines(Eval(MultiInstruction(op, l, r).value.res, env), Eval(Bin(n, op, l, r), env))
    ensures Eval(Bin(n, op, l, r), env).Some? ==>
      TypeOf(MultiInstruction(op, l, r).value.res) == TypeOf(Bin(n, op, l, r))
  {
    if op == Sub && r.ConstInt? && l.Bin? && l.op == Add
       && (var (il, ir) := if !l.rhs.ConstInt? && l.lhs.ConstInt? then (l.rhs, l.lhs) else (l.lhs, l.rhs);
           ir.ConstInt? && SameConst(ir, r)) {
      var swapped := !l.rhs.ConstInt? && l.lhs.ConstInt?;
      if swapped {
        AddSubCancels(n, l.id, l.rhs, l.lhs, r, true, env);
      } else {
        AddSubCancels(n, l.id, l.lhs, l.rhs, r, false, env);
      }
    } else if op == Sub {
      SubSubCancels(n, r.id, r.rhs, r.lhs, l, env);
    } else if l.ConstInt? {
      SubAddCancels(n, r.id, r.lhs, r.rhs, l, true, env);
    } else {
      SubAddCancels(n, l.id, l.lhs, l.rhs, r, false, env);
    }
  }

  // ---------------------------------------------------------------------
  // The three rules in the order the driver tries them

  /**
   * The rules tried on one binary instruction, in the order of
   * `runOnBasicBlock`; the first that fires wins.
   */
  function TryRules(i: Value, next: nat): (rw: Option<Rewrite>)
    requires i.Bin?
    ensures rw.Some? ==> FreshlyNumbered(rw.value, next)
  {
    var identity := AlgebraicIdentity(i.op, i.lhs, i.rhs);
    if identity.Some? then identity
    else
      var reduced := StrengthReduction(i.op, i.lhs, i.rhs, next);
      if reduced.Some? then reduced
      else MultiInstruction(i.op, i.lhs, i.rhs)
  }

  /**
   * The chain reaches the multiply reduction as written with a constant
   * whose magnitude, and magnitude plus one, are not powers of two: the
   * one case where the rewrite is not exact.
   */
  predicate InexactMul(i: Value, next: nat)
    requires i.Bin?
  {
    i.op == Mul && AlgebraicIdentity(Mul, i.lhs, i.rhs).None?
    && MulStrengthReductionAsWritten(i.lhs, i.rhs, next).Some?
    && !IsPowerOf2(Magnitude(MulConst(i.lhs, i.rhs))) && !IsPowerOf2(Magnitude(MulConst(i.lhs, i.rhs)) + 1)
  }

  /** Outside the inexact multiply, whatever rule fires, the replacement computes what the instruction computes whenever it is defined. */
  lemma {:induction false} TryRulesSound(i: Value, next: nat, env: Env)
    requires i.Bin? && TryRules(i, next).Some? && !InexactMul(i, next)
    ensures Refines(Eval(TryRules(i, next).value.res, env), Eval(i, env))
  {
    if AlgebraicIdentity(i.op, i.lhs, i.rhs).Some? {
      AlgebraicIdentitySound(i.id, i.op, i.lhs, i.rhs, env);
    } else if StrengthReduction(i.op, i.lhs, i.rhs, next).Some? {
      if i.op == Mul {
        MulAsWrittenExact(i.id, i.lhs, i.rhs, next, env);
      } else {
        SDivStrengthReductionSound(i.id, i.lhs, i.rhs, next, env);
      }
    } else {
      MultiInstructionSound(i.id, i.op, i.lhs, i.rhs, env);
    }
  }

  /** In the inexact multiply the chain does fire, and at X = 1 its replacement computes something else. */
  lemma {:induction false} TryRulesUnsound(i: Value, next: nat, env: Env)
    requires i.Bin? && InexactMul(i, next)
    requires Eval(MulOther(i.lhs, i.rhs), env) == Some(1) && TypeOf(MulOther(i.lhs, i.rhs)) == TypeOf(MulConst(i.lhs, i.rhs))
    ensures TryRules(i, next).Some? && Eval(i, env).Some?
    ensures Eval(TryRules(i, next).value.res, env) != Eval(i, env)
  {
    MulAsWrittenInexact(i.id, i.lhs, i.rhs, next, env);
  }

  /** The chain with the corrected multiply reduction, which declines the inexact case (no later rule takes a multiply). */
  function TryRulesCorrected(i: Value, next: nat): (rw: Option<Rewrite>)
    requires i.Bin?
    ensures rw.Some? ==> rw == TryRules(i, next)
    ensures rw.None? <==> TryRules(i, next).None? || InexactMul(i, next)
  {
    if InexactMul(i, next) then None else TryRules(i, next)
  }

  /** Whatever rule of the corrected chain fires, the replacement refines the instruction. */
  lemma {:induction false} TryRulesCorrectedSound(i: Value, next: nat, env: Env)
    requires i.Bin? && TryRulesCorrected(i, next).Some?
    ensures Refines(Eval(TryRulesCorrected(i, next).value.res, env), Eval(i, env))
  {
    TryRulesSound(i, next, env);
  }
}
