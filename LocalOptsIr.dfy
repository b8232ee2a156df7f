/**
 * The slice of LLVM IR that the peephole pass looks at: integer binary
 * operators whose operands are constants, opaque values (arguments, other
 * constants, non-binary instructions) or further binary operators, with the
 * w-bit semantics of the integer instructions.
 *
 * An operand is kept as the tree of definitions it is built from, so a rule
 * can look through an operand at its opcode and operands as the pass does
 * with `dyn_cast<BinaryOperator>`. Every binary operator carries the id of
 * the instruction it is.
 */
module LocalOptsIr {
  import opened Common
  import opened TwosComplement

  datatype Ty = IntTy(width: nat) | NonIntegerTy

  /** The integer binary opcodes of LLVM. */
  datatype Opcode = Add | Sub | Mul | UDiv | SDiv | URem | SRem | Shl | LShr | AShr | And | Or | Xor

  datatype Value =
    | ConstInt(width: nat, bits: int)         // a `ConstantInt` of type iW; its APInt is bits mod 2^W
    | Opaque(key: nat, ty: Ty)                // an argument, other constant or non-binary instruction
    | Bin(id: nat, op: Opcode, lhs: Value, rhs: Value)

  /** The type of a value; a binary operator has the type of its operands. */
  function TypeOf(v: Value): Ty {
    match v
    case ConstInt(w, _) => IntTy(w)
    case Opaque(_, t) => t
    case Bin(_, _, l, _) => TypeOf(l)
  }

  /** The run-time values of the opaque leaves. */
  type Env = nat -> int

  /**
   * One LLVM integer instruction on w-bit patterns. `None` is poison or
   * undefined behaviour: division by zero, signed overflow of `sdiv`/`srem`,
   * or a shift amount of at least w.
   */
  function ApplyBinOp(op: Opcode, w: nat, a: int, b: int): (r: Option<int>)
    requires w >= 1 && 0 <= a < Pow2(w) && 0 <= b < Pow2(w)
    ensures r.Some? ==> 0 <= r.value < Pow2(w)
  {
    match op
    case Add => Some(Wrap(w, a + b))
    case Sub => Some(Wrap(w, a - b))
    case Mul => Some(Wrap(w, a * b))
    case UDiv => if b == 0 then None else DivAtMost(a, b); Some(a / b)
    case URem => if b == 0 then None else Some(a % b)
    case SDiv =>
      WrapSmall(w, b);
      if b == 0 || (ToSigned(w, a) == -(Pow2(w - 1) as int) && ToSigned(w, b) == -1) then None
      else Some(Wrap(w, TruncDiv(ToSigned(w, a), ToSigned(w, b))))
    case SRem =>
      WrapSmall(w, b);
      if b == 0 || (ToSigned(w, a) == -(Pow2(w - 1) as int) && ToSigned(w, b) == -1) then None
      else Some(Wrap(w, TruncRem(ToSigned(w, a), ToSigned(w, b))))
    case Shl => if b >= w then None else Some(Wrap(w, a * Pow2(b)))
    case LShr => if b >= w then None else DivAtMost(a, Pow2(b)); Some(a / Pow2(b))
    case AShr => if b >= w then None else Some(Wrap(w, ToSigned(w, a) / Pow2(b)))
    case And => BitAndBound(a, b); Some(BitAnd(a, b))
    case Or => BitOrBound(w, a, b); Some(BitOr(a, b))
    case Xor => BitXorBound(w, a, b); Some(BitXor(a, b))
  }

  /**
   * Exactly these operand patterns are poison or undefined: a zero divisor,
   * the signed division of the minimum by minus one, an oversized shift.
   */
  lemma {:induction false} ApplyBinOpUndefined(op: Opcode, w: nat, a: int, b: int)
    requires w >= 1 && 0 <= a < Pow2(w) && 0 <= b < Pow2(w)
    ensures ApplyBinOp(op, w, a, b).None? <==>
      ((op == UDiv || op == URem) && b == 0) ||
      ((op == SDiv || op == SRem) && (b == 0 || (a == Pow2(w - 1) && b == Pow2(w) - 1))) ||
      ((op == Shl || op == LShr || op == AShr) && b >= w)
  {
    assert Pow2(w) == 2 * Pow2(w - 1);
    WrapSmall(w, a);
    WrapSmall(w, b);
  }

  /**
   * The value a tree computes, or `None` for poison, undefined behaviour or
   * an ill-typed tree (operands of different types, a non-integer type).
   */
  function Eval(v: Value, env: Env): (r: Option<int>)
    ensures r.Some? ==> TypeOf(v).IntTy? && TypeOf(v).width >= 1 && 0 <= r.value < Pow2(TypeOf(v).width)
  {
    match v
    case ConstInt(w, bits) => if w >= 1 then Some(Wrap(w, bits)) else None
    case Opaque(key, t) =>
      if t.IntTy? && t.width >= 1 then Some(Wrap(t.width, env(key))) else None
    case Bin(_, op, l, r) =>
      var t := TypeOf(l);
      if !t.IntTy? || t.width == 0 || TypeOf(r) != t then None
      else
        match (Eval(l, env), Eval(r, env))
        case (Some(a), Some(b)) => ApplyBinOp(op, t.width, a, b)
        case _ => None
  }

  /**
   * A replacement is correct for a use when it computes the same value
   * whenever the original is defined (it may only remove poison).
   */
  predicate Refines(replacement: Option<int>, original: Option<int>) {
    original.Some? ==> replacement == original
  }

  /** `v` with every binary operator whose id is `n` replaced by `res`. */
  function Subst(v: Value, n: nat, res: Value): (r: Value)
    ensures !v.Bin? ==> r == v
  {
    match v
    case Bin(id, op, l, rr) => if id == n then res else Bin(id, op, Subst(l, n, res), Subst(rr, n, res))
    case _ => v
  }

  /** Every binary operator inside `v` whose id is `n` is the tree `d`. */
  predicate DefinedAs(v: Value, n: nat, d: Value) {
    match v
    case Bin(id, _, l, r) => (id == n ==> v == d) && (id != n ==> DefinedAs(l, n, d) && DefinedAs(r, n, d))
    case _ => true
  }

  /**
   * Replacing a definition by a value that refines it refines every use:
   * the step `replaceAllUsesWith` takes, for one user.
   */
  lemma {:induction false} SubstRefines(v: Value, n: nat, d: Value, res: Value, env: Env)
    requires DefinedAs(v, n, d)
    requires Refines(Eval(res, env), Eval(d, env))
    requires Eval(d, env).Some? ==> TypeOf(res) == TypeOf(d)
    ensures Refines(Eval(Subst(v, n, res), env), Eval(v, env))
    ensures Eval(v, env).Some? ==> TypeOf(Subst(v, n, res)) == TypeOf(v)
  {
    match v
    case Bin(id, op, l, r) =>
      if id != n {
        SubstRefines(l, n, d, res, env);
        SubstRefines(r, n, d, res, env);
      }
    case _ =>
  }
}
