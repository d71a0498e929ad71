/** The symbolic bound `Limit` of the range-check pass: a bound is not yet computed
    (Undef), an array length plus a constant (BinOpArray), a constant, dependent on a
    value still being computed around a loop (Dependent), or impossible to determine
    (Unknown, the top of the lattice). */
module Limits {
  import opened Int32

  /** A value number of the JIT's value-number store, opaque here; `NoVN` is the
      reserved "no value number". */
  datatype ValueNum = NoVN | VN(id: nat)

  /** The tag of a limit, as stored in the `type` field of the source's struct. */
  datatype LimitType = KeUndef | KeBinOpArray | KeConstant | KeDependent | KeUnknown

  /** The value of a limit. The tags without payload carry no constant and no value
      number: in the source those fields are left uninitialised and never read. */
  datatype Limit =
    | Undef
    | BinOpArray(vn: ValueNum, cns: int32)   // length(vn) + cns
    | Constant(cns: int32)
    | Dependent
    | Unknown
  {
    /** The tag of this limit. */
    function Type(): LimitType {
      match this
      case Undef => KeUndef
      case BinOpArray(_, _) => KeBinOpArray
      case Constant(_) => KeConstant
      case Dependent => KeDependent
      case Unknown => KeUnknown
    }

    /** The `vn` field as the source reads it: a constant limit records `NoVN`. */
    function Vn(): ValueNum {
      if BinOpArray? then vn else NoVN
    }

    /** A limit whose `cns` field is meaningful. */
    predicate HasConstant() {
      BinOpArray? || Constant?
    }

    /** `AddConstant(i)` on a copy of this limit: the success flag and the limit afterwards.
        A dependent limit stays dependent and succeeds; an undefined or unknown limit fails;
        otherwise the constant moves by i unless the sum leaves the int32 range, in which
        case the limit is left as it was. */
    function AddConstant(i: int32): (r: (bool, Limit))
      ensures r.0 <==> Dependent? || (HasConstant() && InInt32(cns + i))
      ensures r.0 && HasConstant() ==> r.1.Type() == Type() && r.1.Vn() == Vn() && r.1.cns == cns + i
      ensures !r.0 || Dependent? ==> r.1 == this
    {
      IntAddOverflowsExact(if HasConstant() then cns else 0, i);
      match this
      case Dependent => (true, this)
      case BinOpArray(v, c) => if IntAddOverflows(c, i) then (false, this) else (true, BinOpArray(v, c + i))
      case Constant(c) => if IntAddOverflows(c, i) then (false, this) else (true, Constant(c + i))
      case _ => (false, this)
    }

    /** `MultiplyConstant(i)`: as AddConstant, for signed 32-bit multiplication. */
    function MultiplyConstant(i: int32): (r: (bool, Limit))
      ensures r.0 <==> Dependent? || (HasConstant() && InInt32(cns * i))
      ensures r.0 && HasConstant() ==> r.1.Type() == Type() && r.1.Vn() == Vn() && r.1.cns == cns * i
      ensures !r.0 || Dependent? ==> r.1 == this
    {
      match this
      case Dependent => (true, this)
      case BinOpArray(v, c) => if MulOverflows(c, i) then (false, this) else (true, BinOpArray(v, c * i))
      case Constant(c) => if MulOverflows(c, i) then (false, this) else (true, Constant(c * i))
      case _ => (false, this)
    }

    /** `ShiftRightConstant(i)` for a shift count in 0..31: an arithmetic shift never
        overflows, so it fails only on undefined and unknown limits, and it moves a
        constant toward zero without crossing it. */
    function ShiftRightConstant(i: int32): (r: (bool, Limit))
      requires 0 <= i <= 31
      ensures r.0 <==> !(Undef? || Unknown?)
      ensures r.1.Type() == Type() && r.1.Vn() == Vn()
      ensures HasConstant() && 0 <= cns ==> 0 <= r.1.cns <= cns
      ensures HasConstant() && cns < 0 ==> cns <= r.1.cns < 0
    {
      match this
      case Dependent => (true, this)
      case BinOpArray(v, c) => (true, BinOpArray(v, Shr(c, i)))
      case Constant(c) => (true, Constant(Shr(c, i)))
      case _ => (false, this)
    }
  }

  /** Adding a constant and then its negation gives the limit back. */
  lemma AddConstantInverse(l: Limit, i: int32)
    requires i != INT_MIN
    requires l.AddConstant(i).0
    ensures l.AddConstant(i).1.AddConstant(-i) == (true, l)
  {
  }

  /** A limit as the source's struct stores it in place: the tag and the two payload
      fields, which the mutators update and report success on. */
  class MutableLimit {
    var kind: LimitType
    var cns: int32
    var vn: ValueNum

    /** The limit these fields denote; fields that the tag leaves unused are ignored. */
    function Value(): (l: Limit)
      reads this
      ensures l.Type() == kind
    {
      match kind
      case KeUndef => Undef
      case KeBinOpArray => BinOpArray(vn, cns)
      case KeConstant => Constant(cns)
      case KeDependent => Dependent
      case KeUnknown => Unknown
    }

    /** The four constructors of the source: `Limit()` and `Limit(type)` leave `cns` and
        `vn` unset, `Limit(keConstant, cns)` records `NoVN`, `Limit(keBinOpArray, vn, cns)`
        records both. */
    constructor (l: Limit)
      ensures Value() == l
      ensures l.HasConstant() ==> cns == l.cns && vn == l.Vn()
    {
      kind := l.Type();
      match l
      case BinOpArray(v, c) =>
        cns, vn := c, v;
      case Constant(c) =>
        cns, vn := c, NoVN;
      case _ =>
        cns, vn := 0, NoVN;
    }

    method AddConstant(i: int32) returns (ok: bool)
      modifies this
      ensures (ok, Value()) == old(Value()).AddConstant(i)
      ensures kind == old(kind) && vn == old(vn)
      ensures !ok ==> cns == old(cns)
    {
      match kind
      case KeDependent =>
        ok := true;
      case KeBinOpArray =>
        ok := AddConstantInPlace(i);
      case KeConstant =>
        ok := AddConstantInPlace(i);
      case _ =>
        ok := false;
    }

    /** The shared `keBinOpArray`/`keConstant` arm of AddConstant. */
    method AddConstantInPlace(i: int32) returns (ok: bool)
      modifies this`cns
      ensures ok == !IntAddOverflows(old(cns), i)
      ensures cns == if ok then old(cns) + i else old(cns)
    {
      IntAddOverflowsExact(cns, i);
      if IntAddOverflows(cns, i) {
        return false;
      }
      cns := cns + i;
      return true;
    }

    method MultiplyConstant(i: int32) returns (ok: bool)
      modifies this
      ensures (ok, Value()) == old(Value()).MultiplyConstant(i)
      ensures kind == old(kind) && vn == old(vn)
      ensures !ok ==> cns == old(cns)
    {
      match kind
      case KeDependent =>
        ok := true;
      case KeBinOpArray =>
        ok := MultiplyConstantInPlace(i);
      case KeConstant =>
        ok := MultiplyConstantInPlace(i);
      case _ =>
        ok := false;
    }

    /** The shared `keBinOpArray`/`keConstant` arm of MultiplyConstant. */
    method MultiplyConstantInPlace(i: int32) returns (ok: bool)
      modifies this`cns
      ensures ok == !MulOverflows(old(cns), i)
      ensures cns == if ok then old(cns) * i else old(cns)
    {
      if MulOverflows(cns, i) {
        return false;
      }
      cns := cns * i;
      return true;
    }

    method ShiftRightConstant(i: int32) returns (ok: bool)
      requires 0 <= i <= 31
      modifies this
      ensures (ok, Value()) == old(Value()).ShiftRightConstant(i)
      ensures kind == old(kind) && vn == old(vn)
    {
      match kind
      case KeDependent =>
        ok := true;
      case KeBinOpArray =>
        cns := Shr(cns, i);
        ok := true;
      case KeConstant =>
        cns := Shr(cns, i);
        ok := true;
      case _ =>
        ok := false;
    }

    /** `Equals` on the raw fields: the tag alone for Undef, Unknown and Dependent, the
        constant for Constant (not `vn`), both constant and `vn` for BinOpArray. */
    predicate Equals(l: MutableLimit)
      reads this, l
      ensures Equals(l) <==> Value() == l.Value()
    {
      match kind
      case KeUndef => l.kind == kind
      case KeUnknown => l.kind == kind
      case KeDependent => l.kind == kind
      case KeBinOpArray => l.kind == kind && l.vn == vn && l.cns == cns
      case KeConstant => l.kind == kind && l.cns == cns
    }
  }

  /** Equals is reflexive and symmetric on stored limits, whatever the unused fields hold. */
  lemma EqualsReflexiveSymmetric(a: MutableLimit, b: MutableLimit)
    ensures a.Equals(a)
    ensures a.Equals(b) <==> b.Equals(a)
  {
  }
}
