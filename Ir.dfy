/** What the range-check pass asks of the rest of the compiler, as plain data: the
    value-number store's answers about value numbers, the JIT's small integer types,
    and relational operators. The compiler structures behind them are not modelled. */
module Ir {
  import opened Int32
  import opened Limits

  datatype Option<T> = None | Some(value: T)

  /** The JIT types the pass distinguishes; every other type is `TypOther`. */
  datatype VarType = TypBool | TypUByte | TypByte | TypUShort | TypShort | TypInt | TypLong | TypULong | TypOther

  /** `varTypeIsSmall`: the types narrower than 32 bits. */
  predicate IsSmall(t: VarType) {
    t.TypBool? || t.TypUByte? || t.TypByte? || t.TypUShort? || t.TypShort?
  }

  /** The relational operators of compare nodes. */
  datatype Relop = LT | LE | GT | GE | EQ | NE

  /** `x op y` on mathematical integers. */
  predicate Holds(x: int, op: Relop, y: int) {
    match op
    case LT => x < y
    case LE => x <= y
    case GT => x > y
    case GE => x >= y
    case EQ => x == y
    case NE => x != y
  }

  /** `GenTree::ReverseRelop`: the operator of the negated comparison. */
  function ReverseRelop(op: Relop): (r: Relop)
    ensures forall x: int, y: int :: Holds(x, r, y) <==> !Holds(x, op, y)
  {
    match op
    case LT => GE
    case LE => GT
    case GT => LE
    case GE => LT
    case EQ => NE
    case NE => EQ
  }

  /** `GenTree::SwapRelop`: the operator of the comparison with its operands swapped. */
  function SwapRelop(op: Relop): (r: Relop)
    ensures forall x: int, y: int :: Holds(x, r, y) <==> Holds(y, op, x)
  {
    match op
    case LT => GT
    case LE => GE
    case GT => LT
    case GE => LE
    case EQ => EQ
    case NE => NE
  }

  /** The answers of the value-number store the pass relies on, one function per query. */
  datatype ValueNumStore = ValueNumStore(
    /** `GetArrLength`: the length of the array `new T[n]` whose length has this value
        number, or a value <= 0 when it is not known. */
    arrLength: ValueNum -> int32,
    /** `IsVNArrLen`: the value number is an array length (not a span length). */
    isArrLen: ValueNum -> bool,
    /** `IsVNCheckedBound`: the value number is a bound some check compares against. */
    isCheckedBound: ValueNum -> bool,
    /** `IsVNConstant`: the value number is a constant of any type. */
    isConstant: ValueNum -> bool,
    /** `IsVNInt32Constant` with `ConstantValue<int>`. */
    int32Constant: ValueNum -> Option<int32>
  )
}
