/** The decision rules of the range-check pass that consume ranges: the final "is the
    range inside the array" test, the ranges of small types, the maximum value of a
    limit and the overflow tests built on it, and the ranges that a binary operation
    with a constant second operand gets without looking at its first operand. */
module Bounds {
  import opened Int32
  import opened Limits
  import opened RangeOps
  import opened Ir

  /** `CORINFO_Array_MaxLength`, the largest length an array can have. */
  const ArrayMaxLength: int32 := 0x7FFF_FFC7
  /** The largest length a span can have. */
  const MaxSpanLength: int32 := 0x7FFF_FFFF

  // ---------------------------------------------------------------------------
  // GetRangeFromType

  /** The full value range of each small integer type; Unknown for every other type. */
  function GetRangeFromType(t: VarType): (r: Range)
    ensures t.TypUByte? ==> r == Range(Constant(0), Constant(255))
    ensures t.TypByte? ==> r == Range(Constant(-128), Constant(127))
    ensures t.TypUShort? ==> r == Range(Constant(0), Constant(65535))
    ensures t.TypShort? ==> r == Range(Constant(-32768), Constant(32767))
    ensures !(t.TypUByte? || t.TypByte? || t.TypUShort? || t.TypShort?) ==> r == UnknownRange
  {
    match t
    case TypUByte => Range(Constant(0), Constant(255))
    case TypByte => Range(Constant(-128), Constant(127))
    case TypUShort => Range(Constant(0), Constant(65535))
    case TypShort => Range(Constant(-32768), Constant(32767))
    case _ => UnknownRange
  }

  /** The value of a small type, read as a signed or unsigned integer of its width. */
  predicate FitsType(x: int, t: VarType) {
    match t
    case TypUByte => 0 <= x < 0x100
    case TypByte => -0x80 <= x < 0x80
    case TypUShort => 0 <= x < 0x1_0000
    case TypShort => -0x8000 <= x < 0x8000
    case _ => true
  }

  /** Every value of a type lies in the range of that type. */
  lemma GetRangeFromTypeSound(t: VarType, x: int, len: Lengths)
    requires FitsType(x, t)
    ensures Contains(GetRangeFromType(t), x, len)
  {
  }

  // ---------------------------------------------------------------------------
  // GetLimitMax, AddOverflows, MultiplyOverflows

  /** The length GetLimitMax assumes for `vn`: the allocated size when known, otherwise
      the largest array length, or the largest span length when vn is not an array
      length. */
  function LengthBound(store: ValueNumStore, vn: ValueNum): int32
  {
    var tmp := store.arrLength(vn);
    if tmp <= 0 then (if store.isArrLen(vn) then ArrayMaxLength else MaxSpanLength) else tmp
  }

  /** The largest value a limit allows: its constant, or the assumed length plus the
      constant for a length limit (nothing when that sum overflows); nothing for the
      other tags. */
  function GetLimitMax(store: ValueNumStore, limit: Limit): (r: Option<int32>)
    ensures limit.Constant? ==> r == Some(limit.cns)
    ensures limit.BinOpArray? ==>
      (r.Some? <==> InInt32(LengthBound(store, limit.vn) + limit.cns))
      && (r.Some? ==> r.value == LengthBound(store, limit.vn) + limit.cns)
    ensures !limit.HasConstant() ==> r == None
  {
    match limit
    case Constant(c) => Some(c)
    case BinOpArray(vn, c) =>
      var tmp := LengthBound(store, vn);
      IntAddOverflowsExact(tmp, c);
      if IntAddOverflows(tmp, c) then None else Some(tmp + c)
    case _ => None
  }

  /** The lengths respect what GetLimitMax assumes of them. */
  ghost predicate LengthsWithin(store: ValueNumStore, len: Lengths) {
    forall vn :: len(vn) <= LengthBound(store, vn)
  }

  /** The maximum bounds every value the limit admits from above. */
  lemma GetLimitMaxSound(store: ValueNumStore, limit: Limit, x: int, len: Lengths)
    requires LengthsWithin(store, len)
    requires AtMost(x, limit, len)
    requires GetLimitMax(store, limit).Some?
    ensures x <= GetLimitMax(store, limit).value
  {
    if limit.BinOpArray? {
      assert len(limit.vn) <= LengthBound(store, limit.vn);
    }
  }

  /** Overflow of an addition whose operands lie below the two limits: conservatively
      true when either maximum is not available. */
  predicate AddOverflows(store: ValueNumStore, limit1: Limit, limit2: Limit)
  {
    var max1 := GetLimitMax(store, limit1);
    var max2 := GetLimitMax(store, limit2);
    max1.None? || max2.None? || IntAddOverflows(max1.value, max2.value)
  }

  /** As AddOverflows, for signed multiplication. */
  predicate MultiplyOverflows(store: ValueNumStore, limit1: Limit, limit2: Limit)
  {
    var max1 := GetLimitMax(store, limit1);
    var max2 := GetLimitMax(store, limit2);
    max1.None? || max2.None? || MulOverflows(max1.value, max2.value)
  }

  /** When AddOverflows says no, the sum of values under the two limits stays at or
      below INT_MAX. */
  lemma AddOverflowsSound(store: ValueNumStore, limit1: Limit, limit2: Limit, x: int, y: int, len: Lengths)
    requires LengthsWithin(store, len)
    requires AtMost(x, limit1, len) && AtMost(y, limit2, len)
    requires !AddOverflows(store, limit1, limit2)
    ensures x + y <= INT_MAX
  {
    GetLimitMaxSound(store, limit1, x, len);
    GetLimitMaxSound(store, limit2, y, len);
    IntAddOverflowsExact(GetLimitMax(store, limit1).value, GetLimitMax(store, limit2).value);
  }

  /** When MultiplyOverflows says no, the product of non-negative values under the two
      limits stays at or below INT_MAX. */
  lemma MultiplyOverflowsSound(store: ValueNumStore, limit1: Limit, limit2: Limit, x: int, y: int, len: Lengths)
    requires LengthsWithin(store, len)
    requires 0 <= x && 0 <= y
    requires AtMost(x, limit1, len) && AtMost(y, limit2, len)
    requires !MultiplyOverflows(store, limit1, limit2)
    ensures x * y <= INT_MAX
  {
    GetLimitMaxSound(store, limit1, x, len);
    GetLimitMaxSound(store, limit2, y, len);
    ProductMonotone(x, GetLimitMax(store, limit1).value, y, GetLimitMax(store, limit2).value);
  }

  // ---------------------------------------------------------------------------
  // BetweenBounds

  /** The test on a lower limit `len + lcns`: does it subtract more from the length than
      the known size allows? `negLcns` is the value the source's `-lcns` takes. */
  function SubtractsTooMuch(lcns: int32, negLcns: int, arrSize: int32): bool
  {
    lcns >= 0 || negLcns > arrSize
  }

  /** The body of BetweenBounds, given how `-lcns` is evaluated: `wrap` evaluates it as
      32-bit two's-complement negation, where `-INT_MIN` is INT_MIN again. */
  function BetweenBoundsWith(range: Range, uLimitVN: ValueNum, uLimitIsCheckedBound: bool, arrSize: int32,
                             wrap: bool): bool
  {
    if arrSize <= 0 && !uLimitIsCheckedBound then false
    else match range.uLimit
      case BinOpArray(uvn, ucns) =>
        if uvn != uLimitVN then false
        else if ucns >= 0 then false
        else if range.lLimit.Constant? && range.lLimit.cns >= 0 then true
        else if arrSize <= 0 then false
        else (match range.lLimit
          case BinOpArray(lvn, lcns) =>
            if SubtractsTooMuch(lcns, var n: int := -(lcns as int); if wrap then Wrap32(n) else n, arrSize) then false
            else lvn == uLimitVN && lcns <= ucns
          case _ => false)
      case Constant(ucns) =>
        if arrSize <= 0 then false
        else if ucns >= arrSize then false
        else (match range.lLimit
          case Constant(lcns) => lcns >= 0 && lcns <= ucns
          case BinOpArray(lvn, lcns) =>
            if SubtractsTooMuch(lcns, var n: int := -(lcns as int); if wrap then Wrap32(n) else n, arrSize) then false
            else lvn == uLimitVN && arrSize + lcns <= ucns
          case _ => false)
      case _ => false
  }

  /** Is every value of `range` an index into the array whose length has value number
      `uLimitVN`? `arrSize` is the array's length when it is known, or <= 0;
      `uLimitIsCheckedBound` says whether uLimitVN is a checked bound. The negation of
      the lower limit's constant is exact here. */
  function BetweenBounds(range: Range, uLimitVN: ValueNum, uLimitIsCheckedBound: bool, arrSize: int32): bool
  {
    BetweenBoundsWith(range, uLimitVN, uLimitIsCheckedBound, arrSize, false)
  }

  /** BetweenBounds as the source evaluates it, with `-lcns` computed in 32 bits. */
  function BetweenBoundsAsWritten(range: Range, uLimitVN: ValueNum, uLimitIsCheckedBound: bool, arrSize: int32): bool
  {
    BetweenBoundsWith(range, uLimitVN, uLimitIsCheckedBound, arrSize, true)
  }

  /** The two agree except on a lower limit `len + INT_MIN`. */
  lemma BetweenBoundsAsWrittenAgrees(range: Range, uLimitVN: ValueNum, isCheckedBound: bool, arrSize: int32)
    requires !(range.lLimit.BinOpArray? && range.lLimit.cns == INT_MIN)
    ensures BetweenBoundsAsWritten(range, uLimitVN, isCheckedBound, arrSize)
        == BetweenBounds(range, uLimitVN, isCheckedBound, arrSize)
  {
  }

  /** With `-lcns` wrapping, the range [len + INT_MIN, len - 1] of an array of known
      size 10 is accepted, although it holds -1, which is not an index. */
  lemma BetweenBoundsAsWrittenAcceptsNegative()
    ensures var range := Range(BinOpArray(VN(0), INT_MIN), BinOpArray(VN(0), -1));
      var len: Lengths := _ => 10;
      BetweenBoundsAsWritten(range, VN(0), true, 10)
      && Contains(range, -1, len)
      && !BetweenBounds(range, VN(0), true, 10)
  {
    assert Wrap32(0x8000_0000) == INT_MIN;
  }

  /** `Multiply` scales only the constant of `len + c`: for `i * 2` with i in 0..len-1 it
      gives 0..len-2, which the bounds test accepts, although with a length of 10 and
      i = 9 the product 18 is past the end. The corrected multiplication leaves that upper
      end Unknown, so the check stays. */
  lemma MultiplyLengthOffsetUnsound()
    ensures var i := Range(Constant(0), BinOpArray(VN(0), -1));
      var len: Lengths := _ => 10;
      var r := Multiply(i, Single(Constant(2)));
      r == Range(Constant(0), BinOpArray(VN(0), -2))
      && BetweenBoundsAsWritten(r, VN(0), false, 10)
      && BetweenBounds(r, VN(0), false, 10)
      && Contains(i, 9, len) && !Contains(r, 9 * 2, len)
      && MultiplyNonNegative(i, Single(Constant(2))).uLimit.Unknown?
  {
  }

  /** With constant limits the test is exactly: a known size, the upper limit below it
      and a non-negative lower limit no greater than the upper one. */
  lemma BetweenBoundsConstant(lcns: int32, ucns: int32, uLimitVN: ValueNum, isCheckedBound: bool, arrSize: int32)
    ensures BetweenBounds(Range(Constant(lcns), Constant(ucns)), uLimitVN, isCheckedBound, arrSize)
        <==> arrSize > 0 && ucns < arrSize && 0 <= lcns <= ucns
  {
  }

  /** Without a known size the upper value number must be a checked bound; an upper
      limit `len + ucns` must be on the checked length with ucns < 0, and then a constant
      lower limit >= 0 suffices. */
  lemma BetweenBoundsSymbolic(range: Range, uLimitVN: ValueNum, isCheckedBound: bool, arrSize: int32)
    ensures arrSize <= 0 && !isCheckedBound ==> !BetweenBounds(range, uLimitVN, isCheckedBound, arrSize)
    ensures range.uLimit.BinOpArray? && BetweenBounds(range, uLimitVN, isCheckedBound, arrSize) ==>
      range.uLimit.vn == uLimitVN && range.uLimit.cns < 0
    ensures range.uLimit.BinOpArray? && range.uLimit.vn == uLimitVN && range.uLimit.cns < 0
      && range.lLimit.Constant? && range.lLimit.cns >= 0 && (arrSize > 0 || isCheckedBound)
      ==> BetweenBounds(range, uLimitVN, isCheckedBound, arrSize)
    ensures !range.uLimit.HasConstant() ==> !BetweenBounds(range, uLimitVN, isCheckedBound, arrSize)
  {
  }

  /** The check may go: when BetweenBounds holds, every value the range admits is an
      index into an array of length `len(uLimitVN)`, given that a positive `arrSize`
      never exceeds that length. */
  lemma BetweenBoundsSound(range: Range, uLimitVN: ValueNum, isCheckedBound: bool, arrSize: int32,
                           len: Lengths, x: int)
    requires arrSize > 0 ==> arrSize <= len(uLimitVN)
    requires BetweenBounds(range, uLimitVN, isCheckedBound, arrSize)
    requires Contains(range, x, len)
    ensures 0 <= x < len(uLimitVN)
  {
    var L := len(uLimitVN);
    match range.uLimit
    case BinOpArray(uvn, ucns) =>
      assert x <= L + ucns < L;
      if !(range.lLimit.Constant? && range.lLimit.cns >= 0) {
        assert range.lLimit.BinOpArray?;
        assert x >= L + range.lLimit.cns >= arrSize + range.lLimit.cns >= 0;
      }
    case Constant(ucns) =>
      assert x <= ucns < arrSize <= L;
      if range.lLimit.BinOpArray? {
        assert x >= L + range.lLimit.cns >= arrSize + range.lLimit.cns >= 0;
      }
  }

  // ---------------------------------------------------------------------------
  // ComputeRangeForBinOp: constant second operand

  /** The binary operators whose range the pass computes. */
  datatype BinOper = OpAdd | OpAnd | OpRsh | OpLsh | OpUMod | OpMul

  /** What the special cases decide: a range, or that the general computation from the
      operands' ranges takes over. */
  datatype SpecialCase = Decided(range: Range) | General

  /** The special cases of `&`, unsigned `%`, `>>` and `<<`: `op2Cns` is the second
      operand when it is an integer constant that fits in 32 bits, and `op1AndCns` the
      constant mask when the first operand is itself `x & cns`. */
  function ConstantOperandRange(oper: BinOper, op2Cns: Option<int32>, op1AndCns: Option<int32>): (r: SpecialCase)
    ensures oper.OpAdd? || oper.OpMul? ==> r == General
    ensures (oper.OpAnd? || oper.OpUMod? || oper.OpRsh? || oper.OpLsh?) && op2Cns.None? ==> r == Decided(UnknownRange)
    ensures oper.OpAnd? && op2Cns.Some? ==>
      r == Decided(if op2Cns.value >= 0 then Range(Constant(0), Constant(op2Cns.value)) else UnknownRange)
    ensures oper.OpUMod? && op2Cns.Some? ==>
      r == Decided(if op2Cns.value >= 1 then Range(Constant(0), Constant(op2Cns.value - 1))
                   else if op2Cns.value == INT_MIN then Range(Constant(0), Constant(INT_MAX))
                   else UnknownRange)
    ensures oper.OpRsh? && op2Cns.Some? && op1AndCns.Some? && op1AndCns.value >= 0 && 0 <= op2Cns.value < 32 ==>
      r == Decided(Range(Constant(0), Constant(Shr(op1AndCns.value, op2Cns.value))))
    ensures oper.OpLsh? && op2Cns.Some? && op1AndCns.Some? && op1AndCns.value >= 0 && 0 <= op2Cns.value < 32 ==>
      r == (if Shl(op1AndCns.value, op2Cns.value) >= 0
            then Decided(Range(Constant(0), Constant(Shl(op1AndCns.value, op2Cns.value))))
            else General)
    ensures ((oper.OpRsh? || oper.OpLsh?) && op2Cns.Some? &&
             !(op1AndCns.Some? && op1AndCns.value >= 0 && 0 <= op2Cns.value < 32)) ==> r == General
    ensures r.Decided? && r.range != UnknownRange ==>
      r.range.lLimit == Constant(0) && r.range.uLimit.Constant? && r.range.uLimit.cns >= 0
  {
    if oper.OpAdd? || oper.OpMul? then General
    else if op2Cns.None? then Decided(UnknownRange)
    else
      var c := op2Cns.value;
      var icon: int32 :=
        if oper.OpAnd? then c
        else if oper.OpUMod? then Wrap32(c - 1)
        else if op1AndCns.Some? && op1AndCns.value >= 0 && 0 <= c < 32 then
          (if oper.OpRsh? then Shr(op1AndCns.value, c) else Shl(op1AndCns.value, c))
        else -1;
      if icon >= 0 then Decided(Range(Constant(0), Constant(icon)))
      else if oper.OpAnd? || oper.OpUMod? then Decided(UnknownRange)
      else General
  }

  /** `x u% c` on 32-bit values: both operands read as unsigned. */
  function UMod(x: int32, c: int32): int
    requires c != 0
  {
    Unsigned(x) % Unsigned(c)
  }


  /** The range given to `x u% c` holds every remainder, INT_MIN read as 2^31 included. */
  lemma UModRangeSound(x: int32, c: int32, len: Lengths)
    requires c != 0
    requires ConstantOperandRange(OpUMod, Some(c), None) != Decided(UnknownRange)
    ensures Contains(ConstantOperandRange(OpUMod, Some(c), None).range, UMod(x, c), len)
  {
    var r := ConstantOperandRange(OpUMod, Some(c), None).range;
    if c == INT_MIN {
      assert Unsigned(c) == 0x8000_0000;
    } else {
      assert c >= 1 && Unsigned(c) == c;
    }
  }

  /** Bitwise AND of two naturals, bit by bit from the lowest. */
  function AndNat(a: nat, b: nat): nat
  {
    if a == 0 || b == 0 then 0 else 2 * AndNat(a / 2, b / 2) + (a % 2) * (b % 2)
  }

  /** Masking never produces more than the mask. */
  lemma {:induction false} AndNatBelow(a: nat, b: nat)
    ensures AndNat(a, b) <= b
  {
    if a != 0 && b != 0 {
      AndNatBelow(a / 2, b / 2);
    }
  }

  /** `x & c` on 32-bit two's-complement values, for a non-negative mask c: the bits of
      x read as unsigned, masked by c; the result has a clear sign bit. */
  function BitAnd(x: int32, c: int32): (r: int32)
    requires c >= 0
  {
    AndNatBelow(Unsigned(x), c);
    AndNat(Unsigned(x), c)
  }

  /** The range given to `x & c` for c >= 0 holds every masked value. */
  lemma AndRangeSound(x: int32, c: int32, len: Lengths)
    requires c >= 0
    ensures Contains(ConstantOperandRange(OpAnd, Some(c), None).range, BitAnd(x, c), len)
  {
    AndNatBelow(Unsigned(x), c);
  }

  /** `a` sets no bit that `b` leaves clear. */
  predicate BitsWithin(a: nat, b: nat)
    decreases a
  {
    a == 0 || ((a % 2 == 1 ==> b % 2 == 1) && BitsWithin(a / 2, b / 2))
  }

  /** A masked value sets only bits of the mask. */
  lemma {:induction false} AndNatWithin(a: nat, b: nat)
    ensures BitsWithin(AndNat(a, b), b)
  {
    if a != 0 && b != 0 {
      AndNatWithin(a / 2, b / 2);
      var r := AndNat(a, b);
      assert r % 2 == (a % 2) * (b % 2) && r / 2 == AndNat(a / 2, b / 2);
    }
  }

  lemma {:induction false} BitsWithinBelow(a: nat, b: nat)
    requires BitsWithin(a, b)
    ensures a <= b
  {
    if a != 0 {
      BitsWithinBelow(a / 2, b / 2);
    }
  }

  /** Shifting both left by the same count keeps the bits of one among the bits of the other. */
  lemma {:induction false} BitsWithinScale(a: nat, b: nat, k: nat)
    requires BitsWithin(a, b)
    ensures BitsWithin(a * Pow2(k), b * Pow2(k))
  {
    if k > 0 {
      BitsWithinScale(a, b, k - 1);
      var a', b' := a * Pow2(k - 1), b * Pow2(k - 1);
      assert a * Pow2(k) == 2 * a' && b * Pow2(k) == 2 * b';
      assert (2 * a') % 2 == 0 && (2 * a') / 2 == a' && (2 * b') / 2 == b';
    }
  }

  /** Keeping only the low n bits of both keeps the bits of one among the bits of the other. */
  lemma {:induction false} BitsWithinLow(a: nat, b: nat, n: nat)
    requires BitsWithin(a, b)
    ensures BitsWithin(a % Pow2(n), b % Pow2(n))
  {
    if n > 0 && a % Pow2(n) != 0 {
      BitsWithinLow(a / 2, b / 2, n - 1);
      ModPow2Split(a, n);
      ModPow2Split(b, n);
      var x, y := a % Pow2(n), b % Pow2(n);
      assert x % 2 == a % 2 && x / 2 == (a / 2) % Pow2(n - 1);
      assert y % 2 == b % 2 && y / 2 == (b / 2) % Pow2(n - 1);
    }
  }

  /** The range given to `(x & c1) >> c2` holds every such value. */
  lemma RshMaskSound(x: int32, c1: int32, c2: int32, len: Lengths)
    requires c1 >= 0 && 0 <= c2 < 32
    ensures ConstantOperandRange(OpRsh, Some(c2), Some(c1)).Decided?
    ensures Contains(ConstantOperandRange(OpRsh, Some(c2), Some(c1)).range, Shr(BitAnd(x, c1), c2), len)
  {
    AndNatBelow(Unsigned(x), c1);
    ShrMonotone(BitAnd(x, c1), c1, c2);
  }

  /** The range given to `(x & c1) << c2` holds every such value whenever the source
      decides one, that is whenever `c1 << c2`, wrapped to 32 bits, is not negative:
      the shifted value sets only bits of the shifted mask, so its sign bit is clear
      and it is no larger. */
  lemma LshMaskSound(x: int32, c1: int32, c2: int32, len: Lengths)
    requires c1 >= 0 && 0 <= c2 < 32
    requires ConstantOperandRange(OpLsh, Some(c2), Some(c1)).Decided?
    ensures Contains(ConstantOperandRange(OpLsh, Some(c2), Some(c1)).range, Shl(BitAnd(x, c1), c2), len)
  {
    var a := BitAnd(x, c1);
    AndNatWithin(Unsigned(x), c1);
    LowBitsBelow(a, c1, c2);
    WrapBelow(a * Pow2(c2), c1 * Pow2(c2));
  }

  /** Of two non-negative values, the one with the smaller low 32 bits wraps to the
      smaller 32-bit value, as long as the larger one wraps to a non-negative value. */
  lemma WrapBelow(v: nat, w: nat)
    requires v % 0x1_0000_0000 <= w % 0x1_0000_0000 && Wrap32(w) >= 0
    ensures 0 <= Wrap32(v) <= Wrap32(w)
  {
    Wrap32OfNat(v);
    Wrap32OfNat(w);
  }

  /** Shifting a value that sets only bits of the mask, and keeping 32 bits of each,
      leaves the value no larger than the mask. */
  lemma LowBitsBelow(a: nat, c: nat, k: nat)
    requires BitsWithin(a, c)
    ensures (a * Pow2(k)) % 0x1_0000_0000 <= (c * Pow2(k)) % 0x1_0000_0000
  {
    BitsWithinScale(a, c, k);
    Pow2Of31();
    assert Pow2(32) == 0x1_0000_0000;
    BitsWithinLow(a * Pow2(k), c * Pow2(k), 32);
    BitsWithinBelow((a * Pow2(k)) % Pow2(32), (c * Pow2(k)) % Pow2(32));
  }

  // ---------------------------------------------------------------------------
  // OptimizeRangeCheck: the checks removed without computing the index's range

  /** A constant index: with a positive size the check goes exactly when the index is
      in 0..arrSize-1. */
  predicate ConstantIndexInBounds(idxVal: int, arrSize: int32)
  {
    arrSize > 0 && idxVal < arrSize && idxVal >= 0
  }

  /** `arr[len + delta]` with a known lower bound of len: delta must be negative, above
      -CORINFO_Array_MaxLength, and no larger in magnitude than that lower bound. */
  predicate LengthPlusDeltaInBounds(lenLowerLimit: int32, delta: int32)
  {
    lenLowerLimit > 0 && delta < 0 && delta > -ArrayMaxLength && lenLowerLimit >= -delta
  }

  /** The constant index rule removes only checks of indices into the array, for any
      length that is at least the size used. */
  lemma ConstantIndexSound(idxVal: int, arrSize: int32, length: int)
    requires ConstantIndexInBounds(idxVal, arrSize)
    requires arrSize <= length
    ensures 0 <= idxVal < length
  {
  }

  /** The `len + delta` rule removes only checks of indices into the array: for every
      length at or above the lower bound, len + delta is an index. */
  lemma LengthPlusDeltaSound(lenLowerLimit: int32, delta: int32, length: int)
    requires LengthPlusDeltaInBounds(lenLowerLimit, delta)
    requires lenLowerLimit <= length
    ensures 0 <= length + delta < length
  {
  }

  /** `X u% len` is an index into an array of length len whenever len is not zero (a
      zero length makes the remainder throw before any access). */
  lemma UModLengthSound(x: int32, length: int32)
    requires length > 0
    ensures 0 <= UMod(x, length) < length
  {
    assert Unsigned(length) == length;
  }
}
