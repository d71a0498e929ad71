/** Ranges (a lower and an upper Limit) and the arithmetic the range-check pass performs
    on them, together with what a range means: the set of int32 values it admits once
    each array length is known. */
module RangeOps {
  import opened Int32
  import opened Limits

  /** A range: `Range(limit)` in the source puts the same limit at both ends. */
  datatype Range = Range(lLimit: Limit, uLimit: Limit)

  function Single(l: Limit): (r: Range)
    ensures r.lLimit == l && r.uLimit == l
  {
    Range(l, l)
  }

  const UnknownRange: Range := Single(Unknown)

  // ---------------------------------------------------------------------------
  // Meaning of a range

  /** The run-time value of each value number: for the value number of an array's
      length, that length. */
  type Lengths = ValueNum -> int

  /** The value a limit denotes, when it denotes one: Undef, Dependent and Unknown
      constrain nothing. */
  predicate AtLeast(x: int, l: Limit, len: Lengths)
  {
    match l
    case Constant(c) => c <= x
    case BinOpArray(vn, c) => len(vn) + c <= x
    case _ => true
  }

  predicate AtMost(x: int, l: Limit, len: Lengths)
  {
    match l
    case Constant(c) => x <= c
    case BinOpArray(vn, c) => x <= len(vn) + c
    case _ => true
  }

  /** x is one of the values the range admits. */
  predicate Contains(r: Range, x: int, len: Lengths)
  {
    AtLeast(x, r.lLimit, len) && AtMost(x, r.uLimit, len)
  }

  predicate IsConstantRange(r: Range) {
    r.lLimit.Constant? && r.uLimit.Constant?
  }

  // ---------------------------------------------------------------------------
  // Limit helpers of RangeOps

  /** `value + cns`, or Unknown when the addition fails. */
  function AddConstantLimit(value: Limit, cns: Limit): Limit
    requires cns.Constant?
  {
    var (ok, l) := value.AddConstant(cns.cns);
    if ok then l else Unknown
  }

  /** `value * cns`, or Unknown when the multiplication fails. */
  function MultiplyConstantLimit(value: Limit, cns: Limit): Limit
    requires cns.Constant?
  {
    var (ok, l) := value.MultiplyConstant(cns.cns);
    if ok then l else Unknown
  }

  /** `value >> cns` for a constant value and a shift count in 0..31. */
  function ShiftRightConstantLimit(value: Limit, cns: Limit): Limit
    requires value.Constant? && cns.HasConstant() && 0 <= cns.cns <= 31
  {
    var (ok, l) := value.ShiftRightConstant(cns.cns);
    if ok then l else Unknown
  }

  // ---------------------------------------------------------------------------
  // Add

  /** Either end dependent makes the result end dependent; a constant on either side
      is added to the other side's limit, giving Unknown on overflow or failure. */
  function Add(r1: Range, r2: Range): Range
  {
    var lo0 := if r1.lLimit.Dependent? || r2.lLimit.Dependent? then Dependent else Unknown;
    var hi0 := if r1.uLimit.Dependent? || r2.uLimit.Dependent? then Dependent else Unknown;
    var lo1 := if r1.lLimit.Constant? then AddConstantLimit(r2.lLimit, r1.lLimit) else lo0;
    var lo := if r2.lLimit.Constant? then AddConstantLimit(r1.lLimit, r2.lLimit) else lo1;
    var hi1 := if r1.uLimit.Constant? then AddConstantLimit(r2.uLimit, r1.uLimit) else hi0;
    var hi := if r2.uLimit.Constant? then AddConstantLimit(r1.uLimit, r2.uLimit) else hi1;
    Range(lo, hi)
  }

  /** Adding the constant ranges [a, b] and [c, d] gives [a + c, b + d], an end whose
      sum overflows becoming Unknown. */
  lemma AddConstantRanges(a: int32, b: int32, c: int32, d: int32)
    ensures var r := Add(Range(Constant(a), Constant(b)), Range(Constant(c), Constant(d)));
            && r.lLimit == (if InInt32(a + c) then Constant(a + c) else Unknown)
            && r.uLimit == (if InInt32(b + d) then Constant(b + d) else Unknown)
  {
  }

  /** Add over-approximates addition: the sum of two admitted values is admitted. */
  lemma AddSound(r1: Range, r2: Range, x: int, y: int, len: Lengths)
    requires Contains(r1, x, len) && Contains(r2, y, len)
    ensures Contains(Add(r1, r2), x + y, len)
  {
    var r := Add(r1, r2);
    AddConstantLimitSound(r1.lLimit, r2.lLimit, x, y, len, true);
    AddConstantLimitSound(r1.uLimit, r2.uLimit, x, y, len, false);
  }

  lemma AddConstantLimitSound(l1: Limit, l2: Limit, x: int, y: int, len: Lengths, lower: bool)
    requires lower ==> AtLeast(x, l1, len) && AtLeast(y, l2, len)
    requires !lower ==> AtMost(x, l1, len) && AtMost(y, l2, len)
    ensures l1.Constant? ==> var l := AddConstantLimit(l2, l1);
      (lower ==> AtLeast(x + y, l, len)) && (!lower ==> AtMost(x + y, l, len))
    ensures l2.Constant? ==> var l := AddConstantLimit(l1, l2);
      (lower ==> AtLeast(x + y, l, len)) && (!lower ==> AtMost(x + y, l, len))
  {
  }

  // ---------------------------------------------------------------------------
  // Multiply

  /** The source's Multiply: the Add recipe with multiplication. It multiplies lower
      limit by lower limit and upper by upper, which bounds the product only when no
      operand can be negative. */
  function Multiply(r1: Range, r2: Range): Range
  {
    var lo0 := if r1.lLimit.Dependent? || r2.lLimit.Dependent? then Dependent else Unknown;
    var hi0 := if r1.uLimit.Dependent? || r2.uLimit.Dependent? then Dependent else Unknown;
    var lo1 := if r1.lLimit.Constant? then MultiplyConstantLimit(r2.lLimit, r1.lLimit) else lo0;
    var lo := if r2.lLimit.Constant? then MultiplyConstantLimit(r1.lLimit, r2.lLimit) else lo1;
    var hi1 := if r1.uLimit.Constant? then MultiplyConstantLimit(r2.uLimit, r1.uLimit) else hi0;
    var hi := if r2.uLimit.Constant? then MultiplyConstantLimit(r1.uLimit, r2.uLimit) else hi1;
    Range(lo, hi)
  }

  /** The as-written Multiply admits [0, 6] for x in [0, 2] times y in [-5, 3], but
      2 * -5 = -10 lies below it. */
  lemma MultiplyNegativeOperandUnsound()
    ensures var r := Multiply(Range(Constant(0), Constant(2)), Range(Constant(-5), Constant(3)));
            && r == Range(Constant(0), Constant(6))
            && Contains(Range(Constant(0), Constant(2)), 2, _ => 0)
            && Contains(Range(Constant(-5), Constant(3)), -5, _ => 0)
            && !Contains(r, 2 * -5, _ => 0)
  {
  }

  /** Multiply restricted to where it is right: both lower limits must be constants at
      least zero; the lower end is then the product of the lower limits and the upper
      end the product of two constant upper limits, Unknown on overflow. Elsewhere an
      end is Dependent when an operand end is, else Unknown. */
  function MultiplyNonNegative(r1: Range, r2: Range): (r: Range)
    ensures r.lLimit.Constant? ==> 0 <= r.lLimit.cns
  {
    var lo0 := if r1.lLimit.Dependent? || r2.lLimit.Dependent? then Dependent else Unknown;
    var hi0 := if r1.uLimit.Dependent? || r2.uLimit.Dependent? then Dependent else Unknown;
    if r1.lLimit.Constant? && r2.lLimit.Constant? && 0 <= r1.lLimit.cns && 0 <= r2.lLimit.cns then
      var lo := MultiplyConstantLimit(r1.lLimit, r2.lLimit);
      NonNegativeProduct(r1.lLimit.cns, r2.lLimit.cns);
      var hi := if r1.uLimit.Constant? && r2.uLimit.Constant?
                then MultiplyConstantLimit(r1.uLimit, r2.uLimit) else hi0;
      Range(lo, hi)
    else
      Range(lo0, hi0)
  }

  lemma NonNegativeProduct(a: int, b: int)
    requires 0 <= a && 0 <= b
    ensures 0 <= a * b
  {
  }

  /** MultiplyNonNegative over-approximates multiplication. */
  lemma MultiplyNonNegativeSound(r1: Range, r2: Range, x: int, y: int, len: Lengths)
    requires Contains(r1, x, len) && Contains(r2, y, len)
    ensures Contains(MultiplyNonNegative(r1, r2), x * y, len)
  {
    if r1.lLimit.Constant? && r2.lLimit.Constant? && 0 <= r1.lLimit.cns && 0 <= r2.lLimit.cns {
      var a, c := r1.lLimit.cns, r2.lLimit.cns;
      ProductMonotone(a, x, c, y);
      if r1.uLimit.Constant? && r2.uLimit.Constant? {
        ProductMonotone(x, r1.uLimit.cns, y, r2.uLimit.cns);
      }
    }
  }

  lemma ProductMonotone(a: int, b: int, c: int, d: int)
    requires 0 <= a <= b && 0 <= c <= d
    ensures a * c <= b * d
  {
    assert a * c <= b * c;
    assert b * c <= b * d;
  }

  // ---------------------------------------------------------------------------
  // ShiftRight

  /** The guard of the source's ShiftRight: it proceeds whenever both shift-count limits
      are constants at least zero, and then shifts a constant operand end by them. */
  predicate ShiftRightGuardAdmits(r1: Range, r2: Range)
  {
    r2.lLimit.Constant? && r2.uLimit.Constant? && 0 <= r2.lLimit.cns && 0 <= r2.uLimit.cns
  }

  /** The count the source then hands to `Limit::ShiftRightConstant`, whose contract
      admits 0..31 only, when the operand's lower end is constant. */
  lemma ShiftRightGuardAdmitsWideCount()
    ensures ShiftRightGuardAdmits(Range(Constant(0), Constant(100)), Range(Constant(40), Constant(40)))
    ensures !(0 <= Range(Constant(40), Constant(40)).lLimit.cns <= 31)
  {
  }

  /** ShiftRight with the count bounded as `ShiftRightConstant` requires: a shift-count
      range that is not constant, is negative or exceeds 31 gives Unknown; otherwise a
      dependent operand end stays dependent and a constant one is shifted. */
  function ShiftRight(r1: Range, r2: Range): (r: Range)
    ensures r1.lLimit.Constant? && r.lLimit.Constant? ==>
      (0 <= r1.lLimit.cns ==> 0 <= r.lLimit.cns <= r1.lLimit.cns)
    ensures r1.uLimit.Constant? && r.uLimit.Constant? ==>
      (0 <= r1.uLimit.cns ==> 0 <= r.uLimit.cns <= r1.uLimit.cns)
  {
    if !ShiftRightGuardAdmits(r1, r2) || r2.lLimit.cns > 31 || r2.uLimit.cns > 31 then
      UnknownRange
    else
      var lo := if r1.lLimit.Dependent? then Dependent
                else if r1.lLimit.Constant? then ShiftRightConstantLimit(r1.lLimit, r2.lLimit)
                else Unknown;
      var hi := if r1.uLimit.Dependent? then Dependent
                else if r1.uLimit.Constant? then ShiftRightConstantLimit(r1.uLimit, r2.uLimit)
                else Unknown;
      Range(lo, hi)
  }

  lemma {:induction false} ShrMonotone(x: int32, y: int32, k: nat)
    requires x <= y && k <= 31
    ensures Shr(x, k) <= Shr(y, k)
  {
    if k > 0 {
      ShrMonotone(x, y, k - 1);
    }
  }

  /** ShiftRight over-approximates `x >> c` for a single shift count c. */
  lemma ShiftRightSound(r1: Range, c: int32, x: int32, len: Lengths)
    requires 0 <= c <= 31
    requires Contains(r1, x, len)
    ensures Contains(ShiftRight(r1, Single(Constant(c))), Shr(x, c), len)
  {
    if r1.lLimit.Constant? {
      ShrMonotone(r1.lLimit.cns, x, c);
    }
    if r1.uLimit.Constant? {
      ShrMonotone(x, r1.uLimit.cns, c);
    }
  }

  // ---------------------------------------------------------------------------
  // Merge

  /** The phi join. Unknown absorbs; an Undef left side copies the right side; with
      `monIncreasing` a dependent lower end takes the other side's lower end; constants
      join to [min, max]; equal ends are kept; an upper end widens from a constant k >= 0
      to `len + n` when n >= k, and between two `len + n` on the same length to the
      larger n. */
  function Merge(r1: Range, r2: Range, monIncreasing: bool): Range
  {
    var r1lo, r1hi, r2lo, r2hi := r1.lLimit, r1.uLimit, r2.lLimit, r2.uLimit;
    // lower end
    var lo0 :=
      if r1lo.Unknown? || r2lo.Unknown? then Unknown
      else if r1lo.Undef? then r2lo
      else if r1lo.Dependent? || r2lo.Dependent? then
        (if monIncreasing then (if r1lo.Dependent? then r2lo else r1lo) else Dependent)
      else Unknown;
    // upper end
    var hi0 :=
      if r1hi.Unknown? || r2hi.Unknown? then Unknown
      else if r1hi.Undef? then r2hi
      else if r1hi.Dependent? || r2hi.Dependent? then Dependent
      else Unknown;
    var lo1 := if r1lo.Constant? && r2lo.Constant? then Constant(Min(r1lo.cns, r2lo.cns)) else lo0;
    var hi1 := if r1hi.Constant? && r2hi.Constant? then Constant(Max(r1hi.cns, r2hi.cns)) else hi0;
    var hi2 := if r2hi == r1hi then r2hi else hi1;
    var lo := if r2lo == r1lo then r1lo else lo1;
    var hi3 := if r1hi.Constant? && r1hi.cns >= 0 && r2hi.BinOpArray? && r2hi.cns >= r1hi.cns then r2hi else hi2;
    var hi4 := if r2hi.Constant? && r2hi.cns >= 0 && r1hi.BinOpArray? && r1hi.cns >= r2hi.cns then r1hi else hi3;
    var hi :=
      if r1hi.BinOpArray? && r2hi.BinOpArray? && r1hi.vn == r2hi.vn then
        (if r2hi.cns > r1hi.cns then r2hi else r1hi)
      else hi4;
    Range(lo, hi)
  }

  function Min(a: int32, b: int32): int32 { if a < b then a else b }
  function Max(a: int32, b: int32): int32 { if a < b then b else a }

  /** Unknown is the lattice top: an Unknown end on either side gives an Unknown end. */
  lemma MergeUnknownAbsorbs(r1: Range, r2: Range, monIncreasing: bool)
    ensures r1.lLimit.Unknown? || r2.lLimit.Unknown? ==> Merge(r1, r2, monIncreasing).lLimit.Unknown?
    ensures r1.uLimit.Unknown? || r2.uLimit.Unknown? ==> Merge(r1, r2, monIncreasing).uLimit.Unknown?
  {
  }

  /** Two constant ranges merge to [min of the lower ends, max of the upper ends]. */
  lemma MergeConstantRanges(a: int32, b: int32, c: int32, d: int32, monIncreasing: bool)
    ensures Merge(Range(Constant(a), Constant(b)), Range(Constant(c), Constant(d)), monIncreasing)
         == Range(Constant(if a < c then a else c), Constant(if b < d then d else b))
  {
  }

  /** With `monIncreasing`, a dependent lower end is replaced by the other side's lower
      end; without it the lower end stays dependent. */
  lemma MergeDependentLower(r1: Range, r2: Range, monIncreasing: bool)
    requires !r1.lLimit.Unknown? && !r2.lLimit.Unknown? && !r1.lLimit.Undef?
    ensures r1.lLimit.Dependent? && monIncreasing ==> Merge(r1, r2, monIncreasing).lLimit == r2.lLimit
    ensures r2.lLimit.Dependent? && monIncreasing ==> Merge(r1, r2, monIncreasing).lLimit == r1.lLimit
    ensures (r1.lLimit.Dependent? || r2.lLimit.Dependent?) && !monIncreasing ==>
      Merge(r1, r2, monIncreasing).lLimit.Dependent?
  {
  }

  /** The upper end widens to the array-length form: a constant k >= 0 against `len + n`
      with n >= k gives `len + n`; two `len + n` on the same length give the larger n. */
  lemma MergeWidensUpper(r1: Range, r2: Range, monIncreasing: bool)
    ensures r1.uLimit.Constant? && r1.uLimit.cns >= 0 && r2.uLimit.BinOpArray? && r2.uLimit.cns >= r1.uLimit.cns
      ==> Merge(r1, r2, monIncreasing).uLimit == r2.uLimit
    ensures r2.uLimit.Constant? && r2.uLimit.cns >= 0 && r1.uLimit.BinOpArray? && r1.uLimit.cns >= r2.uLimit.cns
      ==> Merge(r1, r2, monIncreasing).uLimit == r1.uLimit
    ensures r1.uLimit.BinOpArray? && r2.uLimit.BinOpArray? && r1.uLimit.vn == r2.uLimit.vn
      ==> Merge(r1, r2, monIncreasing).uLimit
          == BinOpArray(r1.uLimit.vn, Max(r1.uLimit.cns, r2.uLimit.cns))
  {
  }

  /** A phi starts from the all-Undef range, which is the identity of Merge. */
  lemma MergeUndefIdentity(r2: Range, monIncreasing: bool)
    ensures Merge(Single(Undef), r2, monIncreasing) == r2
  {
  }

  /** Without `monIncreasing`, Merge over-approximates the union of two ranges whose ends
      are all computed, the widening to `len + n` relying on lengths being non-negative. */
  lemma MergeSound(r1: Range, r2: Range, x: int, len: Lengths)
    requires !r1.lLimit.Undef? && !r1.uLimit.Undef? && !r2.lLimit.Undef? && !r2.uLimit.Undef?
    requires r1.uLimit.BinOpArray? ==> len(r1.uLimit.vn) >= 0
    requires r2.uLimit.BinOpArray? ==> len(r2.uLimit.vn) >= 0
    requires Contains(r1, x, len) || Contains(r2, x, len)
    ensures Contains(Merge(r1, r2, false), x, len)
  {
  }

  // ---------------------------------------------------------------------------
  // ConvertShiftToMultiply and Negate

  /** A shift-count range [lo, hi] with both ends in 1..31 becomes the multiplier range
      [1 << lo, 1 << hi] (1 << 31 wraps to INT_MIN); anything else is Unknown. */
  function ConvertShiftToMultiply(r1: Range): (r: Range)
    ensures r != UnknownRange <==>
      IsConstantRange(r1) && 1 <= r1.lLimit.cns <= 31 && 1 <= r1.uLimit.cns <= 31
    ensures r != UnknownRange ==>
      (IsConstantRange(r) && r.lLimit.cns == Shl(1, r1.lLimit.cns) && r.uLimit.cns == Shl(1, r1.uLimit.cns))
  {
    if !IsConstantRange(r1) then UnknownRange
    else if r1.lLimit.cns <= 0 || r1.lLimit.cns > 31 || r1.uLimit.cns <= 0 || r1.uLimit.cns > 31 then UnknownRange
    else Range(Constant(Shl(1, r1.lLimit.cns)), Constant(Shl(1, r1.uLimit.cns)))
  }

  /** The multiplier is 2^c for counts 1..30 and INT_MIN for 31. */
  lemma ShiftOfOne(c: nat)
    requires 1 <= c <= 31
    ensures c < 31 ==> Shl(1, c) == Pow2(c)
    ensures c == 31 ==> Shl(1, c) == INT_MIN
  {
    Pow2Monotone(c, 31);
    Pow2Of31();
    if c < 31 {
      Pow2Monotone(c, 30);
      assert Pow2(31) == 2 * Pow2(30);
    }
  }

  /** A constant range [lo, hi] with neither end INT_MIN becomes [-hi, -lo]; anything
      else is Unknown. */
  function Negate(range: Range): (r: Range)
    ensures r != UnknownRange <==>
      IsConstantRange(range) && range.lLimit.cns != INT_MIN && range.uLimit.cns != INT_MIN
    ensures r != UnknownRange ==> r == Range(Constant(-range.uLimit.cns), Constant(-range.lLimit.cns))
  {
    if !IsConstantRange(range) then UnknownRange
    else
      var hi, lo := range.uLimit.cns, range.lLimit.cns;
      if hi == INT_MIN || lo == INT_MIN then UnknownRange
      else Range(Constant(-hi), Constant(-lo))
  }

  /** Negate over-approximates negation. */
  lemma NegateSound(range: Range, x: int, len: Lengths)
    requires Contains(range, x, len)
    ensures Contains(Negate(range), -x, len)
  {
  }
}
