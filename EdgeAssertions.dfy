/** MergeEdgeAssertions: tightening the range of a local with the assertions that hold on
    the edge into a block. Each assertion the value-number store can decode into
    "local relop limit" narrows one or both ends of the range. */
module EdgeAssertions {
  import opened Int32
  import opened Limits
  import opened RangeOps
  import opened Ir

  /** Whether the assertion states `op1 == op2` or `op1 != op2`; the other kinds of the
      assertion table never carry the forms below. */
  datatype AssertionKind = OakEqual | OakNotEqual

  /** The arithmetic operator on the bound in `i < len +/- cns`. */
  datatype ArrOper = ArrAdd | ArrSub | ArrOther

  /** An assertion as the value-number store decodes its first operand. */
  datatype AssertionForm =
      /** `(cmpOp cmpOper (vnBound arrOper arrOp))`, compared with op2. */
    | CheckedBoundArithBound(cmpOp: ValueNum, cmpOper: Relop, vnBound: ValueNum, arrOper: ArrOper, arrOp: ValueNum)
      /** `(cmpOp cmpOper vnBound)`, compared with op2. */
    | CheckedBoundBound(cmpOp: ValueNum, cmpOper: Relop, vnBound: ValueNum)
      /** `(cmpOp cmpOper constVal)`, signed or unsigned, compared with op2. */
    | ConstantBound(cmpOp: ValueNum, cmpOper: Relop, constVal: int32, isUnsigned: bool)
      /** `op1 == op2Value` or `op1 != op2Value` with op2 an int32 constant. */
    | ConstantInt32(op1: ValueNum, op2Value: int32)
    | OtherForm

  /** An assertion of the assertion table: its kind, whether its second operand is the
      int zero, and the decoded form of its first operand. */
  datatype Assertion = Assertion(kind: AssertionKind, op2IsZero: bool, form: AssertionForm)

  /** What one assertion says about the local: `local cmpOper limit`. */
  datatype Candidate = Candidate(limit: Limit, cmpOper: Relop, isConstantAssertion: bool, isUnsigned: bool)

  // ---------------------------------------------------------------------------
  // The steps applied to one assertion

  /** Reads an assertion as a relation between the local `lclVN` and a limit; None for
      an assertion that is about another value, of an unsupported form, or a
      compare-with-zero whose second operand is not zero. */
  function Decode(store: ValueNumStore, lclVN: ValueNum, a: Assertion): (r: Option<Candidate>)
    ensures r.Some? ==> r.value.limit.HasConstant()
    ensures r.Some? ==> (r.value.isConstantAssertion <==> a.form.ConstantInt32?)
    ensures r.Some? && !r.value.isConstantAssertion ==> a.op2IsZero
    ensures r.Some? && r.value.isUnsigned ==> a.form.ConstantBound? && a.form.isUnsigned
    ensures r.Some? && a.form.ConstantInt32? ==> a.form.op1 == lclVN
    ensures r.Some? && (a.form.CheckedBoundArithBound? || a.form.ConstantBound?) ==> a.form.cmpOp == lclVN
  {
    match a.form
    case CheckedBoundArithBound(cmpOp, op, bound, arrOper, arrOp) =>
      if lclVN != cmpOp || arrOper.ArrOther? || store.int32Constant(arrOp).None? then None
      else if !a.op2IsZero then None
      else
        var cons := store.int32Constant(arrOp).value;
        var n: int := -(cons as int);
        Some(Candidate(BinOpArray(bound, if arrOper.ArrSub? then Wrap32(n) else cons), op, false, false))
    case CheckedBoundBound(cmpOp, op, bound) =>
      var c :=
        if lclVN == cmpOp then Some(Candidate(BinOpArray(bound, 0), op, false, false))
        else if lclVN == bound then Some(Candidate(BinOpArray(cmpOp, 0), SwapRelop(op), false, false))
        else None;
      if c.Some? && !a.op2IsZero then None else c
    case ConstantBound(cmpOp, op, cns, isUnsigned) =>
      if lclVN != cmpOp || !a.op2IsZero then None
      else Some(Candidate(Constant(cns), op, false, isUnsigned))
    case ConstantInt32(op1, v) =>
      if op1 != lclVN then None
      else if v == 0 && a.kind.OakNotEqual? && store.isCheckedBound(op1) then Some(Candidate(Constant(1), GE, true, false))
      else if a.kind.OakEqual? then Some(Candidate(Constant(v), EQ, true, false))
      else None
    case OtherForm => None
  }

  /** `vn + cns` where vn is a known int32 constant becomes the constant limit, unless
      the sum overflows. */
  function Simplify(store: ValueNumStore, limit: Limit): (r: Limit)
    requires limit.HasConstant()
    ensures r.HasConstant()
    ensures r != limit ==>
      (limit.BinOpArray? && store.int32Constant(limit.vn).Some?
       && r.Constant? && r.cns == store.int32Constant(limit.vn).value + limit.cns)
  {
    if limit.BinOpArray? && store.int32Constant(limit.vn).Some? then
      var (ok, l) := Constant(store.int32Constant(limit.vn).value).AddConstant(limit.cns);
      if ok then l else limit
    else limit
  }

  /** The relation the assertion states: reversed for a "comparison is false"
      assertion. */
  function EffectiveRelop(c: Candidate, kind: AssertionKind): Relop
  {
    if kind.OakEqual? && !c.isConstantAssertion then ReverseRelop(c.cmpOper) else c.cmpOper
  }

  /** Makes the limit inclusive: `< l` becomes `<= l - 1` and `> l` becomes `>= l + 1`,
      keeping the relop's name; None when that adjustment overflows. */
  function Adjust(c: Candidate, kind: AssertionKind): (r: Option<Candidate>)
    requires c.limit.HasConstant()
    ensures r.None? <==>
      ((EffectiveRelop(c, kind) == LT && !InInt32(c.limit.cns - 1))
       || (EffectiveRelop(c, kind) == GT && !InInt32(c.limit.cns + 1)))
    ensures r.Some? ==>
      (r.value.cmpOper == EffectiveRelop(c, kind)
       && r.value.isUnsigned == c.isUnsigned && r.value.limit.HasConstant()
       && r.value.limit.Type() == c.limit.Type() && r.value.limit.Vn() == c.limit.Vn()
       && r.value.limit.cns == c.limit.cns + (if r.value.cmpOper == LT then -1 else if r.value.cmpOper == GT then 1 else 0))
  {
    var op := EffectiveRelop(c, kind);
    var delta: int32 := if op == LT then -1 else if op == GT then 1 else 0;
    if delta == 0 then Some(c.(cmpOper := op))
    else
      var (ok, l) := c.limit.AddConstant(delta);
      if ok then Some(c.(cmpOper := op, limit := l)) else None
  }

  /** Whether the assertion may change the range (otherwise it is skipped): a constant
      upper limit is kept unless the new limit is on the checked array's length
      `arrLenVN`, and an upper limit `arrLen + cns` is replaced only by a strictly
      smaller one on the same length. */
  function Tightens(range: Range, limit: Limit, arrLenVN: ValueNum): (r: bool)
    ensures r && range.uLimit.Constant? ==> limit.Vn() == arrLenVN
    ensures r && range.uLimit.BinOpArray? && range.uLimit.vn == arrLenVN ==>
      limit.Vn() == arrLenVN && (if limit.BinOpArray? then limit.cns else 0) < range.uLimit.cns
    ensures !(range.uLimit.Constant? || (range.uLimit.BinOpArray? && range.uLimit.vn == arrLenVN)) ==> r
  {
    if range.uLimit.Constant? && limit.Vn() != arrLenVN then false
    else if range.uLimit.BinOpArray? && range.uLimit.vn == arrLenVN then
      if limit.Vn() != arrLenVN then false
      else
        var limCns := if limit.BinOpArray? then limit.cns else 0;
        limCns < range.uLimit.cns
    else true
  }

  /** Puts the limit at the end(s) of the range its relop bounds. */
  function Apply(range: Range, c: Candidate): (r: Range)
    ensures c.cmpOper in {LT, LE} ==>
      r == Range(if c.isUnsigned then Constant(0) else range.lLimit, c.limit)
    ensures c.cmpOper in {GT, GE} ==> r == Range(c.limit, range.uLimit)
    ensures c.cmpOper == EQ ==> r == Single(c.limit)
    ensures c.cmpOper == NE ==> r == range
  {
    match c.cmpOper
    case LT => Range(if c.isUnsigned then Constant(0) else range.lLimit, c.limit)
    case LE => Range(if c.isUnsigned then Constant(0) else range.lLimit, c.limit)
    case GT => Range(c.limit, range.uLimit)
    case GE => Range(c.limit, range.uLimit)
    case EQ => Range(c.limit, c.limit)
    case NE => range
  }

  /** The array length of the bounds check being optimised, as limits record it: NoVN
      when it is a constant. */
  function ArrLenVN(store: ValueNumStore, curArrLenVN: ValueNum): ValueNum
  {
    if store.isConstant(curArrLenVN) then NoVN else curArrLenVN
  }

  /** One iteration of the loop over the assertions. */
  function Step(store: ValueNumStore, lclVN: ValueNum, curArrLenVN: ValueNum, range: Range, a: Assertion): Range
  {
    var d := Decode(store, lclVN, a);
    if d.None? then range
    else
      var c := d.value.(limit := Simplify(store, d.value.limit));
      var adj := Adjust(c, a.kind);
      if adj.None? then range
      else if !Tightens(range, adj.value.limit, ArrLenVN(store, curArrLenVN)) then range
      else Apply(range, adj.value)
  }

  /** The range after the first |s| assertions, in order. */
  function MergeAll(store: ValueNumStore, lclVN: ValueNum, curArrLenVN: ValueNum, range: Range, s: seq<Assertion>): Range
  {
    if |s| == 0 then range
    else Step(store, lclVN, curArrLenVN, MergeAll(store, lclVN, curArrLenVN, range, s[..|s| - 1]), s[|s| - 1])
  }

  /** Walks the assertions in order, tightening `range` with each one that applies;
      nothing changes for a local without a value number. */
  method MergeEdgeAssertions(store: ValueNumStore, lclVN: ValueNum, curArrLenVN: ValueNum,
                             assertions: seq<Assertion>, range: Range) returns (r: Range)
    ensures lclVN == NoVN ==> r == range
    ensures lclVN != NoVN ==> r == MergeAll(store, lclVN, curArrLenVN, range, assertions)
  {
    r := range;
    if |assertions| == 0 || lclVN == NoVN {
      return;
    }
    var i := 0;
    while i < |assertions|
      invariant 0 <= i <= |assertions|
      invariant r == MergeAll(store, lclVN, curArrLenVN, range, assertions[..i])
    {
      assert assertions[..i + 1][..i] == assertions[..i];
      r := Step(store, lclVN, curArrLenVN, r, assertions[i]);
      i := i + 1;
    }
    assert assertions[..i] == assertions;
  }

  // ---------------------------------------------------------------------------
  // Soundness: under assertions that hold, tightening keeps the local's value

  /** `vals` agrees with the store: int32 values, the store's int32 constants, and
      non-negative checked bounds (they are lengths). */
  ghost predicate Consistent(store: ValueNumStore, vals: Lengths)
  {
    (forall vn :: InInt32(vals(vn)))
    && (forall vn :: store.int32Constant(vn).Some? ==> vals(vn) == store.int32Constant(vn).value)
    && (forall vn :: store.isCheckedBound(vn) ==> vals(vn) >= 0)
  }

  /** The truth of a compare-with-zero assertion whose compare evaluates to `cmp`. */
  predicate CompareAssertion(kind: AssertionKind, cmp: bool)
  {
    match kind
    case OakEqual => !cmp
    case OakNotEqual => cmp
  }

  /** What the assertion says about the run-time values `vals`, compares done on 32-bit
      values (an unsigned compare reads both sides as unsigned). */
  ghost predicate AssertionHolds(store: ValueNumStore, a: Assertion, vals: Lengths)
    requires Consistent(store, vals)
  {
    match a.form
    case CheckedBoundArithBound(cmpOp, op, bound, arrOper, arrOp) =>
      var rhs := if arrOper.ArrAdd? then vals(bound) + vals(arrOp) else vals(bound) - vals(arrOp);
      !a.op2IsZero || CompareAssertion(a.kind, Holds(vals(cmpOp), op, Wrap32(rhs)))
    case CheckedBoundBound(cmpOp, op, bound) =>
      !a.op2IsZero || CompareAssertion(a.kind, Holds(vals(cmpOp), op, vals(bound)))
    case ConstantBound(cmpOp, op, cns, isUnsigned) =>
      var cmp := if isUnsigned then Holds(Unsigned(vals(cmpOp)), op, Unsigned(cns)) else Holds(vals(cmpOp), op, cns);
      !a.op2IsZero || CompareAssertion(a.kind, cmp)
    case ConstantInt32(op1, v) =>
      (if a.kind.OakEqual? then vals(op1) == v else vals(op1) != v)
    case OtherForm => true
  }

  /** The limits are exact readings of the assertion: `len +/- cns` does not wrap in
      32 bits, and `-cns` does not either. */
  ghost predicate NoWrap(a: Assertion, vals: Lengths)
  {
    a.form.CheckedBoundArithBound? ==>
      var bound, cns := vals(a.form.vnBound), vals(a.form.arrOp);
      (a.form.arrOper.ArrAdd? ==> InInt32(bound + cns))
      && (a.form.arrOper.ArrSub? ==> InInt32(bound - cns) && cns != INT_MIN)
  }

  /** An unsigned constant bound has a non-negative constant and, once reversed for a
      false comparison, bounds the value from above. */
  predicate UnsignedUpperBound(a: Assertion)
  {
    a.form.ConstantBound? && a.form.isUnsigned ==>
      a.form.constVal >= 0
      && (if a.kind.OakEqual? then ReverseRelop(a.form.cmpOper) else a.form.cmpOper) in {LT, LE}
  }

  /** The value of a limit with a constant. */
  function LimitValue(l: Limit, vals: Lengths): int
    requires l.HasConstant()
  {
    if l.BinOpArray? then vals(l.vn) + l.cns else l.cns
  }

  /** Decoding reads the assertion correctly: the local stands in the effective
      relation to the limit, and an unsigned bound also makes it non-negative. */
  lemma DecodeSound(store: ValueNumStore, lclVN: ValueNum, a: Assertion, vals: Lengths)
    requires Consistent(store, vals)
    requires AssertionHolds(store, a, vals) && NoWrap(a, vals) && UnsignedUpperBound(a)
    requires Decode(store, lclVN, a).Some?
    ensures var c := Decode(store, lclVN, a).value;
      Holds(vals(lclVN), EffectiveRelop(c, a.kind), LimitValue(c.limit, vals))
      && (c.isUnsigned ==> vals(lclVN) >= 0)
  {
    var c := Decode(store, lclVN, a).value;
    var x := vals(lclVN);
    match a.form
    case CheckedBoundArithBound(cmpOp, op, bound, arrOper, arrOp) =>
      var cons := store.int32Constant(arrOp).value;
      assert vals(arrOp) == cons;
      if arrOper.ArrSub? {
        assert Wrap32(-(cons as int)) == -cons;
      }
      ReverseRelopSound(x, op, LimitValue(c.limit, vals));
    case CheckedBoundBound(cmpOp, op, bound) =>
      if lclVN == cmpOp {
        ReverseRelopSound(x, op, vals(bound));
      } else {
        ReverseRelopSound(vals(cmpOp), op, x);
        SwapRelopSound(x, op, vals(cmpOp));
        ReverseRelopSound(x, SwapRelop(op), vals(cmpOp));
      }
    case ConstantBound(cmpOp, op, cns, isUnsigned) =>
      var ux, uc := Unsigned(x), Unsigned(cns);
      ReverseRelopSound(x, op, cns);
      ReverseRelopSound(ux, op, uc);
      if isUnsigned {
        var eff := EffectiveRelop(c, a.kind);
        assert Holds(ux, eff, uc);
        assert ux <= uc == cns;
        assert x >= 0;
        assert ux == x;
      }
    case ConstantInt32(op1, v) =>
      if v == 0 && a.kind.OakNotEqual? && store.isCheckedBound(op1) {
        assert vals(op1) >= 0 && vals(op1) != 0;
      }
  }

  lemma ReverseRelopSound(x: int, op: Relop, y: int)
    ensures Holds(x, ReverseRelop(op), y) <==> !Holds(x, op, y)
  {
  }

  lemma SwapRelopSound(x: int, op: Relop, y: int)
    ensures Holds(x, SwapRelop(op), y) <==> Holds(y, op, x)
  {
  }

  /** Simplifying a limit keeps its value. */
  lemma SimplifySound(store: ValueNumStore, limit: Limit, vals: Lengths)
    requires Consistent(store, vals)
    requires limit.HasConstant()
    ensures LimitValue(Simplify(store, limit), vals) == LimitValue(limit, vals)
  {
    if limit.BinOpArray? && store.int32Constant(limit.vn).Some? {
      assert vals(limit.vn) == store.int32Constant(limit.vn).value;
    }
  }

  /** What the adjusted candidate says about the value x: at most the limit for
      LT/LE, at least for GT/GE, equal for EQ, nothing for NE. */
  predicate Bounded(x: int, c: Candidate, vals: Lengths)
  {
    match c.cmpOper
    case LT => AtMost(x, c.limit, vals)
    case LE => AtMost(x, c.limit, vals)
    case GT => AtLeast(x, c.limit, vals)
    case GE => AtLeast(x, c.limit, vals)
    case EQ => AtMost(x, c.limit, vals) && AtLeast(x, c.limit, vals)
    case NE => true
  }

  /** After the adjustment the limit is inclusive. */
  lemma AdjustSound(c: Candidate, kind: AssertionKind, x: int, vals: Lengths)
    requires c.limit.HasConstant()
    requires Holds(x, EffectiveRelop(c, kind), LimitValue(c.limit, vals))
    requires Adjust(c, kind).Some?
    ensures Bounded(x, Adjust(c, kind).value, vals)
  {
  }

  /** Applying an inclusive bound that x meets keeps x in the range. */
  lemma ApplySound(range: Range, c: Candidate, x: int, vals: Lengths)
    requires Contains(range, x, vals)
    requires Bounded(x, c, vals)
    requires c.isUnsigned ==> x >= 0
    ensures Contains(Apply(range, c), x, vals)
  {
  }

  /** One step keeps the local's value in the range. */
  lemma StepSound(store: ValueNumStore, lclVN: ValueNum, curArrLenVN: ValueNum, range: Range, a: Assertion, vals: Lengths)
    requires Consistent(store, vals)
    requires AssertionHolds(store, a, vals) && NoWrap(a, vals) && UnsignedUpperBound(a)
    requires Contains(range, vals(lclVN), vals)
    ensures Contains(Step(store, lclVN, curArrLenVN, range, a), vals(lclVN), vals)
  {
    var d := Decode(store, lclVN, a);
    if d.Some? {
      DecodeSound(store, lclVN, a, vals);
      var c := d.value.(limit := Simplify(store, d.value.limit));
      SimplifySound(store, d.value.limit, vals);
      assert EffectiveRelop(c, a.kind) == EffectiveRelop(d.value, a.kind);
      var adj := Adjust(c, a.kind);
      if adj.Some? {
        AdjustSound(c, a.kind, vals(lclVN), vals);
        ApplySound(range, adj.value, vals(lclVN), vals);
      }
    }
  }

  /** Every assertion that holds on the edge: tightening with all of them keeps the
      local's value in the range. */
  ghost predicate AllHold(store: ValueNumStore, s: seq<Assertion>, vals: Lengths)
    requires Consistent(store, vals)
  {
    forall i :: 0 <= i < |s| ==> AssertionHolds(store, s[i], vals) && NoWrap(s[i], vals) && UnsignedUpperBound(s[i])
  }

  lemma {:induction false} MergeAllSound(store: ValueNumStore, lclVN: ValueNum, curArrLenVN: ValueNum,
                                         range: Range, s: seq<Assertion>, vals: Lengths)
    requires Consistent(store, vals)
    requires AllHold(store, s, vals)
    requires Contains(range, vals(lclVN), vals)
    ensures Contains(MergeAll(store, lclVN, curArrLenVN, range, s), vals(lclVN), vals)
  {
    if |s| > 0 {
      var p := s[..|s| - 1];
      assert AllHold(store, p, vals) by {
        forall i | 0 <= i < |p|
          ensures AssertionHolds(store, p[i], vals) && NoWrap(p[i], vals) && UnsignedUpperBound(p[i])
        {
          assert p[i] == s[i];
        }
      }
      MergeAllSound(store, lclVN, curArrLenVN, range, p, vals);
      StepSound(store, lclVN, curArrLenVN, MergeAll(store, lclVN, curArrLenVN, range, p), s[|s| - 1], vals);
    }
  }

  /** An assertion about another value number leaves the range alone. */
  lemma StepOtherLocal(store: ValueNumStore, lclVN: ValueNum, curArrLenVN: ValueNum, range: Range, a: Assertion)
    requires a.form.ConstantBound? && a.form.cmpOp != lclVN
    ensures Step(store, lclVN, curArrLenVN, range, a) == range
  {
  }
}
