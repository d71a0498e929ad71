/** The RangeCheck object: the memoised, budgeted search that computes the range of an
    index expression through its SSA definitions, the matching overflow search, the
    monotonicity test used to widen loop variables, and the decision to remove one
    bounds check. The recursion of the source terminates because every cycle of SSA
    definitions passes through a phi whose argument is then on the search path; the
    model does not derive that, and bounds each recursion by a `fuel` argument instead. */
module RangeCheckPass {
  import opened Int32
  import opened Limits
  import opened RangeOps
  import opened Ir
  import opened Bounds
  import opened EdgeAssertions
  import opened Tree

  /** The longest search path before a search gives up. */
  const MAX_SEARCH_DEPTH: int := 100
  /** The number of nodes whose range may be computed in one method. */
  const MAX_VISIT_BUDGET: int := 8192

  /** The assertions MergeAssertion uses for `op` in `block`: those of the edge a phi
      argument comes along, those on entry to the block for any other local, none for
      other nodes. */
  function AssertionsFor(m: Method, block: Block, op: Node): Option<seq<Assertion>>
  {
    match m.node(op).oper
    case Local(isPhiArg, _, _, _) => if isPhiArg then m.edgeAssertions(op) else m.assertionIn(block)
    case _ => None
  }

  /** The value number MergeEdgeAssertions looks for assertions about. */
  function LocalVN(m: Method, op: Node): ValueNum
  {
    if m.node(op).oper.Local? then m.node(op).oper.ssaVN else NoVN
  }

  /** The range MergeAssertion leaves: `range` tightened by every assertion that applies. */
  function MergedRange(m: Method, curArrLenVN: ValueNum, block: Block, op: Node, range: Range): Range
  {
    var a := AssertionsFor(m, block, op);
    if a.None? || LocalVN(m, op) == NoVN then range
    else MergeAll(m.store, LocalVN(m, op), curArrLenVN, range, a.value)
  }

  /** Tightening with the assertions keeps the operand's value in its range, when they
      hold. */
  lemma MergedRangeSound(m: Method, curArrLenVN: ValueNum, block: Block, op: Node, range: Range, vals: Lengths)
    requires Consistent(m.store, vals)
    requires AssertionsFor(m, block, op).Some? ==> AllHold(m.store, AssertionsFor(m, block, op).value, vals)
    requires Contains(range, vals(LocalVN(m, op)), vals)
    ensures Contains(MergedRange(m, curArrLenVN, block, op, range), vals(LocalVN(m, op)), vals)
  {
    var a := AssertionsFor(m, block, op);
    if a.Some? && LocalVN(m, op) != NoVN {
      MergeAllSound(m.store, LocalVN(m, op), curArrLenVN, range, a.value, vals);
    }
  }

  /** The second operand of a binary node, when it is an int32 constant. */
  function Op2Cns(m: Method, binop: Node): Option<int32>
    requires m.node(binop).oper.BinOp?
  {
    IntCnsFitsInI32(m, m.node(binop).oper.op2)
  }

  /** The mask c of a first operand `x & c` with c an int32 constant. */
  function Op1AndCns(m: Method, binop: Node): Option<int32>
    requires m.node(binop).oper.BinOp?
  {
    var op1 := m.node(binop).oper.op1;
    if m.node(op1).oper.BinOp? && m.node(op1).oper.oper.OpAnd? then IntCnsFitsInI32(m, m.node(op1).oper.op2)
    else None
  }

  /** `OperGet() == GT_LCL_VAR`: a local use that is not a phi argument. */
  predicate IsLclVar(m: Method, n: Node)
  {
    m.node(n).oper.Local? && !m.node(n).oper.isPhiArg
  }

  /** The bounds check node a candidate stands for: the first operand of a comma, or a
      statement's root itself. */
  function BoundsCheckOf(m: Method, treeParent: Node, isTopLevel: bool): (r: Option<Node>)
    ensures r.Some? ==> m.node(r.value).oper.BoundsCheck?
  {
    var isComma := m.node(treeParent).oper.Comma?;
    if !(isComma || isTopLevel) then None
    else
      var tree := if isComma then m.node(treeParent).oper.op1 else treeParent;
      if m.node(tree).oper.BoundsCheck? then Some(tree) else None
  }

  /** The `t`-th node of a statement is a bounds check, or a comma over one, that
      `OptimizeRangeCheck` considers. */
  predicate IsCandidate(m: Method, stmt: Statement, t: nat)
    requires t < |stmt.trees|
  {
    BoundsCheckOf(m, stmt.trees[t], stmt.trees[t] == stmt.root).Some?
  }

  /** Why a bounds check was removed. */
  datatype Removal =
    | Kept
    | ConstantIndex(idxVal: int, arrSize: int32)
    | LengthPlusDelta(lenLowerLimit: int32, delta: int32)
    | UModOfLength
    | WithinBounds(range: Range, arrSize: int32)

  /** Is `idxVn` the value number of `arrLenVn + delta` (in either operand order)? */
  predicate IsLengthPlusConstant(m: Method, idxVn: ValueNum, arrLenVn: ValueNum, delta: int32)
  {
    match m.vnFunc(idxVn)
    case Some(app) =>
      app.func == FuncAdd
      && ((app.arg1 == arrLenVn && m.store.int32Constant(app.arg0) == Some(delta))
          || (app.arg1 != arrLenVn && app.arg0 == arrLenVn && m.store.int32Constant(app.arg1) == Some(delta)))
    case None => false
  }

  /** The constant `delta` when `idxVn` is the value number of `arrLenVn + delta`, looking
      first for the length as the second operand and then as the first. */
  function LengthPlusConstantDelta(m: Method, idxVn: ValueNum, arrLenVn: ValueNum): (r: Option<int32>)
    ensures r.Some? ==> IsLengthPlusConstant(m, idxVn, arrLenVn, r.value)
    ensures r.None? ==> forall delta: int32 :: !IsLengthPlusConstant(m, idxVn, arrLenVn, delta)
  {
    match m.vnFunc(idxVn)
    case None => None
    case Some(app) =>
      if app.func != FuncAdd then None
      else if arrLenVn == app.arg1 && m.store.int32Constant(app.arg0).Some? then m.store.int32Constant(app.arg0)
      else if arrLenVn == app.arg0 && m.store.int32Constant(app.arg1).Some? then m.store.int32Constant(app.arg1)
      else None
  }

  /** The general case of a binary node, from its operands' ranges: `+` adds, `*` and `<<`
      (read as a multiplication by 2^count) multiply, `>>` shifts right; `&` and unsigned
      `%` are Unknown. */
  function CombineRanges(oper: BinOper, op1Range: Range, op2Range: Range): (r: Range)
    ensures oper.OpAnd? || oper.OpUMod? ==> r == UnknownRange
    ensures (oper.OpMul? || oper.OpLsh?) && r.lLimit.Constant? ==> r.lLimit.cns >= 0
  {
    match oper
    case OpAdd => Add(op1Range, op2Range)
    case OpMul => MultiplyNonNegative(op1Range, op2Range)
    case OpLsh => MultiplyNonNegative(op1Range, ConvertShiftToMultiply(op2Range))
    case OpRsh => ShiftRight(op1Range, op2Range)
    case _ => UnknownRange
  }

  /** The facts each reason for removal rests on, for the check of `index` against the
      length node `len` in `block`. */
  predicate Justified(m: Method, block: Block, index: Node, len: Node, removal: Removal)
  {
    var idxVn, arrLenVn := m.node(index).vn, m.node(len).vn;
    match removal
    case Kept => true
    case ConstantIndex(idxVal, arrSize) =>
      arrSize == ArrSize(m, block, len) && m.store.isConstant(idxVn)
      && m.node(index).knownIntValue == Some(idxVal) && ConstantIndexInBounds(idxVal, arrSize)
    case LengthPlusDelta(lenLowerLimit, delta) =>
      IsLengthPlusConstant(m, idxVn, arrLenVn, delta) && LengthPlusDeltaInBounds(lenLowerLimit, delta)
    case UModOfLength =>
      m.vnFunc(idxVn).Some? && m.vnFunc(idxVn).value.func == FuncUMod && m.vnFunc(idxVn).value.arg1 == arrLenVn
    case WithinBounds(range, arrSize) =>
      arrSize == ArrSize(m, block, len) && !range.lLimit.Unknown? && !range.uLimit.Unknown?
      && BetweenBounds(range, arrLenVn, m.store.isCheckedBound(arrLenVn), arrSize)
  }

  /** A removed check never guarded an access out of bounds: the index's value x lies in
      [0, length) given what each reason assumes of the run-time values: the store and
      the assertions on entry to the block agree with them, the lower bound found for
      the length holds, a zero length makes `u%` throw first, and the range computed for
      the index holds its value. */
  lemma RemovalSound(m: Method, block: Block, index: Node, len: Node, removal: Removal, vals: Lengths, x: int)
    requires Justified(m, block, index, len, removal) && !removal.Kept?
    requires Consistent(m.store, vals) && ValuesAgree(m, vals)
    requires m.assertionIn(block).Some? ==> AllHold(m.store, m.assertionIn(block).value, vals)
    requires x == vals(m.node(index).vn)
    requires removal.LengthPlusDelta? ==>
      removal.lenLowerLimit <= vals(m.node(len).vn) && x == vals(m.node(len).vn) + removal.delta
    requires removal.UModOfLength? ==>
      vals(m.node(len).vn) > 0 && x == UMod(vals(m.vnFunc(m.node(index).vn).value.arg0), vals(m.node(len).vn))
    requires removal.WithinBounds? ==> Contains(removal.range, x, vals)
    ensures 0 <= x < vals(m.node(len).vn)
  {
    var lenValue := vals(m.node(len).vn);
    ArrSizeSound(m, block, len, vals);
    match removal
    case ConstantIndex(idxVal, arrSize) =>
      assert x == idxVal;
      ConstantIndexSound(idxVal, arrSize, lenValue);
    case LengthPlusDelta(lenLowerLimit, delta) =>
      LengthPlusDeltaSound(lenLowerLimit, delta, lenValue);
    case UModOfLength =>
      UModLengthSound(vals(m.vnFunc(m.node(index).vn).value.arg0), lenValue);
    case WithinBounds(range, arrSize) =>
      BetweenBoundsSound(range, m.node(len).vn, m.store.isCheckedBound(m.node(len).vn), arrSize, vals, x);
  }

  class RangeCheck {
    /** The method being compiled. */
    const m: Method
    /** `m_pRangeMap`: the ranges computed so far. */
    var rangeMap: map<Node, Range>
    /** `m_pOverflowMap`: the overflow answers computed so far. */
    var overflowMap: map<Node, bool>
    /** `m_pSearchPath`: the nodes whose computation is in progress. */
    var searchPath: set<Node>
    /** `m_nVisitBudget`: how many more nodes may be added to a search path. */
    var visitBudget: int
    /** `m_updateStmt`: a check of the current statement was removed. */
    var updateStmt: bool
    /** The value number of the array length of the bounds check being optimised. */
    var curArrLenVN: ValueNum

    constructor (m: Method)
      ensures this.m == m && rangeMap == map[] && overflowMap == map[] && searchPath == {}
      ensures visitBudget == MAX_VISIT_BUDGET && !updateStmt
    {
      this.m := m;
      rangeMap, overflowMap, searchPath := map[], map[], {};
      visitBudget, updateStmt := MAX_VISIT_BUDGET, false;
      curArrLenVN := NoVN;
    }

    predicate IsOverBudget()
      reads this
    {
      visitBudget <= 0
    }

    /** What every step of the range search keeps: the path only shrinks, the budget only
        falls, and the cache only grows, keeping the ranges of nodes that were not being
        computed. */
    twostate predicate RangeSearchFrame()
      reads this
    {
      searchPath <= old(searchPath) && visitBudget <= old(visitBudget)
      && old(rangeMap).Keys <= rangeMap.Keys
      && (forall k :: k in old(rangeMap) && k !in old(searchPath) ==> rangeMap[k] == old(rangeMap)[k])
    }

    /** The cached range of `expr`, computing it when there is none. */
    method GetRange(block: Block, expr: Node, monIncreasing: bool, fuel: nat) returns (r: Range)
      modifies this`rangeMap, this`searchPath, this`visitBudget
      decreases fuel, 1
      ensures RangeSearchFrame()
      ensures expr in rangeMap && rangeMap[expr] == r
      ensures old(expr in rangeMap) ==> r == old(rangeMap[expr]) && unchanged(this)
    {
      if expr in rangeMap {
        r := rangeMap[expr];
      } else {
        r := ComputeRange(block, expr, monIncreasing, fuel);
      }
    }

    /** Computes the range of `expr` and caches it. `expr` is added to the search path,
        spending one unit of budget if it was not on it; an exhausted budget or a path
        longer than MAX_SEARCH_DEPTH gives Unknown at once, as do 64-bit types. */
    method ComputeRange(block: Block, expr: Node, monIncreasing: bool, fuel: nat) returns (r: Range)
      requires expr !in rangeMap
      modifies this`rangeMap, this`searchPath, this`visitBudget
      decreases fuel, 0
      ensures RangeSearchFrame()
      ensures expr in rangeMap && rangeMap[expr] == r && expr !in searchPath
      ensures searchPath <= old(searchPath) - {expr}
      ensures visitBudget <= old(visitBudget) - (if expr in old(searchPath) then 0 else 1)
      ensures var budget := old(visitBudget) - (if expr in old(searchPath) then 0 else 1);
        (budget <= 0 || |old(searchPath) + {expr}| > MAX_SEARCH_DEPTH) ==>
          (r == UnknownRange && visitBudget == budget
           && rangeMap == old(rangeMap)[expr := r] && searchPath == old(searchPath) - {expr})
      ensures m.node(expr).typ in {TypLong, TypULong} ==> r == UnknownRange
    {
      var newlyAdded := expr !in searchPath;
      searchPath := searchPath + {expr};
      var vn := m.node(expr).vn;
      if newlyAdded {
        visitBudget := visitBudget - 1;
      }
      ghost var path0, budget0 := searchPath, visitBudget;
      if IsOverBudget() {
        r := UnknownRange;
      } else if |searchPath| > MAX_SEARCH_DEPTH {
        r := UnknownRange;
      } else if m.node(expr).typ == TypLong || m.node(expr).typ == TypULong {
        r := UnknownRange;
      } else if m.store.isConstant(vn) {
        r := match m.store.int32Constant(vn)
          case Some(c) => Single(Constant(c))
          case None => UnknownRange;
      } else if fuel == 0 {
        r := UnknownRange;
      } else {
        match m.node(expr).oper
        case Local(_, _, _, _) =>
          r := ComputeRangeForLocalDef(block, expr, monIncreasing, fuel - 1);
          r := MergeAssertion(block, expr, r);
        case BinOp(_, _, _) =>
          ghost var op1Range, op2Range;
          r, op1Range, op2Range := ComputeRangeForBinOp(block, expr, monIncreasing, fuel - 1);
        case Neg(op1) =>
          var op1Range := GetRange(block, op1, monIncreasing, fuel - 1);
          r := Negate(op1Range);
        case Phi(args) =>
          r := Single(Undef);
          var i := 0;
          while i < |args|
            invariant 0 <= i <= |args|
            invariant searchPath <= path0 && visitBudget <= budget0
            invariant old(rangeMap).Keys <= rangeMap.Keys
            invariant forall k :: k in old(rangeMap) && k !in path0 ==> rangeMap[k] == old(rangeMap)[k]
          {
            var argRange;
            if args[i] in searchPath {
              argRange := Single(Dependent);
            } else {
              argRange := GetRange(block, args[i], monIncreasing, fuel - 1);
            }
            argRange := MergeAssertion(block, args[i], argRange);
            r := Merge(r, argRange, monIncreasing);
            i := i + 1;
          }
        case Comma(_, effectiveVal) =>
          if IsSmall(m.node(expr).typ) {
            r := GetRangeFromType(m.node(expr).typ);
          } else {
            r := GetRange(block, effectiveVal, monIncreasing, fuel - 1);
          }
        case Cast(_, castToType) =>
          r := GetRangeFromType(if IsSmall(m.node(expr).typ) then m.node(expr).typ else castToType);
        case _ =>
          r := if IsSmall(m.node(expr).typ) then GetRangeFromType(m.node(expr).typ) else UnknownRange;
      }
      rangeMap := rangeMap[expr := r];
      searchPath := searchPath - {expr};
    }

    /** The range of a local use: that of the value its SSA definition stores, tightened
        by the assertions on entry to `block`; Unknown without a usable definition. */
    method ComputeRangeForLocalDef(block: Block, lcl: Node, monIncreasing: bool, fuel: nat) returns (r: Range)
      requires m.node(lcl).oper.Local?
      modifies this`rangeMap, this`searchPath, this`visitBudget
      decreases fuel, 2
      ensures RangeSearchFrame()
      ensures m.node(lcl).oper.def.None? ==> r == UnknownRange && unchanged(this)
      ensures m.node(lcl).oper.def.Some? ==>
        var def := m.node(lcl).oper.def.value;
        var vn := m.node(lcl).oper.ssaVN;
        def.data in rangeMap
        && r == (if m.assertionIn(block).Some? && vn != NoVN
                 then MergeAll(m.store, vn, curArrLenVN, rangeMap[def.data], m.assertionIn(block).value)
                 else rangeMap[def.data])
    {
      match m.node(lcl).oper.def
      case None =>
        r := UnknownRange;
      case Some(def) =>
        r := GetRange(def.block, def.data, monIncreasing, fuel);
        if m.assertionIn(block).Some? {
          r := MergeEdgeAssertions(m.store, m.node(lcl).oper.ssaVN, curArrLenVN, m.assertionIn(block).value, r);
        }
    }

    /** Tightens the range of `op` with the assertions that hold for it in `block`. */
    method MergeAssertion(block: Block, op: Node, range: Range) returns (r: Range)
      ensures r == MergedRange(m, curArrLenVN, block, op, range)
    {
      var assertions := AssertionsFor(m, block, op);
      r := range;
      if assertions.Some? {
        r := MergeEdgeAssertions(m.store, LocalVN(m, op), curArrLenVN, assertions.value, range);
      }
    }

    /** The range of an operand of a binary node: its cached range, or Dependent when it
        is on the search path and its computed range otherwise, either one tightened by
        the assertions. */
    method OperandRange(block: Block, op: Node, monIncreasing: bool, fuel: nat) returns (r: Range)
      modifies this`rangeMap, this`searchPath, this`visitBudget
      decreases fuel, 2
      ensures RangeSearchFrame()
      ensures old(op in rangeMap) ==> r == old(rangeMap[op]) && unchanged(this)
      ensures old(op !in rangeMap && op in searchPath) ==>
        r == MergedRange(m, curArrLenVN, block, op, Single(Dependent)) && unchanged(this)
      ensures old(op !in rangeMap && op !in searchPath) ==>
        op in rangeMap && r == MergedRange(m, curArrLenVN, block, op, rangeMap[op])
    {
      if op in rangeMap {
        r := rangeMap[op];
      } else {
        if op in searchPath {
          r := Single(Dependent);
        } else {
          r := GetRange(block, op, monIncreasing, fuel);
        }
        r := MergeAssertion(block, op, r);
      }
    }

    /** The range of a binary node: the constant-second-operand cases decide `&` and
        unsigned `%` outright, and `>>`, `<<` when their first operand is a non-negative
        mask; otherwise the operands' ranges are combined. */
    method ComputeRangeForBinOp(block: Block, binop: Node, monIncreasing: bool, fuel: nat)
      returns (r: Range, ghost op1Range: Range, ghost op2Range: Range)
      requires m.node(binop).oper.BinOp?
      modifies this`rangeMap, this`searchPath, this`visitBudget
      decreases fuel, 3
      ensures RangeSearchFrame()
      ensures var sc := ConstantOperandRange(m.node(binop).oper.oper, Op2Cns(m, binop), Op1AndCns(m, binop));
        sc.Decided? ==> r == sc.range && unchanged(this)
      ensures var sc := ConstantOperandRange(m.node(binop).oper.oper, Op2Cns(m, binop), Op1AndCns(m, binop));
        var op1 := m.node(binop).oper.op1;
        sc.General? ==>
          r == CombineRanges(m.node(binop).oper.oper, op1Range, op2Range)
          && (old(op1 in rangeMap) ==> op1Range == old(rangeMap[op1]))
          && (old(op1 !in rangeMap && op1 in searchPath) ==>
                op1Range == MergedRange(m, curArrLenVN, block, op1, Single(Dependent)))
          && (old(op1 !in rangeMap && op1 !in searchPath) ==>
                op1 in rangeMap && op1Range == MergedRange(m, curArrLenVN, block, op1, rangeMap[op1]))
    {
      var BinOp(oper, op1, op2) := m.node(binop).oper;
      var sc := ConstantOperandRange(oper, Op2Cns(m, binop), Op1AndCns(m, binop));
      op1Range, op2Range := UnknownRange, UnknownRange;
      if sc.Decided? {
        return sc.range, op1Range, op2Range;
      }
      var range1 := OperandRange(block, op1, monIncreasing, fuel);
      var range2 := OperandRange(block, op2, monIncreasing, fuel);
      op1Range, op2Range := range1, range2;
      r := UnknownRange;
      if oper.OpAdd? {
        r := Add(range1, range2);
      } else if oper.OpMul? {
        r := MultiplyNonNegative(range1, range2);
      } else if oper.OpLsh? {
        r := MultiplyNonNegative(range1, ConvertShiftToMultiply(range2));
      } else if oper.OpRsh? {
        r := ShiftRight(range1, range2);
      }
    }

    // -------------------------------------------------------------------------
    // Overflow

    /** What every step of the overflow search keeps: the path only shrinks and the
        overflow cache only grows. */
    twostate predicate OverflowSearchFrame()
      reads this
    {
      searchPath <= old(searchPath) && old(overflowMap).Keys <= overflowMap.Keys
    }

    /** The cached overflow answer for `expr`, computing it when there is none. */
    method DoesOverflow(block: Block, expr: Node, fuel: nat) returns (b: bool)
      modifies this`overflowMap, this`searchPath
      decreases fuel, 1
      ensures OverflowSearchFrame()
      ensures expr in overflowMap && overflowMap[expr] == b
      ensures old(expr in overflowMap) ==> b == old(overflowMap[expr]) && unchanged(this)
    {
      if expr in overflowMap {
        b := overflowMap[expr];
      } else {
        b := ComputeDoesOverflow(block, expr, fuel);
      }
    }

    /** Can evaluating `expr` overflow? Conservatively yes, except for constants,
        loads, operators that cannot overflow, and what the search through commas, casts,
        local definitions, additions, multiplications and phis shows safe. */
    method ComputeDoesOverflow(block: Block, expr: Node, fuel: nat) returns (b: bool)
      modifies this`overflowMap, this`searchPath
      decreases fuel, 0
      ensures OverflowSearchFrame()
      ensures expr in overflowMap && overflowMap[expr] == b && expr !in searchPath
      ensures searchPath <= old(searchPath) - {expr}
      ensures |old(searchPath) + {expr}| > MAX_SEARCH_DEPTH ==> b
      ensures |old(searchPath) + {expr}| <= MAX_SEARCH_DEPTH && m.store.isConstant(m.node(expr).vn) ==> !b
    {
      searchPath := searchPath + {expr};
      ghost var path0 := searchPath;
      b := true;
      var oper := m.node(expr).oper;
      if |searchPath| > MAX_SEARCH_DEPTH {
        b := true;
      } else if m.store.isConstant(m.node(expr).vn) {
        b := false;
      } else if oper.Ind? {
        b := false;
      } else if oper.Comma? {
        if fuel > 0 {
          b := ComputeDoesOverflow(block, oper.effectiveVal, fuel - 1);
        }
      } else if oper.Local? {
        if fuel > 0 {
          b := DoesVarDefOverflow(expr, fuel - 1);
        }
      } else if oper.BinOp? && (oper.oper.OpAdd? || oper.oper.OpMul?) {
        if fuel > 0 {
          b := DoesBinOpOverflow(block, expr, fuel - 1);
        }
      } else if oper.BinOp? || oper.Neg? {
        b := false;
      } else if oper.Phi? {
        if fuel > 0 {
          b := DoesPhiOverflow(block, expr, fuel - 1);
        }
      } else if oper.Cast? {
        if fuel > 0 {
          b := ComputeDoesOverflow(block, oper.op1, fuel - 1);
        }
      }
      overflowMap := overflowMap[expr := b];
      searchPath := searchPath - {expr};
    }

    /** An addition or multiplication does not overflow only when neither operand does,
        both operands' ranges are cached, and the maxima of their upper limits neither
        add nor multiply past int32. */
    method DoesBinOpOverflow(block: Block, binop: Node, fuel: nat) returns (b: bool)
      requires m.node(binop).oper.BinOp?
      modifies this`overflowMap, this`searchPath
      decreases fuel, 2
      ensures OverflowSearchFrame()
      ensures var BinOp(oper, op1, op2) := m.node(binop).oper;
        !b ==>
          (op1 in rangeMap && op2 in rangeMap && (oper.OpAdd? || oper.OpMul?)
           && (oper.OpAdd? ==> !AddOverflows(m.store, rangeMap[op1].uLimit, rangeMap[op2].uLimit))
           && (oper.OpMul? ==> !MultiplyOverflows(m.store, rangeMap[op1].uLimit, rangeMap[op2].uLimit)))
    {
      var BinOp(oper, op1, op2) := m.node(binop).oper;
      if op1 !in searchPath {
        var o := DoesOverflow(block, op1, fuel);
        if o {
          return true;
        }
      }
      if op2 !in searchPath {
        var o := DoesOverflow(block, op2, fuel);
        if o {
          return true;
        }
      }
      if op1 !in rangeMap || op2 !in rangeMap {
        return true;
      }
      if oper.OpAdd? {
        b := AddOverflows(m.store, rangeMap[op1].uLimit, rangeMap[op2].uLimit);
      } else if oper.OpMul? {
        b := MultiplyOverflows(m.store, rangeMap[op1].uLimit, rangeMap[op2].uLimit);
      } else {
        b := true;
      }
    }

    /** A local's definition overflows as its stored value does; a local without a usable
        definition overflows unless it is a parameter's incoming value. */
    method DoesVarDefOverflow(lcl: Node, fuel: nat) returns (b: bool)
      requires m.node(lcl).oper.Local?
      modifies this`overflowMap, this`searchPath
      decreases fuel, 2
      ensures OverflowSearchFrame()
      ensures m.node(lcl).oper.def.None? ==> b == !m.node(lcl).oper.isParamFirstSsa && unchanged(this)
    {
      match m.node(lcl).oper.def
      case None =>
        b := !m.node(lcl).oper.isParamFirstSsa;
      case Some(def) =>
        b := DoesOverflow(def.block, def.data, fuel);
    }

    /** A phi overflows when one of its arguments not on the search path does. */
    method DoesPhiOverflow(block: Block, phi: Node, fuel: nat) returns (b: bool)
      requires m.node(phi).oper.Phi?
      modifies this`overflowMap, this`searchPath
      decreases fuel, 2
      ensures OverflowSearchFrame()
    {
      var args := m.node(phi).oper.args;
      var i := 0;
      while i < |args|
        invariant 0 <= i <= |args|
        invariant searchPath <= old(searchPath) && old(overflowMap).Keys <= overflowMap.Keys
      {
        if args[i] !in searchPath {
          var o := DoesOverflow(block, args[i], fuel);
          if o {
            return true;
          }
        }
        i := i + 1;
      }
      b := false;
    }

    // -------------------------------------------------------------------------
    // Monotonicity and widening

    /** Do all the definitions `expr` depends on only increase it? A node already on the
        search path closes a cycle and counts as increasing; a constant counts unless
        negative constants are rejected and it is negative; locals, `+`, `*`, `<<`,
        phis and commas are followed; anything else is not increasing. */
    method IsMonotonicallyIncreasing(expr: Node, rejectNegativeConst: bool, fuel: nat) returns (b: bool)
      modifies this`searchPath
      decreases fuel, 0
      ensures searchPath <= old(searchPath)
      ensures old(expr in searchPath) ==> b && unchanged(this)
      ensures old(expr !in searchPath) ==> expr !in searchPath
      ensures old(expr !in searchPath) && |old(searchPath) + {expr}| <= MAX_SEARCH_DEPTH
              && m.store.int32Constant(m.node(expr).vn).Some? ==>
        b == (!rejectNegativeConst || m.store.int32Constant(m.node(expr).vn).value >= 0)
      ensures old(expr !in searchPath) && |old(searchPath) + {expr}| > MAX_SEARCH_DEPTH ==> !b
    {
      if expr in searchPath {
        return true;
      }
      searchPath := searchPath + {expr};
      ghost var path0 := searchPath;
      var oper := m.node(expr).oper;
      var cns := m.store.int32Constant(m.node(expr).vn);
      if |searchPath| > MAX_SEARCH_DEPTH {
        b := false;
      } else if cns.Some? {
        b := !rejectNegativeConst || cns.value >= 0;
      } else if fuel == 0 {
        b := false;
      } else if oper.Local? {
        if oper.def.None? {
          b := false;
        } else {
          b := IsMonotonicallyIncreasing(oper.def.value.data, rejectNegativeConst, fuel - 1);
        }
      } else if oper.BinOp? && (oper.oper.OpAdd? || oper.oper.OpMul? || oper.oper.OpLsh?) {
        b := IsBinOpMonotonicallyIncreasing(expr, fuel - 1);
      } else if oper.Phi? {
        b := true;
        var i := 0;
        while i < |oper.args|
          invariant 0 <= i <= |oper.args|
          invariant searchPath <= path0
        {
          if oper.args[i] !in searchPath {
            var argIncreasing := IsMonotonicallyIncreasing(oper.args[i], rejectNegativeConst, fuel - 1);
            if !argIncreasing {
              b := false;
              break;
            }
          }
          i := i + 1;
        }
      } else if oper.Comma? {
        b := IsMonotonicallyIncreasing(oper.effectiveVal, rejectNegativeConst, fuel - 1);
      } else {
        b := false;
      }
      searchPath := searchPath - {expr};
    }

    /** `x + c`, `x * c` and `x << c` increase when c >= 0 and x increases; `x + y`,
        `x * y` and `x << y` when both increase with no negative constant in either. The
        operands of `+` and `*` are swapped when the second is a local. */
    method IsBinOpMonotonicallyIncreasing(binop: Node, fuel: nat) returns (b: bool)
      requires m.node(binop).oper.BinOp?
      modifies this`searchPath
      decreases fuel, 1
      ensures searchPath <= old(searchPath)
      ensures var BinOp(oper, op1, op2) := m.node(binop).oper;
        var swap := (oper.OpAdd? || oper.OpMul?) && IsLclVar(m, op2);
        var (x, y) := if swap then (op2, op1) else (op1, op2);
        (!IsLclVar(m, x) ==> !b)
        && (m.node(y).oper.CnsInt? && m.node(y).oper.iconValue < 0 ==> !b)
        && (!IsLclVar(m, y) && !m.node(y).oper.CnsInt? ==> !b)
    {
      var BinOp(oper, op1, op2) := m.node(binop).oper;
      if (oper.OpAdd? || oper.OpMul?) && IsLclVar(m, op2) {
        op1, op2 := op2, op1;
      }
      if !IsLclVar(m, op1) {
        return false;
      }
      if IsLclVar(m, op2) {
        b := IsMonotonicallyIncreasing(op1, true, fuel);
        if b {
          b := IsMonotonicallyIncreasing(op2, true, fuel);
        }
      } else if m.node(op2).oper.CnsInt? {
        if m.node(op2).oper.iconValue < 0 {
          return false;
        }
        b := IsMonotonicallyIncreasing(op1, false, fuel);
      } else {
        b := false;
      }
    }

    /** When the lower limit is not known and `tree` only increases, recompute its range
        from scratch in the monotonic mode, where a phi takes its initial value as the
        lower limit. */
    method Widen(block: Block, tree: Node, range: Range, fuel: nat) returns (r: Range, ghost increasing: bool)
      modifies this`rangeMap, this`searchPath, this`visitBudget
      ensures !(range.lLimit.Dependent? || range.lLimit.Unknown?) ==> r == range && !increasing && unchanged(this)
      ensures !increasing ==> r == range && rangeMap == old(rangeMap)
      ensures increasing ==> (range.lLimit.Dependent? || range.lLimit.Unknown?) && tree in rangeMap && rangeMap[tree] == r
      ensures old(tree in rangeMap && rangeMap[tree] == range) ==> tree in rangeMap && rangeMap[tree] == r
    {
      r, increasing := range, false;
      if range.lLimit.Dependent? || range.lLimit.Unknown? {
        var b := IsMonotonicallyIncreasing(tree, false, fuel);
        if b {
          rangeMap := map[];
          r := GetRange(block, tree, true, fuel);
          increasing := true;
        }
      }
    }

    // -------------------------------------------------------------------------
    // Removing a check

    /** The array size `OptimizeRangeCheck` compares against, computed as it does. */
    method ComputeArrSize(block: Block, lenNode: Node) returns (arrSize: int32)
      ensures arrSize == ArrSize(m, block, lenNode)
    {
      var arrLenVn := m.node(lenNode).vn;
      arrSize := 0;
      if m.store.isConstant(arrLenVn) {
        if m.node(lenNode).knownIntValue.Some? {
          arrSize := Wrap32(m.node(lenNode).knownIntValue.value);
        }
      } else {
        arrSize := m.store.arrLength(arrLenVn);
        if arrSize <= 0 {
          var assertions := if m.assertionIn(block).Some? then m.assertionIn(block).value else [];
          var arrLength := MergeEdgeAssertions(m.store, arrLenVn, arrLenVn, assertions, Single(Dependent));
          if arrLength.lLimit.Constant? {
            arrSize := arrLength.lLimit.cns;
          }
        }
      }
    }

    /** The index is `length + delta` (either way round) for a constant delta that the
        length's constant lower bound brings into [0, length). */
    method RemoveLengthPlusConstant(block: Block, index: Node, lenNode: Node, fuel: nat) returns (removal: Removal)
      modifies this`rangeMap, this`searchPath, this`visitBudget, this`updateStmt
      ensures removal.Kept? || removal.LengthPlusDelta?
      ensures Justified(m, block, index, lenNode, removal)
      ensures removal.Kept? ==> updateStmt == old(updateStmt)
      ensures !removal.Kept? ==> updateStmt
      ensures LengthPlusConstantDelta(m, m.node(index).vn, m.node(lenNode).vn).None? ==> removal.Kept? && unchanged(this)
      ensures var delta := LengthPlusConstantDelta(m, m.node(index).vn, m.node(lenNode).vn);
        delta.Some? ==>
          lenNode in rangeMap
          && var lo := rangeMap[lenNode].lLimit;
          removal == (if lo.Constant? && LengthPlusDeltaInBounds(lo.cns, delta.value)
                      then LengthPlusDelta(lo.cns, delta.value) else Kept)
    {
      removal := Kept;
      var delta := LengthPlusConstantDelta(m, m.node(index).vn, m.node(lenNode).vn);
      if delta.Some? {
        var arrLenRange := GetRange(block, lenNode, false, fuel);
        if arrLenRange.lLimit.Constant? {
          var lenLowerLimit := arrLenRange.lLimit.cns;
          if LengthPlusDeltaInBounds(lenLowerLimit, delta.value) {
            updateStmt := true;
            removal := LengthPlusDelta(lenLowerLimit, delta.value);
          }
        }
      }
    }

    /** The general case: the index's range, when known at both ends, free of overflow and
        widened where it only increases, lies between the bounds. */
    method RemoveByRange(block: Block, index: Node, lenNode: Node, arrSize: int32, fuel: nat)
      returns (removal: Removal, range: Range, overflows: bool)
      requires arrSize == ArrSize(m, block, lenNode)
      modifies this`rangeMap, this`overflowMap, this`searchPath, this`visitBudget, this`updateStmt
      ensures removal.Kept? || removal == WithinBounds(range, arrSize)
      ensures Justified(m, block, index, lenNode, removal)
      ensures removal.Kept? ==> updateStmt == old(updateStmt)
      ensures !removal.Kept? ==> updateStmt
      ensures index in rangeMap && rangeMap[index] == range
      ensures overflows ==> index in overflowMap && overflowMap[index]
      ensures var arrLenVn := m.node(lenNode).vn;
        removal.WithinBounds? <==>
          !overflows && !range.lLimit.Unknown? && !range.uLimit.Unknown?
          && BetweenBounds(range, arrLenVn, m.store.isCheckedBound(arrLenVn), arrSize)
    {
      removal, overflows := Kept, false;
      var arrLenVn := m.node(lenNode).vn;
      range := GetRange(block, index, false, fuel);
      if range.uLimit.Unknown? || range.lLimit.Unknown? {
        return;
      }
      overflows := DoesOverflow(block, index, fuel);
      if overflows {
        return;
      }
      searchPath := {};
      ghost var increasing;
      range, increasing := Widen(block, index, range, fuel);
      if range.uLimit.Unknown? || range.lLimit.Unknown? {
        return;
      }
      if BetweenBounds(range, arrLenVn, m.store.isCheckedBound(arrLenVn), arrSize) {
        updateStmt := true;
        removal := WithinBounds(range, arrSize);
      }
    }

    /** Tries to remove the bounds check that is `treeParent`, or the first operand of the
        comma `treeParent`; `isTopLevel` says whether treeParent is its statement's root.
        The reason returned is justified by the method and the new ranges, and a removal
        sets `updateStmt`. */
    method OptimizeRangeCheck(block: Block, treeParent: Node, isTopLevel: bool, fuel: nat) returns (removal: Removal)
      modifies this
      ensures removal != Kept ==>
        (BoundsCheckOf(m, treeParent, isTopLevel).Some?
         && var chk := BoundsCheckOf(m, treeParent, isTopLevel).value;
         Justified(m, block, m.node(chk).oper.index, m.node(chk).oper.arrayLength, removal)
         && updateStmt)
      ensures removal == Kept ==> updateStmt == old(updateStmt)
      ensures BoundsCheckOf(m, treeParent, isTopLevel).None? ==> removal == Kept && unchanged(this)
      ensures BoundsCheckOf(m, treeParent, isTopLevel).Some? ==>
        var chk := m.node(BoundsCheckOf(m, treeParent, isTopLevel).value).oper;
        var idxVn, arrLenVn := m.node(chk.index).vn, m.node(chk.arrayLength).vn;
        var arrSize := ArrSize(m, block, chk.arrayLength);
        var idxVal := m.node(chk.index).knownIntValue;
        ((m.store.isConstant(idxVn) && idxVal.Some? && ConstantIndexInBounds(idxVal.value, arrSize))
           ==> removal == ConstantIndex(idxVal.value, arrSize))
        && ((!(m.store.isConstant(idxVn) && arrSize > 0) && m.vnFunc(idxVn).Some?
             && m.vnFunc(idxVn).value.func == FuncUMod && m.vnFunc(idxVn).value.arg1 == arrLenVn)
           ==> removal == UModOfLength)
    {
      removal := Kept;
      var chkOpt := BoundsCheckOf(m, treeParent, isTopLevel);
      if chkOpt.None? {
        return;
      }
      var BoundsCheck(index, lenNode) := m.node(chkOpt.value).oper;
      var idxVn, arrLenVn := m.node(index).vn, m.node(lenNode).vn;
      curArrLenVN := arrLenVn;

      var arrSize := ComputeArrSize(block, lenNode);

      if m.store.isConstant(idxVn) && arrSize > 0 {
        if m.node(index).knownIntValue.None? {
          return;
        }
        var idxVal := m.node(index).knownIntValue.value;
        if idxVal < arrSize && idxVal >= 0 {
          updateStmt := true;
          return ConstantIndex(idxVal, arrSize);
        }
      }

      rangeMap, overflowMap, searchPath := map[], map[], {};

      var funcApp := m.vnFunc(idxVn);
      removal := RemoveLengthPlusConstant(block, index, lenNode, fuel);
      if removal != Kept {
        return;
      }

      if funcApp.Some? && funcApp.value.func == FuncUMod && funcApp.value.arg1 == arrLenVn {
        updateStmt := true;
        return UModOfLength;
      }

      var range, overflows;
      removal, range, overflows := RemoveByRange(block, index, lenNode, arrSize, fuel);
    }

    /** Walks every node of every statement, trying each as a bounds check; stops early
        once the budget is spent, unless the current statement already changed. Answers
        whether any statement changed, and nothing changes before SSA is built. */
    method OptimizeRangeChecks(ssaBuilt: bool, stmts: seq<Statement>, fuel: nat) returns (madeChanges: bool)
      modifies this
      ensures !ssaBuilt ==> !madeChanges && unchanged(this)
      ensures madeChanges ==> exists i, t :: 0 <= i < |stmts| && 0 <= t < |stmts[i].trees| && IsCandidate(m, stmts[i], t)
    {
      if !ssaBuilt {
        return false;
      }
      madeChanges := false;
      var i := 0;
      while i < |stmts|
        invariant 0 <= i <= |stmts|
        invariant madeChanges ==> exists k, t :: 0 <= k < i && 0 <= t < |stmts[k].trees| && IsCandidate(m, stmts[k], t)
      {
        var stmt := stmts[i];
        updateStmt := false;
        var j := 0;
        while j < |stmt.trees|
          invariant 0 <= j <= |stmt.trees|
          invariant updateStmt ==> exists t :: 0 <= t < j && IsCandidate(m, stmt, t)
        {
          if IsOverBudget() && !updateStmt {
            return;
          }
          var removal := OptimizeRangeCheck(stmt.block, stmt.trees[j], stmt.trees[j] == stmt.root, fuel);
          if removal != Kept {
            assert IsCandidate(m, stmt, j);
          }
          j := j + 1;
        }
        if updateStmt {
          madeChanges := true;
        }
        i := i + 1;
      }
    }
  }
}
