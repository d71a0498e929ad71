/** The parts of the JIT's intermediate representation the range-check pass reads, as
    an immutable oracle: the operator, type and value number of each tree node, the SSA
    definition behind each local use, the assertions that hold on entry to a block or
    along a phi argument's edge, and the value-number store. */
module Tree {
  import opened Int32
  import opened Limits
  import opened RangeOps
  import opened Ir
  import opened Bounds
  import opened EdgeAssertions

  /** A tree node, identified by its address. */
  type Node = nat
  /** A basic block. */
  type Block = nat

  /** The definition of an SSA local: the block of its store and the value stored. */
  datatype LocalDef = LocalDef(block: Block, data: Node)

  /** The operators the pass distinguishes. A local use (`GT_LCL_VAR` or `GT_PHI_ARG`)
      records the conservative normal value number of its SSA definition (NoVN for the
      reserved SSA number) and its definition as GetSsaDefStore finds it. */
  datatype Oper =
    | CnsInt(iconValue: int)
    | Local(isPhiArg: bool, ssaVN: ValueNum, def: Option<LocalDef>, isParamFirstSsa: bool)
    | BinOp(oper: BinOper, op1: Node, op2: Node)
    | Neg(op1: Node)
    | Phi(args: seq<Node>)
    | Comma(op1: Node, effectiveVal: Node)
    | Cast(op1: Node, castToType: VarType)
    | Ind
    | BoundsCheck(index: Node, arrayLength: Node)
    | OtherOper

  /** A node: its operator, its type, its conservative value number, and the integer
      value `optIsTreeKnownIntValue` finds for it, if any. */
  datatype NodeInfo = NodeInfo(oper: Oper, typ: VarType, vn: ValueNum, knownIntValue: Option<int>)

  /** The operator of a value-number function application, with its two arguments. */
  datatype VNFuncKind = FuncAdd | FuncUMod | FuncOther
  datatype VNFuncApp = VNFuncApp(func: VNFuncKind, arg0: ValueNum, arg1: ValueNum)

  /** The method being compiled, as the pass sees it. `assertionIn(b)` is a block's
      `bbAssertionIn` and `edgeAssertions(n)` the assertions on the edge a phi argument
      comes along; None when that set is not initialised (or no assertions exist). */
  datatype Method = Method(
    node: Node -> NodeInfo,
    store: ValueNumStore,
    vnFunc: ValueNum -> Option<VNFuncApp>,
    assertionIn: Block -> Option<seq<Assertion>>,
    edgeAssertions: Node -> Option<seq<Assertion>>
  )

  /** One statement of a block: its root node and its nodes in execution order. */
  datatype Statement = Statement(block: Block, root: Node, trees: seq<Node>)

  /** The size `OptimizeRangeCheck` uses for the array whose length node is `lenNode`:
      the constant length when the length is constant (truncated to int), otherwise the
      size of the `new T[n]` that allocated it, otherwise the constant lower bound the
      edge assertions of `block` give the length, otherwise the non-positive size
      lookup. */
  function ArrSize(m: Method, block: Block, lenNode: Node): int32
  {
    var arrLenVn := m.node(lenNode).vn;
    if m.store.isConstant(arrLenVn) then
      match m.node(lenNode).knownIntValue
      case Some(v) => Wrap32(v)
      case None => 0
    else
      var size := m.store.arrLength(arrLenVn);
      if size > 0 then size
      else
        var assertions := if m.assertionIn(block).Some? then m.assertionIn(block).value else [];
        var lenRange := if arrLenVn == NoVN then Single(Dependent)
                        else MergeAll(m.store, arrLenVn, arrLenVn, Single(Dependent), assertions);
        if lenRange.lLimit.Constant? then lenRange.lLimit.cns else size
  }

  /** `IsIntCnsFitsInI32`: the node is an integer constant that fits in 32 bits. */
  function IntCnsFitsInI32(m: Method, n: Node): (r: Option<int32>)
    ensures r.Some? <==> m.node(n).oper.CnsInt? && InInt32(m.node(n).oper.iconValue)
    ensures r.Some? ==> r.value == m.node(n).oper.iconValue
  {
    if m.node(n).oper.CnsInt? && InInt32(m.node(n).oper.iconValue) then Some(m.node(n).oper.iconValue) else None
  }

  /** The run-time values agree with the method: a node with a constant value number
      has its known value, and a positive allocation size is the length. */
  ghost predicate ValuesAgree(m: Method, vals: Lengths)
  {
    (forall n :: m.store.isConstant(m.node(n).vn) && m.node(n).knownIntValue.Some?
       ==> vals(m.node(n).vn) == m.node(n).knownIntValue.value)
    && (forall vn :: m.store.arrLength(vn) > 0 ==> vals(vn) == m.store.arrLength(vn))
  }

  /** The size used never exceeds the array's length, when the assertions on entry to the
      block hold: the requirement BetweenBounds places on its `arrSize`. */
  lemma ArrSizeSound(m: Method, block: Block, lenNode: Node, vals: Lengths)
    requires Consistent(m.store, vals) && ValuesAgree(m, vals)
    requires m.assertionIn(block).Some? ==> AllHold(m.store, m.assertionIn(block).value, vals)
    ensures ArrSize(m, block, lenNode) > 0 ==> ArrSize(m, block, lenNode) <= vals(m.node(lenNode).vn)
  {
    var arrLenVn := m.node(lenNode).vn;
    if m.store.isConstant(arrLenVn) {
      if m.node(lenNode).knownIntValue.Some? {
        assert InInt32(vals(arrLenVn));
      }
    } else if m.store.arrLength(arrLenVn) <= 0 && arrLenVn != NoVN {
      var assertions := if m.assertionIn(block).Some? then m.assertionIn(block).value else [];
      assert AllHold(m.store, assertions, vals);
      MergeAllSound(m.store, arrLenVn, arrLenVn, Single(Dependent), assertions, vals);
    }
  }
}
