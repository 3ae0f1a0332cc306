// The evaluator as the library runs it: node sets are sequences with an order tag, evaluation may
// stop early when only one node is wanted, and constant predicates are picked by index.
module XPathEngine {
  import opened Document
  import opened XPathAst
  import opened XPathSpec

  /** How much of a node set the caller needs. */
  datatype Mode = All | Any | First

  function Once(order: Order, mode: Mode): bool {
    if order == Sorted then mode != All else mode == Any
  }

  // ----- location steps -----------------------------------------------------------------------

  /** Tree nodes with numbers in `[lo, hi)` that `push` accepts, ascending. */
  function Forward(lo: nat, hi: nat, push: XNode -> bool): seq<XNode>
    decreases hi - lo
  {
    if lo >= hi then [] else (if push(Node(lo)) then [Node(lo)] else []) + Forward(lo + 1, hi, push)
  }

  /** Tree nodes with numbers below `hi` that `push` accepts, descending. */
  function Backward(hi: nat, push: XNode -> bool): seq<XNode> {
    if hi == 0 then [] else (if push(Node(hi - 1)) then [Node(hi - 1)] else []) + Backward(hi - 1, push)
  }

  /** Attributes of element `p` with indices in `[k, count)` that `push` accepts. */
  function Attributes(p: nat, k: nat, count: nat, push: XNode -> bool): seq<XNode>
    decreases count - k
  {
    if k >= count then [] else (if push(Attr(p, k)) then [Attr(p, k)] else []) + Attributes(p, k + 1, count, push)
  }

  /** The test a step applies before pushing a node. */
  function Push(d: Doc, axis: Axis, test: NodeTest, x: XNode): XNode -> bool {
    y => Selects(d, axis, test, x, y)
  }

  function AttributePart(d: Doc, axis: Axis, test: NodeTest, x: XNode): seq<XNode>
    requires Valid(d, x)
  {
    Attributes(Owner(x), 0, |d.info[Owner(x)].attrs|, Push(d, axis, test, x))
  }

  function NodePart(d: Doc, axis: Axis, test: NodeTest, x: XNode): seq<XNode> {
    var push := Push(d, axis, test, x);
    if IsReverse(axis) then Backward(|d.info|, push) else Forward(0, |d.info|, push)
  }

  /** What a step pushes for one context node, in axis order. */
  function StepNodes(d: Doc, axis: Axis, test: NodeTest, x: XNode): seq<XNode> {
    if !Valid(d, x) then [] else AttributePart(d, axis, test, x) + NodePart(d, axis, test, x)
  }

  function AtMostOne(q: seq<XNode>, once: bool): seq<XNode> {
    if once && q != [] then q[..1] else q
  }

  // ----- sequences ------------------------------------------------------------------------------

  /** Keeps the first occurrence of every node. */
  function RemoveDuplicates(q: seq<XNode>): seq<XNode> {
    if q == [] then []
    else
      var r := RemoveDuplicates(q[..|q| - 1]);
      if q[|q| - 1] in q[..|q| - 1] then r else r + [q[|q| - 1]]
  }

  function Reverse(q: seq<XNode>): seq<XNode> {
    if q == [] then [] else Reverse(q[1..]) + [q[0]]
  }

  /** Inserts a node into a sequence ascending in document order. */
  function Insert(q: seq<XNode>, x: XNode): seq<XNode> {
    if q == [] || Before(x, q[0]) then [x] + q else [q[0]] + Insert(q[1..], x)
  }

  function SortNodes(q: seq<XNode>): seq<XNode> {
    if q == [] then [] else Insert(SortNodes(q[1..]), q[0])
  }

  function SortDo(ns: NodeSeq): NodeSeq {
    match ns.order
    case Sorted => ns
    case SortedReverse => NodeSeq(Reverse(ns.s), Sorted)
    case Unsorted => NodeSeq(SortNodes(ns.s), Sorted)
  }

  function MinElement(q: seq<XNode>): XNode
    requires q != []
  {
    if |q| == 1 then q[0]
    else
      var m := MinElement(q[..|q| - 1]);
      if Before(q[|q| - 1], m) then q[|q| - 1] else m
  }

  /** The first node in document order, found from the order tag. */
  function FirstNode(ns: NodeSeq): XNode {
    if ns.s == [] then Nil
    else match ns.order
      case Sorted => ns.s[0]
      case SortedReverse => ns.s[|ns.s| - 1]
      case Unsorted => MinElement(ns.s)
  }

  // ----- the evaluator ----------------------------------------------------------------------------

  /** Evaluates an expression that is not a node set. */
  ghost function EvalScalar(env: Env, e: Expr, c: Ctx): Value
    requires WellFormed(env.doc)
    decreases e, 0, 0
  {
    match e
    case Position => VNum(Fin(c.pos as real))
    case Last => VNum(Fin(c.size as real))
    case StringConst(s) => VStr(s)
    case NumberConst(v) => VNum(v)
    case Variable(name, t) =>
      (match t
       case TNum => VNum(env.numVar(name))
       case TStr => VStr(env.strVar(name))
       case _ => VBool(env.boolVar(name)))
    case Call(op, args) => Apply(env, op, c.n, RunArgs(env, args, c, op, ArgTypes(args), 0))
    case TranslateTable(arg, table) => VStr(TranslateByTable(RunStr(env, arg, c), table))
    case CompareAttribute(name, rhs) =>
      VBool(c.n.Node? && c.n.id < |env.doc.info| &&
            AttributeIs(env.doc.info[c.n.id].attrs, name, RunStr(env, rhs, c)))
    case _ => VBool(false)
  }

  /** `attribute(name)` returns the first attribute of that name. */
  predicate AttributeIs(attrs: seq<Attribute>, name: string, value: string) {
    if attrs == [] then false
    else if attrs[0].name == name then attrs[0].value == value && IsXPathAttribute(name)
    else AttributeIs(attrs[1..], name, value)
  }

  ghost predicate RunBool(env: Env, e: Expr, c: Ctx)
    requires WellFormed(env.doc)
    decreases e, 1, 0
  {
    if RetType(e) == TSet then RunSet(env, e, c, Any).s != [] else ToBool(EvalScalar(env, e, c))
  }

  ghost function RunStr(env: Env, e: Expr, c: Ctx): string
    requires WellFormed(env.doc)
    decreases e, 1, 0
  {
    if RetType(e) == TSet then
      var ns := RunSet(env, e, c, First);
      if ns.s == [] then "" else StringValue(env, FirstNode(ns))
    else ToStr(env, EvalScalar(env, e, c))
  }

  ghost function RunNum(env: Env, e: Expr, c: Ctx): Number
    requires WellFormed(env.doc)
    decreases e, 2, 0
  {
    if RetType(e) == TSet then env.toNum(RunStr(env, e, c)) else ToNum(env, EvalScalar(env, e, c))
  }

  ghost function RunArg(env: Env, e: Expr, c: Ctx, use: Use): Arg
    requires WellFormed(env.doc)
    decreases e, 3, 0
  {
    match use
    case UseBool => ABool(RunBool(env, e, c))
    case UseNum => ANum(RunNum(env, e, c))
    case UseStr => AStr(RunStr(env, e, c))
    case UseSet => ASet(Elems(RunSet(env, e, c, All).s))
    case UseCount => ANum(Fin(|RunSet(env, e, c, All).s| as real))
    case UseFirst => AFirst(FirstNode(RunSet(env, e, c, First)))
  }

  ghost function RunArgs(env: Env, args: Args, c: Ctx, op: Op, types: seq<Type>, k: nat): seq<Arg>
    requires WellFormed(env.doc)
    decreases args, 0, 0
  {
    match args
    case ANil => []
    case ACons(e, next) =>
      if k < |types| then
        [RunArg(env, e, c, UseOf(op, types, k))] + RunArgs(env, next, c, op, types, k + 1)
      else []
  }

  /** Evaluates a node-set expression. */
  ghost function RunSet(env: Env, e: Expr, c: Ctx, mode: Mode): NodeSeq
    requires WellFormed(env.doc)
    decreases e, 0, 0
  {
    match e
    case Variable(name, _) => env.setVar(name)
    case Root => NodeSeq(if c.n == Nil then [] else [Node(0)], Sorted)
    case Union(l, r) =>
      NodeSeq(RemoveDuplicates(RunSet(env, l, c, mode).s + RunSet(env, r, c, mode).s), Unsorted)
    case Filter(base, cond, cls) =>
      var all := RunSet(env, base, c, if cls == ClassConstantOne then First else All);
      var ns := if cls == ClassPosinv then all else SortDo(all);
      NodeSeq(ApplyPredicate(env, cond, cls, ns.s, Once(ns.order, mode)), ns.order)
    case Step(left, axis, test, preds) =>
      if axis == NamespaceAxis then NodeSeq([], Unsorted)
      else
        var src := if left.NoExpr? then NodeSeq([c.n], Sorted) else RunSet(env, left.e, c, All);
        var ns := StepAll(env, axis, test, preds, mode, src.s, NodeSeq([], InitialOrder(axis, left, src.order)));
        if axis != Child && axis != AttributeAxis && axis != Self && ns.order == Unsorted
        then NodeSeq(RemoveDuplicates(ns.s), Unsorted) else ns
    case _ => NodeSeq([], Unsorted)
  }

  function AxisOrder(axis: Axis): Order {
    if IsReverse(axis) then SortedReverse else Sorted
  }

  /** The self axis preserves the order of the set it is applied to. */
  function InitialOrder(axis: Axis, left: OptExpr, order: Order): Order {
    if axis == Self && left.SomeExpr? then order else AxisOrder(axis)
  }

  /** Whether filling may stop at the first node pushed. */
  function StopsAtFirst(axis: Axis, test: NodeTest, preds: Preds, mode: Mode): bool {
    || (axis == AttributeAxis && test.TestName?)
    || (preds.PNil? && Once(AxisOrder(axis), mode))
    || (preds.PCons? && preds.next.PNil? && preds.cls == ClassConstantOne)
  }

  /** What filling one context node and then filtering leaves. */
  ghost function Kept(env: Env, axis: Axis, test: NodeTest, preds: Preds, mode: Mode, x: XNode,
                      order: Order): seq<XNode>
    requires WellFormed(env.doc)
    decreases preds, 1, 0
  {
    var filled := AtMostOne(StepNodes(env.doc, axis, test, x), StopsAtFirst(axis, test, preds, mode));
    ApplyPredicates(env, preds, filled, Once(order, mode))
  }

  /** Only the first contribution, or one on the self axis, leaves the order known. */
  function NextOrder(axis: Axis, acc: NodeSeq): Order {
    if axis != Self && acc.s != [] then Unsorted else acc.order
  }

  /** Appends the contribution of every context node in turn. */
  ghost function StepAll(env: Env, axis: Axis, test: NodeTest, preds: Preds, mode: Mode,
                         src: seq<XNode>, acc: NodeSeq): NodeSeq
    requires WellFormed(env.doc)
    decreases preds, 2, |src|
  {
    if src == [] then acc
    else
      var order := NextOrder(axis, acc);
      var acc' := NodeSeq(acc.s + Kept(env, axis, test, preds, mode, src[0], order), order);
      StepAll(env, axis, test, preds, mode, src[1..], acc')
  }

  ghost function ApplyPredicates(env: Env, preds: Preds, q: seq<XNode>, once: bool): seq<XNode>
    requires WellFormed(env.doc)
    decreases preds, 0, 0
  {
    match preds
    case PNil => q
    case PCons(cond, cls, next) =>
      ApplyPredicates(env, next, ApplyPredicate(env, cond, cls, q, next.PNil? && once), once)
  }

  ghost function ApplyPredicate(env: Env, cond: Expr, cls: PredClass, q: seq<XNode>, once: bool): seq<XNode>
    requires WellFormed(env.doc)
    decreases cond, 5, 0
  {
    if q == [] then []
    else if cls == ClassConstant || cls == ClassConstantOne then
      PickByIndex(q, RunNum(env, cond, Ctx(Nil, 1, |q|)))
    else Keep(env, cond, q, 0, once)
  }

  /** The node at a constant position, if that is a whole number in range. */
  function PickByIndex(q: seq<XNode>, er: Number): seq<XNode> {
    if er.Fin? && 1.0 <= er.r <= |q| as real && er.r.Floor as real == er.r then [q[er.r.Floor - 1]] else []
  }

  /** Filters by evaluating the predicate at every position, possibly stopping at the first hit. */
  ghost function Keep(env: Env, cond: Expr, q: seq<XNode>, i: nat, once: bool): seq<XNode>
    requires WellFormed(env.doc)
    decreases cond, 4, |q| - i
  {
    if i >= |q| then []
    else if Accepts(env, cond, Ctx(q[i], i + 1, |q|)) then
      if once then [q[i]] else [q[i]] + Keep(env, cond, q, i + 1, once)
    else Keep(env, cond, q, i + 1, once)
  }

  ghost predicate Accepts(env: Env, cond: Expr, c: Ctx)
    requires WellFormed(env.doc)
    decreases cond, 3, 0
  {
    if RetType(cond) == TNum then NumEq(RunNum(env, cond, c), Fin(c.pos as real)) else RunBool(env, cond, c)
  }
}
