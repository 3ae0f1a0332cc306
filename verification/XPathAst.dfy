// The XPath query tree, its static types, and the steps it is made of.
module XPathAst {
  import opened Basics
  import opened Document
  import opened XPathText

  datatype Axis =
    | Ancestor | AncestorOrSelf | AttributeAxis | Child | Descendant | DescendantOrSelf | Following
    | FollowingSibling | NamespaceAxis | Parent | Preceding | PrecedingSibling | Self

  datatype NodeTest =
    | TestName(name: string) | TestNode | TestComment | TestPi | TestText | TestPiTarget(target: string)
    | TestAll | TestAllInNamespace(prefix: string)

  /** Doubles, with rounding left out. */
  datatype Number = NaN | PosInf | NegInf | Fin(r: real)

  predicate NumEq(a: Number, b: Number) {
    a == b && a != NaN
  }

  datatype Type = TSet | TNum | TStr | TBool

  /** How the optimiser has classified a predicate. */
  datatype PredClass = ClassDefault | ClassPosinv | ClassConstant | ClassConstantOne

  datatype Op =
    | Or | And | Equal | NotEqual | Less | Greater | LessOrEqual | GreaterOrEqual
    | Add | Subtract | Multiply | Divide | Mod | Negate
    | Count | LocalName | NamespaceUri | Name | String | Concat | StartsWith | Contains
    | SubstringBefore | SubstringAfter | Substring | StringLength | NormalizeSpace | Translate
    | Boolean | Not | True | False | Lang | NumberFn | Sum | Floor | Ceiling | Round

  datatype Expr =
    | Position
    | Last
    | StringConst(s: string)
    | NumberConst(v: Number)
    | Variable(name: string, vtype: Type)
    | Root
    | Id(arg: Expr)
    | Step(left: OptExpr, axis: Axis, test: NodeTest, preds: Preds)
    | Filter(base: Expr, cond: Expr, cls: PredClass)
    | Union(l: Expr, r: Expr)
    | Call(op: Op, args: Args)
    | TranslateTable(arg: Expr, table: seq<nat>)
    | CompareAttribute(name: string, rhs: Expr)

  datatype OptExpr = NoExpr | SomeExpr(e: Expr)

  /** The chain of predicates of a step. */
  datatype Preds = PNil | PCons(cond: Expr, cls: PredClass, next: Preds)

  datatype Args = ANil | ACons(arg: Expr, next: Args)

  // ----- static types ------------------------------------------------------------------------

  function OpType(op: Op): Type {
    match op
    case Or | And | Equal | NotEqual | Less | Greater | LessOrEqual | GreaterOrEqual => TBool
    case StartsWith | Contains | Boolean | Not | True | False | Lang => TBool
    case Add | Subtract | Multiply | Divide | Mod | Negate => TNum
    case Count | StringLength | NumberFn | Sum | Floor | Ceiling | Round => TNum
    case _ => TStr
  }

  function RetType(e: Expr): Type {
    match e
    case Position | Last | NumberConst(_) => TNum
    case StringConst(_) | TranslateTable(_, _) => TStr
    case Variable(_, t) => t
    case Root | Id(_) | Step(_, _, _, _) | Filter(_, _, _) | Union(_, _) => TSet
    case Call(op, _) => OpType(op)
    case CompareAttribute(_, _) => TBool
  }

  function ArgTypes(args: Args): seq<Type> {
    match args
    case ANil => []
    case ACons(e, next) => [RetType(e)] + ArgTypes(next)
  }

  predicate NeedsSet(op: Op) {
    op == Count || op == Sum || op == LocalName || op == NamespaceUri || op == Name
  }

  /** What the parser guarantees about the trees it builds. */
  predicate WellTyped(e: Expr) {
    match e
    case Position | Last | NumberConst(_) | Variable(_, _) | Root => true
    case StringConst(s) => '\0' !in s
    case Id(arg) => WellTyped(arg)
    case Step(left, _, _, preds) =>
      (left.SomeExpr? ==> WellTyped(left.e) && RetType(left.e) == TSet) && WellTypedPreds(preds)
    case Filter(base, cond, _) => WellTyped(base) && RetType(base) == TSet && WellTyped(cond)
    case Union(l, r) => WellTyped(l) && WellTyped(r) && RetType(l) == TSet && RetType(r) == TSet
    case Call(op, args) =>
      WellTypedArgs(args) && (NeedsSet(op) && args.ACons? ==> RetType(args.arg) == TSet && args.next.ANil?)
    case TranslateTable(arg, table) => WellTyped(arg) && |table| == 128
    case CompareAttribute(_, rhs) => IsStringLike(rhs) && WellTyped(rhs)
  }

  predicate WellTypedPreds(p: Preds) {
    p.PCons? ==> WellTyped(p.cond) && WellTypedPreds(p.next)
  }

  predicate WellTypedArgs(a: Args) {
    a.ACons? ==> WellTyped(a.arg) && WellTypedArgs(a.next)
  }

  predicate IsStringLike(e: Expr) {
    e.StringConst? || (e.Variable? && e.vtype == TStr)
  }

  // ----- how an operator looks at its operands ------------------------------------------------

  datatype Use = UseBool | UseNum | UseStr | UseSet | UseCount | UseFirst

  function CompareUse(types: seq<Type>, k: nat): Use
    requires k < |types|
  {
    if TBool in types then UseBool
    else if types[k] == TSet then UseSet
    else if TNum in types then UseNum
    else UseStr
  }

  function UseOf(op: Op, types: seq<Type>, k: nat): Use
    requires k < |types|
  {
    match op
    case Or | And | Boolean | Not => UseBool
    case Equal | NotEqual => CompareUse(types, k)
    case Less | Greater | LessOrEqual | GreaterOrEqual => if types[k] == TSet then UseSet else UseNum
    case Count => UseCount
    case Sum => UseSet
    case LocalName | NamespaceUri | Name => UseFirst
    case Add | Subtract | Multiply | Divide | Mod | Negate | NumberFn | Floor | Ceiling | Round => UseNum
    case Substring => if k == 0 then UseStr else UseNum
    case _ => UseStr
  }

  // ----- node sets and environments -----------------------------------------------------------

  datatype Order = Sorted | SortedReverse | Unsorted

  /** A raw node set: a sequence and what is known about its order. */
  datatype NodeSeq = NodeSeq(s: seq<XNode>, order: Order)

  datatype Value = VSet(s: set<XNode>) | VNum(n: Number) | VStr(str: string) | VBool(b: bool)

  datatype Arg = ABool(b: bool) | ANum(n: Number) | AStr(str: string) | ASet(s: set<XNode>) | AFirst(x: XNode)

  datatype Ctx = Ctx(n: XNode, pos: nat, size: nat)

  /** The document, the variable bindings, and the scalar library the evaluator calls into. */
  datatype Env = Env(
    doc: Doc,
    setVar: string -> NodeSeq, numVar: string -> Number, strVar: string -> string, boolVar: string -> bool,
    boolOp: (Op, XNode, seq<Arg>) -> bool, numOp: (Op, XNode, seq<Arg>) -> Number,
    strOp: (Op, XNode, seq<Arg>) -> string,
    toNum: string -> Number, toStr: Number -> string)

  ghost predicate Increasing(q: seq<XNode>) {
    forall a, b :: 0 <= a < b < |q| ==> Before(q[a], q[b])
  }

  ghost predicate Decreasing(q: seq<XNode>) {
    forall a, b :: 0 <= a < b < |q| ==> Before(q[b], q[a])
  }

  ghost predicate Ordered(q: seq<XNode>, rev: bool) {
    if rev then Decreasing(q) else Increasing(q)
  }

  ghost predicate NoDup(q: seq<XNode>) {
    forall a, b :: 0 <= a < b < |q| ==> q[a] != q[b]
  }

  function Elems(q: seq<XNode>): set<XNode> {
    set x | x in q
  }

  /** The order tag of a node set tells the truth, and no node is listed twice. */
  ghost predicate Honest(d: Doc, ns: NodeSeq) {
    && NoDup(ns.s)
    && (forall x :: x in ns.s ==> Valid(d, x))
    && (ns.order == Sorted ==> Increasing(ns.s))
    && (ns.order == SortedReverse ==> Decreasing(ns.s))
  }

  ghost predicate ValidEnv(env: Env) {
    WellFormed(env.doc) && forall v :: Honest(env.doc, env.setVar(v))
  }

  ghost predicate ValidCtx(env: Env, c: Ctx) {
    c.n == Nil || Valid(env.doc, c.n)
  }

  // ----- scalar conversions and operators -----------------------------------------------------

  function StringValue(env: Env, x: XNode): string {
    if Valid(env.doc, x) && x.Attr? then env.doc.info[x.owner].attrs[x.index].value else TextOf(env.doc, x)
  }

  function NumToBool(n: Number): bool {
    n != NaN && n != Fin(0.0)
  }

  predicate Matches(want: bool, same: bool) {
    same == want
  }

  /** `=` (want is true) and `!=` (want is false) over converted operands. */
  ghost predicate Compare(env: Env, want: bool, a: Arg, b: Arg) {
    match (a, b)
    case (ABool(x), ABool(y)) => Matches(want, x == y)
    case (ANum(x), ANum(y)) => Matches(want, NumEq(x, y))
    case (AStr(x), AStr(y)) => Matches(want, x == y)
    case (ASet(s), ASet(t)) =>
      exists x, y :: x in s && y in t && Matches(want, StringValue(env, x) == StringValue(env, y))
    case (ASet(s), ANum(v)) => exists x :: x in s && Matches(want, NumEq(v, env.toNum(StringValue(env, x))))
    case (ANum(v), ASet(s)) => exists x :: x in s && Matches(want, NumEq(v, env.toNum(StringValue(env, x))))
    case (ASet(s), AStr(v)) => exists x :: x in s && Matches(want, v == StringValue(env, x))
    case (AStr(v), ASet(s)) => exists x :: x in s && Matches(want, v == StringValue(env, x))
    case _ => false
  }

  predicate NumLess(a: Number, b: Number) {
    match (a, b)
    case (NaN, _) => false
    case (_, NaN) => false
    case (Fin(x), Fin(y)) => x < y
    case (NegInf, _) => b != NegInf
    case (_, PosInf) => a != PosInf
    case _ => false
  }

  /** `<`, `>`, `<=` and `>=`; a node set is compared as the numbers of its nodes. */
  predicate Relates(op: Op, x: Number, y: Number) {
    match op
    case Less => NumLess(x, y)
    case Greater => NumLess(y, x)
    case LessOrEqual => NumLess(x, y) || NumEq(x, y)
    case _ => NumLess(y, x) || NumEq(x, y)
  }

  ghost predicate Relate(env: Env, op: Op, a: Arg, b: Arg) {
    match (a, b)
    case (ANum(x), ANum(y)) => Relates(op, x, y)
    case (ANum(x), ASet(t)) => exists y :: y in t && Relates(op, x, env.toNum(StringValue(env, y)))
    case (ASet(s), ANum(y)) => exists x :: x in s && Relates(op, env.toNum(StringValue(env, x)), y)
    case (ASet(s), ASet(t)) =>
      exists x, y :: x in s && y in t &&
        Relates(op, env.toNum(StringValue(env, x)), env.toNum(StringValue(env, y)))
    case _ => false
  }

  predicate IsRelation(op: Op) {
    op == Less || op == Greater || op == LessOrEqual || op == GreaterOrEqual
  }

  function FindChar(from: string, c: char): nat {
    if from == [] then 0 else if from[0] == c then 0 else 1 + FindChar(from[1..], c)
  }

  /** `translate()`: every character found in `from` is replaced by its counterpart or dropped. */
  function TranslateString(s: string, from: string, to: string): string {
    if s == [] then []
    else
      var p := FindChar(from, s[0]);
      (if p >= |from| then [s[0]] else if p < |to| then [to[p]] else []) + TranslateString(s[1..], from, to)
  }

  /** `translate()` by a 128-entry table in which 128 means "drop". */
  function TranslateByTable(s: string, table: seq<nat>): string {
    if s == [] then []
    else
      (if (s[0] as int) < 128 && (s[0] as int) < |table| then
         var code := table[s[0] as int];
         if code < 128 then [code as char] else []
       else [s[0]]) + TranslateByTable(s[1..], table)
  }

  /** Applies an operator to converted operands; comparisons, the connectives, count and translate are spelled out. */
  ghost function Apply(env: Env, op: Op, n: XNode, args: seq<Arg>): Value {
    if (op == Equal || op == NotEqual) && |args| == 2 then VBool(Compare(env, op == Equal, args[0], args[1]))
    else if IsRelation(op) && |args| == 2 then VBool(Relate(env, op, args[0], args[1]))
    else if (op == Or || op == And) && |args| == 2 && args[0].ABool? && args[1].ABool? then
      VBool(if op == Or then args[0].b || args[1].b else args[0].b && args[1].b)
    else if (op == Not || op == Boolean) && |args| == 1 && args[0].ABool? then VBool(args[0].b == (op == Boolean))
    else if op == True || op == False then VBool(op == True)
    else if op == Count && |args| == 1 && args[0].ANum? then VNum(args[0].n)
    else if op == Translate && |args| == 3 && args[0].AStr? && args[1].AStr? && args[2].AStr? then
      VStr(TranslateString(args[0].str, args[1].str, args[2].str))
    else Library(env, op, OpType(op), n, args)
  }

  /** An operator that is not spelled out. */
  function Library(env: Env, op: Op, t: Type, n: XNode, args: seq<Arg>): Value {
    match t
    case TBool => VBool(env.boolOp(op, n, args))
    case TNum => VNum(env.numOp(op, n, args))
    case _ => VStr(env.strOp(op, n, args))
  }

  // ----- location steps -----------------------------------------------------------------------

  predicate HasPrefix(s: string, prefix: string) {
    |prefix| <= |s| && s[..|prefix|] == prefix
  }

  /** Namespace declarations are not XPath attributes. */
  predicate IsXPathAttribute(name: string) {
    !(HasPrefix(name, "xmlns") && (|name| == 5 || name[5] == ':'))
  }

  predicate NodePasses(test: NodeTest, info: NodeInfo) {
    match test
    case TestName(n) => info.kind == Element && info.name == Some(n)
    case TestNode => true
    case TestComment => info.kind == Comment
    case TestText => info.kind == PcData || info.kind == CData
    case TestPi => info.kind == Pi
    case TestPiTarget(t) => info.kind == Pi && info.name == Some(t)
    case TestAll => info.kind == Element
    case TestAllInNamespace(p) => info.kind == Element && info.name.Some? && HasPrefix(info.name.value, p)
  }

  predicate AttrPasses(test: NodeTest, name: string) {
    match test
    case TestName(n) => name == n && IsXPathAttribute(name)
    case TestNode | TestAll => IsXPathAttribute(name)
    case TestAllInNamespace(p) => HasPrefix(name, p) && IsXPathAttribute(name)
    case _ => false
  }

  /** Tree node `j` lies on the axis of tree node `i` (XPath 1.0, section 2.2). */
  predicate OnAxis(d: Doc, axis: Axis, i: nat, j: nat)
    requires |d.par| == |d.size| && i < |d.size| && j < |d.size|
  {
    match axis
    case Self => i == j
    case Child => d.par[j] == i
    case Parent => d.par[i] == j
    case Descendant => Anc(d, i, j)
    case DescendantOrSelf => i == j || Anc(d, i, j)
    case Ancestor => Anc(d, j, i)
    case AncestorOrSelf => i == j || Anc(d, j, i)
    case Following => i < j && !Anc(d, i, j)
    case Preceding => j < i && !Anc(d, j, i)
    case FollowingSibling => i < j && d.par[i] == d.par[j]
    case PrecedingSibling => j < i && d.par[i] == d.par[j]
    case AttributeAxis | NamespaceAxis => false
  }

  /** Tree node `j` lies on the axis of an attribute of `p`. */
  predicate OnAttrAxis(d: Doc, axis: Axis, p: nat, j: nat)
    requires |d.par| == |d.size| && p < |d.size| && j < |d.size|
  {
    match axis
    case Parent => j == p
    case Ancestor | AncestorOrSelf => j == p || Anc(d, j, p)
    case Following => p < j
    case Preceding => j < p && !Anc(d, j, p)
    case _ => false
  }

  /** The step `axis::test` leads from `x` to `y`. A named attribute step stops at its first hit. */
  predicate Selects(d: Doc, axis: Axis, test: NodeTest, x: XNode, y: XNode) {
    && |d.info| == |d.par| == |d.size|
    && Valid(d, x) && Valid(d, y)
    && match (x, y)
       case (Node(i), Node(j)) => OnAxis(d, axis, i, j) && NodePasses(test, d.info[j])
       case (Node(i), Attr(p, k)) =>
         && axis == AttributeAxis && p == i && AttrPasses(test, d.info[p].attrs[k].name)
         && (test.TestName? ==> forall m :: 0 <= m < k ==> !AttrPasses(test, d.info[p].attrs[m].name))
       case (Attr(p, _), Node(j)) => OnAttrAxis(d, axis, p, j) && NodePasses(test, d.info[j])
       case (Attr(p, k), Attr(_, _)) =>
         && x == y && (axis == AncestorOrSelf || axis == DescendantOrSelf || axis == Self)
         && test == TestNode && IsXPathAttribute(d.info[p].attrs[k].name)
       case _ => false
  }

  function AllNodes(d: Doc): set<XNode> {
    (set i | 0 <= i < |d.info| :: Node(i)) +
    (set i, k | 0 <= i < |d.info| && 0 <= k < |d.info[i].attrs| :: Attr(i, k))
  }

  lemma AllNodesAreValid(d: Doc, x: XNode)
    ensures x in AllNodes(d) <==> Valid(d, x)
  {
  }

  /** The node set of a location step before its predicates. */
  function StepSet(d: Doc, axis: Axis, test: NodeTest, x: XNode): set<XNode> {
    set y | y in AllNodes(d) && Selects(d, axis, test, x, y)
  }

  predicate IsReverse(axis: Axis) {
    axis == Ancestor || axis == AncestorOrSelf || axis == Preceding || axis == PrecedingSibling
  }

  // ----- positional invariance ----------------------------------------------------------------

  /** The syntactic check for expressions whose value ignores position() and last(). */
  predicate IsPosinv(e: Expr) {
    match e
    case Position | Last => false
    case StringConst(_) | NumberConst(_) | Variable(_, _) | Root | Step(_, _, _, _) | Filter(_, _, _) => true
    case Id(arg) => IsPosinv(arg)
    case Union(l, r) => IsPosinv(l) && IsPosinv(r)
    case Call(_, args) => IsPosinvArgs(args)
    case TranslateTable(arg, _) => IsPosinv(arg)
    case CompareAttribute(_, _) => true
  }

  predicate IsPosinvArgs(args: Args) {
    args.ACons? ==> IsPosinv(args.arg) && IsPosinvArgs(args.next)
  }
}
