// The reference evaluator: node sets are mathematical sets, and a predicate sees the proximity
// position of its node, as in sections 2.4 and 3.3 of XPath 1.0.
module XPathSpec {
  import opened Document
  import opened XPathAst

  /** Members of `S` at or before `x`, counting in the direction of the axis. */
  ghost function UpTo(x: XNode, S: set<XNode>, rev: bool): set<XNode> {
    set y | y in S && (y == x || (if rev then Before(x, y) else Before(y, x)))
  }

  ghost function ProximityPosition(x: XNode, S: set<XNode>, rev: bool): nat {
    |UpTo(x, S, rev)|
  }

  ghost predicate IsFirst(x: XNode, S: set<XNode>) {
    x in S && forall y :: y in S && y != x ==> Before(x, y)
  }

  /** The member of `S` that is first in document order, or nothing when `S` is empty. */
  ghost function FirstOf(S: set<XNode>): XNode {
    if x :| IsFirst(x, S) then x else Nil
  }

  ghost function AsSet(v: Value): set<XNode> {
    if v.VSet? then v.s else {}
  }

  ghost function ToStr(env: Env, v: Value): string {
    match v
    case VSet(s) => if s == {} then "" else StringValue(env, FirstOf(s))
    case VNum(n) => env.toStr(n)
    case VStr(s) => s
    case VBool(b) => if b then "true" else "false"
  }

  ghost function ToNum(env: Env, v: Value): Number {
    match v
    case VNum(n) => n
    case VBool(b) => if b then Fin(1.0) else Fin(0.0)
    case _ => env.toNum(ToStr(env, v))
  }

  ghost predicate ToBool(v: Value) {
    match v
    case VSet(s) => s != {}
    case VNum(n) => NumToBool(n)
    case VStr(s) => s != ""
    case VBool(b) => b
  }

  ghost function ToArg(env: Env, v: Value, use: Use): Arg {
    match use
    case UseBool => ABool(ToBool(v))
    case UseNum => ANum(ToNum(env, v))
    case UseStr => AStr(ToStr(env, v))
    case UseSet => ASet(AsSet(v))
    case UseCount => ANum(Fin(|AsSet(v)| as real))
    case UseFirst => AFirst(FirstOf(AsSet(v)))
  }

  /** The union of what `step` yields from every member of `D`. */
  ghost function UnionOf(D: set<XNode>, step: XNode -> set<XNode>): set<XNode> {
    set x, y | x in D && y in step(x) :: y
  }

  /** The meaning of an expression in a context. Predicate classes play no role. */
  ghost function Eval(env: Env, e: Expr, c: Ctx): Value
    decreases e, 0
  {
    match e
    case Position => VNum(Fin(c.pos as real))
    case Last => VNum(Fin(c.size as real))
    case StringConst(s) => VStr(s)
    case NumberConst(v) => VNum(v)
    case Variable(name, t) =>
      (match t
       case TSet => VSet(Elems(env.setVar(name).s))
       case TNum => VNum(env.numVar(name))
       case TStr => VStr(env.strVar(name))
       case TBool => VBool(env.boolVar(name)))
    case Root => VSet(if c.n == Nil then {} else {Node(0)})
    case Id(_) => VSet({})
    case Step(left, axis, test, preds) =>
      var L := if left.NoExpr? then {c.n} else AsSet(Eval(env, left.e, c));
      VSet(UnionOf(L, x => EvalStep(env, axis, test, preds, x)))
    case Filter(base, cond, _) => VSet(Select(env, cond, AsSet(Eval(env, base, c)), false))
    case Union(l, r) => VSet(AsSet(Eval(env, l, c)) + AsSet(Eval(env, r, c)))
    case Call(op, args) => Apply(env, op, c.n, EvalArgs(env, args, c, op, ArgTypes(args), 0))
    case TranslateTable(arg, table) => VStr(TranslateByTable(ToStr(env, Eval(env, arg, c)), table))
    case CompareAttribute(name, rhs) =>
      VBool(exists k :: HasAttributeWith(env, c.n, name, ToStr(env, Eval(env, rhs, c)), k))
  }

  /** Attribute `k` is the first of its element named `name`, is visible, and has this value. */
  predicate HasAttributeWith(env: Env, x: XNode, name: string, value: string, k: nat) {
    x.Node? && x.id < |env.doc.info| &&
    var attrs := env.doc.info[x.id].attrs;
    k < |attrs| && attrs[k] == Attribute(name, value) && IsXPathAttribute(name)
    && forall m :: 0 <= m < k ==> attrs[m].name != name
  }

  /** The nodes one step leads to from `x`, its predicates applied in turn. */
  ghost function EvalStep(env: Env, axis: Axis, test: NodeTest, preds: Preds, x: XNode): set<XNode>
    decreases preds, 1
  {
    EvalPreds(env, preds, StepSet(env.doc, axis, test, x), IsReverse(axis))
  }

  ghost function EvalPreds(env: Env, preds: Preds, S: set<XNode>, rev: bool): set<XNode>
    decreases preds, 0
  {
    match preds
    case PNil => S
    case PCons(cond, _, next) => EvalPreds(env, next, Select(env, cond, S, rev), rev)
  }

  ghost function Select(env: Env, cond: Expr, S: set<XNode>, rev: bool): set<XNode>
    decreases cond, 2
  {
    set x | x in S && Holds(env, cond, Ctx(x, ProximityPosition(x, S, rev), |S|))
  }

  /** A numeric predicate asks for that position; any other is converted to a boolean. */
  ghost predicate Holds(env: Env, cond: Expr, c: Ctx)
    decreases cond, 1
  {
    var v := Eval(env, cond, c);
    if v.VNum? then NumEq(v.n, Fin(c.pos as real)) else ToBool(v)
  }

  ghost function EvalArgs(env: Env, args: Args, c: Ctx, op: Op, types: seq<Type>, k: nat): seq<Arg>
    decreases args
  {
    match args
    case ANil => []
    case ACons(e, next) =>
      if k < |types| then
        [ToArg(env, Eval(env, e, c), UseOf(op, types, k))] + EvalArgs(env, next, c, op, types, k + 1)
      else []
  }

  // ----- the value has the static type ---------------------------------------------------------

  ghost predicate HasType(v: Value, t: Type) {
    match t
    case TSet => v.VSet?
    case TNum => v.VNum?
    case TStr => v.VStr?
    case TBool => v.VBool?
  }

  lemma ApplyHasType(env: Env, op: Op, n: XNode, args: seq<Arg>)
    ensures HasType(Apply(env, op, n, args), OpType(op))
  {
    TypesOfOps(op);
  }

  lemma TypesOfOps(op: Op)
    ensures op in {Equal, NotEqual, Or, And, Not, Boolean, True, False} || IsRelation(op) ==> OpType(op) == TBool
    ensures op == Count ==> OpType(op) == TNum
    ensures op == Translate ==> OpType(op) == TStr
  {
  }

  lemma {:induction false} EvalHasType(env: Env, e: Expr, c: Ctx)
    ensures HasType(Eval(env, e, c), RetType(e))
  {
    match e
    case Call(op, args) => ApplyHasType(env, op, c.n, EvalArgs(env, args, c, op, ArgTypes(args), 0));
    case _ =>
  }

  // ----- members of a node set are nodes of the document ----------------------------------------

  ghost predicate AllValid(d: Doc, S: set<XNode>) {
    forall x :: x in S ==> Valid(d, x)
  }

  lemma EvalPredsShrinks(env: Env, preds: Preds, S: set<XNode>, rev: bool)
    ensures EvalPreds(env, preds, S, rev) <= S
    decreases preds
  {
    if preds.PCons? {
      EvalPredsShrinks(env, preds.next, Select(env, preds.cond, S, rev), rev);
    }
  }

  lemma EvalStepValid(env: Env, axis: Axis, test: NodeTest, preds: Preds, x: XNode)
    ensures AllValid(env.doc, EvalStep(env, axis, test, preds, x))
  {
    EvalPredsShrinks(env, preds, StepSet(env.doc, axis, test, x), IsReverse(axis));
  }

  lemma StepsValid(env: Env, axis: Axis, test: NodeTest, preds: Preds, L: set<XNode>)
    ensures AllValid(env.doc, UnionOf(L, x => EvalStep(env, axis, test, preds, x)))
  {
    forall x { EvalStepValid(env, axis, test, preds, x); }
  }

  lemma {:induction false} EvalValid(env: Env, e: Expr, c: Ctx)
    requires ValidEnv(env)
    ensures AllValid(env.doc, AsSet(Eval(env, e, c)))
    decreases e
  {
    match e
    case Variable(name, t) =>
      assert Honest(env.doc, env.setVar(name));
    case Step(left, axis, test, preds) =>
      var L := if left.NoExpr? then {c.n} else AsSet(Eval(env, left.e, c));
      StepsValid(env, axis, test, preds, L);
    case Filter(base, _, _) => EvalValid(env, base, c);
    case Union(l, r) => EvalValid(env, l, c); EvalValid(env, r, c);
    case _ =>
  }

  // ----- the first node of a set ------------------------------------------------------------------

  lemma FirstIsUnique(S: set<XNode>, x: XNode)
    requires IsFirst(x, S)
    ensures FirstOf(S) == x
  {
  }

  lemma {:induction false} FirstExists(d: Doc, S: set<XNode>) returns (x: XNode)
    requires AllValid(d, S) && S != {}
    ensures IsFirst(x, S)
    decreases |S|
  {
    var y :| y in S;
    if S == {y} {
      x := y;
    } else {
      var T := S - {y};
      assert S == {y} + T;
      var z := FirstExists(d, T);
      x := if Before(y, z) then y else z;
      forall w | w in S && w != x ensures Before(x, w) {
        if w == y {
        } else if w == z {
        } else {
          assert w in T && Before(z, w);
        }
      }
    }
  }

  // ----- soundness of the positional-invariance check ----------------------------------------------

  /** A node set never depends on position() or last(). */
  lemma {:induction false} SetsIgnorePosition(env: Env, e: Expr, n: XNode, p: nat, s: nat, p': nat, s': nat)
    requires WellTyped(e) && RetType(e) == TSet
    ensures Eval(env, e, Ctx(n, p, s)) == Eval(env, e, Ctx(n, p', s'))
    decreases e
  {
    match e
    case Step(left, _, _, _) => if left.SomeExpr? { SetsIgnorePosition(env, left.e, n, p, s, p', s'); }
    case Filter(base, _, _) => SetsIgnorePosition(env, base, n, p, s, p', s');
    case Union(l, r) =>
      SetsIgnorePosition(env, l, n, p, s, p', s');
      SetsIgnorePosition(env, r, n, p, s, p', s');
    case _ =>
  }

  /** The syntactic check is sound: an accepted expression has the same value at every position. */
  lemma {:induction false} PosinvIsSound(env: Env, e: Expr, n: XNode, p: nat, s: nat, p': nat, s': nat)
    requires WellTyped(e) && IsPosinv(e)
    ensures Eval(env, e, Ctx(n, p, s)) == Eval(env, e, Ctx(n, p', s'))
    decreases e
  {
    match e
    case Step(_, _, _, _) => SetsIgnorePosition(env, e, n, p, s, p', s');
    case Filter(_, _, _) => SetsIgnorePosition(env, e, n, p, s, p', s');
    case Union(l, r) =>
      PosinvIsSound(env, l, n, p, s, p', s');
      PosinvIsSound(env, r, n, p, s, p', s');
    case Call(op, args) => PosinvArgsIsSound(env, args, n, p, s, p', s', op, ArgTypes(args), 0);
    case TranslateTable(arg, _) => PosinvIsSound(env, arg, n, p, s, p', s');
    case CompareAttribute(_, rhs) => PosinvIsSound(env, rhs, n, p, s, p', s');
    case _ =>
  }

  lemma {:induction false} PosinvArgsIsSound(env: Env, args: Args, n: XNode, p: nat, s: nat, p': nat, s': nat,
                                             op: Op, types: seq<Type>, k: nat)
    requires WellTypedArgs(args) && IsPosinvArgs(args)
    ensures EvalArgs(env, args, Ctx(n, p, s), op, types, k) == EvalArgs(env, args, Ctx(n, p', s'), op, types, k)
    decreases args
  {
    if args.ACons? {
      PosinvIsSound(env, args.arg, n, p, s, p', s');
      PosinvArgsIsSound(env, args.next, n, p, s, p', s', op, types, k + 1);
    }
  }
}
