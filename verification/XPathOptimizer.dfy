// The query optimiser rewrites the tree bottom-up; the rewritten query means the same.
module XPathOptimizer {
  import opened Basics
  import opened Document
  import opened XPathAst
  import opened XPathSpec
  import opened XPathEngine
  import opened XPathSequences
  import opened XPathRefinement
  import opened XPathCorrectness

  // ----- the optimiser -----------------------------------------------------------------------------

  /** `[position() = e]` becomes `[e]` when `e` is a number. */
  function DropPosition(cond: Expr): Expr {
    match cond
    case Call(Equal, ACons(Position, ACons(e, ANil))) => if RetType(e) == TNum then e else cond
    case _ => cond
  }

  function Classify(cond: Expr, cls: PredClass): PredClass {
    if cond == NumberConst(Fin(1.0)) then ClassConstantOne
    else if IsConstantLike(cond) then ClassConstant
    else if RetType(cond) != TNum && IsPosinv(cond) then ClassPosinv
    else cls
  }

  predicate AllPosinv(p: Preds) {
    p.PCons? ==> p.cls == ClassPosinv && AllPosinv(p.next)
  }

  predicate IsDescent(axis: Axis) {
    axis == Child || axis == Self || axis == Descendant || axis == DescendantOrSelf
  }

  function MergedAxis(axis: Axis): Axis {
    if axis == Child || axis == Descendant then Descendant else DescendantOrSelf
  }

  /** `descendant-or-self::node()/axis::test[preds]` collapses into one step. */
  function MergeStep(left: OptExpr, axis: Axis, test: NodeTest, preds: Preds): Expr {
    if IsDescent(axis) && left.SomeExpr? && left.e.Step? && left.e.axis == DescendantOrSelf
       && left.e.test == TestNode && left.e.preds.PNil? && AllPosinv(preds)
    then Step(left.e.left, MergedAxis(axis), test, preds)
    else Step(left, axis, test, preds)
  }

  /** The table for constant second and third arguments of translate(), if they are ASCII. */
  function BuildTable(from: string, to: string, table: seq<nat>): (r: Option<seq<nat>>)
    requires |table| == 128
    ensures r.Some? ==> |r.value| == 128
  {
    if from == [] then Some(table)
    else if from[0] as int >= 128 || (to != [] && to[0] as int >= 128) then None
    else
      var c := from[0] as int;
      var code := if to == [] then 128 else to[0] as int;
      BuildTable(from[1..], if to == [] then [] else to[1..], if table[c] == 0 then table[c := code] else table)
  }

  /** Characters without an entry translate to themselves. */
  function FillTable(table: seq<nat>): (t: seq<nat>)
    requires |table| == 128
    ensures |t| == 128 && forall i :: 0 <= i < 128 ==> t[i] == if table[i] == 0 then i else table[i]
  {
    seq(128, i requires 0 <= i < 128 => if table[i] == 0 then i else table[i])
  }

  function GenerateTable(from: string, to: string): Option<seq<nat>> {
    match BuildTable(from, to, seq(128, i => 0))
    case None => None
    case Some(t) => Some(FillTable(t))
  }

  function OptimizeCall(op: Op, args: Args): Expr {
    match (op, args)
    case (Translate, ACons(e, ACons(StringConst(from), ACons(StringConst(to), ANil)))) =>
      (match GenerateTable(from, to)
       case Some(t) => TranslateTable(e, t)
       case None => Call(op, args))
    case (Equal, ACons(Step(NoExpr, AttributeAxis, TestName(n), PNil), ACons(rhs, ANil))) =>
      if IsStringLike(rhs) then CompareAttribute(n, rhs) else Call(op, args)
    case _ => Call(op, args)
  }

  /** The whole pass: children first, then the node itself. */
  function Optimize(e: Expr): Expr {
    match e
    case Id(arg) => Id(Optimize(arg))
    case Step(left, axis, test, preds) =>
      MergeStep(if left.NoExpr? then NoExpr else SomeExpr(Optimize(left.e)), axis, test, OptimizePreds(preds))
    case Filter(base, cond, cls) =>
      var cond' := DropPosition(Optimize(cond));
      Filter(Optimize(base), cond', Classify(cond', cls))
    case Union(l, r) => Union(Optimize(l), Optimize(r))
    case Call(op, args) => OptimizeCall(op, OptimizeArgs(args))
    case TranslateTable(arg, table) => TranslateTable(Optimize(arg), table)
    case _ => e
  }

  function OptimizePreds(p: Preds): Preds {
    match p
    case PNil => PNil
    case PCons(cond, cls, next) =>
      var cond' := DropPosition(Optimize(cond));
      PCons(cond', Classify(cond', cls), OptimizePreds(next))
  }

  function OptimizeArgs(a: Args): Args {
    match a
    case ANil => ANil
    case ACons(e, next) => ACons(Optimize(e), OptimizeArgs(next))
  }

  // ----- the result is well formed -------------------------------------------------------------------

  /** Before optimisation every predicate is unclassified. */
  predicate Unclassified(e: Expr) {
    match e
    case Id(arg) => Unclassified(arg)
    case Step(left, _, _, preds) => (left.SomeExpr? ==> Unclassified(left.e)) && UnclassifiedPreds(preds)
    case Filter(base, cond, cls) => Unclassified(base) && Unclassified(cond) && cls == ClassDefault
    case Union(l, r) => Unclassified(l) && Unclassified(r)
    case Call(_, args) => UnclassifiedArgs(args)
    case TranslateTable(arg, _) => Unclassified(arg)
    case _ => true
  }

  predicate UnclassifiedPreds(p: Preds) {
    p.PCons? ==> Unclassified(p.cond) && p.cls == ClassDefault && UnclassifiedPreds(p.next)
  }

  predicate UnclassifiedArgs(a: Args) {
    a.ACons? ==> Unclassified(a.arg) && UnclassifiedArgs(a.next)
  }

  lemma {:induction false} KeepsType(e: Expr)
    ensures RetType(Optimize(e)) == RetType(e)
  {
  }

  lemma {:induction false} KeepsArgTypes(a: Args)
    ensures ArgTypes(OptimizeArgs(a)) == ArgTypes(a)
  {
    if a.ACons? { KeepsType(a.arg); KeepsArgTypes(a.next); }
  }

  lemma ConditionReady(cond: Expr)
    requires Ready(cond)
    ensures Ready(DropPosition(cond)) && ClassOk(DropPosition(cond), Classify(DropPosition(cond), ClassDefault))
  {
    match cond
    case Call(Equal, ACons(Position, ACons(e, ANil))) =>
      var args := ACons(Position, ACons(e, ANil));
      assert WellTypedArgs(args) && ClassifiedArgs(args);
      assert WellTypedArgs(args.next) && ClassifiedArgs(args.next);
    case _ =>
  }

  lemma CallReady(op: Op, args: Args)
    requires WellTypedArgs(args) && ClassifiedArgs(args)
    requires NeedsSet(op) && args.ACons? ==> RetType(args.arg) == TSet && args.next.ANil?
    ensures Ready(OptimizeCall(op, args))
  {
    assert WellTyped(Call(op, args)) && Classified(Call(op, args));
  }

  /** Optimising a parsed query yields a well-typed query whose classes are justified. */
  lemma {:induction false} OptimizeReady(e: Expr)
    requires WellTyped(e) && Unclassified(e)
    ensures Ready(Optimize(e))
    decreases e
  {
    match e
    case Id(arg) => OptimizeReady(arg);
    case Step(left, axis, test, preds) =>
      if left.SomeExpr? { OptimizeReady(left.e); KeepsType(left.e); }
      OptimizePredsReady(preds);
    case Filter(base, cond, _) =>
      OptimizeReady(base); KeepsType(base);
      OptimizeReady(cond); ConditionReady(Optimize(cond));
    case Union(l, r) => OptimizeReady(l); OptimizeReady(r); KeepsType(l); KeepsType(r);
    case Call(op, args) =>
      OptimizeArgsReady(args);
      if args.ACons? { KeepsType(args.arg); }
      assert args.ACons? && args.next.ANil? ==> OptimizeArgs(args.next) == ANil;
      CallReady(op, OptimizeArgs(args));
    case TranslateTable(arg, _) => OptimizeReady(arg);
    case _ =>
  }

  lemma {:induction false} OptimizePredsReady(p: Preds)
    requires WellTypedPreds(p) && UnclassifiedPreds(p)
    ensures WellTypedPreds(OptimizePreds(p)) && ClassifiedPreds(OptimizePreds(p))
    decreases p
  {
    if p.PCons? {
      OptimizeReady(p.cond); ConditionReady(Optimize(p.cond));
      OptimizePredsReady(p.next);
    }
  }

  lemma {:induction false} OptimizeArgsReady(a: Args)
    requires WellTypedArgs(a) && UnclassifiedArgs(a)
    ensures WellTypedArgs(OptimizeArgs(a)) && ClassifiedArgs(OptimizeArgs(a))
    decreases a
  {
    if a.ACons? { OptimizeReady(a.arg); OptimizeArgsReady(a.next); }
  }

  // ----- predicates keep their meaning -----------------------------------------------------------------

  /** The two operands of an operator, converted. */
  lemma TwoArgs(env: Env, op: Op, a: Expr, b: Expr, c: Ctx)
    ensures var types := [RetType(a), RetType(b)];
      EvalArgs(env, ACons(a, ACons(b, ANil)), c, op, ArgTypes(ACons(a, ACons(b, ANil))), 0) ==
      [ToArg(env, Eval(env, a, c), UseOf(op, types, 0)), ToArg(env, Eval(env, b, c), UseOf(op, types, 1))]
  {
    var b1 := ACons(b, ANil);
    var types := [RetType(a), RetType(b)];
    assert ArgTypes(b1) == [RetType(b)];
    assert ArgTypes(ACons(a, b1)) == types;
    assert EvalArgs(env, ANil, c, op, types, 2) == [];
    assert EvalArgs(env, b1, c, op, types, 1) == [ToArg(env, Eval(env, b, c), UseOf(op, types, 1))];
  }

  /** `[position() = e]` accepts what `[e]` accepts. */
  lemma {:induction false} DropPositionOk(env: Env, cond: Expr, c: Ctx)
    ensures Holds(env, DropPosition(cond), c) == Holds(env, cond, c)
  {
    match cond
    case Call(Equal, ACons(Position, ACons(e, ANil))) =>
      if RetType(e) == TNum {
        EvalHasType(env, e, c);
        TwoArgs(env, Equal, Position, e, c);
        assert Eval(env, cond, c) == VBool(NumEq(Fin(c.pos as real), Eval(env, e, c).n));
      }
    case _ =>
  }

  lemma SelectSame(env: Env, cond: Expr, cond': Expr, S: set<XNode>, rev: bool)
    requires forall c :: Holds(env, cond, c) == Holds(env, cond', c)
    ensures Select(env, cond, S, rev) == Select(env, cond', S, rev)
  {
  }

  // ----- the step rewrite --------------------------------------------------------------------------------

  ghost predicate PassesAll(env: Env, p: Preds, x: XNode) {
    p.PCons? ==> Holds(env, p.cond, Ctx(x, 0, 0)) && PassesAll(env, p.next, x)
  }

  /** Positionally invariant predicates are plain node filters. */
  lemma {:induction false} PosinvPredsFilter(env: Env, p: Preds, S: set<XNode>, rev: bool)
    requires WellTypedPreds(p) && ClassifiedPreds(p) && AllPosinv(p)
    ensures EvalPreds(env, p, S, rev) == set x | x in S && PassesAll(env, p, x)
    decreases p
  {
    if p.PCons? {
      var T := Select(env, p.cond, S, rev);
      forall x ensures x in T <==> x in S && Holds(env, p.cond, Ctx(x, 0, 0)) {
        PosinvHolds(env, p.cond, x, ProximityPosition(x, S, rev), |S|, 0, 0);
      }
      PosinvPredsFilter(env, p.next, T, rev);
    }
  }

  lemma PosinvStep(env: Env, axis: Axis, test: NodeTest, p: Preds, x: XNode, y: XNode)
    requires WellTypedPreds(p) && ClassifiedPreds(p) && AllPosinv(p)
    ensures y in EvalStep(env, axis, test, p, x) <==> Selects(env.doc, axis, test, x, y) && PassesAll(env, p, y)
  {
    PosinvPredsFilter(env, p, StepSet(env.doc, axis, test, x), IsReverse(axis));
    StepSetMember(env.doc, axis, test, x, y);
  }

  /** A node lies on the merged axis exactly when a detour through descendant-or-self leads to it. */
  lemma DetourLeadsThere(d: Doc, axis: Axis, test: NodeTest, w: XNode, x: XNode, y: XNode)
    requires WellFormed(d) && IsDescent(axis)
    requires Selects(d, DescendantOrSelf, TestNode, w, x) && Selects(d, axis, test, x, y)
    ensures Selects(d, MergedAxis(axis), test, w, y)
  {
    if x.Node? && y.Node? && w.Node? {
      if axis == Child { assert Anc(d, x.id, y.id); }
      AncTransitive(d, w.id, x.id, y.id);
    }
  }

  function Detour(d: Doc, axis: Axis, w: XNode, y: XNode): XNode {
    if axis == Child && y.Node? && y.id < |d.par| && d.par[y.id] >= 0 then Node(d.par[y.id])
    else if axis == Self then y
    else w
  }

  lemma DetourExists(d: Doc, axis: Axis, test: NodeTest, w: XNode, y: XNode)
    requires WellFormed(d) && IsDescent(axis) && Selects(d, MergedAxis(axis), test, w, y)
    ensures var x := Detour(d, axis, w, y);
      Selects(d, DescendantOrSelf, TestNode, w, x) && Selects(d, axis, test, x, y)
  {
    if axis == Child {
      assert Anc(d, w.id, y.id);
      assert Anc(d, d.par[y.id], y.id);
    }
  }

  lemma MergedHasDetour(env: Env, axis: Axis, test: NodeTest, preds: Preds, w: XNode, y: XNode)
    requires ValidEnv(env) && IsDescent(axis) && y in EvalStep(env, MergedAxis(axis), test, preds, w)
    requires WellTypedPreds(preds) && ClassifiedPreds(preds) && AllPosinv(preds)
    ensures var x := Detour(env.doc, axis, w, y);
      x in EvalStep(env, DescendantOrSelf, TestNode, PNil, w) && y in EvalStep(env, axis, test, preds, x)
  {
    PosinvStep(env, MergedAxis(axis), test, preds, w, y);
    DetourExists(env.doc, axis, test, w, y);
    var x := Detour(env.doc, axis, w, y);
    PosinvStep(env, DescendantOrSelf, TestNode, PNil, w, x);
    PosinvStep(env, axis, test, preds, x, y);
  }

  lemma DetourIsMerged(env: Env, axis: Axis, test: NodeTest, preds: Preds, w: XNode, x: XNode, y: XNode)
    requires ValidEnv(env) && IsDescent(axis)
    requires WellTypedPreds(preds) && ClassifiedPreds(preds) && AllPosinv(preds)
    requires x in EvalStep(env, DescendantOrSelf, TestNode, PNil, w) && y in EvalStep(env, axis, test, preds, x)
    ensures y in EvalStep(env, MergedAxis(axis), test, preds, w)
  {
    PosinvStep(env, DescendantOrSelf, TestNode, PNil, w, x);
    PosinvStep(env, axis, test, preds, x, y);
    DetourLeadsThere(env.doc, axis, test, w, x, y);
    PosinvStep(env, MergedAxis(axis), test, preds, w, y);
  }

  lemma UnionOfUnion(L: set<XNode>, f: XNode -> set<XNode>, g: XNode -> set<XNode>, h: XNode -> set<XNode>)
    requires forall w, y :: y in h(w) <==> exists x :: x in f(w) && y in g(x)
    ensures UnionOf(UnionOf(L, f), g) == UnionOf(L, h)
  {
    forall y ensures y in UnionOf(UnionOf(L, f), g) <==> y in UnionOf(L, h) {
      if y in UnionOf(UnionOf(L, f), g) {
        var x :| x in UnionOf(L, f) && y in g(x);
        var w :| w in L && x in f(w);
        assert y in h(w);
      }
      if y in UnionOf(L, h) {
        var w :| w in L && y in h(w);
        var x :| x in f(w) && y in g(x);
        assert x in UnionOf(L, f);
      }
    }
  }

  ghost function LeftSet(env: Env, left: OptExpr, c: Ctx): set<XNode> {
    if left.NoExpr? then {c.n} else AsSet(Eval(env, left.e, c))
  }

  lemma EvalOfStep(env: Env, left: OptExpr, axis: Axis, test: NodeTest, preds: Preds, c: Ctx)
    ensures Eval(env, Step(left, axis, test, preds), c) ==
            VSet(UnionOf(LeftSet(env, left, c), StepFrom(env, axis, test, preds)))
  {
    var s := x => EvalStep(env, axis, test, preds, x);
    assert UnionOf(LeftSet(env, left, c), s) == UnionOf(LeftSet(env, left, c), StepFrom(env, axis, test, preds));
  }

  lemma {:induction false} MergedIsDetour(env: Env, axis: Axis, test: NodeTest, preds: Preds)
    requires ValidEnv(env) && IsDescent(axis)
    requires WellTypedPreds(preds) && ClassifiedPreds(preds) && AllPosinv(preds)
    ensures var f, g, h := StepFrom(env, DescendantOrSelf, TestNode, PNil), StepFrom(env, axis, test, preds),
                           StepFrom(env, MergedAxis(axis), test, preds);
      forall w, y :: y in h(w) <==> exists x :: x in f(w) && y in g(x)
  {
    var f, g, h := StepFrom(env, DescendantOrSelf, TestNode, PNil), StepFrom(env, axis, test, preds),
                   StepFrom(env, MergedAxis(axis), test, preds);
    forall w, y ensures y in h(w) <==> exists x :: x in f(w) && y in g(x) {
      if y in h(w) {
        MergedHasDetour(env, axis, test, preds, w, y);
        assert Detour(env.doc, axis, w, y) in f(w) && y in g(Detour(env.doc, axis, w, y));
      }
      if x :| x in f(w) && y in g(x) {
        DetourIsMerged(env, axis, test, preds, w, x, y);
      }
    }
  }

  /** Collapsing `//` into one step selects the same set of nodes. */
  lemma MergeOk(env: Env, left: OptExpr, axis: Axis, test: NodeTest, preds: Preds, c: Ctx)
    requires ValidEnv(env) && WellTypedPreds(preds) && ClassifiedPreds(preds)
    ensures Eval(env, MergeStep(left, axis, test, preds), c) == Eval(env, Step(left, axis, test, preds), c)
  {
    if MergeStep(left, axis, test, preds) != Step(left, axis, test, preds) {
      var l2 := left.e.left;
      EvalOfStep(env, l2, DescendantOrSelf, TestNode, PNil, c);
      EvalOfStep(env, left, axis, test, preds, c);
      EvalOfStep(env, l2, MergedAxis(axis), test, preds, c);
      MergedIsDetour(env, axis, test, preds);
      UnionOfUnion(LeftSet(env, l2, c), StepFrom(env, DescendantOrSelf, TestNode, PNil),
                   StepFrom(env, axis, test, preds), StepFrom(env, MergedAxis(axis), test, preds));
    }
  }

  // ----- the operator rewrites ----------------------------------------------------------------------------

  /** What the table says about character code `c`. */
  function Entry(from: string, to: string, table: seq<nat>, c: nat): nat
    requires |table| == 128 && c < 128
  {
    var p := FindChar(from, c as char);
    if table[c] != 0 then table[c]
    else if p >= |from| then 0
    else if p < |to| then to[p] as int
    else 128
  }

  lemma {:induction false} BuildTableOk(from: string, to: string, table: seq<nat>)
    requires |table| == 128 && '\0' !in to && BuildTable(from, to, table).Some?
    ensures forall c :: 0 <= c < 128 ==> BuildTable(from, to, table).value[c] == Entry(from, to, table, c)
    ensures forall i :: 0 <= i < |from| ==> from[i] as int < 128
    ensures forall i :: 0 <= i < |from| && i < |to| ==> to[i] as int < 128
  {
    if from != [] {
      var code := if to == [] then 128 else to[0] as int;
      var rest := if to == [] then [] else to[1..];
      var c0 := from[0] as int;
      var next := if table[c0] == 0 then table[c0 := code] else table;
      BuildTableOk(from[1..], rest, next);
      if to != [] { assert to[0] in to; }
      assert code != 0;
      forall c | 0 <= c < 128 ensures Entry(from[1..], rest, next, c) == Entry(from, to, table, c) {
        if c == c0 {
        } else {
          assert FindChar(from, c as char) == 1 + FindChar(from[1..], c as char);
        }
      }
    }
  }

  lemma {:induction false} FindCharBound(from: string, c: char)
    ensures FindChar(from, c) <= |from|
    ensures FindChar(from, c) < |from| ==> from[FindChar(from, c)] == c
    ensures FindChar(from, c) == |from| ==> c !in from
  {
    if from != [] && from[0] != c { FindCharBound(from[1..], c); }
  }

  /** The generated table translates every string as the two constants do. */
  lemma {:induction false} TableAgrees(s: string, from: string, to: string)
    requires '\0' !in from && '\0' !in to && GenerateTable(from, to).Some?
    ensures TranslateByTable(s, GenerateTable(from, to).value) == TranslateString(s, from, to)
    decreases |s|
  {
    if s != [] {
      TableAgrees(s[1..], from, to);
      var zero := seq(128, i => 0);
      BuildTableOk(from, to, zero);
      FindCharBound(from, s[0]);
      var c, p := s[0] as int, FindChar(from, s[0]);
      var code := GenerateTable(from, to).value;
      if c < 128 {
        assert code[c] == if Entry(from, to, zero, c) == 0 then c else Entry(from, to, zero, c);
        if p < |from| && p < |to| { assert to[p] in to && to[p] as int != 0; }
      }
    }
  }

  lemma {:induction false} TranslateOk(env: Env, e: Expr, from: string, to: string, c: Ctx)
    requires '\0' !in from && '\0' !in to && GenerateTable(from, to).Some?
    ensures var args := ACons(e, ACons(StringConst(from), ACons(StringConst(to), ANil)));
      Eval(env, TranslateTable(e, GenerateTable(from, to).value), c) == Eval(env, Call(Translate, args), c)
  {
    var s := ToStr(env, Eval(env, e, c));
    TranslateArgs(env, e, from, to, c);
    ApplyTranslate(env, c.n, s, from, to);
    TableAgrees(s, from, to);
  }

  lemma {:induction false} ApplyTranslate(env: Env, n: XNode, s: string, from: string, to: string)
    ensures Apply(env, Translate, n, [AStr(s), AStr(from), AStr(to)]) == VStr(TranslateString(s, from, to))
  {
  }

  lemma {:induction false} TranslateArgs(env: Env, e: Expr, from: string, to: string, c: Ctx)
    ensures var args := ACons(e, ACons(StringConst(from), ACons(StringConst(to), ANil)));
      EvalArgs(env, args, c, Translate, ArgTypes(args), 0) ==
      [AStr(ToStr(env, Eval(env, e, c))), AStr(from), AStr(to)]
  {
    var a2 := ACons(StringConst(to), ANil);
    var a1 := ACons(StringConst(from), a2);
    var args := ACons(e, a1);
    var types := ArgTypes(args);
    assert ArgTypes(a2) == [TStr];
    assert ArgTypes(a1) == [TStr] + ArgTypes(a2);
    assert |types| == 3;
    assert EvalArgs(env, a2, c, Translate, types, 2) == [AStr(to)];
    assert EvalArgs(env, a1, c, Translate, types, 1) == [AStr(from), AStr(to)];
  }

  lemma AttributeStepSet(env: Env, n: string, c: Ctx, x: XNode)
    requires ValidEnv(env)
    ensures x in AsSet(Eval(env, Step(NoExpr, AttributeAxis, TestName(n), PNil), c)) <==>
            Selects(env.doc, AttributeAxis, TestName(n), c.n, x)
  {
    EvalOfStep(env, NoExpr, AttributeAxis, TestName(n), PNil, c);
    PosinvStep(env, AttributeAxis, TestName(n), PNil, c.n, x);
    assert x in StepFrom(env, AttributeAxis, TestName(n), PNil)(c.n) <==>
      x in EvalStep(env, AttributeAxis, TestName(n), PNil, c.n);
  }

  /** The attributes a named attribute step selects are those `attribute(name)` returns. */
  lemma NamedAttribute(env: Env, n: string, v: string, x: XNode, k: nat)
    requires ValidEnv(env)
    ensures HasAttributeWith(env, x, n, v, k) <==>
      x.Node? && Selects(env.doc, AttributeAxis, TestName(n), x, Attr(x.id, k)) && StringValue(env, Attr(x.id, k)) == v
  {
  }

  lemma {:induction false} EqualArgs(env: Env, attr: Expr, rhs: Expr, c: Ctx)
    requires RetType(attr) == TSet && RetType(rhs) == TStr
    ensures Eval(env, Call(Equal, ACons(attr, ACons(rhs, ANil))), c) ==
            VBool(Compare(env, true, ASet(AsSet(Eval(env, attr, c))), AStr(ToStr(env, Eval(env, rhs, c)))))
  {
    TwoArgs(env, Equal, attr, rhs, c);
    assert UseOf(Equal, [TSet, TStr], 0) == UseSet && UseOf(Equal, [TSet, TStr], 1) == UseStr;
    assert Apply(env, Equal, c.n, [ASet(AsSet(Eval(env, attr, c))), AStr(ToStr(env, Eval(env, rhs, c)))]) ==
           VBool(Compare(env, true, ASet(AsSet(Eval(env, attr, c))), AStr(ToStr(env, Eval(env, rhs, c)))));
  }

  /** `@name = value` compares the first attribute of that name. */
  lemma {:induction false} CompareAttributeOk(env: Env, n: string, rhs: Expr, c: Ctx)
    requires ValidEnv(env) && IsStringLike(rhs)
    ensures var attr := Step(NoExpr, AttributeAxis, TestName(n), PNil);
      Eval(env, CompareAttribute(n, rhs), c) == Eval(env, Call(Equal, ACons(attr, ACons(rhs, ANil))), c)
  {
    var attr := Step(NoExpr, AttributeAxis, TestName(n), PNil);
    var v := ToStr(env, Eval(env, rhs, c));
    var S := AsSet(Eval(env, attr, c));
    EqualArgs(env, attr, rhs, c);
    if x :| x in S && Matches(true, v == StringValue(env, x)) {
      AttributeStepSet(env, n, c, x);
      NamedAttribute(env, n, v, c.n, x.index);
      assert HasAttributeWith(env, c.n, n, v, x.index);
    }
    if k :| HasAttributeWith(env, c.n, n, v, k) {
      var x := Attr(c.n.id, k);
      NamedAttribute(env, n, v, c.n, k);
      AttributeStepSet(env, n, c, x);
      assert Matches(true, v == StringValue(env, x));
    }
  }

  lemma {:induction false} OptimizeCallOk(env: Env, op: Op, args: Args, c: Ctx)
    requires ValidEnv(env) && WellTypedArgs(args)
    ensures Eval(env, OptimizeCall(op, args), c) == Eval(env, Call(op, args), c)
  {
    match (op, args)
    case (Translate, ACons(e, ACons(StringConst(from), ACons(StringConst(to), ANil)))) =>
      assert WellTypedArgs(args.next) && WellTypedArgs(args.next.next);
      assert WellTyped(StringConst(from)) && WellTyped(StringConst(to));
      if GenerateTable(from, to).Some? { TranslateOk(env, e, from, to, c); }
    case (Equal, ACons(Step(NoExpr, AttributeAxis, TestName(n), PNil), ACons(rhs, ANil))) =>
      if IsStringLike(rhs) { CompareAttributeOk(env, n, rhs, c); }
    case _ =>
  }

  // ----- the whole pass ------------------------------------------------------------------------------------

  /** The optimised query has the same value in every context. */
  lemma {:induction false} OptimizePreservesMeaning(env: Env, e: Expr, c: Ctx)
    requires ValidEnv(env) && WellTyped(e) && Unclassified(e)
    ensures Eval(env, Optimize(e), c) == Eval(env, e, c)
    decreases e, 1
  {
    match e
    case Step(left, axis, test, preds) =>
      var left' := if left.NoExpr? then NoExpr else SomeExpr(Optimize(left.e));
      var preds' := OptimizePreds(preds);
      if left.SomeExpr? { OptimizePreservesMeaning(env, left.e, c); }
      OptimizePredsReady(preds);
      MergeOk(env, left', axis, test, preds', c);
      EvalOfStep(env, left', axis, test, preds', c);
      EvalOfStep(env, left, axis, test, preds, c);
      forall x ensures EvalStep(env, axis, test, preds', x) == EvalStep(env, axis, test, preds, x) {
        OptimizePredsOk(env, preds, StepSet(env.doc, axis, test, x), IsReverse(axis));
      }
      SameUnion(LeftSet(env, left, c), StepFrom(env, axis, test, preds'), StepFrom(env, axis, test, preds));
    case Filter(base, cond, cls) =>
      OptimizePreservesMeaning(env, base, c);
      ConditionOk(env, cond, AsSet(Eval(env, base, c)), false);
    case Union(l, r) => OptimizePreservesMeaning(env, l, c); OptimizePreservesMeaning(env, r, c);
    case Call(op, args) =>
      OptimizeArgsOk(env, args, c, op, ArgTypes(args), 0);
      KeepsArgTypes(args);
      OptimizeArgsReady(args);
      OptimizeCallOk(env, op, OptimizeArgs(args), c);
    case TranslateTable(arg, _) => OptimizePreservesMeaning(env, arg, c);
    case _ =>
  }

  lemma SameUnion(L: set<XNode>, f: XNode -> set<XNode>, g: XNode -> set<XNode>)
    requires forall x :: f(x) == g(x)
    ensures UnionOf(L, f) == UnionOf(L, g)
  {
  }

  lemma {:induction false} ConditionOk(env: Env, cond: Expr, S: set<XNode>, rev: bool)
    requires ValidEnv(env) && WellTyped(cond) && Unclassified(cond)
    ensures Select(env, DropPosition(Optimize(cond)), S, rev) == Select(env, cond, S, rev)
    decreases cond, 2
  {
    forall c ensures Holds(env, cond, c) == Holds(env, DropPosition(Optimize(cond)), c) {
      OptimizePreservesMeaning(env, cond, c);
      DropPositionOk(env, Optimize(cond), c);
    }
    SelectSame(env, cond, DropPosition(Optimize(cond)), S, rev);
  }

  lemma {:induction false} OptimizePredsOk(env: Env, p: Preds, S: set<XNode>, rev: bool)
    requires ValidEnv(env) && WellTypedPreds(p) && UnclassifiedPreds(p)
    ensures EvalPreds(env, OptimizePreds(p), S, rev) == EvalPreds(env, p, S, rev)
    decreases p
  {
    if p.PCons? {
      ConditionOk(env, p.cond, S, rev);
      OptimizePredsOk(env, p.next, Select(env, p.cond, S, rev), rev);
    }
  }

  lemma {:induction false} OptimizeArgsOk(env: Env, args: Args, c: Ctx, op: Op, types: seq<Type>, k: nat)
    requires ValidEnv(env) && WellTypedArgs(args) && UnclassifiedArgs(args)
    ensures EvalArgs(env, OptimizeArgs(args), c, op, types, k) == EvalArgs(env, args, c, op, types, k)
    decreases args
  {
    if args.ACons? {
      OptimizePreservesMeaning(env, args.arg, c);
      OptimizeArgsOk(env, args.next, c, op, types, k + 1);
    }
  }

  // ----- the end-to-end theorem ----------------------------------------------------------------------------

  /** Optimising and then evaluating with every shortcut refines the reference meaning of the query as parsed. */
  lemma {:induction false} OptimizedQueryIsCorrect(env: Env, e: Expr, c: Ctx, mode: Mode)
    requires ValidEnv(env) && ValidCtx(env, c) && WellTyped(e) && Unclassified(e)
    ensures RetType(e) != TSet ==> EvalScalar(env, Optimize(e), c) == Eval(env, e, c)
    ensures RetType(e) == TSet ==> Refines(env.doc, RunSet(env, Optimize(e), c, mode), AsSet(Eval(env, e, c)), mode)
  {
    OptimizeReady(e);
    KeepsType(e);
    OptimizePreservesMeaning(env, e, c);
    if RetType(e) == TSet {
      RunSetOk(env, Optimize(e), c, mode);
    } else {
      ScalarOk(env, Optimize(e), c);
    }
  }
}
