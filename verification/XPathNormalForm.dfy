// One pass of the optimiser leaves nothing to rewrite.
module XPathNormalForm {
  import opened Basics
  import opened XPathAst
  import opened XPathRefinement
  import opened XPathOptimizer

  /** position() or last() occurs, other than inside a location path or a filter, which bring their own. */
  predicate AsksPosition(e: Expr) {
    match e
    case Position | Last => true
    case Id(arg) => AsksPosition(arg)
    case Union(l, r) => AsksPosition(l) || AsksPosition(r)
    case Call(_, args) => ArgsAskPosition(args)
    case TranslateTable(arg, _) => AsksPosition(arg)
    case _ => false
  }

  predicate ArgsAskPosition(a: Args) {
    a.ACons? && (AsksPosition(a.arg) || ArgsAskPosition(a.next))
  }

  lemma {:induction false} PosinvIff(e: Expr)
    ensures IsPosinv(e) <==> !AsksPosition(e)
    decreases e
  {
    match e
    case Id(arg) => PosinvIff(arg);
    case Union(l, r) => PosinvIff(l); PosinvIff(r);
    case Call(_, args) => PosinvArgsIff(args);
    case TranslateTable(arg, _) => PosinvIff(arg);
    case _ =>
  }

  lemma {:induction false} PosinvArgsIff(a: Args)
    ensures IsPosinvArgs(a) <==> !ArgsAskPosition(a)
    decreases a
  {
    if a.ACons? { PosinvIff(a.arg); PosinvArgsIff(a.next); }
  }

  /** Every predicate that could be is picked by index or filtered in any order, and no other. */
  predicate BestClass(cond: Expr, cls: PredClass) {
    match cls
    case ClassConstantOne => cond == NumberConst(Fin(1.0))
    case ClassConstant => cond == Last || (cond.Variable? && cond.vtype == TNum) ||
      (cond.NumberConst? && cond.v != Fin(1.0))
    case ClassPosinv => RetType(cond) != TNum && !AsksPosition(cond)
    case ClassDefault =>
      && !cond.NumberConst? && cond != Last && !(cond.Variable? && cond.vtype == TNum)
      && (RetType(cond) == TNum || AsksPosition(cond))
  }

  /** `position() = e` for a number `e`. */
  predicate ComparesPosition(cond: Expr) {
    && cond.Call? && cond.op == Equal && cond.args.ACons? && cond.args.arg == Position
    && cond.args.next.ACons? && cond.args.next.next.ANil? && RetType(cond.args.next.arg) == TNum
  }

  /** `descendant-or-self::node()`. */
  predicate IsDetour(e: Expr) {
    e.Step? && e.axis == DescendantOrSelf && e.test == TestNode && e.preds.PNil?
  }

  predicate NoneDependsOnPosition(p: Preds) {
    p.PCons? ==> RetType(p.cond) != TNum && !AsksPosition(p.cond) && NoneDependsOnPosition(p.next)
  }

  predicate GoesDown(axis: Axis) {
    axis in {Self, Child, Descendant, DescendantOrSelf}
  }

  /** Characters that have a place in the table, as far as `from` needs them. */
  predicate Tabular(from: string, to: string) {
    && (forall i :: 0 <= i < |from| ==> from[i] as int < 128)
    && (forall i :: 0 <= i < |from| && i < |to| ==> to[i] as int < 128)
  }

  predicate TranslatesConstants(op: Op, args: Args) {
    && op == Translate && args.ACons? && args.next.ACons? && args.next.next.ACons? && args.next.next.next.ANil?
    && args.next.arg.StringConst? && args.next.next.arg.StringConst?
    && Tabular(args.next.arg.s, args.next.next.arg.s)
  }

  /** `@name = 'value'` or `@name = $value`. */
  predicate ComparesAttribute(op: Op, args: Args) {
    && op == Equal && args.ACons? && args.next.ACons? && args.next.next.ANil?
    && args.arg.Step? && args.arg.left.NoExpr? && args.arg.axis == AttributeAxis && args.arg.test.TestName?
    && args.arg.preds.PNil? && IsStringLike(args.next.arg)
  }

  /** Nothing is left that one of the rewritings applies to. */
  predicate Normal(e: Expr) {
    match e
    case Id(arg) => Normal(arg)
    case Step(left, axis, _, preds) =>
      && (left.SomeExpr? ==> Normal(left.e)) && NormalPreds(preds)
      && !(GoesDown(axis) && left.SomeExpr? && IsDetour(left.e) && NoneDependsOnPosition(preds))
    case Filter(base, cond, cls) => Normal(base) && Normal(cond) && !ComparesPosition(cond) && BestClass(cond, cls)
    case Union(l, r) => Normal(l) && Normal(r)
    case Call(op, args) => NormalArgs(args) && !TranslatesConstants(op, args) && !ComparesAttribute(op, args)
    case TranslateTable(arg, _) => Normal(arg)
    case _ => true
  }

  predicate NormalPreds(p: Preds) {
    p.PCons? ==> Normal(p.cond) && !ComparesPosition(p.cond) && BestClass(p.cond, p.cls) && NormalPreds(p.next)
  }

  predicate NormalArgs(a: Args) {
    a.ACons? ==> Normal(a.arg) && NormalArgs(a.next)
  }

  // ----- the pass ends in a normal form ---------------------------------------------------------------------

  lemma {:induction false} TableIff(from: string, to: string, table: seq<nat>)
    requires |table| == 128
    ensures BuildTable(from, to, table).Some? <==> Tabular(from, to)
    decreases |from|
  {
    if from != [] && !(from[0] as int >= 128 || (to != [] && to[0] as int >= 128)) {
      var c, code, rest := from[0] as int, if to == [] then 128 else to[0] as int, if to == [] then [] else to[1..];
      TableIff(from[1..], rest, if table[c] == 0 then table[c := code] else table);
      assert Tabular(from, to) ==> Tabular(from[1..], rest);
      if Tabular(from[1..], rest) {
        forall i | 0 <= i < |from| ensures from[i] as int < 128 {
          if i > 0 { assert from[1..][i - 1] == from[i]; }
        }
        forall i | 0 <= i < |from| && i < |to| ensures to[i] as int < 128 {
          if i > 0 { assert to[1..][i - 1] == to[i]; }
        }
      }
    }
  }

  lemma {:induction false} ConditionNormal(cond: Expr)
    requires Normal(cond)
    ensures var c := DropPosition(cond);
      Normal(c) && !ComparesPosition(c) && BestClass(c, Classify(c, ClassDefault))
  {
    var c := DropPosition(cond);
    PosinvIff(c);
    if ComparesPosition(cond) {
      assert NormalArgs(cond.args) && NormalArgs(cond.args.next);
    }
  }

  /** The predicates whose class allows any order are those that do not depend on a position. */
  lemma {:induction false} AllPosinvIff(p: Preds)
    requires NormalPreds(p)
    ensures AllPosinv(p) <==> NoneDependsOnPosition(p)
    decreases p
  {
    if p.PCons? { AllPosinvIff(p.next); }
  }

  /** A step merges exactly if it comes behind a detour and does not depend on a position. */
  predicate Merges(left: OptExpr, axis: Axis, preds: Preds) {
    GoesDown(axis) && left.SomeExpr? && IsDetour(left.e) && NoneDependsOnPosition(preds)
  }

  lemma {:induction false} MergeIff(left: OptExpr, axis: Axis, test: NodeTest, preds: Preds)
    requires NormalPreds(preds)
    ensures MergeStep(left, axis, test, preds) ==
      if Merges(left, axis, preds) then Step(left.e.left, MergedAxis(axis), test, preds)
      else Step(left, axis, test, preds)
  {
    AllPosinvIff(preds);
  }

  /** What stands in front of a detour is no detour. */
  lemma {:induction false} BeforeDetour(e: Expr)
    requires Normal(e) && IsDetour(e)
    ensures e.left.SomeExpr? ==> Normal(e.left.e) && !IsDetour(e.left.e)
  {
    assert NoneDependsOnPosition(e.preds);
  }

  lemma {:induction false} MergeNormal(left: OptExpr, axis: Axis, test: NodeTest, preds: Preds)
    requires (left.SomeExpr? ==> Normal(left.e)) && NormalPreds(preds)
    ensures Normal(MergeStep(left, axis, test, preds))
  {
    MergeIff(left, axis, test, preds);
    if Merges(left, axis, preds) { BeforeDetour(left.e); }
  }

  lemma {:induction false} CallNormal(op: Op, args: Args)
    requires NormalArgs(args)
    ensures Normal(OptimizeCall(op, args))
  {
    if TranslatesConstants(op, args) {
      TableIff(args.next.arg.s, args.next.next.arg.s, seq(128, i => 0));
    }
  }

  /** One pass over a parsed query leaves nothing to rewrite. */
  lemma {:induction false} OptimizeIsNormal(e: Expr)
    requires Unclassified(e)
    ensures Normal(Optimize(e))
    decreases e
  {
    match e
    case Id(arg) => OptimizeIsNormal(arg);
    case Step(left, axis, test, preds) =>
      if left.SomeExpr? { OptimizeIsNormal(left.e); }
      OptimizePredsNormal(preds);
      MergeNormal(if left.NoExpr? then NoExpr else SomeExpr(Optimize(left.e)), axis, test, OptimizePreds(preds));
    case Filter(base, cond, _) =>
      OptimizeIsNormal(base);
      OptimizeIsNormal(cond);
      ConditionNormal(Optimize(cond));
    case Union(l, r) => OptimizeIsNormal(l); OptimizeIsNormal(r);
    case Call(op, args) =>
      OptimizeArgsNormal(args);
      CallNormal(op, OptimizeArgs(args));
    case TranslateTable(arg, _) => OptimizeIsNormal(arg);
    case _ =>
  }

  lemma {:induction false} OptimizePredsNormal(p: Preds)
    requires UnclassifiedPreds(p)
    ensures NormalPreds(OptimizePreds(p))
    decreases p
  {
    if p.PCons? {
      OptimizeIsNormal(p.cond);
      ConditionNormal(Optimize(p.cond));
      OptimizePredsNormal(p.next);
    }
  }

  lemma {:induction false} OptimizeArgsNormal(a: Args)
    requires UnclassifiedArgs(a)
    ensures NormalArgs(OptimizeArgs(a))
    decreases a
  {
    if a.ACons? { OptimizeIsNormal(a.arg); OptimizeArgsNormal(a.next); }
  }

  // ----- and a normal form is not changed ----------------------------------------------------------------------

  lemma {:induction false} ConditionFixed(cond: Expr, cls: PredClass)
    requires !ComparesPosition(cond) && BestClass(cond, cls)
    ensures DropPosition(cond) == cond && Classify(cond, cls) == cls
  {
    PosinvIff(cond);
  }

  lemma {:induction false} NormalIsFixed(e: Expr)
    requires Normal(e)
    ensures Optimize(e) == e
    decreases e
  {
    match e
    case Id(arg) => NormalIsFixed(arg);
    case Step(left, axis, test, preds) =>
      if left.SomeExpr? { NormalIsFixed(left.e); }
      PredsFixed(preds);
      AllPosinvIff(preds);
    case Filter(base, cond, cls) =>
      NormalIsFixed(base);
      NormalIsFixed(cond);
      ConditionFixed(cond, cls);
    case Union(l, r) => NormalIsFixed(l); NormalIsFixed(r);
    case Call(op, args) =>
      ArgsFixed(args);
      CallFixed(op, args);
    case TranslateTable(arg, _) => NormalIsFixed(arg);
    case _ =>
  }

  lemma {:induction false} CallFixed(op: Op, args: Args)
    requires !TranslatesConstants(op, args) && !ComparesAttribute(op, args)
    ensures OptimizeCall(op, args) == Call(op, args)
  {
    match (op, args)
    case (Translate, ACons(e, ACons(StringConst(from), ACons(StringConst(t), ANil)))) =>
      TableIff(from, t, seq(128, i => 0));
    case _ =>
  }

  lemma {:induction false} PredsFixed(p: Preds)
    requires NormalPreds(p)
    ensures OptimizePreds(p) == p
    decreases p
  {
    if p.PCons? {
      NormalIsFixed(p.cond);
      ConditionFixed(p.cond, p.cls);
      PredsFixed(p.next);
    }
  }

  lemma {:induction false} ArgsFixed(a: Args)
    requires NormalArgs(a)
    ensures OptimizeArgs(a) == a
    decreases a
  {
    if a.ACons? { NormalIsFixed(a.arg); ArgsFixed(a.next); }
  }

  /** So a second pass changes nothing. */
  lemma OptimizeTwice(e: Expr)
    requires Unclassified(e)
    ensures Optimize(Optimize(e)) == Optimize(e)
  {
    OptimizeIsNormal(e);
    NormalIsFixed(Optimize(e));
  }
}
