// What paths, filters and unions select, said of the nodes and not of how they are evaluated (sections 2 and 3.3 of
// XPath 1.0).
module XPathLaws {
  import opened Basics
  import opened Document
  import opened XPathAst
  import opened XPathSpec
  import opened XPathComparison

  // ----- paths -----------------------------------------------------------------------------------------------------

  ghost function TreeNodes(d: Doc): set<XNode> {
    set i | 0 <= i < |d.info| :: Node(i)
  }

  /** `/descendant-or-self::node()` is every tree node of the document, from wherever it is asked. */
  lemma {:induction false} RootReachesAll(env: Env, c: Ctx)
    requires WellFormed(env.doc) && c.n != Nil
    ensures Eval(env, Step(SomeExpr(Root), DescendantOrSelf, TestNode, PNil), c) == VSet(TreeNodes(env.doc))
  {
    var d := env.doc;
    var e := Step(SomeExpr(Root), DescendantOrSelf, TestNode, PNil);
    forall y ensures y in AsSet(Eval(env, e, c)) <==> y in TreeNodes(d) {
      PathMeans(env, Root, DescendantOrSelf, TestNode, c, y);
      AllNodesAreValid(d, y);
      assert y in StepSet(d, DescendantOrSelf, TestNode, Node(0)) <==> y.Node? && y.id < |d.info|;
    }
  }

  /** A step leads on from every node of the path in front of it. */
  lemma {:induction false} PathMeans(env: Env, left: Expr, axis: Axis, test: NodeTest, c: Ctx, y: XNode)
    ensures y in AsSet(Eval(env, Step(SomeExpr(left), axis, test, PNil), c)) <==>
            exists x :: x in AsSet(Eval(env, left, c)) && y in StepSet(env.doc, axis, test, x)
  {
    var L, step := AsSet(Eval(env, left, c)), (x: XNode) => EvalStep(env, axis, test, PNil, x);
    assert AsSet(Eval(env, Step(SomeExpr(left), axis, test, PNil), c)) == UnionOf(L, step);
    forall x ensures step(x) == StepSet(env.doc, axis, test, x) {}
    assert y in UnionOf(L, step) <==> exists x :: x in L && y in step(x);
  }

  lemma {:induction false} UnionMeans(env: Env, l: Expr, r: Expr, c: Ctx, y: XNode)
    ensures var u := Eval(env, Union(l, r), c);
      u.VSet? && (y in u.s <==> y in AsSet(Eval(env, l, c)) || y in AsSet(Eval(env, r, c)))
  {
  }

  // ----- predicates ------------------------------------------------------------------------------------------------

  /** The nodes of `S` that come before `x` in the direction of the axis. */
  ghost function Nearer(S: set<XNode>, x: XNode, rev: bool): set<XNode> {
    set y | y in S && y != x && (if rev then Before(x, y) else Before(y, x))
  }

  lemma {:induction false} PositionIs(S: set<XNode>, x: XNode, rev: bool)
    requires x in S
    ensures ProximityPosition(x, S, rev) == |Nearer(S, x, rev)| + 1
  {
    assert UpTo(x, S, rev) == Nearer(S, x, rev) + {x};
  }

  /** `[k]` keeps the node that has k - 1 others in front of it. */
  lemma {:induction false} KthNode(env: Env, k: nat, S: set<XNode>, rev: bool, x: XNode)
    ensures x in Select(env, NumberConst(Fin(k as real)), S, rev) <==> x in S && |Nearer(S, x, rev)| + 1 == k
  {
    if x in S {
      var v, c := Fin(k as real), Ctx(x, ProximityPosition(x, S, rev), |S|);
      PositionIs(S, x, rev);
      assert Eval(env, NumberConst(v), c) == VNum(v);
      assert Holds(env, NumberConst(v), c) <==> v == Fin(c.pos as real);
    }
  }

  /** `[last()]` keeps the node that has all others in front of it. */
  lemma {:induction false} LastNode(env: Env, S: set<XNode>, rev: bool, x: XNode)
    ensures x in Select(env, Last, S, rev) <==> x in S && Nearer(S, x, rev) == S - {x}
  {
    if x in S {
      var near := Nearer(S, x, rev);
      PositionIs(S, x, rev);
      assert |S - {x}| == |S| - 1 && near <= S - {x};
      SameSize(near, S - {x});
    }
  }

  lemma SameSize<T>(a: set<T>, b: set<T>)
    requires a <= b
    ensures |a| == |b| <==> a == b
  {
    assert |b| == |a| + |b - a| by { assert b == a + (b - a); }
  }

  /** `[cond]` keeps the nodes for which the condition is true, at their position among the others. */
  lemma {:induction false} NodesWhere(env: Env, cond: Expr, S: set<XNode>, rev: bool, x: XNode)
    requires RetType(cond) != TNum
    ensures x in Select(env, cond, S, rev) <==>
            x in S && IsTrue(Eval(env, cond, Ctx(x, |Nearer(S, x, rev)| + 1, |S|)))
  {
    if x in S {
      var c := Ctx(x, ProximityPosition(x, S, rev), |S|);
      PositionIs(S, x, rev);
      EvalHasType(env, cond, c);
      TruthIs(Eval(env, cond, c));
    }
  }

  /** A filter counts in document order; a step counts along its axis, and each predicate among the nodes that the
      ones before it have left. */
  lemma {:induction false} FiltersSelect(env: Env, base: Expr, cond: Expr, cls: PredClass, c: Ctx)
    ensures Eval(env, Filter(base, cond, cls), c) == VSet(Select(env, cond, AsSet(Eval(env, base, c)), false))
  {
  }

  lemma {:induction false} StepsSelect(env: Env, axis: Axis, test: NodeTest, c1: Expr, k1: PredClass, c2: Expr,
                                       k2: PredClass, c: Ctx)
    ensures var rev := axis in {Ancestor, AncestorOrSelf, Preceding, PrecedingSibling};
      var first := Select(env, c1, StepSet(env.doc, axis, test, c.n), rev);
      && Eval(env, Step(NoExpr, axis, test, PCons(c1, k1, PNil)), c) == VSet(first)
      && Eval(env, Step(NoExpr, axis, test, PCons(c1, k1, PCons(c2, k2, PNil))), c) ==
         VSet(Select(env, c2, first, rev))
  {
    var rev := IsReverse(axis);
    var S := StepSet(env.doc, axis, test, c.n);
    var first := Select(env, c1, S, rev);
    var p2 := PCons(c2, k2, PNil);
    assert EvalPreds(env, PCons(c1, k1, PNil), S, rev) == EvalPreds(env, PNil, first, rev) == first;
    assert EvalPreds(env, PCons(c1, k1, p2), S, rev) == EvalPreds(env, p2, first, rev);
    assert EvalPreds(env, p2, first, rev) == EvalPreds(env, PNil, Select(env, c2, first, rev), rev);
    OneContext(env, axis, test, PCons(c1, k1, PNil), c);
    OneContext(env, axis, test, PCons(c1, k1, p2), c);
  }

  lemma {:induction false} OneContext(env: Env, axis: Axis, test: NodeTest, preds: Preds, c: Ctx)
    ensures Eval(env, Step(NoExpr, axis, test, preds), c) ==
            VSet(EvalPreds(env, preds, StepSet(env.doc, axis, test, c.n), IsReverse(axis)))
  {
    var step := (x: XNode) => EvalStep(env, axis, test, preds, x);
    assert UnionOf({c.n}, step) == step(c.n);
  }

  // ----- operands and results --------------------------------------------------------------------------------------

  /** What the operators are given: numbers, truth values, strings, or nodes (section 4 of XPath 1.0). */
  lemma {:induction false} OperandsAre(op: Op, types: seq<Type>, k: nat)
    requires k < |types|
    ensures op in {Or, And, Boolean, Not} ==> UseOf(op, types, k) == UseBool
    ensures op in {Add, Subtract, Multiply, Divide, Mod, Negate, NumberFn, Floor, Ceiling, Round} ==>
            UseOf(op, types, k) == UseNum
    ensures op in {String, Concat, StartsWith, Contains, SubstringBefore, SubstringAfter} ==>
            UseOf(op, types, k) == UseStr
    ensures op in {StringLength, NormalizeSpace, Translate, Lang} ==> UseOf(op, types, k) == UseStr
    ensures op == Substring ==> UseOf(op, types, k) == if k == 0 then UseStr else UseNum
    ensures op == Count ==> UseOf(op, types, k) == UseCount
    ensures op == Sum ==> UseOf(op, types, k) == UseSet
    ensures op in {LocalName, NamespaceUri, Name} ==> UseOf(op, types, k) == UseFirst
  {
  }

  predicate GivesTruth(op: Op) {
    op in {Or, And, Equal, NotEqual, Less, Greater, LessOrEqual, GreaterOrEqual, StartsWith, Contains, Boolean, Not,
           True, False, Lang}
  }

  predicate GivesNumber(op: Op) {
    op in {Add, Subtract, Multiply, Divide, Mod, Negate, Count, StringLength, NumberFn, Sum, Floor, Ceiling, Round}
  }

  lemma {:induction false} ResultsAre(env: Env, op: Op, args: Args, c: Ctx)
    ensures var v := Eval(env, Call(op, args), c);
      (v.VBool? <==> GivesTruth(op)) && (v.VNum? <==> GivesNumber(op)) && !v.VSet?
  {
    EvalHasType(env, Call(op, args), c);
  }
}
