// Induction over the query: every evaluation mode refines the reference evaluator.
module XPathCorrectness {
  import opened Document
  import opened XPathAst
  import opened XPathSpec
  import opened XPathEngine
  import opened XPathSequences
  import opened XPathRefinement

  // ----- one context node ---------------------------------------------------------------------------

  /** The step as a function of its context node. */
  ghost function StepFrom(env: Env, axis: Axis, test: NodeTest, preds: Preds): XNode -> set<XNode> {
    x => EvalStep(env, axis, test, preds, x)
  }

  lemma {:induction false} AcceptsOk(env: Env, cond: Expr, c: Ctx)
    requires ValidEnv(env) && Ready(cond) && ValidCtx(env, c)
    ensures Accepts(env, cond, c) <==> Holds(env, cond, c)
    decreases cond, 4, 0
  {
    EvalHasType(env, cond, c);
    if RetType(cond) == TNum { NumOk(env, cond, c); } else { BoolOk(env, cond, c); }
  }

  lemma {:induction false} HitsOk(env: Env, cond: Expr, q: seq<XNode>)
    requires ValidEnv(env) && Ready(cond) && forall x :: x in q ==> Valid(env.doc, x)
    ensures HitsAgree(env, cond, q)
    decreases cond, 5, 0
  {
    forall j | 0 <= j < |q| ensures Hits(env, cond, q)[j] <==> Holds(env, cond, Ctx(q[j], j + 1, |q|)) {
      HitOk(env, cond, q, j);
    }
  }

  lemma {:induction false} HitOk(env: Env, cond: Expr, q: seq<XNode>, j: nat)
    requires ValidEnv(env) && Ready(cond) && j < |q| && forall x :: x in q ==> Valid(env.doc, x)
    ensures Hits(env, cond, q)[j] <==> Holds(env, cond, Ctx(q[j], j + 1, |q|))
    decreases cond, 4, 1
  {
    AcceptsOk(env, cond, Ctx(q[j], j + 1, |q|));
  }

  /** A constant, a variable or last() has the same value at every node. */
  lemma ConstantHolds(env: Env, cond: Expr, c: Ctx)
    requires WellFormed(env.doc) && IsConstantLike(cond)
    ensures Holds(env, cond, c) <==> NumEq(RunNum(env, cond, Ctx(Nil, 1, c.size)), Fin(c.pos as real))
  {
  }

  lemma {:induction false} ApplyPredicateOk(env: Env, cond: Expr, cls: PredClass, q: seq<XNode>, once: bool, rev: bool)
    requires ValidEnv(env) && Ready(cond) && ClassOk(cond, cls)
    requires Ordered(q, rev) && forall x :: x in q ==> Valid(env.doc, x)
    ensures Filters(ApplyPredicate(env, cond, cls, q, once), Select(env, cond, Elems(q), rev), once, rev)
    decreases cond, 6, 0
  {
    if q == [] {
    } else if cls == ClassConstant || cls == ClassConstantOne {
      forall j | 0 <= j < |q|
        ensures Holds(env, cond, Ctx(q[j], j + 1, |q|)) <==>
                NumEq(RunNum(env, cond, Ctx(Nil, 1, |q|)), Fin((j + 1) as real))
      {
        ConstantHolds(env, cond, Ctx(q[j], j + 1, |q|));
      }
      PickOnOrdered(env, cond, q, RunNum(env, cond, Ctx(Nil, 1, |q|)), once, rev);
    } else {
      HitsOk(env, cond, q);
      KeepOnOrdered(env, cond, q, once, rev);
    }
  }

  lemma {:induction false} ApplyPredicatesOk(env: Env, preds: Preds, q: seq<XNode>, once: bool, rev: bool)
    requires ValidEnv(env) && WellTypedPreds(preds) && ClassifiedPreds(preds)
    requires Ordered(q, rev) && forall x :: x in q ==> Valid(env.doc, x)
    ensures Filters(ApplyPredicates(env, preds, q, once), EvalPreds(env, preds, Elems(q), rev), once, rev)
    decreases preds, 0, 0
  {
    if preds.PCons? {
      var last := preds.next.PNil? && once;
      ApplyPredicateOk(env, preds.cond, preds.cls, q, last, rev);
      var k := ApplyPredicate(env, preds.cond, preds.cls, q, last);
      if last {
        assert ApplyPredicates(env, preds, q, once) == k;
        assert EvalPreds(env, preds, Elems(q), rev) == Select(env, preds.cond, Elems(q), rev);
      } else {
        assert Elems(k) == Select(env, preds.cond, Elems(q), rev);
        ApplyPredicatesOk(env, preds.next, k, once, rev);
      }
    }
  }

  /** Stopping at the first node pushed is the same as filling and then taking `[1]`. */
  lemma StopForOneIsPick(env: Env, preds: Preds, full: seq<XNode>, once: bool)
    requires WellFormed(env.doc)
    requires preds.PCons? && preds.next.PNil? && preds.cls == ClassConstantOne && ClassOk(preds.cond, preds.cls)
    ensures ApplyPredicates(env, preds, AtMostOne(full, true), once) == ApplyPredicates(env, preds, full, once)
  {
    var one := NumberConst(Fin(1.0));
    forall q: seq<XNode> | q != []
      ensures ApplyPredicates(env, preds, q, once) == [q[0]]
    {
      assert RunNum(env, one, Ctx(Nil, 1, |q|)) == Fin(1.0);
      assert ApplyPredicate(env, preds.cond, preds.cls, q, once) == PickByIndex(q, Fin(1.0)) == [q[0]];
    }
  }

  /** Stopping at the first node pushed is enough when the caller asks for one node. */
  lemma StopWithoutPredicates(full: seq<XNode>, F: set<XNode>, rev: bool, mode: Mode)
    requires Ordered(full, rev) && Elems(full) == F && full != []
    requires mode != All && (mode == First ==> !rev)
    ensures Covers([full[0]], F, mode)
  {
    assert full[0] in Elems(full);
    forall x | IsFirst(x, F) && mode == First ensures x == full[0] {
      var j :| 0 <= j < |full| && full[j] == x;
    }
  }

  /** A filtered sequence covers what the mode asks for. */
  lemma FiltersCovers(k: seq<XNode>, R: set<XNode>, once: bool, rev: bool, mode: Mode)
    requires Filters(k, R, once, rev) && (once ==> mode != All && (mode == First ==> !rev))
    ensures Covers(k, R, mode)
  {
  }

  lemma StepNodesAreValid(d: Doc, axis: Axis, test: NodeTest, x: XNode)
    ensures forall y :: y in StepNodes(d, axis, test, x) ==> Valid(d, y)
  {
    StepNodesOk(d, axis, test, x);
    forall y | y in StepNodes(d, axis, test, x) ensures Valid(d, y) {
      assert y in Elems(StepNodes(d, axis, test, x));
      AllNodesAreValid(d, y);
    }
  }

  /** Filling without stopping early, then filtering. */
  lemma {:induction false} FilledOk(env: Env, axis: Axis, test: NodeTest, preds: Preds, mode: Mode, x: XNode,
                                    once: bool)
    requires ValidEnv(env) && WellTypedPreds(preds) && ClassifiedPreds(preds)
    requires once ==> mode != All && (mode == First ==> !IsReverse(axis))
    ensures var k := ApplyPredicates(env, preds, StepNodes(env.doc, axis, test, x), once);
      Ordered(k, IsReverse(axis)) && Covers(k, EvalStep(env, axis, test, preds, x), mode)
    decreases preds, 1, 0
  {
    StepNodesOk(env.doc, axis, test, x);
    StepNodesAreValid(env.doc, axis, test, x);
    var full := StepNodes(env.doc, axis, test, x);
    ApplyPredicatesOk(env, preds, full, once, IsReverse(axis));
    FiltersCovers(ApplyPredicates(env, preds, full, once), EvalStep(env, axis, test, preds, x), once,
      IsReverse(axis), mode);
  }

  lemma {:induction false} KeptFrom(env: Env, preds: Preds, full: seq<XNode>, stop: bool, once: bool)
    requires WellFormed(env.doc) && ClassifiedPreds(preds)
    requires stop ==> |full| <= 1 || preds.PNil? || (preds.next.PNil? && preds.cls == ClassConstantOne)
    ensures stop && preds.PNil? && full != [] ==> ApplyPredicates(env, preds, AtMostOne(full, stop), once) == [full[0]]
    ensures !(stop && preds.PNil? && full != []) ==>
      ApplyPredicates(env, preds, AtMostOne(full, stop), once) == ApplyPredicates(env, preds, full, once)
  {
    if !stop || |full| <= 1 {
      assert AtMostOne(full, stop) == full;
    } else if preds.PCons? {
      StopForOneIsPick(env, preds, full, once);
    }
  }

  /** The case in which filling stops at the first node and nothing is filtered. */
  lemma StoppedOk(env: Env, axis: Axis, test: NodeTest, mode: Mode, x: XNode)
    requires StepNodes(env.doc, axis, test, x) != [] && Once(AxisOrder(axis), mode)
    ensures Covers([StepNodes(env.doc, axis, test, x)[0]], EvalStep(env, axis, test, PNil, x), mode)
  {
    StepNodesOk(env.doc, axis, test, x);
    StopWithoutPredicates(StepNodes(env.doc, axis, test, x), StepSet(env.doc, axis, test, x), IsReverse(axis), mode);
  }

  lemma NamedAttributeStops(d: Doc, test: NodeTest, x: XNode)
    requires test.TestName?
    ensures |StepNodes(d, AttributeAxis, test, x)| <= 1
  {
    StepNodesOk(d, AttributeAxis, test, x);
  }

  /** Whether the single node pushed is the whole result. */
  predicate IsStopped(env: Env, axis: Axis, test: NodeTest, preds: Preds, mode: Mode, x: XNode) {
    preds.PNil? && Once(AxisOrder(axis), mode) && StepNodes(env.doc, axis, test, x) != []
  }

  lemma {:induction false} KeptShape(env: Env, axis: Axis, test: NodeTest, preds: Preds, mode: Mode, x: XNode,
                                     order: Order)
    requires WellFormed(env.doc) && ClassifiedPreds(preds)
    ensures Kept(env, axis, test, preds, mode, x, order) ==
      if IsStopped(env, axis, test, preds, mode, x) then [StepNodes(env.doc, axis, test, x)[0]]
      else ApplyPredicates(env, preds, StepNodes(env.doc, axis, test, x), Once(order, mode))
  {
    var full := StepNodes(env.doc, axis, test, x);
    if axis == AttributeAxis && test.TestName? { NamedAttributeStops(env.doc, test, x); }
    KeptFrom(env, preds, full, StopsAtFirst(axis, test, preds, mode), Once(order, mode));
    if preds.PNil? && |full| == 1 { assert full == [full[0]]; }
  }

  lemma {:induction false} KeptOk(env: Env, axis: Axis, test: NodeTest, preds: Preds, mode: Mode, x: XNode,
                                  order: Order)
    requires ValidEnv(env) && WellTypedPreds(preds) && ClassifiedPreds(preds)
    requires order == Sorted ==> !IsReverse(axis)
    ensures Ordered(Kept(env, axis, test, preds, mode, x, order), IsReverse(axis))
    ensures Covers(Kept(env, axis, test, preds, mode, x, order), EvalStep(env, axis, test, preds, x), mode)
    decreases preds, 2, 0
  {
    KeptShape(env, axis, test, preds, mode, x, order);
    if IsStopped(env, axis, test, preds, mode, x) {
      StoppedOk(env, axis, test, mode, x);
    } else {
      FilledOk(env, axis, test, preds, mode, x, Once(order, mode));
    }
  }

  // ----- all context nodes ------------------------------------------------------------------------------

  /** Child, attribute and self steps from different nodes never meet. */
  predicate IsUniqueAxis(axis: Axis) {
    axis == Child || axis == AttributeAxis || axis == Self
  }

  lemma StepIsSelected(env: Env, axis: Axis, test: NodeTest, preds: Preds, x: XNode, y: XNode)
    requires y in EvalStep(env, axis, test, preds, x)
    ensures Selects(env.doc, axis, test, x, y)
  {
    EvalPredsShrinks(env, preds, StepSet(env.doc, axis, test, x), IsReverse(axis));
  }

  lemma UniqueSource(d: Doc, axis: Axis, test: NodeTest, x: XNode, x': XNode, y: XNode)
    requires IsUniqueAxis(axis) && Selects(d, axis, test, x, y) && Selects(d, axis, test, x', y)
    ensures x == x'
  {
  }

  ghost predicate OrderTold(q: seq<XNode>, order: Order) {
    (order == Sorted ==> Increasing(q)) && (order == SortedReverse ==> Decreasing(q))
  }

  /** On the self axis the nodes found so far come before those still to be visited. */
  ghost predicate SelfInStep(axis: Axis, acc: NodeSeq, src: seq<XNode>) {
    axis == Self ==>
      && OrderTold(src, acc.order)
      && (acc.order == Sorted ==> forall y, x :: y in acc.s && x in src ==> Before(y, x))
      && (acc.order == SortedReverse ==> forall y, x :: y in acc.s && x in src ==> Before(x, y))
  }

  ghost predicate Gathered(step: XNode -> set<XNode>, axis: Axis, mode: Mode, acc: NodeSeq, D: set<XNode>) {
    && Covers(acc.s, UnionOf(D, step), mode)
    && OrderTold(acc.s, acc.order)
    && (axis != Self ==> acc.order == AxisOrder(axis) || acc.order == Unsorted)
    && (IsUniqueAxis(axis) ==> NoDup(acc.s))
  }

  lemma NoDupAppend(a: seq<XNode>, b: seq<XNode>)
    requires NoDup(a) && NoDup(b) && forall y :: y in b ==> y !in a
    ensures NoDup(a + b)
  {
    var q := a + b;
    forall i, j | 0 <= i < j < |q| ensures q[i] != q[j] {
      if i < |a| <= j { assert q[j] in b && q[i] in a; }
    }
  }

  lemma UnionGrows(step: XNode -> set<XNode>, D: set<XNode>, x: XNode)
    ensures UnionOf(D + {x}, step) == UnionOf(D, step) + step(x)
  {
  }

  /** No node is reached from two different context nodes. */
  ghost predicate Disjoint(step: XNode -> set<XNode>) {
    forall x, x', y :: y in step(x) && y in step(x') ==> x == x'
  }

  ghost predicate StaysPut(step: XNode -> set<XNode>) {
    forall x, y :: y in step(x) ==> y == x
  }

  lemma {:induction false} StepShape(env: Env, axis: Axis, test: NodeTest, preds: Preds)
    ensures IsUniqueAxis(axis) ==> Disjoint(StepFrom(env, axis, test, preds))
    ensures axis == Self ==> StaysPut(StepFrom(env, axis, test, preds))
  {
    var step := StepFrom(env, axis, test, preds);
    if IsUniqueAxis(axis) {
      forall x, x', y | y in step(x) && y in step(x') ensures x == x' {
        StepIsSelected(env, axis, test, preds, x, y);
        StepIsSelected(env, axis, test, preds, x', y);
        UniqueSource(env.doc, axis, test, x, x', y);
      }
    }
    if axis == Self {
      forall x, y | y in step(x) ensures y == x { StepIsSelected(env, axis, test, preds, x, y); }
    }
  }

  lemma SelfOrder(a: seq<XNode>, k: seq<XNode>, x: XNode, order: Order)
    requires OrderTold(a, order) && NoDup(k) && forall y :: y in k ==> y == x
    requires order == Sorted ==> forall y :: y in a ==> Before(y, x)
    requires order == SortedReverse ==> forall y :: y in a ==> Before(x, y)
    ensures OrderTold(a + k, order)
  {
    forall i | 0 <= i < |k| ensures k[i] == x { assert k[i] in k; }
    assert Increasing(k) && Decreasing(k);
    if order == Sorted { OrderedAppend(a, k, false); }
    if order == SortedReverse { OrderedAppend(a, k, true); }
  }

  lemma GatherOne(step: XNode -> set<XNode>, axis: Axis, mode: Mode, x: XNode, k: seq<XNode>,
                  acc: NodeSeq, D: set<XNode>, order: Order)
    requires Gathered(step, axis, mode, acc, D) && x !in D
    requires Ordered(k, IsReverse(axis)) && Covers(k, step(x), mode)
    requires IsUniqueAxis(axis) ==> Disjoint(step)
    requires axis == Self ==> StaysPut(step)
    requires order == NextOrder(axis, acc)
    requires axis == Self && order == Sorted ==> forall y :: y in acc.s ==> Before(y, x)
    requires axis == Self && order == SortedReverse ==> forall y :: y in acc.s ==> Before(x, y)
    ensures Gathered(step, axis, mode, NodeSeq(acc.s + k, order), D + {x})
  {
    UnionGrows(step, D, x);
    CoversAppend(acc.s, k, UnionOf(D, step), step(x), mode);
    OrderedIsNoDup(k, IsReverse(axis));
    if axis == Self {
      SelfOrder(acc.s, k, x, order);
    } else if acc.s == [] {
      assert acc.s + k == k;
    }
    if IsUniqueAxis(axis) {
      assert forall y :: y in k ==> y !in acc.s;
      NoDupAppend(acc.s, k);
    }
  }

  lemma SelfInStepNext(acc: NodeSeq, k: seq<XNode>, x: XNode, src: seq<XNode>)
    requires SelfInStep(Self, acc, [x] + src) && forall y :: y in k ==> y == x
    ensures SelfInStep(Self, NodeSeq(acc.s + k, acc.order), src)
  {
    var all := [x] + src;
    assert all[0] == x && forall i :: 0 <= i < |src| ==> all[i + 1] == src[i];
    forall z | z in src
      ensures z in all
      ensures acc.order == Sorted ==> Before(x, z)
      ensures acc.order == SortedReverse ==> Before(z, x)
    {
      var i :| 0 <= i < |src| && src[i] == z;
      assert all[i + 1] == z;
    }
  }

  /** One round of the loop over the context nodes keeps both invariants. */
  lemma GatherNext(step: XNode -> set<XNode>, axis: Axis, mode: Mode, x: XNode, rest: seq<XNode>, k: seq<XNode>,
                   acc: NodeSeq, D: set<XNode>)
    requires Gathered(step, axis, mode, acc, D) && x !in D && SelfInStep(axis, acc, [x] + rest)
    requires Ordered(k, IsReverse(axis)) && Covers(k, step(x), mode)
    requires IsUniqueAxis(axis) ==> Disjoint(step)
    requires axis == Self ==> StaysPut(step)
    ensures var acc' := NodeSeq(acc.s + k, NextOrder(axis, acc));
      Gathered(step, axis, mode, acc', D + {x}) && SelfInStep(axis, acc', rest)
  {
    assert x in [x] + rest;
    GatherOne(step, axis, mode, x, k, acc, D, NextOrder(axis, acc));
    if axis == Self { SelfInStepNext(acc, k, x, rest); }
  }

  lemma StepAllOnce(env: Env, axis: Axis, test: NodeTest, preds: Preds, mode: Mode, src: seq<XNode>, acc: NodeSeq)
    requires WellFormed(env.doc) && src != []
    ensures var k := Kept(env, axis, test, preds, mode, src[0], NextOrder(axis, acc));
      StepAll(env, axis, test, preds, mode, src, acc) ==
      StepAll(env, axis, test, preds, mode, src[1..], NodeSeq(acc.s + k, NextOrder(axis, acc)))
  {
  }

  lemma {:induction false} GatherKept(env: Env, axis: Axis, test: NodeTest, preds: Preds, mode: Mode,
                                      x: XNode, rest: seq<XNode>, acc: NodeSeq, D: set<XNode>)
    requires ValidEnv(env) && WellTypedPreds(preds) && ClassifiedPreds(preds)
    requires Gathered(StepFrom(env, axis, test, preds), axis, mode, acc, D)
    requires x !in D && SelfInStep(axis, acc, [x] + rest)
    ensures var acc' := NodeSeq(acc.s + Kept(env, axis, test, preds, mode, x, NextOrder(axis, acc)),
            NextOrder(axis, acc));
      Gathered(StepFrom(env, axis, test, preds), axis, mode, acc', D + {x}) && SelfInStep(axis, acc', rest)
    decreases preds, 3, 0
  {
    var step := StepFrom(env, axis, test, preds);
    var k := Kept(env, axis, test, preds, mode, x, NextOrder(axis, acc));
    assert Ordered(k, IsReverse(axis)) && Covers(k, step(x), mode) by {
      KeptOk(env, axis, test, preds, mode, x, NextOrder(axis, acc));
    }
    StepShape(env, axis, test, preds);
    GatherNext(step, axis, mode, x, rest, k, acc, D);
  }

  lemma FirstAndRest(src: seq<XNode>, D: set<XNode>)
    requires src != [] && NoDup(src) && forall x :: x in src ==> x !in D
    ensures src == [src[0]] + src[1..] && src[0] in src && NoDup(src[1..]) &&
            D + {src[0]} + Elems(src[1..]) == D + Elems(src)
    ensures forall y :: y in src[1..] ==> y in src && y !in D + {src[0]}
  {
    assert src == [src[0]] + src[1..];
  }

  lemma {:induction false} StepAllOk(env: Env, axis: Axis, test: NodeTest, preds: Preds, mode: Mode,
                                     src: seq<XNode>, acc: NodeSeq, D: set<XNode>)
    requires ValidEnv(env) && WellTypedPreds(preds) && ClassifiedPreds(preds)
    requires NoDup(src) && forall x :: x in src ==> x !in D
    requires Gathered(StepFrom(env, axis, test, preds), axis, mode, acc, D) && SelfInStep(axis, acc, src)
    ensures Gathered(StepFrom(env, axis, test, preds), axis, mode,
                     StepAll(env, axis, test, preds, mode, src, acc), D + Elems(src))
    decreases preds, 4, |src|
  {
    if src == [] {
      assert D + Elems(src) == D;
    } else {
      var x, rest, order := src[0], src[1..], NextOrder(axis, acc);
      FirstAndRest(src, D);
      var k := Kept(env, axis, test, preds, mode, x, order);
      GatherKept(env, axis, test, preds, mode, x, rest, acc, D);
      StepAllOnce(env, axis, test, preds, mode, src, acc);
      StepAllOk(env, axis, test, preds, mode, rest, NodeSeq(acc.s + k, order), D + {x});
    }
  }

  // ----- whole expressions --------------------------------------------------------------------------------

  lemma NamespaceAxisIsEmpty(env: Env, test: NodeTest, preds: Preds, x: XNode)
    ensures EvalStep(env, NamespaceAxis, test, preds, x) == {}
  {
    if y :| y in EvalStep(env, NamespaceAxis, test, preds, x) {
      StepIsSelected(env, NamespaceAxis, test, preds, x, y);
    }
  }

  lemma GatheredIsRefinement(d: Doc, step: XNode -> set<XNode>, axis: Axis, mode: Mode, ns: NodeSeq, D: set<XNode>)
    requires Gathered(step, axis, mode, ns, D) && forall x :: AllValid(d, step(x))
    ensures var r := if !IsUniqueAxis(axis) &&
            ns.order == Unsorted then NodeSeq(RemoveDuplicates(ns.s), Unsorted) else ns;
      Refines(d, r, UnionOf(D, step), mode)
  {
    RemoveDuplicatesOk(ns.s);
    if ns.order == Sorted { OrderedIsNoDup(ns.s, false); }
    if ns.order == SortedReverse { OrderedIsNoDup(ns.s, true); }
    if ns.s != [] { assert ns.s[0] in RemoveDuplicates(ns.s); }
  }

  lemma {:induction false} StepOk(env: Env, e: Expr, c: Ctx, mode: Mode)
    requires ValidEnv(env) && ValidCtx(env, c) && Ready(e) && e.Step?
    ensures Refines(env.doc, RunSet(env, e, c, mode), AsSet(Eval(env, e, c)), mode)
    decreases e, 0, 0
  {
    var Step(left, axis, test, preds) := e;
    var L := if left.NoExpr? then {c.n} else AsSet(Eval(env, left.e, c));
    var step := StepFrom(env, axis, test, preds);
    assert AsSet(Eval(env, e, c)) == UnionOf(L, step);
    forall x ensures AllValid(env.doc, step(x)) { EvalStepValid(env, axis, test, preds, x); }
    if axis == NamespaceAxis {
      forall x ensures step(x) == {} { NamespaceAxisIsEmpty(env, test, preds, x); }
    } else {
      var src := if left.NoExpr? then NodeSeq([c.n], Sorted) else RunSet(env, left.e, c, All);
      if left.SomeExpr? {
        RunSetOk(env, left.e, c, All);
        CoversAll(src.s, L);
      }
      assert Elems(src.s) == L;
      var start := NodeSeq([], InitialOrder(axis, left, src.order));
      StepAllOk(env, axis, test, preds, mode, src.s, start, {});
      assert {} + Elems(src.s) == L;
      GatheredIsRefinement(env.doc, step, axis, mode, StepAll(env, axis, test, preds, mode, src.s, start), L);
    }
  }

  lemma {:induction false} FilterPosinvOk(env: Env, cond: Expr, all: NodeSeq, S: set<XNode>, mode: Mode)
    requires ValidEnv(env) && Ready(cond) && ClassOk(cond, ClassPosinv) && Refines(env.doc, all, S, All)
    ensures Refines(env.doc, NodeSeq(Keep(env, cond, all.s, 0, Once(all.order, mode)), all.order),
                    Select(env, cond, S, false), mode)
    decreases cond, 7, 0
  {
    CoversAll(all.s, S);
    HitsOk(env, cond, all.s);
    KeepPosinv(env, cond, all.s, Once(all.order, mode), mode);
    KeepOrder(env, cond, all.s, Once(all.order, mode));
  }

  lemma {:induction false} FilterSortedOk(env: Env, cond: Expr, cls: PredClass, all: NodeSeq, S: set<XNode>, mode: Mode)
    requires ValidEnv(env) && Ready(cond) && ClassOk(cond, cls) && Refines(env.doc, all, S, All)
    ensures Refines(env.doc, NodeSeq(ApplyPredicate(env, cond, cls, SortDo(all).s, Once(Sorted, mode)), Sorted),
                    Select(env, cond, S, false), mode)
    decreases cond, 7, 0
  {
    CoversAll(all.s, S);
    SortDoOk(env.doc, all);
    var q, once := SortDo(all).s, Once(Sorted, mode);
    ApplyPredicateOk(env, cond, cls, q, once, false);
    FiltersCovers(ApplyPredicate(env, cond, cls, q, once), Select(env, cond, S, false), once, false, mode);
    OrderedIsNoDup(ApplyPredicate(env, cond, cls, q, once), false);
  }

  lemma {:induction false} FilterOneOk(env: Env, all: NodeSeq, S: set<XNode>, mode: Mode)
    requires ValidEnv(env) && Refines(env.doc, all, S, First) && AllValid(env.doc, S)
    ensures var one := NumberConst(Fin(1.0));
      Refines(env.doc, NodeSeq(ApplyPredicate(env, one, ClassConstantOne, SortDo(all).s, Once(Sorted, mode)), Sorted),
              Select(env, one, S, false), mode)
  {
    var one := NumberConst(Fin(1.0));
    SortDoOk(env.doc, all);
    var ns := SortDo(all);
    FirstByIndex(env, S, all, ns);
    if ns.s != [] {
      assert RunNum(env, one, Ctx(Nil, 1, |ns.s|)) == Fin(1.0);
      assert ApplyPredicate(env, one, ClassConstantOne, ns.s, Once(Sorted, mode)) == [ns.s[0]];
    }
  }

  lemma {:induction false} FilterOk(env: Env, e: Expr, c: Ctx, mode: Mode)
    requires ValidEnv(env) && ValidCtx(env, c) && Ready(e) && e.Filter?
    ensures Refines(env.doc, RunSet(env, e, c, mode), AsSet(Eval(env, e, c)), mode)
    decreases e, 0, 0
  {
    var Filter(base, cond, cls) := e;
    var S := AsSet(Eval(env, base, c));
    var m := if cls == ClassConstantOne then First else All;
    var all := RunSet(env, base, c, m);
    RunSetOk(env, base, c, m);
    EvalValid(env, base, c);
    match cls
    case ClassPosinv =>
      FilterPosinvOk(env, cond, all, S, mode);
      assert ApplyPredicate(env, cond, cls, all.s, Once(all.order, mode)) ==
        Keep(env, cond, all.s, 0, Once(all.order, mode));
    case ClassConstantOne => SortDoOk(env.doc, all); FilterOneOk(env, all, S, mode);
    case _ => SortDoOk(env.doc, all); FilterSortedOk(env, cond, cls, all, S, mode);
  }

  /** `(expr)[1]` needs only the first node of `expr`. */
  lemma {:induction false} FirstByIndex(env: Env, S: set<XNode>, all: NodeSeq, ns: NodeSeq)
    requires WellFormed(env.doc) && AllValid(env.doc, S) && Covers(all.s, S, First)
    requires Increasing(ns.s) && Elems(ns.s) == Elems(all.s)
    ensures S == {} <==> ns.s == []
    ensures Select(env, NumberConst(Fin(1.0)), S, false) == if S == {} then {} else {ns.s[0]}
  {
    if ns.s != [] { assert ns.s[0] in Elems(all.s); }
    if all.s != [] { assert all.s[0] in Elems(ns.s); }
    if S != {} {
      var x := FirstExists(env.doc, S);
      var f := ns.s[0];
      assert x in Elems(ns.s);
      var j :| 0 <= j < |ns.s| && ns.s[j] == x;
      assert f in Elems(all.s) && f in S;
      assert f == x;
      forall y | y in S ensures y in Select(env, NumberConst(Fin(1.0)), S, false) <==> y == f {
        if y == f {
          assert UpTo(f, S, false) == {f};
        } else {
          assert {f, y} <= UpTo(y, S, false);
          SubsetSize({f, y}, UpTo(y, S, false));
        }
      }
    }
  }

  lemma {:induction false} SubsetSize(a: set<XNode>, b: set<XNode>)
    requires a <= b
    ensures |a| <= |b|
    decreases a
  {
    if x :| x in a { SubsetSize(a - {x}, b - {x}); }
  }

  /** Node sets: every mode delivers what it promises of the reference value. */
  lemma {:induction false} RunSetOk(env: Env, e: Expr, c: Ctx, mode: Mode)
    requires ValidEnv(env) && ValidCtx(env, c) && Ready(e) && RetType(e) == TSet
    ensures Refines(env.doc, RunSet(env, e, c, mode), AsSet(Eval(env, e, c)), mode)
    decreases e, 1, 0
  {
    match e
    case Step(_, _, _, _) => StepOk(env, e, c, mode);
    case Filter(_, _, _) => FilterOk(env, e, c, mode);
    case Union(l, r) =>
      RunSetOk(env, l, c, mode);
      RunSetOk(env, r, c, mode);
      var q := RunSet(env, l, c, mode).s + RunSet(env, r, c, mode).s;
      CoversAppend(RunSet(env, l, c, mode).s, RunSet(env, r, c, mode).s,
                   AsSet(Eval(env, l, c)), AsSet(Eval(env, r, c)), mode);
      RemoveDuplicatesOk(q);
      if q != [] { assert q[0] in RemoveDuplicates(q); }
    case Variable(name, _) => assert Honest(env.doc, env.setVar(name));
    case _ =>
  }

  /** Scalars: the value is the reference value. */
  lemma {:induction false} ScalarOk(env: Env, e: Expr, c: Ctx)
    requires ValidEnv(env) && ValidCtx(env, c) && Ready(e) && RetType(e) != TSet
    ensures EvalScalar(env, e, c) == Eval(env, e, c)
    decreases e, 1, 0
  {
    match e
    case Call(op, args) => ArgsOk(env, args, c, op, ArgTypes(args), 0);
    case TranslateTable(arg, _) => StrOk(env, arg, c);
    case CompareAttribute(name, rhs) =>
      StrOk(env, rhs, c);
      if c.n.Node? {
        AttributeLookup(env, c.n, env.doc.info[c.n.id].attrs, name, ToStr(env, Eval(env, rhs, c)), 0);
      }
    case _ =>
  }

  /** Finding the attribute by name is the same as scanning for the first one of that name. */
  lemma {:induction false} AttributeLookup(env: Env, x: XNode, rest: seq<Attribute>, name: string, value: string,
                                           k: nat)
    requires x.Node? && x.id < |env.doc.info| && k <= |env.doc.info[x.id].attrs|
    requires rest == env.doc.info[x.id].attrs[k..]
    requires forall m :: 0 <= m < k ==> env.doc.info[x.id].attrs[m].name != name
    ensures AttributeIs(rest, name, value) <==> exists j :: HasAttributeWith(env, x, name, value, j)
    decreases |rest|
  {
    var attrs := env.doc.info[x.id].attrs;
    if rest != [] {
      assert rest[0] == attrs[k];
      if attrs[k].name == name {
        if AttributeIs(rest, name, value) { assert HasAttributeWith(env, x, name, value, k); }
        forall j | HasAttributeWith(env, x, name, value, j) ensures j == k {}
      } else {
        AttributeLookup(env, x, rest[1..], name, value, k + 1);
      }
    }
  }

  lemma {:induction false} BoolOk(env: Env, e: Expr, c: Ctx)
    requires ValidEnv(env) && ValidCtx(env, c) && Ready(e)
    ensures RunBool(env, e, c) <==> ToBool(Eval(env, e, c))
    decreases e, 2, 0
  {
    EvalHasType(env, e, c);
    if RetType(e) == TSet {
      RunSetOk(env, e, c, Any);
      var ns := RunSet(env, e, c, Any);
      if ns.s != [] { assert ns.s[0] in ns.s; }
    } else {
      ScalarOk(env, e, c);
    }
  }

  lemma {:induction false} StrOk(env: Env, e: Expr, c: Ctx)
    requires ValidEnv(env) && ValidCtx(env, c) && Ready(e)
    ensures RunStr(env, e, c) == ToStr(env, Eval(env, e, c))
    decreases e, 2, 0
  {
    EvalHasType(env, e, c);
    if RetType(e) == TSet { FirstOk(env, e, c); } else { ScalarOk(env, e, c); }
  }

  lemma {:induction false} FirstOk(env: Env, e: Expr, c: Ctx)
    requires ValidEnv(env) && ValidCtx(env, c) && Ready(e) && RetType(e) == TSet
    ensures FirstNode(RunSet(env, e, c, First)) == FirstOf(AsSet(Eval(env, e, c)))
    ensures RunSet(env, e, c, First).s == [] <==> AsSet(Eval(env, e, c)) == {}
    decreases e, 1, 1
  {
    RunSetOk(env, e, c, First);
    EvalValid(env, e, c);
    var ns := RunSet(env, e, c, First);
    var S := AsSet(Eval(env, e, c));
    if ns.s != [] { assert ns.s[0] in S; }
    if S != {} { CoversFirst(env.doc, ns, S); }
  }

  lemma {:induction false} NumOk(env: Env, e: Expr, c: Ctx)
    requires ValidEnv(env) && ValidCtx(env, c) && Ready(e)
    ensures RunNum(env, e, c) == ToNum(env, Eval(env, e, c))
    decreases e, 3, 0
  {
    EvalHasType(env, e, c);
    if RetType(e) == TSet { StrOk(env, e, c); } else { ScalarOk(env, e, c); }
  }

  lemma {:induction false} ArgOk(env: Env, e: Expr, c: Ctx, use: Use)
    requires ValidEnv(env) && ValidCtx(env, c) && Ready(e)
    requires use == UseSet || use == UseCount || use == UseFirst ==> RetType(e) == TSet
    ensures RunArg(env, e, c, use) == ToArg(env, Eval(env, e, c), use)
    decreases e, 4, 0
  {
    match use
    case UseBool => BoolOk(env, e, c);
    case UseNum => NumOk(env, e, c);
    case UseStr => StrOk(env, e, c);
    case UseSet =>
      RunSetOk(env, e, c, All);
      CoversAll(RunSet(env, e, c, All).s, AsSet(Eval(env, e, c)));
    case UseCount =>
      RunSetOk(env, e, c, All);
      CoversAll(RunSet(env, e, c, All).s, AsSet(Eval(env, e, c)));
      NoDupSize(RunSet(env, e, c, All).s);
    case UseFirst => FirstOk(env, e, c);
  }

  lemma {:induction false} ArgsOk(env: Env, args: Args, c: Ctx, op: Op, types: seq<Type>, k: nat)
    requires ValidEnv(env) && ValidCtx(env, c) && WellTypedArgs(args) && ClassifiedArgs(args)
    requires k <= |types| && types[k..] == ArgTypes(args)
    requires NeedsSet(op) ==> forall j :: k <= j < |types| ==> types[j] == TSet
    ensures RunArgs(env, args, c, op, types, k) == EvalArgs(env, args, c, op, types, k)
    decreases args, 1, 0
  {
    if args.ACons? {
      FirstArgOk(env, args, c, op, types, k);
      ArgsOk(env, args.next, c, op, types, k + 1);
    }
  }

  lemma {:induction false} FirstArgOk(env: Env, args: Args, c: Ctx, op: Op, types: seq<Type>, k: nat)
    requires ValidEnv(env) && ValidCtx(env, c) && WellTypedArgs(args) && ClassifiedArgs(args) && args.ACons?
    requires k <= |types| && types[k..] == ArgTypes(args)
    requires NeedsSet(op) ==> forall j :: k <= j < |types| ==> types[j] == TSet
    ensures k < |types| && types[k + 1..] == ArgTypes(args.next)
    ensures RunArg(env, args.arg, c, UseOf(op, types, k)) == ToArg(env, Eval(env, args.arg, c), UseOf(op, types, k))
    decreases args, 0
  {
    FirstType(types, k, ArgTypes(args));
    ArgOk(env, args.arg, c, UseOf(op, types, k));
  }

  lemma FirstType(types: seq<Type>, k: nat, rest: seq<Type>)
    requires k <= |types| && types[k..] == rest && rest != []
    ensures k < |types| && types[k] == rest[0] && types[k + 1..] == rest[1..]
  {
    assert types[k] == types[k..][0];
    assert types[k + 1..] == types[k..][1..];
  }
}
