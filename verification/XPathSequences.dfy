// Facts about the sequence operations of the evaluator.
module XPathSequences {
  import opened Document
  import opened XPathAst
  import opened XPathSpec
  import opened XPathEngine

  // ----- location steps ---------------------------------------------------------------------

  lemma {:induction false} ForwardOk(lo: nat, hi: nat, push: XNode -> bool)
    ensures var q := Forward(lo, hi, push);
      Increasing(q) && (forall y :: y in q <==> y.Node? && lo <= y.id < hi && push(y))
    decreases hi - lo
  {
    if lo < hi { ForwardOk(lo + 1, hi, push); }
  }

  lemma {:induction false} BackwardOk(hi: nat, push: XNode -> bool)
    ensures var q := Backward(hi, push);
      Decreasing(q) && (forall y :: y in q <==> y.Node? && y.id < hi && push(y))
  {
    if hi > 0 { BackwardOk(hi - 1, push); }
  }

  lemma {:induction false} AttributesOk(p: nat, k: nat, count: nat, push: XNode -> bool)
    ensures var q := Attributes(p, k, count, push);
      Increasing(q) && (forall y :: y in q <==> y.Attr? && y.owner == p && k <= y.index < count && push(y))
    decreases count - k
  {
    if k < count {
      AttributesOk(p, k + 1, count, push);
      var r := Attributes(p, k + 1, count, push);
      forall b | 0 <= b < |r| ensures Before(Attr(p, k), r[b]) { assert r[b] in r; }
    }
  }

  lemma OrderedAppend(a: seq<XNode>, b: seq<XNode>, rev: bool)
    requires Ordered(a, rev) && Ordered(b, rev)
    requires forall y, z :: y in a && z in b ==> if rev then Before(z, y) else Before(y, z)
    ensures Ordered(a + b, rev)
  {
    var q := a + b;
    forall i, j | 0 <= i < j < |q| ensures if rev then Before(q[j], q[i]) else Before(q[i], q[j]) {
      if i < |a| <= j {
        assert q[i] in a && q[j] in b;
      }
    }
  }

  /** A selected attribute belongs to the element of the context node. */
  lemma SelectedAttribute(d: Doc, axis: Axis, test: NodeTest, x: XNode, y: XNode)
    requires Selects(d, axis, test, x, y) && y.Attr?
    ensures Valid(d, x) && y.owner == Owner(x) && y.index < |d.info[y.owner].attrs|
    ensures IsReverse(axis) ==> y == x
  {
  }

  lemma SelectedNode(d: Doc, axis: Axis, test: NodeTest, x: XNode, y: XNode)
    requires Selects(d, axis, test, x, y) && y.Node?
    ensures y.id < |d.info| && axis != AttributeAxis
  {
  }

  /** A named attribute step selects at most one attribute. */
  lemma NamedAttributeIsUnique(d: Doc, test: NodeTest, x: XNode, y: XNode, z: XNode)
    requires test.TestName? && y.Attr? && z.Attr?
    requires Selects(d, AttributeAxis, test, x, y) && Selects(d, AttributeAxis, test, x, z)
    ensures y == z
  {
  }

  lemma StepSetMember(d: Doc, axis: Axis, test: NodeTest, x: XNode, y: XNode)
    ensures y in StepSet(d, axis, test, x) <==> Selects(d, axis, test, x, y)
  {
    AllNodesAreValid(d, y);
  }

  lemma PushIsStepSet(d: Doc, axis: Axis, test: NodeTest, x: XNode, y: XNode)
    ensures Push(d, axis, test, x)(y) <==> y in StepSet(d, axis, test, x)
    ensures Push(d, axis, test, x)(y) <==> Selects(d, axis, test, x, y)
  {
    StepSetMember(d, axis, test, x, y);
  }

  lemma {:induction false} AttributePartPushes(d: Doc, axis: Axis, test: NodeTest, x: XNode)
    requires Valid(d, x)
    ensures var a := AttributePart(d, axis, test, x);
      && Increasing(a)
      && (forall y :: y in a <==> y.Attr? && y.owner == Owner(x) && y.index < |d.info[Owner(x)].attrs|
                                  && Push(d, axis, test, x)(y))
  {
    AttributesOk(Owner(x), 0, |d.info[Owner(x)].attrs|, Push(d, axis, test, x));
  }

  lemma AttributePartMembers(d: Doc, axis: Axis, test: NodeTest, x: XNode)
    requires Valid(d, x)
    ensures forall y :: y in AttributePart(d, axis, test, x) <==> y.Attr? && y in StepSet(d, axis, test, x)
  {
    AttributePartPushes(d, axis, test, x);
    forall y ensures y in AttributePart(d, axis, test, x) <==> y.Attr? && y in StepSet(d, axis, test, x) {
      PushIsStepSet(d, axis, test, x, y);
      if y.Attr? && Push(d, axis, test, x)(y) { SelectedAttribute(d, axis, test, x, y); }
    }
  }

  lemma {:induction false} AttributePartOrder(d: Doc, axis: Axis, test: NodeTest, x: XNode)
    requires Valid(d, x)
    ensures var a := AttributePart(d, axis, test, x);
      Ordered(a, IsReverse(axis)) && (axis == AttributeAxis && test.TestName? ==> |a| <= 1)
  {
    AttributePartPushes(d, axis, test, x);
    var a := AttributePart(d, axis, test, x);
    if |a| > 1 {
      var u, v := a[0], a[1];
      assert u in a && v in a && Before(u, v);
      PushIsStepSet(d, axis, test, x, u);
      PushIsStepSet(d, axis, test, x, v);
      if axis == AttributeAxis && test.TestName? {
        NamedAttributeIsUnique(d, test, x, u, v);
      }
    }
  }

  lemma NodePartPushes(d: Doc, axis: Axis, test: NodeTest, x: XNode)
    ensures var b := NodePart(d, axis, test, x);
      && Ordered(b, IsReverse(axis))
      && (forall y :: y in b <==> y.Node? && y.id < |d.info| && Push(d, axis, test, x)(y))
  {
    if IsReverse(axis) {
      BackwardOk(|d.info|, Push(d, axis, test, x));
    } else {
      ForwardOk(0, |d.info|, Push(d, axis, test, x));
    }
  }

  lemma NodePartMembers(d: Doc, axis: Axis, test: NodeTest, x: XNode)
    ensures forall y :: y in NodePart(d, axis, test, x) <==> y.Node? && y in StepSet(d, axis, test, x)
  {
    NodePartPushes(d, axis, test, x);
    forall y ensures y in NodePart(d, axis, test, x) <==> y.Node? && y in StepSet(d, axis, test, x) {
      PushIsStepSet(d, axis, test, x, y);
      if y.Node? && Push(d, axis, test, x)(y) { SelectedNode(d, axis, test, x, y); }
    }
  }

  lemma AttributeAxisHasNoNodePart(d: Doc, test: NodeTest, x: XNode)
    ensures NodePart(d, AttributeAxis, test, x) == []
  {
    NodePartPushes(d, AttributeAxis, test, x);
    var b := NodePart(d, AttributeAxis, test, x);
    if b != [] {
      assert b[0] in b;
      PushIsStepSet(d, AttributeAxis, test, x, b[0]);
      SelectedNode(d, AttributeAxis, test, x, b[0]);
    }
  }

  /** Attributes and tree nodes selected by one step never interleave. */
  lemma PartsInOrder(d: Doc, axis: Axis, test: NodeTest, x: XNode, y: XNode, z: XNode)
    requires y.Attr? && z.Node? && Selects(d, axis, test, x, y) && Selects(d, axis, test, x, z)
    ensures if IsReverse(axis) then Before(z, y) else Before(y, z)
  {
  }

  /** A step pushes exactly the nodes it selects, once each, in axis order. */
  lemma {:induction false} StepNodesOk(d: Doc, axis: Axis, test: NodeTest, x: XNode)
    ensures var q := StepNodes(d, axis, test, x);
      && Ordered(q, IsReverse(axis)) && Elems(q) == StepSet(d, axis, test, x)
      && (axis == AttributeAxis && test.TestName? ==> |q| <= 1)
  {
    if Valid(d, x) {
      AttributePartMembers(d, axis, test, x);
      AttributePartOrder(d, axis, test, x);
      NodePartMembers(d, axis, test, x);
      NodePartPushes(d, axis, test, x);
      AttributeAxisHasNoNodePart(d, test, x);
      var a, b := AttributePart(d, axis, test, x), NodePart(d, axis, test, x);
      forall y, z | y in a && z in b ensures if IsReverse(axis) then Before(z, y) else Before(y, z) {
        PushIsStepSet(d, axis, test, x, y);
        PushIsStepSet(d, axis, test, x, z);
        PartsInOrder(d, axis, test, x, y, z);
      }
      OrderedAppend(a, b, IsReverse(axis));
      forall y ensures y in a + b <==> y in StepSet(d, axis, test, x) {
        PushIsStepSet(d, axis, test, x, y);
      }
    } else {
      forall y ensures y !in StepSet(d, axis, test, x) {
        PushIsStepSet(d, axis, test, x, y);
      }
    }
  }

  // ----- ordered sequences --------------------------------------------------------------------

  lemma OrderedIsNoDup(q: seq<XNode>, rev: bool)
    requires Ordered(q, rev)
    ensures NoDup(q)
  {
  }

  lemma {:induction false} NoDupSize(q: seq<XNode>)
    requires NoDup(q)
    ensures |Elems(q)| == |q|
  {
    if q != [] {
      NoDupSize(q[..|q| - 1]);
      assert Elems(q) == Elems(q[..|q| - 1]) + {q[|q| - 1]};
    }
  }

  /** In an ordered sequence the proximity position of a node is its index. */
  lemma PositionIsIndex(q: seq<XNode>, i: nat, rev: bool)
    requires Ordered(q, rev) && i < |q|
    ensures ProximityPosition(q[i], Elems(q), rev) == i + 1 && |Elems(q)| == |q|
  {
    OrderedIsNoDup(q, rev);
    NoDupSize(q);
    NoDupSize(q[..i + 1]);
    var S := UpTo(q[i], Elems(q), rev);
    forall y ensures y in S <==> y in Elems(q[..i + 1]) {
      if y in S {
        var j :| 0 <= j < |q| && q[j] == y;
        assert j <= i;
        assert q[..i + 1][j] == y;
      }
      if y in Elems(q[..i + 1]) {
        var j :| 0 <= j < i + 1 && q[..i + 1][j] == y;
        assert q[j] == y;
      }
    }
    assert S == Elems(q[..i + 1]);
  }

  lemma {:induction false} ReverseOk(q: seq<XNode>)
    ensures |Reverse(q)| == |q| && forall i :: 0 <= i < |q| ==> Reverse(q)[i] == q[|q| - 1 - i]
  {
    if q != [] {
      ReverseOk(q[1..]);
    }
  }

  lemma ReverseOrder(q: seq<XNode>)
    requires Decreasing(q)
    ensures Increasing(Reverse(q)) && Elems(Reverse(q)) == Elems(q)
  {
    ReverseOk(q);
    forall x ensures x in Reverse(q) <==> x in q {
      if x in q {
        var i :| 0 <= i < |q| && q[i] == x;
        assert Reverse(q)[|q| - 1 - i] == x;
      }
    }
  }

  lemma BeforeTotal(d: Doc, x: XNode, y: XNode)
    requires Valid(d, x) && Valid(d, y) && x != y
    ensures Before(x, y) || Before(y, x)
  {
  }

  lemma {:induction false} InsertOk(d: Doc, q: seq<XNode>, x: XNode)
    requires Increasing(q) && x !in q && Valid(d, x) && forall y :: y in q ==> Valid(d, y)
    ensures Increasing(Insert(q, x)) && forall y :: y in Insert(q, x) <==> y == x || y in q
  {
    if q == [] {
    } else if Before(x, q[0]) {
      forall b | 0 < b < |q| ensures Before(x, q[b]) { assert Before(q[0], q[b]); }
    } else {
      BeforeTotal(d, x, q[0]);
      InsertOk(d, q[1..], x);
      var r := Insert(q[1..], x);
      forall b | 0 <= b < |r| ensures Before(q[0], r[b]) {
        assert r[b] in r;
        if r[b] != x {
          var j :| 0 <= j < |q[1..]| && q[1..][j] == r[b];
          assert Before(q[0], q[j + 1]);
        }
      }
    }
  }

  lemma {:induction false} SortNodesOk(d: Doc, q: seq<XNode>)
    requires NoDup(q) && forall y :: y in q ==> Valid(d, y)
    ensures Increasing(SortNodes(q)) && forall y :: y in SortNodes(q) <==> y in q
  {
    if q != [] {
      SortNodesOk(d, q[1..]);
      assert q[0] !in q[1..];
      InsertOk(d, SortNodes(q[1..]), q[0]);
    }
  }

  lemma SortDoOk(d: Doc, ns: NodeSeq)
    requires Honest(d, ns)
    ensures Honest(d, SortDo(ns)) && SortDo(ns).order == Sorted && Elems(SortDo(ns).s) == Elems(ns.s)
  {
    match ns.order
    case Sorted =>
    case SortedReverse => ReverseOrder(ns.s); OrderedIsNoDup(SortDo(ns).s, false);
      assert forall x :: x in SortDo(ns).s ==> x in Elems(SortDo(ns).s);
    case Unsorted => SortNodesOk(d, ns.s); OrderedIsNoDup(SortDo(ns).s, false);
  }

  lemma {:induction false} RemoveDuplicatesOk(q: seq<XNode>)
    ensures NoDup(RemoveDuplicates(q)) && forall x :: x in RemoveDuplicates(q) <==> x in q
  {
    if q != [] {
      RemoveDuplicatesOk(q[..|q| - 1]);
      assert q == q[..|q| - 1] + [q[|q| - 1]];
    }
  }

  lemma {:induction false} MinElementOk(d: Doc, q: seq<XNode>)
    requires q != [] && forall y :: y in q ==> Valid(d, y)
    ensures IsFirst(MinElement(q), Elems(q))
  {
    if |q| > 1 {
      var p := q[..|q| - 1];
      MinElementOk(d, p);
      forall y | y in q && y != MinElement(q) ensures Before(MinElement(q), y) {
        if y != q[|q| - 1] {
          assert y in p;
          if y != MinElement(p) { assert Before(MinElement(p), y); }
        }
        BeforeTotal(d, y, MinElement(q));
        BeforeTotal(d, y, MinElement(q));
      }
    }
  }

  lemma FirstNodeOk(d: Doc, ns: NodeSeq)
    requires Honest(d, ns) && ns.s != []
    ensures IsFirst(FirstNode(ns), Elems(ns.s))
  {
    if ns.order == Unsorted { MinElementOk(d, ns.s); }
  }
}
