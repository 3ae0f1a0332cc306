// What the node tests of a step select (section 2.3 of XPath 1.0), said of the sets a step gives and of the node sets
// the walks fill.
module XPathNodeTests {
  import opened Basics
  import opened Document
  import opened XPathAst
  import opened XPathSequences
  import opened XPathEngine
  import opened XmlTree
  import AxisWalk

  ghost function WithKind(d: Doc, S: set<XNode>, kind: NodeKind): set<XNode> {
    set y | y in S && y.Node? && y.id < |d.info| && d.info[y.id].kind == kind
  }

  ghost function WithName(d: Doc, S: set<XNode>, name: string): set<XNode> {
    set y | y in S && y.Node? && y.id < |d.info| && d.info[y.id].name == Some(name)
  }

  ghost function WithPrefix(d: Doc, S: set<XNode>, prefix: string): set<XNode> {
    set y | y in S && y.Node? && y.id < |d.info| && d.info[y.id].name.Some? && prefix <= d.info[y.id].name.value
  }

  /** `node()` selects all of the axis. */
  lemma {:induction false} NodeIsAll(d: Doc, axis: Axis, i: nat, j: nat)
    requires WellFormed(d) && i < |d.size| && j < |d.size|
    ensures Node(j) in StepSet(d, axis, TestNode, Node(i)) <==> OnAxis(d, axis, i, j)
    ensures forall k: nat :: k < |d.info[i].attrs| ==>
      (Node(j) in StepSet(d, axis, TestNode, Attr(i, k)) <==> OnAttrAxis(d, axis, i, j))
  {
    StepSetMember(d, axis, TestNode, Node(i), Node(j));
    forall k: nat | k < |d.info[i].attrs|
      ensures Node(j) in StepSet(d, axis, TestNode, Attr(i, k)) <==> OnAttrAxis(d, axis, i, j) {
      StepSetMember(d, axis, TestNode, Attr(i, k), Node(j));
    }
  }

  /** Whether a test selects one node that `node()` selects. */
  lemma {:induction false} OneNode(d: Doc, axis: Axis, x: XNode, y: XNode, name: string)
    requires WellFormed(d) && axis != AttributeAxis
    ensures var here, k := y in StepSet(d, axis, TestNode, x), y.Node? && y.id < |d.info|;
      && (y in StepSet(d, axis, TestAll, x) <==> here && k && d.info[y.id].kind == Element)
      && (y in StepSet(d, axis, TestText, x) <==>
            here && k && (d.info[y.id].kind == PcData || d.info[y.id].kind == CData))
      && (y in StepSet(d, axis, TestComment, x) <==> here && k && d.info[y.id].kind == Comment)
      && (y in StepSet(d, axis, TestPi, x) <==> here && k && d.info[y.id].kind == Pi)
    ensures y in StepSet(d, axis, TestName(name), x) <==> y in WithName(d, StepSet(d, axis, TestAll, x), name)
    ensures y in StepSet(d, axis, TestAllInNamespace(name), x) <==>
            y in WithPrefix(d, StepSet(d, axis, TestAll, x), name)
    ensures y in StepSet(d, axis, TestPiTarget(name), x) <==> y in WithName(d, StepSet(d, axis, TestPi, x), name)
  {
    StepSetMember(d, axis, TestNode, x, y);
    StepSetMember(d, axis, TestAll, x, y);
    StepSetMember(d, axis, TestText, x, y);
    StepSetMember(d, axis, TestComment, x, y);
    StepSetMember(d, axis, TestPi, x, y);
    StepSetMember(d, axis, TestName(name), x, y);
    StepSetMember(d, axis, TestAllInNamespace(name), x, y);
    StepSetMember(d, axis, TestPiTarget(name), x, y);
  }

  /** On every axis but the one of attributes, each test selects a part of what `node()` selects: `*` the elements,
      `text()` the text and CDATA nodes, `comment()` and `processing-instruction()` those of their kind. */
  lemma {:induction false} TestsByKind(d: Doc, axis: Axis, x: XNode)
    requires WellFormed(d) && axis != AttributeAxis
    ensures StepSet(d, axis, TestAll, x) == WithKind(d, StepSet(d, axis, TestNode, x), Element)
    ensures StepSet(d, axis, TestText, x) ==
            WithKind(d, StepSet(d, axis, TestNode, x), PcData) + WithKind(d, StepSet(d, axis, TestNode, x), CData)
    ensures StepSet(d, axis, TestComment, x) == WithKind(d, StepSet(d, axis, TestNode, x), Comment)
    ensures StepSet(d, axis, TestPi, x) == WithKind(d, StepSet(d, axis, TestNode, x), Pi)
  {
    forall y { OneNode(d, axis, x, y, ""); }
  }

  /** A name selects the elements with this name, a prefix those whose name begins so, a target the processing
      instructions of this name. */
  lemma {:induction false} TestsByName(d: Doc, axis: Axis, x: XNode, name: string)
    requires WellFormed(d) && axis != AttributeAxis
    ensures StepSet(d, axis, TestName(name), x) == WithName(d, StepSet(d, axis, TestAll, x), name)
    ensures StepSet(d, axis, TestAllInNamespace(name), x) == WithPrefix(d, StepSet(d, axis, TestAll, x), name)
    ensures StepSet(d, axis, TestPiTarget(name), x) == WithName(d, StepSet(d, axis, TestPi, x), name)
  {
    forall y { OneNode(d, axis, x, y, name); }
  }

  const BY_KIND: set<NodeTest> := {TestAll, TestText, TestComment, TestPi}

  /** So what the four tests by kind select has nothing in common. */
  lemma {:induction false} TestsAreApart(d: Doc, axis: Axis, x: XNode, s: NodeTest, t: NodeTest)
    requires WellFormed(d) && axis != AttributeAxis && s in BY_KIND && t in BY_KIND && s != t
    ensures StepSet(d, axis, s, x) !! StepSet(d, axis, t, x)
  {
    forall y { OneNode(d, axis, x, y, ""); }
  }

  /** The attributes that are visible: all but the declarations of namespaces. */
  predicate Declares(name: string) {
    name == "xmlns" || "xmlns:" <= name
  }

  lemma {:induction false} VisibleIff(name: string)
    ensures IsXPathAttribute(name) <==> !Declares(name)
  {
    if |name| > 5 && name[..5] == "xmlns" {
      assert name[..6] == name[..5] + [name[5]];
      assert "xmlns:" == "xmlns" + [':'];
    }
  }

  /** On the axis of attributes `*` and `node()` select the visible attributes, a name the first one with this name, a
      prefix those whose name begins so, and the other tests nothing. */
  lemma {:induction false} AttributeTests(d: Doc, i: nat, y: XNode, name: string)
    requires WellFormed(d) && i < |d.size|
    ensures var attrs, x := d.info[i].attrs, Node(i);
      var own := y.Attr? && y.owner == i && y.index < |attrs| && !Declares(attrs[y.index].name);
      && (y in StepSet(d, AttributeAxis, TestNode, x) <==> own) && (y in StepSet(d, AttributeAxis, TestAll, x) <==> own)
      && (y in StepSet(d, AttributeAxis, TestAllInNamespace(name), x) <==> own && name <= attrs[y.index].name)
      && (y in StepSet(d, AttributeAxis, TestName(name), x) <==>
            own && attrs[y.index].name == name && forall m :: 0 <= m < y.index ==> attrs[m].name != name)
      && forall test :: test in {TestText, TestComment, TestPi, TestPiTarget(name)} ==>
           y !in StepSet(d, AttributeAxis, test, x)
  {
    var attrs, x := d.info[i].attrs, Node(i);
    forall test: NodeTest { StepSetMember(d, AttributeAxis, test, x, y); }
    forall m | 0 <= m < |attrs| { VisibleIff(attrs[m].name); }
  }

  // ----- the node sets that are filled ---------------------------------------------------------------------

  /** The walk from tree node `i` along an axis with a test, and with `node()`: the entries pushed for the test are the
      entries pushed for `node()` whose nodes are of the right kind and name. */
  lemma {:induction false} FilledByKind(d: Doc, nodes: seq<XmlNode>, axis: Axis, test: NodeTest, i: nat, j: nat,
                                        all: seq<AxisWalk.Ref>, out: seq<AxisWalk.Ref>)
    requires AxisWalk.Linked(d, nodes) && i < |nodes| && j < |nodes| && axis != AttributeAxis
    requires AxisWalk.Filled(all, [], AxisWalk.Lift(nodes, StepNodes(d, axis, TestNode, Node(i))), false)
    requires AxisWalk.Filled(out, [], AxisWalk.Lift(nodes, StepNodes(d, axis, test, Node(i))), false)
    ensures var r, info := AxisWalk.NodeRef(nodes[j]), nodes[j].info;
      && (test == TestNode ==> (r in out <==> OnAxis(d, axis, i, j)))
      && (test == TestAll ==> (r in out <==> r in all && info.kind == Element))
      && (test == TestText ==> (r in out <==> r in all && info.kind in {PcData, CData}))
      && (test == TestComment ==> (r in out <==> r in all && info.kind == Comment))
      && (test == TestPi ==> (r in out <==> r in all && info.kind == Pi))
      && (test.TestName? ==> (r in out <==> r in all && info.kind == Element && info.name == Some(test.name)))
      && (test.TestPiTarget? ==> (r in out <==> r in all && info.kind == Pi && info.name == Some(test.target)))
      && (test.TestAllInNamespace? ==>
            (r in out <==> r in all && info.kind == Element && info.name.Some? && test.prefix <= info.name.value))
  {
    FilledIs(d, nodes, axis, TestNode, i, j, all);
    FilledIs(d, nodes, axis, test, i, j, out);
    NodeIsAll(d, axis, i, j);
    var name := match test case TestName(n) => n case TestPiTarget(n) => n case TestAllInNamespace(n) => n case _ => "";
    OneNode(d, axis, Node(i), Node(j), name);
    assert AxisWalk.NodeLinks(d, nodes, j);
  }

  lemma {:induction false} FilledIs(d: Doc, nodes: seq<XmlNode>, axis: Axis, test: NodeTest, i: nat, j: nat,
                                    out: seq<AxisWalk.Ref>)
    requires AxisWalk.Linked(d, nodes) && i < |nodes| && j < |nodes|
    requires AxisWalk.Filled(out, [], AxisWalk.Lift(nodes, StepNodes(d, axis, test, Node(i))), false)
    ensures AxisWalk.NodeRef(nodes[j]) in out <==> Node(j) in StepSet(d, axis, test, Node(i))
  {
    var q := StepNodes(d, axis, test, Node(i));
    StepNodesOk(d, axis, test, Node(i));
    assert out == AxisWalk.Lift(nodes, q);
    forall y | y in q ensures Document.Valid(d, y) {
      assert y in Elems(q);
      StepSetMember(d, axis, test, Node(i), y);
    }
    LiftMember(d, nodes, q, j);
    assert Node(j) in q <==> Node(j) in Elems(q);
  }

  lemma {:induction false} LiftMember(d: Doc, nodes: seq<XmlNode>, q: seq<XNode>, j: nat)
    requires AxisWalk.Linked(d, nodes) && j < |nodes| && forall y :: y in q ==> Document.Valid(d, y)
    ensures AxisWalk.NodeRef(nodes[j]) in AxisWalk.Lift(nodes, q) <==> Node(j) in q
  {
    var out := AxisWalk.Lift(nodes, q);
    if Node(j) in q {
      var k :| 0 <= k < |q| && q[k] == Node(j);
      assert out[k] == AxisWalk.NodeRef(nodes[j]);
    }
    if AxisWalk.NodeRef(nodes[j]) in out {
      var k :| 0 <= k < |out| && out[k] == AxisWalk.NodeRef(nodes[j]);
      assert out[k] == AxisWalk.Lift1(nodes, q[k]) && q[k] in q;
      assert q[k].id != j ==> AxisWalk.Differ(nodes, q[k].id, j);
    }
  }
}
