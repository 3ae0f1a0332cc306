// The link operations on one list of siblings.
//
// Each of the five primitives changes a handful of links; seen from outside, it is one operation on
// the sequence of children.
module DomLists {
  import opened Basics
  import opened XmlTree

  ghost predicate ChildLinks(p: XmlNode, s: seq<XmlNode>, j: nat)
    requires j < |s|
    reads s
  {
    && s[j].parent == p
    && s[j].nextSibling == (if j + 1 < |s| then s[j + 1] else null)
    && s[j].prevSiblingC == (if j == 0 then s[|s| - 1] else s[j - 1])
  }

  ghost predicate Distinct(s: seq<XmlNode>) {
    forall i, j :: 0 <= i < j < |s| ==> s[i] != s[j]
  }

  /** `s` is the list of children of `p`, linked forwards to null and backwards in a ring. */
  ghost predicate ListOk(p: XmlNode, s: seq<XmlNode>)
    reads p, s
  {
    && p !in s && Distinct(s)
    && p.firstChild == (if s == [] then null else s[0])
    && forall j: nat {:trigger ChildLinks(p, s, j)} :: j < |s| ==> ChildLinks(p, s, j)
  }

  lemma ParentOf(n: XmlNode, s: seq<XmlNode>, x: XmlNode)
    requires ListOk(n, s) && x in s
    ensures x.parent == n
  {
    var i: nat :| i < |s| && s[i] == x;
    assert ChildLinks(n, s, i);
  }

  twostate predicate Untouched(x: XmlNode)
    reads x
  {
    x.parent == old(x.parent) && x.nextSibling == old(x.nextSibling) && x.prevSiblingC == old(x.prevSiblingC)
  }

  function Inserted(s: seq<XmlNode>, i: nat, c: XmlNode): seq<XmlNode>
    requires i <= |s|
  {
    s[..i] + [c] + s[i..]
  }

  method AppendNode(child: XmlNode, node: XmlNode, ghost s: seq<XmlNode>)
    requires ListOk(node, s) && child !in s && child != node && child.nextSibling == null
    modifies child`parent, child`prevSiblingC, node`firstChild, s
    ensures ListOk(node, s + [child])
    ensures forall x :: x in s ==> x.firstChild == old(x.firstChild) && x.info == old(x.info)
  {
    child.parent := node;
    var head := node.firstChild;
    if head != null {
      assert ChildLinks(node, s, 0) && ChildLinks(node, s, |s| - 1);
      var tail := head.prevSiblingC;
      tail.nextSibling := child;
      child.prevSiblingC := tail;
      head.prevSiblingC := child;
    } else {
      node.firstChild := child;
      child.prevSiblingC := child;
    }
    forall j: nat | j < |s| + 1 ensures ChildLinks(node, s + [child], j) {
      if j < |s| { assert old(ChildLinks(node, s, j)); }
    }
  }

  method PrependNode(child: XmlNode, node: XmlNode, ghost s: seq<XmlNode>)
    requires ListOk(node, s) && child !in s && child != node
    modifies child`parent, child`prevSiblingC, child`nextSibling, node`firstChild, s
    ensures ListOk(node, [child] + s)
    ensures forall x :: x in s ==> x.firstChild == old(x.firstChild) && x.info == old(x.info)
  {
    child.parent := node;
    var head := node.firstChild;
    if head != null {
      assert ChildLinks(node, s, 0);
      child.prevSiblingC := head.prevSiblingC;
      head.prevSiblingC := child;
    } else {
      child.prevSiblingC := child;
    }
    child.nextSibling := head;
    node.firstChild := child;
    forall j: nat | j < |s| + 1 ensures ChildLinks(node, [child] + s, j) {
      if j > 0 { assert old(ChildLinks(node, s, j - 1)); }
    }
  }

  method InsertNodeAfter(child: XmlNode, node: XmlNode, ghost parent: XmlNode, ghost s: seq<XmlNode>, ghost i: nat)
    requires ListOk(parent, s) && i < |s| && s[i] == node && child !in s && child != parent
    modifies child`parent, child`prevSiblingC, child`nextSibling, s
    ensures ListOk(parent, Inserted(s, i + 1, child))
    ensures forall x :: x in s ==> x.firstChild == old(x.firstChild) && x.info == old(x.info)
  {
    assert ChildLinks(parent, s, i) && ChildLinks(parent, s, 0);
    assert i + 1 < |s| ==> ChildLinks(parent, s, i + 1);
    child.parent := node.parent;
    if node.nextSibling != null {
      node.nextSibling.prevSiblingC := child;
    } else {
      node.parent.firstChild.prevSiblingC := child;
    }
    child.nextSibling := node.nextSibling;
    child.prevSiblingC := node;
    node.nextSibling := child;
    ghost var t := Inserted(s, i + 1, child);
    forall j: nat | j < |t| ensures ChildLinks(parent, t, j) {
      if j <= i { assert old(ChildLinks(parent, s, j)); }
      if j > i + 1 { assert old(ChildLinks(parent, s, j - 1)); }
    }
  }

  method InsertNodeBefore(child: XmlNode, node: XmlNode, ghost parent: XmlNode, ghost s: seq<XmlNode>, ghost i: nat)
    requires ListOk(parent, s) && i < |s| && s[i] == node && child !in s && child != parent
    modifies child`parent, child`prevSiblingC, child`nextSibling, parent`firstChild, s
    ensures ListOk(parent, Inserted(s, i, child))
    ensures forall x :: x in s ==> x.firstChild == old(x.firstChild) && x.info == old(x.info)
  {
    assert ChildLinks(parent, s, i) && ChildLinks(parent, s, |s| - 1);
    assert i > 0 ==> ChildLinks(parent, s, i - 1);
    child.parent := node.parent;
    if node.prevSiblingC.nextSibling != null {
      node.prevSiblingC.nextSibling := child;
    } else {
      node.parent.firstChild := child;
    }
    child.prevSiblingC := node.prevSiblingC;
    child.nextSibling := node;
    node.prevSiblingC := child;
    ghost var t := Inserted(s, i, child);
    forall j: nat | j < |t| ensures ChildLinks(parent, t, j) {
      if j < i { assert old(ChildLinks(parent, s, j)); }
      if j > i { assert old(ChildLinks(parent, s, j - 1)); }
    }
  }

  method RemoveNode(node: XmlNode, ghost parent: XmlNode, ghost s: seq<XmlNode>, ghost i: nat)
    requires ListOk(parent, s) && i < |s| && s[i] == node
    modifies parent`firstChild, s
    ensures ListOk(parent, Without(s, i))
    ensures node.parent == null && node.nextSibling == null && node.prevSiblingC == null
    ensures forall x :: x in s ==> x.firstChild == old(x.firstChild) && x.info == old(x.info)
  {
    assert ChildLinks(parent, s, i) && ChildLinks(parent, s, 0) && ChildLinks(parent, s, |s| - 1);
    assert i > 0 ==> ChildLinks(parent, s, i - 1);
    assert i + 1 < |s| ==> ChildLinks(parent, s, i + 1);
    if node.nextSibling != null {
      node.nextSibling.prevSiblingC := node.prevSiblingC;
    } else {
      node.parent.firstChild.prevSiblingC := node.prevSiblingC;
    }
    if node.prevSiblingC.nextSibling != null {
      node.prevSiblingC.nextSibling := node.nextSibling;
    } else {
      node.parent.firstChild := node.nextSibling;
    }
    node.parent := null;
    node.prevSiblingC := null;
    node.nextSibling := null;
    ghost var t := Without(s, i);
    forall j: nat | j < |t| ensures ChildLinks(parent, t, j) {
      assert old(ChildLinks(parent, s, if j < i then j else j + 1));
    }
  }
}
