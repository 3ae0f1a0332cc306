// Which nodes stand below which, in every document that editing can reach.
module DomKinds {
  import opened Basics
  import opened Document
  import opened XmlTree
  import opened DomLists
  import opened DomTree
  import opened DomLayout
  import opened DomCopy

  /** What may stand below a node of a kind. */
  function Children(kind: NodeKind): set<NodeKind> {
    match kind
    case Element => {Element, PcData, CData, Comment, Pi}
    case DocumentNode => {Element, PcData, CData, Comment, Pi, Declaration, Doctype}
    case _ => {}
  }

  /** Nothing else is let in, and all of that is. */
  lemma AllowedIff(parent: NodeKind, child: NodeKind)
    ensures AllowInsertChild(parent, child) <==> child in Children(parent)
  {
  }

  ghost predicate KindsOk(doc: DomDocument)
    reads doc, doc.nodes
  {
    forall x, c :: x in doc.nodes && x in doc.kids && c in doc.nodes && c in doc.kids[x] ==>
      c.info.kind in Children(x.info.kind)
  }

  /** Only the root is a document, and declarations and document types stand only below it. */
  lemma {:induction false} KindsMean(doc: DomDocument, x: XmlNode)
    requires doc.Valid() && KindsOk(doc) && x in doc.nodes
    ensures x.info.kind == DocumentNode <==> x == doc.root
    ensures x.info.kind in {Declaration, Doctype} ==> x in doc.kids[doc.root]
    ensures doc.kids[x] != [] ==> x.info.kind in {DocumentNode, Element}
  {
    assert doc.NodeOk(x);
    if x != doc.root {
      assert x.parent in doc.nodes && x in doc.kids[x.parent];
      assert doc.NodeOk(x.parent);
      if x.parent != doc.root && x.info.kind in {Declaration, Doctype} { KindsOfParent(doc, x.parent); }
    }
    if doc.kids[x] != [] { assert doc.kids[x][0] in doc.kids[x]; }
  }

  lemma {:induction false} KindsOfParent(doc: DomDocument, x: XmlNode)
    requires doc.Valid() && KindsOk(doc) && x in doc.nodes && x != doc.root
    ensures x.info.kind != DocumentNode
  {
    assert doc.NodeOk(x);
    assert x.parent in doc.nodes && x in doc.kids[x.parent];
  }

  lemma InsertedMembers(s: seq<XmlNode>, i: nat, n: XmlNode, c: XmlNode)
    requires i <= |s| && c in Inserted(s, i, n)
    ensures c in s || c == n
  {
  }

  lemma TakenMembers(s: seq<XmlNode>, m: XmlNode, c: XmlNode)
    requires m in s && c in RemoveOne(s, m)
    ensures c in s
  {
  }

  /** One edit of a document. */
  datatype Edit =
    | Append(parent: XmlNode, kind: NodeKind)
    | Prepend(parent: XmlNode, kind: NodeKind)
    | InsertAfter(parent: XmlNode, kind: NodeKind, mark: XmlNode?)
    | InsertBefore(parent: XmlNode, kind: NodeKind, mark: XmlNode?)
    | MoveLast(parent: XmlNode, moved: XmlNode)
    | MoveFirst(parent: XmlNode, moved: XmlNode)
    | MoveAfter(parent: XmlNode, moved: XmlNode, mark: XmlNode?)
    | MoveBefore(parent: XmlNode, moved: XmlNode, mark: XmlNode?)
    | Remove(parent: XmlNode, mark: XmlNode?)

  /** What the program demands of the nodes it is given. */
  ghost predicate Given(doc: DomDocument, e: Edit)
    reads doc, doc.nodes, if e.MoveLast? || e.MoveFirst? || e.MoveAfter? || e.MoveBefore? then {e.moved} else {},
      if e.InsertAfter? || e.InsertBefore? || e.MoveAfter? || e.MoveBefore? || e.Remove? then
        (if e.mark == null then {} else {e.mark}) else {}
  {
    && doc.Valid() && e.parent in doc.nodes
    && (e.MoveLast? || e.MoveFirst? || e.MoveAfter? || e.MoveBefore? ==>
          (e.moved in doc.nodes <==> e.moved.docId == doc.id))
    && (e.InsertAfter? || e.InsertBefore? || e.MoveAfter? || e.MoveBefore? || e.Remove? ==>
          doc.MarkOk(e.parent, e.mark))
  }

  /** Every child in the new lists was a child there before, or is `n` below `parent`. */
  ghost predicate OnlyPlaced(k: Kids, k': Kids, parent: XmlNode, n: XmlNode?) {
    forall x, c :: x in k' && c in k'[x] ==> (x in k && c in k[x]) || (x == parent && c == n)
  }

  twostate lemma {:induction false} PlacedKeepsKinds(doc: DomDocument, new parent: XmlNode, new n: XmlNode?)
    requires old(doc.Valid()) && doc.Valid() && old(KindsOk(doc)) && doc.InfosKept()
    requires OnlyPlaced(old(doc.kids), doc.kids, parent, n)
    requires n != null ==> n.info.kind in Children(parent.info.kind)
    ensures KindsOk(doc)
  {
    forall x, c | x in doc.nodes && x in doc.kids && c in doc.nodes && c in doc.kids[x]
      ensures c.info.kind in Children(x.info.kind) {
      if x in old(doc.kids) && c in old(doc.kids)[x] { assert old(doc.NodeOk(x)); }
    }
  }

  lemma {:induction false} PlacedNew(k: Kids, k': Kids, parent: XmlNode, n: XmlNode, i: nat)
    requires parent in k && i <= |k[parent]| && k' == k[n := []][parent := Inserted(k[parent], i, n)]
    ensures OnlyPlaced(k, k', parent, n)
  {
    forall x, c | x in k' && c in k'[x] ensures (x in k && c in k[x]) || (x == parent && c == n) {
      if x == parent { InsertedMembers(k[parent], i, n, c); }
    }
  }

  lemma {:induction false} PlacedMoved(k: Kids, k': Kids, from: XmlNode, parent: XmlNode, moved: XmlNode, i: nat)
    requires from in k && moved in k[from] && parent in k
    requires var t := DomDocument.TakenOut(k, from, moved);
      i <= |t[parent]| && k' == t[parent := Inserted(t[parent], i, moved)]
    ensures OnlyPlaced(k, k', parent, moved)
  {
    var t := DomDocument.TakenOut(k, from, moved);
    forall x, c | x in k' && c in k'[x] ensures (x in k && c in k[x]) || (x == parent && c == moved) {
      if x == parent { InsertedMembers(t[parent], i, moved, c); }
      if x == from && c in t[from] { TakenMembers(k[from], moved, c); }
    }
  }

  lemma AtTheEnds(s: seq<XmlNode>, n: XmlNode)
    ensures Inserted(s, |s|, n) == s + [n] && Inserted(s, 0, n) == [n] + s
  {
  }

  /** A new node is let in exactly if its kind may stand there, and the kinds stay in order. */
  method PlaceNew(doc: DomDocument, e: Edit) returns (n: XmlNode?)
    requires Given(doc, e) && KindsOk(doc) && (e.Append? || e.Prepend? || e.InsertAfter? || e.InsertBefore?)
    modifies doc`nodes, doc`kids, doc`rank, doc`tops, e.parent`firstChild, doc.kids[e.parent]
    ensures doc.Valid() && KindsOk(doc)
    ensures n != null ==> e.kind in Children(e.parent.info.kind) && n.info.kind == e.kind
    ensures e.Append? || e.Prepend? ==> (n != null <==> e.kind in Children(e.parent.info.kind))
  {
    AllowedIff(e.parent.info.kind, e.kind);
    ghost var k := doc.kids;
    AtTheEnds(k[e.parent], e.parent);
    match e {
      case Append(parent, kind) =>
        n := doc.AppendChild(parent, kind);
        if n != null {
          AtTheEnds(k[parent], n);
          PlacedNew(k, doc.kids, parent, n, |k[parent]|);
        }
      case Prepend(parent, kind) =>
        n := doc.PrependChild(parent, kind);
        if n != null {
          AtTheEnds(k[parent], n);
          PlacedNew(k, doc.kids, parent, n, 0);
        }
      case InsertAfter(parent, kind, mark) =>
        n := doc.InsertChildAfter(parent, kind, mark);
        if n != null { PlacedNew(k, doc.kids, parent, n, Index(k[parent], mark) + 1); }
      case InsertBefore(parent, kind, mark) =>
        n := doc.InsertChildBefore(parent, kind, mark);
        if n != null { PlacedNew(k, doc.kids, parent, n, Index(k[parent], mark)); }
      case _ => n := null;
    }
    PlacedKeepsKinds(doc, e.parent, n);
  }

  /** A move keeps the kinds in order, and is refused where they would not be. */
  method Move(doc: DomDocument, e: Edit) returns (ok: bool)
    requires Given(doc, e) && KindsOk(doc) && (e.MoveLast? || e.MoveFirst? || e.MoveAfter? || e.MoveBefore?)
    modifies doc`kids, doc`rank, doc`tops, doc.nodes
    ensures doc.Valid() && KindsOk(doc)
    ensures ok ==> e.moved.info.kind in Children(e.parent.info.kind)
  {
    AllowedIff(e.parent.info.kind, e.moved.info.kind);
    ghost var k, from := doc.kids, e.moved.parent;
    match e {
      case MoveLast(parent, moved) =>
        ok := doc.AppendMove(parent, moved);
        if ok {
          ghost var t := DomDocument.TakenOut(k, from, moved)[parent];
          AtTheEnds(t, moved);
          PlacedMoved(k, doc.kids, from, parent, moved, |t|);
        }
      case MoveFirst(parent, moved) =>
        ok := doc.PrependMove(parent, moved);
        if ok {
          ghost var t := DomDocument.TakenOut(k, from, moved)[parent];
          AtTheEnds(t, moved);
          PlacedMoved(k, doc.kids, from, parent, moved, 0);
        }
      case MoveAfter(parent, moved, mark) =>
        ok := doc.InsertMoveAfter(parent, moved, mark);
        if ok {
          ghost var t := DomDocument.TakenOut(k, from, moved)[parent];
          PlacedMoved(k, doc.kids, from, parent, moved, Index(t, mark) + 1);
        }
      case MoveBefore(parent, moved, mark) =>
        ok := doc.InsertMoveBefore(parent, moved, mark);
        if ok {
          ghost var t := DomDocument.TakenOut(k, from, moved)[parent];
          PlacedMoved(k, doc.kids, from, parent, moved, Index(t, mark));
        }
      case _ => ok := false;
    }
    PlacedKeepsKinds(doc, e.parent, if ok then e.moved else null);
  }

  method RemoveNode(doc: DomDocument, e: Edit) returns (ok: bool)
    requires Given(doc, e) && KindsOk(doc) && e.Remove?
    modifies doc`nodes, doc`kids, doc`rank, doc`tops, doc.nodes
    ensures doc.Valid() && KindsOk(doc)
  {
    ghost var k := doc.kids;
    ok := doc.RemoveChild(e.parent, e.mark);
    forall x, c | x in doc.kids && c in doc.kids[x] ensures x in k && c in k[x] {
      if ok && x == e.parent { TakenMembers(k[x], e.mark, c); }
    }
    PlacedKeepsKinds(doc, e.parent, null);
  }

  /** The document as it is made. */
  method Fresh(id: int) returns (doc: DomDocument)
    ensures fresh(doc) && doc.Valid() && KindsOk(doc)
  {
    doc := new DomDocument(id);
  }

  // ----- copies --------------------------------------------------------------------------------------------

  /** The kinds in some lists are in order; folded. */
  ghost predicate ListsOk(kids: Kids, infos: map<XmlNode, NodeInfo>) {
    forall k: nat {:trigger ListsOkForm(kids, infos, k)} :: k < 1 ==> ListsOkForm(kids, infos, k)
  }

  ghost predicate ListsOkForm(kids: Kids, infos: map<XmlNode, NodeInfo>, k: nat) {
    forall x, c :: x in kids && c in kids[x] ==>
      x in infos && c in infos && c in kids && infos[c].kind in Children(infos[x].kind)
  }

  /** The kinds before a copy is made, in both documents. */
  ghost predicate KindsBefore(b: Snapshot) {
    b.infos.Keys == b.h.kids.Keys + b.kids.Keys && ListsOk(b.kids, b.infos) && ListsOk(b.h.kids, b.infos)
  }

  lemma {:induction false} OldPair(b: Snapshot, doc: DomDocument, phi: Copies, proto: XmlNode, n: XmlNode,
                                   parent: XmlNode, at: nat, x: XmlNode, c: XmlNode)
    requires Copied(b, doc, phi, proto, n, parent, at) && KindsBefore(b)
    requires proto in b.infos && parent in b.infos && b.infos[proto].kind in Children(b.infos[parent].kind)
    requires x in b.kids && x in doc.kids && c in doc.kids[x]
    ensures c.info.kind in Children(x.info.kind)
  {
    assert ListsOkForm(b.kids, b.infos, 0);
    assert x.info == b.infos[x];
    if x == parent { InsertedMembers(b.kids[parent], at, n, c); }
    if c == n && x == parent {
      assert proto in phi && phi[proto].info == b.infos[proto];
    } else {
      assert c in b.kids[x] && c.info == b.infos[c];
    }
  }

  lemma {:induction false} NewPair(b: Snapshot, doc: DomDocument, phi: Copies, proto: XmlNode, n: XmlNode,
                                   parent: XmlNode, at: nat, x: XmlNode, c: XmlNode)
    requires Copied(b, doc, phi, proto, n, parent, at) && KindsBefore(b)
    requires x in phi.Values && x in doc.kids && c in doc.kids[x]
    ensures c.info.kind in Children(x.info.kind)
  {
    assert ListsOkForm(b.h.kids, b.infos, 0);
    var x0 :| x0 in phi && phi[x0] == x;
    assert SameList(phi, b.h, x0, doc.kids);
    var i :| 0 <= i < |doc.kids[x]| && doc.kids[x][i] == c;
    var c0 := b.h.kids[x0][i];
    assert c0 in phi && phi[c0] == c && c0 in b.h.kids[x0];
    assert c.info == b.infos[c0] && x.info == b.infos[x0];
  }

  /** A copy keeps the kinds in order as well. */
  lemma {:induction false} CopyKeepsKinds(b: Snapshot, doc: DomDocument, phi: Copies, proto: XmlNode, n: XmlNode,
                                          parent: XmlNode, at: nat)
    requires Copied(b, doc, phi, proto, n, parent, at) && KindsBefore(b)
    requires proto in b.infos && parent in b.infos && b.infos[proto].kind in Children(b.infos[parent].kind)
    ensures KindsOk(doc)
  {
    forall x, c | x in doc.nodes && x in doc.kids && c in doc.nodes && c in doc.kids[x]
      ensures c.info.kind in Children(x.info.kind) {
      if x in b.kids {
        OldPair(b, doc, phi, proto, n, parent, at, x, c);
      } else {
        NewPair(b, doc, phi, proto, n, parent, at, x, c);
      }
    }
  }

  /** Documents whose kinds are in order make such a snapshot. */
  lemma {:induction false} SnapshotKinds(doc: DomDocument, src: DomDocument)
    requires doc.Valid() && src.Valid() && KindsOk(doc) && KindsOk(src)
    ensures KindsBefore(StateOf(doc, src))
  {
    assert src.nodes == src.kids.Keys && doc.nodes == doc.kids.Keys;
    SnapshotOf(doc, src, StateOf(doc, src));
  }

  lemma {:induction false} SnapshotOf(doc: DomDocument, src: DomDocument, b: Snapshot)
    requires doc.Valid() && src.Valid() && KindsOk(doc) && KindsOk(src)
    requires b.kids == doc.kids && b.h.kids == src.kids && b.infos.Keys == src.kids.Keys + doc.kids.Keys
    requires forall x :: x in b.infos ==> b.infos[x] == x.info
    ensures KindsBefore(b)
  {
    AllListed(doc, b.kids, b.infos);
    AllListed(src, b.h.kids, b.infos);
  }

  lemma {:induction false} AllListed(doc: DomDocument, kids: Kids, infos: map<XmlNode, NodeInfo>)
    requires doc.Valid() && KindsOk(doc) && kids == doc.kids
    requires forall x :: x in doc.nodes ==> x in infos && infos[x] == x.info
    ensures ListsOk(kids, infos)
  {
    forall x, c | x in kids && c in kids[x]
      ensures x in infos && c in infos && c in kids && infos[c].kind in Children(infos[x].kind) {
      ListedKinds(doc, x, c);
    }
    assert ListsOkForm(kids, infos, 0);
  }

  lemma {:induction false} ListedKinds(doc: DomDocument, x: XmlNode, c: XmlNode)
    requires doc.Valid() && KindsOk(doc) && x in doc.kids && c in doc.kids[x]
    ensures x in doc.nodes && c in doc.nodes && c in doc.kids && c.info.kind in Children(x.info.kind)
  {
    assert doc.NodeOk(x);
    assert doc.NodeOk(c);
  }
}
