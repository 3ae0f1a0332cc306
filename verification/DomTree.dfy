// A document under editing: every operation keeps the tree well linked and acyclic, and acts on the
// child sequences as its name says.
module DomTree {
  import opened Basics
  import opened Document
  import opened XmlTree
  import opened DomLists

  type Kids = map<XmlNode, seq<XmlNode>>

  predicate AllowInsertChild(parent: NodeKind, child: NodeKind) {
    && (parent == DocumentNode || parent == Element)
    && child != DocumentNode
    && (parent == DocumentNode || (child != Declaration && child != Doctype))
  }

  ghost function Index(s: seq<XmlNode>, c: XmlNode): (i: nat)
    requires c in s
    ensures i < |s| && s[i] == c
  {
    var i :| 0 <= i < |s| && s[i] == c; i
  }

  ghost function RemoveOne(s: seq<XmlNode>, c: XmlNode): seq<XmlNode>
    requires c in s
  {
    Without(s, Index(s, c))
  }

  ghost function PutAfter(s: seq<XmlNode>, mark: XmlNode, c: XmlNode): seq<XmlNode>
    requires mark in s
  {
    Inserted(s, Index(s, mark) + 1, c)
  }

  ghost function PutBefore(s: seq<XmlNode>, mark: XmlNode, c: XmlNode): seq<XmlNode>
    requires mark in s
  {
    Inserted(s, Index(s, mark), c)
  }

  class DomDocument {
    const id: int
    const root: XmlNode
    ghost var nodes: set<XmlNode>
    /** The children of every node, in order. */
    ghost var kids: Kids
    /** Grows from parent to child, so there are no cycles. */
    ghost var rank: map<XmlNode, nat>
    /** Nodes without a parent: the root, and a node being moved. */
    ghost var tops: set<XmlNode>

    ghost predicate NodeOk(n: XmlNode)
      reads this, nodes
    {
      && n in nodes && n in kids && n in rank && n.docId == id
      && (forall c :: c in kids[n] ==> c in nodes && c in rank && rank[n] < rank[c])
      && ListOk(n, kids[n])
      && (n in tops <==> n.parent == null)
      && (n.parent == null ==> n.nextSibling == null)
      && (n.parent != null ==> n.parent in nodes && n.parent in kids && n in kids[n.parent])
    }

    /** The link invariant, allowing for nodes that are momentarily detached. */
    ghost predicate Core()
      reads this, nodes
    {
      && root in nodes && root in tops && tops <= nodes && kids.Keys == nodes && rank.Keys == nodes
      && root.info.kind == DocumentNode && root.prevSiblingC == root
      && forall n {:trigger NodeOk(n)} :: n in nodes ==> NodeOk(n)
    }

    ghost predicate Valid()
      reads this, nodes
    {
      Core() && tops == {root}
    }

    constructor (id: int)
      ensures Valid() && fresh(root) && this.id == id && nodes == {root} && kids == map[root := []]
    {
      this.id := id;
      var r := new XmlNode(id, NodeInfo(DocumentNode, None, None, []));
      r.prevSiblingC := r;
      root := r;
      nodes, tops := {r}, {r};
      kids, rank := map[r := []], map[r := 0];
      new;
      assert NodeOk(root);
    }

    // ----- detaching and attaching one subtree ---------------------------------------------------------

    /** What a link operation on the list of `p`, moving `c`, leaves alone. */
    twostate predicate OnlyListOf(p: XmlNode, new c: XmlNode)
      reads this, nodes
    {
      && nodes == old(nodes) && rank == old(rank) && p in old(kids) && p in kids
      && kids == old(kids)[p := kids[p]]
      && (forall x :: x in nodes && x != c && x !in old(kids)[p] ==> Untouched(x))
      && (forall x :: x in nodes && x != p ==> x.firstChild == old(x.firstChild))
      && (forall x :: x in nodes ==> x.info == old(x.info))
      && (forall x :: x in kids[p] && x != c ==> x in old(kids)[p])
      && (forall x :: x in old(kids)[p] && x != c ==> x in kids[p])
      && (forall x :: x in nodes && x != c ==> (x in tops <==> x in old(tops)))
    }

    twostate lemma WasChildOf(n: XmlNode, new x: XmlNode)
      requires old(Core()) && n in old(nodes) && x in old(kids)[n]
      ensures old(x.parent) == n
    {
      assert old(NodeOk(n));
      var i: nat :| i < |old(kids)[n]| && old(kids)[n][i] == x;
      assert old(ChildLinks(n, kids[n], i));
    }

    /** A list none of whose links was touched is still well linked. */
    twostate lemma KeptList(n: XmlNode)
      requires old(Core()) && n in old(nodes) && n.firstChild == old(n.firstChild)
      requires forall x :: x in old(kids)[n] ==> Untouched(x)
      ensures ListOk(n, old(kids)[n])
    {
      assert old(NodeOk(n));
      var s := old(kids)[n];
      forall j: nat | j < |s| ensures ChildLinks(n, s, j) {
        assert old(ChildLinks(n, kids[n], j));
        assert Untouched(s[j]);
      }
    }

    /** Nodes other than the two ends of the changed link keep their part of the invariant. */
    twostate lemma OthersOk(p: XmlNode, new c: XmlNode, new n: XmlNode)
      requires old(Core()) && p in old(nodes) && c in old(nodes) && n in old(nodes) && n != p && n != c
      requires OnlyListOf(p, c) && ListOk(p, kids[p])
      requires old(c.parent) == null || old(c.parent) == p
      ensures NodeOk(n)
    {
      assert old(NodeOk(n)) && old(NodeOk(p)) && old(NodeOk(c));
      forall x | x in old(kids)[n] ensures Untouched(x) {
        WasChildOf(n, x);
        if x in old(kids)[p] { WasChildOf(p, x); }
      }
      KeptList(n);
      if n in old(kids)[p] {
        WasChildOf(p, n);
        ParentOf(p, kids[p], n);
      } else {
        assert Untouched(n);
      }
    }

    /** The changed list itself, and the rest of the invariant. */
    twostate lemma Relinked(p: XmlNode, new c: XmlNode)
      requires old(Core()) && p in old(nodes) && c in old(nodes) && p != c && c != root
      requires OnlyListOf(p, c) && ListOk(p, kids[p])
      requires old(c.parent) == null || old(c.parent) == p
      requires root in tops && tops <= nodes && rank[p] < rank[c]
      requires c in tops <==> c.parent == null
      requires if c in kids[p] then c.parent == p else c.parent == null && c.nextSibling == null
      ensures Core()
    {
      assert old(NodeOk(p)) && old(NodeOk(c)) && old(NodeOk(root)) && Untouched(p);
      if root in old(kids)[p] { WasChildOf(p, root); }
      assert Untouched(root);
      forall x | x in kids[p] ensures x in nodes && rank[p] < rank[x] {}
      assert NodeOk(p);
      forall x | x in old(kids)[c] ensures Untouched(x) {
        WasChildOf(c, x);
        if x in old(kids)[p] { WasChildOf(p, x); }
      }
      KeptList(c);
      assert NodeOk(c);
      forall n | n in nodes ensures NodeOk(n) {
        if n != p && n != c { OthersOk(p, c, n); }
      }
    }

    lemma DetachFacts(c: XmlNode, p: XmlNode)
      requires Core() && c in nodes && p in nodes && c in kids[p]
      ensures ListOk(p, kids[p]) && c.parent == p && c != p && c != root && rank[p] < rank[c] && c !in tops
    {
      assert NodeOk(c) && NodeOk(p) && NodeOk(root);
      ParentOf(p, kids[p], c);
    }

    method Detach(c: XmlNode, ghost p: XmlNode)
      requires Core() && c in nodes && p in nodes && c in kids[p]
      modifies this`kids, this`tops, p`firstChild, kids[p]
      ensures Core() && tops == old(tops) + {c}
      ensures kids == old(kids)[p := RemoveOne(old(kids)[p], c)]
      ensures forall x :: x in nodes ==> x.info == old(x.info)
    {
      DetachFacts(c, p);
      ghost var s := kids[p];
      ghost var i := Index(s, c);
      RemoveNode(c, p, s, i);
      kids := kids[p := Without(s, i)];
      tops := tops + {c};
      Relinked(p, c);
    }

    /** What attaching a detached `c` under `p` asks for. */
    ghost predicate CanAttach(c: XmlNode, p: XmlNode)
      reads this, nodes
    {
      Core() && c in tops && c != root && p in nodes && rank[p] < rank[c]
    }

    lemma AttachFacts(c: XmlNode, p: XmlNode)
      requires CanAttach(c, p)
      ensures ListOk(p, kids[p]) && c !in kids[p] && c != p && c.parent == null && c.nextSibling == null
    {
      assert NodeOk(c) && NodeOk(p);
      if c in kids[p] { ParentOf(p, kids[p], c); }
    }

    method AttachLast(c: XmlNode, p: XmlNode)
      requires CanAttach(c, p)
      modifies this`kids, this`tops, p`firstChild, c`parent, c`nextSibling, c`prevSiblingC, kids[p]
      ensures Core() && tops == old(tops) - {c}
      ensures kids == old(kids)[p := old(kids)[p] + [c]]
      ensures forall x :: x in nodes ==> x.info == old(x.info)
    {
      AttachFacts(c, p);
      AppendNode(c, p, kids[p]);
      kids := kids[p := kids[p] + [c]];
      tops := tops - {c};
      ParentOf(p, kids[p], c);
      Relinked(p, c);
    }

    method AttachFirst(c: XmlNode, p: XmlNode)
      requires CanAttach(c, p)
      modifies this`kids, this`tops, p`firstChild, c`parent, c`nextSibling, c`prevSiblingC, kids[p]
      ensures Core() && tops == old(tops) - {c}
      ensures kids == old(kids)[p := [c] + old(kids)[p]]
      ensures forall x :: x in nodes ==> x.info == old(x.info)
    {
      AttachFacts(c, p);
      PrependNode(c, p, kids[p]);
      kids := kids[p := [c] + kids[p]];
      tops := tops - {c};
      ParentOf(p, kids[p], c);
      Relinked(p, c);
    }

    method AttachAfter(c: XmlNode, mark: XmlNode, ghost p: XmlNode)
      requires CanAttach(c, p) && mark in kids[p]
      modifies this`kids, this`tops, c`parent, c`nextSibling, c`prevSiblingC, kids[p]
      ensures Core() && tops == old(tops) - {c}
      ensures kids == old(kids)[p := PutAfter(old(kids)[p], mark, c)]
      ensures forall x :: x in nodes ==> x.info == old(x.info)
    {
      AttachFacts(c, p);
      InsertNodeAfter(c, mark, p, kids[p], Index(kids[p], mark));
      kids := kids[p := PutAfter(kids[p], mark, c)];
      tops := tops - {c};
      InsertedMembers(old(kids)[p], Index(old(kids)[p], mark) + 1, c);
      ParentOf(p, kids[p], c);
      Relinked(p, c);
    }

    method AttachBefore(c: XmlNode, mark: XmlNode, ghost p: XmlNode)
      requires CanAttach(c, p) && mark in kids[p]
      modifies this`kids, this`tops, p`firstChild, c`parent, c`nextSibling, c`prevSiblingC, kids[p]
      ensures Core() && tops == old(tops) - {c}
      ensures kids == old(kids)[p := PutBefore(old(kids)[p], mark, c)]
      ensures forall x :: x in nodes ==> x.info == old(x.info)
    {
      AttachFacts(c, p);
      InsertNodeBefore(c, mark, p, kids[p], Index(kids[p], mark));
      kids := kids[p := PutBefore(kids[p], mark, c)];
      tops := tops - {c};
      InsertedMembers(old(kids)[p], Index(old(kids)[p], mark), c);
      ParentOf(p, kids[p], c);
      Relinked(p, c);
    }

    /** A fresh node joins the document without a place in the tree yet. */
    method Allocate(info: NodeInfo, ghost below: XmlNode) returns (n: XmlNode)
      requires Valid() && below in nodes
      modifies this`nodes, this`kids, this`rank, this`tops
      ensures fresh(n) && n.info == info && n.firstChild == null && nodes == old(nodes) + {n}
      ensures CanAttach(n, below) && tops == {root, n} && kids == old(kids)[n := []]
    {
      n := new XmlNode(id, info);
      nodes, tops := nodes + {n}, tops + {n};
      kids, rank := kids[n := []], rank[n := rank[below] + 1];
      Joined(n);
    }

    /** The new node changes nothing for the others. */
    twostate lemma Joined(new n: XmlNode)
      requires old(Core()) && n !in old(nodes) && n.docId == id
      requires nodes == old(nodes) + {n} && tops == old(tops) + {n}
      requires kids == old(kids)[n := []] && n in rank && rank == old(rank)[n := rank[n]]
      requires n.parent == null && n.nextSibling == null && n.firstChild == null
      requires forall y :: y in old(nodes) ==> unchanged(y)
      ensures Core()
    {
      forall x | x in nodes ensures NodeOk(x) {
        if x != n {
          assert old(NodeOk(x));
          KeptList(x);
        }
      }
    }

    // ----- ancestry --------------------------------------------------------------------------------------

    /** `x` is `c` or below it, going by parent links. */
    ghost predicate Under(x: XmlNode, c: XmlNode)
      requires Core() && x in nodes
      reads this, nodes
      decreases rank[x]
    {
      assert NodeOk(x);
      x == c || (x.parent != null && (RankOfParent(x); Under(x.parent, c)))
    }

    lemma RankOfParent(x: XmlNode)
      requires Core() && x in nodes && x.parent != null
      ensures x.parent in nodes && x in kids[x.parent] && rank[x.parent] < rank[x]
    {
      assert NodeOk(x);
      assert NodeOk(x.parent);
    }

    /** Climbs from `parent`; refuses if it meets `child`. */
    method AllowMove(parent: XmlNode, child: XmlNode) returns (ok: bool)
      requires Valid() && parent in nodes && (child in nodes <==> child.docId == id)
      ensures ok <==> AllowInsertChild(parent.info.kind, child.info.kind) && child in nodes && !Under(parent, child)
    {
      if !AllowInsertChild(parent.info.kind, child.info.kind) { return false; }
      assert NodeOk(parent);
      if parent.docId != child.docId { return false; }
      var cur: XmlNode? := parent;
      ghost var measure := rank[parent] + 1;
      while cur != null
        invariant cur != null ==> cur in nodes && measure == rank[cur] + 1
        invariant Under(parent, child) <==> cur != null && Under(cur, child)
        decreases if cur == null then 0 else measure
      {
        if cur == child { return false; }
        if cur.parent != null { RankOfParent(cur); }
        cur := cur.parent;
        measure := if cur == null then 0 else rank[cur] + 1;
      }
      ok := true;
    }

    /** Raises the ranks of the subtree of `c` above the rank of `p`. */
    ghost method RaiseRanks(c: XmlNode, p: XmlNode)
      requires Core() && c in nodes && p in nodes && !Under(p, c)
      modifies this`rank
      ensures Core() && rank[p] < rank[c]
    {
      ghost var r := map x | x in nodes :: if Under(x, c) then rank[x] + rank[p] + 1 else rank[x];
      forall x, y | x in nodes && y in kids[x] ensures y in nodes && r[x] < r[y] {
        assert NodeOk(x) && NodeOk(y);
        ParentOf(x, kids[x], y);
      }
      rank := r;
      forall x | x in nodes ensures NodeOk(x) {
        assert old(NodeOk(x));
      }
    }

    // ----- the editing interface ---------------------------------------------------------------------------

    static function NewInfo(kind: NodeKind): NodeInfo {
      NodeInfo(kind, if kind == Declaration then Some("xml") else None, None, [])
    }

    /** Infos and everything outside the document stay as they are. */
    twostate predicate InfosKept()
      reads this, nodes
    {
      forall x :: x in old(nodes) && x in nodes ==> x.info == old(x.info)
    }

    twostate predicate Unchanged()
      reads this, nodes
    {
      nodes == old(nodes) && kids == old(kids) && forall x :: x in nodes ==> Untouched(x)
    }

    method AppendChild(parent: XmlNode, kind: NodeKind) returns (n: XmlNode?)
      requires Valid() && parent in nodes
      modifies this`nodes, this`kids, this`rank, this`tops, parent`firstChild, kids[parent]
      ensures Valid() && InfosKept()
      ensures n == null <==> !AllowInsertChild(parent.info.kind, kind)
      ensures n == null ==> Unchanged()
      ensures n != null ==> fresh(n) && n.info == NewInfo(kind) && nodes == old(nodes) + {n}
      ensures n != null ==> kids == old(kids)[n := []][parent := old(kids)[parent] + [n]]
    {
      if !AllowInsertChild(parent.info.kind, kind) { return null; }
      n := Allocate(NewInfo(kind), parent);
      AttachLast(n, parent);
    }

    method PrependChild(parent: XmlNode, kind: NodeKind) returns (n: XmlNode?)
      requires Valid() && parent in nodes
      modifies this`nodes, this`kids, this`rank, this`tops, parent`firstChild, kids[parent]
      ensures Valid() && InfosKept()
      ensures n == null <==> !AllowInsertChild(parent.info.kind, kind)
      ensures n == null ==> Unchanged()
      ensures n != null ==> fresh(n) && n.info == NewInfo(kind) && nodes == old(nodes) + {n}
      ensures n != null ==> kids == old(kids)[n := []][parent := [n] + old(kids)[parent]]
    {
      if !AllowInsertChild(parent.info.kind, kind) { return null; }
      n := Allocate(NewInfo(kind), parent);
      AttachFirst(n, parent);
    }

    /** `mark` may be any node at all; it counts only as a child of `parent`. */
    ghost predicate MarkOk(parent: XmlNode, mark: XmlNode?)
      reads this, nodes, mark
    {
      mark == null || mark in nodes || mark.parent != parent
    }

    lemma MarkInList(parent: XmlNode, mark: XmlNode)
      requires Valid() && parent in nodes && MarkOk(parent, mark)
      ensures mark.parent == parent <==> mark in kids[parent]
    {
      assert NodeOk(parent);
      if mark in nodes { assert NodeOk(mark); }
      if mark in kids[parent] { ParentOf(parent, kids[parent], mark); }
    }

    method InsertChildAfter(parent: XmlNode, kind: NodeKind, mark: XmlNode?) returns (n: XmlNode?)
      requires Valid() && parent in nodes && MarkOk(parent, mark)
      modifies this`nodes, this`kids, this`rank, this`tops, parent`firstChild, kids[parent]
      ensures Valid() && InfosKept()
      ensures n == null <==> !(AllowInsertChild(parent.info.kind, kind) && mark != null && mark in old(kids)[parent])
      ensures n == null ==> Unchanged()
      ensures n != null ==> fresh(n) && n.info == NewInfo(kind) && nodes == old(nodes) + {n}
      ensures n != null ==> kids == old(kids)[n := []][parent := PutAfter(old(kids)[parent], mark, n)]
    {
      if !AllowInsertChild(parent.info.kind, kind) { return null; }
      if mark == null { return null; }
      MarkInList(parent, mark);
      if mark.parent != parent { return null; }
      n := Allocate(NewInfo(kind), parent);
      AttachAfter(n, mark, parent);
    }

    method InsertChildBefore(parent: XmlNode, kind: NodeKind, mark: XmlNode?) returns (n: XmlNode?)
      requires Valid() && parent in nodes && MarkOk(parent, mark)
      modifies this`nodes, this`kids, this`rank, this`tops, parent`firstChild, kids[parent]
      ensures Valid() && InfosKept()
      ensures n == null <==> !(AllowInsertChild(parent.info.kind, kind) && mark != null && mark in old(kids)[parent])
      ensures n == null ==> Unchanged()
      ensures n != null ==> fresh(n) && n.info == NewInfo(kind) && nodes == old(nodes) + {n}
      ensures n != null ==> kids == old(kids)[n := []][parent := PutBefore(old(kids)[parent], mark, n)]
    {
      if !AllowInsertChild(parent.info.kind, kind) { return null; }
      if mark == null { return null; }
      MarkInList(parent, mark);
      if mark.parent != parent { return null; }
      n := Allocate(NewInfo(kind), parent);
      AttachBefore(n, mark, parent);
    }

    /** Moving `c` is taking it out of its old list and putting it into the new one. */
    static ghost function TakenOut(k: Kids, q: XmlNode, c: XmlNode): Kids
      requires q in k && c in k[q]
    {
      k[q := RemoveOne(k[q], c)]
    }

    lemma MovedHasParent(c: XmlNode)
      requires Valid() && c in nodes && c.info.kind != DocumentNode
      ensures c.parent != null && c.parent in nodes && c in kids[c.parent]
    {
      assert NodeOk(c);
    }

    /** The first half of a move: ranks are raised, then the node leaves its list. */
    method TakeOut(moved: XmlNode, ghost parent: XmlNode) returns (ghost q: XmlNode)
      requires Valid() && parent in nodes && moved in nodes && moved.info.kind != DocumentNode && !Under(parent, moved)
      modifies this`kids, this`rank, this`tops, nodes
      ensures CanAttach(moved, parent) && tops == {root, moved} && nodes == old(nodes)
      ensures q == old(moved.parent) && q in old(kids) && moved in old(kids)[q]
      ensures kids == TakenOut(old(kids), q, moved)
      ensures forall x :: x in nodes ==> x.info == old(x.info)
    {
      MovedHasParent(moved);
      q := moved.parent;
      RaiseRanks(moved, parent);
      assert NodeOk(q);
      Detach(moved, q);
    }

    method AppendMove(parent: XmlNode, moved: XmlNode) returns (ok: bool)
      requires Valid() && parent in nodes && (moved in nodes <==> moved.docId == id)
      modifies this`kids, this`rank, this`tops, nodes
      ensures Valid() && nodes == old(nodes) && InfosKept()
      ensures ok <==> AllowInsertChild(parent.info.kind,
              moved.info.kind) && moved in nodes && !old(Under(parent, moved))
      ensures !ok ==> Unchanged()
      ensures ok ==> old(moved.parent) in old(kids) && moved in old(kids)[old(moved.parent)]
      ensures ok ==> (var k := TakenOut(old(kids), old(moved.parent), moved); kids == k[parent := k[parent] + [moved]])
    {
      ok := AllowMove(parent, moved);
      if !ok { return; }
      ghost var q := TakeOut(moved, parent);
      assert NodeOk(parent);
      AttachLast(moved, parent);
    }

    method PrependMove(parent: XmlNode, moved: XmlNode) returns (ok: bool)
      requires Valid() && parent in nodes && (moved in nodes <==> moved.docId == id)
      modifies this`kids, this`rank, this`tops, nodes
      ensures Valid() && nodes == old(nodes) && InfosKept()
      ensures ok <==> AllowInsertChild(parent.info.kind,
              moved.info.kind) && moved in nodes && !old(Under(parent, moved))
      ensures !ok ==> Unchanged()
      ensures ok ==> old(moved.parent) in old(kids) && moved in old(kids)[old(moved.parent)]
      ensures ok ==> (var k := TakenOut(old(kids), old(moved.parent), moved); kids == k[parent := [moved] + k[parent]])
    {
      ok := AllowMove(parent, moved);
      if !ok { return; }
      ghost var q := TakeOut(moved, parent);
      assert NodeOk(parent);
      AttachFirst(moved, parent);
    }

    /** Taking one node out of a list leaves the others in. */
    static lemma StillListed(k: Kids, q: XmlNode, c: XmlNode, p: XmlNode, m: XmlNode)
      requires q in k && c in k[q] && p in k && m in k[p] && m != c
      ensures m in TakenOut(k, q, c)[p]
    {
      var s, i := k[q], Index(k[q], c);
      assert s == s[..i] + [c] + s[i + 1..];
    }

    method InsertMoveAfter(parent: XmlNode, moved: XmlNode, mark: XmlNode?) returns (ok: bool)
      requires Valid() && parent in nodes && (moved in nodes <==> moved.docId == id) && MarkOk(parent, mark)
      modifies this`kids, this`rank, this`tops, nodes
      ensures Valid() && nodes == old(nodes) && InfosKept()
      ensures ok <==> AllowInsertChild(parent.info.kind,
              moved.info.kind) && moved in nodes && !old(Under(parent, moved))
                      && mark != null && mark in old(kids)[parent] && moved != mark
      ensures !ok ==> Unchanged()
      ensures ok ==> old(moved.parent) in old(kids) && moved in old(kids)[old(moved.parent)]
      ensures ok ==> (var k := TakenOut(old(kids), old(moved.parent), moved);
              mark in k[parent] && kids == k[parent := PutAfter(k[parent], mark, moved)])
    {
      ok := AllowMove(parent, moved);
      if !ok { return; }
      if mark == null { return false; }
      MarkInList(parent, mark);
      if mark.parent != parent || moved == mark { return false; }
      ghost var q := TakeOut(moved, parent);
      assert NodeOk(parent);
      StillListed(old(kids), q, moved, parent, mark);
      AttachAfter(moved, mark, parent);
    }

    method InsertMoveBefore(parent: XmlNode, moved: XmlNode, mark: XmlNode?) returns (ok: bool)
      requires Valid() && parent in nodes && (moved in nodes <==> moved.docId == id) && MarkOk(parent, mark)
      modifies this`kids, this`rank, this`tops, nodes
      ensures Valid() && nodes == old(nodes) && InfosKept()
      ensures ok <==> AllowInsertChild(parent.info.kind,
              moved.info.kind) && moved in nodes && !old(Under(parent, moved))
                      && mark != null && mark in old(kids)[parent] && moved != mark
      ensures !ok ==> Unchanged()
      ensures ok ==> old(moved.parent) in old(kids) && moved in old(kids)[old(moved.parent)]
      ensures ok ==> (var k := TakenOut(old(kids), old(moved.parent), moved);
              mark in k[parent] && kids == k[parent := PutBefore(k[parent], mark, moved)])
    {
      ok := AllowMove(parent, moved);
      if !ok { return; }
      if mark == null { return false; }
      MarkInList(parent, mark);
      if mark.parent != parent || moved == mark { return false; }
      ghost var q := TakeOut(moved, parent);
      assert NodeOk(parent);
      StillListed(old(kids), q, moved, parent, mark);
      AttachBefore(moved, mark, parent);
    }

    /** A subtree is closed under children, and what is outside it under children and parents. */
    lemma OutsideIsClosed(c: XmlNode, x: XmlNode)
      requires Core() && c in nodes && c.parent == null && x in nodes && !Under(x, c)
      ensures forall y :: y in kids[x] ==> y in nodes && !Under(y, c)
      ensures x.parent != null ==> x.parent in nodes && !Under(x.parent, c)
    {
      assert NodeOk(x);
      forall y | y in kids[x] ensures y in nodes && !Under(y, c) {
        assert NodeOk(y);
        ParentOf(x, kids[x], y);
      }
      if x.parent != null { RankOfParent(x); }
    }

    /** Forgets a detached subtree, as destroying it does. */
    ghost method Forget(c: XmlNode, gone: set<XmlNode>)
      requires Core() && c in nodes && c != root && tops == {root, c}
      requires gone == set x | x in nodes && Under(x, c)
      modifies this`nodes, this`kids, this`rank, this`tops
      ensures Valid() && nodes == old(nodes) - gone && c !in nodes
      ensures kids == map x | x in nodes :: old(kids)[x]
    {
      assert NodeOk(c) && NodeOk(root);
      forall x | x in nodes - gone ensures Closed(x, nodes - gone) { OutsideIsClosed(c, x); }
      nodes := nodes - gone;
      kids := map x | x in nodes :: kids[x];
      rank := map x | x in nodes :: rank[x];
      tops := {root};
      Reduced(gone);
    }

    /** A part of the nodes, closed under children and parents, keeps the invariant. */
    twostate lemma Reduced(gone: set<XmlNode>)
      requires old(Core()) && nodes == old(nodes) - gone && root in nodes && tops <= nodes && tops == old(tops) - gone
      requires kids == map x | x in nodes :: old(kids)[x]
      requires rank == map x | x in nodes :: old(rank)[x]
      requires forall x :: x in nodes ==> unchanged(x) && old(Closed(x, nodes - gone))
      ensures Core()
    {
      forall x | x in nodes ensures NodeOk(x) {
        assert old(NodeOk(x));
        KeptList(x);
      }
    }

    /** Children and parent of a node are in a set. */
    ghost predicate Closed(x: XmlNode, s: set<XmlNode>)
      requires x in kids
      reads this, x
    {
      (forall y :: y in kids[x] ==> y in s) && (x.parent != null ==> x.parent in s)
    }

    method RemoveChild(parent: XmlNode, n: XmlNode?) returns (ok: bool)
      requires Valid() && parent in nodes && MarkOk(parent, n)
      modifies this`nodes, this`kids, this`rank, this`tops, nodes
      ensures Valid() && InfosKept()
      ensures ok <==> n != null && n in old(kids)[parent]
      ensures !ok ==> Unchanged()
      ensures ok ==> nodes < old(nodes) && parent in nodes && n !in nodes
      ensures ok ==> forall x :: x in nodes ==>
        kids[x] == if x == parent then RemoveOne(old(kids)[x], n) else old(kids)[x]
    {
      if n == null { return false; }
      MarkInList(parent, n);
      if n.parent != parent { return false; }
      assert NodeOk(parent) && NodeOk(n) && NodeOk(root);
      Detach(n, parent);
      ParentNotBelow(parent, n);
      Forget(n, set x | x in nodes && Under(x, n));
      ok := true;
    }

    lemma ParentNotBelow(p: XmlNode, c: XmlNode)
      requires Core() && p in nodes && c in nodes && rank[p] < rank[c]
      ensures !Under(p, c)
      decreases rank[p]
    {
      if p.parent != null {
        RankOfParent(p);
        ParentNotBelow(p.parent, c);
      }
    }
  }

  lemma InsertedMembers(s: seq<XmlNode>, i: nat, c: XmlNode)
    requires i <= |s|
    ensures forall x :: x in Inserted(s, i, c) <==> x == c || x in s
  {
    assert s == s[..i] + s[i..];
  }
}
