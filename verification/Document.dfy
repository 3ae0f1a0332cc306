// A document laid out in document order.
//
// Nodes are numbered by their preorder position.  `par[i]` is the number of the parent of node
// `i` (-1 for the root) and `size[i]` the number of nodes in the subtree of `i`, itself included,
// so that the subtree of `i` is exactly the interval `[i, i + size[i])`.
module Document {
  import opened Basics

  datatype NodeKind = DocumentNode | Element | PcData | CData | Comment | Pi | Declaration | Doctype

  datatype Attribute = Attribute(name: string, value: string)

  datatype NodeInfo = NodeInfo(kind: NodeKind, name: Option<string>, value: Option<string>, attrs: seq<Attribute>)

  datatype Doc = Doc(info: seq<NodeInfo>, par: seq<int>, size: seq<nat>)

  /** What an XPath node refers to: a tree node, an attribute of a tree node, or nothing. */
  datatype XNode = Nil | Node(id: nat) | Attr(owner: nat, index: nat)

  /** `j` is a proper descendant of `i`. */
  predicate Anc(d: Doc, i: int, j: int)
    requires 0 <= i < |d.size|
  {
    i < j < i + d.size[i]
  }

  ghost predicate WellFormed(d: Doc) {
    && |d.info| == |d.par| == |d.size| > 0
    && d.par[0] == -1
    && d.size[0] == |d.size|
    && (forall i :: 0 <= i < |d.size| ==> 1 <= d.size[i] && i + d.size[i] <= |d.size|)
    && (forall i :: 0 < i < |d.size| ==> 0 <= d.par[i] < i && Anc(d, d.par[i], i))
    && (forall i, j {:trigger Anc(d, i, j)} :: 0 <= i < j < |d.size| && Anc(d, i, j) ==>
          j + d.size[j] <= i + d.size[i] && i <= d.par[j])
  }

  /** The number of steps needed to climb from `j` to `i` by parent links, if `i` is above `j`. */
  ghost predicate Climbs(d: Doc, i: int, j: int, steps: nat)
    requires WellFormed(d) && 0 <= i < |d.size| && 0 <= j < |d.size|
    decreases steps
  {
    if steps == 0 then i == j else j > 0 && Climbs(d, i, d.par[j], steps - 1)
  }

  /** Interval nesting is exactly the transitive closure of the parent link. */
  lemma AncIsParentClosure(d: Doc, i: int, j: int)
    requires WellFormed(d) && 0 <= i < |d.size| && 0 <= j < |d.size|
    ensures Anc(d, i, j) <==> exists k: nat :: k > 0 && Climbs(d, i, j, k)
  {
    if Anc(d, i, j) {
      var k := AncToClimbs(d, i, j);
      assert exists m: nat :: m > 0 && Climbs(d, i, j, m) by {
        assert k > 0 && Climbs(d, i, j, k);
      }
    }
    forall k: nat | k > 0 && Climbs(d, i, j, k) ensures Anc(d, i, j) {
      ClimbsToAnc(d, i, j, k);
    }
  }

  lemma {:induction false} AncToClimbs(d: Doc, i: int, j: int) returns (k: nat)
    requires WellFormed(d) && 0 <= i < |d.size| && 0 <= j < |d.size| && Anc(d, i, j)
    ensures k > 0 && Climbs(d, i, j, k)
    decreases j
  {
    var p := d.par[j];
    if i == p {
      assert Climbs(d, i, p, 0);
      k := 1;
    } else {
      assert Anc(d, p, j);
      k := AncToClimbs(d, i, p);
      k := k + 1;
    }
  }

  lemma {:induction false} ClimbsToAnc(d: Doc, i: int, j: int, k: nat)
    requires WellFormed(d) && 0 <= i < |d.size| && 0 <= j < |d.size|
    requires k > 0 && Climbs(d, i, j, k)
    ensures Anc(d, i, j)
    decreases k
  {
    assert Anc(d, d.par[j], j);
    if k > 1 {
      ClimbsToAnc(d, i, d.par[j], k - 1);
      AncTransitive(d, i, d.par[j], j);
    }
  }

  lemma AncTransitive(d: Doc, i: int, j: int, k: int)
    requires WellFormed(d) && 0 <= i < |d.size| && 0 <= j < |d.size| && 0 <= k < |d.size|
    requires (i == j || Anc(d, i, j)) && (j == k || Anc(d, j, k))
    ensures i == k || Anc(d, i, k)
  {
  }

  // ----- links read off the layout ------------------------------------------------------------

  predicate HasNext(d: Doc, i: int)
    requires |d.par| == |d.size| && 0 <= i < |d.size| && (i > 0 ==> 0 <= d.par[i] < |d.size|)
  {
    i > 0 && i + d.size[i] < d.par[i] + d.size[d.par[i]]
  }

  lemma FirstChild(d: Doc, i: int)
    requires WellFormed(d) && 0 <= i < |d.size| && d.size[i] > 1
    ensures d.par[i + 1] == i
  {
    assert Anc(d, i, i + 1);
  }

  /** The node right behind a subtree is the next sibling, whenever the parent reaches that far. */
  lemma NextSibling(d: Doc, i: int)
    requires WellFormed(d) && 0 <= i < |d.size| && HasNext(d, i)
    ensures i + d.size[i] < |d.size| && d.par[i + d.size[i]] == d.par[i]
  {
    var j := i + d.size[i];
    var p := d.par[i];
    assert Anc(d, p, j);
    var q := d.par[j];
    assert Anc(d, q, j);
    if q < i && q != p {
      assert Anc(d, q, i);
    }
    if q > i {
      assert Anc(d, i, q);
    }
  }

  // ----- document order ----------------------------------------------------------------------

  function Owner(x: XNode): int {
    match x
    case Nil => -1
    case Node(i) => i
    case Attr(p, _) => p
  }

  function Slot(x: XNode): int {
    match x
    case Nil => 0
    case Node(_) => 0
    case Attr(_, k) => k + 1
  }

  /** Document order: attributes come after their element and before its children. */
  predicate Before(x: XNode, y: XNode) {
    Owner(x) < Owner(y) || (Owner(x) == Owner(y) && Slot(x) < Slot(y))
  }

  predicate Valid(d: Doc, x: XNode) {
    match x
    case Nil => false
    case Node(i) => i < |d.info|
    case Attr(p, k) => p < |d.info| && k < |d.info[p].attrs|
  }
}
