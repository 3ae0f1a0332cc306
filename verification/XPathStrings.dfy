// Gathering the string-value of a node by walking its links, and what it is (section 5 of XPath 1.0).
module XPathStrings {
  import opened Basics
  import opened Document
  import opened XPathText
  import opened XmlTree
  import opened AxisWalk

  /** The text below a node, gathered on the walk through its subtree. */
  method TextBelow(n: XmlNode, ghost d: Doc, ghost nodes: seq<XmlNode>, ghost i: nat) returns (result: string)
    requires Linked(d, nodes) && i < |nodes| && n == nodes[i]
    ensures result == ValueOf(d.info[i]) + TextBetween(d, i + 1, i + d.size[i])
  {
    assert NodeLinks(d, nodes, i);
    result := if n.info.value.Some? && n.info.value.value != "" then n.info.value.value else "";
    FirstLink(d, nodes, i);
    var cur := n.firstChild;
    ghost var k, end := i + 1, i + d.size[i];
    if k < end { assert Differ(nodes, i, k); }
    while cur != null && cur != n
      invariant i < k <= end <= |nodes| && cur != n && cur == if k < end then nodes[k] else null
      invariant result + TextBetween(d, k, end) == ValueOf(d.info[i]) + TextBetween(d, i + 1, end)
      decreases end - k
    {
      assert NodeLinks(d, nodes, k);
      if cur.info.kind == PcData || cur.info.kind == CData {
        ghost var before := result;
        if cur.info.value.Some? { result := result + cur.info.value.value; }
        Assoc(before, ValueOf(d.info[k]), TextBetween(d, k + 1, end));
      }
      cur := Advance(d, nodes, cur, k, n, i);
      k := k + 1;
      if k < end { assert Differ(nodes, i, k); }
    }
  }

  method StringValueOf(n: XmlNode, ghost d: Doc, ghost nodes: seq<XmlNode>, ghost i: nat) returns (result: string)
    requires Linked(d, nodes) && i < |nodes| && n == nodes[i]
    ensures result == NodeText(d, i)
  {
    assert NodeLinks(d, nodes, i);
    match n.info.kind {
      case PcData | CData | Comment | Pi => result := if n.info.value.Some? then n.info.value.value else "";
      case DocumentNode | Element => result := TextBelow(n, d, nodes, i);
      case _ => result := "";
    }
  }

  // ----- string-values as the standard has them ----------------------------------------------------------------

  /** Only elements have anything below them, except for the document at the root. */
  ghost predicate LeavesAreLeaves(d: Doc) {
    && WellFormed(d)
    && (forall i: nat :: i < |d.size| && d.info[i].kind != Element ==> i == 0 || d.size[i] == 1)
    && (forall i: nat :: 0 < i < |d.size| ==> d.info[i].kind != DocumentNode)
    && (d.info[0].kind == Element || d.info[0].kind == DocumentNode || d.size[0] == 1)
  }

  /** The string-value by the standard: a text's own; of an element or the document, those of its elements and texts,
      joined in document order, behind a text that is embedded. */
  ghost function StandardText(d: Doc, i: nat): string
    requires WellFormed(d) && i < |d.size|
    decreases |d.size| - i, 0
  {
    match d.info[i].kind
    case DocumentNode | Element =>
      KidsStart(d, i);
      ValueOf(d.info[i]) + StandardKids(d, i + 1, i)
    case Declaration | Doctype => ""
    case _ => ValueOf(d.info[i])
  }

  /** The same of the children of `p` from `j` on. */
  ghost function StandardKids(d: Doc, j: nat, p: nat): string
    requires WellFormed(d) && p < |d.size| && p < j <= p + d.size[p] && p + d.size[p] <= |d.size|
    requires j < p + d.size[p] ==> d.par[j] == p
    decreases |d.size| - j, 1
  {
    if j == p + d.size[p] then ""
    else
      ChildRange(d, j, p);
      (if d.info[j].kind in {Element, PcData, CData} then StandardText(d, j) else "") +
        StandardKids(d, j + d.size[j], p)
  }

  lemma KidsStart(d: Doc, i: nat)
    requires WellFormed(d) && i < |d.size|
    ensures 1 <= d.size[i] && i + d.size[i] <= |d.size| && (d.size[i] > 1 ==> d.par[i + 1] == i)
  {
    if d.size[i] > 1 { FirstChild(d, i); }
  }

  lemma ChildRange(d: Doc, j: nat, p: nat)
    requires WellFormed(d) && p < |d.size| && p < j < p + d.size[p] && p + d.size[p] <= |d.size| && d.par[j] == p
    ensures j + d.size[j] <= p + d.size[p] && d.size[j] >= 1
    ensures j + d.size[j] < p + d.size[p] ==> d.par[j + d.size[j]] == p
  {
    assert Anc(d, p, j);
    if j + d.size[j] < p + d.size[p] { NextSibling(d, j); }
  }

  /** The texts and the values of the elements numbered from `lo` up to `hi`, joined. */
  ghost function AllText(d: Doc, lo: nat, hi: nat): string
    requires hi <= |d.info|
    decreases hi - lo
  {
    if lo >= hi then ""
    else (if d.info[lo].kind in {Element, PcData, CData} then ValueOf(d.info[lo]) else "") + AllText(d, lo + 1, hi)
  }

  lemma {:induction false} AllTextSplit(d: Doc, lo: nat, mid: nat, hi: nat)
    requires lo <= mid <= hi <= |d.info|
    ensures AllText(d, lo, hi) == AllText(d, lo, mid) + AllText(d, mid, hi)
    decreases mid - lo
  {
    if lo < mid { AllTextSplit(d, lo + 1, mid, hi); }
  }

  /** Going down child by child meets the same texts as going through the numbers. */
  lemma {:induction false} KidsAreAll(d: Doc, j: nat, p: nat)
    requires LeavesAreLeaves(d) && p < |d.size| && p < j <= p + d.size[p] && p + d.size[p] <= |d.size|
    requires j < p + d.size[p] ==> d.par[j] == p
    ensures StandardKids(d, j, p) == AllText(d, j, p + d.size[p])
    decreases |d.size| - j
  {
    if j < p + d.size[p] {
      var next, end := j + d.size[j], p + d.size[p];
      ChildRange(d, j, p);
      KidsAreAll(d, next, p);
      AllTextSplit(d, j, next, end);
      KidsStart(d, j);
      if d.info[j].kind == Element { KidsAreAll(d, j + 1, j); }
      SubtreeIsAll(d, j);
    }
  }

  ghost function Contribution(d: Doc, j: nat): string
    requires WellFormed(d) && j < |d.size|
  {
    if d.info[j].kind in {Element, PcData, CData} then StandardText(d, j) else ""
  }

  lemma {:induction false} SubtreeIsAll(d: Doc, j: nat)
    requires LeavesAreLeaves(d) && 0 < j < |d.size| && 1 <= d.size[j] && j + d.size[j] <= |d.size|
    requires d.size[j] > 1 ==> d.par[j + 1] == j
    requires d.info[j].kind == Element ==> StandardKids(d, j + 1, j) == AllText(d, j + 1, j + d.size[j])
    ensures Contribution(d, j) == AllText(d, j, j + d.size[j])
  {
    if d.info[j].kind != Element { assert AllText(d, j + 1, j + d.size[j]) == ""; }
  }

  /** An element with a value of its own, that is, with an embedded text. */
  predicate Embeds(info: NodeInfo) {
    info.kind == Element && ValueOf(info) != ""
  }

  lemma {:induction false} AllTextIff(d: Doc, lo: nat, hi: nat)
    requires hi <= |d.info|
    ensures |AllText(d, lo, hi)| >= |TextBetween(d, lo, hi)|
    ensures AllText(d, lo, hi) == TextBetween(d, lo, hi) <==> forall j :: lo <= j < hi ==> !Embeds(d.info[j])
    ensures (exists j :: lo <= j < hi && Embeds(d.info[j])) ==> |AllText(d, lo, hi)| > |TextBetween(d, lo, hi)|
    decreases hi - lo
  {
    if lo < hi { AllTextIff(d, lo + 1, hi); }
  }

  lemma {:induction false} BranchTexts(d: Doc, i: nat)
    requires LeavesAreLeaves(d) && i < |d.size| && (d.info[i].kind == Element || d.info[i].kind == DocumentNode)
    ensures 1 <= d.size[i] && i + d.size[i] <= |d.info|
    ensures NodeText(d, i) == ValueOf(d.info[i]) + TextBetween(d, i + 1, i + d.size[i])
    ensures StandardText(d, i) == ValueOf(d.info[i]) + AllText(d, i + 1, i + d.size[i])
  {
    KidsStart(d, i);
    KidsAreAll(d, i + 1, i);
  }

  lemma Cancel(a: string, b: string, c: string)
    ensures a + b == a + c <==> b == c
  {
    assert (a + b)[|a|..] == b && (a + c)[|a|..] == c;
  }

  lemma {:induction false} LeafTexts(d: Doc, i: nat)
    requires LeavesAreLeaves(d) && i < |d.size| && d.info[i].kind != Element && d.info[i].kind != DocumentNode
    ensures d.size[i] == 1 && NodeText(d, i) == StandardText(d, i)
  {
  }

  /** The evaluator's string-value is the standard's exactly if no element below has an embedded text: such a text is
      looked for in the node itself only. */
  lemma {:induction false} StringValueIff(d: Doc, i: nat)
    requires LeavesAreLeaves(d) && i < |d.size|
    ensures NodeText(d, i) == StandardText(d, i) <==> forall j :: i < j < i + d.size[i] ==> !Embeds(d.info[j])
  {
    if d.info[i].kind == Element || d.info[i].kind == DocumentNode {
      var end := i + d.size[i];
      BranchTexts(d, i);
      AllTextIff(d, i + 1, end);
      Cancel(ValueOf(d.info[i]), TextBetween(d, i + 1, end), AllText(d, i + 1, end));
    } else {
      LeafTexts(d, i);
    }
  }

  /** An element whose child has an embedded text. */
  lemma EmbeddedIsMissed()
    ensures var d := Doc([NodeInfo(Element, Some("a"), None, []), NodeInfo(Element, Some("b"), Some("x"), [])],
        [-1, 0], [2, 1]);
      LeavesAreLeaves(d) && NodeText(d, 1) == "x" && NodeText(d, 0) == "" && StandardText(d, 0) == "x"
  {
    var a, b := NodeInfo(Element, Some("a"), None, []), NodeInfo(Element, Some("b"), Some("x"), []);
    var d := Doc([a, b], [-1, 0], [2, 1]);
    assert LeavesAreLeaves(d);
    assert TextBetween(d, 2, 2) == "" && AllText(d, 2, 2) == "";
    assert TextBetween(d, 1, 2) == "" && AllText(d, 1, 2) == "x";
    KidsAreAll(d, 1, 0);
  }
}
