// The string-value of a node, as the evaluator gathers it.
module XPathText {
  import opened Basics
  import opened Document

  function ValueOf(info: NodeInfo): string {
    if info.value == None then "" else info.value.value
  }

  predicate IsTextKind(kind: NodeKind) {
    kind == PcData || kind == CData
  }

  /** The text nodes numbered from `lo` up to `hi`, joined. */
  function TextBetween(d: Doc, lo: nat, hi: nat): string
    requires hi <= |d.info|
    decreases hi - lo
  {
    if lo >= hi then ""
    else (if IsTextKind(d.info[lo].kind) then ValueOf(d.info[lo]) else "") + TextBetween(d, lo + 1, hi)
  }

  /** What `string()` makes of a tree node: an element's own value, which embedding leaves there, and the text below. */
  function NodeText(d: Doc, i: nat): string
    requires |d.info| == |d.size| && i < |d.info| && 1 <= d.size[i] && i + d.size[i] <= |d.info|
  {
    match d.info[i].kind
    case PcData | CData | Comment | Pi => ValueOf(d.info[i])
    case DocumentNode | Element => ValueOf(d.info[i]) + TextBetween(d, i + 1, i + d.size[i])
    case _ => ""
  }

  lemma {:induction false} TextSplit(d: Doc, lo: nat, mid: nat, hi: nat)
    requires lo <= mid <= hi <= |d.info|
    ensures TextBetween(d, lo, hi) == TextBetween(d, lo, mid) + TextBetween(d, mid, hi)
    decreases mid - lo
  {
    if lo < mid { TextSplit(d, lo + 1, mid, hi); }
  }

  predicate InDocument(d: Doc, x: XNode) {
    x.Node? && |d.info| == |d.size| && x.id < |d.info| && 1 <= d.size[x.id] && x.id + d.size[x.id] <= |d.info|
  }

  function TextOf(d: Doc, x: XNode): string {
    if InDocument(d, x) then NodeText(d, x.id) else ""
  }
}
