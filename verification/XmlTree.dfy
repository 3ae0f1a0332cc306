// Tree nodes as the library links them.
module XmlTree {
  import opened Document

  class XmlNode {
    const docId: int
    var info: NodeInfo
    var parent: XmlNode?
    var firstChild: XmlNode?
    var nextSibling: XmlNode?
    /** The previous sibling; for a first child, the last child. */
    var prevSiblingC: XmlNode?

    constructor (docId: int, info: NodeInfo)
      ensures this.docId == docId && this.info == info
      ensures parent == null && firstChild == null && nextSibling == null && prevSiblingC == null
    {
      this.docId := docId;
      this.info := info;
      parent, firstChild, nextSibling, prevSiblingC := null, null, null, null;
    }
  }
}
