// White space between tags: which options keep it, and that everything else is read back.
module XmlWhiteSpace {
  import opened Basics
  import opened XmlBytes
  import opened XmlText
  import opened XmlEscape
  import opened XmlTrees
  import opened XmlParse
  import opened XmlSeen
  import opened XmlReadBack

  /** An element without the white space between its tags: texts of white space alone are gone, except, if `single`,
      one that is all there is in its element. */
  function Bare(tree: Tree, single: bool): (r: Tree)
    requires tree.Elem?
    ensures r.Elem?
    decreases tree, 0
  {
    var sole := |tree.kids| + (if tree.value == None then 0 else 1) == 1;
    var v := if tree.value.Some? && Blank(tree.value.value) && !(single && sole) then None else tree.value;
    Elem(tree.name, tree.atts, v, BareAll(tree.kids, single, single && sole))
  }

  /** The same of a list of nodes; `keep` if white space among them stays. */
  function BareAll(trees: seq<Tree>, single: bool, keep: bool): seq<Tree>
    decreases trees
  {
    if trees == [] then [] else BareItem(trees[0], single, keep) + BareAll(trees[1..], single, keep)
  }

  function BareItem(tree: Tree, single: bool, keep: bool): seq<Tree>
    decreases tree, 1
  {
    if tree.Elem? then [Bare(tree, single)] else if Blank(tree.text) && !keep then [] else [tree]
  }

  /** All contents as children or value, whatever they are: references, line ends and attributes are read as the options
      say, and a leading text is embedded if they do. */
  function Taken(o: Options, f: Format, tree: Tree): (r: Tree)
    requires tree.Elem?
    ensures r.Elem?
    decreases tree, 0
  {
    var first := if tree.value == None then [] else [Chars(SeenText(o, f, tree.value.value))];
    Filled(o, tree.name, SeenAtts(o, f, tree.atts), first + TakenAll(o, f, tree.kids))
  }

  function TakenAll(o: Options, f: Format, trees: seq<Tree>): seq<Tree>
    decreases trees
  {
    if trees == [] then [] else [TakenItem(o, f, trees[0])] + TakenAll(o, f, trees[1..])
  }

  function TakenItem(o: Options, f: Format, tree: Tree): Tree
    decreases tree, 1
  {
    if tree.Elem? then Taken(o, f, tree) else Chars(SeenText(o, f, tree.text))
  }

  /** Beside the document element only elements are read. */
  function Elements(trees: seq<Tree>): seq<Tree> {
    if trees == [] then [] else (if trees[0].Elem? then [trees[0]] else []) + Elements(trees[1..])
  }

  function TopOf(o: Options, trees: seq<Tree>): seq<Tree> {
    if o.fragment then trees else Elements(trees)
  }

  // ----- the three ways to treat white space ------------------------------------------------------------------

  /** White space is kept everywhere. */
  predicate KeepsAll(o: Options) {
    o.wsPcdata && !o.wsSingle && !o.trim
  }

  /** White space is kept where it is alone. */
  predicate KeepsSingle(o: Options) {
    o.wsSingle && !o.trim
  }

  /** What is left of the trees. */
  function Left(o: Options, trees: seq<Tree>): seq<Tree> {
    if KeepsAll(o) then trees else BareAll(trees, KeepsSingle(o), false)
  }

  lemma {:induction false} TakenSplit(o: Options, f: Format, a: seq<Tree>, b: seq<Tree>)
    ensures TakenAll(o, f, a + b) == TakenAll(o, f, a) + TakenAll(o, f, b)
  {
    if a == [] {
      assert a + b == b;
    } else {
      assert (a + b)[1..] == a[1..] + b;
      TakenSplit(o, f, a[1..], b);
    }
  }

  lemma TakenOne(o: Options, f: Format, tree: Tree)
    ensures TakenAll(o, f, [tree]) == [TakenItem(o, f, tree)] && TakenAll(o, f, []) == []
  {
    assert [tree][1..] == [];
  }

  lemma {:induction false} SeenIsAll(o: Options, f: Format, tree: Tree)
    requires KeepsAll(o) && tree.Elem?
    ensures Seen(o, f, tree) == Taken(o, f, tree)
    decreases tree, 0
  {
    SeenAllIsAll(o, f, tree.kids, KidsWhere(tree));
  }

  lemma {:induction false} SeenAllIsAll(o: Options, f: Format, trees: seq<Tree>, w: Where)
    requires KeepsAll(o) && !w.Outside?
    ensures SeenAll(o, f, trees, w) == TakenAll(o, f, trees)
    decreases trees
  {
    if trees != [] {
      if trees[0].Elem? { SeenIsAll(o, f, trees[0]); }
      SeenAllIsAll(o, f, trees[1..], w);
    }
  }

  lemma {:induction false} SeenIsBare(o: Options, f: Format, tree: Tree)
    requires !KeepsAll(o) && tree.Elem?
    ensures Seen(o, f, tree) == Taken(o, f, Bare(tree, KeepsSingle(o)))
    decreases tree, 0
  {
    SeenAllIsBare(o, f, tree.kids, KidsWhere(tree));
  }

  lemma {:induction false} SeenAllIsBare(o: Options, f: Format, trees: seq<Tree>, w: Where)
    requires !KeepsAll(o) && !w.Outside?
    ensures SeenAll(o, f, trees, w) == TakenAll(o, f, BareAll(trees, KeepsSingle(o), KeepsSingle(o) && w.Alone?))
    decreases trees
  {
    if trees != [] {
      var single, keep := KeepsSingle(o), KeepsSingle(o) && w.Alone?;
      if trees[0].Elem? { SeenIsBare(o, f, trees[0]); }
      SeenAllIsBare(o, f, trees[1..], w);
      TakenSplit(o, f, BareItem(trees[0], single, keep), BareAll(trees[1..], single, keep));
      BareItemTaken(o, f, trees[0], w);
    }
  }

  lemma {:induction false} BareItemTaken(o: Options, f: Format, tree: Tree, w: Where)
    requires !KeepsAll(o) && !w.Outside?
    requires tree.Elem? ==> Seen(o, f, tree) == Taken(o, f, Bare(tree, KeepsSingle(o)))
    ensures SeenItem(o, f, tree, w) == TakenAll(o, f, BareItem(tree, KeepsSingle(o), KeepsSingle(o) && w.Alone?))
  {
    if tree.Elem? {
      TakenOne(o, f, Bare(tree, KeepsSingle(o)));
    } else {
      TakenOne(o, f, tree);
    }
  }

  /** Outside the document element nothing but elements is read. */
  lemma {:induction false} SeenElements(o: Options, f: Format, trees: seq<Tree>)
    ensures SeenAll(o, f, trees, Outside) == SeenAll(o, f, Elements(trees), Among)
  {
    if trees != [] {
      var rest, e := Elements(trees[1..]), Elements(trees);
      SeenElements(o, f, trees[1..]);
      if trees[0].Elem? {
        assert e == [trees[0]] + rest && e[1..] == rest;
        assert SeenAll(o, f, e, Among) == SeenItem(o, f, trees[0], Among) + SeenAll(o, f, rest, Among);
      } else {
        assert e == rest && SeenItem(o, f, trees[0], Outside) == [];
      }
    }
  }

  lemma {:induction false} SeenIsLeft(o: Options, f: Format, trees: seq<Tree>)
    ensures SeenTop(o, f, trees) == TakenAll(o, f, Left(o, TopOf(o, trees)))
  {
    var top := TopOf(o, trees);
    if !o.fragment { SeenElements(o, f, trees); }
    if KeepsAll(o) {
      SeenAllIsAll(o, f, top, Among);
    } else {
      SeenAllIsBare(o, f, top, Among);
    }
  }

  // ----- the parser and white space ----------------------------------------------------------------------------

  /** What the parser makes of printed trees, by its options for white space. Without any, and whenever texts are
      trimmed, white space between tags makes no difference. With the one, each run of it is a text, also at the top
      of a fragment. With the other it is one exactly where it is all that stands in an element. */
  lemma {:induction false} WhiteSpace(trees: seq<Tree>, o: Options, single: bool, noEmpty: bool, terminated: bool)
    requires AllAdmissible(trees) && EndsWell(trees, terminated) && !Marked(trees)
    requires o.fragment || HasElem(trees)
    ensures var f, top := Format(single, false), TopOf(o, trees);
      var r := Parse(Buffer(PrintAll(trees, f, noEmpty), terminated), o);
      && ((!o.wsPcdata && !o.wsSingle) || o.trim ==> r == Result.Document(TakenAll(o, f, BareAll(top, false, false))))
      && (o.wsPcdata && !o.wsSingle && !o.trim ==> r == Result.Document(TakenAll(o, f, top)))
      && (o.wsSingle && !o.trim ==> r == Result.Document(TakenAll(o, f, BareAll(top, true, false))))
  {
    var f := Format(single, false);
    NotMarked(trees, f, noEmpty, terminated);
    PrintedIsSeen(trees, o, single, noEmpty, terminated);
    SeenIsLeft(o, f, trees);
  }

  /** A buffer with nothing in it but white space has no document element. */
  lemma {:induction false} NoElement(trees: seq<Tree>, o: Options, single: bool, noEmpty: bool)
    requires AllAdmissible(trees) && !Marked(trees) && !o.fragment && !HasElem(trees)
    ensures var text := PrintAll(trees, Format(single, false), noEmpty);
      Parse(text + [NUL], o) == NoDocumentElement(|text|)
  {
    NotMarked(trees, Format(single, false), noEmpty, true);
    PrintedIsSeen(trees, o, single, noEmpty, true);
  }

  /** The same tags and texts, with white space put between them or taken away. */
  predicate SpacedAlike(a: seq<Tree>, b: seq<Tree>) {
    BareAll(a, false, false) == BareAll(b, false, false)
  }

  lemma {:induction false} BareElements(trees: seq<Tree>, single: bool)
    ensures BareAll(Elements(trees), single, false) == Elements(BareAll(trees, single, false))
  {
    if trees != [] {
      var rest, bare := Elements(trees[1..]), BareAll(trees[1..], single, false);
      BareElements(trees[1..], single);
      if trees[0].Elem? {
        assert Elements(trees) == [trees[0]] + rest && Elements(trees)[1..] == rest;
        assert BareAll(trees, single, false) == [Bare(trees[0], single)] + bare;
        assert BareAll(trees, single, false)[1..] == bare;
      } else {
        assert Elements(trees) == rest;
        if Blank(trees[0].text) {
          assert BareAll(trees, single, false) == bare;
        } else {
          assert BareAll(trees, single, false) == [trees[0]] + bare;
          assert BareAll(trees, single, false)[1..] == bare;
        }
      }
    }
  }

  /** Without the options for white space the parser reads the same from texts that differ only in it. */
  lemma {:induction false} SpacingIgnored(a: seq<Tree>, b: seq<Tree>, o: Options, single: bool, noEmpty: bool)
    requires AllAdmissible(a) && AllAdmissible(b) && !Marked(a) && !Marked(b) && SpacedAlike(a, b)
    requires (o.fragment || (HasElem(a) && HasElem(b))) && ((!o.wsPcdata && !o.wsSingle) || o.trim)
    ensures var f := Format(single, false);
      Parse(PrintAll(a, f, noEmpty) + [NUL], o) == Parse(PrintAll(b, f, noEmpty) + [NUL], o)
  {
    WhiteSpace(a, o, single, noEmpty, true);
    WhiteSpace(b, o, single, noEmpty, true);
    BareElements(a, false);
    BareElements(b, false);
  }
}
