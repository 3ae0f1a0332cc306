// Printing a tree and parsing the result gives back the tree.
module XmlReadBack {
  import opened Basics
  import opened XmlBytes
  import opened XmlText
  import opened XmlEscape
  import opened XmlTrees
  import opened XmlParse
  import opened XmlSeen

  lemma {:induction false} NameEndsAt(t: seq<byte>, i: nat, e: nat)
    requires i <= e <= |t| && !IsSymbol(At(t, e)) && forall k :: i <= k < e ==> IsSymbol(t[k])
    ensures NameEnd(t, i) == e
    decreases e - i
  {
    if i < e { NameEndsAt(t, i + 1, e); }
  }

  /** A buffer being parsed, and how what stands in it was printed. */
  datatype Reader = Reader(t: seq<byte>, o: Options, endch: byte, f: Format, noEmpty: bool) {
    /** The terminator is there, and nothing was dropped in printing; about the options nothing is said. */
    ghost predicate Ok() {
      |t| > 0 && t[|t| - 1] == NUL && !f.skipControl
    }

    ghost function C(i: nat, st: seq<Frame>): Outcome
      requires Ok() && i < |t| && st != []
    {
      Content(t, i, st, o, endch)
    }

    /** From `i` with `st` the parse comes to `j` with `st'`; kept folded in the inductions. */
    ghost predicate Goes(i: nat, st: seq<Frame>, j: nat, st': seq<Frame>)
      requires Ok()
    {
      forall n: nat {:trigger GoesForm(i, st, j, st', n)} :: n < 1 ==> GoesForm(i, st, j, st', n)
    }

    ghost predicate GoesForm(i: nat, st: seq<Frame>, j: nat, st': seq<Frame>, n: nat)
      requires Ok()
    {
      i < |t| && j < |t| && st != [] && st' != [] && C(i, st) == C(j, st')
    }

    lemma Stay(i: nat, st: seq<Frame>)
      requires Ok() && i < |t| && st != []
      ensures Goes(i, st, i, st)
    {
      assert GoesForm(i, st, i, st, 0);
    }

    lemma Then(i: nat, st: seq<Frame>, j: nat, st': seq<Frame>, k: nat, st'': seq<Frame>)
      requires Ok() && Goes(i, st, j, st') && Goes(j, st', k, st'')
      ensures Goes(i, st, k, st'')
    {
      assert GoesForm(i, st, j, st', 0) && GoesForm(j, st', k, st'', 0);
      assert GoesForm(i, st, k, st'', 0);
    }

    // ----- text ---------------------------------------------------------------------------------------

    /** A run of character data has been added to the innermost element, or has not. */
    ghost function Grow(st: seq<Frame>, item: Tree): (r: seq<Frame>)
      requires st != []
      ensures |r| == |st|
    {
      if item.Chars? then AddText(st, item.text, o) else AddKid(st, item)
    }

    ghost function Grown(st: seq<Frame>, items: seq<Tree>): (r: seq<Frame>)
      requires st != []
      ensures |r| == |st|
      decreases |items|
    {
      if items == [] then st else Grown(Grow(st, items[0]), items[1..])
    }

    /** White space at `j` is all that its element contains. */
    ghost predicate Sole(j: nat, st: seq<Frame>)
      requires st != []
    {
      At(t, j) == LT && At(t, j + 1) == SLASH && Top(st).kids == []
    }

    /** What is said of a text that ends at `j` by where it stands. */
    ghost predicate WhereOk(w: Where, j: nat, st: seq<Frame>)
      requires st != []
    {
      && (w.Outside? <==> |st| == 1 && !o.fragment)
      && (!w.Outside? ==> (w.Alone? <==> Sole(j, st)))
    }

    /** A text begins with neither a tag nor the end, and is all white space exactly if it is blank. */
    lemma {:induction false} TextBegins(i: nat, j: nat, s: seq<byte>)
      requires Ok() && TextOk(s, false) && Written(t, i, j, s, InContent, f) && StopsAt(t, j)
      ensures i < j < |t| && t[i] != NUL && t[i] != LT && SpacesEnd(t, i) <= j
      ensures SpacesEnd(t, i) == j <==> Blank(s)
      ensures SpacesEnd(t, i) == j || t[SpacesEnd(t, i)] !in {LT, NUL}
    {
      var k := WrittenSplits(t, i, j, s, InContent, f);
      assert s[0] in s;
      WrittenBlanks(t, i, j, s, f);
      assert WrittenForm(t, i, j, s, InContent, f, 0);
      WrittenInside(SpacesEnd(t, i), j, DropBlanks(s));
    }

    lemma WrittenInside(i: nat, j: nat, s: seq<byte>)
      requires Written(t, i, j, s, InContent, f) && NUL !in s
      ensures i <= j < |t| && forall k :: i <= k < j ==> t[k] !in {LT, NUL}
    {
      assert WrittenForm(t, i, j, s, InContent, f, 0);
      EscapedClean(InContent, f, s);
      forall k | i <= k < j ensures t[k] !in {LT, NUL} { assert t[k] == t[i..j][k - i]; }
    }

    /** What comes of a text that ends at `j`. */
    ghost function ChunkOf(s: seq<byte>, j: nat, st: seq<Frame>): Chunk
      requires st != [] && j < |t|
    {
      var next := if t[j] == NUL then j else j + 1;
      if Blank(s) && DropsSpace(t, j, st, o) then Dropped(j)
      else if |st| == 1 && !o.fragment then Ignored(j)
      else TextTo(SeenText(o, f, s), next)
    }

    lemma {:induction false} ScanRead(i: nat, j: nat, s: seq<byte>, st: seq<Frame>)
      requires Ok() && st != [] && TextOk(s, false) && Written(t, i, j, s, InContent, f) && StopsAt(t, j)
      requires i < j && t[i] != NUL && t[i] != LT && SpacesEnd(t, i) <= j && (SpacesEnd(t, i) == j <==> Blank(s))
      requires SpacesEnd(t, i) == j || t[SpacesEnd(t, i)] !in {LT, NUL}
      ensures ScanText(t, i, st, o) == ChunkOf(s, j, st)
    {
      if Blank(s) && DropsSpace(t, j, st, o) {
        ScanDrops(t, i, st, o, j);
      } else if |st| == 1 && !o.fragment {
        WrittenInside(i, j, s);
        ScanIgnores(t, i, st, o, j);
      } else {
        KeptRead(i, j, s, st);
      }
    }

    lemma {:induction false} KeptRead(i: nat, j: nat, s: seq<byte>, st: seq<Frame>)
      requires Ok() && st != [] && NUL !in s && Written(t, i, j, s, InContent, f) && StopsAt(t, j)
      requires i < |t| && t[i] != NUL && t[i] != LT && (|st| > 1 || o.fragment)
      requires SpacesEnd(t, i) == j ==> !DropsSpace(t, j, st, o)
      requires SpacesEnd(t, i) == j || At(t, SpacesEnd(t, i)) !in {LT, NUL}
      ensures ScanText(t, i, st, o) == TextTo(SeenText(o, f, s), if t[j] == NUL then j else j + 1)
    {
      PcdataRead(t, i, j, s, o, f);
      ScanKeeps(t, i, st, o, j, SeenText(o, f, s));
    }

    lemma DropsIff(j: nat, st: seq<Frame>, w: Where)
      requires st != [] && WhereOk(w, j, st) && !w.Outside?
      ensures DropsSpace(t, j, st, o) <==> !KeepsBlank(o, w)
    {
    }

    lemma {:induction false} ReadChars(i: nat, j: nat, s: seq<byte>, st: seq<Frame>, w: Where)
      requires Ok() && st != [] && TextOk(s, false) && Written(t, i, j, s, InContent, f) && StopsAt(t, j)
      requires WhereOk(w, j, st)
      ensures Goes(i, st, j, Grown(st, SeenChars(o, f, s, w)))
    {
      TextBegins(i, j, s);
      ScanRead(i, j, s, st);
      TextGoes(i, j, st, ChunkOf(s, j, st));
      if !w.Outside? { DropsIff(j, st, w); }
      GrownOne(st, Chars(SeenText(o, f, s)));
    }

    lemma TextGoes(i: nat, j: nat, st: seq<Frame>, c: Chunk)
      requires Ok() && st != [] && i < |t| && t[i] != NUL && t[i] != LT && StopsAt(t, j)
      requires ScanText(t, i, st, o) == c && c.next == if !c.TextTo? || t[j] == NUL then j else j + 1
      ensures Goes(i, st, j, if c.TextTo? then AddText(st, c.text, o) else st)
    {
      ContentAtText(t, i, st, o, endch, j, c);
      assert GoesForm(i, st, j, if c.TextTo? then AddText(st, c.text, o) else st, 0);
    }

    lemma GrownOne(st: seq<Frame>, item: Tree)
      requires st != []
      ensures Grown(st, [item]) == Grow(st, item)
    {
      assert [item][1..] == [];
    }

    lemma {:induction false} GrownAppend(st: seq<Frame>, a: seq<Tree>, b: seq<Tree>)
      requires st != []
      ensures Grown(st, a + b) == Grown(Grown(st, a), b)
      decreases |a|
    {
      if a == [] {
        assert a + b == b;
      } else {
        assert (a + b)[1..] == a[1..] + b;
        GrownAppend(Grow(st, a[0]), a[1..], b);
      }
    }

    /** Behind the first of its contents, and at the top, an element takes everything as a child. */
    lemma {:induction false} GrownKids(st: seq<Frame>, items: seq<Tree>)
      requires st != [] && (!o.embed || |st| == 1 || Top(st).kids != [] || Top(st).value != None)
      ensures Grown(st, items) == AddKids(st, items)
      decreases |items|
    {
      if items == [] {
        assert Top(st).kids + [] == Top(st).kids;
      } else {
        GrownKids(AddKid(st, items[0]), items[1..]);
        AddKidsNext(st, items);
      }
    }

    /** An element that takes `items` one after the other. */
    lemma {:induction false} GrownElement(st: seq<Frame>, name: seq<byte>, atts: seq<Att>, items: seq<Tree>)
      requires st != []
      ensures Grown(st + [Frame(name, atts, None, [])], items) == Opened(st, Filled(o, name, atts, items))
    {
      var st1 := st + [Frame(name, atts, None, [])];
      assert st1[..|st1| - 1] == st;
      if items != [] && o.embed && items[0].Chars? {
        var st2 := st + [Frame(name, atts, Some(items[0].text), [])];
        assert Grow(st1, items[0]) == st2 && st2[..|st2| - 1] == st;
        GrownKids(st2, items[1..]);
        assert [] + items[1..] == items[1..];
      } else if items != [] {
        GrowKid(st1, items[0]);
        GrownKids(AddKid(st1, items[0]), items[1..]);
        AddKidsNext(st1, items);
        assert [] + items == items;
      }
    }

    lemma GrowKid(st: seq<Frame>, item: Tree)
      requires st != [] && (item.Chars? ==> !o.embed || |st| == 1 || Top(st).kids != [] || Top(st).value != None)
      ensures Grow(st, item) == AddKid(st, item)
    {
    }

    // ----- start tags -----------------------------------------------------------------------------------

    ghost function A(i: nat, st: seq<Frame>): Outcome
      requires Ok() && i < |t| && |st| > 1
    {
      Attributes(t, i, st, o, endch)
    }

    ghost predicate Passes(i: nat, st: seq<Frame>, j: nat, st': seq<Frame>)
      requires Ok()
    {
      forall n: nat {:trigger PassesForm(i, st, j, st', n)} :: n < 1 ==> PassesForm(i, st, j, st', n)
    }

    ghost predicate PassesForm(i: nat, st: seq<Frame>, j: nat, st': seq<Frame>, n: nat)
      requires Ok()
    {
      i < |t| && j < |t| && |st| > 1 && |st'| > 1 && A(i, st) == A(j, st')
    }

    lemma ReadName(i: nat, e: nat, name: seq<byte>)
      requires Ok() && IsName(name) && i <= e < |t| && t[i..e] == name && !IsSymbol(t[e])
      ensures i < e && IsStartSymbol(t[i]) && NameEnd(t, i) == e
    {
      forall k | i <= k < e ensures IsSymbol(t[k]) { assert t[i..e][k - i] == t[k]; }
      assert t[i..e][0] == t[i];
      NameEndsAt(t, i, e);
    }

    /** What is read of a printed attribute. */
    ghost function SeenAtt(a: Att): Att {
      Att(a.name, SeenValue(o, f, a.value))
    }

    lemma AttPasses(i: nat, a: Att, next: nat, st: seq<Frame>)
      requires Ok() && |st| > 1 && i + 1 < |t| && SpacesEnd(t, i) == i + 1 && IsStartSymbol(t[i + 1])
      requires ScanAtt(t, i + 1, o) == GotAtt(a, next)
      ensures Passes(i, st, next, AddAtt(st, a))
    {
      AttributesAtName(t, i, st, o, endch, i + 1, a, next);
      assert PassesForm(i, st, next, AddAtt(st, a), 0);
    }

    /** One attribute, printed from `i` on with its name up to `e` and its value up to `v`; folded. */
    ghost predicate AttPlaced(i: nat, e: nat, v: nat, a: Att) {
      forall n: nat {:trigger AttPlacedForm(i, e, v, a, n)} :: n < 1 ==> AttPlacedForm(i, e, v, a, n)
    }

    ghost predicate AttPlacedForm(i: nat, e: nat, v: nat, a: Att, n: nat) {
      && i + 1 <= e && e + 1 < v && v + 1 < |t| && t[i] == SPACE && t[i + 1..e] == a.name
      && t[e] == EQUALS && t[e + 1] == Quote(f) && Written(t, e + 2, v, a.value, InAttribute, f)
      && t[v] == Quote(f) && !IsStartSymbol(t[v + 1])
    }

    lemma AttNamed(i: nat, e: nat, v: nat, a: Att)
      requires Ok() && IsName(a.name) && AttPlaced(i, e, v, a)
      ensures i + 1 < e < |t| && SpacesEnd(t, i) == i + 1 && IsStartSymbol(t[i + 1]) && NameEnd(t, i + 1) == e
    {
      assert AttPlacedForm(i, e, v, a, 0);
      ReadName(i + 1, e, a.name);
      assert SpacesEnd(t, i + 1) == i + 1;
    }

    lemma AttEdges(a: Att, i: nat, e: nat, v: nat)
      requires AttPlaced(i, e, v, a)
      ensures i + 1 <= e && e + 1 < v && v + 1 < |t| && t[i + 1..e] == a.name
      ensures t[e] == EQUALS && t[e + 1] == Quote(f) && t[v] == Quote(f) && !IsStartSymbol(t[v + 1])
    {
      assert AttPlacedForm(i, e, v, a, 0);
    }

    lemma {:induction false} AttScanned(a: Att, value: seq<byte>, i: nat, e: nat, v: nat)
      requires Ok() && AttPlaced(i, e, v, a) && i + 1 < e && e + 2 < |t|
      requires IsStartSymbol(t[i + 1]) && NameEnd(t, i + 1) == e
      requires AttrValue(o.spacing, o.escapes, Quote(f), t, e + 2) == Piece(v, value)
      ensures ScanAtt(t, i + 1, o) == GotAtt(Att(a.name, value), v + 1)
    {
      AttEdges(a, i, e, v);
      ScanAttIs(t, i + 1, o, e, e + 1, v, value);
    }

    lemma AttValued(a: Att, i: nat, e: nat, v: nat)
      requires Ok() && NUL !in a.value && AttPlaced(i, e, v, a)
      ensures e + 2 < |t| && AttrValue(o.spacing, o.escapes, Quote(f), t, e + 2) == Piece(v, SeenAtt(a).value)
    {
      assert AttPlacedForm(i, e, v, a, 0);
      ValueRead(t, e + 2, v, a.value, o, f);
    }

    lemma {:induction false} AttRead(a: Att, i: nat, e: nat, v: nat)
      requires Ok() && NUL !in a.value && AttPlaced(i, e, v, a) && i + 1 < e < |t|
      requires IsStartSymbol(t[i + 1]) && NameEnd(t, i + 1) == e
      ensures ScanAtt(t, i + 1, o) == GotAtt(SeenAtt(a), v + 1)
    {
      AttValued(a, i, e, v);
      AttScanned(a, SeenAtt(a).value, i, e, v);
    }

    // ----- what stands where ----------------------------------------------------------------------------

    /** The bytes `e` stand between `i` and `j`; kept folded like `Goes`. */
    ghost predicate Stands(i: nat, j: nat, e: seq<byte>) {
      forall n: nat {:trigger StandsForm(i, j, e, n)} :: n < 1 ==> StandsForm(i, j, e, n)
    }

    ghost predicate StandsForm(i: nat, j: nat, e: seq<byte>, n: nat) {
      i + |e| == j < |t| && t[i..j] == e
    }

    lemma StandsSplit(i: nat, j: nat, a: seq<byte>, b: seq<byte>) returns (k: nat)
      requires Stands(i, j, a + b)
      ensures k == i + |a| && Stands(i, k, a) && Stands(k, j, b)
    {
      assert StandsForm(i, j, a + b, 0);
      k := i + |a|;
      assert t[i..k] == t[i..j][..|a|] && t[k..j] == t[i..j][|a|..];
      assert StandsForm(i, k, a, 0) && StandsForm(k, j, b, 0);
    }

    lemma StandsIs(i: nat, j: nat, e: seq<byte>)
      requires Stands(i, j, e)
      ensures i + |e| == j < |t| && t[i..j] == e && forall k :: 0 <= k < |e| ==> t[i + k] == e[k]
    {
      assert StandsForm(i, j, e, 0);
      forall k | 0 <= k < |e| ensures t[i + k] == e[k] { assert t[i..j][k] == e[k]; }
    }

    lemma StandsWritten(i: nat, j: nat, s: seq<byte>, p: Place)
      requires Stands(i, j, Escaped(p, f, s))
      ensures Written(t, i, j, s, p, f) && i <= j
    {
      StandsIs(i, j, Escaped(p, f, s));
      assert WrittenForm(t, i, j, s, p, f, 0);
    }

    // ----- attributes ------------------------------------------------------------------------------------

    ghost function AddAtts(st: seq<Frame>, atts: seq<Att>): seq<Frame>
      requires st != []
    {
      WithTop(st, Top(st).(atts := Top(st).atts + atts))
    }

    lemma AddAttsNext(st: seq<Frame>, atts: seq<Att>)
      requires st != [] && atts != []
      ensures AddAtts(AddAtt(st, atts[0]), atts[1..]) == AddAtts(st, atts)
    {
      assert atts == [atts[0]] + atts[1..];
      assert (Top(st).atts + [atts[0]]) + atts[1..] == Top(st).atts + atts;
    }

    /** Printed attributes stand between `i` and `j`; folded as well. */
    ghost predicate AttsAt(i: nat, j: nat, atts: seq<Att>) {
      forall n: nat {:trigger AttsForm(i, j, atts, n)} :: n < 1 ==> AttsForm(i, j, atts, n)
    }

    ghost predicate AttsForm(i: nat, j: nat, atts: seq<Att>, n: nat) {
      Stands(i, j, PrintAtts(atts, f))
    }

    lemma PrintAttsFirst(a: Att, rest: seq<Att>)
      ensures PrintAtts([a] + rest, f) ==
        ((([SPACE] + a.name) + [EQUALS, Quote(f)]) + Escaped(InAttribute, f, a.value)) +
          ([Quote(f)] + PrintAtts(rest, f))
    {
      assert ([a] + rest)[1..] == rest;
    }

    lemma AttsSplit(i: nat, j: nat, a: Att, rest: seq<Att>, atts: seq<Att>)
      requires atts == [a] + rest && AttsAt(i, j, atts)
      ensures Stands(i, j, ((([SPACE] + a.name) + [EQUALS, Quote(f)]) + Escaped(InAttribute, f, a.value)) +
                           ([Quote(f)] + PrintAtts(rest, f)))
    {
      assert AttsForm(i, j, atts, 0);
      PrintAttsFirst(a, rest);
    }

    /** Where the parts of one printed attribute are. */
    lemma AttStands(i: nat, j: nat, atts: seq<Att>) returns (e: nat, v: nat)
      requires atts != [] && AttsAt(i, j, atts) && j < |t| && (t[j] == GT || t[j] == SLASH)
      ensures AttPlaced(i, e, v, atts[0]) && v + 1 < |t| && i + 1 < |t| && AttsAt(v + 1, j, atts[1..])
    {
      AttsSplit(i, j, atts[0], atts[1..], atts);
      e, v := PartsStand(i, j, atts[0].name, Escaped(InAttribute, f, atts[0].value), PrintAtts(atts[1..], f));
      StandsWritten(e + 2, v, atts[0].value, InAttribute);
      assert AttsForm(v + 1, j, atts[1..], 0);
      BehindAtt(v + 1, j, atts[1..]);
      assert AttPlacedForm(i, e, v, atts[0], 0);
    }

    lemma PartsStand(i: nat, j: nat, name: seq<byte>, value: seq<byte>, rest: seq<byte>) returns (e: nat, v: nat)
      requires Stands(i, j, ((([SPACE] + name) + [EQUALS, Quote(f)]) + value) + ([Quote(f)] + rest))
      ensures i + 1 <= e && e + 1 < v && v < j < |t| && t[i] == SPACE && t[i + 1..e] == name && t[e] == EQUALS &&
              t[e + 1] == Quote(f)
      ensures Stands(e + 2, v, value) && t[v] == Quote(f) && Stands(v + 1, j, rest)
    {
      v := StandsSplit(i, j, (([SPACE] + name) + [EQUALS, Quote(f)]) + value, [Quote(f)] + rest);
      var k3 := StandsSplit(i, v, ([SPACE] + name) + [EQUALS, Quote(f)], value);
      e := StandsSplit(i, k3, [SPACE] + name, [EQUALS, Quote(f)]);
      var k1 := StandsSplit(i, e, [SPACE], name);
      var k5 := StandsSplit(v, j, [Quote(f)], rest);
      StandsIs(i, k1, [SPACE]);
      StandsIs(k1, e, name);
      StandsIs(e, k3, [EQUALS, Quote(f)]);
      assert t[e + 0] == EQUALS && t[e + 1] == Quote(f);
      StandsIs(v, k5, [Quote(f)]);
      StandsIs(k5, j, rest);
      StandsIs(k3, v, value);
    }

    lemma {:induction false} AttGoes(i: nat, e: nat, v: nat, a: Att, st: seq<Frame>)
      requires Ok() && |st| > 1 && IsName(a.name) && NUL !in a.value && AttPlaced(i, e, v, a)
      ensures Passes(i, st, v + 1, AddAtt(st, SeenAtt(a)))
    {
      AttNamed(i, e, v, a);
      AttRead(a, i, e, v);
      AttPasses(i, SeenAtt(a), v + 1, st);
    }

    lemma {:induction false} FirstAtt(i: nat, j: nat, atts: seq<Att>, st: seq<Frame>) returns (next: nat)
      requires Ok() && |st| > 1 && atts != [] && IsName(atts[0].name) && NUL !in atts[0].value &&
               AttsAt(i, j, atts) && j < |t| && (t[j] == GT || t[j] == SLASH)
      ensures Passes(i, st, next, AddAtt(st, SeenAtt(atts[0]))) && AttsAt(next, j, atts[1..])
    {
      var e, v := AttStands(i, j, atts);
      next := v + 1;
      AttGoes(i, e, v, atts[0], st);
    }

    lemma {:induction false} ReadAtts(i: nat, j: nat, atts: seq<Att>, st: seq<Frame>)
      requires Ok() && |st| > 1 && AttsOk(atts) && AttsAt(i, j, atts) && j < |t| && (t[j] == GT || t[j] == SLASH)
      ensures Passes(i, st, j, AddAtts(st, SeenAtts(o, f, atts)))
      decreases |atts|
    {
      if atts == [] {
        assert AttsForm(i, j, atts, 0);
        StandsIs(i, j, []);
        assert Top(st).atts + [] == Top(st).atts;
        assert AddAtts(st, []) == st;
        assert PassesForm(i, st, j, st, 0);
      } else {
        var next := FirstAtt(i, j, atts, st);
        var seen := SeenAtts(o, f, atts);
        assert seen[0] == SeenAtt(atts[0]) && seen[1..] == SeenAtts(o, f, atts[1..]);
        ReadAtts(next, j, atts[1..], AddAtt(st, seen[0]));
        AddAttsNext(st, seen);
        PassesOn(i, st, next, AddAtt(st, seen[0]), j, AddAtts(st, seen));
      }
    }

    lemma AttsBegin(i: nat, j: nat, atts: seq<Att>)
      requires AttsAt(i, j, atts)
      ensures if atts == [] then i == j else i < |t| && t[i] == SPACE
    {
      assert AttsForm(i, j, atts, 0);
      StandsIs(i, j, PrintAtts(atts, f));
      if atts != [] { assert t[i + 0] == PrintAtts(atts, f)[0]; }
    }

    lemma BehindAtt(i: nat, j: nat, atts: seq<Att>)
      requires AttsAt(i, j, atts) && j < |t| && (t[j] == GT || t[j] == SLASH)
      ensures i < |t| && t[i] in {SPACE, GT, SLASH}
    {
      assert AttsForm(i, j, atts, 0);
      StandsIs(i, j, PrintAtts(atts, f));
      if atts != [] { assert t[i + 0] == PrintAtts(atts, f)[0]; }
    }

    lemma PassesOn(i: nat, st: seq<Frame>, j: nat, st': seq<Frame>, k: nat, st'': seq<Frame>)
      requires Ok() && Passes(i, st, j, st') && Passes(j, st', k, st'')
      ensures Passes(i, st, k, st'')
    {
      assert PassesForm(i, st, j, st', 0) && PassesForm(j, st', k, st'', 0);
      assert PassesForm(i, st, k, st'', 0);
    }

    /** A start tag without attributes, and one with them. */
    lemma PlainStartGoes(i: nat, e: nat, st: seq<Frame>, next: nat, pops: bool)
      requires Ok() && st != [] && i + 1 < e && e + 1 < |t|
      requires t[i] == LT && IsStartSymbol(t[i + 1]) && NameEnd(t, i + 1) == e && StartEnds(t, e, endch, next, pops)
      ensures Goes(i, st, next, Ended(Push(st, t[i + 1..e]), pops))
    {
      ContentAtTag(t, i, st, o, endch);
      TagIsWhole(t, i + 1, e, st, o, endch, next, pops);
      assert GoesForm(i, st, next, Ended(Push(st, t[i + 1..e]), pops), 0);
    }

    lemma AttributesBegin(i: nat, e: nat, st: seq<Frame>)
      requires Ok() && st != [] && i + 1 < e && e + 1 < |t| && t[e] == SPACE
      requires t[i] == LT && IsStartSymbol(t[i + 1]) && NameEnd(t, i + 1) == e
      ensures C(i, st) == A(e, Push(st, t[i + 1..e]))
    {
      ContentAtTag(t, i, st, o, endch);
      TagBeginsAttributes(t, i + 1, e, st, o, endch);
    }

    lemma {:induction false} StartGoes(i: nat, e: nat, k: nat, st: seq<Frame>, st1: seq<Frame>, next: nat, pops: bool)
      requires Ok() && st != [] && |st1| > 1 && i + 1 < e <= k && k + 1 < |t| && t[e] == SPACE
      requires t[i] == LT && IsStartSymbol(t[i + 1]) && NameEnd(t, i + 1) == e && StartEnds(t, k, endch, next, pops)
      requires Passes(e, Push(st, t[i + 1..e]), k, st1)
      ensures Goes(i, st, next, Ended(st1, pops))
    {
      AttributesBegin(i, e, st);
      assert PassesForm(e, Push(st, t[i + 1..e]), k, st1, 0);
      AttributesEnd(t, k, st1, o, endch, next, pops);
      assert GoesForm(i, st, next, Ended(st1, pops), 0);
    }

    /** A start tag from its '<' at `i` to its end at `k`. */
    lemma ReadStart(i: nat, e: nat, k: nat, name: seq<byte>, atts: seq<Att>, st: seq<Frame>, next: nat, pops: bool)
      requires Ok() && st != [] && IsName(name) && AttsOk(atts)
      requires i + 1 <= e <= k && k + 1 < |t| && t[i] == LT && t[i + 1..e] == name && AttsAt(e, k, atts)
      requires StartEnds(t, k, endch, next, pops)
      ensures Goes(i, st, next, Ended(st + [Frame(name, SeenAtts(o, f, atts), None, [])], pops))
    {
      BehindAtt(e, k, atts);
      ReadName(i + 1, e, name);
      var st0, st1 := Push(st, name), st + [Frame(name, SeenAtts(o, f, atts), None, [])];
      AttsBegin(e, k, atts);
      if atts != [] {
        ReadAtts(e, k, atts, st0);
        assert Top(st0).atts + SeenAtts(o, f, atts) == SeenAtts(o, f, atts);
        assert AddAtts(st0, SeenAtts(o, f, atts)) == st1;
        StartGoes(i, e, k, st, st1, next, pops);
      } else {
        PlainStartGoes(i, e, st, next, pops);
      }
    }

    /** An end tag, up to where its '>' is or was. */
    lemma EndStands(i: nat, e: nat, name: seq<byte>)
      requires IsName(name) && Stands(i, e, [LT, SLASH] + name) && Ok() && e < |t| && !IsSymbol(t[e])
      ensures i + 2 < e && t[i] == LT && t[i + 1] == SLASH && t[i + 2..e] == name && NameEnd(t, i + 2) == e
    {
      var k0 := StandsSplit(i, e, [LT, SLASH], name);
      StandsIs(i, k0, [LT, SLASH]);
      assert t[i + 0] == LT && t[i + 1] == SLASH;
      StandsIs(k0, e, name);
      ReadName(k0, e, name);
    }

    lemma {:induction false} ReadEnd(i: nat, j: nat, st: seq<Frame>)
      requires Ok() && |st| > 1 && IsName(Top(st).name) && Stands(i, j, EndTag(Top(st).name)) && j < |t|
      ensures Goes(i, st, j, Pop(st))
    {
      var e := StandsSplit(i, j, [LT, SLASH] + Top(st).name, [GT]);
      StandsIs(e, j, [GT]);
      assert t[e + 0] == GT;
      EndStands(i, e, Top(st).name);
      EndGoes(i, e, st);
    }

    lemma EndGoes(i: nat, e: nat, st: seq<Frame>)
      requires Ok() && |st| > 1 && i + 2 < e < |t| && t[i] == LT && t[i + 1] == SLASH
      requires t[i + 2..e] == Top(st).name && NameEnd(t, i + 2) == e
      ensures t[e] == GT ==> Goes(i, st, e + 1, Pop(st))
      ensures t[e] == NUL && endch == GT ==> Goes(i, st, e, Pop(st))
    {
      ContentAtTag(t, i, st, o, endch);
      TagIsEnd(t, i + 1, e, st, o, endch);
      if t[e] == GT { assert GoesForm(i, st, e + 1, Pop(st), 0); }
      if t[e] == NUL && endch == GT { assert GoesForm(i, st, e, Pop(st), 0); }
    }

    /** The last end tag of a buffer, whose '>' the terminator has replaced. */
    lemma ReadEndCut(i: nat, z: nat, st: seq<Frame>)
      requires Ok() && endch == GT && |st| > 1 && IsName(Top(st).name) && Stands(i, z, [LT, SLASH] + Top(st).name)
      requires z < |t| && t[z] == NUL
      ensures Goes(i, st, z, Pop(st))
    {
      EndStands(i, z, Top(st).name);
      EndGoes(i, z, st);
    }

    // ----- trees -------------------------------------------------------------------------------------------

    /** Character data needs a tag behind it. */
    ghost predicate TagAt(j: nat) {
      j + 1 < |t| && t[j] == LT && t[j + 1] != NUL
    }

    lemma ElementBegins(i: nat, j: nat, tree: Tree)
      requires tree.Elem? && IsName(tree.name) && Stands(i, j, Print(tree, f, noEmpty))
      ensures TagAt(i) && t[i + 1] != SLASH
    {
      StandsIs(i, j, Print(tree, f, noEmpty));
      var e := Print(tree, f, noEmpty);
      assert e[0] == LT && e[1] == tree.name[0];
      assert t[i + 0] == LT && t[i + 1] == e[1];
    }

    ghost function AddKids(st: seq<Frame>, kids: seq<Tree>): seq<Frame>
      requires st != []
    {
      WithTop(st, Top(st).(kids := Top(st).kids + kids))
    }

    lemma AddKidsNext(st: seq<Frame>, kids: seq<Tree>)
      requires st != [] && kids != []
      ensures AddKids(AddKid(st, kids[0]), kids[1..]) == AddKids(st, kids)
    {
      assert (Top(st).kids + [kids[0]]) + kids[1..] == Top(st).kids + kids;
    }

    /** Reading one printed tree adds what is seen of it to the innermost element. */
    lemma {:induction false} ReadTree(i: nat, j: nat, tree: Tree, st: seq<Frame>, w: Where)
      requires Ok() && st != [] && Admissible(tree) && Stands(i, j, Print(tree, f, noEmpty))
      requires tree.Chars? ==> StopsAt(t, j) && WhereOk(w, j, st)
      ensures Goes(i, st, j, Grown(st, SeenItem(o, f, tree, w)))
      decreases tree, 2
    {
      if tree.Chars? {
        StandsWritten(i, j, tree.text, InContent);
        ReadChars(i, j, tree.text, st, w);
      } else {
        ReadElement(i, j, tree, st);
        GrownOne(st, Seen(o, f, tree));
      }
    }

    lemma {:induction false} ReadElement(i: nat, j: nat, tree: Tree, st: seq<Frame>)
      requires Ok() && st != [] && tree.Elem? && Admissible(tree) && Stands(i, j, Print(tree, f, noEmpty))
      ensures Goes(i, st, j, AddKid(st, Seen(o, f, tree)))
      decreases tree, 1
    {
      if tree.value == None && tree.kids == [] && !noEmpty {
        ReadEmpty(i, j, tree, st);
      } else {
        PrintFull(tree);
        var k := StandsSplit(i, j, Opening(tree), EndTag(tree.name));
        EndBegins(k, j, tree.name);
        ReadUpToEnd(i, k, tree, st);
        ReadEnd(k, j, Opened(st, Seen(o, f, tree)));
        Completed(st, Seen(o, f, tree));
        Then(i, st, k, Opened(st, Seen(o, f, tree)), j, AddKid(st, Seen(o, f, tree)));
      }
    }

    lemma OpenStands(i: nat, j: nat, name: seq<byte>, atts: seq<Att>, rest: seq<byte>) returns (e: nat, k: nat)
      requires Stands(i, j, (([LT] + name) + PrintAtts(atts, f)) + rest) && rest != []
      ensures i + 1 <= e <= k < j < |t| && t[i] == LT && t[i + 1..e] == name && AttsAt(e, k, atts) && Stands(k, j, rest)
    {
      k := StandsSplit(i, j, ([LT] + name) + PrintAtts(atts, f), rest);
      e := StandsSplit(i, k, [LT] + name, PrintAtts(atts, f));
      var i1 := StandsSplit(i, e, [LT], name);
      StandsIs(i, i1, [LT]);
      assert t[i + 0] == LT;
      StandsIs(i1, e, name);
      assert AttsForm(e, k, atts, 0);
      StandsIs(e, k, PrintAtts(atts, f));
      StandsIs(k, j, rest);
    }

    lemma SeenEmpty(tree: Tree)
      requires tree.Elem? && tree.value == None && tree.kids == []
      ensures Seen(o, f, tree) == Elem(tree.name, SeenAtts(o, f, tree.atts), None, [])
    {
    }

    lemma ReadEmpty(i: nat, j: nat, tree: Tree, st: seq<Frame>)
      requires Ok() && st != [] && tree.Elem? && Admissible(tree) && Stands(i, j, Print(tree, f, noEmpty))
      requires tree.value == None && tree.kids == [] && !noEmpty
      ensures Goes(i, st, j, AddKid(st, Seen(o, f, tree)))
    {
      var e, k := OpenStands(i, j, tree.name, tree.atts, [SLASH, GT]);
      StandsIs(k, j, [SLASH, GT]);
      assert t[k + 0] == SLASH && t[k + 1] == GT;
      ReadStart(i, e, k, tree.name, tree.atts, st, j, true);
      SeenEmpty(tree);
      Completed(st, Seen(o, f, tree));
    }

    lemma Completed(st: seq<Frame>, tree: Tree)
      requires st != [] && tree.Elem?
      ensures Pop(st + [Frame(tree.name, tree.atts, tree.value, tree.kids)]) == AddKid(st, tree)
    {
      var st1 := st + [Frame(tree.name, tree.atts, tree.value, tree.kids)];
      assert st1[..|st1| - 1] == st;
    }

    function ValueText(tree: Tree): seq<byte>
      requires tree.Elem?
    {
      if tree.value == None then [] else Escaped(InContent, f, tree.value.value)
    }

    /** The element with everything but its end tag read. */
    ghost function Opened(st: seq<Frame>, tree: Tree): (r: seq<Frame>)
      requires tree.Elem?
      ensures |r| == |st| + 1 && Top(r).name == tree.name
    {
      st + [Frame(tree.name, tree.atts, tree.value, tree.kids)]
    }

    /** An element that has contents, printed without its end tag. */
    function Opening(tree: Tree): seq<byte>
      requires tree.Elem?
    {
      (([LT] + tree.name) + PrintAtts(tree.atts, f)) + (([GT] + ValueText(tree)) + PrintAll(tree.kids, f, noEmpty))
    }

    /** The start tag, up to the contents. */
    lemma {:induction false} ReadOpening(i: nat, j: nat, tree: Tree, st: seq<Frame>) returns (k: nat)
      requires Ok() && st != [] && tree.Elem? && Admissible(tree) && Stands(i, j, Opening(tree))
      ensures Stands(k, j, ValueText(tree) + PrintAll(tree.kids, f, noEmpty))
      ensures Goes(i, st, k, st + [Frame(tree.name, SeenAtts(o, f, tree.atts), None, [])])
    {
      var body := PrintAll(tree.kids, f, noEmpty);
      Assoc([GT], ValueText(tree), body);
      var e, k0 := OpenStands(i, j, tree.name, tree.atts, [GT] + (ValueText(tree) + body));
      k := StandsSplit(k0, j, [GT], ValueText(tree) + body);
      StandsIs(k0, k, [GT]);
      assert t[k0 + 0] == GT;
      StandsIs(k, j, ValueText(tree) + body);
      ReadStart(i, e, k0, tree.name, tree.atts, st, k, false);
    }

    lemma {:induction false} ReadUpToEnd(i: nat, j: nat, tree: Tree, st: seq<Frame>)
      requires Ok() && st != [] && tree.Elem? && Admissible(tree) && Stands(i, j, Opening(tree))
      requires TagAt(j) && t[j + 1] == SLASH
      ensures Goes(i, st, j, Opened(st, Seen(o, f, tree)))
      decreases tree, 0
    {
      var atts := SeenAtts(o, f, tree.atts);
      var k := ReadOpening(i, j, tree, st);
      var k2 := StandsSplit(k, j, ValueText(tree), PrintAll(tree.kids, f, noEmpty));
      var st1 := st + [Frame(tree.name, atts, None, [])];
      var st2 := Grown(st1, SeenValueText(o, f, tree));
      KidsBegin(k2, j, tree.kids);
      ReadValueText(k, k2, tree, st1);
      ReadTrees(k2, j, tree.kids, st2, KidsWhere(tree));
      GrownAppend(st1, SeenValueText(o, f, tree), SeenAll(o, f, tree.kids, KidsWhere(tree)));
      GrownElement(st, tree.name, atts, SeenValueText(o, f, tree) + SeenAll(o, f, tree.kids, KidsWhere(tree)));
      Then(i, st, k, st1, k2, st2);
      Then(i, st, k2, st2, j, Opened(st, Seen(o, f, tree)));
    }

    /** The last element of a buffer, printed from `i` to the terminator at `z`, which has replaced its final '>'. */
    lemma ReadCut(i: nat, z: nat, tree: Tree, st: seq<Frame>)
      requires Ok() && endch == GT && st != [] && tree.Elem? && Admissible(tree)
      requires z < |t| && t[z] == NUL && Stands(i, z, Cut(tree))
      ensures Goes(i, st, z, AddKid(st, Seen(o, f, tree)))
    {
      Completed(st, Seen(o, f, tree));
      if tree.value == None && tree.kids == [] && !noEmpty {
        var e, k := OpenStands(i, z, tree.name, tree.atts, [SLASH]);
        StandsIs(k, z, [SLASH]);
        assert t[k + 0] == SLASH;
        ReadStart(i, e, k, tree.name, tree.atts, st, z, true);
        SeenEmpty(tree);
      } else {
        var k := StandsSplit(i, z, Opening(tree), [LT, SLASH] + tree.name);
        CutBegins(k, z, tree.name);
        ReadUpToEnd(i, k, tree, st);
        ReadEndCut(k, z, Opened(st, Seen(o, f, tree)));
        Then(i, st, k, Opened(st, Seen(o, f, tree)), z, AddKid(st, Seen(o, f, tree)));
      }
    }

    /** A printed element without its final '>'. */
    function Cut(tree: Tree): seq<byte>
      requires tree.Elem?
    {
      if tree.value == None && tree.kids == [] && !noEmpty
      then (([LT] + tree.name) + PrintAtts(tree.atts, f)) + [SLASH]
      else Opening(tree) + ([LT, SLASH] + tree.name)
    }

    lemma CutIsCut(tree: Tree)
      requires tree.Elem?
      ensures Print(tree, f, noEmpty) == Cut(tree) + [GT]
    {
      if tree.value == None && tree.kids == [] && !noEmpty {
        assert [SLASH, GT] == [SLASH] + [GT];
      } else {
        PrintFull(tree);
      }
    }

    lemma CutBegins(i: nat, z: nat, name: seq<byte>)
      requires Stands(i, z, [LT, SLASH] + name)
      ensures TagAt(i) && t[i + 1] == SLASH
    {
      StandsIs(i, z, [LT, SLASH] + name);
      assert t[i + 0] == LT && t[i + 1] == SLASH;
    }

    lemma CutStarts(i: nat, z: nat, tree: Tree)
      requires tree.Elem? && IsName(tree.name) && Stands(i, z, Cut(tree))
      ensures TagAt(i) && t[i + 1] != SLASH
    {
      StandsIs(i, z, Cut(tree));
      assert Cut(tree)[0] == LT && Cut(tree)[1] == tree.name[0];
      assert t[i + 0] == LT && t[i + 1] == Cut(tree)[1];
    }

    lemma {:induction false} PrintFull(tree: Tree)
      requires tree.Elem? && (tree.value == None && tree.kids == [] ==> noEmpty)
      ensures Print(tree, f, noEmpty) == Opening(tree) + EndTag(tree.name)
    {
    }

    lemma EndBegins(i: nat, j: nat, name: seq<byte>)
      requires Stands(i, j, EndTag(name))
      ensures TagAt(i) && t[i + 1] == SLASH && j < |t|
    {
      StandsIs(i, j, EndTag(name));
      assert t[i + 0] == LT && t[i + 1] == EndTag(name)[1] == SLASH;
    }

    /** Where printed trees begin: at their end if there are none, or with a start tag. */
    lemma KidsBegin(i: nat, j: nat, kids: seq<Tree>)
      requires AllAdmissible(kids) && Stands(i, j, PrintAll(kids, f, noEmpty))
      ensures kids == [] ==> i == j
      ensures kids != [] && kids[0].Elem? ==> TagAt(i) && t[i + 1] != SLASH
    {
      if kids == [] {
        StandsIs(i, j, []);
      } else if kids[0].Elem? {
        var k := StandsSplit(i, j, Print(kids[0], f, noEmpty), PrintAll(kids[1..], f, noEmpty));
        ElementBegins(i, k, kids[0]);
      }
    }

    /** A leading text that is printed as the value of its element. */
    lemma {:induction false} ReadValueText(i: nat, j: nat, tree: Tree, st: seq<Frame>)
      requires Ok() && |st| > 1 && Top(st).kids == [] && tree.Elem? && Admissible(tree) && Stands(i, j, ValueText(tree))
      requires tree.value.Some? ==> TagAt(j) && (tree.kids == [] <==> t[j + 1] == SLASH)
      ensures Goes(i, st, j, Grown(st, SeenValueText(o, f, tree)))
    {
      if tree.value == None {
        StandsIs(i, j, []);
        Stay(i, st);
      } else {
        StandsWritten(i, j, tree.value.value, InContent);
        ReadChars(i, j, tree.value.value, st, if tree.kids == [] then Alone else Among);
      }
    }

    /** What is asked of the place of trees by which texts among them are told: the last of several is never alone,
        since an element stands in front of it. */
    ghost predicate PlaceOk(trees: seq<Tree>, w: Where, j: nat, st: seq<Frame>)
      requires st != []
    {
      trees != [] ==>
        && (w.Outside? <==> |st| == 1 && !o.fragment)
        && (|trees| > 1 ==> w != Alone)
        && (trees[0].Chars? && |trees| == 1 ==> WhereOk(w, j, st))
    }

    lemma {:induction false} ReadTrees(i: nat, j: nat, trees: seq<Tree>, st: seq<Frame>, w: Where)
      requires Ok() && st != [] && AllAdmissible(trees) && Stands(i, j, PrintAll(trees, f, noEmpty))
      requires trees != [] && trees[|trees| - 1].Chars? ==> StopsAt(t, j)
      requires PlaceOk(trees, w, j, st)
      ensures Goes(i, st, j, Grown(st, SeenAll(o, f, trees, w)))
      decreases trees
    {
      if trees == [] {
        StandsIs(i, j, []);
        Stay(i, st);
      } else {
        var first, rest := trees[0], trees[1..];
        var k := StandsSplit(i, j, Print(first, f, noEmpty), PrintAll(rest, f, noEmpty));
        KidsBegin(k, j, rest);
        ReadTree(i, k, first, st, w);
        var st1 := Grown(st, SeenItem(o, f, first, w));
        if first.Elem? { GrownOne(st, Seen(o, f, first)); }
        ReadTrees(k, j, rest, st1, w);
        GrownAppend(st, SeenItem(o, f, first, w), SeenAll(o, f, rest, w));
        Then(i, st, k, st1, j, Grown(st, SeenAll(o, f, trees, w)));
      }
    }
  }

  // ----- documents --------------------------------------------------------------------------------------

  /** What is parsed: the printed text, and behind it a terminator or not. */
  function Buffer(text: seq<byte>, terminated: bool): seq<byte> {
    text + if terminated then [NUL] else []
  }

  /** Without a terminator the last byte is overwritten, and the parser makes up for the end of a tag only. */
  predicate EndsWell(trees: seq<Tree>, terminated: bool) {
    terminated || (trees != [] && trees[|trees| - 1].Elem?)
  }

  predicate HasElem(trees: seq<Tree>) {
    exists i :: 0 <= i < |trees| && trees[i].Elem?
  }

  /** The top of a document takes no text, that of a fragment does. */
  function TopWhere(o: Options): Where {
    if o.fragment then Among else Outside
  }

  function SeenTop(o: Options, f: Format, trees: seq<Tree>): seq<Tree> {
    SeenAll(o, f, trees, TopWhere(o))
  }

  const MARK: seq<byte> := [0xEF, 0xBB, 0xBF]

  lemma {:induction false} PrintAllSplit(a: seq<Tree>, last: Tree, f: Format, noEmpty: bool)
    ensures PrintAll(a + [last], f, noEmpty) == PrintAll(a, f, noEmpty) + Print(last, f, noEmpty)
  {
    if a == [] {
      assert a + [last] == [last] && [last][1..] == [];
    } else {
      assert (a + [last])[1..] == a[1..] + [last];
      PrintAllSplit(a[1..], last, f, noEmpty);
    }
  }

  lemma {:induction false} SeenAllSplit(o: Options, f: Format, a: seq<Tree>, last: Tree, w: Where)
    ensures SeenAll(o, f, a + [last], w) == SeenAll(o, f, a, w) + SeenItem(o, f, last, w)
  {
    if a == [] {
      assert a + [last] == [last] && [last][1..] == [];
    } else {
      assert (a + [last])[1..] == a[1..] + [last];
      SeenAllSplit(o, f, a[1..], last, w);
    }
  }

  lemma {:induction false} FrontOk(a: seq<Tree>, last: Tree)
    requires AllAdmissible(a + [last])
    ensures AllAdmissible(a) && Admissible(last)
  {
    if a == [] {
      assert a + [last] == [last];
    } else {
      assert (a + [last])[1..] == a[1..] + [last];
      FrontOk(a[1..], last);
    }
  }

  lemma {:induction false} SeenHasElem(o: Options, f: Format, trees: seq<Tree>, w: Where)
    ensures w.Outside? || HasElem(trees) ==> (HasElement(SeenAll(o, f, trees, w)) <==> HasElem(trees))
  {
    if trees != [] {
      var item: seq<Tree>, rest: seq<Tree> := SeenItem(o, f, trees[0], w), SeenAll(o, f, trees[1..], w);
      SeenHasElem(o, f, trees[1..], w);
      if trees[0].Elem? {
        assert (item + rest)[0] == Seen(o, f, trees[0]);
      } else {
        if HasElem(trees) {
          var i :| 0 <= i < |trees| && trees[i].Elem?;
          assert trees[1..][i - 1].Elem?;
          var j :| 0 <= j < |rest| && rest[j].Elem?;
          assert (item + rest)[|item| + j].Elem?;
        }
        if w.Outside? {
          assert item + rest == rest;
          if HasElem(trees[1..]) {
            var i :| 0 <= i < |trees[1..]| && trees[1..][i].Elem?;
            assert trees[i + 1].Elem?;
          }
        }
      }
    }
  }

  /** The whole buffer has been read. */
  lemma {:induction false} AllRead(r: Reader, trees: seq<Tree>, b: seq<byte>, st: seq<Frame>)
    requires r.Ok() && b != [] && r.t == b[..|b| - 1] + [NUL] && r.endch == b[|b| - 1] && r.endch != LT
    requires st == [Frame([], [], None, [])] && !(MARK <= b)
    requires r.Goes(0, st, |b| - 1, r.Grown(st, SeenTop(r.o, r.f, trees)))
    ensures Parse(b, r.o) == PrintedResult(r.o, r.f, trees, b)
  {
    var kids := SeenTop(r.o, r.f, trees);
    var st' := r.Grown(st, kids);
    r.GrownKids(st, kids);
    assert [] + kids == kids;
    assert r.GoesForm(0, st, |b| - 1, st', 0);
    SeenHasElem(r.o, r.f, trees, TopWhere(r.o));
    Unmarked(r.t, b);
  }

  lemma Unmarked(t: seq<byte>, b: seq<byte>)
    requires b != [] && t == b[..|b| - 1] + [NUL] && !(MARK <= b)
    ensures !(At(t, 0) == 0xEF && At(t, 1) == 0xBB && At(t, 2) == 0xBF)
  {
  }

  lemma {:induction false} ReadTerminated(r: Reader, text: seq<byte>, trees: seq<Tree>, st: seq<Frame>)
    requires r.Ok() && text == PrintAll(trees, r.f, r.noEmpty) && r.t == text + [NUL] && |st| == 1
    requires AllAdmissible(trees)
    ensures r.Goes(0, st, |text|, r.Grown(st, SeenTop(r.o, r.f, trees)))
  {
    assert r.t[0..|text|] == text;
    assert r.StandsForm(0, |text|, text, 0);
    r.ReadTrees(0, |text|, trees, st, TopWhere(r.o));
  }

  /** Where the last element begins. */
  lemma {:induction false} CutStands(r: Reader, text: seq<byte>, front: seq<Tree>, last: Tree) returns (k: nat)
    requires last.Elem? && text == PrintAll(front + [last], r.f, r.noEmpty)
    requires text != [] && r.t == text[..|text| - 1] + [NUL]
    ensures r.Stands(0, k, PrintAll(front, r.f, r.noEmpty)) && r.Stands(k, |text| - 1, r.Cut(last))
  {
    var z := |text| - 1;
    PrintAllSplit(front, last, r.f, r.noEmpty);
    r.CutIsCut(last);
    var before, cut := PrintAll(front, r.f, r.noEmpty), r.Cut(last);
    Assoc(before, cut, [GT]);
    assert text[..z] == before + cut && r.t[0..z] == before + cut;
    assert r.StandsForm(0, z, before + cut, 0);
    k := r.StandsSplit(0, z, before, cut);
  }

  /** The same when the terminator has replaced the final '>'. */
  lemma {:induction false} ReadUnterminated(r: Reader, text: seq<byte>, front: seq<Tree>, last: Tree, st: seq<Frame>)
    requires r.Ok() && r.endch == GT && text == PrintAll(front + [last], r.f, r.noEmpty) && text != [] && |st| == 1
    requires r.t == text[..|text| - 1] + [NUL]
    requires AllAdmissible(front + [last]) && last.Elem?
    ensures r.Goes(0, st, |text| - 1, r.Grown(st, SeenTop(r.o, r.f, front + [last])))
  {
    var k := CutStands(r, text, front, last);
    FrontOk(front, last);
    r.CutStarts(k, |text| - 1, last);
    ReadFrontAndLast(r, k, |text| - 1, front, last, st);
  }

  lemma {:induction false} ReadFrontAndLast(r: Reader, k: nat, z: nat, front: seq<Tree>, last: Tree, st: seq<Frame>)
    requires r.Ok() && r.endch == GT && |st| == 1 && z < |r.t| && r.t[z] == NUL
    requires r.Stands(0, k, PrintAll(front, r.f, r.noEmpty)) && last.Elem? && r.Stands(k, z, r.Cut(last))
    requires AllAdmissible(front) && Admissible(last) && r.TagAt(k) && r.t[k + 1] != SLASH
    ensures r.Goes(0, st, z, r.Grown(st, SeenTop(r.o, r.f, front + [last])))
  {
    var seen := SeenTop(r.o, r.f, front);
    var st' := r.Grown(st, seen);
    r.ReadTrees(0, k, front, st, TopWhere(r.o));
    r.ReadCut(k, z, last, st');
    r.GrownAppend(st, seen, [Seen(r.o, r.f, last)]);
    r.GrownOne(st', Seen(r.o, r.f, last));
    SeenAllSplit(r.o, r.f, front, last, TopWhere(r.o));
    r.Then(0, st, k, st', z, AddKid(st', Seen(r.o, r.f, last)));
  }

  lemma LastByte(front: seq<Tree>, last: Tree, f: Format, noEmpty: bool)
    requires last.Elem?
    ensures var text := PrintAll(front + [last], f, noEmpty); text != [] && text[|text| - 1] == GT
  {
    PrintAllSplit(front, last, f, noEmpty);
    Reader([], Options(Simple, true, true, false, true, false, false, false), NUL, f, noEmpty).CutIsCut(last);
  }

  /** What is loaded from the printed trees; a document, not a fragment, must have an element. */
  ghost function PrintedResult(o: Options, f: Format, trees: seq<Tree>, b: seq<byte>): Result
    requires b != []
  {
    if o.fragment || HasElem(trees) then Result.Document(SeenTop(o, f, trees)) else NoDocumentElement(|b| - 1)
  }

  lemma {:induction false} SeenTerminated(trees: seq<Tree>, o: Options, f: Format, noEmpty: bool)
    requires AllAdmissible(trees) && !f.skipControl && !(MARK <= PrintAll(trees, f, noEmpty) + [NUL])
    ensures var b := PrintAll(trees, f, noEmpty) + [NUL]; Parse(b, o) == PrintedResult(o, f, trees, b)
  {
    var text := PrintAll(trees, f, noEmpty);
    var b, st := text + [NUL], [Frame([], [], None, [])];
    var r := Reader(b, o, NUL, f, noEmpty);
    assert b[..|b| - 1] == text;
    ReadTerminated(r, text, trees, st);
    AllRead(r, trees, b, st);
  }

  lemma {:induction false} SeenUnterminated(front: seq<Tree>, last: Tree, o: Options, f: Format, noEmpty: bool)
    requires AllAdmissible(front + [last]) && last.Elem? && !f.skipControl
    requires !(MARK <= PrintAll(front + [last], f, noEmpty))
    ensures var b := PrintAll(front + [last], f, noEmpty);
      b != [] && Parse(b, o) == PrintedResult(o, f, front + [last], b)
  {
    var b, st := PrintAll(front + [last], f, noEmpty), [Frame([], [], None, [])];
    LastByte(front, last, f, noEmpty);
    var r := Reader(b[..|b| - 1] + [NUL], o, GT, f, noEmpty);
    ReadUnterminated(r, b, front, last, st);
    AllRead(r, front + [last], b, st);
  }

  /** What the parser makes of printed trees, under all options: exactly what is seen of them. */
  lemma {:induction false} PrintedIsSeen(trees: seq<Tree>, o: Options, single: bool, noEmpty: bool, terminated: bool)
    requires AllAdmissible(trees) && EndsWell(trees, terminated)
    requires !(MARK <= Buffer(PrintAll(trees, Format(single, false), noEmpty), terminated))
    ensures var f := Format(single, false);
      var b := Buffer(PrintAll(trees, f, noEmpty), terminated);
      b != [] && Parse(b, o) == PrintedResult(o, f, trees, b)
  {
    var f := Format(single, false);
    if terminated {
      SeenTerminated(trees, o, f, noEmpty);
    } else {
      var front, last := trees[..|trees| - 1], trees[|trees| - 1];
      assert trees == front + [last];
      assert PrintAll(trees, f, noEmpty) + [] == PrintAll(trees, f, noEmpty);
      SeenUnterminated(front, last, o, f, noEmpty);
    }
  }

  // ----- the byte order mark -----------------------------------------------------------------------------------

  /** A text at the beginning that would be taken for a byte order mark. */
  predicate Marked(trees: seq<Tree>) {
    trees != [] && trees[0].Chars? && MARK <= trees[0].text
  }

  lemma {:induction false} MarkWritten(f: Format, s: seq<byte>, rest: seq<byte>, m: seq<byte>)
    requires m <= Escaped(InContent, f, s) + rest && (forall k :: 0 <= k < |m| ==> m[k] >= 128)
    requires !f.skipControl && (rest != [] ==> rest[0] < 128)
    ensures m <= s
    decreases |s|
  {
    var e := Escaped(InContent, f, s) + rest;
    if s == [] {
      assert e == rest;
    } else if m != [] {
      var b := EscapedByte(InContent, f, s[0]);
      assert e == b + (Escaped(InContent, f, s[1..]) + rest);
      assert m[0] == e[0] == b[0];
      assert b == [s[0]];
      assert e[1..] == Escaped(InContent, f, s[1..]) + rest;
      assert m[1..] <= e[1..];
      MarkWritten(f, s[1..], rest, m[1..]);
    }
  }

  lemma {:induction false} NotMarked(trees: seq<Tree>, f: Format, noEmpty: bool, terminated: bool)
    requires AllAdmissible(trees) && !Marked(trees) && !f.skipControl
    ensures !(MARK <= Buffer(PrintAll(trees, f, noEmpty), terminated))
  {
    var b := Buffer(PrintAll(trees, f, noEmpty), terminated);
    if trees != [] {
      var z := if terminated then [NUL] else [];
      Assoc(Print(trees[0], f, noEmpty), PrintAll(trees[1..], f, noEmpty), z);
      if trees[0].Elem? {
        assert Print(trees[0], f, noEmpty)[0] == LT && b[0] == LT;
      } else {
        RestBegins(trees[1..], f, noEmpty, z);
        if MARK <= b { MarkWritten(f, trees[0].text, PrintAll(trees[1..], f, noEmpty) + z, MARK); }
      }
    }
  }

  lemma {:induction false} RestBegins(trees: seq<Tree>, f: Format, noEmpty: bool, z: seq<byte>)
    requires z <= [NUL] && (trees != [] ==> trees[0].Elem?)
    ensures var rest := PrintAll(trees, f, noEmpty) + z; rest == [] || rest[0] < 128
  {
    if trees != [] { assert Print(trees[0], f, noEmpty)[0] == LT; }
  }

  // ----- documents that are read back as they are ---------------------------------------------------------------

  /** Options under which everything printed is read back. */
  predicate Faithful(o: Options) {
    o.escapes && !o.spacing.Wnorm? && o.wsPcdata && !o.wsSingle && !o.trim
  }

  lemma {:induction false} SeenSame(o: Options, f: Format, tree: Tree)
    requires Faithful(o) && TreeOk(tree, o.eol, o.embed) && tree.Elem?
    ensures Seen(o, f, tree) == tree && Admissible(tree)
    decreases tree, 0
  {
    SeenAllSame(o, f, tree.kids, KidsWhere(tree));
    SeenAttsSame(o, f, tree.atts);
    if tree.value.Some? {
      EolNormalIff(tree.value.value);
      var all := [Chars(tree.value.value)] + tree.kids;
      assert all[1..] == tree.kids;
    } else {
      assert [] + tree.kids == tree.kids;
    }
  }

  lemma {:induction false} SeenAttsSame(o: Options, f: Format, atts: seq<Att>)
    requires Faithful(o)
    ensures SeenAtts(o, f, atts) == atts
  {
    if atts != [] { SeenAttsSame(o, f, atts[1..]); }
  }

  lemma {:induction false} SeenAllSame(o: Options, f: Format, trees: seq<Tree>, w: Where)
    requires Faithful(o) && TreesOk(trees, o.eol, o.embed)
    requires w.Outside? ==> forall i :: 0 <= i < |trees| ==> trees[i].Elem?
    ensures SeenAll(o, f, trees, w) == trees && AllAdmissible(trees)
    decreases trees, 1
  {
    if trees != [] {
      if trees[0].Elem? { SeenSame(o, f, trees[0]); } else { EolNormalIff(trees[0].text); }
      SeenAllSame(o, f, trees[1..], w);
    }
  }

  /** Nodes that stand at the top of a fragment, or of a document, and are told from a byte order mark. */
  predicate TopOk(trees: seq<Tree>, o: Options, terminated: bool) {
    && TreesOk(trees, o.eol, o.embed) && EndsWell(trees, terminated) && !Marked(trees)
    && (!o.fragment ==> trees != [] && forall i :: 0 <= i < |trees| ==> trees[i].Elem?)
  }

  /** Printing the nodes of a fragment, or the elements at the top of a document, and parsing the text gives them back,
      whether or not a terminator follows the text: without one, the final '>' is overwritten, and the parser knows. */
  lemma {:induction false} PrintThenParse(trees: seq<Tree>, o: Options, single: bool, noEmpty: bool, terminated: bool)
    requires Faithful(o) && TopOk(trees, o, terminated)
    ensures Parse(Buffer(PrintAll(trees, Format(single, false), noEmpty), terminated), o) == Result.Document(trees)
  {
    var f := Format(single, false);
    SeenAllSame(o, f, trees, TopWhere(o));
    NotMarked(trees, f, noEmpty, terminated);
    PrintedIsSeen(trees, o, single, noEmpty, terminated);
    if !o.fragment { assert trees[0].Elem?; }
  }
}
