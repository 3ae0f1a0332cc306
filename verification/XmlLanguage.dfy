// The parser accepts exactly the texts that are made of well-formed parts and whose tags are balanced.
module XmlLanguage {
  import opened Basics
  import opened XmlBytes
  import opened XmlText
  import opened XmlEscape
  import opened XmlTrees
  import opened XmlParse
  import opened XmlSeen
  import opened XmlValues
  import opened XmlGrammar
  import opened XmlTokens
  import opened XmlReadBack

  // ----- tags that were read ---------------------------------------------------------------------------------------

  lemma {:induction false} EndSound(t: seq<byte>, s: nat, st: seq<Frame>, o: Options, endch: byte)
    returns (closed: bool, j: nat, next: nat)
    requires s < |t| && t[|t| - 1] == NUL && |st| > 1 && EndOfStart(t, s, st, o, endch).Parsed?
    ensures Closes(t, endch, j, next) && RawAt(t, s, j, if closed then [SLASH] else []) && s <= j
  {
    closed := t[s] == SLASH;
    j := if closed then s + 1 else s;
    next := if t[j] == GT then j + 1 else j;
    if closed { RawOne(t, s, j, SLASH); }
  }

  lemma {:induction false} AttsSound(t: seq<byte>, i: nat, st: seq<Frame>, o: Options, endch: byte)
    returns (atts: seq<AttToken>, a: nat, s: nat, st1: seq<Frame>)
    requires i < |t| && t[|t| - 1] == NUL && |st| > 1 && !IsStartSymbol(t[i])
    requires Attributes(t, i, st, o, endch).Parsed?
    ensures (forall n :: 0 <= n < |atts| ==> AttTokenOk(atts[n])) && RawAt(t, i, a, SpellAtts(atts))
    ensures i <= a <= s < |t| && White(t[a..s]) && RawAt(t, a, s, t[a..s])
    ensures |st1| > 1 && EndOfStart(t, s, st1, o, endch).Parsed?
    decreases |t| - i
  {
    var b := SpacesEnd(t, i);
    SpacesWhite(t, i);
    if IsStartSymbol(t[b]) {
      AttributeGoes(t, i, b, st, o, endch);
      var r := ScanAtt(t, b, o);
      var first := AttSound(t, b, o, t[i..b]);
      var rest;
      rest, a, s, st1 := AttsSound(t, r.next, AddAtt(st, r.att), o, endch);
      AttsPrepend(t, i, b, r.next, a, first, rest);
      atts := [first] + rest;
    } else {
      AttributesThenEnd(t, i, b, st, o, endch);
      atts, a, s, st1 := [], i, b, st;
    }
  }

  lemma AttributeGoes(t: seq<byte>, i: nat, b: nat, st: seq<Frame>, o: Options, endch: byte)
    requires i < |t| && t[|t| - 1] == NUL && |st| > 1 && SpacesEnd(t, i) == b && b < |t| && IsStartSymbol(t[b])
    requires Attributes(t, i, st, o, endch).Parsed?
    ensures var r := ScanAtt(t, b, o);
      r.GotAtt? && Attributes(t, i, st, o, endch) == Attributes(t, r.next, AddAtt(st, r.att), o, endch)
  {
  }

  lemma {:induction false} AttsPrepend(t: seq<byte>, i: nat, b: nat, n: nat, a: nat, first: AttToken,
                                       rest: seq<AttToken>)
    requires RawAt(t, i, b, first.space) && RawAt(t, b, n, SpellNamed(first)) && RawAt(t, n, a, SpellAtts(rest))
    requires AttTokenOk(first) && forall k :: 0 <= k < |rest| ==> AttTokenOk(rest[k])
    ensures var atts := [first] + rest;
      RawAt(t, i, a, SpellAtts(atts)) && forall k :: 0 <= k < |atts| ==> AttTokenOk(atts[k])
  {
    RawJoin(t, i, b, n, first.space, SpellNamed(first));
    RawJoin(t, i, n, a, first.space + SpellNamed(first), SpellAtts(rest));
    assert ([first] + rest)[1..] == rest;
  }

  lemma AfterNameSame(t: seq<byte>, e: nat, st: seq<Frame>, o: Options, endch: byte)
    requires e < |t| && t[|t| - 1] == NUL && |st| > 1 && !IsSpace(t[e]) && AfterName(t, e, st, o, endch).Parsed?
    ensures EndOfStart(t, e, st, o, endch).Parsed?
  {
  }

  /** A start tag that was read stands there. */
  lemma {:induction false} StartSound(t: seq<byte>, i: nat, st: seq<Frame>, o: Options, endch: byte)
    returns (k: Token, j: nat, next: nat)
    requires i + 1 < |t| && t[|t| - 1] == NUL && st != [] && t[i] == LT && IsStartSymbol(t[i + 1])
    requires Content(t, i, st, o, endch).Parsed?
    ensures k.Start? && TokenOk(k) && RawAt(t, i, j, Body(k)) && Closes(t, endch, j, next)
  {
    var e := NameEnd(t, i + 1);
    NameWhole(t, i + 1);
    TagAtName(t, i, e, st, o, endch);
    var st0, atts, a, s, st1 := Push(st, t[i + 1..e]), [], e, e, Push(st, t[i + 1..e]);
    if IsSpace(t[e]) {
      NameThenSpace(t, e, st0, o, endch);
      atts, a, s, st1 := AttsSound(t, e, st0, o, endch);
    } else {
      AfterNameSame(t, e, st0, o, endch);
    }
    var closed;
    closed, j, next := EndSound(t, s, st1, o, endch);
    k := Start(t[i + 1..e], atts, t[a..s], closed);
    StartSpelled(t, k, i, e, a, s, j);
  }

  lemma {:induction false} ScanCloseSound(t: seq<byte>, i: nat, name: seq<byte>, endch: byte)
    requires i < |t| && t[|t| - 1] == NUL && ScanClose(t, i, name, endch).Closed?
    ensures var e := NameEnd(t, i);
      var s := SpacesEnd(t, e);
      i <= e <= s < |t| && t[i..e] == name && Closes(t, endch, s, ScanClose(t, i, name, endch).next)
  {
  }

  /** An end tag that was read stands there. */
  lemma {:induction false} CloseSound(t: seq<byte>, i: nat, st: seq<Frame>, o: Options, endch: byte)
    returns (k: Token, j: nat, next: nat)
    requires i + 1 < |t| && t[|t| - 1] == NUL && st != [] && NamesOk(st) && t[i] == LT && t[i + 1] == SLASH
    requires Content(t, i, st, o, endch).Parsed?
    ensures k.End? && TokenOk(k) && RawAt(t, i, j, Body(k)) && Closes(t, endch, j, next)
    ensures |st| > 1 && k.name == Top(st).name
  {
    ContentAtTag(t, i, st, o, endch);
    assert !IsStartSymbol(SLASH);
    var name := Top(st).name;
    ScanCloseSound(t, i + 2, name, endch);
    var e := NameEnd(t, i + 2);
    SpacesWhite(t, e);
    j, next := SpacesEnd(t, e), ScanClose(t, i + 2, name, endch).next;
    k := End(name, t[e..j]);
    RawOne(t, i, i + 1, LT);
    RawOne(t, i + 1, i + 2, SLASH);
    RawJoin(t, i, i + 1, i + 2, [LT], [SLASH]);
    assert [LT] + [SLASH] == [LT, SLASH];
    RawJoin(t, i, i + 2, e, [LT, SLASH], name);
    RawJoin(t, i, e, j, [LT, SLASH] + name, t[e..j]);
  }

  // ----- texts -----------------------------------------------------------------------------------------------------

  predicate SoleAt(t: seq<byte>, j: nat, st: seq<Frame>)
    requires st != []
  {
    At(t, j) == LT && At(t, j + 1) == SLASH && Top(st).kids == []
  }

  lemma {:induction false} TextBegins(t: seq<byte>, i: nat, j: nat, raw: seq<byte>)
    requires RawAt(t, i, j, raw) && TokenOk(Raw(raw)) && TextEnds(t, j)
    ensures i < j && t[i] != LT && t[i] != NUL && SpacesEnd(t, i) <= j && (SpacesEnd(t, i) == j <==> Blank(raw))
    ensures SpacesEnd(t, i) == j || At(t, SpacesEnd(t, i)) !in {LT, NUL}
    ensures forall k :: i <= k < j ==> t[k] !in {LT, NUL}
  {
    RawFirst(t, i, j, raw, 0);
    RawBlanks(t, i, j, raw);
    forall k | i <= k < j ensures t[k] !in {LT, NUL} { assert t[i..j][k - i] in raw; }
  }

  /** What the parser makes of a text. */
  function ChunkFor(o: Options, raw: seq<byte>, j: nat, t: seq<byte>, st: seq<Frame>): Chunk
    requires st != [] && j < |t|
  {
    if Blank(raw) && DropsSpace(t, j, st, o) then Dropped(j)
    else if |st| == 1 && !o.fragment then Ignored(j)
    else TextTo(TextValue(o, raw), if t[j] == NUL then j else j + 1)
  }

  lemma {:induction false} TextScanned(t: seq<byte>, i: nat, j: nat, raw: seq<byte>, st: seq<Frame>, o: Options)
    requires t != [] && t[|t| - 1] == NUL && st != []
    requires RawAt(t, i, j, raw) && TokenOk(Raw(raw)) && TextEnds(t, j)
    ensures i < j && t[i] != LT && t[i] != NUL && ScanText(t, i, st, o) == ChunkFor(o, raw, j, t, st)
  {
    TextBegins(t, i, j, raw);
    if Blank(raw) && DropsSpace(t, j, st, o) {
      ScanDrops(t, i, st, o, j);
    } else if |st| == 1 && !o.fragment {
      ScanIgnores(t, i, st, o, j);
    } else {
      KeptScanned(t, i, j, raw, st, o);
    }
  }

  lemma {:induction false} KeptScanned(t: seq<byte>, i: nat, j: nat, raw: seq<byte>, st: seq<Frame>, o: Options)
    requires i < |t| && t[|t| - 1] == NUL && st != [] && t[i] != NUL && t[i] != LT && (|st| > 1 || o.fragment)
    requires RawAt(t, i, j, raw) && LT !in raw && NUL !in raw && TextEnds(t, j)
    requires SpacesEnd(t, i) == j ==> !DropsSpace(t, j, st, o)
    requires SpacesEnd(t, i) == j || At(t, SpacesEnd(t, i)) !in {LT, NUL}
    ensures ScanText(t, i, st, o) == TextTo(TextValue(o, raw), if t[j] == NUL then j else j + 1)
  {
    TextAnywhere(t, i, j, raw, o);
    ScanKeeps(t, i, st, o, j, TextValue(o, raw));
  }

  lemma KeepsIff(t: seq<byte>, j: nat, raw: seq<byte>, st: seq<Frame>, o: Options)
    requires st != [] && j < |t|
    ensures ChunkFor(o, raw, j, t, st).TextTo? <==> Keeps(o, raw, |st| == 1, SoleAt(t, j, st))
  {
  }

  lemma {:induction false} RawRead(t: seq<byte>, i: nat, j: nat, raw: seq<byte>, st: seq<Frame>, o: Options,
                                   endch: byte)
    requires t != [] && t[|t| - 1] == NUL && st != []
    requires RawAt(t, i, j, raw) && TokenOk(Raw(raw)) && StopsAt(t, j)
    ensures Content(t, i, st, o, endch) == Content(t, j, Fed(o, raw, st, SoleAt(t, j, st)), o, endch)
  {
    TextScanned(t, i, j, raw, st, o);
    KeepsIff(t, j, raw, st, o);
    ContentAtText(t, i, st, o, endch, j, ChunkFor(o, raw, j, t, st));
  }

  /** A '<' at the very end is passed over behind a text that is kept; else it is an error. */
  lemma {:induction false} StrayRead(t: seq<byte>, i: nat, j: nat, raw: seq<byte>, st: seq<Frame>, o: Options,
                                     endch: byte)
    requires t != [] && t[|t| - 1] == NUL && st != []
    requires RawAt(t, i, j, raw) && TokenOk(Raw(raw)) && t[j] == LT && j + 2 == |t|
    ensures if Keeps(o, raw, |st| == 1, false) then
              Content(t, i, st, o, endch) == Finish(Fed(o, raw, st, false), j + 1)
            else !Content(t, i, st, o, endch).Parsed?
  {
    TextScanned(t, i, j, raw, st, o);
    KeepsIff(t, j, raw, st, o);
    ContentAtTag(t, j, st, o, endch);
    assert t[j + 1] == NUL && !Tag(t, j + 1, st, o, endch).Parsed?;
  }

  // ----- whole texts -----------------------------------------------------------------------------------------------

  /** How a text may end: as it should; without the '>' of its last tag, which the terminator has replaced; or with a
      '<' too many behind a text. */
  datatype Ending = Whole | Implied | Stray

  /** The parts make up the bytes `x`, up to the ending. */
  predicate Spelled(x: seq<byte>, toks: seq<Token>, ending: Ending) {
    match ending
    case Whole => SpellAll(toks) == x
    case Implied => toks != [] && !toks[|toks| - 1].Raw? && SpellAll(toks) == x + [GT]
    case Stray => toks != [] && toks[|toks| - 1].Raw? && SpellAll(toks) + [LT] == x
  }

  lemma SpellsMore(toks: seq<Token>)
    requires TokensOk(toks) && toks != []
    ensures SpellAll(toks) != [] && TokensOk(toks[1..])
  {
    assert Spell(toks[0]) != [];
  }

  lemma CutLast(s: seq<byte>, r: seq<byte>, x: seq<byte>)
    requires s + r == x + [GT] && r != []
    ensures var rest := r[..|r| - 1]; x == s + rest && r == rest + [GT]
  {
    assert (x + [GT])[..|x|] == x && (s + r)[..|x|] == s + r[..|r| - 1];
    assert (x + [GT])[|x|] == (s + r)[|x|];
  }

  lemma {:induction false} SpelledNext(x: seq<byte>, toks: seq<Token>, ending: Ending) returns (rest: seq<byte>)
    requires Spelled(x, toks, ending) && |toks| > 1 && TokensOk(toks)
    ensures x == Spell(toks[0]) + rest && Spelled(rest, toks[1..], ending)
  {
    var s, r := Spell(toks[0]), SpellAll(toks[1..]);
    SpellsMore(toks);
    SpellsMore(toks[1..]);
    match ending
    case Whole => rest := r;
    case Implied =>
      CutLast(s, r, x);
      rest := r[..|r| - 1];
    case Stray =>
      rest := r + [LT];
      Assoc(s, r, [LT]);
  }

  /** The last part, up to the ending. */
  lemma {:induction false} SpelledLast(x: seq<byte>, k: Token, ending: Ending)
    requires Spelled(x, [k], ending)
    ensures match ending
      case Whole => x == Spell(k)
      case Implied => !k.Raw? && x == Body(k)
      case Stray => k.Raw? && x == k.raw + [LT]
  {
    assert SpellAll([k]) == Spell(k) + SpellAll([]) == Spell(k);
    if ending.Implied? {
      assert (x + [GT])[..|x|] == x && (Body(k) + [GT])[..|x|] == Body(k);
    }
  }

  // ----- completeness ----------------------------------------------------------------------------------------------

  lemma NamesAfter(o: Options, k: Token, st: seq<Frame>)
    requires st != [] && NamesOk(st) && k.Start? && IsName(k.name)
    ensures NamesOk(Started(o, k, st))
  {
    var st1 := st + [Frame(k.name, AttsOf(o, k.atts), None, [])];
    assert NamesOk(st1);
    if k.closed { NamesPopped(st1); }
  }

  lemma NamesPopped(st: seq<Frame>)
    requires |st| > 1 && NamesOk(st)
    ensures NamesOk(Pop(st))
  {
    var r := Pop(st);
    forall k | 0 < k < |r| ensures IsName(r[k].name) { assert r[k].name == st[k].name; }
  }

  lemma NamesFed(o: Options, raw: seq<byte>, st: seq<Frame>, sole: bool)
    requires st != [] && NamesOk(st)
    ensures NamesOk(Fed(o, raw, st, sole))
  {
    var r := Fed(o, raw, st, sole);
    forall k | 0 < k < |r| ensures IsName(r[k].name) { assert r[k].name == st[k].name; }
  }

  /** What a tag makes of the open elements, or nothing if it is the wrong end tag. */
  function TagNext(o: Options, k: Token, st: seq<Frame>): seq<Frame>
    requires st != [] && !k.Raw?
  {
    if k.Start? then Started(o, k, st) else if |st| > 1 && Top(st).name == k.name then Pop(st) else []
  }

  lemma {:induction false} TagThen(t: seq<byte>, i: nat, j: nat, next: nat, k: Token, rest: seq<Token>,
                                   st: seq<Frame>, o: Options, endch: byte)
    requires t != [] && t[|t| - 1] == NUL && st != [] && NamesOk(st) && !k.Raw? && TokenOk(k)
    requires RawAt(t, i, j, Body(k)) && Closes(t, endch, j, next)
    ensures var st1 := TagNext(o, k, st);
      if st1 != [] then
        Content(t, i, st, o, endch) == Content(t, next, st1, o, endch) && NamesOk(st1) &&
        Fold(o, [k] + rest, st) == Fold(o, rest, st1)
      else Mismatch(Content(t, i, st, o, endch)) && Fold(o, [k] + rest, st) == Unbalanced
  {
    assert ([k] + rest)[1..] == rest;
    if k.Start? {
      StartRead(t, i, j, next, k, st, o, endch);
      NamesAfter(o, k, st);
    } else {
      CloseRead(t, i, j, next, k, st, o, endch);
      if |st| > 1 { NamesPopped(st); }
    }
  }

  lemma {:induction false} RawThen(t: seq<byte>, i: nat, j: nat, raw: seq<byte>, rest: seq<Token>,
                                   st: seq<Frame>, o: Options, endch: byte)
    requires t != [] && t[|t| - 1] == NUL && st != [] && NamesOk(st) && TokenOk(Raw(raw))
    requires RawAt(t, i, j, raw) && StopsAt(t, j)
    requires SoleAt(t, j, st) <==> rest != [] && rest[0].End? && Top(st).kids == []
    ensures var st1 := Fed(o, raw, st, SoleAt(t, j, st));
      && Content(t, i, st, o, endch) == Content(t, j, st1, o, endch) && NamesOk(st1)
      && Fold(o, [Raw(raw)] + rest, st) == Fold(o, rest, st1)
  {
    assert ([Raw(raw)] + rest)[1..] == rest;
    RawRead(t, i, j, raw, st, o, endch);
    NamesFed(o, raw, st, SoleAt(t, j, st));
  }

  /** What is left of the text behind a part of it. */
  lemma RestAt(t: seq<byte>, i: nat, a: seq<byte>, rest: seq<byte>)
    requires i < |t| && t[i..|t| - 1] == a + rest
    ensures var j := i + |a|; j < |t| && RawAt(t, i, j, a) && t[j..|t| - 1] == rest
    ensures rest != [] ==> t[i + |a|] == rest[0]
    ensures |rest| > 1 ==> i + |a| + 1 < |t| && t[i + |a| + 1] == rest[1]
  {
    var j := i + |a|;
    assert t[i..j] == t[i..|t| - 1][..|a|] && t[j..|t| - 1] == t[i..|t| - 1][|a|..];
    if rest != [] { assert t[j] == t[i..|t| - 1][|a|]; }
    if |rest| > 1 { assert t[j + 1] == t[i..|t| - 1][|a| + 1]; }
  }

  /** How a text goes on with a tag. */
  lemma {:induction false} TagFirst(x: seq<byte>, toks: seq<Token>, ending: Ending)
    requires Spelled(x, toks, ending) && TokensOk(toks) && toks != [] && !toks[0].Raw?
    ensures |x| > 1 && x[0] == LT && x[1] != NUL && (x[1] == SLASH <==> toks[0].End?)
  {
    var b := Body(toks[0]);
    assert b[0] == LT && |b| > 1 && b[1] != NUL && (b[1] == SLASH <==> toks[0].End?);
    assert SpellAll(toks)[..|b|] == b;
    if ending.Whole? {
    } else if ending.Implied? {
      assert (x + [GT])[0] == LT && (x + [GT])[1] == b[1];
      assert |SpellAll(toks)| > |b|;
    } else {
      assert x[0] == LT && x[1] == b[1];
    }
  }

  /** A '<' too many must stand behind a text that is kept, at the top of a fragment. */
  predicate EndingOk(o: Options, endch: byte, toks: seq<Token>, ending: Ending) {
    match ending
    case Whole => true
    case Implied => endch == GT
    case Stray => toks != [] && toks[|toks| - 1].Raw? && Keeps(o, toks[|toks| - 1].raw, true, false)
  }

  /** The outcome is the one the parts ask for. */
  ghost predicate ReadAs(t: seq<byte>, i: nat, toks: seq<Token>, ending: Ending, st: seq<Frame>, o: Options,
                         endch: byte)
    requires i < |t| && t[|t| - 1] == NUL && st != []
  {
    var r, f := Content(t, i, st, o, endch), Fold(o, toks, st);
    if f.Done? then r == Parsed(f.kids) else if ending.Stray? then !r.Parsed? else Mismatch(r)
  }

  lemma ReadNone(t: seq<byte>, st: seq<Frame>, o: Options, endch: byte)
    requires t != [] && t[|t| - 1] == NUL && st != []
    ensures ReadAs(t, |t| - 1, [], Whole, st, o, endch)
  {
  }

  /** A tag, read up to its '>' at `j`, and what comes behind it. */
  lemma {:induction false} TagAndMore(t: seq<byte>, i: nat, j: nat, next: nat, k: Token, more: seq<Token>,
                                      ending: Ending, st: seq<Frame>, o: Options, endch: byte)
    requires i < |t| && t[|t| - 1] == NUL && st != [] && NamesOk(st) && TokenOk(k) && !k.Raw?
    requires RawAt(t, i, j, Body(k)) && Closes(t, endch, j, next)
    requires TagNext(o, k, st) != [] && NamesOk(TagNext(o, k, st)) ==>
             ReadAs(t, next, more, ending, TagNext(o, k, st), o, endch)
    ensures ReadAs(t, i, [k] + more, ending, st, o, endch)
  {
    TagThen(t, i, j, next, k, more, st, o, endch);
  }

  lemma {:induction false} RawAndMore(t: seq<byte>, i: nat, j: nat, raw: seq<byte>, more: seq<Token>,
                                      ending: Ending, st: seq<Frame>, o: Options, endch: byte)
    requires i < |t| && t[|t| - 1] == NUL && st != [] && NamesOk(st) && TokenOk(Raw(raw))
    requires RawAt(t, i, j, raw) && StopsAt(t, j)
    requires SoleAt(t, j, st) <==> more != [] && more[0].End? && Top(st).kids == []
    requires var st1 := Fed(o, raw, st, SoleAt(t, j, st)); NamesOk(st1) ==> ReadAs(t, j, more, ending, st1, o, endch)
    ensures ReadAs(t, i, [Raw(raw)] + more, ending, st, o, endch)
  {
    RawThen(t, i, j, raw, more, st, o, endch);
  }

  lemma {:induction false} StrayLast(t: seq<byte>, i: nat, raw: seq<byte>, st: seq<Frame>, o: Options, endch: byte)
    requires i < |t| && t[|t| - 1] == NUL && st != [] && TokenOk(Raw(raw)) && t[i..|t| - 1] == raw + [LT]
    requires Keeps(o, raw, true, false)
    ensures ReadAs(t, i, [Raw(raw)], Stray, st, o, endch)
  {
    RestAt(t, i, raw, [LT]);
    StrayRead(t, i, |t| - 2, raw, st, o, endch);
    LastFold(o, raw, st);
  }

  lemma LastFold(o: Options, raw: seq<byte>, st: seq<Frame>)
    requires st != []
    ensures var st1 := Fed(o, raw, st, false);
      Fold(o, [Raw(raw)], st) == if |st| == 1 then Done(st1[0].kids) else Unbalanced
  {
    assert [Raw(raw)][1..] == [];
  }

  lemma {:induction false} RawLast(t: seq<byte>, i: nat, raw: seq<byte>, st: seq<Frame>, o: Options, endch: byte)
    requires i < |t| && t[|t| - 1] == NUL && st != [] && NamesOk(st) && TokenOk(Raw(raw)) && t[i..|t| - 1] == raw
    ensures ReadAs(t, i, [Raw(raw)], Whole, st, o, endch)
  {
    assert raw + [] == raw && [Raw(raw)] + [] == [Raw(raw)];
    RestAt(t, i, raw, []);
    ReadNone(t, Fed(o, raw, st, false), o, endch);
    RawAndMore(t, i, |t| - 1, raw, [], Whole, st, o, endch);
  }

  lemma {:induction false} TagLast(t: seq<byte>, i: nat, k: Token, ending: Ending, st: seq<Frame>, o: Options,
                                   endch: byte)
    requires i < |t| && t[|t| - 1] == NUL && st != [] && NamesOk(st) && TokenOk(k) && !k.Raw? && !ending.Stray?
    requires t[i..|t| - 1] == Body(k) + (if ending.Whole? then [GT] else []) && (ending.Implied? ==> endch == GT)
    ensures ReadAs(t, i, [k], ending, st, o, endch)
  {
    RestAt(t, i, Body(k), if ending.Whole? then [GT] else []);
    if TagNext(o, k, st) != [] { ReadNone(t, TagNext(o, k, st), o, endch); }
    assert [k] + [] == [k];
    TagAndMore(t, i, i + |Body(k)|, |t| - 1, k, [], ending, st, o, endch);
  }

  /** The last part. */
  lemma {:induction false} ReadLast(t: seq<byte>, i: nat, k: Token, ending: Ending, st: seq<Frame>, o: Options,
                                    endch: byte)
    requires i < |t| && t[|t| - 1] == NUL && st != [] && NamesOk(st) && TokenOk(k)
    requires Spelled(t[i..|t| - 1], [k], ending) && EndingOk(o, endch, [k], ending)
    ensures ReadAs(t, i, [k], ending, st, o, endch)
  {
    SpelledLast(t[i..|t| - 1], k, ending);
    if ending.Stray? {
      StrayLast(t, i, k.raw, st, o, endch);
    } else if k.Raw? {
      RawLast(t, i, k.raw, st, o, endch);
    } else {
      assert ending.Implied? ==> Body(k) + [] == Body(k);
      TagLast(t, i, k, ending, st, o, endch);
    }
  }

  lemma MoreOk(toks: seq<Token>, ending: Ending, o: Options, endch: byte)
    requires TokensOk(toks) && |toks| > 1 && EndingOk(o, endch, toks, ending)
    ensures TokensOk(toks[1..]) && EndingOk(o, endch, toks[1..], ending) && toks == [toks[0]] + toks[1..]
  {
    assert toks[1..][|toks| - 2] == toks[|toks| - 1];
  }

  /** The text goes on with a tag. */
  lemma {:induction false} GoesOn(t: seq<byte>, j: nat, more: seq<Token>, ending: Ending)
    requires j < |t| && t[|t| - 1] == NUL && TokensOk(more) && more != [] && !more[0].Raw?
    requires Spelled(t[j..|t| - 1], more, ending)
    ensures StopsAt(t, j) && t[j] == LT && (At(t, j + 1) == SLASH <==> more[0].End?)
  {
    var rest := t[j..|t| - 1];
    TagFirst(rest, more, ending);
    assert t[j] == rest[0] && t[j + 1] == rest[1];
  }

  /** Where the first part of several ends, and the bytes behind it. */
  lemma {:induction false} FirstPart(t: seq<byte>, i: nat, x: seq<byte>, toks: seq<Token>, ending: Ending)
    returns (j: nat, rest: seq<byte>)
    requires i < |t| && t[|t| - 1] == NUL && TokensOk(toks) && |toks| > 1
    requires x == t[i..|t| - 1] && Spelled(x, toks, ending)
    ensures RawAt(t, i, j, Spell(toks[0])) && t[j..|t| - 1] == rest && Spelled(rest, toks[1..], ending)
  {
    var s := Spell(toks[0]);
    rest := SpelledNext(x, toks, ending);
    j := i + |s|;
    RestBehind(t, i, x, s, rest);
  }

  lemma RestBehind(t: seq<byte>, i: nat, x: seq<byte>, a: seq<byte>, rest: seq<byte>)
    requires i < |t| && t[i..|t| - 1] == x && x == a + rest
    ensures var j := i + |a|; j < |t| && RawAt(t, i, j, a) && t[j..|t| - 1] == rest
  {
    RestAt(t, i, a, rest);
  }

  lemma {:induction false} ReadMore(t: seq<byte>, i: nat, toks: seq<Token>, ending: Ending, st: seq<Frame>, o: Options,
                                    endch: byte)
    requires i < |t| && t[|t| - 1] == NUL && st != [] && NamesOk(st) && TokensOk(toks) && |toks| > 1
    requires Spelled(t[i..|t| - 1], toks, ending) && EndingOk(o, endch, toks, ending)
    ensures ReadAs(t, i, toks, ending, st, o, endch)
    decreases |toks|, 0
  {
    var k, more := toks[0], toks[1..];
    MoreOk(toks, ending, o, endch);
    var j, rest := FirstPart(t, i, t[i..|t| - 1], toks, ending);
    if k.Raw? {
      GoesOn(t, j, more, ending);
      var st1 := Fed(o, k.raw, st, SoleAt(t, j, st));
      if NamesOk(st1) { ReadAll(t, j, more, ending, st1, o, endch); }
      RawAndMore(t, i, j, k.raw, more, ending, st, o, endch);
    } else {
      var e := RawSplit(t, i, j, Body(k), [GT]);
      RawOne(t, e, j, GT);
      var st1 := TagNext(o, k, st);
      if st1 != [] && NamesOk(st1) { ReadAll(t, j, more, ending, st1, o, endch); }
      TagAndMore(t, i, e, j, k, more, ending, st, o, endch);
    }
  }

  /** The parser finds the parts a text is made of, and the outcome they ask for. */
  lemma {:induction false} ReadAll(t: seq<byte>, i: nat, toks: seq<Token>, ending: Ending, st: seq<Frame>, o: Options,
                                   endch: byte)
    requires i < |t| && t[|t| - 1] == NUL && st != [] && NamesOk(st) && TokensOk(toks)
    requires Spelled(t[i..|t| - 1], toks, ending) && EndingOk(o, endch, toks, ending)
    ensures ReadAs(t, i, toks, ending, st, o, endch)
    decreases |toks|, 1
  {
    if toks == [] {
      assert i == |t| - 1;
      ReadNone(t, st, o, endch);
    } else if |toks| == 1 {
      assert toks == [toks[0]];
      ReadLast(t, i, toks[0], ending, st, o, endch);
    } else {
      ReadMore(t, i, toks, ending, st, o, endch);
    }
  }

  // ----- soundness -------------------------------------------------------------------------------------------------

  lemma {:induction false} SpelledMore(x: seq<byte>, k: Token, rest: seq<byte>, toks: seq<Token>, ending: Ending)
    requires x == Spell(k) + rest && Spelled(rest, toks, ending)
    ensures Spelled(x, [k] + toks, ending)
  {
    var all, s, r := [k] + toks, Spell(k), SpellAll(toks);
    assert all[1..] == toks && SpellAll(all) == s + r;
    if toks != [] { assert all[|all| - 1] == toks[|toks| - 1]; }
    match ending
    case Whole =>
    case Implied => Assoc(s, rest, [GT]);
    case Stray => Assoc(s, r, [LT]);
  }

  lemma TokensMore(k: Token, toks: seq<Token>, ending: Ending, o: Options, endch: byte)
    requires TokenOk(k) && TokensOk(toks) && (k.Raw? && toks != [] ==> !toks[0].Raw?)
    requires EndingOk(o, endch, toks, ending)
    ensures TokensOk([k] + toks) && EndingOk(o, endch, [k] + toks, ending)
  {
    var all := [k] + toks;
    forall i | 0 <= i < |all| - 1 && all[i].Raw? ensures !all[i + 1].Raw? {
      if i > 0 { assert all[i] == toks[i - 1] && all[i + 1] == toks[i]; }
    }
  }

  lemma SpelledOne(k: Token, x: seq<byte>, ending: Ending)
    requires match ending
      case Whole => x == Spell(k)
      case Implied => !k.Raw? && x == Body(k)
      case Stray => k.Raw? && x == k.raw + [LT]
    ensures Spelled(x, [k], ending)
  {
    assert [k][1..] == [] && SpellAll([k]) == Spell(k);
  }

  /** A tag that was read. */
  lemma {:induction false} TagFound(t: seq<byte>, i: nat, st: seq<Frame>, o: Options, endch: byte)
    returns (k: Token, j: nat, next: nat)
    requires i < |t| && t[|t| - 1] == NUL && st != [] && NamesOk(st) && t[i] == LT
    requires Content(t, i, st, o, endch).Parsed?
    ensures !k.Raw? && TokenOk(k) && RawAt(t, i, j, Body(k)) && Closes(t, endch, j, next) && i < j
    ensures var st1 := TagNext(o, k, st);
      st1 != [] && NamesOk(st1) && Content(t, i, st, o, endch) == Content(t, next, st1, o, endch)
  {
    ContentAtTag(t, i, st, o, endch);
    if IsStartSymbol(t[i + 1]) {
      k, j, next := StartSound(t, i, st, o, endch);
    } else {
      assert t[i + 1] == SLASH;
      k, j, next := CloseSound(t, i, st, o, endch);
    }
    TagThen(t, i, j, next, k, [], st, o, endch);
  }

  /** A text that was passed over. */
  lemma {:induction false} TextFound(t: seq<byte>, i: nat) returns (j: nat)
    requires i < |t| && t[|t| - 1] == NUL && t[i] != LT && t[i] != NUL
    ensures i < j && TextEnds(t, j) && RawAt(t, i, j, t[i..j]) && TokenOk(Raw(t[i..j]))
    decreases |t| - i
  {
    j := i + 1;
    if t[j] != LT && t[j] != NUL { j := TextFound(t, j); }
    var raw := t[i..j];
    forall c | c in raw ensures c != LT && c != NUL {
      var k :| 0 <= k < |raw| && raw[k] == c;
      if k > 0 { assert t[i + 1..j][k - 1] == c; }
    }
  }

  ghost predicate NoNulBefore(t: seq<byte>) {
    t != [] && t[|t| - 1] == NUL && forall k :: 0 <= k < |t| - 1 ==> t[k] != NUL
  }

  /** The text is made of these parts from `i` on; folded. */
  ghost predicate Parts(t: seq<byte>, i: nat, toks: seq<Token>, ending: Ending, o: Options, endch: byte) {
    forall n: nat {:trigger PartsForm(t, i, toks, ending, o, endch, n)} :: n < 1 ==>
      PartsForm(t, i, toks, ending, o, endch, n)
  }

  ghost predicate PartsForm(t: seq<byte>, i: nat, toks: seq<Token>, ending: Ending, o: Options, endch: byte, n: nat) {
    i < |t| && TokensOk(toks) && Spelled(t[i..|t| - 1], toks, ending) && EndingOk(o, endch, toks, ending)
  }

  lemma {:induction false} PartsMore(t: seq<byte>, i: nat, j: nat, k: Token, toks: seq<Token>, ending: Ending,
                                     o: Options, endch: byte)
    requires RawAt(t, i, j, Spell(k)) && TokenOk(k) && Parts(t, j, toks, ending, o, endch)
    requires k.Raw? && toks != [] ==> !toks[0].Raw?
    ensures Parts(t, i, [k] + toks, ending, o, endch)
  {
    assert PartsForm(t, j, toks, ending, o, endch, 0);
    assert t[i..|t| - 1] == t[i..j] + t[j..|t| - 1];
    SpelledMore(t[i..|t| - 1], k, t[j..|t| - 1], toks, ending);
    TokensMore(k, toks, ending, o, endch);
    assert PartsForm(t, i, [k] + toks, ending, o, endch, 0);
  }

  lemma {:induction false} PartsOne(t: seq<byte>, i: nat, k: Token, ending: Ending, o: Options, endch: byte)
    requires i < |t| && TokenOk(k) && EndingOk(o, endch, [k], ending)
    requires match ending
      case Whole => t[i..|t| - 1] == Spell(k)
      case Implied => !k.Raw? && t[i..|t| - 1] == Body(k)
      case Stray => k.Raw? && t[i..|t| - 1] == k.raw + [LT]
    ensures Parts(t, i, [k], ending, o, endch)
  {
    SpelledOne(k, t[i..|t| - 1], ending);
    assert PartsForm(t, i, [k], ending, o, endch, 0);
  }

  /** When the parser ends without an error, the text is made of parts. */
  lemma {:induction false} PartsFound(t: seq<byte>, i: nat, st: seq<Frame>, o: Options, endch: byte)
    returns (toks: seq<Token>, ending: Ending)
    requires i < |t| && NoNulBefore(t) && st != [] && NamesOk(st) && Content(t, i, st, o, endch).Parsed?
    ensures Parts(t, i, toks, ending, o, endch)
    decreases |t| - i, 1
  {
    if t[i] == NUL {
      toks, ending := [], Whole;
      assert PartsForm(t, i, [], Whole, o, endch, 0);
    } else if t[i] == LT {
      toks, ending := PartsFromTag(t, i, st, o, endch);
    } else {
      toks, ending := PartsFromText(t, i, st, o, endch);
    }
  }

  lemma {:induction false} PartsFromTag(t: seq<byte>, i: nat, st: seq<Frame>, o: Options, endch: byte)
    returns (toks: seq<Token>, ending: Ending)
    requires i < |t| && NoNulBefore(t) && st != [] && NamesOk(st) && Content(t, i, st, o, endch).Parsed? && t[i] == LT
    ensures Parts(t, i, toks, ending, o, endch) && toks != [] && !toks[0].Raw?
    decreases |t| - i, 0
  {
    var k, j, next := TagFound(t, i, st, o, endch);
    if t[j] == NUL {
      toks, ending := [k], Implied;
      PartsOne(t, i, k, Implied, o, endch);
    } else {
      RawOne(t, j, next, GT);
      RawJoin(t, i, j, next, Body(k), [GT]);
      toks, ending := PartsFound(t, next, TagNext(o, k, st), o, endch);
      PartsMore(t, i, next, k, toks, ending, o, endch);
      toks := [k] + toks;
    }
  }

  lemma {:induction false} PartsFromText(t: seq<byte>, i: nat, st: seq<Frame>, o: Options, endch: byte)
    returns (toks: seq<Token>, ending: Ending)
    requires i < |t| && NoNulBefore(t) && st != [] && NamesOk(st) && Content(t, i, st, o, endch).Parsed?
    requires t[i] != LT && t[i] != NUL
    ensures Parts(t, i, toks, ending, o, endch)
    decreases |t| - i, 0
  {
    var j := TextFound(t, i);
    var raw := t[i..j];
    if t[j] == NUL {
      toks, ending := [Raw(raw)], Whole;
      PartsOne(t, i, Raw(raw), Whole, o, endch);
    } else if t[j + 1] == NUL {
      toks, ending := [Raw(raw)], Stray;
      StrayFound(t, i, j, raw, st, o, endch);
    } else {
      RawRead(t, i, j, raw, st, o, endch);
      NamesFed(o, raw, st, SoleAt(t, j, st));
      toks, ending := PartsFromTag(t, j, Fed(o, raw, st, SoleAt(t, j, st)), o, endch);
      PartsMore(t, i, j, Raw(raw), toks, ending, o, endch);
      toks := [Raw(raw)] + toks;
    }
  }

  lemma {:induction false} StrayKept(t: seq<byte>, i: nat, j: nat, raw: seq<byte>, st: seq<Frame>, o: Options,
                                     endch: byte)
    requires t != [] && t[|t| - 1] == NUL && st != [] && RawAt(t, i, j, raw) && TokenOk(Raw(raw)) && t[j] == LT
    requires j + 2 == |t| && Content(t, i, st, o, endch).Parsed?
    ensures Keeps(o, raw, true, false)
  {
    StrayRead(t, i, j, raw, st, o, endch);
  }

  lemma {:induction false} StrayFound(t: seq<byte>, i: nat, j: nat, raw: seq<byte>, st: seq<Frame>, o: Options,
                                      endch: byte)
    requires NoNulBefore(t) && st != [] && RawAt(t, i, j, raw) && TokenOk(Raw(raw)) && t[j] == LT
    requires j + 1 < |t| && t[j + 1] == NUL && Content(t, i, st, o, endch).Parsed?
    ensures Parts(t, i, [Raw(raw)], Stray, o, endch)
  {
    StrayKept(t, i, j, raw, st, o, endch);
    assert t[i..|t| - 1] == t[i..j] + [t[j]];
    PartsOne(t, i, Raw(raw), Stray, o, endch);
  }

  // ----- the language ----------------------------------------------------------------------------------------------

  /** The bytes `x`, behind which a byte `endch` has been overwritten, are made of parts that fold to `kids`. */
  ghost predicate Denotes(x: seq<byte>, endch: byte, o: Options, kids: seq<Tree>) {
    exists toks, ending :: Reading(x, endch, o, kids, toks, ending)
  }

  ghost predicate Reading(x: seq<byte>, endch: byte, o: Options, kids: seq<Tree>, toks: seq<Token>, ending: Ending) {
    && TokensOk(toks) && Spelled(x, toks, ending) && EndingOk(o, endch, toks, ending)
    && Fold(o, toks, [Frame([], [], None, [])]) == Done(kids)
  }

  lemma {:induction false} ContentIff(t: seq<byte>, i: nat, o: Options, endch: byte, kids: seq<Tree>)
    requires i < |t| && NoNulBefore(t)
    ensures Content(t, i, [Frame([], [], None, [])], o, endch) == Parsed(kids) <==>
            Denotes(t[i..|t| - 1], endch, o, kids)
  {
    var st, x := [Frame([], [], None, [])], t[i..|t| - 1];
    if Content(t, i, st, o, endch) == Parsed(kids) {
      var toks, ending := PartsFound(t, i, st, o, endch);
      assert PartsForm(t, i, toks, ending, o, endch, 0);
      ReadAll(t, i, toks, ending, st, o, endch);
      assert Reading(x, endch, o, kids, toks, ending);
    }
    if Denotes(x, endch, o, kids) {
      var toks, ending :| Reading(x, endch, o, kids, toks, ending);
      ReadAll(t, i, toks, ending, st, o, endch);
    }
  }

  /** The text of a buffer, without a byte order mark and without the last byte. */
  function Marks(x: seq<byte>): nat {
    if |x| >= 3 && x[0] == 0xEF && x[1] == 0xBB && x[2] == 0xBF then 3 else 0
  }

  /** A buffer without a NUL but for one at its end is parsed to `kids` exactly if its text, behind a byte order mark
      and in front of its last byte, is made of well-formed parts that fold to them; nothing else is accepted. */
  lemma {:induction false} ParseIff(b: seq<byte>, o: Options, kids: seq<Tree>)
    requires b != [] && forall k :: 0 <= k < |b| - 1 ==> b[k] != NUL
    ensures var x, last := b[..|b| - 1], b[|b| - 1];
      Parse(b, o) == Result.Document(kids) <==>
      Denotes(x[Marks(x)..], last, o, kids) && last != LT && (o.fragment || HasElement(kids))
  {
    var x, last := b[..|b| - 1], b[|b| - 1];
    var t := x + [NUL];
    assert forall k :: 0 <= k < |t| - 1 ==> t[k] == b[k];
    var skip := Marks(x);
    assert t[skip..|t| - 1] == x[skip..];
    ContentIff(t, skip, o, last, kids);
    MarkFound(x);
  }

  lemma MarkFound(x: seq<byte>)
    ensures var t := x + [NUL];
      Marks(x) == if At(t, 0) == 0xEF && At(t, 1) == 0xBB && At(t, 2) == 0xBF then 3 else 0
  {
  }

  /** Parts that are well-formed but not balanced are refused, and the reason given is a wrong end tag. */
  lemma {:induction false} UnbalancedRefused(b: seq<byte>, o: Options, toks: seq<Token>, ending: Ending)
    requires b != [] && TokensOk(toks) && !ending.Stray? && EndingOk(o, b[|b| - 1], toks, ending)
    requires var x := b[..|b| - 1]; Spelled(x[Marks(x)..], toks, ending)
    requires Fold(o, toks, [Frame([], [], None, [])]) == Unbalanced
    ensures Parse(b, o).ParseError? && Parse(b, o).status == EndElementMismatch
  {
    var x, last := b[..|b| - 1], b[|b| - 1];
    var t := x + [NUL];
    assert t[Marks(x)..|t| - 1] == x[Marks(x)..];
    ReadAll(t, Marks(x), toks, ending, [Frame([], [], None, [])], o, last);
    MarkFound(x);
  }

  /** In a fragment that ends with a terminator, a '<' at the end is swallowed behind text that is kept; without the
      terminator it is refused. */
  lemma {:induction false} StrayBracket(raw: seq<byte>, o: Options)
    requires TokenOk(Raw(raw)) && !(MARK <= raw) && o.fragment && (!Blank(raw) || KeepsBlank(o, Among))
    ensures Parse(raw + [LT, NUL], o) == Parse(raw + [NUL], o) == Result.Document([Chars(TextValue(o, raw))])
    ensures Parse(raw + [LT], o).ParseError?
  {
    var st, kids := [Frame([], [], None, [])], [Chars(TextValue(o, raw))];
    var with, without := raw + [LT, NUL], raw + [NUL];
    assert with[..|with| - 1] == raw + [LT] && without[..|without| - 1] == raw;
    assert (raw + [LT])[0..] == raw + [LT] && raw[0..] == raw;
    FoldOne(o, raw);
    SpelledOne(Raw(raw), raw, Whole);
    SpelledOne(Raw(raw), raw + [LT], Stray);
    assert Reading(raw, NUL, o, kids, [Raw(raw)], Whole);
    assert Reading(raw + [LT], NUL, o, kids, [Raw(raw)], Stray);
    NoMark(raw);
    ParseIff(with, o, kids);
    ParseIff(without, o, kids);
    var cut := raw + [LT];
    assert cut[..|cut| - 1] == raw;
    RawWhole(cut, raw, o);
  }

  lemma NoMark(raw: seq<byte>)
    requires !(MARK <= raw)
    ensures Marks(raw) == 0 && Marks(raw + [LT]) == 0
  {
  }

  lemma {:induction false} FoldOne(o: Options, raw: seq<byte>)
    requires o.fragment && (!Blank(raw) || KeepsBlank(o, Among))
    ensures Fold(o, [Raw(raw)], [Frame([], [], None, [])]) == Done([Chars(TextValue(o, raw))])
  {
    LastFold(o, raw, [Frame([], [], None, [])]);
  }

  lemma {:induction false} RawWhole(b: seq<byte>, raw: seq<byte>, o: Options)
    requires b == raw + [LT] && TokenOk(Raw(raw)) && !(MARK <= raw) && o.fragment
    ensures Parse(b, o).ParseError?
  {
    var st, t := [Frame([], [], None, [])], raw + [NUL];
    assert b[..|b| - 1] == raw && t[0..|t| - 1] == raw;
    SpelledOne(Raw(raw), raw, Whole);
    assert TokensOk([Raw(raw)]);
    ReadAll(t, 0, [Raw(raw)], Whole, st, o, LT);
    LastFold(o, raw, st);
    MarkFound(raw);
    NoMark(raw);
  }

  /** A fragment that ends with a text and has no terminator loses its last byte. */
  lemma {:induction false} LastByteLost(raw: seq<byte>, c: byte, o: Options)
    requires TokenOk(Raw(raw)) && c != LT && !(MARK <= raw) && o.fragment && (!Blank(raw) || KeepsBlank(o, Among))
    ensures Parse(raw + [c], o) == Result.Document([Chars(TextValue(o, raw))])
  {
    var kids, b := [Chars(TextValue(o, raw))], raw + [c];
    assert b[..|b| - 1] == raw && raw[0..] == raw;
    FoldOne(o, raw);
    SpelledOne(Raw(raw), raw, Whole);
    assert Reading(raw, c, o, kids, [Raw(raw)], Whole);
    NoMark(raw);
    ParseIff(b, o, kids);
  }
}
