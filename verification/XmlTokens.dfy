// Reading one part of a text, and what must have been read when the parser goes on.
module XmlTokens {
  import opened Basics
  import opened XmlBytes
  import opened XmlText
  import opened XmlEscape
  import opened XmlTrees
  import opened XmlParse
  import opened XmlSeen
  import opened XmlValues
  import opened XmlGrammar

  // ----- attributes --------------------------------------------------------------------------------------------

  /** Where the parts of an attribute are. */
  ghost predicate AttAt(t: seq<byte>, a: AttToken, i: nat, e: nat, b: nat, q: nat, v: nat) {
    && RawAt(t, i, e, a.name) && RawAt(t, e, b, a.before) && t[b] == EQUALS && b + 1 < |t|
    && RawAt(t, b + 1, q, a.after) && t[q] == a.quote && q + 1 < |t|
    && RawAt(t, q + 1, v, a.raw) && t[v] == a.quote
  }

  lemma {:induction false} AttPlaces(t: seq<byte>, i: nat, j: nat, a: AttToken)
    returns (e: nat, b: nat, q: nat, v: nat)
    requires RawAt(t, i, j, SpellNamed(a))
    ensures AttAt(t, a, i, e, b, q, v) && j == v + 1
  {
    b := RawSplit(t, i, j, a.name + a.before, [EQUALS] + (a.after + ([a.quote] + (a.raw + [a.quote]))));
    e := RawSplit(t, i, b, a.name, a.before);
    var b1 := RawSplit(t, b, j, [EQUALS], a.after + ([a.quote] + (a.raw + [a.quote])));
    RawOne(t, b, b1, EQUALS);
    q := RawSplit(t, b1, j, a.after, [a.quote] + (a.raw + [a.quote]));
    var q1 := RawSplit(t, q, j, [a.quote], a.raw + [a.quote]);
    RawOne(t, q, q1, a.quote);
    v := RawSplit(t, q1, j, a.raw, [a.quote]);
    RawOne(t, v, j, a.quote);
  }

  lemma {:induction false} AttSpelled(t: seq<byte>, a: AttToken, i: nat, e: nat, b: nat, q: nat, v: nat)
    requires AttAt(t, a, i, e, b, q, v) && v + 1 < |t|
    ensures RawAt(t, i, v + 1, SpellNamed(a))
  {
    RawOne(t, v, v + 1, a.quote);
    RawJoin(t, q + 1, v, v + 1, a.raw, [a.quote]);
    RawOne(t, q, q + 1, a.quote);
    RawJoin(t, q, q + 1, v + 1, [a.quote], a.raw + [a.quote]);
    RawJoin(t, b + 1, q, v + 1, a.after, [a.quote] + (a.raw + [a.quote]));
    RawOne(t, b, b + 1, EQUALS);
    RawJoin(t, b, b + 1, v + 1, [EQUALS], a.after + ([a.quote] + (a.raw + [a.quote])));
    RawJoin(t, i, e, b, a.name, a.before);
    RawJoin(t, i, b, v + 1, a.name + a.before, [EQUALS] + (a.after + ([a.quote] + (a.raw + [a.quote]))));
  }

  lemma WhiteThen(t: seq<byte>, i: nat, j: nat, w: seq<byte>)
    requires RawAt(t, i, j, w) && White(w) && !IsSpace(t[j])
    ensures (if i == j then t[i] == t[j] else IsSpace(t[i])) && SpacesEnd(t, i) == j
    ensures i < j ==> SpacesEnd(t, i + 1) == j
  {
    SpacesAre(t, i, j, w);
    if i < j { RawFirst(t, i, j, w, 1); }
  }

  lemma EqFromIs(t: seq<byte>, e: nat, b: nat, q: nat)
    requires e <= b < q < |t| && t[|t| - 1] == NUL && t[b] == EQUALS && SpacesEnd(t, b + 1) == q && IsQuote(t[q])
    requires if e == b then true else IsSpace(t[e]) && SpacesEnd(t, e + 1) == b
    ensures EqFrom(t, e) == QuoteAt(e, q)
  {
  }

  lemma {:induction false} EqIs(t: seq<byte>, a: AttToken, i: nat, e: nat, b: nat, q: nat, v: nat)
    requires t != [] && t[|t| - 1] == NUL && AttTokenOk(a) && AttAt(t, a, i, e, b, q, v)
    ensures i < e && IsStartSymbol(t[i]) && NameEnd(t, i) == e && ScanEq(t, i) == QuoteAt(e, q)
  {
    WhiteThen(t, e, b, a.before);
    WhiteThen(t, b + 1, q, a.after);
    NameIs(t, i, e, a.name);
    EqFromIs(t, e, b, q);
  }

  lemma {:induction false} AttRead(t: seq<byte>, i: nat, j: nat, a: AttToken, o: Options)
    requires t != [] && t[|t| - 1] == NUL && AttTokenOk(a) && RawAt(t, i, j, SpellNamed(a)) && !IsStartSymbol(t[j])
    ensures i < j && IsStartSymbol(t[i]) && ScanAtt(t, i, o) == GotAtt(Att(a.name, AttValue(o, a.quote, a.raw)), j)
  {
    var e, b, q, v := AttPlaces(t, i, j, a);
    EqIs(t, a, i, e, b, q, v);
    ValueAnywhere(t, q + 1, v, a.raw, o, a.quote);
    ScanValueIs(t, i, e, q, o, v, AttValue(o, a.quote, a.raw));
    assert t[i..e] == a.name;
  }

  /** What must have stood where an attribute was read. */
  lemma {:induction false} EqSound(t: seq<byte>, i: nat, e: nat, q: nat)
    requires i < |t| && t[|t| - 1] == NUL && IsStartSymbol(t[i]) && ScanEq(t, i) == QuoteAt(e, q)
    ensures var b := if IsSpace(t[e]) then SpacesEnd(t, e + 1) else e;
      && i < e <= b < q && q + 1 < |t| && IsName(t[i..e]) && White(t[e..b]) && t[b] == EQUALS && White(t[b + 1..q])
      && IsQuote(t[q])
  {
    NameWhole(t, i);
  }

  /** Where a value ends, or the text. */
  function ValueEnd(t: seq<byte>, i: nat, q: byte): (v: nat)
    requires i < |t| && t[|t| - 1] == NUL
    ensures i <= v < |t| && (t[v] == q || t[v] == NUL) && forall k :: i <= k < v ==> t[k] != q && t[k] != NUL
    decreases |t| - i
  {
    if t[i] == q || t[i] == NUL then i else ValueEnd(t, i + 1, q)
  }

  lemma ScanValueGot(t: seq<byte>, s: nat, e: nat, q: nat, o: Options, v: nat)
    requires s < e < q && q + 1 < |t| && t[|t| - 1] == NUL && ScanValue(t, s, e, q, o).GotAtt? && v < |t|
    requires AttrValue(o.spacing, o.escapes, t[q], t, q + 1).end == v
    ensures t[v] != NUL && v + 1 < |t| && !IsStartSymbol(t[v + 1]) && ScanValue(t, s, e, q, o).next == v + 1
  {
  }

  lemma {:induction false} ValueEndsAt(t: seq<byte>, q: nat, o: Options)
    requires q + 1 < |t| && t[|t| - 1] == NUL && IsQuote(t[q])
    ensures AttrValue(o.spacing, o.escapes, t[q], t, q + 1).end == ValueEnd(t, q + 1, t[q])
  {
    var v := ValueEnd(t, q + 1, t[q]);
    ValueAnywhere(t, q + 1, v, t[q + 1..v], o, t[q]);
  }

  lemma {:induction false} ValueSound(t: seq<byte>, s: nat, e: nat, q: nat, o: Options)
    requires s < e < q && q + 1 < |t| && t[|t| - 1] == NUL && IsQuote(t[q]) && ScanValue(t, s, e, q, o).GotAtt?
    ensures var v := ValueEnd(t, q + 1, t[q]);
      t[v] == t[q] && v + 1 < |t| && !IsStartSymbol(t[v + 1]) && ScanValue(t, s, e, q, o).next == v + 1
  {
    ValueEndsAt(t, q, o);
    ScanValueGot(t, s, e, q, o, ValueEnd(t, q + 1, t[q]));
  }

  lemma EqFound(t: seq<byte>, i: nat, o: Options)
    requires i < |t| && t[|t| - 1] == NUL && IsStartSymbol(t[i]) && ScanAtt(t, i, o).GotAtt?
    ensures var eq := ScanEq(t, i); eq.QuoteAt? && ScanAtt(t, i, o) == ScanValue(t, i, eq.end, eq.quote, o)
  {
  }

  function MadeAtt(t: seq<byte>, w: seq<byte>, i: nat, e: nat, b: nat, q: nat, v: nat): AttToken
    requires i <= e <= b < q && q + 1 <= v < |t|
  {
    AttToken(w, t[i..e], t[e..b], t[b + 1..q], t[q], t[q + 1..v])
  }

  lemma {:induction false} MadeStands(t: seq<byte>, w: seq<byte>, i: nat, e: nat, b: nat, q: nat, v: nat)
    requires i <= e <= b < q && q + 1 <= v && v + 1 < |t| && t[b] == EQUALS && t[v] == t[q]
    ensures RawAt(t, i, v + 1, SpellNamed(MadeAtt(t, w, i, e, b, q, v)))
  {
    AttSpelled(t, MadeAtt(t, w, i, e, b, q, v), i, e, b, q, v);
  }

  lemma {:induction false} MadeOk(t: seq<byte>, w: seq<byte>, i: nat, e: nat, b: nat, q: nat, v: nat)
    requires i < e <= b < q && q + 1 <= v < |t| && w != [] && White(w) && IsName(t[i..e]) && White(t[e..b])
    requires White(t[b + 1..q]) && IsQuote(t[q]) && forall k :: q + 1 <= k < v ==> t[k] != t[q] && t[k] != NUL
    ensures AttTokenOk(MadeAtt(t, w, i, e, b, q, v))
  {
  }

  /** What is read behind the equals sign decides. */
  ghost predicate Found(t: seq<byte>, i: nat, next: nat, e: nat, b: nat, q: nat, v: nat) {
    && i < e <= b < q && q + 1 <= v && v + 1 == next < |t|
    && IsName(t[i..e]) && White(t[e..b]) && t[b] == EQUALS && White(t[b + 1..q]) && IsQuote(t[q]) && t[v] == t[q]
    && (forall k :: q + 1 <= k < v ==> t[k] != t[q] && t[k] != NUL) && !IsStartSymbol(t[next])
  }

  lemma {:induction false} AttFound(t: seq<byte>, i: nat, o: Options) returns (e: nat, b: nat, q: nat, v: nat)
    requires i < |t| && t[|t| - 1] == NUL && IsStartSymbol(t[i]) && ScanAtt(t, i, o).GotAtt?
    ensures Found(t, i, ScanAtt(t, i, o).next, e, b, q, v)
  {
    EqFound(t, i, o);
    var eq := ScanEq(t, i);
    e, q := eq.end, eq.quote;
    EqSound(t, i, e, q);
    ValueSound(t, i, e, q, o);
    b := if IsSpace(t[e]) then SpacesEnd(t, e + 1) else e;
    v := ValueEnd(t, q + 1, t[q]);
  }

  /** An attribute that was read stands there, with any white space `w` in front. */
  lemma {:induction false} AttSound(t: seq<byte>, i: nat, o: Options, w: seq<byte>) returns (a: AttToken)
    requires i < |t| && t[|t| - 1] == NUL && IsStartSymbol(t[i]) && ScanAtt(t, i, o).GotAtt?
    requires w != [] && White(w)
    ensures var next := ScanAtt(t, i, o).next;
      a.space == w && AttTokenOk(a) && RawAt(t, i, next, SpellNamed(a)) && !IsStartSymbol(t[next])
  {
    var e, b, q, v := AttFound(t, i, o);
    a := MadeFrom(t, w, i, e, b, q, v);
  }

  lemma {:induction false} MadeFrom(t: seq<byte>, w: seq<byte>, i: nat, e: nat, b: nat, q: nat, v: nat)
    returns (a: AttToken)
    requires i < e <= b < q && q + 1 <= v && v + 1 < |t| && t[b] == EQUALS && t[v] == t[q] && w != [] && White(w)
    requires IsName(t[i..e]) && White(t[e..b]) && White(t[b + 1..q]) && IsQuote(t[q])
    requires forall k :: q + 1 <= k < v ==> t[k] != t[q] && t[k] != NUL
    ensures a.space == w && AttTokenOk(a) && RawAt(t, i, v + 1, SpellNamed(a))
  {
    a := MadeAtt(t, w, i, e, b, q, v);
    MadeOk(t, w, i, e, b, q, v);
    MadeStands(t, w, i, e, b, q, v);
  }

  // ----- start tags ------------------------------------------------------------------------------------------------

  function WithAtts(st: seq<Frame>, atts: seq<Att>): (r: seq<Frame>)
    requires st != []
    ensures |r| == |st|
  {
    WithTop(st, Top(st).(atts := Top(st).atts + atts))
  }

  lemma WithAttsNext(st: seq<Frame>, a: Att, atts: seq<Att>)
    requires st != []
    ensures WithAtts(AddAtt(st, a), atts) == WithAtts(st, [a] + atts)
  {
    assert (Top(st).atts + [a]) + atts == Top(st).atts + ([a] + atts);
  }

  /** The '>' of a tag at `k`, or the terminator that has replaced it. */
  predicate Closes(t: seq<byte>, endch: byte, k: nat, next: nat) {
    && k < |t| && next < |t|
    && ((t[k] == GT && next == k + 1) || (t[k] == NUL && endch == GT && next == k))
  }

  lemma AttsBegin(t: seq<byte>, i: nat, k: nat, atts: seq<AttToken>)
    requires RawAt(t, i, k, SpellAtts(atts)) && (forall n :: 0 <= n < |atts| ==> AttTokenOk(atts[n]))
    ensures if atts == [] then i == k else i < k && IsSpace(t[i])
  {
    if atts != [] {
      var j := RawSplit(t, i, k, atts[0].space + SpellNamed(atts[0]), SpellAtts(atts[1..]));
      var s := RawSplit(t, i, j, atts[0].space, SpellNamed(atts[0]));
      RawFirst(t, i, s, atts[0].space, 1);
    }
  }

  lemma {:induction false} AttsRead(t: seq<byte>, i: nat, k: nat, atts: seq<AttToken>, st: seq<Frame>, o: Options,
                                    endch: byte)
    requires t != [] && t[|t| - 1] == NUL && |st| > 1 && RawAt(t, i, k, SpellAtts(atts)) && !IsStartSymbol(t[k])
    requires forall n :: 0 <= n < |atts| ==> AttTokenOk(atts[n])
    ensures i < |t| && Attributes(t, i, st, o, endch) == Attributes(t, k, WithAtts(st, AttsOf(o, atts)), o, endch)
    decreases |atts|
  {
    if atts == [] {
      assert Top(st).atts + [] == Top(st).atts;
      assert WithAtts(st, []) == st;
    } else {
      var a, rest := atts[0], atts[1..];
      var j := RawSplit(t, i, k, a.space + SpellNamed(a), SpellAtts(rest));
      var s := RawSplit(t, i, j, a.space, SpellNamed(a));
      AttsBegin(t, j, k, rest);
      AttRead(t, s, j, a, o);
      SpacesAre(t, i, s, a.space);
      var b := Att(a.name, AttValue(o, a.quote, a.raw));
      AttributesAtName(t, i, st, o, endch, s, b, j);
      AttsRead(t, j, k, rest, AddAtt(st, b), o, endch);
      WithAttsNext(st, b, AttsOf(o, rest));
    }
  }

  /** The end of a start tag: a slash if it is also the end of the element, and the '>'. */
  lemma EndRead(t: seq<byte>, s: nat, k: nat, next: nat, closed: bool, st: seq<Frame>, o: Options, endch: byte)
    requires t != [] && t[|t| - 1] == NUL && |st| > 1 && Closes(t, endch, k, next)
    requires RawAt(t, s, k, if closed then [SLASH] else [])
    ensures s < |t| && t[s] in {SLASH, GT, NUL} && SpacesEnd(t, s) == s
    ensures EndOfStart(t, s, st, o, endch) == Content(t, next, Ended(st, closed), o, endch)
    ensures AfterName(t, s, st, o, endch) == Content(t, next, Ended(st, closed), o, endch)
  {
    if closed { RawOne(t, s, k, SLASH); }
  }

  lemma TagAtName(t: seq<byte>, i: nat, e: nat, st: seq<Frame>, o: Options, endch: byte)
    requires i + 1 < e < |t| && t[|t| - 1] == NUL && st != [] && t[i] == LT && IsStartSymbol(t[i + 1])
    requires NameEnd(t, i + 1) == e
    ensures Content(t, i, st, o, endch) == AfterName(t, e, Push(st, t[i + 1..e]), o, endch)
  {
    ContentAtTag(t, i, st, o, endch);
  }

  /** Where the parts of a start tag are: the end of its name, of its attributes and of the space behind them. */
  ghost predicate StartAt(t: seq<byte>, k: Token, i: nat, e: nat, a: nat, s: nat, j: nat) {
    && k.Start? && i < |t| && t[i] == LT && RawAt(t, i + 1, e, k.name) && RawAt(t, e, a, SpellAtts(k.atts))
    && RawAt(t, a, s, k.space) && RawAt(t, s, j, if k.closed then [SLASH] else [])
  }

  lemma {:induction false} StartPlaces(t: seq<byte>, i: nat, j: nat, k: Token) returns (e: nat, a: nat, s: nat)
    requires k.Start? && RawAt(t, i, j, Body(k))
    ensures StartAt(t, k, i, e, a, s, j)
  {
    var slash := if k.closed then [SLASH] else [];
    e := RawSplit(t, i, j, [LT] + k.name, SpellAtts(k.atts) + (k.space + slash));
    var i1 := RawSplit(t, i, e, [LT], k.name);
    RawOne(t, i, i1, LT);
    a := RawSplit(t, e, j, SpellAtts(k.atts), k.space + slash);
    s := RawSplit(t, a, j, k.space, slash);
  }

  lemma {:induction false} StartSpelled(t: seq<byte>, k: Token, i: nat, e: nat, a: nat, s: nat, j: nat)
    requires StartAt(t, k, i, e, a, s, j)
    ensures RawAt(t, i, j, Body(k))
  {
    var slash := if k.closed then [SLASH] else [];
    RawOne(t, i, i + 1, LT);
    RawJoin(t, i, i + 1, e, [LT], k.name);
    RawJoin(t, a, s, j, k.space, slash);
    RawJoin(t, e, a, j, SpellAtts(k.atts), k.space + slash);
    RawJoin(t, i, e, j, [LT] + k.name, SpellAtts(k.atts) + (k.space + slash));
  }

  /** Behind the name stands white space, or the end of the tag. */
  lemma {:induction false} BehindName(t: seq<byte>, k: Token, i: nat, e: nat, a: nat, s: nat, j: nat)
    requires StartAt(t, k, i, e, a, s, j) && TokenOk(k) && (t[s] == SLASH || t[s] == GT || t[s] == NUL)
    ensures if k.atts == [] && k.space == [] then e == s else IsSpace(t[e])
    ensures !IsSymbol(t[e]) && !IsStartSymbol(t[a]) && SpacesEnd(t, a) == s
  {
    AttsBegin(t, e, a, k.atts);
    WhiteThen(t, a, s, k.space);
  }

  /** What an open start tag, or an empty element, adds. */
  function Started(o: Options, k: Token, st: seq<Frame>): (r: seq<Frame>)
    requires k.Start? && st != []
    ensures r != []
  {
    Ended(st + [Frame(k.name, AttsOf(o, k.atts), None, [])], k.closed)
  }

  lemma {:induction false} AttsWhole(st: seq<Frame>, name: seq<byte>, atts: seq<Att>)
    ensures WithAtts(Push(st, name), atts) == st + [Frame(name, atts, None, [])]
  {
    assert [] + atts == atts;
    assert Push(st, name)[..|st|] == st;
  }

  lemma {:induction false} StartRead(t: seq<byte>, i: nat, j: nat, next: nat, k: Token, st: seq<Frame>, o: Options,
                                     endch: byte)
    requires t != [] && t[|t| - 1] == NUL && st != [] && k.Start? && TokenOk(k)
    requires RawAt(t, i, j, Body(k)) && Closes(t, endch, j, next)
    ensures Content(t, i, st, o, endch) == Content(t, next, Started(o, k, st), o, endch)
  {
    var e, a, s := StartPlaces(t, i, j, k);
    var st1 := st + [Frame(k.name, AttsOf(o, k.atts), None, [])];
    EndRead(t, s, j, next, k.closed, st1, o, endch);
    BehindName(t, k, i, e, a, s, j);
    NameIs(t, i + 1, e, k.name);
    TagAtName(t, i, e, st, o, endch);
    assert t[i + 1..e] == k.name;
    if k.atts == [] && k.space == [] {
      assert Push(st, k.name) == st1;
    } else {
      var st0 := Push(st, k.name);
      NameThenSpace(t, e, st0, o, endch);
      AttsRead(t, e, a, k.atts, st0, o, endch);
      AttsWhole(st, k.name, AttsOf(o, k.atts));
      AttributesThenEnd(t, a, s, st1, o, endch);
    }
  }

  lemma NameThenSpace(t: seq<byte>, e: nat, st: seq<Frame>, o: Options, endch: byte)
    requires e < |t| && t[|t| - 1] == NUL && |st| > 1 && IsSpace(t[e])
    ensures AfterName(t, e, st, o, endch) == Attributes(t, e, st, o, endch)
  {
    AttributesSkipSpace(t, e, st, o, endch);
  }

  lemma AttributesThenEnd(t: seq<byte>, a: nat, s: nat, st: seq<Frame>, o: Options, endch: byte)
    requires a < |t| && t[|t| - 1] == NUL && |st| > 1 && SpacesEnd(t, a) == s && s < |t| && !IsStartSymbol(t[s])
    ensures Attributes(t, a, st, o, endch) == EndOfStart(t, s, st, o, endch)
  {
  }

  // ----- end tags --------------------------------------------------------------------------------------------------

  /** Names of the elements that are open. */
  predicate NamesOk(st: seq<Frame>) {
    forall k :: 0 < k < |st| ==> IsName(st[k].name)
  }

  predicate Mismatch(r: Outcome) {
    r.Failed? && r.status == EndElementMismatch
  }

  /** An end tag ends the innermost element if it bears its name; if not, or if none is open, it is an error. */
  lemma {:induction false} CloseRead(t: seq<byte>, i: nat, j: nat, next: nat, k: Token, st: seq<Frame>, o: Options,
                                     endch: byte)
    requires t != [] && t[|t| - 1] == NUL && st != [] && NamesOk(st) && k.End? && TokenOk(k)
    requires RawAt(t, i, j, Body(k)) && Closes(t, endch, j, next)
    ensures if |st| > 1 && Top(st).name == k.name then
              Content(t, i, st, o, endch) == Content(t, next, Pop(st), o, endch)
            else Mismatch(Content(t, i, st, o, endch))
  {
    var e := RawSplit(t, i, j, [LT, SLASH] + k.name, k.space);
    var n := RawSplit(t, i, e, [LT, SLASH], k.name);
    RawFirst(t, i, n, [LT, SLASH], 1);
    WhiteThen(t, e, j, k.space);
    NameIs(t, n, e, k.name);
    ContentAtTag(t, i, st, o, endch);
    assert t[n..e] == k.name && t[i + 1] == SLASH;
    if |st| > 1 {
      CloseScanned(t, n, e, j, next, k.name, Top(st).name, endch);
    }
  }

  lemma {:induction false} CloseScanned(t: seq<byte>, i: nat, e: nat, j: nat, next: nat, here: seq<byte>,
                                        name: seq<byte>, endch: byte)
    requires i < e && e <= j && Closes(t, endch, j, next) && t[|t| - 1] == NUL && NameEnd(t, i) == e && IsName(name)
    requires t[i..e] == here && SpacesEnd(t, e) == j
    ensures if name == here then ScanClose(t, i, name, endch) == Closed(next)
            else ScanClose(t, i, name, endch) == NotClosed(EndElementMismatch, i)
  {
    if here <= name && |here| < |name| {
      assert IsSymbol(name[e - i]);
      assert At(t, e) == NUL ==> e == j;
    }
  }
}
