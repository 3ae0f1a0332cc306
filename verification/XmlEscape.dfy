// Writing text so that reading it back gives the same text.
module XmlEscape {
  import opened Basics
  import opened XmlBytes
  import opened XmlText

  datatype Place = InAttribute | InContent

  /** How text is written: between which quotation marks, and whether control characters are dropped. */
  datatype Format = Format(single: bool, skipControl: bool)

  /** The bytes that cannot be written as they are. */
  predicate Special(p: Place, c: byte) {
    if p.InAttribute? then c < 32 || c in {AMP, LT, QUOT, APOS}
    else (c < 32 && c !in {TAB, LF, CR}) || c in {AMP, LT, GT}
  }

  function EscapedByte(p: Place, f: Format, c: byte): seq<byte> {
    if !Special(p, c) then [c]
    else if c == AMP then AMP_REF
    else if c == LT then LT_REF
    else if c == GT then GT_REF
    else if c == QUOT then if f.single then [QUOT] else QUOT_REF
    else if c == APOS then if f.single then APOS_REF else [APOS]
    else if f.skipControl then []
    else [AMP, HASH, ZERO + c / 10, ZERO + c % 10, SEMI]
  }

  function Escaped(p: Place, f: Format, s: seq<byte>): seq<byte> {
    if s == [] then [] else EscapedByte(p, f, s[0]) + Escaped(p, f, s[1..])
  }

  lemma {:induction false} EscapedAppend(p: Place, f: Format, a: seq<byte>, b: seq<byte>)
    ensures Escaped(p, f, a + b) == Escaped(p, f, a) + Escaped(p, f, b)
  {
    if a == [] {
      assert a + b == b;
    } else {
      assert (a + b)[1..] == a[1..] + b;
      EscapedAppend(p, f, a[1..], b);
    }
  }

  lemma {:induction false} EscapedUsual(p: Place, f: Format, s: seq<byte>)
    requires forall i :: 0 <= i < |s| ==> !Special(p, s[i])
    ensures Escaped(p, f, s) == s
  {
    if s != [] { EscapedUsual(p, f, s[1..]); }
  }

  /** The writer's buffer. */
  class Writer {
    var out: seq<byte>

    constructor ()
      ensures out == []
    {
      out := [];
    }

    method Write(s: seq<byte>)
      modifies this
      ensures out == old(out) + s
    {
      out := out + s;
    }
  }

  method ScanUsual(s: seq<byte>, i0: nat, p: Place) returns (i: nat)
    requires i0 <= |s|
    ensures i0 <= i <= |s| && Special(p, At(s, i)) && forall k :: i0 <= k < i ==> !Special(p, s[k])
  {
    i := i0;
    while true
      invariant i0 <= i <= |s| && forall k :: i0 <= k < i ==> !Special(p, s[k])
      decreases |s| - i
    {
      if Special(p, At(s, i)) { break; }
      if Special(p, At(s, i + 1)) { i := i + 1; break; }
      if Special(p, At(s, i + 2)) { i := i + 2; break; }
      if Special(p, At(s, i + 3)) { i := i + 3; break; }
      i := i + 4;
    }
  }

  lemma EscapedNext(p: Place, f: Format, s: seq<byte>, i: nat)
    requires i < |s|
    ensures Escaped(p, f, s[..i + 1]) == Escaped(p, f, s[..i]) + EscapedByte(p, f, s[i])
  {
    assert s[..i + 1] == s[..i] + [s[i]];
    EscapedAppend(p, f, s[..i], [s[i]]);
    assert [s[i]][1..] == [];
    assert Escaped(p, f, [s[i]]) == EscapedByte(p, f, s[i]) + [] == EscapedByte(p, f, s[i]);
  }

  lemma EscapedRun(p: Place, f: Format, s: seq<byte>, i: nat, j: nat)
    requires i <= j <= |s| && forall k :: i <= k < j ==> !Special(p, s[k])
    ensures Escaped(p, f, s[..j]) == Escaped(p, f, s[..i]) + s[i..j]
  {
    assert s[..j] == s[..i] + s[i..j];
    EscapedAppend(p, f, s[..i], s[i..j]);
    EscapedUsual(p, f, s[i..j]);
  }

  method WriteSpecial(w: Writer, c: byte, ghost p: Place, f: Format)
    requires Special(p, c)
    modifies w
    ensures w.out == old(w.out) + EscapedByte(p, f, c)
  {
    if c == AMP {
      w.Write(AMP_REF);
    } else if c == LT {
      w.Write(LT_REF);
    } else if c == GT {
      w.Write(GT_REF);
    } else if c == QUOT {
      if f.single { w.Write([QUOT]); } else { w.Write(QUOT_REF); }
    } else if c == APOS {
      if f.single { w.Write(APOS_REF); } else { w.Write([APOS]); }
    } else {
      assert c < 32;
      if !f.skipControl { w.Write([AMP, HASH, ZERO + c / 10, ZERO + c % 10, SEMI]); }
    }
  }

  /** Writes a string, given without its terminator. */
  method TextOutputEscaped(w: Writer, s: seq<byte>, p: Place, f: Format)
    requires NUL !in s
    modifies w
    ensures w.out == old(w.out) + Escaped(p, f, s)
  {
    var i := 0;
    assert s[..0] == [];
    while i < |s|
      invariant i <= |s| && w.out == old(w.out) + Escaped(p, f, s[..i])
    {
      var prev := i;
      i := ScanUsual(s, i, p);
      w.Write(s[prev..i]);
      EscapedRun(p, f, s, prev, i);
      Assoc(old(w.out), Escaped(p, f, s[..prev]), s[prev..i]);
      if i < |s| {
        WriteSpecial(w, s[i], p, f);
        EscapedNext(p, f, s, i);
        Assoc(old(w.out), Escaped(p, f, s[..i]), EscapedByte(p, f, s[i]));
        i := i + 1;
      }
    }
    assert s[..i] == s;
  }

  // ----- reading back ------------------------------------------------------------------------------------

  ghost predicate Placed(t: seq<byte>, i: nat, e: seq<byte>) {
    i + |e| <= |t| && t[i..i + |e|] == e
  }

  lemma PlacedParts(t: seq<byte>, i: nat, a: seq<byte>, b: seq<byte>)
    requires Placed(t, i, a + b)
    ensures Placed(t, i, a) && Placed(t, i + |a|, b)
  {
    assert t[i..i + |a|] == t[i..i + |a + b|][..|a|];
    assert t[i + |a|..i + |a| + |b|] == t[i..i + |a + b|][|a|..];
  }

  lemma PlacedAt(t: seq<byte>, i: nat, e: seq<byte>)
    requires Placed(t, i, e)
    ensures forall k :: 0 <= k < |e| ==> At(t, i + k) == e[k]
  {
    forall k | 0 <= k < |e| ensures At(t, i + k) == e[k] {
      assert t[i..i + |e|][k] == e[k];
    }
  }

  /** Every written reference is read as the byte it stands for. */
  lemma {:induction false} ReadEntity(t: seq<byte>, i: nat, c: byte, name: seq<byte>)
    requires Placed(t, i, name)
    requires (c, name) in {(AMP, AMP_REF), (LT, LT_REF), (GT, GT_REF), (QUOT, QUOT_REF), (APOS, APOS_REF)}
    ensures t[i] == AMP && Reference(t, i) == Piece(i + |name|, [c])
  {
    PlacedAt(t, i, name);
    assert At(t, i) == AMP;
    var k := KindAt(t, i);
    assert k.Entity?;
    StopAtEnd(t, k.at, k.rest);
  }

  lemma {:induction false} StopAtEnd(t: seq<byte>, i: nat, w: seq<byte>)
    requires forall k :: 0 <= k < |w| ==> w[k] != NUL && At(t, i + k) == w[k]
    ensures Stop(t, i, w) == i + |w|
    decreases |w|
  {
    if w != [] {
      forall k | 0 <= k < |w[1..]| ensures w[1..][k] != NUL && At(t, i + 1 + k) == w[1..][k] {
        assert w[1..][k] == w[k + 1] && At(t, i + (k + 1)) == w[k + 1];
      }
      StopAtEnd(t, i + 1, w[1..]);
    }
  }

  lemma {:induction false} ReadControl(t: seq<byte>, i: nat, c: byte)
    requires c < 32 && Placed(t, i, [AMP, HASH, ZERO + c / 10, ZERO + c % 10, SEMI])
    ensures t[i] == AMP && Reference(t, i) == Piece(i + 5, [c])
  {
    PlacedAt(t, i, [AMP, HASH, ZERO + c / 10, ZERO + c % 10, SEMI]);
    assert At(t, i) == AMP && At(t, i + 1) == HASH && At(t, i + 2) == ZERO + c / 10 &&
      At(t, i + 3) == ZERO + c % 10 && At(t, i + 4) == SEMI;
    assert DigitsEnd(t, i + 4, false) == i + 4;
    assert DigitsEnd(t, i + 3, false) == i + 4;
    assert DigitsEnd(t, i + 2, false) == i + 4;
    assert Number(t, i + 4, i + 4, false, c) == c;
    assert Number(t, i + 3, i + 4, false, c / 10) == c;
    assert Number(t, i + 2, i + 4, false, 0) == c;
  }

  /** What reading back has to undo: the byte as read in mode `m` at a place where its written form stands. */
  predicate Fits(m: Mode, p: Place, f: Format) {
    && m.escape && !f.skipControl
    && match m
      case CharData(_, _) => p.InContent?
      case AttrText(_, _, quote) => p.InAttribute? && quote == if f.single then APOS else QUOT
  }

  lemma ReadByte(t: seq<byte>, i: nat, c: byte, m: Mode, p: Place, f: Format)
    requires Fits(m, p, f) && c != NUL && Placed(t, i, EscapedByte(p, f, c))
    requires m.CharData? ==> c == CR ==> !m.eol
    requires m.AttrText? && c == SPACE ==> !m.spacing.Wnorm?
    ensures i < |t| && !Ends(m, t[i]) && Step(m, t, i) == Piece(i + |EscapedByte(p, f, c)|, [c])
  {
    var e := EscapedByte(p, f, c);
    PlacedAt(t, i, e);
    assert At(t, i + 0) == e[0];
    if e != [c] {
      if c < 32 { ReadControl(t, i, c); } else { ReadEntity(t, i, c, e); }
    }
  }

  /** Line ends are read as line feeds (section 2.11 of XML 1.0). */
  function EolNormal(s: seq<byte>): seq<byte> {
    if s == [] then []
    else if s[0] == CR then [LF] + (if At(s, 1) == LF then EolNormal(s[2..]) else EolNormal(s[1..]))
    else [s[0]] + EolNormal(s[1..])
  }

  lemma {:induction false} EolNormalIff(s: seq<byte>)
    ensures EolNormal(s) == s <==> CR !in s
    ensures |EolNormal(s)| <= |s| && CR !in EolNormal(s)
    decreases |s|
  {
    if s != [] {
      if s[0] == CR && At(s, 1) == LF { EolNormalIff(s[2..]); } else { EolNormalIff(s[1..]); }
      if s[0] != CR {
        assert s == [s[0]] + s[1..];
        assert CR in s <==> CR in s[1..];
      }
    }
  }

  function ReadAs(m: Mode, s: seq<byte>): seq<byte> {
    if m.CharData? && m.eol then EolNormal(s) else s
  }

  /** The written form of `s` stands between `i` and `j`; kept folded in the proofs by induction. */
  ghost predicate Written(t: seq<byte>, i: nat, j: nat, s: seq<byte>, p: Place, f: Format) {
    forall n: nat {:trigger WrittenForm(t, i, j, s, p, f, n)} :: n < 1 ==> WrittenForm(t, i, j, s, p, f, n)
  }

  ghost predicate WrittenForm(t: seq<byte>, i: nat, j: nat, s: seq<byte>, p: Place, f: Format, n: nat) {
    Placed(t, i, Escaped(p, f, s)) && j == i + |Escaped(p, f, s)| && j < |t|
  }

  /** Reading from `i` gives `out` and ends at `j`. */
  ghost predicate Reads(m: Mode, t: seq<byte>, i: nat, j: nat, out: seq<byte>) {
    forall n: nat {:trigger ReadsForm(m, t, i, j, out, n)} :: n < 1 ==> ReadsForm(m, t, i, j, out, n)
  }

  ghost predicate ReadsForm(m: Mode, t: seq<byte>, i: nat, j: nat, out: seq<byte>, n: nat) {
    i <= |t| && Run(m, t, i) == Piece(j, out)
  }

  lemma WrittenSplits(t: seq<byte>, i: nat, j: nat, s: seq<byte>, p: Place, f: Format) returns (k: nat)
    requires !f.skipControl && s != [] && Written(t, i, j, s, p, f)
    ensures i < k && k == i + |EscapedByte(p, f, s[0])| && Written(t, k, j, s[1..], p, f)
    ensures j < |t| && Placed(t, i, EscapedByte(p, f, s[0])) && i < |t|
    ensures (t[i] == s[0] || t[i] == AMP) && (Special(p, s[0]) && (s[0] < 32 || s[0] == LT) ==> t[i] == AMP)
  {
    assert WrittenForm(t, i, j, s, p, f, 0);
    var e := EscapedByte(p, f, s[0]);
    PlacedParts(t, i, e, Escaped(p, f, s[1..]));
    PlacedAt(t, i, e);
    assert At(t, i + 0) == e[0];
    k := i + |e|;
    assert WrittenForm(t, k, j, s[1..], p, f, 0);
  }

  lemma NothingLeft(t: seq<byte>, i: nat, j: nat, p: Place, f: Format, m: Mode)
    requires Written(t, i, j, [], p, f) && j < |t| && Ends(m, t[j])
    ensures i == j && Reads(m, t, i, j, [])
  {
    assert WrittenForm(t, i, j, [], p, f, 0);
    assert ReadsForm(m, t, i, j, [], 0);
  }

  /** A piece read at `i` goes in front of what is read behind it. */
  lemma ReadsMore(m: Mode, t: seq<byte>, i: nat, k: nat, j: nat, u: seq<byte>, out: seq<byte>)
    requires i < |t| && !Ends(m, t[i]) && Step(m, t, i) == Piece(k, u) && Reads(m, t, k, j, out)
    ensures Reads(m, t, i, j, u + out)
  {
    assert ReadsForm(m, t, k, j, out, 0);
    assert ReadsForm(m, t, i, j, u + out, 0);
  }

  lemma ReadsAre(m: Mode, t: seq<byte>, i: nat, j: nat, out: seq<byte>)
    requires Reads(m, t, i, j, out)
    ensures i <= |t| && Run(m, t, i) == Piece(j, out)
  {
    assert ReadsForm(m, t, i, j, out, 0);
  }

  lemma ReadAsNext(m: Mode, s: seq<byte>)
    requires s != [] && (m.CharData? && m.eol ==> s[0] != CR)
    ensures [s[0]] + ReadAs(m, s[1..]) == ReadAs(m, s)
  {
    assert s == [s[0]] + s[1..];
  }

  /** Reading what was written gives the text back, whatever stands around it. */
  lemma {:induction false} ReadBack(t: seq<byte>, i: nat, j: nat, s: seq<byte>, m: Mode, p: Place, f: Format)
    requires Fits(m, p, f) && NUL !in s && Written(t, i, j, s, p, f) && j < |t| && Ends(m, t[j])
    requires m.AttrText? ==> !m.spacing.Wnorm?
    ensures Reads(m, t, i, j, ReadAs(m, s))
    decreases |s|, 1
  {
    if s == [] {
      NothingLeft(t, i, j, p, f, m);
    } else if m.CharData? && m.eol && s[0] == CR {
      ReadLineEnd(t, i, j, s, m, p, f);
    } else {
      var k := WrittenSplits(t, i, j, s, p, f);
      ReadByte(t, i, s[0], m, p, f);
      ReadBack(t, k, j, s[1..], m, p, f);
      ReadsMore(m, t, i, k, j, [s[0]], ReadAs(m, s[1..]));
      ReadAsNext(m, s);
    }
  }

  lemma LineEndWritten(t: seq<byte>, i: nat, j: nat, s: seq<byte>, p: Place, f: Format) returns (k: nat)
    requires !f.skipControl && p.InContent? && NUL !in s && s != [] && s[0] == CR && Written(t, i, j, s, p, f) &&
             j < |t| && t[j] != LF
    ensures i < |t| && t[i] == CR && k == (if At(t, i + 1) == LF then i + 2 else i + 1)
    ensures Written(t, k, j, if At(s, 1) == LF then s[2..] else s[1..], p, f)
  {
    k := WrittenSplits(t, i, j, s, p, f);
    if |s| > 1 {
      var k2 := WrittenSplits(t, k, j, s[1..], p, f);
      assert s[1..][1..] == s[2..];
      if s[1] == LF { k := k2; }
    } else {
      assert WrittenForm(t, k, j, s[1..], p, f, 0);
    }
  }

  lemma {:induction false} ReadLineEnd(t: seq<byte>, i: nat, j: nat, s: seq<byte>, m: Mode, p: Place, f: Format)
    requires Fits(m, p, f) && NUL !in s && s != [] && s[0] == CR && m.CharData? && m.eol
    requires Written(t, i, j, s, p, f) && j < |t| && Ends(m, t[j])
    ensures Reads(m, t, i, j, EolNormal(s))
    decreases |s|, 0
  {
    var k := LineEndWritten(t, i, j, s, p, f);
    var rest := if At(s, 1) == LF then s[2..] else s[1..];
    ReadBack(t, k, j, rest, m, p, f);
    ReadsMore(m, t, i, k, j, [LF], EolNormal(rest));
  }

  lemma WrittenAround(pre: seq<byte>, e: seq<byte>, c: byte, post: seq<byte>)
    ensures var t := pre + e + [c] + post; Placed(t, |pre|, e) && |pre| + |e| < |t| && t[|pre| + |e|] == c
  {
  }

  lemma WrittenBetween(pre: seq<byte>, s: seq<byte>, p: Place, f: Format, c: byte, post: seq<byte>)
    ensures var e := Escaped(p, f, s);
      var t := pre + e + [c] + post;
      Written(t, |pre|, |pre| + |e|, s, p, f) && |pre| + |e| < |t| && t[|pre| + |e|] == c
  {
    var e := Escaped(p, f, s);
    WrittenAround(pre, e, c, post);
    assert WrittenForm(pre + e + [c] + post, |pre|, |pre| + |e|, s, p, f, 0);
  }

  lemma AttributeReadBack(pre: seq<byte>, s: seq<byte>, post: seq<byte>, spacing: Spacing, single: bool)
    requires NUL !in s && !spacing.Wnorm?
    ensures var e, quote := Escaped(InAttribute, Format(single, false), s), if single then APOS else QUOT;
      Run(AttrText(spacing, true, quote), pre + e + [quote] + post, |pre|) == Piece(|pre| + |e|, s)
  {
    var f, quote := Format(single, false), if single then APOS else QUOT;
    var e := Escaped(InAttribute, f, s);
    var t, m := pre + e + [quote] + post, AttrText(spacing, true, quote);
    WrittenBetween(pre, s, InAttribute, f, quote, post);
    ReadBack(t, |pre|, |pre| + |e|, s, m, InAttribute, f);
    ReadsAre(m, t, |pre|, |pre| + |e|, s);
  }

  /** An attribute value survives writing and reading, with line ends or white space converted or not. */
  lemma AttributeRoundTrip(pre: seq<byte>, s: seq<byte>, post: seq<byte>, spacing: Spacing, single: bool)
    requires NUL !in s && !spacing.Wnorm?
    ensures var e, quote := Escaped(InAttribute, Format(single, false), s), if single then APOS else QUOT;
      AttrValue(spacing, true, quote, pre + e + [quote] + post, |pre|) == Piece(|pre| + |e|, s)
  {
    AttributeReadBack(pre, s, post, spacing, single);
  }

  /** Character data survives, except that line ends may be converted: then exactly the texts without a
      carriage return do. */
  lemma ContentRoundTrip(pre: seq<byte>, s: seq<byte>, c: byte, post: seq<byte>, eol: bool, single: bool)
    requires NUL !in s && (c == LT || c == NUL)
    ensures var e := Escaped(InContent, Format(single, false), s);
      && PcdataValue(eol, true, false, pre + e + [c] + post, |pre|) ==
         Piece(|pre| + |e|, if eol then EolNormal(s) else s)
      && (PcdataValue(eol, true, false, pre + e + [c] + post, |pre|).out == s <==> !eol || CR !in s)
  {
    var f := Format(single, false);
    var e := Escaped(InContent, f, s);
    var t, m := pre + e + [c] + post, CharData(eol, true);
    WrittenBetween(pre, s, InContent, f, c, post);
    ReadBack(t, |pre|, |pre| + |e|, s, m, InContent, f);
    ReadsAre(m, t, |pre|, |pre| + |e|, ReadAs(m, s));
    EolNormalIff(s);
  }

  /** Without control characters that dropping would remove. */
  function Kept(p: Place, s: seq<byte>): seq<byte> {
    if s == [] then []
    else if Special(p, s[0]) && s[0] < 32 then Kept(p, s[1..])
    else [s[0]] + Kept(p, s[1..])
  }

  /** Dropping control characters while writing is writing the text without them. */
  lemma {:induction false} DroppingControls(p: Place, single: bool, s: seq<byte>)
    ensures Escaped(p, Format(single, true), s) == Escaped(p, Format(single, false), Kept(p, s))
  {
    if s != [] {
      DroppingControls(p, single, s[1..]);
      if !(Special(p, s[0]) && s[0] < 32) {
        assert Kept(p, s)[1..] == Kept(p, s[1..]);
      }
    }
  }

  // ----- full normalisation --------------------------------------------------------------------------------

  function DropSpaces(s: seq<byte>): (r: seq<byte>)
    ensures |r| <= |s| && (r == [] || r[0] != SPACE)
  {
    if s != [] && s[0] == SPACE then DropSpaces(s[1..]) else s
  }

  lemma {:induction false} DropSpacesOnly(s: seq<byte>, c: byte)
    requires c !in s
    ensures c !in DropSpaces(s)
  {
    if s != [] && s[0] == SPACE { DropSpacesOnly(s[1..], c); }
  }

  function CollapseSpaces(s: seq<byte>): seq<byte>
    decreases |s|
  {
    if s == [] then []
    else if s[0] == SPACE then [SPACE] + CollapseSpaces(DropSpaces(s[1..]))
    else [s[0]] + CollapseSpaces(s[1..])
  }

  function Normal(s: seq<byte>): seq<byte> {
    TrimRight(CollapseSpaces(DropSpaces(s)))
  }

  predicate IsNormal(s: seq<byte>) {
    && (s == [] || (s[0] != SPACE && !IsSpace(s[|s| - 1])))
    && NoDoubleSpaces(s)
  }

  /** A blank in the written text is a blank of the text; other white space is written as a reference. */
  lemma {:induction false} WrittenSpaces(t: seq<byte>, i: nat, j: nat, s: seq<byte>, f: Format)
    requires !f.skipControl && Written(t, i, j, s, InAttribute, f) && j < |t| && !IsSpace(t[j])
    ensures Written(t, SpacesEnd(t, i), j, DropSpaces(s), InAttribute, f)
    decreases |s|
  {
    if s != [] {
      var k := WrittenSplits(t, i, j, s, InAttribute, f);
      if s[0] == SPACE { WrittenSpaces(t, i + 1, j, s[1..], f); }
    } else {
      assert WrittenForm(t, i, j, s, InAttribute, f, 0);
    }
  }

  lemma {:induction false} ReadBackNormal(t: seq<byte>, i: nat, j: nat, s: seq<byte>, m: Mode, f: Format)
    requires Fits(m, InAttribute, f) && m.spacing.Wnorm? && NUL !in s && Written(t, i, j, s, InAttribute, f)
    requires j < |t| && Ends(m, t[j])
    ensures Reads(m, t, i, j, CollapseSpaces(s))
    decreases |s|
  {
    if s == [] {
      NothingLeft(t, i, j, InAttribute, f, m);
    } else {
      var k := WrittenSplits(t, i, j, s, InAttribute, f);
      CollapseNext(s);
      if s[0] == SPACE {
        WrittenSpaces(t, i + 1, j, s[1..], f);
        DropSpacesOnly(s[1..], NUL);
        ReadBackNormal(t, SpacesEnd(t, i + 1), j, DropSpaces(s[1..]), m, f);
        ReadsMore(m, t, i, SpacesEnd(t, i + 1), j, [SPACE], CollapseSpaces(DropSpaces(s[1..])));
      } else {
        ReadByte(t, i, s[0], m, InAttribute, f);
        ReadBackNormal(t, k, j, s[1..], m, f);
        ReadsMore(m, t, i, k, j, [s[0]], CollapseSpaces(s[1..]));
      }
    }
  }

  lemma CollapseNext(s: seq<byte>)
    requires s != []
    ensures CollapseSpaces(s) == [s[0]] + CollapseSpaces(if s[0] == SPACE then DropSpaces(s[1..]) else s[1..])
  {
  }

  predicate NoDoubleSpaces(s: seq<byte>) {
    |s| <= 1 || ((s[0] != SPACE || s[1] != SPACE) && NoDoubleSpaces(s[1..]))
  }

  lemma {:induction false} CollapseIff(s: seq<byte>)
    ensures |CollapseSpaces(s)| <= |s| && (CollapseSpaces(s) == s <==> NoDoubleSpaces(s))
    decreases |s|
  {
    if s != [] {
      var r := s[1..];
      assert s == [s[0]] + r;
      if s[0] == SPACE { CollapseIff(DropSpaces(r)); } else { CollapseIff(r); }
    }
  }

  lemma NormalIff(s: seq<byte>)
    ensures Normal(s) == s <==> IsNormal(s)
  {
    var d := DropSpaces(s);
    CollapseIff(d);
    CollapseIff(s);
    var c := CollapseSpaces(d);
    if s != [] && s[0] == SPACE {
      assert |d| < |s|;
    } else {
      assert d == s;
    }
  }

  /** With full normalisation exactly the normal values survive. */
  lemma {:induction false} NormalizedRoundTrip(pre: seq<byte>, s: seq<byte>, post: seq<byte>, single: bool)
    requires NUL !in s
    ensures var e, quote := Escaped(InAttribute, Format(single, false), s), if single then APOS else QUOT;
      var p := AttrValue(Wnorm, true, quote, pre + e + [quote] + post, |pre|);
      p == Piece(|pre| + |e|, Normal(s)) && (p.out == s <==> IsNormal(s))
  {
    var f, quote := Format(single, false), if single then APOS else QUOT;
    var e := Escaped(InAttribute, f, s);
    var t := pre + e + [quote] + post;
    var j, m := |pre| + |e|, AttrText(Wnorm, true, quote);
    WrittenBetween(pre, s, InAttribute, f, quote, post);
    WrittenSpaces(t, |pre|, j, s, f);
    DropSpacesOnly(s, NUL);
    ReadBackNormal(t, SpacesEnd(t, |pre|), j, DropSpaces(s), m, f);
    ReadsAre(m, t, SpacesEnd(t, |pre|), j, CollapseSpaces(DropSpaces(s)));
    NormalIff(s);
  }
}
