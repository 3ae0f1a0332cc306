// What references are decoded to, by the tables of `Numerals` (section 4.1 of XML 1.0).
module XmlReferences {
  import opened Basics
  import opened XmlBytes
  import opened XmlText
  import opened XmlDecode
  import opened Numerals

  /** What a character reference begins with. */
  function Opening(hex: bool): seq<byte> {
    [AMP, HASH] + if hex then ['x' as int] else []
  }

  /** A character reference, decimal or hexadecimal. */
  function Written(fs: seq<Figure>, hex: bool): seq<byte>
    requires Figures(fs, 16)
  {
    Opening(hex) + Chars(fs) + [SEMI]
  }

  function Base(hex: bool): nat {
    if hex then 16 else 10
  }

  lemma FigureIsDigit(f: Figure, hex: bool)
    requires f.value < Base(hex)
    ensures IsDigitOf(Char(f), hex) && DigitValue(Char(f)) == f.value
  {
    TablesAre(f.value);
  }

  lemma OnlyFiguresAreDigits(c: byte, hex: bool)
    ensures IsDigitOf(c, hex) <==> InTable(c, Base(hex))
  {
    InTableIff(c, Base(hex));
  }

  lemma {:induction false} EndIs(t: seq<byte>, i: nat, e: nat, hex: bool)
    requires i <= e <= |t| && !IsDigitOf(At(t, e), hex) && forall k :: i <= k < e ==> IsDigitOf(t[k], hex)
    ensures DigitsEnd(t, i, hex) == e
    decreases e - i
  {
    if i < e { EndIs(t, i + 1, e, hex); }
  }

  lemma StepMod(v: nat, base: nat, d: nat)
    ensures (base * (v % WORD) + d) % WORD == (v * base + d) % WORD
  {
    var q := v / WORD;
    assert v == q * WORD + v % WORD;
    assert v * base + d == base * (v % WORD) + d + q * base * WORD by {
      Distribute(q * WORD, v % WORD, base);
      assert (q * WORD) * base == q * base * WORD;
    }
    AddMultiple(base * (v % WORD) + d, q * base, WORD);
  }

  /** After `k` figures the code has their value, reduced to 32 bits. */
  lemma {:induction false} Accumulated(t: seq<byte>, j: nat, fs: seq<Figure>, k: nat, hex: bool)
    requires Figures(fs, Base(hex)) && k <= |fs| && j + |fs| <= |t|
    requires forall i :: j <= i < j + |fs| ==> t[i] == Char(fs[i - j])
    ensures Number(t, j + k, j + |fs|, hex, Value(fs[..k], Base(hex)) % WORD) == Value(fs, Base(hex)) % WORD
    decreases |fs| - k
  {
    if k == |fs| {
      assert fs[..k] == fs;
    } else {
      assert fs[..k + 1][..k] == fs[..k];
      FigureIsDigit(fs[k], hex);
      StepMod(Value(fs[..k], Base(hex)), Base(hex), fs[k].value);
      Accumulated(t, j, fs, k + 1, hex);
    }
  }

  lemma FourParts(a: seq<byte>, b: seq<byte>, c: seq<byte>, d: seq<byte>)
    ensures var t := a + b + c + d;
      && (forall k :: |a| <= k < |a + b| ==> t[k] == b[k - |a|])
      && (forall k :: |a + b| <= k < |a + b + c| ==> t[k] == c[k - |a + b|])
      && (forall k :: |a + b + c| <= k < |t| ==> t[k] == d[k - |a + b + c|])
  {
  }

  /** The bytes of a reference, ended or not, in their places. */
  lemma Placed(pre: seq<byte>, fs: seq<Figure>, hex: bool, post: seq<byte>)
    requires Figures(fs, Base(hex))
    ensures var t, j := pre + Opening(hex) + Chars(fs) + post, |pre| + |Opening(hex)|;
      && t[|pre|] == AMP && t[|pre| + 1] == HASH && (hex ==> t[|pre| + 2] == 'x' as int)
      && (forall k :: j <= k < j + |fs| ==> t[k] == Char(fs[k - j]) && IsDigitOf(t[k], hex))
      && |t| == j + |fs| + |post| && (forall k :: j + |fs| <= k < |t| ==> t[k] == post[k - j - |fs|])
  {
    FourParts(pre, Opening(hex), Chars(fs), post);
    CharsAre(fs);
    forall i | 0 <= i < |fs| ensures IsDigitOf(Chars(fs)[i], hex) { FigureIsDigit(fs[i], hex); }
  }

  lemma KindIs(t: seq<byte>, i: nat, hex: bool)
    requires i < |t| && t[i] == AMP && At(t, i + 1) == HASH
    requires if hex then At(t, i + 2) == 'x' as int else At(t, i + 2) != 'x' as int
    ensures KindAt(t, i) == Code(i + |Opening(hex)|, hex)
  {
  }

  lemma {:induction false} NumericAt(t: seq<byte>, i: nat, fs: seq<Figure>, hex: bool)
    requires fs != [] && Figures(fs, Base(hex)) && i < |t| && t[i] == AMP
    requires KindAt(t, i) == Code(i + |Opening(hex)|, hex)
    requires var j := i + |Opening(hex)|;
      && j + |fs| < |t| && t[j + |fs|] == SEMI
      && forall k :: j <= k < j + |fs| ==> t[k] == Char(fs[k - j]) && IsDigitOf(t[k], hex)
    ensures Reference(t, i) == Piece(i + |Opening(hex)| + |fs| + 1, Utf8(Value(fs, Base(hex)) % WORD))
  {
    var j := i + |Opening(hex)|;
    EndIs(t, j, j + |fs|, hex);
    NumberIs(t, j, fs, hex);
  }

  lemma {:induction false} NumberIs(t: seq<byte>, j: nat, fs: seq<Figure>, hex: bool)
    requires Figures(fs, Base(hex)) && j + |fs| <= |t| && forall i :: j <= i < j + |fs| ==> t[i] == Char(fs[i - j])
    ensures Number(t, j, j + |fs|, hex, 0) == Value(fs, Base(hex)) % WORD
  {
    Accumulated(t, j, fs, 0, hex);
    assert fs[..0] == [];
  }

  /** A character reference is decoded to the UTF-8 form of its code, reduced to 32 bits, and ends behind its
      semicolon. */
  lemma {:induction false} NumericDecoded(pre: seq<byte>, fs: seq<Figure>, hex: bool, post: seq<byte>)
    requires fs != [] && Figures(fs, Base(hex))
    ensures var r := Written(fs, hex);
      Reference(pre + r + post, |pre|) == Piece(|pre| + |r|, Utf8(Value(fs, Base(hex)) % WORD))
  {
    var t, rest := pre + Written(fs, hex) + post, [SEMI] + post;
    assert t == pre + Opening(hex) + Chars(fs) + rest;
    Placed(pre, fs, hex, rest);
    NotAnX(fs, hex);
    KindIs(t, |pre|, hex);
    NumericAt(t, |pre|, fs, hex);
  }

  lemma NotAnX(fs: seq<Figure>, hex: bool)
    requires fs != [] && Figures(fs, Base(hex))
    ensures Char(fs[0]) != 'x' as int
  {
    TablesAre(fs[0].value);
  }

  lemma {:induction false} UnendedAt(t: seq<byte>, i: nat, e: nat, hex: bool)
    requires i < |t| && t[i] == AMP && KindAt(t, i) == Code(i + |Opening(hex)|, hex)
    requires i + |Opening(hex)| <= e <= |t| && forall k :: i + |Opening(hex)| <= k < e ==> IsDigitOf(t[k], hex)
    requires !IsDigitOf(At(t, e), hex) && (At(t, e) == SEMI ==> e == i + |Opening(hex)|)
    ensures Reference(t, i) == Piece(e, t[i..e])
  {
    EndIs(t, i + |Opening(hex)|, e, hex);
  }

  /** Without the semicolon nothing is decoded: the bytes stay. */
  lemma {:induction false} UnendedStays(pre: seq<byte>, fs: seq<Figure>, hex: bool, post: seq<byte>)
    requires Figures(fs, Base(hex)) && (fs == [] && !hex ==> post == [] || post[0] != 'x' as int)
    requires post == [] || (!InTable(post[0], Base(hex)) && (post[0] == SEMI ==> fs == []))
    ensures var r := Opening(hex) + Chars(fs); Reference(pre + r + post, |pre|) == Piece(|pre| + |r|, r)
  {
    var r := Opening(hex) + Chars(fs);
    var t, e := pre + r + post, |pre| + |r|;
    assert t == pre + Opening(hex) + Chars(fs) + post;
    Placed(pre, fs, hex, post);
    if fs != [] { NotAnX(fs, hex); }
    KindIs(t, |pre|, hex);
    if post != [] { OnlyFiguresAreDigits(post[0], hex); }
    UnendedAt(t, |pre|, e, hex);
    assert t[|pre|..e] == r;
  }

  lemma {:induction false} StopAll(t: seq<byte>, i: nat, w: seq<byte>)
    requires i + |w| <= |t| && t[i..i + |w|] == w && forall k :: 0 <= k < |w| ==> w[k] != NUL
    ensures Stop(t, i, w) == i + |w|
    decreases |w|
  {
    if w != [] {
      assert t[i] == t[i..i + |w|][0];
      assert t[i + 1..i + 1 + |w[1..]|] == t[i..i + |w|][1..];
      StopAll(t, i + 1, w[1..]);
    }
  }

  /** The five predefined entities (section 4.6 of XML 1.0), by their names. */
  function EntityNames(): seq<(string, char)> {
    [("&amp;", '&'), ("&lt;", '<'), ("&gt;", '>'), ("&apos;", '\''), ("&quot;", '"')]
  }

  lemma {:induction false} EntitiesDecoded(pre: seq<byte>, k: nat, post: seq<byte>)
    requires k < 5
    ensures var (name, c) := EntityNames()[k];
      Reference(pre + Text(name) + post, |pre|) == Piece(|pre| + |name|, [c as int])
  {
    var name, c := EntityNames()[k].0, EntityNames()[k].1;
    var t, i := pre + Text(name) + post, |pre|;
    assert forall n :: i <= n < i + |name| ==> t[n] == Text(name)[n - i] == name[n - i] as int;
    EntityAt(t, i, k);
  }

  function Rest(k: nat): seq<byte> {
    if k == 0 then AMP_REST else if k == 3 then APOS_REST else if k == 4 then QUOT_REST else T_REST
  }

  lemma {:induction false} EntityAt(t: seq<byte>, i: nat, k: nat)
    requires k < 5
    requires var name := EntityNames()[k].0;
      i + |name| <= |t| && forall n :: i <= n < i + |name| ==> t[n] == name[n - i] as int
    ensures var (name, c) := EntityNames()[k]; Reference(t, i) == Piece(i + |name|, [c as int])
  {
    var name, c, rest := EntityNames()[k].0, EntityNames()[k].1 as int, Rest(k);
    var j := i + |name| - |rest|;
    assert t[i] == AMP && t[i + 1] == name[1] as int && t[i + 2] == name[2] as int && t[i + 3] == name[3] as int;
    assert KindAt(t, i) == Entity(j, rest, c);
    assert t[j..j + |rest|] == rest;
    StopAll(t, j, rest);
  }

  /** A string of ASCII characters as bytes. */
  function Text(s: string): (t: seq<byte>)
    requires forall i :: 0 <= i < |s| ==> s[i] < 128 as char
    ensures |t| == |s| && forall i :: 0 <= i < |s| ==> t[i] == s[i] as int
  {
    seq(|s|, i requires 0 <= i < |s| => s[i] as int)
  }

  /** In a run that resolves references, what is decoded is followed by the rest of the run. */
  lemma ReferenceInRun(m: Mode, t: seq<byte>, i: nat)
    requires m.escape && i < |t| && t[i] == AMP && (m.AttrText? ==> m.quote != AMP)
    ensures var p := Reference(t, i);
      Run(m, t, i) == Piece(Run(m, t, p.end).end, p.out + Run(m, t, p.end).out)
  {
  }

  /** So a reference alone is the whole value of character data and of attributes. */
  lemma {:induction false} ValueOfReference(pre: seq<byte>, fs: seq<Figure>, hex: bool, end: byte, post: seq<byte>)
    requires fs != [] && Figures(fs, Base(hex))
    ensures var t, i, p := pre + Written(fs, hex) + ([end] + post), |pre|,
                           Piece(|pre| + |Written(fs, hex)|, Utf8(Value(fs, Base(hex)) % WORD));
      && (end == LT || end == NUL ==> forall eol :: PcdataValue(eol, true, false, t, i) == p)
      && (end == QUOT || end == APOS ==>
            forall spacing: Spacing :: !spacing.Wnorm? ==> AttrValue(spacing, true, end, t, i) == p)
  {
    var t, i := pre + Written(fs, hex) + ([end] + post), |pre|;
    NumericDecoded(pre, fs, hex, [end] + post);
    assert t[i] == Written(fs, hex)[0] == AMP && t[i + |Written(fs, hex)|] == end;
    var p := Piece(i + |Written(fs, hex)|, Utf8(Value(fs, Base(hex)) % WORD));
    forall m: Mode | m.escape && Ends(m, end) && (m.AttrText? ==> m.quote != AMP) ensures Run(m, t, i) == p {
      ReferenceInRun(m, t, i);
      assert Run(m, t, p.end) == Piece(p.end, []);
    }
    assert forall eol :: end == LT || end == NUL ==> Ends(CharData(eol, true), end);
  }

  /** Decoding a character reference where it stands in a buffer. */
  method DecodeInPlace(a: array<byte>, s: nat, ghost fs: seq<Figure>, ghost hex: bool, ghost z: nat)
    returns (end: nat, next: nat)
    requires fs != [] && Figures(fs, Base(hex)) && s + |Written(fs, hex)| <= z < a.Length && a[z] == NUL
    requires a[..][s..s + |Written(fs, hex)|] == Written(fs, hex)
    modifies a
    ensures next == s + |Written(fs, hex)| && s <= end <= next
    ensures a[..][s..end] == Utf8(Value(fs, Base(hex)) % WORD) && SameOutside(old(a[..]), a[..], s, next)
  {
    ghost var o, r := a[..], Written(fs, hex);
    assert o == o[..s] + r + o[s + |r|..];
    NumericDecoded(o[..s], fs, hex, o[s + |r|..]);
    assert a[s] == r[0];
    var g := new Gap();
    assert g.Kept(a[..], s, s) == [];
    next := StrconvEscape(a, s, g, o, s, [], z);
    ghost var n := a[..];
    end := g.Flush(a, next, s);
    assert [] + Utf8(Value(fs, Base(hex)) % WORD) == Utf8(Value(fs, Base(hex)) % WORD);
  }
}
