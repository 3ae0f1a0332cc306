// Reading numerals, by the tables of `Numerals`: integers in attribute values and texts, and the size lines of the
// chunked coding.
module IntegerNumerals {
  import opened Basics
  import opened XmlBytes
  import opened XmlIntegers
  import opened Numerals
  import ChunkedCoding
  import ChunkedGrammar

  lemma FigureIsDigit(f: Figure, base: nat)
    requires (base == 10 || base == 16) && f.value < base
    ensures Digit(Char(f), base) == f.value && !IsSpace(Char(f)) && !IsSign(Char(f)) && Char(f) != NUL
    ensures !ChunkedCoding.IsBlank(Char(f)) && Lower(Char(f)) != 'x' as int && Char(f) != LF
  {
    TablesAre(f.value);
  }

  lemma OnlyFiguresAreDigits(c: byte, base: nat)
    requires base == 10 || base == 16
    ensures Digit(c, base) >= 0 <==> InTable(c, base)
  {
    InTableIff(c, base);
  }

  lemma {:induction false} EndIs(s: seq<byte>, i: nat, e: nat, base: nat)
    requires (base == 10 || base == 16) && i <= e <= |s| && (e < |s| ==> Digit(s[e], base) < 0)
    requires forall k :: i <= k < e ==> Digit(s[k], base) >= 0
    ensures DigitsEnd(s, i, base) == e
    decreases e - i
  {
    if i < e { EndIs(s, i + 1, e, base); }
  }

  /** The figures stand in `s` from `i` on. */
  predicate StandAt(s: seq<byte>, i: nat, fs: seq<Figure>, base: nat) {
    && (base == 10 || base == 16) && Figures(fs, base) && i + |fs| <= |s|
    && forall k :: i <= k < i + |fs| ==> s[k] == Char(fs[k - i])
  }

  lemma {:induction false} NumberIs(s: seq<byte>, i: nat, fs: seq<Figure>, base: nat)
    requires StandAt(s, i, fs, base)
    ensures forall k :: i <= k < i + |fs| ==> Digit(s[k], base) >= 0
    ensures Number(s, i, i + |fs|, base) == Value(fs, base)
    decreases |fs|
  {
    forall k | i <= k < i + |fs| ensures Digit(s[k], base) >= 0 { FigureIsDigit(fs[k - i], base); }
    if fs != [] {
      NumberIs(s, i, fs[..|fs| - 1], base);
      FigureIsDigit(fs[|fs| - 1], base);
    }
  }

  /** And no other digit follows. */
  predicate EndsAt(s: seq<byte>, e: nat, base: nat)
    requires base <= 16
  {
    e < |s| ==> !InTable(s[e], base)
  }

  lemma {:induction false} DigitsAre(s: seq<byte>, i: nat, fs: seq<Figure>, base: nat)
    requires StandAt(s, i, fs, base) && EndsAt(s, i + |fs|, base)
    ensures DigitsEnd(s, i, base) == i + |fs| && Number(s, i, DigitsEnd(s, i, base), base) == Value(fs, base)
  {
    NumberIs(s, i, fs, base);
    if i + |fs| < |s| { OnlyFiguresAreDigits(s[i + |fs|], base); }
    EndIs(s, i, i + |fs|, base);
  }

  // ----- integers in strings -------------------------------------------------------------------------------

  const SPACES: seq<byte> := [SPACE, TAB, CR, LF]

  /** A number in a string: white space, perhaps a sign, perhaps the prefix `0x` or `0X`, and figures. */
  datatype Numeral = Numeral(spaces: seq<byte>, sign: Sign, prefix: Prefix, figures: seq<Figure>)

  datatype Sign = NoSign | Plus | Minus

  datatype Prefix = NoPrefix | SmallX | CapitalX

  function BaseOf(n: Numeral): nat {
    if n.prefix != NoPrefix then 16 else 10
  }

  predicate NumeralOk(n: Numeral) {
    (forall i :: 0 <= i < |n.spaces| ==> n.spaces[i] in SPACES) && Figures(n.figures, BaseOf(n))
  }

  function SignText(sign: Sign): seq<byte> {
    match sign
    case NoSign => []
    case Plus => [PLUS]
    case Minus => [MINUS]
  }

  function PrefixText(prefix: Prefix): seq<byte> {
    match prefix
    case NoPrefix => []
    case SmallX => [ZERO, 'x' as int]
    case CapitalX => [ZERO, 'X' as int]
  }

  function Front(n: Numeral): seq<byte> {
    n.spaces + SignText(n.sign) + PrefixText(n.prefix)
  }

  /** `rest` begins with something else than one more digit; and a lone zero is not followed by an X. */
  predicate Follows(n: Numeral, rest: seq<byte>)
    requires NumeralOk(n)
  {
    && rest != [] && !InTable(rest[0], BaseOf(n))
    && (n.figures == [] && n.prefix == NoPrefix ==> rest[0] !in SPACES && rest[0] !in [MINUS, PLUS])
    && (n.prefix == NoPrefix ==> rest[0] !in ['x' as int, 'X' as int])
  }

  function Written(n: Numeral, rest: seq<byte>): seq<byte>
    requires NumeralOk(n)
  {
    Front(n) + Chars(n.figures) + rest
  }

  function NumberOf(n: Numeral): int {
    if n.sign == Minus then 0 - Value(n.figures, BaseOf(n)) else Value(n.figures, BaseOf(n))
  }

  lemma {:induction false} SpacesSkipped(s: seq<byte>, i: nat, e: nat)
    requires i <= e < |s| && (forall k :: i <= k < e ==> s[k] in SPACES) && s[e] !in SPACES
    ensures SkipSpaces(s, i) == e
    decreases e - i
  {
    if i < e { SpacesSkipped(s, i + 1, e); }
  }

  lemma Placed(n: Numeral, rest: seq<byte>)
    requires NumeralOk(n)
    ensures var s, j := Written(n, rest), |Front(n)|;
      && StandAt(s, j, n.figures, BaseOf(n)) && |s| == j + |n.figures| + |rest|
      && (forall k :: 0 <= k < j ==> s[k] == Front(n)[k])
      && (forall k :: j + |n.figures| <= k < |s| ==> s[k] == rest[k - j - |n.figures|])
  {
    CharsAre(n.figures);
  }

  /** What comes after the spaces is none, and after the sign no other prefix. */
  lemma {:induction false} FrontIs(n: Numeral, rest: seq<byte>)
    requires NumeralOk(n) && Follows(n, rest)
    ensures var s, e := Written(n, rest), |n.spaces|;
      var j := if n.sign != NoSign then e + 1 else e;
      && SkipSpaces(s, 0) == e < |s| && j < |s|
      && (s[e] == MINUS <==> n.sign == Minus) && (s[e] == PLUS <==> n.sign == Plus)
      && (HasHexPrefix(s, j) <==> n.prefix != NoPrefix) && |Front(n)| == if n.prefix != NoPrefix then j + 2 else j
  {
    var s, e := Written(n, rest), |n.spaces|;
    var j := if n.sign != NoSign then e + 1 else e;
    Placed(n, rest);
    if n.figures != [] {
      FigureIsDigit(n.figures[0], BaseOf(n));
      assert s[|Front(n)|] == Char(n.figures[0]);
      if |n.figures| > 1 { FigureIsDigit(n.figures[1], BaseOf(n)); }
    }
    assert forall k :: 0 <= k < e ==> s[k] == n.spaces[k];
    FirstBehindSpaces(n, rest);
    SpacesSkipped(s, 0, e);
    SecondByte(n, rest, j);
  }

  lemma {:induction false} FirstBehindSpaces(n: Numeral, rest: seq<byte>)
    requires NumeralOk(n) && Follows(n, rest)
    ensures var s, e := Written(n, rest), |n.spaces|;
      && e < |s| && s[e] !in SPACES
      && (s[e] == MINUS <==> n.sign == Minus) && (s[e] == PLUS <==> n.sign == Plus)
  {
    var s, e := Written(n, rest), |n.spaces|;
    Placed(n, rest);
    if n.figures != [] { FigureIsDigit(n.figures[0], BaseOf(n)); }
    if n.sign != NoSign {
      assert s[e] == Front(n)[e];
    } else if n.prefix != NoPrefix {
      assert s[e] == Front(n)[e] == ZERO;
    } else if n.figures != [] {
      assert s[e] == Char(n.figures[0]);
    } else {
      assert s[e] == rest[0];
    }
  }

  lemma {:induction false} SecondByte(n: Numeral, rest: seq<byte>, j: nat)
    requires NumeralOk(n) && Follows(n, rest) && j == if n.sign != NoSign then |n.spaces| + 1 else |n.spaces|
    ensures HasHexPrefix(Written(n, rest), j) <==> n.prefix != NoPrefix
  {
    Placed(n, rest);
    ZeroInTable(BaseOf(n));
    PrefixIs(Written(n, rest), j, n.figures, rest, n.prefix, BaseOf(n));
  }

  lemma ZeroInTable(base: nat)
    requires 0 < base <= 16
    ensures InTable(ZERO, base)
  {
    assert SMALL[0] as int == ZERO;
  }

  /** Whether the prefix stands at `j`, in front of figures and `rest`. */
  lemma {:induction false} PrefixIs(s: seq<byte>, j: nat, fs: seq<Figure>, rest: seq<byte>, prefix: Prefix,
                                    base: nat)
    requires var f := if prefix != NoPrefix then j + 2 else j;
      && StandAt(s, f, fs, base) && |s| == f + |fs| + |rest|
      && forall k :: f + |fs| <= k < |s| ==> s[k] == rest[k - f - |fs|]
    requires prefix != NoPrefix ==> s[j] == ZERO && s[j + 1] == if prefix.CapitalX? then 'X' as int else 'x' as int
    requires prefix == NoPrefix && rest != [] ==> rest[0] !in ['x' as int, 'X' as int] && (fs == [] ==> rest[0] != ZERO)
    ensures HasHexPrefix(s, j) <==> prefix != NoPrefix
  {
    if prefix == NoPrefix && |fs| > 1 {
      FigureIsDigit(fs[1], base);
    } else if prefix == NoPrefix && |fs| == 1 && rest != [] {
      assert s[j + 1] == rest[0];
    } else if prefix == NoPrefix && fs == [] && rest != [] {
      assert s[j] == rest[0];
    }
  }

  /** A numeral means its number, whatever letters stand for its digits. */
  lemma {:induction false} NumeralMeans(n: Numeral, rest: seq<byte>)
    requires NumeralOk(n) && Follows(n, rest)
    ensures Meaning(Written(n, rest)) == NumberOf(n)
    ensures Negative(Written(n, rest)) <==> n.sign == Minus
  {
    var s, e := Written(n, rest), |n.spaces|;
    var j := if n.sign != NoSign then e + 1 else e;
    FrontIs(n, rest);
    Placed(n, rest);
    assert s[|Front(n)| + |n.figures|] == rest[0];
    MeaningIs(s, e, j, n);
  }

  lemma {:induction false} MeaningIs(s: seq<byte>, e: nat, j: nat, n: Numeral)
    requires SkipSpaces(s, 0) == e < |s| && j == (if n.sign != NoSign then e + 1 else e) && j < |s|
    requires (s[e] == MINUS <==> n.sign == Minus) && (s[e] == PLUS <==> n.sign == Plus)
    requires var f := if n.prefix != NoPrefix then j + 2 else j;
      StandAt(s, f, n.figures, BaseOf(n)) && EndsAt(s, f + |n.figures|, BaseOf(n))
    requires HasHexPrefix(s, j) <==> n.prefix != NoPrefix
    ensures Meaning(s) == NumberOf(n) && (Negative(s) <==> n.sign == Minus)
  {
    MagnitudeIs(s, j, n.figures, n.prefix != NoPrefix);
    MeaningUnfolded(s, e, j, Value(n.figures, BaseOf(n)));
  }

  lemma MeaningUnfolded(s: seq<byte>, e: nat, j: nat, v: nat)
    requires SkipSpaces(s, 0) == e < |s| && j == (if IsSign(s[e]) then e + 1 else e) && Magnitude(s, j) == v
    ensures Meaning(s) == (if s[e] == MINUS then 0 - v else v) && (Negative(s) <==> s[e] == MINUS)
  {
  }

  lemma {:induction false} MagnitudeIs(s: seq<byte>, j: nat, fs: seq<Figure>, prefix: bool)
    requires j < |s| && HasHexPrefix(s, j) == prefix
    requires var f, base := if prefix then j + 2 else j, if prefix then 16 else 10;
      StandAt(s, f, fs, base) && EndsAt(s, f + |fs|, base)
    ensures Magnitude(s, j) == Value(fs, if prefix then 16 else 10)
  {
    if prefix { DigitsAre(s, j + 2, fs, 16); } else { DigitsAre(s, j, fs, 10); }
  }

  /** Reading a numeral gives its number if that fits, and otherwise the end of the range it lies behind. The range is
      given as it is to the program, its lower end modulo the width. */
  method ReadNumeral(n: Numeral, rest: seq<byte>, w: nat, minv: nat, maxv: nat) returns (r: nat)
    requires NumeralOk(n) && Follows(n, rest) && rest[|rest| - 1] == NUL
    requires w in {32, 64} && minv < Modulus(w) && maxv < Modulus(w)
    ensures var v, low := NumberOf(n), if minv == 0 then 0 else minv - Modulus(w);
      && (v < low ==> r == minv) && (low <= maxv < v ==> r == maxv) && (low <= v <= maxv ==> r == v % Modulus(w))
  {
    NumeralMeans(n, rest);
    r := StringToInteger(Written(n, rest), w, minv, maxv);
    Range(0, Modulus(w), minv, maxv);
  }

  // ----- size lines ----------------------------------------------------------------------------------------

  /** Hexadecimal figures, small or capital, are a size of the standard. */
  lemma {:induction false} FiguresAreASize(fs: seq<Figure>)
    requires fs != [] && Figures(fs, 16)
    ensures ChunkedGrammar.IsSize(Chars(fs), Value(fs, 16))
  {
    CharsAre(fs);
    DigitsAre(Chars(fs), 0, fs, 16);
    NumberIs(Chars(fs), 0, fs, 16);
  }

  /** And a line of them is read for that size, up to the largest number. */
  lemma {:induction false} SizeLineRead(fs: seq<Figure>, ext: seq<byte>)
    requires fs != [] && Figures(fs, 16) && ChunkedGrammar.IsExtension(ext)
    ensures ChunkedCoding.StrToUl(ChunkedCoding.CString(Chars(fs) + ext + ChunkedCoding.CRLF)) ==
            Some(Min(Value(fs, 16), ChunkedCoding.ULONG_MAX))
  {
    FiguresAreASize(fs);
    ChunkedGrammar.StandardSize(Chars(fs), ext, Value(fs, 16));
  }

  const BLANKS: seq<byte> := [SPACE, TAB, LF, 11, 12, CR]

  /** What the C library reads in base 16: blanks, perhaps a sign, perhaps the prefix, and figures. */
  predicate LongOk(n: Numeral) {
    (forall i :: 0 <= i < |n.spaces| ==> n.spaces[i] in BLANKS) && Figures(n.figures, 16) && n.figures != []
  }

  function LongWritten(n: Numeral, rest: seq<byte>): seq<byte>
    requires LongOk(n)
  {
    Front(n) + Chars(n.figures) + rest
  }

  lemma {:induction false} BlanksSkipped(s: seq<byte>, i: nat, e: nat)
    requires i <= e < |s| && (forall k :: i <= k < e ==> s[k] in BLANKS) && s[e] !in BLANKS
    ensures ChunkedCoding.SkipBlanks(s, i) == e
    decreases e - i
  {
    if i < e { BlanksSkipped(s, i + 1, e); }
  }

  lemma {:induction false} LongPlaced(n: Numeral, rest: seq<byte>)
    requires LongOk(n) && (rest == [] || rest[0] !in ['x' as int, 'X' as int])
    ensures var s, e, f := LongWritten(n, rest), |n.spaces|, |Front(n)|;
      && StandAt(s, f, n.figures, 16) && |s| == f + |n.figures| + |rest|
      && (forall k :: f + |n.figures| <= k < |s| ==> s[k] == rest[k - f - |n.figures|])
      && (forall k :: 0 <= k < e ==> s[k] in BLANKS) && s[e] !in BLANKS
      && (s[e] == MINUS <==> n.sign == Minus) && (s[e] == PLUS <==> n.sign == Plus)
      && (forall k :: 0 <= k < f ==> s[k] == Front(n)[k])
  {
    var s, e, f := LongWritten(n, rest), |n.spaces|, |Front(n)|;
    CharsAre(n.figures);
    FigureIsDigit(n.figures[0], 16);
    assert s[f] == Char(n.figures[0]);
    if e < f { assert s[e] == Front(n)[e]; }
    assert forall k :: 0 <= k < e ==> s[k] == n.spaces[k];
  }

  lemma {:induction false} LongStart(n: Numeral, rest: seq<byte>)
    requires LongOk(n) && (rest == [] || rest[0] !in ['x' as int, 'X' as int])
    ensures var s, j := LongWritten(n, rest), |n.spaces| + if n.sign != NoSign then 1 else 0;
      ChunkedCoding.HexStart(s, j) == |Front(n)|
  {
    var j := |n.spaces| + if n.sign != NoSign then 1 else 0;
    LongPlaced(n, rest);
    StartIs(LongWritten(n, rest), j, n.figures, rest, n.prefix);
  }

  lemma {:induction false} StartIs(s: seq<byte>, j: nat, fs: seq<Figure>, rest: seq<byte>, prefix: Prefix)
    requires var f := if prefix != NoPrefix then j + 2 else j;
      && fs != [] && StandAt(s, f, fs, 16) && |s| == f + |fs| + |rest|
      && forall k :: f + |fs| <= k < |s| ==> s[k] == rest[k - f - |fs|]
    requires prefix != NoPrefix ==> s[j] == ZERO && s[j + 1] == if prefix.CapitalX? then 'X' as int else 'x' as int
    requires prefix == NoPrefix && rest != [] ==> rest[0] !in ['x' as int, 'X' as int]
    ensures ChunkedCoding.HexStart(s, j) == if prefix != NoPrefix then j + 2 else j
  {
    FigureIsDigit(fs[0], 16);
    PrefixIs(s, j, fs, rest, prefix, 16);
    if prefix != NoPrefix { assert s[j + 2] == Char(fs[0]); }
  }

  lemma {:induction false} LongParts(n: Numeral, rest: seq<byte>)
    requires LongOk(n) && (rest == [] || (!InTable(rest[0], 16) && rest[0] !in ['x' as int, 'X' as int]))
    ensures var s, e, f := LongWritten(n, rest), |n.spaces|, |Front(n)|;
      && ChunkedCoding.SkipBlanks(s, 0) == e < |s| && f <= |s|
      && (s[e] == MINUS <==> n.sign == Minus) && (s[e] == PLUS <==> n.sign == Plus)
      && DigitsEnd(s, f, 16) == f + |n.figures|
      && Number(s, f, DigitsEnd(s, f, 16), 16) == Value(n.figures, 16)
  {
    var s, f := LongWritten(n, rest), |Front(n)|;
    LongPlaced(n, rest);
    BlanksSkipped(s, 0, |n.spaces|);
    if rest != [] { assert s[f + |n.figures|] == rest[0]; }
    DigitsAre(s, f, n.figures, 16);
  }

  /** The number, up to the largest one; a minus sign negates modulo 2^64. */
  lemma {:induction false} LongMeans(n: Numeral, rest: seq<byte>)
    requires LongOk(n) && (rest == [] || (!InTable(rest[0], 16) && rest[0] !in ['x' as int, 'X' as int]))
    ensures var v := Value(n.figures, 16);
      ChunkedCoding.StrToUl(LongWritten(n, rest)) ==
      Some(if v > ChunkedCoding.ULONG_MAX then ChunkedCoding.ULONG_MAX
           else if n.sign == Minus && v > 0 then ChunkedCoding.ULONG_MAX + 1 - v else v)
  {
    LongParts(n, rest);
    LongStart(n, rest);
    LongUnfolded(LongWritten(n, rest), |n.spaces|, |Front(n)|, |n.figures|, Value(n.figures, 16));
  }

  lemma LongUnfolded(s: seq<byte>, e: nat, f: nat, k: nat, v: nat)
    requires ChunkedCoding.SkipBlanks(s, 0) == e < |s|
    requires ChunkedCoding.HexStart(s, if IsSign(s[e]) then e + 1 else e) == f
    requires k > 0 && DigitsEnd(s, f, 16) == f + k && Number(s, f, f + k, 16) == v
    ensures ChunkedCoding.StrToUl(s) ==
            Some(if v > ChunkedCoding.ULONG_MAX then ChunkedCoding.ULONG_MAX
                 else if s[e] == MINUS && v > 0 then ChunkedCoding.ULONG_MAX + 1 - v else v)
  {
  }
}
