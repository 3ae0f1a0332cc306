// What a run of character data or an attribute value means depends on its bytes alone, not on where it stands or
// what follows.
module XmlLocal {
  import opened Basics
  import opened XmlBytes
  import opened XmlText
  import opened XmlEscape

  ghost predicate Proper(m: Mode) {
    m.AttrText? ==> m.quote == QUOT || m.quote == APOS
  }

  /** The bytes `k` behind `i` and `j` are the same, and end no run. */
  ghost predicate Agree(m: Mode, t: seq<byte>, i: nat, u: seq<byte>, j: nat, k: nat) {
    At(t, i + k) == At(u, j + k) && !Ends(m, At(t, i + k))
  }

  /** The same `n` bytes of a run stand at `i` and at `j`, and both end there. */
  ghost predicate Alike(m: Mode, t: seq<byte>, i: nat, u: seq<byte>, j: nat, n: nat) {
    && i + n < |t| && j + n < |u| && Ends(m, t[i + n]) && Ends(m, u[j + n])
    && forall k: nat {:trigger Agree(m, t, i, u, j, k)} :: k < n ==> Agree(m, t, i, u, j, k)
  }

  lemma AlikeFrom(m: Mode, t: seq<byte>, i: nat, u: seq<byte>, j: nat, n: nat, k: nat)
    requires Alike(m, t, i, u, j, n) && k <= n
    ensures Alike(m, t, i + k, u, j + k, n - k)
  {
    forall l: nat {:trigger Agree(m, t, i + k, u, j + k, l)} | l < n - k ensures Agree(m, t, i + k, u, j + k, l) {
      assert Agree(m, t, i, u, j, k + l);
    }
  }

  lemma SameHere(m: Mode, t: seq<byte>, i: nat, u: seq<byte>, j: nat, n: nat)
    requires Alike(m, t, i, u, j, n) && n > 0
    ensures t[i] == u[j] && !Ends(m, t[i])
  {
    assert Agree(m, t, i, u, j, 0);
  }

  /** Whether a byte that ends no run stands in both places. */
  lemma SameByte(m: Mode, t: seq<byte>, i: nat, u: seq<byte>, j: nat, n: nat, k: nat, c: byte)
    requires Alike(m, t, i, u, j, n) && k <= n && !Ends(m, c)
    ensures At(t, i + k) == c <==> At(u, j + k) == c
    ensures At(t, i + k) == c ==> k < n
  {
    if k < n { assert Agree(m, t, i, u, j, k); }
  }

  lemma {:induction false} SameStop(m: Mode, t: seq<byte>, i: nat, u: seq<byte>, j: nat, n: nat, w: seq<byte>)
    requires Alike(m, t, i, u, j, n) && forall k :: 0 <= k < |w| ==> w[k] != NUL && !Ends(m, w[k])
    ensures Stop(t, i, w) - i == Stop(u, j, w) - j <= n
    decreases |w|
  {
    if w != [] {
      SameByte(m, t, i, u, j, n, 0, w[0]);
      if At(t, i) == w[0] {
        AlikeFrom(m, t, i, u, j, n, 1);
        SameStop(m, t, i + 1, u, j + 1, n - 1, w[1..]);
      }
    }
  }

  lemma {:induction false} SameDigits(m: Mode, t: seq<byte>, i: nat, u: seq<byte>, j: nat, n: nat, hex: bool)
    requires Proper(m) && Alike(m, t, i, u, j, n)
    ensures DigitsEnd(t, i, hex) - i == DigitsEnd(u, j, hex) - j <= n
    decreases n
  {
    if n == 0 {
      assert !IsDigitOf(t[i], hex) && !IsDigitOf(u[j], hex);
    } else {
      SameHere(m, t, i, u, j, n);
      AlikeFrom(m, t, i, u, j, n, 1);
      SameDigits(m, t, i + 1, u, j + 1, n - 1, hex);
    }
  }

  lemma {:induction false} SameNumber(m: Mode, t: seq<byte>, i: nat, u: seq<byte>, j: nat, n: nat, k: nat, hex: bool,
                                      acc: nat)
    requires Alike(m, t, i, u, j, n) && k <= n && acc < WORD
    ensures Number(t, i, i + k, hex, acc) == Number(u, j, j + k, hex, acc)
    decreases k
  {
    if k > 0 {
      SameHere(m, t, i, u, j, n);
      AlikeFrom(m, t, i, u, j, n, 1);
      SameNumber(m, t, i + 1, u, j + 1, n - 1, k - 1, hex, ((if hex then 16 else 10) * acc + DigitValue(t[i])) % WORD);
    }
  }

  lemma {:induction false} SameSpaces(m: Mode, t: seq<byte>, i: nat, u: seq<byte>, j: nat, n: nat)
    requires Proper(m) && Alike(m, t, i, u, j, n)
    ensures SpacesEnd(t, i) - i == SpacesEnd(u, j) - j <= n
    decreases n
  {
    if n == 0 {
      assert !IsSpace(t[i]) && !IsSpace(u[j]);
    } else {
      SameHere(m, t, i, u, j, n);
      AlikeFrom(m, t, i, u, j, n, 1);
      SameSpaces(m, t, i + 1, u, j + 1, n - 1);
    }
  }

  /** A piece of one run, at another place. */
  function Moved(p: Piece, i: nat, j: nat): Piece
    requires p.end >= i
  {
    Piece(p.end - i + j, p.out)
  }

  lemma SameSlice(m: Mode, t: seq<byte>, i: nat, u: seq<byte>, j: nat, n: nat, k: nat)
    requires Alike(m, t, i, u, j, n) && k <= n
    ensures t[i..i + k] == u[j..j + k]
  {
    var a, b := t[i..i + k], u[j..j + k];
    forall l | 0 <= l < k ensures a[l] == b[l] { assert Agree(m, t, i, u, j, l); }
  }

  lemma SameKind(m: Mode, t: seq<byte>, i: nat, u: seq<byte>, j: nat, n: nat)
    requires Proper(m) && Alike(m, t, i, u, j, n) && n > 0 && t[i] == AMP
    ensures u[j] == AMP && match KindAt(t, i)
      case Code(a, hex) => a <= i + n && a > i && KindAt(u, j) == Code(a - i + j, hex)
      case Entity(a, w, c) => a <= i + n && a > i && KindAt(u, j) == Entity(a - i + j, w, c) &&
        forall k :: 0 <= k < |w| ==> w[k] != NUL && !Ends(m, w[k])
      case Neither(e) => e <= i + n && KindAt(u, j) == Neither(e - i + j)
  {
    SameByte(m, t, i, u, j, n, 0, AMP);
    SameByte(m, t, i, u, j, n, 1, HASH);
    SameByte(m, t, i, u, j, n, 1, 'a' as int);
    SameByte(m, t, i, u, j, n, 1, 'g' as int);
    SameByte(m, t, i, u, j, n, 1, 'l' as int);
    SameByte(m, t, i, u, j, n, 1, 'q' as int);
    if n > 1 {
      SameByte(m, t, i, u, j, n, 2, 'x' as int);
      SameByte(m, t, i, u, j, n, 2, 'm' as int);
      SameByte(m, t, i, u, j, n, 2, 'p' as int);
    }
  }

  lemma {:induction false} SameReference(m: Mode, t: seq<byte>, i: nat, u: seq<byte>, j: nat, n: nat)
    requires Proper(m) && Alike(m, t, i, u, j, n) && n > 0 && t[i] == AMP
    ensures u[j] == AMP && Reference(t, i).end <= i + n && Reference(u, j) == Moved(Reference(t, i), i, j)
  {
    SameKind(m, t, i, u, j, n);
    match KindAt(t, i)
    case Code(a, hex) => SameCode(m, t, i, u, j, n, a, hex);
    case Entity(a, w, c) => SameEntity(m, t, i, u, j, n, a, w, c);
    case Neither(e) => SameSlice(m, t, i, u, j, n, e - i);
  }

  lemma {:induction false} SameCode(m: Mode, t: seq<byte>, i: nat, u: seq<byte>, j: nat, n: nat, a: nat, hex: bool)
    requires Proper(m) && Alike(m, t, i, u, j, n) && n > 0 && t[i] == AMP && u[j] == AMP && i < a <= i + n
    requires KindAt(t, i) == Code(a, hex) && KindAt(u, j) == Code(a - i + j, hex)
    ensures Reference(t, i).end <= i + n && Reference(u, j) == Moved(Reference(t, i), i, j)
  {
    AlikeFrom(m, t, i, u, j, n, a - i);
    SameNumeric(m, t, i, u, j, n, a, hex);
    ReferenceIsCode(t, i);
    ReferenceIsCode(u, j);
  }

  lemma {:induction false} SameEntity(m: Mode, t: seq<byte>, i: nat, u: seq<byte>, j: nat, n: nat, a: nat,
                                      w: seq<byte>, c: byte)
    requires Alike(m, t, i, u, j, n) && n > 0 && t[i] == AMP && u[j] == AMP && i < a <= i + n
    requires KindAt(t, i) == Entity(a, w, c) && KindAt(u, j) == Entity(a - i + j, w, c)
    requires forall k :: 0 <= k < |w| ==> w[k] != NUL && !Ends(m, w[k])
    ensures Reference(t, i).end <= i + n && Reference(u, j) == Moved(Reference(t, i), i, j)
  {
    AlikeFrom(m, t, i, u, j, n, a - i);
    SameNamed(m, t, i, u, j, n, a, w, c);
    ReferenceIsNamed(t, i);
    ReferenceIsNamed(u, j);
  }

  lemma ReferenceIsCode(t: seq<byte>, i: nat)
    requires i < |t| && t[i] == AMP && KindAt(t, i).Code?
    ensures var k := KindAt(t, i); i <= k.at <= |t| && Reference(t, i) == Numeric(t, i, k.at, k.hex)
  {
    KindStaysBefore(t, i, |t|);
  }

  lemma ReferenceIsNamed(t: seq<byte>, i: nat)
    requires i < |t| && t[i] == AMP && KindAt(t, i).Entity?
    ensures var k := KindAt(t, i);
      && i <= k.at <= |t| && (forall l :: 0 <= l < |k.rest| ==> k.rest[l] != NUL)
      && Reference(t, i) == Named(t, i, k.at, k.rest, k.c)
  {
    KindStaysBefore(t, i, |t|);
  }

  lemma {:induction false} SameNamed(m: Mode, t: seq<byte>, i: nat, u: seq<byte>, j: nat, n: nat, a: nat, w: seq<byte>,
                                     c: byte)
    requires Alike(m, t, i, u, j, n) && i <= a <= i + n && Alike(m, t, a, u, a - i + j, n - (a - i))
    requires forall k :: 0 <= k < |w| ==> w[k] != NUL && !Ends(m, w[k])
    ensures var p := Named(t, i, a, w, c); i <= p.end <= i + n && Named(u, j, a - i + j, w, c) == Moved(p, i, j)
  {
    SameStop(m, t, a, u, a - i + j, n - (a - i), w);
    SameSlice(m, t, i, u, j, n, Stop(t, a, w) - i);
  }

  lemma {:induction false} SameNumeric(m: Mode, t: seq<byte>, i: nat, u: seq<byte>, j: nat, n: nat, a: nat, hex: bool)
    requires Proper(m) && Alike(m, t, i, u, j, n) && i <= a <= i + n && Alike(m, t, a, u, a - i + j, n - (a - i))
    ensures var p := Numeric(t, i, a, hex); i <= p.end <= i + n && Numeric(u, j, a - i + j, hex) == Moved(p, i, j)
  {
    var b, left := a - i + j, n - (a - i);
    SameDigits(m, t, a, u, b, left, hex);
    var e := DigitsEnd(t, a, hex);
    SameNumber(m, t, a, u, b, left, e - a, hex, 0);
    SameByte(m, t, a, u, b, left, e - a, SEMI);
    SameSlice(m, t, i, u, j, n, e - i);
  }

  lemma {:induction false} SamePlainStep(m: Mode, t: seq<byte>, i: nat, u: seq<byte>, j: nat, n: nat)
    requires Proper(m) && Alike(m, t, i, u, j, n) && n > 0 && t[i] != AMP && u[j] == t[i] && !Ends(m, t[i])
    ensures Step(m, t, i).end <= i + n && Step(m, u, j) == Moved(Step(m, t, i), i, j)
  {
    SameByte(m, t, i, u, j, n, 1, LF);
    AlikeFrom(m, t, i, u, j, n, 1);
    SameSpaces(m, t, i + 1, u, j + 1, n - 1);
  }

  lemma {:induction false} SameStep(m: Mode, t: seq<byte>, i: nat, u: seq<byte>, j: nat, n: nat)
    requires Proper(m) && Alike(m, t, i, u, j, n) && n > 0
    ensures !Ends(m, t[i]) && !Ends(m, u[j])
    ensures Step(m, t, i).end <= i + n && Step(m, u, j) == Moved(Step(m, t, i), i, j)
  {
    SameHere(m, t, i, u, j, n);
    if t[i] == AMP {
      SameReference(m, t, i, u, j, n);
    } else {
      SamePlainStep(m, t, i, u, j, n);
    }
  }

  /** What both runs give. */
  lemma {:induction false} SameRun(m: Mode, t: seq<byte>, i: nat, u: seq<byte>, j: nat, n: nat) returns (out: seq<byte>)
    requires Proper(m) && Alike(m, t, i, u, j, n)
    ensures Reads(m, t, i, i + n, out) && Reads(m, u, j, j + n, out)
    decreases n
  {
    if n == 0 {
      out := [];
      assert ReadsForm(m, t, i, i, [], 0) && ReadsForm(m, u, j, j, [], 0);
    } else {
      SameHere(m, t, i, u, j, n);
      SameStep(m, t, i, u, j, n);
      var p := Step(m, t, i);
      var k := p.end - i;
      AlikeFrom(m, t, i, u, j, n, k);
      var rest := SameRun(m, t, i + k, u, j + k, n - k);
      ReadsMore(m, t, i, i + k, i + n, p.out, rest);
      ReadsMore(m, u, j, j + k, j + n, p.out, rest);
      out := p.out + rest;
    }
  }
}
