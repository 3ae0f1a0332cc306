// Decoding text in place: the parser's buffer is rewritten behind the reading position.
//
// Removed bytes leave a gap between what has been written and what is still to be read; the gap is
// closed lazily, when the next one opens or at the end.
module XmlDecode {
  import opened Basics
  import opened XmlBytes
  import opened XmlText

  /** `n` is `o` changed at most between `i` and `j`. */
  ghost predicate SameOutside(o: seq<byte>, n: seq<byte>, i: nat, j: nat) {
    i <= j <= |o| == |n| && n[..i] == o[..i] && n[j..] == o[j..]
  }

  /** What moving the bytes behind a gap does to the buffer. */
  ghost predicate Moved(o: seq<byte>, n: seq<byte>, dst: nat, src: nat, len: nat)
    requires |o| == |n| && dst <= src && src + len <= |o|
  {
    forall i :: 0 <= i < |n| ==> n[i] == o[if dst <= i < dst + len then src + (i - dst) else i]
  }

  lemma Collapsed(o: seq<byte>, n: seq<byte>, begin: nat, size: nat, e: nat, s: nat)
    requires |o| == |n| && begin + size <= e <= s <= |o| && Moved(o, n, e - size, e, s - e)
    ensures n[begin..s - size] == o[begin..e - size] + o[e..s]
    ensures SameOutside(o, n, begin, s)
  {
  }

  method MemMove(a: array<byte>, dst: nat, src: nat, n: nat)
    requires dst <= src && src + n <= a.Length
    modifies a
    ensures Moved(old(a[..]), a[..], dst, src, n)
  {
    forall i | 0 <= i < n {
      a[dst + i] := a[src + i];
    }
  }

  method Collapse(a: array<byte>, e: nat, size: nat, s: nat, ghost begin: nat)
    requires begin + size <= e <= s <= a.Length
    modifies a
    ensures a[..][begin..s - size] == old(a[..])[begin..e - size] + old(a[..])[e..s]
    ensures SameOutside(old(a[..]), a[..], begin, s)
  {
    MemMove(a, e - size, e, s - e);
    Collapsed(old(a[..]), a[..], begin, size, e, s);
  }

  class Gap {
    var end: Option<nat>
    var size: nat

    constructor ()
      ensures end == None && size == 0
    {
      end, size := None, 0;
    }

    ghost predicate Valid(begin: nat, s: nat)
      reads this
    {
      begin <= s && match end
        case None => size == 0
        case Some(e) => begin + size <= e <= s
    }

    /** The text decoded so far: what lies before the gap and what lies behind it. */
    ghost function Kept(t: seq<byte>, begin: nat, s: nat): seq<byte>
      requires Valid(begin, s) && s <= |t|
      reads this
    {
      if end == None then t[begin..s] else t[begin..end.value - size] + t[end.value..s]
    }

    /** Closes the gap that is open, and opens one of `count` bytes at `s`. */
    method Push(a: array<byte>, s: nat, count: nat, ghost begin: nat) returns (s': nat)
      requires Valid(begin, s) && s + count <= a.Length
      modifies a, this
      ensures s' == s + count && Valid(begin, s') && Kept(a[..], begin, s') == old(Kept(a[..], begin, s))
      ensures SameOutside(old(a[..]), a[..], begin, s)
    {
      if end.Some? {
        Collapse(a, end.value, size, s, begin);
      }
      ghost var n := a[..];
      assert n[begin..s - size] == old(Kept(a[..], begin, s));
      s' := s + count;
      end := Some(s');
      size := size + count;
      assert a[..] == n && s' - size == s - old(size);
      assert n[begin..s' - size] + n[s'..s'] == n[begin..s' - size];
    }

    /** Closes the gap; the text decoded ends at `e`. */
    method Flush(a: array<byte>, s: nat, ghost begin: nat) returns (e: nat)
      requires Valid(begin, s) && s <= a.Length
      modifies a
      ensures begin <= e <= s && a[..][begin..e] == old(Kept(a[..], begin, s))
      ensures SameOutside(old(a[..]), a[..], begin, s)
    {
      if end.Some? {
        Collapse(a, end.value, size, s, begin);
        return s - size;
      } else {
        return s;
      }
    }
  }

  // ----- the state of a decoding loop -----------------------------------------------------------------

  /** The buffer `t`, once `o`, has been read up to `s`; `done` is the text decoded since `begin`, and neither
      what came before nor what is still to be read has been touched. */
  ghost predicate Reading(g: Gap, t: seq<byte>, o: seq<byte>, begin: nat, s: nat, done: seq<byte>)
    reads g
  {
    && g.Valid(begin, s) && s <= |t| == |o| && t[..begin] == o[..begin] && t[s..] == o[s..]
    && g.Kept(t, begin, s) == done
  }

  lemma Accept(g: Gap, t: seq<byte>, o: seq<byte>, begin: nat, s: nat, s': nat, done: seq<byte>)
    requires Reading(g, t, o, begin, s, done) && s <= s' <= |t|
    ensures Reading(g, t, o, begin, s', done + o[s..s'])
  {
    assert t[s..s'] == t[s..][..s' - s] == o[s..s'];
    assert t[s'..] == t[s..][s' - s..] == o[s..][s' - s..] == o[s'..];
    if g.end == None {
      assert t[begin..s'] == t[begin..s] + t[s..s'];
    } else {
      assert t[g.end.value..s'] == t[g.end.value..s] + t[s..s'];
    }
  }

  /** `u` is written over the next bytes. */
  lemma Wrote(g: Gap, t: seq<byte>, n: seq<byte>, o: seq<byte>, begin: nat, s: nat, u: seq<byte>, done: seq<byte>)
    requires Reading(g, t, o, begin, s, done) && s + |u| <= |t| && n == t[..s] + u + t[s + |u|..]
    ensures Reading(g, n, o, begin, s + |u|, done + u)
  {
    var s' := s + |u|;
    assert n[s'..] == t[s'..] == t[s..][|u|..] == o[s..][|u|..] == o[s'..];
    assert n[..begin] == t[..begin];
    if g.end == None {
      assert n[begin..s'] == t[begin..s] + u;
    } else {
      assert n[begin..g.end.value - g.size] == t[begin..g.end.value - g.size];
      assert n[g.end.value..s'] == t[g.end.value..s] + u;
    }
  }

  /** Bytes from `s` to `e` are skipped. */
  method Skip(a: array<byte>, s: nat, e: nat, g: Gap, ghost o: seq<byte>, ghost begin: nat, ghost done: seq<byte>)
    returns (s': nat)
    requires Reading(g, a[..], o, begin, s, done) && s <= e <= a.Length
    modifies a, g
    ensures s' == e && Reading(g, a[..], o, begin, e, done)
  {
    s' := g.Push(a, s, e - s, begin);
    SkipKeeps(old(a[..]), a[..], o, begin, s, e);
  }

  lemma SkipKeeps(t: seq<byte>, n: seq<byte>, o: seq<byte>, begin: nat, s: nat, e: nat)
    requires SameOutside(t, n, begin, s) && |t| == |o| && t[..begin] == o[..begin] && t[s..] == o[s..] && s <= e <= |o|
    ensures n[..begin] == o[..begin] && n[e..] == o[e..]
  {
    assert n[e..] == n[s..][e - s..];
    assert o[e..] == o[s..][e - s..];
  }

  /** Stores one byte and steps over it. */
  method Put(a: array<byte>, s: nat, c: byte, ghost g: Gap, ghost o: seq<byte>, ghost begin: nat,
             ghost done: seq<byte>) returns (s': nat)
    requires Reading(g, a[..], o, begin, s, done) && s < a.Length
    modifies a
    ensures s' == s + 1 && Reading(g, a[..], o, begin, s', done + [c])
  {
    a[s] := c;
    s' := s + 1;
    assert a[..] == old(a[..])[..s] + [c] + old(a[..])[s + 1..];
    Wrote(g, old(a[..]), a[..], o, begin, s, [c], done);
  }

  method WriteLow(a: array<byte>, s: nat, ch: nat) returns (s': nat)
    requires ch < 0x10000 && s + |Utf8(ch)| <= a.Length
    modifies a
    ensures s' == s + |Utf8(ch)| && a[..] == old(a[..])[..s] + Utf8(ch) + old(a[..])[s'..]
  {
    if ch < 0x80 {
      a[s] := ch;
      s' := s + 1;
    } else if ch < 0x800 {
      a[s] := 0xC0 + ch / 64;
      a[s + 1] := 0x80 + ch % 64;
      s' := s + 2;
    } else {
      a[s] := 0xE0 + ch / 4096;
      a[s + 1] := 0x80 + ch / 64 % 64;
      a[s + 2] := 0x80 + ch % 64;
      s' := s + 3;
    }
  }

  method WriteHigh(a: array<byte>, s: nat, ch: nat) returns (s': nat)
    requires 0x10000 <= ch < WORD && s + 4 <= a.Length
    modifies a
    ensures s' == s + 4 && a[..] == old(a[..])[..s] + Utf8(ch) + old(a[..])[s'..]
  {
    a[s] := 0xF0 + ch / 0x40000 % 16;
    a[s + 1] := 0x80 + ch / 4096 % 64;
    a[s + 2] := 0x80 + ch / 64 % 64;
    a[s + 3] := 0x80 + ch % 64;
    s' := s + 4;
  }

  /** The UTF-8 writer. */
  method WriteUtf8(a: array<byte>, s: nat, ch: nat) returns (s': nat)
    requires ch < WORD && s + |Utf8(ch)| <= a.Length
    modifies a
    ensures s' == s + |Utf8(ch)| && a[..] == old(a[..])[..s] + Utf8(ch) + old(a[..])[s'..]
  {
    if ch < 0x10000 {
      s' := WriteLow(a, s, ch);
    } else {
      s' := WriteHigh(a, s, ch);
    }
  }

  // ----- references ------------------------------------------------------------------------------------

  /** The piece `p` at `s` has been decoded. */
  ghost predicate Decoded(g: Gap, t: seq<byte>, o: seq<byte>, begin: nat, p: Piece, stre: nat, done: seq<byte>)
    reads g
  {
    stre == p.end && Reading(g, t, o, begin, stre, done + p.out)
  }

  method StrconvEntity(a: array<byte>, s: nat, stre: nat, c: byte, g: Gap, ghost o: seq<byte>, ghost begin: nat,
                       ghost done: seq<byte>)
    returns (e: nat)
    requires Reading(g, a[..], o, begin, s, done) && s < stre <= a.Length
    modifies a, g
    ensures e == stre && Reading(g, a[..], o, begin, stre, done + [c])
  {
    var s' := Put(a, s, c, g, o, begin, done);
    e := Skip(a, s', stre, g, o, begin, done + [c]);
  }

  method StrconvCode(a: array<byte>, s: nat, stre: nat, ch: nat, g: Gap, ghost o: seq<byte>, ghost begin: nat,
                     ghost done: seq<byte>)
    returns (e: nat)
    requires Reading(g, a[..], o, begin, s, done) && s + 4 <= stre <= a.Length && ch < WORD
    modifies a, g
    ensures e == stre && Reading(g, a[..], o, begin, stre, done + Utf8(ch))
  {
    var s' := WriteUtf8(a, s, ch);
    Wrote(g, old(a[..]), a[..], o, begin, s, Utf8(ch), done);
    e := Skip(a, s', stre, g, o, begin, done + Utf8(ch));
  }

  lemma Ahead(g: Gap, t: seq<byte>, o: seq<byte>, begin: nat, s: nat, done: seq<byte>)
    requires Reading(g, t, o, begin, s, done)
    ensures forall k :: s <= k < |o| ==> t[k] == o[k]
  {
    forall k | s <= k < |o| ensures t[k] == o[k] {
      assert t[s..][k - s] == o[s..][k - s];
    }
  }

  /** The digits from `i` on, with their value if a semicolon ends them. */
  method ScanNumber(a: array<byte>, i: nat, hex: bool, ghost o: seq<byte>, ghost z: nat)
    returns (stre: nat, ucsc: nat, ok: bool)
    requires i <= z < a.Length == |o| && o[z] == NUL && forall k :: i <= k < a.Length ==> a[k] == o[k]
    ensures var e := DigitsEnd(o, i, hex);
      && e <= z && stre == (if ok then e + 1 else e) && ok == (e > i && o[e] == SEMI)
      && (ok ==> ucsc == Number(o, i, e, hex, 0))
    ensures ucsc < WORD && stre <= z
  {
    stre, ucsc := i, 0;
    var ch := a[stre];
    if ch == SEMI { return stre, ucsc, false; }
    while true
      invariant i <= stre <= z && ch == o[stre] && ucsc < WORD && DigitsEnd(o, stre, hex) == DigitsEnd(o, i, hex)
      invariant ch == SEMI ==> stre > i
      invariant Number(o, i, DigitsEnd(o, i, hex), hex, 0) == Number(o, stre, DigitsEnd(o, i, hex), hex, ucsc)
      decreases z - stre
    {
      if IsDigit(ch) {
        ucsc := ((if hex then 16 else 10) * ucsc + (ch - '0' as int)) % WORD;
      } else if hex && IsHexLetter(ch) {
        ucsc := (16 * ucsc + DigitValue(ch)) % WORD;
      } else if ch == SEMI {
        break;
      } else {
        return stre, ucsc, false;
      }
      stre := stre + 1;
      ch := a[stre];
    }
    return stre + 1, ucsc, true;
  }

  /** Steps over `w` as far as it is there. */
  method Match(a: array<byte>, i: nat, w: seq<byte>, ghost o: seq<byte>, ghost z: nat) returns (e: nat)
    requires i <= z < a.Length == |o| && o[z] == NUL && forall k :: i <= k < a.Length ==> a[k] == o[k]
    requires forall k :: 0 <= k < |w| ==> w[k] != NUL
    ensures e == Stop(o, i, w) && e <= z
  {
    e := i;
    var k := 0;
    while k < |w| && a[e] == w[k]
      invariant k <= |w| && e == i + k <= z && Stop(o, i, w) == Stop(o, e, w[k..])
    {
      assert w[k..][0] == w[k] && w[k..][1..] == w[k + 1..];
      e, k := e + 1, k + 1;
    }
  }

  method StrconvNumeric(a: array<byte>, s: nat, j: nat, hex: bool, g: Gap, ghost o: seq<byte>, ghost begin: nat,
                        ghost done: seq<byte>, ghost z: nat)
    returns (stre: nat)
    requires Reading(g, a[..], o, begin, s, done) && s + 2 <= j <= z < a.Length && o[z] == NUL
    modifies a, g
    ensures Decoded(g, a[..], o, begin, Numeric(o, s, j, hex), stre, done)
  {
    Ahead(g, a[..], o, begin, s, done);
    var ucsc, ok;
    stre, ucsc, ok := ScanNumber(a, j, hex, o, z);
    if ok {
      stre := StrconvCode(a, s, stre, ucsc, g, o, begin, done);
    } else {
      Accept(g, a[..], o, begin, s, stre, done);
    }
  }

  method StrconvNamed(a: array<byte>, s: nat, j: nat, w: seq<byte>, c: byte, g: Gap, ghost o: seq<byte>,
                      ghost begin: nat, ghost done: seq<byte>, ghost z: nat)
    returns (stre: nat)
    requires Reading(g, a[..], o, begin, s, done) && s < j <= z < a.Length && o[z] == NUL
    requires forall k :: 0 <= k < |w| ==> w[k] != NUL
    modifies a, g
    ensures Decoded(g, a[..], o, begin, Named(o, s, j, w, c), stre, done)
  {
    Ahead(g, a[..], o, begin, s, done);
    stre := Match(a, j, w, o, z);
    if stre == j + |w| {
      stre := StrconvEntity(a, s, stre, c, g, o, begin, done);
    } else {
      Accept(g, a[..], o, begin, s, stre, done);
    }
  }

  method ReadKind(a: array<byte>, s: nat, ghost o: seq<byte>, ghost z: nat) returns (kind: Kind)
    requires s < z < a.Length == |o| && o[s] == AMP && o[z] == NUL && forall k :: s <= k < a.Length ==> a[k] == o[k]
    ensures kind == KindAt(o, s)
  {
    var stre := s + 1;
    if a[stre] == HASH {
      if a[stre + 1] == 'x' as int {
        return Code(stre + 2, true);
      } else {
        return Code(stre + 1, false);
      }
    } else if a[stre] == 'a' as int {
      stre := stre + 1;
      if a[stre] == 'm' as int {
        return Entity(stre + 1, AMP_REST, AMP);
      } else if a[stre] == 'p' as int {
        return Entity(stre + 1, APOS_REST, APOS);
      }
    } else if a[stre] == 'g' as int {
      return Entity(stre + 1, T_REST, GT);
    } else if a[stre] == 'l' as int {
      return Entity(stre + 1, T_REST, LT);
    } else if a[stre] == 'q' as int {
      return Entity(stre + 1, QUOT_REST, QUOT);
    }
    return Neither(stre);
  }

  /** Decodes the reference at `s`, or steps over what looked like one. */
  method StrconvEscape(a: array<byte>, s: nat, g: Gap, ghost o: seq<byte>, ghost begin: nat, ghost done: seq<byte>,
                       ghost z: nat)
    returns (stre: nat)
    requires Reading(g, a[..], o, begin, s, done) && s < z < a.Length && o[s] == AMP && o[z] == NUL
    modifies a, g
    ensures Decoded(g, a[..], o, begin, Reference(o, s), stre, done)
  {
    Ahead(g, a[..], o, begin, s, done);
    KindStaysBefore(o, s, z);
    var kind := ReadKind(a, s, o, z);
    match kind
    case Code(j, hex) =>
      stre := StrconvNumeric(a, s, j, hex, g, o, begin, done, z);
    case Entity(j, w, c) =>
      stre := StrconvNamed(a, s, j, w, c, g, o, begin, done, z);
    case Neither(e) =>
      stre := e;
      Accept(g, a[..], o, begin, s, stre, done);
  }

  // ----- whole runs ------------------------------------------------------------------------------------

  lemma Join(whole: Piece, from: Piece, rest: Piece, done: seq<byte>, more: seq<byte>)
    requires whole == Piece(from.end, done + from.out) && from == Piece(rest.end, more + rest.out)
    ensures whole == Piece(rest.end, (done + more) + rest.out)
  {
  }

  /** What a decoding loop keeps: how the buffer looks, and what the text read so far means. */
  datatype Side = BufferSide | TextSide

  /** The fixed data of one run: the buffer before decoding, where text and run begin (full normalisation skips
      leading white space), and a place where the buffer holds a NUL. */
  datatype Task = Task(m: Mode, o: seq<byte>, begin: nat, from: nat, z: nat) {
    ghost predicate Ok() {
      begin <= from <= z < |o| && o[z] == NUL && (m.AttrText? ==> m.quote in {APOS, QUOT})
    }

    /** The text of the run is `done` and then the text from `s` on. */
    ghost predicate SoFar(s: nat, done: seq<byte>)
      requires Ok()
    {
      from <= s <= z && Run(m, o, from) == Piece(Run(m, o, s).end, done + Run(m, o, s).out)
    }

    lemma SoFarStep(s: nat, done: seq<byte>)
      requires Ok() && SoFar(s, done) && s < z && !Ends(m, o[s])
      ensures SoFar(Step(m, o, s).end, done + Step(m, o, s).out)
    {
      StepStaysBefore(m, o, s, z);
      var p := Step(m, o, s);
      Join(Run(m, o, from), Run(m, o, s), Run(m, o, p.end), done, p.out);
    }

    lemma SoFarPlain(s: nat, s': nat, done: seq<byte>)
      requires Ok() && s <= s' <= z && SoFar(s, done) && forall k :: s <= k < s' ==> Plain(m, o[k])
      ensures SoFar(s', done + o[s..s'])
    {
      RunOverPlain(m, o, s, s');
      Join(Run(m, o, from), Run(m, o, s), Run(m, o, s'), done, o[s..s']);
    }

    ghost predicate Fact(g: Gap, t: seq<byte>, s: nat, done: seq<byte>, side: Side)
      requires Ok()
      reads g
    {
      match side
      case BufferSide => Reading(g, t, o, begin, s, done)
      case TextSide => SoFar(s, done)
    }

    /** Where a decoding loop stands: `t` is the buffer, `s` the next byte to read, `done` the text so far. */
    ghost predicate At(g: Gap, t: seq<byte>, s: nat, done: seq<byte>)
      reads g
    {
      Ok() && from <= s <= z && forall side: Side {:trigger Fact(g, t, s, done, side)} :: Fact(g, t, s, done, side)
    }
  }

  /** Passes over bytes that stand for themselves, four at a time. */
  method ScanPlain(a: array<byte>, s0: nat, m: Mode, ghost z: nat) returns (s: nat)
    requires s0 <= z < a.Length && a[z] == NUL
    ensures s0 <= s <= z && !Plain(m, a[s]) && forall k :: s0 <= k < s ==> Plain(m, a[k])
  {
    s := s0;
    while true
      invariant s0 <= s <= z && forall k :: s0 <= k < s ==> Plain(m, a[k])
      decreases z - s
    {
      if !Plain(m, a[s]) { break; }
      if !Plain(m, a[s + 1]) { s := s + 1; break; }
      if !Plain(m, a[s + 2]) { s := s + 2; break; }
      if !Plain(m, a[s + 3]) { s := s + 3; break; }
      s := s + 4;
    }
  }

  lemma Passed(c: Task, g: Gap, t: seq<byte>, s0: nat, s: nat, done: seq<byte>) returns (done': seq<byte>)
    requires c.At(g, t, s0, done) && s0 <= s <= c.z && |t| == |c.o| && forall k :: s0 <= k < s ==> Plain(c.m, t[k])
    ensures c.At(g, t, s, done') && t[s] == c.o[s]
  {
    assert c.Fact(g, t, s0, done, BufferSide) && c.Fact(g, t, s0, done, TextSide);
    Ahead(g, t, c.o, c.begin, s0, done);
    Accept(g, t, c.o, c.begin, s0, s, done);
    c.SoFarPlain(s0, s, done);
    done' := done + c.o[s0..s];
    assert c.Fact(g, t, s, done', BufferSide) && c.Fact(g, t, s, done', TextSide);
  }

  /** The buffer still holds what is to be read. */
  lemma ToRead(c: Task, g: Gap, t: seq<byte>, s: nat, done: seq<byte>)
    requires c.At(g, t, s, done)
    ensures |t| == |c.o| && t[c.z] == NUL && forall k :: s <= k < |t| ==> t[k] == c.o[k]
  {
    assert c.Fact(g, t, s, done, BufferSide);
    Ahead(g, t, c.o, c.begin, s, done);
  }

  /** Goes on to the next byte that needs attention. */
  method Scan(a: array<byte>, s0: nat, m: Mode, ghost g: Gap, ghost c: Task, ghost done: seq<byte>)
    returns (s: nat, ghost done': seq<byte>)
    requires c.m == m && c.At(g, a[..], s0, done)
    ensures s0 <= s < a.Length && c.At(g, a[..], s, done') && a[s] == c.o[s] && !Plain(m, a[s]) &&
            (a[s] != NUL ==> s < c.z)
  {
    ToRead(c, g, a[..], s0, done);
    s := ScanPlain(a, s0, m, c.z);
    done' := Passed(c, g, a[..], s0, s, done);
  }

  /** The piece at `s` has been dealt with. */
  lemma Advance(c: Task, g: Gap, t: seq<byte>, s: nat, s': nat, done: seq<byte>)
    requires c.Ok() && s < c.z && c.SoFar(s, done) && !Ends(c.m, c.o[s]) &&
             Decoded(g, t, c.o, c.begin, Step(c.m, c.o, s), s', done)
    ensures s < s' && c.At(g, t, s', done + Step(c.m, c.o, s).out)
  {
    c.SoFarStep(s, done);
    var done' := done + Step(c.m, c.o, s).out;
    assert c.Fact(g, t, s', done', BufferSide) && c.Fact(g, t, s', done', TextSide);
  }

  /** A reference. */
  method Escape(a: array<byte>, s: nat, g: Gap, ghost c: Task, ghost done: seq<byte>)
    returns (s': nat, ghost done': seq<byte>)
    requires c.At(g, a[..], s, done) && s < c.z && c.o[s] == AMP && c.m.escape
    modifies a, g
    ensures s < s' && c.At(g, a[..], s', done')
  {
    assert c.Fact(g, a[..], s, done, BufferSide) && c.Fact(g, a[..], s, done, TextSide);
    s' := StrconvEscape(a, s, g, c.o, c.begin, done, c.z);
    Advance(c, g, a[..], s, s', done);
    done' := done + Step(c.m, c.o, s).out;
  }

  /** A byte that stands for itself although a scan stops at it. */
  method Itself(ghost a: array<byte>, s: nat, ghost g: Gap, ghost c: Task, ghost done: seq<byte>)
    returns (s': nat, ghost done': seq<byte>)
    requires c.At(g, a[..], s, done) && s < c.z && !Ends(c.m, c.o[s]) && Step(c.m, c.o, s) == Piece(s + 1, [c.o[s]])
    ensures s' == s + 1 && c.At(g, a[..], s', done')
  {
    assert c.Fact(g, a[..], s, done, BufferSide) && c.Fact(g, a[..], s, done, TextSide);
    Accept(g, a[..], c.o, c.begin, s, s + 1, done);
    s' := s + 1;
    assert c.o[s..s + 1] == [c.o[s]];
    Advance(c, g, a[..], s, s', done);
    done' := done + Step(c.m, c.o, s).out;
  }

  /** A line end becomes `b`; a line feed behind a carriage return goes with it. */
  method LineEnd(a: array<byte>, s: nat, b: byte, g: Gap, ghost c: Task, ghost done: seq<byte>)
    returns (s': nat, ghost done': seq<byte>)
    requires c.At(g, a[..], s, done) && s < c.z && !Ends(c.m, c.o[s])
    requires Step(c.m, c.o, s) == Piece(if XmlText.At(c.o, s + 1) == LF then s + 2 else s + 1, [b])
    modifies a, g
    ensures s < s' && c.At(g, a[..], s', done')
  {
    assert c.Fact(g, a[..], s, done, BufferSide) && c.Fact(g, a[..], s, done, TextSide);
    s' := Put(a, s, b, g, c.o, c.begin, done);
    Ahead(g, a[..], c.o, c.begin, s', done + [b]);
    if a[s'] == LF {
      s' := Skip(a, s', s' + 1, g, c.o, c.begin, done + [b]);
    }
    Advance(c, g, a[..], s, s', done);
    done' := done + [b];
  }

  /** The decoded text `out` is in place at `begin`, and nothing outside the run has changed. */
  ghost predicate InPlace(o: seq<byte>, n: seq<byte>, begin: nat, end: nat, out: seq<byte>) {
    && |n| == |o| && begin + |out| <= end < |o|
    && n[..begin] == o[..begin] && n[end + 1..] == o[end + 1..] && (n[end] == o[end] || n[end] == NUL)
    && n[begin..begin + |out|] == out
  }

  /** It is terminated as well. */
  ghost predicate Stored(o: seq<byte>, n: seq<byte>, begin: nat, end: nat, out: seq<byte>) {
    InPlace(o, n, begin, end, out) && n[begin + |out|] == NUL
  }

  lemma FlushedTail(t: seq<byte>, n: seq<byte>, o: seq<byte>, begin: nat, s: nat)
    requires SameOutside(t, n, begin, s) && |t| == |o| && t[..begin] == o[..begin] && t[s..] == o[s..] && s < |o|
    ensures n[..begin] == o[..begin] && n[s + 1..] == o[s + 1..] && n[s] == o[s]
  {
    assert n[s..][0] == t[s..][0] == o[s..][0];
    assert n[s + 1..] == n[s..][1..] == t[s..][1..] == o[s + 1..];
  }

  /** The run ends at `s`: the gap is closed. */
  method Finish(a: array<byte>, s: nat, g: Gap, ghost c: Task, ghost done: seq<byte>) returns (e: nat)
    requires c.At(g, a[..], s, done) && Ends(c.m, c.o[s])
    modifies a
    ensures var p := Run(c.m, c.o, c.from);
            p.end == s && InPlace(c.o, a[..], c.begin, s, p.out) && e == c.begin + |p.out|
  {
    assert c.Fact(g, a[..], s, done, BufferSide) && c.Fact(g, a[..], s, done, TextSide);
    assert done + [] == done;
    e := g.Flush(a, s, c.begin);
    FlushedTail(old(a[..]), a[..], c.o, c.begin, s);
  }

  /** Stores the terminator behind `out`, which may be shorter than what was decoded. */
  method Terminate(a: array<byte>, e: nat, ghost o: seq<byte>, ghost begin: nat, ghost end: nat,
                   ghost all: seq<byte>, ghost out: seq<byte>)
    requires InPlace(o, a[..], begin, end, all) && out <= all && e == begin + |out|
    modifies a
    ensures Stored(o, a[..], begin, end, out)
  {
    ghost var n := a[..];
    a[e] := NUL;
    assert a[..] == n[e := NUL];
    assert out == all[..|out|] == n[begin..begin + |all|][..|out|] == n[begin..e];
    assert n[e := NUL][begin..e] == n[begin..e];
    assert n[e := NUL][end + 1..] == n[end + 1..];
  }

  method FinishWhole(a: array<byte>, s: nat, g: Gap, ghost c: Task, ghost done: seq<byte>)
    requires c.At(g, a[..], s, done) && Ends(c.m, c.o[s])
    modifies a
    ensures var p := Run(c.m, c.o, c.from); p.end == s && Stored(c.o, a[..], c.begin, s, p.out)
  {
    var e := Finish(a, s, g, c, done);
    Terminate(a, e, c.o, c.begin, s, Run(c.m, c.o, c.from).out, Run(c.m, c.o, c.from).out);
  }

  lemma Start(c: Task, g: Gap)
    requires c.Ok() && c.begin == c.from && g.end == None && g.size == 0
    ensures c.At(g, c.o, c.begin, [])
  {
    ReadingStarts(g, c.o, c.begin);
    AtStart(c, g, c.o);
  }

  method ParseSimple(a: array<byte>, s0: nat, endQuote: byte, escape: bool, ghost z: nat) returns (r: Option<nat>)
    requires s0 <= z < a.Length && a[z] == NUL && endQuote in {APOS, QUOT}
    modifies a
    ensures var p := AttrValue(Simple, escape, endQuote, old(a[..]), s0);
      && p.end <= z && r == (if old(a[..])[p.end] == NUL then None else Some(p.end + 1))
      && (r.Some? ==> Stored(old(a[..]), a[..], s0, p.end, p.out))
  {
    var g := new Gap();
    var m := AttrText(Simple, escape, endQuote);
    ghost var c := Task(m, a[..], s0, s0, z);
    Start(c, g);
    var s := s0;
    ghost var done: seq<byte> := [];
    while true
      invariant c.At(g, a[..], s, done)
      decreases z - s
    {
      s, done := Scan(a, s, m, g, c, done);
      if a[s] == endQuote {
        FinishWhole(a, s, g, c, done);
        return Some(s + 1);
      } else if escape && a[s] == AMP {
        s, done := Escape(a, s, g, c, done);
      } else if a[s] == NUL {
        EndsHere(c, g, a[..], s, done);
        return None;
      } else {
        s, done := Itself(a, s, g, c, done);
      }
    }
  }

  lemma EndsHere(c: Task, g: Gap, t: seq<byte>, s: nat, done: seq<byte>)
    requires c.At(g, t, s, done) && Ends(c.m, c.o[s])
    ensures Run(c.m, c.o, c.from).end == s
  {
    assert c.Fact(g, t, s, done, TextSide);
  }

  method ParseEol(a: array<byte>, s0: nat, endQuote: byte, escape: bool, ghost z: nat) returns (r: Option<nat>)
    requires s0 <= z < a.Length && a[z] == NUL && endQuote in {APOS, QUOT}
    modifies a
    ensures var p := AttrValue(Eol, escape, endQuote, old(a[..]), s0);
      && p.end <= z && r == (if old(a[..])[p.end] == NUL then None else Some(p.end + 1))
      && (r.Some? ==> Stored(old(a[..]), a[..], s0, p.end, p.out))
  {
    var g := new Gap();
    var m := AttrText(Eol, escape, endQuote);
    ghost var c := Task(m, a[..], s0, s0, z);
    Start(c, g);
    var s := s0;
    ghost var done: seq<byte> := [];
    while true
      invariant c.At(g, a[..], s, done)
      decreases z - s
    {
      s, done := Scan(a, s, m, g, c, done);
      if a[s] == endQuote {
        FinishWhole(a, s, g, c, done);
        return Some(s + 1);
      } else if a[s] == CR {
        s, done := LineEnd(a, s, LF, g, c, done);
      } else if escape && a[s] == AMP {
        s, done := Escape(a, s, g, c, done);
      } else if a[s] == NUL {
        EndsHere(c, g, a[..], s, done);
        return None;
      } else {
        s, done := Itself(a, s, g, c, done);
      }
    }
  }

  method ParseWconv(a: array<byte>, s0: nat, endQuote: byte, escape: bool, ghost z: nat) returns (r: Option<nat>)
    requires s0 <= z < a.Length && a[z] == NUL && endQuote in {APOS, QUOT}
    modifies a
    ensures var p := AttrValue(Wconv, escape, endQuote, old(a[..]), s0);
      && p.end <= z && r == (if old(a[..])[p.end] == NUL then None else Some(p.end + 1))
      && (r.Some? ==> Stored(old(a[..]), a[..], s0, p.end, p.out))
  {
    var g := new Gap();
    var m := AttrText(Wconv, escape, endQuote);
    ghost var c := Task(m, a[..], s0, s0, z);
    Start(c, g);
    var s := s0;
    ghost var done: seq<byte> := [];
    while true
      invariant c.At(g, a[..], s, done)
      decreases z - s
    {
      s, done := Scan(a, s, m, g, c, done);
      if a[s] == endQuote {
        FinishWhole(a, s, g, c, done);
        return Some(s + 1);
      } else if IsSpace(a[s]) {
        if a[s] == CR {
          s, done := LineEnd(a, s, SPACE, g, c, done);
        } else {
          s, done := Blank(a, s, g, c, done);
        }
      } else if escape && a[s] == AMP {
        s, done := Escape(a, s, g, c, done);
      } else if a[s] == NUL {
        EndsHere(c, g, a[..], s, done);
        return None;
      } else {
        s, done := Itself(a, s, g, c, done);
      }
    }
  }

  /** A blank is stored for the white space at `s`. */
  method Blank(a: array<byte>, s: nat, g: Gap, ghost c: Task, ghost done: seq<byte>)
    returns (s': nat, ghost done': seq<byte>)
    requires c.At(g, a[..], s, done) && s < c.z && !Ends(c.m, c.o[s]) && Step(c.m, c.o, s) == Piece(s + 1, [SPACE])
    modifies a
    ensures s' == s + 1 && c.At(g, a[..], s', done')
  {
    assert c.Fact(g, a[..], s, done, BufferSide) && c.Fact(g, a[..], s, done, TextSide);
    s' := Put(a, s, SPACE, g, c.o, c.begin, done);
    Advance(c, g, a[..], s, s', done);
    done' := done + [SPACE];
  }

  /** Character data; unlike an attribute value it may be ended by the end of the input. */
  method ParsePcdata(a: array<byte>, s0: nat, trim: bool, eol: bool, escape: bool, ghost z: nat) returns (r: nat)
    requires s0 <= z < a.Length && a[z] == NUL
    modifies a
    ensures var p := PcdataValue(eol, escape, trim, old(a[..]), s0);
      && p.end <= z && r == (if old(a[..])[p.end] == NUL then p.end else p.end + 1)
      && Stored(old(a[..]), a[..], s0, p.end, p.out)
  {
    var g := new Gap();
    var m := CharData(eol, escape);
    ghost var c := Task(m, a[..], s0, s0, z);
    Start(c, g);
    var s := s0;
    ghost var done: seq<byte> := [];
    while true
      invariant c.At(g, a[..], s, done)
      decreases z - s
    {
      s, done := Scan(a, s, m, g, c, done);
      if a[s] == LT {
        EndsHere(c, g, a[..], s, done);
        var e := Finish(a, s, g, c, done);
        e := TrimEnd(a, s0, e, trim, c.o, s, Run(m, c.o, s0).out);
        Terminate(a, e, c.o, s0, s, Run(m, c.o, s0).out, PcdataValue(eol, escape, trim, c.o, s0).out);
        return s + 1;
      } else if eol && a[s] == CR {
        s, done := LineEnd(a, s, LF, g, c, done);
      } else if escape && a[s] == AMP {
        s, done := Escape(a, s, g, c, done);
      } else if a[s] == NUL {
        EndsHere(c, g, a[..], s, done);
        var e := Finish(a, s, g, c, done);
        e := TrimEnd(a, s0, e, trim, c.o, s, Run(m, c.o, s0).out);
        Terminate(a, e, c.o, s0, s, Run(m, c.o, s0).out, PcdataValue(eol, escape, trim, c.o, s0).out);
        return s;
      } else {
        s, done := Itself(a, s, g, c, done);
      }
    }
  }

  /** Moves the end of the text back over white space. */
  method TrimEnd(a: array<byte>, begin: nat, e0: nat, trim: bool, ghost o: seq<byte>, ghost s: nat,
                 ghost out: seq<byte>) returns (e: nat)
    requires InPlace(o, a[..], begin, s, out) && e0 == begin + |out|
    ensures e == begin + |if trim then TrimRight(out) else out|
  {
    e := e0;
    if trim {
      OutInPlace(o, a[..], begin, s, out);
      while e > begin && IsSpace(a[e - 1])
        invariant begin <= e <= e0 && forall k :: e - begin <= k < |out| ==> IsSpace(out[k])
      {
        e := e - 1;
      }
      TrimmedTo(out, e - begin);
    }
  }

  lemma OutInPlace(o: seq<byte>, t: seq<byte>, begin: nat, s: nat, out: seq<byte>)
    requires InPlace(o, t, begin, s, out)
    ensures begin + |out| <= |t| && forall k :: begin <= k < begin + |out| ==> t[k] == out[k - begin]
  {
    forall k | begin <= k < begin + |out| ensures t[k] == out[k - begin] {
      assert t[begin..begin + |out|][k - begin] == out[k - begin];
    }
  }

  lemma TrimmedTo(out: seq<byte>, n: nat)
    requires n <= |out| && (n > 0 ==> !IsSpace(out[n - 1])) && forall k :: n <= k < |out| ==> IsSpace(out[k])
    ensures |TrimRight(out)| == n
  {
    var r := TrimRight(out);
    assert r == out[..|r|];
  }

  // ----- full white space normalisation -----------------------------------------------------------------

  method SkipSpaces(a: array<byte>, i: nat, ghost z: nat) returns (e: nat)
    requires i <= z < a.Length && a[z] == NUL
    ensures i <= e <= z && e == SpacesEnd(a[..], i)
  {
    e := i;
    while IsSpace(a[e])
      invariant i <= e <= z && SpacesEnd(a[..], e) == SpacesEnd(a[..], i)
      decreases z - e
    {
      e := e + 1;
    }
  }

  lemma {:induction false} SameSpaces(t: seq<byte>, o: seq<byte>, i: nat)
    requires |t| == |o| && forall k :: i <= k < |t| ==> t[k] == o[k]
    ensures SpacesEnd(t, i) == SpacesEnd(o, i)
    decreases |t| - i
  {
    if i < |t| && IsSpace(t[i]) { SameSpaces(t, o, i + 1); }
  }

  /** Leading white space goes. */
  method SkipLeading(a: array<byte>, s0: nat, g: Gap, ghost c: Task) returns (s: nat)
    requires c.Ok() && a[..] == c.o && c.begin == s0 && c.from == SpacesEnd(c.o, s0) && g.end == None && g.size == 0
    modifies a, g
    ensures s == c.from && c.At(g, a[..], s, [])
  {
    s := s0;
    ReadingStarts(g, c.o, s0);
    if IsSpace(a[s]) {
      var str := SkipSpaces(a, s, c.z);
      s := Skip(a, s, str, g, c.o, s0, []);
    }
    AtStart(c, g, a[..]);
  }

  lemma ReadingStarts(g: Gap, o: seq<byte>, s: nat)
    requires g.end == None && g.size == 0 && s <= |o|
    ensures Reading(g, o, o, s, s, [])
  {
  }

  lemma AtStart(c: Task, g: Gap, t: seq<byte>)
    requires c.Ok() && Reading(g, t, c.o, c.begin, c.from, [])
    ensures c.At(g, t, c.from, [])
  {
    assert [] + Run(c.m, c.o, c.from).out == Run(c.m, c.o, c.from).out;
    assert c.Fact(g, t, c.from, [], BufferSide) && c.Fact(g, t, c.from, [], TextSide);
  }

  /** A run of white space becomes one blank. */
  method BlankRun(a: array<byte>, s: nat, g: Gap, ghost c: Task, ghost done: seq<byte>)
    returns (s': nat, ghost done': seq<byte>)
    requires c.At(g, a[..], s, done) && s < c.z && !Ends(c.m, c.o[s]) &&
             Step(c.m, c.o, s) == Piece(SpacesEnd(c.o, s + 1), [SPACE])
    modifies a, g
    ensures s < s' && c.At(g, a[..], s', done')
  {
    assert c.Fact(g, a[..], s, done, BufferSide) && c.Fact(g, a[..], s, done, TextSide);
    s' := Put(a, s, SPACE, g, c.o, c.begin, done);
    Ahead(g, a[..], c.o, c.begin, s', done + [SPACE]);
    SameSpaces(a[..], c.o, s');
    if IsSpace(a[s']) {
      var str := SkipSpaces(a, s' + 1, c.z);
      s' := Skip(a, s', str, g, c.o, c.begin, done + [SPACE]);
    }
    Advance(c, g, a[..], s, s', done);
    done' := done + [SPACE];
  }

  /** Terminates the text, then replaces white space at its end by terminators; the quotation mark in front of
      the text stops it. */
  method TerminateTrimmed(a: array<byte>, e: nat, ghost o: seq<byte>, ghost begin: nat, ghost end: nat,
                          ghost all: seq<byte>)
    requires InPlace(o, a[..], begin, end, all) && e == begin + |all| && begin > 0 && !IsSpace(o[begin - 1])
    modifies a
    ensures Stored(o, a[..], begin, end, TrimRight(all))
  {
    ghost var out := all;
    Terminate(a, e, o, begin, end, all, all);
    var str := e - 1;
    StillInFront(o, a[..], begin, end, all);
    while IsSpace(a[str])
      invariant begin <= str + 1 == begin + |out| && out <= all && TrimRight(out) == TrimRight(all)
      invariant Stored(o, a[..], begin, end, out) && a[begin - 1] == o[begin - 1]
      decreases str
    {
      StillInFront(o, a[..], begin, end, out);
      assert out != [] && a[..][begin..begin + |out|][|out| - 1] == out[|out| - 1];
      ghost var shorter := out[..|out| - 1];
      Terminate(a, str, o, begin, end, out, shorter);
      StillInFront(o, a[..], begin, end, shorter);
      out := shorter;
      str := str - 1;
    }
    if out != [] { assert a[..][begin..begin + |out|][|out| - 1] == out[|out| - 1]; }
  }

  lemma StillInFront(o: seq<byte>, n: seq<byte>, begin: nat, end: nat, out: seq<byte>)
    requires InPlace(o, n, begin, end, out) && begin > 0
    ensures n[begin - 1] == o[begin - 1]
  {
    assert n[..begin][begin - 1] == o[..begin][begin - 1];
  }

  method FinishTrimmed(a: array<byte>, s: nat, g: Gap, ghost c: Task, ghost done: seq<byte>)
    requires c.At(g, a[..], s, done) && Ends(c.m, c.o[s]) && c.begin > 0 && !IsSpace(c.o[c.begin - 1])
    modifies a
    ensures var p := Run(c.m, c.o, c.from); p.end == s && Stored(c.o, a[..], c.begin, s, TrimRight(p.out))
  {
    var str := Finish(a, s, g, c, done);
    TerminateTrimmed(a, str, c.o, c.begin, s, Run(c.m, c.o, c.from).out);
  }

  method ParseWnorm(a: array<byte>, s0: nat, endQuote: byte, escape: bool, ghost z: nat) returns (r: Option<nat>)
    requires s0 <= z < a.Length && a[z] == NUL && endQuote in {APOS, QUOT} && s0 > 0 && a[s0 - 1] == endQuote
    modifies a
    ensures var p := AttrValue(Wnorm, escape, endQuote, old(a[..]), s0);
      && p.end <= z && r == (if old(a[..])[p.end] == NUL then None else Some(p.end + 1))
      && (r.Some? ==> Stored(old(a[..]), a[..], s0, p.end, p.out))
  {
    var g := new Gap();
    var m := AttrText(Wnorm, escape, endQuote);
    ghost var c := Task(m, a[..], s0, SpacesEnd(a[..], s0), z);
    var s := SkipLeading(a, s0, g, c);
    ghost var done: seq<byte> := [];
    while true
      invariant c.At(g, a[..], s, done)
      decreases z - s
    {
      s, done := Scan(a, s, m, g, c, done);
      if a[s] == endQuote {
        FinishTrimmed(a, s, g, c, done);
        return Some(s + 1);
      } else if IsSpace(a[s]) {
        s, done := BlankRun(a, s, g, c, done);
      } else if escape && a[s] == AMP {
        s, done := Escape(a, s, g, c, done);
      } else if a[s] == NUL {
        EndsHere(c, g, a[..], s, done);
        return None;
      } else {
        s, done := Itself(a, s, g, c, done);
      }
    }
  }
}
