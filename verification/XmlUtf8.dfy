// The UTF-8 decoder used when input is converted, against the writer used by character references.
module XmlUtf8 {
  import opened Basics
  import opened XmlBytes

  predicate IsTail(t: seq<byte>, i: nat) {
    i < |t| && 0x80 <= t[i] < 0xC0
  }

  function Tail(t: seq<byte>, i: nat): nat
    requires IsTail(t, i)
  {
    t[i] - 0x80
  }

  /** The code points in a byte string; bytes that start no sequence are skipped. */
  function Decoded(t: seq<byte>): seq<nat>
    decreases |t|
  {
    if t == [] then []
    else
      var lead := t[0];
      if lead < 0x80 then [lead] + Decoded(t[1..])
      else if 0xC0 <= lead < 0xE0 && IsTail(t, 1) then [(lead - 0xC0) * 64 + Tail(t, 1)] + Decoded(t[2..])
      else if 0xE0 <= lead < 0xF0 && IsTail(t, 1) && IsTail(t, 2) then
        [(lead - 0xE0) * 4096 + Tail(t, 1) * 64 + Tail(t, 2)] + Decoded(t[3..])
      else if 0xF0 <= lead < 0xF8 && IsTail(t, 1) && IsTail(t, 2) && IsTail(t, 3) then
        [(lead - 0xF0) * 0x40000 + Tail(t, 1) * 4096 + Tail(t, 2) * 64 + Tail(t, 3)] + Decoded(t[4..])
      else Decoded(t[1..])
  }

  function Encoded(codes: seq<nat>): seq<byte>
    requires forall i :: 0 <= i < |codes| ==> codes[i] < WORD
  {
    if codes == [] then [] else Utf8(codes[0]) + Encoded(codes[1..])
  }

  lemma Digits64(ch: nat)
    requires ch < 0x200000
    ensures ch == ch / 64 * 64 + ch % 64 && ch / 64 == ch / 4096 * 64 + ch / 64 % 64
    ensures ch / 4096 == ch / 0x40000 * 64 + ch / 4096 % 64 && ch / 0x40000 < 8
  {
  }

  lemma {:induction false} DecodeFirst(ch: nat, t: seq<byte>)
    requires ch < 0x200000
    ensures Decoded(Utf8(ch) + t) == [ch] + Decoded(t)
  {
    var e := Utf8(ch);
    assert (e + t)[|e|..] == t;
    if ch < 0x800 {
      Digits64(ch);
    } else if ch < 0x10000 {
      DecodeThree(ch, t);
    } else {
      DecodeFour(ch, t);
    }
  }

  lemma {:induction false} DecodeThree(ch: nat, t: seq<byte>)
    requires 0x800 <= ch < 0x10000
    ensures Decoded(Utf8(ch) + t) == [ch] + Decoded(t)
  {
    assert (Utf8(ch) + t)[3..] == t;
    Digits64(ch);
  }

  lemma {:induction false} DecodeFour(ch: nat, t: seq<byte>)
    requires 0x10000 <= ch < 0x200000
    ensures Decoded(Utf8(ch) + t) == [ch] + Decoded(t)
  {
    assert (Utf8(ch) + t)[4..] == t;
    Digits64(ch);
  }

  lemma {:induction false} TailsAlone(t: seq<byte>)
    requires forall i :: 0 <= i < |t| ==> IsTail(t, i)
    ensures Decoded(t) == []
  {
    if t != [] {
      assert IsTail(t, 0);
      forall i | 0 <= i < |t[1..]| ensures IsTail(t[1..], i) { assert IsTail(t, i + 1); }
      TailsAlone(t[1..]);
    }
  }

  /** What is written is read back, up to the largest code a four-byte sequence can hold. */
  lemma {:induction false} Utf8RoundTrip(codes: seq<nat>)
    requires forall i :: 0 <= i < |codes| ==> codes[i] < 0x200000
    ensures Decoded(Encoded(codes)) == codes
  {
    if codes != [] {
      Utf8RoundTrip(codes[1..]);
      DecodeFirst(codes[0], Encoded(codes[1..]));
    }
  }

  /** A code survives exactly if it is that small. */
  lemma Utf8Exact(ch: nat)
    requires ch < WORD
    ensures Decoded(Utf8(ch)) == [ch] <==> ch < 0x200000
  {
    if ch < 0x200000 {
      DecodeFirst(ch, []);
      assert Utf8(ch) + [] == Utf8(ch);
    } else {
      var e := Utf8(ch);
      if e[0] < 0xF8 {
        assert e[4..] == [];
        assert Decoded(e)[0] < 0x200000;
      } else {
        TailsAlone(e[1..]);
      }
    }
  }
}
