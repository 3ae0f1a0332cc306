// Numerals from tables: what a number looks like, independently of how the program reads it.
module Numerals {
  import opened Basics
  import opened XmlBytes

  const SMALL: string := "0123456789abcdef"
  const CAPITAL: string := "0123456789ABCDEF"

  /** A digit, and which of the two letters stands for it, if it is one. */
  datatype Figure = Figure(value: nat, capital: bool)

  /** Figures of a number to this base. */
  predicate Figures(fs: seq<Figure>, base: nat) {
    base <= 16 && forall i :: 0 <= i < |fs| ==> fs[i].value < base
  }

  function Char(f: Figure): (c: byte)
    requires f.value < 16
  {
    var c := (if f.capital then CAPITAL else SMALL)[f.value] as int;
    CharsAreBytes(f);
    c
  }

  lemma CharsAreBytes(f: Figure)
    requires f.value < 16
    ensures (if f.capital then CAPITAL else SMALL)[f.value] as int < 128
  {
  }

  function Chars(fs: seq<Figure>): (s: seq<byte>)
    requires Figures(fs, 16)
    ensures |s| == |fs|
  {
    if fs == [] then [] else Chars(fs[..|fs| - 1]) + [Char(fs[|fs| - 1])]
  }

  /** The number the figures stand for. */
  function Value(fs: seq<Figure>, base: nat): nat {
    if fs == [] then 0 else Value(fs[..|fs| - 1], base) * base + fs[|fs| - 1].value
  }

  /** The bytes that stand for digits to this base. */
  predicate InTable(c: byte, base: nat)
    requires base <= 16
  {
    exists i :: 0 <= i < base && (c == SMALL[i] as int || c == CAPITAL[i] as int)
  }

  lemma {:induction false} CharsAre(fs: seq<Figure>)
    requires Figures(fs, 16)
    ensures forall i :: 0 <= i < |fs| ==> Chars(fs)[i] == Char(fs[i])
  {
    if fs != [] { CharsAre(fs[..|fs| - 1]); }
  }

  /** Every number has figures, whatever letters are chosen for its digits. */
  lemma {:induction false} EveryNumber(n: nat, base: nat, capital: nat -> bool) returns (fs: seq<Figure>)
    requires 2 <= base <= 16
    ensures fs != [] && Figures(fs, base) && Value(fs, base) == n
    ensures forall i :: 0 <= i < |fs| ==> fs[i].capital == capital(i)
    decreases n
  {
    if n < base {
      fs := [Figure(n, capital(0))];
      assert fs[..0] == [];
    } else {
      QuotientIs(n, base);
      var front := EveryNumber(n / base, base, capital);
      ValueMore(front, Figure(n % base, capital(|front|)), base);
      fs := front + [Figure(n % base, capital(|front|))];
    }
  }

  lemma QuotientIs(n: nat, base: nat)
    requires 2 <= base <= n
    ensures n / base < n && n / base * base + n % base == n && n % base < base
  {
  }

  lemma ValueMore(fs: seq<Figure>, f: Figure, base: nat)
    ensures Value(fs + [f], base) == Value(fs, base) * base + f.value
  {
    assert (fs + [f])[..|fs|] == fs;
  }

  /** Zeros in front change nothing. */
  lemma {:induction false} ZerosInFront(fs: seq<Figure>, n: nat, base: nat)
    requires Figures(fs, base)
    ensures Value(seq(n, _ => Figure(0, false)) + fs, base) == Value(fs, base)
  {
    var z := seq(n, _ => Figure(0, false));
    if fs != [] {
      assert (z + fs)[..n + |fs| - 1] == z + fs[..|fs| - 1];
      ZerosInFront(fs[..|fs| - 1], n, base);
    } else {
      assert z + [] == z;
      NothingButZeros(n, base);
    }
  }

  lemma {:induction false} NothingButZeros(n: nat, base: nat)
    ensures Value(seq(n, _ => Figure(0, false)), base) == 0
  {
    var z := seq(n, _ => Figure(0, false));
    if n > 0 {
      assert z[..n - 1] == seq(n - 1, _ => Figure(0, false));
      NothingButZeros(n - 1, base);
    }
  }

  /** Where the tables stand in the code. */
  lemma TablesAre(i: nat)
    requires i < 16
    ensures SMALL[i] as int == (if i < 10 then '0' as int + i else 'a' as int + i - 10)
    ensures CAPITAL[i] as int == (if i < 10 then '0' as int + i else 'A' as int + i - 10)
  {
  }

  lemma {:induction false} InTableIff(c: byte, base: nat)
    requires base == 10 || base == 16
    ensures InTable(c, base) <==>
            '0' as int <= c <= '9' as int ||
            (base == 16 && ('a' as int <= c <= 'f' as int || 'A' as int <= c <= 'F' as int))
  {
    if i: nat :| i < base && (c == SMALL[i] as int || c == CAPITAL[i] as int) {
      TablesAre(i);
    }
    if '0' as int <= c <= '9' as int {
      TablesAre(c - '0' as int);
      assert c == SMALL[c - '0' as int] as int;
    } else if base == 16 && 'a' as int <= c <= 'f' as int {
      TablesAre(c - 'a' as int + 10);
      assert c == SMALL[c - 'a' as int + 10] as int;
    } else if base == 16 && 'A' as int <= c <= 'F' as int {
      TablesAre(c - 'A' as int + 10);
      assert c == CAPITAL[c - 'A' as int + 10] as int;
    }
  }
}
