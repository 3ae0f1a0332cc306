// Reading and writing integers with arithmetic that wraps at the width of the unsigned type.
//
// The reader accumulates modulo a power of two and never looks at the true value; whether it has wrapped it
// tells from the number of digits, the leading digit and the highest bit.
module XmlIntegers {
  import opened Basics
  import opened XmlBytes

  const MINUS: byte := 45
  const PLUS: byte := 43

  function Modulus(w: nat): nat {
    if w == 64 then 0x1_0000_0000_0000_0000 else if w == 32 then 0x1_0000_0000 else 0x1_0000
  }

  // ----- what a string means ------------------------------------------------------------------------------

  /** The character with the bit set that tells small letters from capital ones. */
  function Lower(c: byte): byte {
    if c / 32 % 2 == 1 then c else c + 32
  }

  /** The value of a digit, or -1. */
  function Digit(c: byte, base: nat): (d: int)
    requires base == 10 || base == 16
    ensures -1 <= d < base
  {
    if IsDigit(c) then c - ZERO
    else if base == 16 && 0 <= Lower(c) - 'a' as int < 6 then Lower(c) - 'a' as int + 10
    else -1
  }

  function SkipSpaces(s: seq<byte>, i: nat): (k: nat)
    requires i <= |s|
    ensures i <= k <= |s|
    decreases |s| - i
  {
    if i < |s| && IsSpace(s[i]) then SkipSpaces(s, i + 1) else i
  }

  function DigitsEnd(s: seq<byte>, i: nat, base: nat): (k: nat)
    requires i <= |s| && (base == 10 || base == 16)
    ensures i <= k <= |s| && (k < |s| ==> Digit(s[k], base) < 0)
    ensures forall j :: i <= j < k ==> Digit(s[j], base) >= 0
    decreases |s| - i
  {
    if i < |s| && Digit(s[i], base) >= 0 then DigitsEnd(s, i + 1, base) else i
  }

  /** The value of the digits from `i` up to `k`. */
  function Number(s: seq<byte>, i: nat, k: nat, base: nat): nat
    requires k <= |s| && (base == 10 || base == 16) && forall j :: i <= j < k ==> Digit(s[j], base) >= 0
    decreases k
  {
    if k <= i then 0 else Number(s, i, k - 1, base) * base + Digit(s[k - 1], base)
  }

  predicate HasHexPrefix(s: seq<byte>, i: nat) {
    i + 1 < |s| && s[i] == ZERO && Lower(s[i + 1]) == 'x' as int
  }

  function Magnitude(s: seq<byte>, i: nat): nat
    requires i <= |s|
  {
    if HasHexPrefix(s, i) then Number(s, i + 2, DigitsEnd(s, i + 2, 16), 16) else Number(s, i, DigitsEnd(s, i, 10), 10)
  }

  predicate IsSign(c: byte) {
    c == MINUS || c == PLUS
  }

  /** The integer at the front of a string: spaces, a sign, and decimal or hexadecimal digits, as many as there are. */
  function Meaning(s: seq<byte>): int {
    var i := SkipSpaces(s, 0);
    if i == |s| then 0
    else if s[i] == MINUS then 0 - Magnitude(s, i + 1)
    else if s[i] == PLUS then Magnitude(s, i + 1)
    else Magnitude(s, i)
  }

  function Clamp(v: int, lo: int, hi: int): int {
    if v < lo then lo else if v > hi then hi else v
  }

  /** The number that the smallest value, given as an unsigned number, stands for. */
  function Lowest(minv: nat, w: nat): int {
    if minv == 0 then 0 else minv - Modulus(w)
  }

  predicate Negative(s: seq<byte>) {
    var i := SkipSpaces(s, 0);
    i < |s| && s[i] == MINUS
  }

  /** The largest magnitude a negative number may have. An unsigned type of 16 bits is promoted before it is negated,
      so that the limit itself is negative, or zero. */
  function NegativeLimit(minv: nat, w: nat): int {
    if w == 16 then 0 - minv else (Modulus(w) - minv) % Modulus(w)
  }

  /** What reading gives: the true value brought into range; but at 16 bits every negative number gives the smallest. */
  function Result(s: seq<byte>, w: nat, minv: nat, maxv: nat): nat {
    if w == 16 && Negative(s) then minv else Clamp(Meaning(s), Lowest(minv, w), maxv) % Modulus(w)
  }

  /** Exactly when the result is the value brought into range. */
  lemma InRangeIff(s: seq<byte>, w: nat, minv: nat, maxv: nat)
    requires w in {16, 32, 64} && minv < Modulus(w) && maxv < Modulus(w)
    ensures Result(s, w, minv, maxv) == Clamp(Meaning(s), Lowest(minv, w), maxv) % Modulus(w) <==>
            w != 16 || !Negative(s) || minv == 0 || Clamp(Meaning(s), Lowest(minv, w), maxv) == Lowest(minv, w)
  {
    var v := Clamp(Meaning(s), Lowest(minv, w), maxv);
    if w == 16 && Negative(s) {
      assert Meaning(s) <= 0;
      Range(v, Modulus(w), minv, maxv);
      Range(0, Modulus(w), minv, maxv);
      Range(Lowest(minv, w), Modulus(w), minv, maxv);
    }
  }

  /** At 16 bits "-1" is read as -32768. */
  lemma ShortMinusOne()
    ensures Meaning([MINUS, ZERO + 1, NUL]) == -1
    ensures Result([MINUS, ZERO + 1, NUL], 16, 0x8000, 0x7FFF) == 0x8000 == (-32768) % Modulus(16)
  {
    var s: seq<byte> := [MINUS, ZERO + 1, NUL];
    assert DigitsEnd(s, 1, 10) == 2;
    assert Number(s, 1, 2, 10) == 1;
  }

  // ----- reading -------------------------------------------------------------------------------------------

  lemma ModStep(v: nat, base: nat, d: nat, m: nat)
    requires m > 0
    ensures (v % m * base + d) % m == (v * base + d) % m
  {
    var q, r := v / m, v % m;
    assert v == q * m + r;
    Spread(q, m, r, base, d);
    AddMultiple(r * base + d, q * base, m);
  }

  lemma Spread(q: nat, m: nat, r: nat, base: nat, d: nat)
    ensures (q * m + r) * base + d == (r * base + d) + (q * base) * m
  {
  }

  lemma OneMoreDigit(s: seq<byte>, i: nat, k: nat, base: nat, m: nat)
    requires i <= k < |s| && (base == 10 || base == 16) && m > 0 && forall j :: i <= j <= k ==> Digit(s[j], base) >= 0
    ensures Number(s, i, k + 1, base) % m == (Number(s, i, k, base) % m * base + Digit(s[k], base)) % m
  {
    ModStep(Number(s, i, k, base), base, Digit(s[k], base), m);
  }

  /** Reads digits for as long as there are any; the result is their value, reduced. */
  method ReadDigits(s: seq<byte>, start: nat, base: nat, m: nat) returns (end: nat, result: nat)
    requires start < |s| && s[|s| - 1] == NUL && (base == 10 || base == 16) && m > 0
    ensures end == DigitsEnd(s, start, base) && result == Number(s, start, end, base) % m
  {
    end, result := start, 0;
    while true
      invariant start <= end < |s| && forall j :: start <= j < end ==> Digit(s[j], base) >= 0
      invariant result == Number(s, start, end, base) % m
      invariant DigitsEnd(s, end, base) == DigitsEnd(s, start, base)
      decreases |s| - end
    {
      if Digit(s[end], base) < 0 { break; }
      result := AddDigit(result, s, start, end, base, m);
      end := end + 1;
    }
  }

  method AddDigit(result: nat, s: seq<byte>, ghost i: nat, k: nat, base: nat, m: nat) returns (r: nat)
    requires i <= k < |s| && (base == 10 || base == 16) && m > 0 && forall j :: i <= j <= k ==> Digit(s[j], base) >= 0
    requires result == Number(s, i, k, base) % m
    ensures r == Number(s, i, k + 1, base) % m
  {
    OneMoreDigit(s, i, k, base, m);
    r := (result * base + Digit(s[k], base)) % m;
  }

  method SkipZeros(s: seq<byte>, start: nat, base: nat) returns (k: nat)
    requires start < |s| && s[|s| - 1] == NUL && (base == 10 || base == 16)
    ensures start <= k < |s| && s[k] != ZERO && DigitsEnd(s, k, base) == DigitsEnd(s, start, base)
    ensures Number(s, start, DigitsEnd(s, start, base), base) == Number(s, k, DigitsEnd(s, k, base), base)
  {
    k := start;
    while s[k] == ZERO
      invariant start <= k < |s| && DigitsEnd(s, k, base) == DigitsEnd(s, start, base)
      invariant forall j :: start <= j < k ==> s[j] == ZERO
      decreases |s| - k
    {
      k := k + 1;
    }
    LeadingZeros(s, start, k, DigitsEnd(s, start, base), base);
  }

  lemma {:induction false} LeadingZeros(s: seq<byte>, i: nat, k: nat, e: nat, base: nat)
    requires i <= k <= e <= |s| && (base == 10 || base == 16) && (forall j :: i <= j < e ==> Digit(s[j], base) >= 0)
    requires forall j :: i <= j < k ==> s[j] == ZERO
    ensures Number(s, i, e, base) == Number(s, k, e, base)
    decreases e
  {
    if e > i { LeadingZeros(s, i, if k < e then k else e - 1, e - 1, base); }
  }

  function Power(base: nat, n: nat): (p: nat)
    requires base > 1
    ensures p > 0
  {
    if n == 0 then 1 else Power(base, n - 1) * base
  }

  lemma {:induction false} PowerGrows(base: nat, a: nat, b: nat)
    requires base > 1 && a <= b
    ensures Power(base, a) <= Power(base, b)
    decreases b
  {
    if a < b {
      PowerGrows(base, a, b - 1);
      MulMono(1, base, Power(base, b - 1));
    }
  }

  /** The leading digit and the number of digits enclose the value. */
  lemma {:induction false} Enclosed(s: seq<byte>, i: nat, k: nat, base: nat)
    requires i < k <= |s| && (base == 10 || base == 16) && forall j :: i <= j < k ==> Digit(s[j], base) >= 0
    ensures var d, p := Digit(s[i], base), Power(base, k - i - 1);
      d * p <= Number(s, i, k, base) < (d + 1) * p
    decreases k
  {
    var d, v := Digit(s[i], base), Number(s, i, k - 1, base);
    if k == i + 1 {
      assert v == 0;
    } else {
      Enclosed(s, i, k - 1, base);
      var p := Power(base, k - 1 - i - 1);
      Enlarge(d, p, v, base, Digit(s[k - 1], base));
    }
  }

  lemma Enlarge(d: nat, p: nat, v: nat, base: nat, e: nat)
    requires d * p <= v < (d + 1) * p && e < base
    ensures d * (p * base) <= v * base + e < (d + 1) * (p * base)
  {
    MulMono(d * p, v, base);
    MulMono(v + 1, (d + 1) * p, base);
    Regroup(d, p, base);
    Regroup(d + 1, p, base);
  }

  lemma Regroup(d: nat, p: nat, base: nat)
    ensures (d * p) * base == d * (p * base)
  {
  }

  function MaxDigits10(w: nat): nat {
    if w == 64 then 20 else if w == 32 then 10 else 5
  }

  function MaxLead(w: nat): byte {
    ZERO + if w == 64 then 1 else if w == 32 then 4 else 6
  }

  /** The test for decimal overflow: number of digits, leading digit, highest bit. */
  predicate Overflow10(w: nat, digits: nat, lead: byte, result: nat) {
    digits >= MaxDigits10(w) &&
    !(digits == MaxDigits10(w) && (lead < MaxLead(w) || (lead == MaxLead(w) && result >= Modulus(w) / 2)))
  }

  lemma PowersOf10()
    ensures Power(10, 4) == 10_000 && Power(10, 5) == 100_000
    ensures Power(10, 9) == 1_000_000_000 && Power(10, 10) == 10_000_000_000
    ensures Power(10, 19) == 10_000_000_000_000_000_000 && Power(10, 20) == 100_000_000_000_000_000_000
  {
    assert Power(10, 4) == 10_000;
    assert Power(10, 5) == Power(10, 4) * 10;
    assert Power(10, 9) == 1_000_000_000 by { assert Power(10, 7) == 10_000_000; }
    assert Power(10, 10) == Power(10, 9) * 10;
    assert Power(10, 14) == 100_000_000_000_000 by { assert Power(10, 12) == 1_000_000_000_000; }
    assert Power(10, 19) == 10_000_000_000_000_000_000 by { assert Power(10, 17) == 100_000_000_000_000_000; }
    assert Power(10, 20) == Power(10, 19) * 10;
  }

  /** The decimal test is exact: it says whether the value does not fit, although it sees only the reduced value. */
  lemma OverflowIsExact10(w: nat, s: seq<byte>, i: nat, k: nat)
    requires w in {16, 32, 64} && i <= k <= |s| && (forall j :: i <= j < k ==> Digit(s[j], 10) >= 0)
    requires i < |s| && s[i] != ZERO
    ensures var v := Number(s, i, k, 10); Overflow10(w, k - i, s[i], v % Modulus(w)) <==> v >= Modulus(w)
  {
    var n, v := k - i, Number(s, i, k, 10);
    if n > 0 {
      Enclosed(s, i, k, 10);
      var d, p := Digit(s[i], 10), Power(10, n - 1);
      if n > MaxDigits10(w) {
        TooLong(w, n, d, v);
      } else if n < MaxDigits10(w) {
        ShortEnough(w, n, d, v);
      } else {
        LeadDecides(w, d, v);
      }
    }
  }

  lemma TooLong(w: nat, n: nat, d: nat, v: nat)
    requires w in {16, 32, 64} && n > MaxDigits10(w) && d > 0 && v >= d * Power(10, n - 1)
    ensures v >= Modulus(w)
  {
    PowersOf10();
    PowerGrows(10, MaxDigits10(w), n - 1);
    MulMono(1, d, Power(10, n - 1));
  }

  lemma ShortEnough(w: nat, n: nat, d: nat, v: nat)
    requires w in {16, 32, 64} && 0 < n < MaxDigits10(w) && d < 10 && v < (d + 1) * Power(10, n - 1)
    ensures v < Modulus(w)
  {
    PowersOf10();
    PowerGrows(10, n, MaxDigits10(w) - 1);
    MulMono(d + 1, 10, Power(10, n - 1));
  }

  lemma LeadDecides(w: nat, d: nat, v: nat)
    requires w in {16, 32, 64} && d < 10 &&
             d * Power(10, MaxDigits10(w) - 1) <= v < (d + 1) * Power(10, MaxDigits10(w) - 1)
    ensures v >= Modulus(w) <==>
            !(ZERO + d < MaxLead(w) || (ZERO + d == MaxLead(w) && v % Modulus(w) >= Modulus(w) / 2))
  {
    PowersOf10();
    var m := Modulus(w);
    if v < m { Remainder(v, m, 0, v); } else if v < 2 * m { Remainder(v, m, 1, v - m); }
  }

  lemma PowersOf16()
    ensures Power(16, 4) == Modulus(16) && Power(16, 8) == Modulus(32) && Power(16, 16) == Modulus(64)
  {
    assert Power(16, 4) == 0x1_0000;
    assert Power(16, 8) == 0x1_0000_0000 by { assert Power(16, 6) == 0x100_0000; }
    assert Power(16, 12) == 0x1_0000_0000_0000 by { assert Power(16, 10) == 0x100_0000_0000; }
    assert Power(16, 16) == 0x1_0000_0000_0000_0000 by { assert Power(16, 14) == 0x100_0000_0000_0000; }
  }

  lemma {:induction false} OverflowIsExact16(w: nat, s: seq<byte>, i: nat, k: nat)
    requires w in {16, 32, 64} && i <= k <= |s| && (forall j :: i <= j < k ==> Digit(s[j], 16) >= 0)
    requires i < |s| && s[i] != ZERO
    ensures k - i > w / 8 * 2 <==> Number(s, i, k, 16) >= Modulus(w)
  {
    var n, v := k - i, Number(s, i, k, 16);
    PowersOf16();
    if n > 0 {
      Enclosed(s, i, k, 16);
      var d, p := Digit(s[i], 16), Power(16, n - 1);
      if n > w / 8 * 2 {
        PowerGrows(16, w / 8 * 2, n - 1);
        MulMono(1, d, p);
      } else {
        PowerGrows(16, n, w / 8 * 2);
        MulMono(d + 1, 16, p);
      }
    }
  }

  /** The magnitude, reduced, and whether it does not fit. */
  method ReadMagnitude(s: seq<byte>, i: nat, w: nat) returns (result: nat, overflow: bool)
    requires w in {16, 32, 64} && i < |s| && s[|s| - 1] == NUL
    ensures overflow <==> Magnitude(s, i) >= Modulus(w)
    ensures result == Magnitude(s, i) % Modulus(w)
  {
    var m := Modulus(w);
    if s[i] == ZERO && Lower(s[i + 1]) == 'x' as int {
      var start := SkipZeros(s, i + 2, 16);
      var end;
      end, result := ReadDigits(s, start, 16, m);
      overflow := end - start > w / 8 * 2;
      OverflowIsExact16(w, s, start, end);
    } else {
      var start := SkipZeros(s, i, 10);
      var end;
      end, result := ReadDigits(s, start, 10, m);
      overflow := Overflow10(w, end - start, s[start], result);
      OverflowIsExact10(w, s, start, end);
    }
  }

  /** Reads an integer into an unsigned type of `w` bits, whatever the number of digits. */
  method StringToInteger(s: seq<byte>, w: nat, minv: nat, maxv: nat) returns (r: nat)
    requires w in {16, 32, 64} && minv < Modulus(w) && maxv < Modulus(w)
    requires s != [] && s[|s| - 1] == NUL
    ensures r == Result(s, w, minv, maxv)
  {
    var m := Modulus(w);
    var i := SkipWhite(s);
    var negative := s[i] == MINUS;
    if IsSign(s[i]) { i := i + 1; }
    var result, overflow := ReadMagnitude(s, i, w);
    r := Settle(result, overflow, negative, w, minv, maxv, Magnitude(s, i));
  }

  /** The last step: out of range is told from the reduced magnitude. */
  method Settle(result: nat, overflow: bool, negative: bool, w: nat, minv: nat, maxv: nat, ghost v: nat)
    returns (r: nat)
    requires w in {16, 32, 64} && minv < Modulus(w) && maxv < Modulus(w)
    requires result == v % Modulus(w) && (overflow <==> v >= Modulus(w))
    ensures r == if w == 16 && negative then minv
                 else Clamp(if negative then 0 - v else v, Lowest(minv, w), maxv) % Modulus(w)
  {
    var m := Modulus(w);
    if negative {
      r := if overflow || result > NegativeLimit(minv, w) then minv else (m - result) % m;
    } else {
      r := if overflow || result > maxv then maxv else result;
    }
    Settled(v, negative, m, minv, maxv);
    Range(0, m, minv, maxv);
    Nothing(result, m);
  }

  method SkipWhite(s: seq<byte>) returns (i: nat)
    requires s != [] && s[|s| - 1] == NUL
    ensures i == SkipSpaces(s, 0) < |s|
  {
    i := 0;
    while IsSpace(s[i])
      invariant 0 <= i < |s| && SkipSpaces(s, i) == SkipSpaces(s, 0)
      decreases |s| - i
    {
      i := i + 1;
    }
  }

  lemma Nothing(r: nat, m: nat)
    requires r < m
    ensures r == 0 ==> (m - r) % m == 0
  {
    if r == 0 { Remainder(m, m, 1, 0); }
  }

  /** What that step gives, unless the limit has been promoted. */
  lemma Settled(v: nat, negative: bool, m: nat, minv: nat, maxv: nat)
    requires m > 1 && minv < m && maxv < m
    ensures var result := v % m;
      Clamp(if negative then 0 - v else v, if minv == 0 then 0 else minv - m, maxv) % m ==
      if negative then (if v >= m || result > (m - minv) % m then minv else (m - result) % m)
      else (if v >= m || result > maxv then maxv else result)
  {
    Reduced(v, v % m, m);
    Range(if negative then 0 - v else v, m, minv, maxv);
    Range(0, m, minv, maxv);
    if negative && 0 < v < m { Remainder(m - v, m, 0, m - v); }
    if v == 0 { Remainder(m, m, 1, 0); }
  }

  lemma Reduced(v: nat, r: nat, m: nat)
    requires m > 0 && r == v % m
    ensures v < m ==> r == v
  {
  }

  /** Reducing a number in the range of the type. */
  lemma Range(v: int, m: nat, minv: nat, maxv: nat)
    requires m > 1 && minv < m && maxv < m
    ensures 0 <= v < m ==> v % m == v
    ensures 0 - m < v < 0 ==> v % m == v + m
    ensures minv % m == minv && maxv % m == maxv && (m - minv) % m == (if minv == 0 then 0 else m - minv) &&
            (minv - m) % m == minv
  {
    if 0 <= v < m { Remainder(v, m, 0, v); }
    if 0 - m < v < 0 { Remainder(v, m, -1, v + m); }
    Remainder(minv, m, 0, minv);
    Remainder(maxv, m, 0, maxv);
    Remainder(minv - m, m, -1, minv);
    if minv == 0 { Remainder(m, m, 1, 0); } else { Remainder(m - minv, m, 0, m - minv); }
  }

  // ----- writing -------------------------------------------------------------------------------------------

  /** Decimal digits, without leading zeros. */
  function Decimal(v: nat): (t: seq<byte>)
    ensures t != []
  {
    if v < 10 then [ZERO + v] else Decimal(v / 10) + [ZERO + v % 10]
  }

  function Signed(v: int): seq<byte> {
    if v < 0 then [MINUS] + Decimal(0 - v) else Decimal(v)
  }

  /** Writes digits from the back of the buffer; the place before the first digit is overwritten too. */
  method IntegerToString(buf: array<byte>, ghost begin: nat, end: nat, value: nat, negative: bool, w: nat)
    returns (start: nat)
    requires value < Modulus(w) && begin < end <= buf.Length
    requires begin + |Decimal(if negative then (Modulus(w) - value) % Modulus(w) else value)| < end
    modifies buf
    ensures begin <= start < end
    ensures buf[start..end] == (if negative then [MINUS] else []) +
            Decimal(if negative then (Modulus(w) - value) % Modulus(w) else value)
    ensures forall k :: 0 <= k < buf.Length && !(begin <= k < end) ==> buf[k] == old(buf[k])
  {
    var rest := if negative then (Modulus(w) - value) % Modulus(w) else value;
    var result := WriteDigits(buf, begin, end, rest);
    ghost var digits := buf[result..end];
    buf[result - 1] := MINUS;
    assert buf[result..end] == digits;
    assert buf[result - 1..end] == [MINUS] + buf[result..end];
    start := if negative then result - 1 else result;
  }

  /** The loop that writes the digits; the result is the place of the first one. */
  method WriteDigits(buf: array<byte>, ghost begin: nat, end: nat, value: nat) returns (first: nat)
    requires begin + |Decimal(value)| < end <= buf.Length
    modifies buf
    ensures first == end - |Decimal(value)| && buf[first..end] == Decimal(value)
    ensures forall k :: 0 <= k < buf.Length && !(begin <= k < end) ==> buf[k] == old(buf[k])
  {
    var rest := value;
    first := end - 1;
    buf[first] := ZERO + rest % 10;
    while rest >= 10
      invariant 0 <= rest && begin < first < end && Decimal(value) == Decimal(rest) + buf[first..end][1..]
      invariant buf[first] == ZERO + rest % 10 && |Decimal(rest)| == |Decimal(value)| - (end - 1 - first)
      invariant forall k :: 0 <= k < buf.Length && !(begin <= k < end) ==> buf[k] == old(buf[k])
      decreases rest
    {
      ghost var done := buf[first..end];
      rest := rest / 10;
      first := first - 1;
      buf[first] := ZERO + rest % 10;
      assert buf[first..end][1..] == done;
      assert done == [done[0]] + done[1..];
    }
    assert buf[first..end] == [buf[first]] + buf[first..end][1..];
  }

  lemma {:induction false} DecimalLength(v: nat, n: nat)
    requires n > 0 && v < Power(10, n)
    ensures |Decimal(v)| <= n
    decreases n
  {
    if v >= 10 { DecimalLength(v / 10, n - 1); }
  }

  lemma {:induction false} DecimalDigits(v: nat)
    ensures forall k :: 0 <= k < |Decimal(v)| ==> IsDigit(Decimal(v)[k])
  {
    if v >= 10 { DecimalDigits(v / 10); }
  }

  lemma {:induction false} DecimalLead(v: nat)
    ensures Decimal(v)[0] == ZERO ==> v == 0
  {
    if v >= 10 { DecimalLead(v / 10); }
  }

  /** Digits read back. */
  lemma {:induction false} DecimalNumber(s: seq<byte>, i: nat, v: nat)
    requires i + |Decimal(v)| <= |s| && s[i..i + |Decimal(v)|] == Decimal(v)
    requires forall j :: i <= j < i + |Decimal(v)| ==> Digit(s[j], 10) >= 0
    ensures Number(s, i, i + |Decimal(v)|, 10) == v
    decreases v
  {
    var t := Decimal(v);
    var k := i + |t|;
    assert s[k - 1] == s[i..k][|t| - 1] == t[|t| - 1];
    if v >= 10 {
      assert s[i..k - 1] == s[i..k][..|t| - 1] == Decimal(v / 10);
      DecimalNumber(s, i, v / 10);
    } else {
      assert Number(s, i, i, 10) == 0;
    }
  }

  lemma {:induction false} DigitsEndIs(s: seq<byte>, i: nat, k: nat)
    requires i <= k < |s| && Digit(s[k], 10) < 0 && forall j :: i <= j < k ==> Digit(s[j], 10) >= 0
    ensures DigitsEnd(s, i, 10) == k
    decreases k - i
  {
    if i < k { DigitsEndIs(s, i + 1, k); }
  }

  lemma {:induction false} DecimalMagnitude(pre: seq<byte>, v: nat)
    ensures Magnitude(pre + Decimal(v) + [NUL], |pre|) == v && IsDigit((pre + Decimal(v) + [NUL])[|pre|])
  {
    var t := Decimal(v);
    var s := pre + t + [NUL];
    var i, k := |pre|, |pre| + |t|;
    DecimalDigits(v);
    DecimalLead(v);
    assert s[i..k] == t;
    assert forall j :: i <= j < k ==> s[j] == t[j - i];
    assert s[k] == NUL;
    DecimalNumber(s, i, v);
    DigitsEndIs(s, i, k);
    assert s[i + 1] == NUL || IsDigit(s[i + 1]);
  }

  /** What is written means the number, the smallest one included. */
  lemma {:induction false} WriteThenRead(v: int)
    ensures Meaning(Signed(v) + [NUL]) == v
  {
    if v < 0 {
      assert Signed(v) + [NUL] == [MINUS] + Decimal(0 - v) + [NUL];
      DecimalMagnitude([MINUS], 0 - v);
    } else {
      assert Signed(v) + [NUL] == [] + Decimal(v) + [NUL];
      DecimalMagnitude([], v);
    }
  }

  /** Storing a number in a 64-character buffer and reading the text back gives the number, signed or unsigned; but at
      16 bits a negative one comes back as the smallest. */
  method SetThenGet(v: int, w: nat, signed: bool) returns (r: nat)
    requires w in {16, 32, 64}
    requires if signed then 0 - Modulus(w) / 2 <= v < Modulus(w) / 2 else 0 <= v < Modulus(w)
    ensures r == if w == 16 && v < 0 then 0x8000 else v % Modulus(w)
  {
    var m := Modulus(w);
    var buf := new byte[64](_ => 0);
    Stored(v, m);
    PowersOf10();
    DecimalLength(if v < 0 then 0 - v else v, 20);
    var start := IntegerToString(buf, 0, 64, v % m, v < 0, w);
    assert buf[start..64] == Signed(v);
    WriteThenRead(v);
    var minv, maxv := if signed then m / 2 else 0, if signed then m / 2 - 1 else m - 1;
    SignRead(v);
    r := StringToInteger(buf[start..64] + [NUL], w, minv, maxv);
  }

  lemma SignRead(v: int)
    ensures Negative(Signed(v) + [NUL]) <==> v < 0
  {
    DecimalDigits(if v < 0 then 0 - v else v);
    var s := Signed(v) + [NUL];
    assert v >= 0 ==> s[0] == Decimal(v)[0];
    assert SkipSpaces(s, 0) == 0;
  }

  lemma Stored(v: int, m: nat)
    requires m > 0 && 0 - m < v < m
    ensures v < 0 ==> (m - v % m) % m == 0 - v
    ensures v >= 0 ==> v % m == v
  {
    if v < 0 {
      Remainder(v, m, -1, v + m);
      Remainder(m - (v + m), m, 0, 0 - v);
    } else {
      Remainder(v, m, 0, v);
    }
  }
}
