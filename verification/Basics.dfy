// Notions shared by several modules.
//
// A convention: some facts are kept folded. A folded fact `Fact(x)` says
// `forall n: nat {:trigger FactForm(x, n)} :: n < 1 ==> FactForm(x, n)`, which is no more than `FactForm(x, 0)`; but
// the verifier looks inside only where a proof mentions `FactForm(x, 0)`. So an induction or a loop can carry a
// large fact along, and the lemma that needs its contents asks for them.
module Basics {
  datatype Option<+T> = None | Some(value: T)

  type byte = x: int | 0 <= x < 256

  function Min(a: nat, b: nat): nat {
    if a < b then a else b
  }

  /** A sequence without its element at `i`. */
  function Without<T>(s: seq<T>, i: nat): seq<T>
    requires i < |s|
  {
    s[..i] + s[i + 1..]
  }

  lemma Assoc<T>(a: seq<T>, b: seq<T>, c: seq<T>)
    ensures (a + b) + c == a + (b + c) && a + [] == a
  {
  }

  lemma SliceOfPrefix<T>(n: seq<T>, k: nat, a: nat, b: nat)
    requires a <= b <= k <= |n|
    ensures n[a..b] == n[..k][a..b]
  {
  }

  // ----- arithmetic ----------------------------------------------------------------------------------------

  function Pow2(n: nat): (p: nat)
    ensures p > 0
  {
    if n == 0 then 1 else 2 * Pow2(n - 1)
  }

  lemma MulMono(p: nat, q: nat, d: nat)
    ensures p <= q ==> p * d <= q * d
  {
  }

  lemma Distribute(e: int, p: int, m: nat)
    ensures e * m + p * m == (e + p) * m
  {
  }

  lemma MulApart(e: int, q: int, m: nat)
    ensures e < q ==> e * m + m <= q * m
  {
    Distribute(e, q - e, m);
    if e < q { MulMono(1, q - e, m); }
  }

  /** Quotient and remainder are determined. */
  lemma Remainder(v: int, m: nat, q: int, r: nat)
    requires m > 0 && r < m && v == q * m + r
    ensures v / m == q && v % m == r
  {
    var e := v / m;
    assert v == e * m + v % m;
    MulApart(e, q, m);
    MulApart(q, e, m);
  }

  lemma AddMultiple(x: nat, q: nat, m: nat)
    requires m > 0
    ensures (x + q * m) % m == x % m
  {
    Distribute(x / m, q, m);
    Remainder(x + q * m, m, x / m + q, x % m);
  }
}
