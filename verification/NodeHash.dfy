// The open-addressing table behind the removal of duplicates.
//
// Collisions are resolved by growing steps: probe `k` lies `1 + 2 + ... + k` places behind the first one.
// In a table whose size is a power of two these places are all different, so a probe sequence meets every
// bucket.
module NodeHash {
  import opened Basics

  // ----- the probe sequence ------------------------------------------------------------------------------

  function Triangle(k: nat): nat {
    if k == 0 then 0 else Triangle(k - 1) + k
  }

  function Probe(h: nat, k: nat, size: nat): (b: nat)
    requires size > 0
    ensures b < size
  {
    (h + Triangle(k)) % size
  }

  lemma {:induction false} TwiceTriangle(k: nat)
    ensures 2 * Triangle(k) == k * (k + 1)
  {
    if k > 0 {
      TwiceTriangle(k - 1);
      assert 2 * Triangle(k) == (k - 1) * k + 2 * k;
      Square(k);
    }
  }

  lemma Square(k: nat)
    requires k > 0
    ensures (k - 1) * k + 2 * k == k * (k + 1)
  {
  }

  /** If a power of two divides a product with an odd factor, it divides the other one. */
  lemma {:induction false} OddFactor(a: nat, b: nat, n: nat, q: nat)
    requires a % 2 == 1 && a * b == q * Pow2(n)
    ensures exists r: nat :: b == r * Pow2(n)
    decreases n
  {
    if n == 0 {
      assert b == b * Pow2(0);
    } else {
      var c := b / 2;
      EvenFactor(a, b, q * Pow2(n - 1), q, Pow2(n - 1));
      assert b == 2 * c;
      Halved(a, c, q, Pow2(n - 1));
      OddFactor(a, c, n - 1, q);
      var r: nat :| c == r * Pow2(n - 1);
      Doubled(r, Pow2(n - 1));
      assert b == r * Pow2(n);
    }
  }

  lemma EvenFactor(a: nat, b: nat, m: nat, q: nat, p: nat)
    requires a % 2 == 1 && a * b == q * (2 * p) && m == q * p
    ensures b % 2 == 0
  {
    assert a * b == 2 * m by { Doubled(q, p); }
    if b % 2 == 1 {
      var x, y := a / 2, b / 2;
      assert a == 2 * x + 1 && b == 2 * y + 1;
      OddProduct(x, y);
    }
  }

  lemma OddProduct(x: nat, y: nat)
    ensures (2 * x + 1) * (2 * y + 1) == 2 * (2 * (x * y) + x + y) + 1
  {
  }

  lemma Halved(a: nat, c: nat, q: nat, p: nat)
    requires a * (2 * c) == q * (2 * p)
    ensures a * c == q * p
  {
    Doubled(a, c);
    Doubled(q, p);
  }

  lemma Doubled(r: nat, p: nat)
    ensures r * (2 * p) == 2 * (r * p)
  {
  }

  /** The difference of two probes, factored. */
  lemma TriangleDifference(i: nat, j: nat)
    requires i <= j
    ensures 2 * (Triangle(j) - Triangle(i)) == (j - i) * (j + i + 1)
  {
    TwiceTriangle(i);
    TwiceTriangle(j);
    Factored(i, j);
  }

  lemma Factored(i: nat, j: nat)
    requires i <= j
    ensures j * (j + 1) - i * (i + 1) == (j - i) * (j + i + 1)
  {
    var d := j - i;
    assert j == i + d;
    assert (i + d) * (i + d + 1) == i * (i + 1) + d * (2 * i + d + 1);
  }

  lemma NoMultiple(b: nat, m: nat, r: nat)
    requires 0 < b < m
    ensures b != r * m
  {
    MulMono(1, r, m);
  }

  lemma NotDivisible(a: nat, b: nat, n: nat, q: nat)
    requires a % 2 == 1 && 0 < b < Pow2(n)
    ensures a * b != q * Pow2(n)
  {
    if a * b == q * Pow2(n) {
      OddFactor(a, b, n, q);
      var r: nat :| b == r * Pow2(n);
      NoMultiple(b, Pow2(n), r);
    }
  }

  /** One of the two factors is odd, and the other one is too small. */
  lemma FactorsNotMultiple(a: nat, b: nat, n: nat, q: nat)
    requires 0 < a < b < Pow2(n) && (a + b) % 2 == 1
    ensures a * b != q * Pow2(n)
  {
    if a % 2 == 1 {
      NotDivisible(a, b, n, q);
    } else {
      Commuted(a, b);
      NotDivisible(b, a, n, q);
    }
  }

  lemma DifferenceNotMultiple(i: nat, j: nat, n: nat, q: nat)
    requires i < j < Pow2(n)
    ensures Triangle(j) - Triangle(i) != q * Pow2(n)
  {
    TriangleDifference(i, j);
    Doubled(q, Pow2(n));
    FactorsNotMultiple(j - i, j + i + 1, n + 1, q);
  }

  /** Two probes of one sequence differ, up to the size of the table. */
  lemma ProbesDiffer(h: nat, i: nat, j: nat, n: nat)
    requires i < j < Pow2(n)
    ensures Probe(h, i, Pow2(n)) != Probe(h, j, Pow2(n))
  {
    if Probe(h, i, Pow2(n)) == Probe(h, j, Pow2(n)) {
      var q := SameRemainder(h + Triangle(i), h + Triangle(j), Pow2(n), i, j);
      DifferenceNotMultiple(i, j, n, q);
    }
  }

  lemma Commuted(a: nat, b: nat)
    ensures a * b == b * a
  {
  }

  lemma {:induction false} TriangleGrows(i: nat, j: nat)
    requires i <= j
    ensures Triangle(i) <= Triangle(j)
    decreases j
  {
    if i < j { TriangleGrows(i, j - 1); }
  }

  lemma SameRemainder(x: nat, y: nat, size: nat, i: nat, j: nat) returns (q: nat)
    requires size > 0 && i <= j && y - x == Triangle(j) - Triangle(i) && x % size == y % size
    ensures y - x == q * size
  {
    TriangleGrows(i, j);
    q := Quotients(x, y, x / size, y / size, size, x % size);
  }

  lemma Quotients(x: nat, y: nat, a: nat, b: nat, size: nat, r: nat) returns (q: nat)
    requires x == a * size + r && y == b * size + r && x <= y && r < size
    ensures y - x == q * size
  {
    MulMono(b + 1, a, size);
    q := b - a;
    Distribute(b - a, a, size);
  }

  // ----- every bucket is met -------------------------------------------------------------------------------

  ghost function Met(h: nat, k: nat, size: nat): set<nat>
    requires size > 0
  {
    set i: nat | i < k :: Probe(h, i, size)
  }

  lemma {:induction false} MetCount(h: nat, k: nat, n: nat)
    requires k <= Pow2(n)
    ensures |Met(h, k, Pow2(n))| == k
    decreases k
  {
    if k == 0 {
      assert Met(h, 0, Pow2(n)) == {};
    } else {
      MetCount(h, k - 1, n);
      forall i: nat | i < k - 1 ensures Probe(h, i, Pow2(n)) != Probe(h, k - 1, Pow2(n)) {
        ProbesDiffer(h, i, k - 1, n);
      }
      assert Met(h, k, Pow2(n)) == Met(h, k - 1, Pow2(n)) + {Probe(h, k - 1, Pow2(n))};
    }
  }

  ghost function Buckets(size: nat): (r: set<nat>)
    ensures |r| == size && forall b: nat :: b in r <==> b < size
  {
    if size == 0 then {} else Buckets(size - 1) + {size - 1}
  }

  lemma SubsetEqual<T>(a: set<T>, b: set<T>)
    requires a <= b && |a| == |b|
    ensures a == b
  {
    assert b == a + (b - a) && |b| == |a| + |b - a|;
    assert b - a == {};
  }

  /** In a table whose size is a power of two, every bucket is met by every probe sequence. */
  lemma EveryBucketMet(h: nat, b: nat, n: nat)
    requires b < Pow2(n)
    ensures exists k: nat :: k < Pow2(n) && Probe(h, k, Pow2(n)) == b
  {
    var size := Pow2(n);
    MetCount(h, size, n);
    forall x | x in Met(h, size, size) ensures x in Buckets(size) {}
    SubsetEqual(Met(h, size, size), Buckets(size));
    assert b in Buckets(size);
  }

  // ----- the table -----------------------------------------------------------------------------------------

  type Slot<T> = Option<T>

  ghost function Keys<T>(t: seq<Slot<T>>): set<T> {
    set i | 0 <= i < |t| && t[i].Some? :: t[i].value
  }

  /** A stored key has met only other keys on the way to its bucket. */
  ghost predicate Placed<T(!new)>(t: seq<Slot<T>>, hash: T -> nat, b: nat)
    requires b < |t|
  {
    t[b].Some? ==> exists k: nat :: Path(t, hash(t[b].value), t[b].value, k, b)
  }

  /** Probe `k` of a key is bucket `b`, and the probes before met other keys. */
  ghost predicate Path<T(!new)>(t: seq<Slot<T>>, h: nat, key: T, k: nat, b: nat) {
    && k < |t| && Probe(h, k, |t|) == b
    && forall j: nat {:trigger Probe(h, j, |t|)} :: j < k ==>
       t[Probe(h, j, |t|)].Some? && t[Probe(h, j, |t|)].value != key
  }

  ghost predicate TableOk<T(!new)>(t: seq<Slot<T>>, hash: T -> nat) {
    && (forall i, j :: 0 <= i < j < |t| && t[i].Some? ==> t[i] != t[j])
    && (forall b: nat {:trigger Placed(t, hash, b)} :: b < |t| ==> Placed(t, hash, b))
  }

  /** With fewer keys than buckets some bucket is free. */
  lemma FreeBucket<T>(t: seq<Slot<T>>)
    requires |Keys(t)| < |t| && forall i, j :: 0 <= i < j < |t| && t[i].Some? ==> t[i] != t[j]
    ensures exists b: nat :: b < |t| && t[b] == None
  {
    if forall b: nat :: b < |t| ==> t[b] != None { KeyCount(t, |t|); }
  }

  lemma {:induction false} KeyCount<T>(t: seq<Slot<T>>, n: nat)
    requires n <= |t| && (forall i, j :: 0 <= i < j < |t| && t[i].Some? ==> t[i] != t[j]) &&
             forall b: nat :: b < |t| ==> t[b] != None
    ensures |Keys(t[..n])| == n && (n == |t| ==> Keys(t[..n]) == Keys(t))
    decreases n
  {
    if n == |t| { assert t[..n] == t; }
    if n == 0 {
      assert Keys(t[..0]) == {};
    } else {
      KeyCount(t, n - 1);
      assert t[n - 1].value !in Keys(t[..n - 1]);
      assert Keys(t[..n]) == Keys(t[..n - 1]) + {t[n - 1].value} by {
        forall x | x in Keys(t[..n]) ensures x in Keys(t[..n - 1]) + {t[n - 1].value} {
          var i :| 0 <= i < n && t[..n][i].Some? && t[..n][i].value == x;
          if i < n - 1 { assert t[..n - 1][i] == t[i]; }
        }
        forall x | x in Keys(t[..n - 1]) ensures x in Keys(t[..n]) {
          var i :| 0 <= i < n - 1 && t[..n - 1][i].Some? && t[..n - 1][i].value == x;
          assert t[..n][i] == t[i];
        }
        assert t[..n][n - 1] == t[n - 1];
      }
    }
  }

  /** Inserts a key; says whether it is new. The table is never found full. */
  method HashInsert<T(!new, ==)>(a: array<Slot<T>>, key: T, hash: T -> nat, ghost n: nat) returns (isNew: bool)
    requires a.Length == Pow2(n) && TableOk(a[..], hash) && |Keys(a[..])| < a.Length
    modifies a
    ensures TableOk(a[..], hash) && Keys(a[..]) == Keys(old(a[..])) + {key} && isNew == (key !in Keys(old(a[..])))
  {
    ghost var t := a[..];
    var h := hash(key);
    var size := a.Length;
    var bucket := h % size;
    var probe := 0;
    FreeBucket(t);
    ghost var free: nat :| free < |t| && t[free] == None;
    EveryBucketMet(h, free, n);
    ghost var last: nat :| last < size && Probe(h, last, size) == free;
    while probe < size
      invariant 0 <= probe <= last && bucket == Probe(h, probe, size) && a[..] == t
      invariant forall j: nat {:trigger Probe(h, j, size)} :: j < probe ==>
                t[Probe(h, j, size)].Some? && t[Probe(h, j, size)] != Some(key)
      decreases size - probe
    {
      if a[bucket] == None {
        a[bucket] := Some(key);
        Absent(t, hash, key, probe);
        Stored(t, a[..], hash, key, probe);
        return true;
      }
      if a[bucket] == Some(key) {
        assert key in Keys(t);
        assert Keys(t) == Keys(t) + {key};
        return false;
      }
      NextProbe(h, probe, size);
      bucket := (bucket + probe + 1) % size;
      probe := probe + 1;
    }
    assert false;
    return false;
  }

  lemma {:induction false} NextProbe(h: nat, k: nat, size: nat)
    requires size > 0
    ensures Probe(h, k + 1, size) == (Probe(h, k, size) + k + 1) % size
  {
    var x := h + Triangle(k);
    assert x == x / size * size + x % size;
    AddMultiple(x % size + k + 1, x / size, size);
  }

  /** A key that has not been met before a free bucket is not in the table. */
  lemma Absent<T(!new)>(t: seq<Slot<T>>, hash: T -> nat, key: T, k: nat)
    requires TableOk(t, hash) && k < |t| && t[Probe(hash(key), k, |t|)] == None
    requires forall j: nat {:trigger Probe(hash(key), j, |t|)} :: j < k ==>
             t[Probe(hash(key), j, |t|)].Some? && t[Probe(hash(key), j, |t|)] != Some(key)
    ensures key !in Keys(t)
  {
    forall b: nat | b < |t| ensures t[b] != Some(key) {
      assert Placed(t, hash, b);
      forall m: nat ensures Path(t, hash(key), key, m, b) ==> t[b] != Some(key) {
        PathEnds(t, hash(key), key, k, b, m);
      }
    }
  }

  lemma PathEnds<T(!new)>(t: seq<Slot<T>>, h: nat, key: T, k: nat, b: nat, m: nat)
    requires k < |t| && b < |t| && t[Probe(h, k, |t|)] == None
    requires forall j: nat {:trigger Probe(h, j, |t|)} :: j < k ==> t[Probe(h, j, |t|)] != Some(key)
    ensures Path(t, h, key, m, b) ==> t[b] != Some(key)
  {
  }

  /** Storing a new key in a free bucket keeps the table in order. */
  lemma Stored<T(!new)>(t: seq<Slot<T>>, n: seq<Slot<T>>, hash: T -> nat, key: T, k: nat)
    requires TableOk(t, hash) && k < |t| && key !in Keys(t)
    requires var b := Probe(hash(key), k, |t|); t[b] == None && n == t[b := Some(key)]
    requires forall j: nat {:trigger Probe(hash(key), j, |t|)} :: j < k ==>
             t[Probe(hash(key), j, |t|)].Some? && t[Probe(hash(key), j, |t|)] != Some(key)
    ensures TableOk(n, hash) && Keys(n) == Keys(t) + {key}
  {
    var b0 := Probe(hash(key), k, |t|);
    assert Path(n, hash(key), key, k, b0);
    forall b: nat | b < |n| ensures Placed(n, hash, b) {
      if b != b0 && t[b].Some? {
        assert Placed(t, hash, b);
        var m: nat :| Path(t, hash(t[b].value), t[b].value, m, b);
        assert Path(n, hash(n[b].value), n[b].value, m, b);
      }
    }
    forall i, j | 0 <= i < j < |n| && n[i].Some? ensures n[i] != n[j] {
      if i == b0 && t[j].Some? { assert t[j].value in Keys(t); }
      if j == b0 && t[i].Some? { assert t[i].value in Keys(t); }
    }
    forall x | x in Keys(t) ensures x in Keys(n) {
      var i :| 0 <= i < |t| && t[i].Some? && t[i].value == x;
      assert n[i] == t[i];
    }
    assert n[b0].Some? && n[b0].value == key;
    forall x | x in Keys(n) ensures x in Keys(t) + {key} {
      var i :| 0 <= i < |n| && n[i].Some? && n[i].value == x;
      if i != b0 { assert t[i] == n[i]; }
    }
  }
}
