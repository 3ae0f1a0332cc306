// The library's own sort: three-way quicksort with a median of three, and insertion sort for small chunks.
module Sorting {
  import opened Basics

  /** A strict order in which any two different elements are comparable. Whether an element precedes itself is left
      open, because a comparator that decides by walking lists may say so of two equal arguments. */
  ghost predicate Total<T(!new)>(less: (T, T) -> bool) {
    && (forall x, y :: x != y ==> !(less(x, y) && less(y, x)))
    && (forall x, y :: x == y || less(x, y) || less(y, x))
    && (forall x, y, z {:trigger less(x, y), less(y, z)} :: less(x, y) && less(y, z) ==> less(x, z))
  }

  lemma Trans<T(!new)>(less: (T, T) -> bool, x: T, y: T, z: T)
    requires Total(less)
    ensures less(x, y) && (less(y, z) || y == z) ==> less(x, z)
    ensures (less(x, y) || x == y) && less(y, z) ==> less(x, z)
    ensures NotAfter(less, x, y) && NotAfter(less, y, z) ==> NotAfter(less, x, z)
  {
  }

  predicate NotAfter<T(==)>(less: (T, T) -> bool, x: T, y: T) {
    x == y || !less(y, x)
  }

  /** Ascending between `lo` and `hi`. */
  ghost predicate Ascending<T(!new)>(t: seq<T>, lo: nat, hi: nat, less: (T, T) -> bool) {
    lo <= hi <= |t| && forall i, j :: lo <= i < j < hi ==> NotAfter(less, t[i], t[j])
  }

  // ----- which ranges can be sorted ------------------------------------------------------------------------

  /** How many elements precede `x`; `x` itself and its copies do if it precedes itself. */
  ghost function Preceding<T(!new)>(s: seq<T>, x: T, less: (T, T) -> bool): nat {
    if s == [] then 0 else (if less(s[0], x) then 1 else 0) + Preceding(s[1..], x, less)
  }

  /** If an element that precedes itself is repeated, no more than sixteen elements precede it. */
  ghost predicate Suitable<T(!new)>(s: seq<T>, less: (T, T) -> bool) {
    forall x {:trigger less(x, x)} :: multiset(s)[x] > 1 && less(x, x) ==> Preceding(s, x, less) <= 16
  }

  lemma {:induction false} PrecedingBoth<T(!new)>(s: seq<T>, t: seq<T>, x: T, less: (T, T) -> bool)
    ensures Preceding(s + t, x, less) == Preceding(s, x, less) + Preceding(t, x, less)
  {
    if s == [] {
      assert s + t == t;
    } else {
      assert (s + t)[1..] == s[1..] + t;
      PrecedingBoth(s[1..], t, x, less);
    }
  }

  lemma {:induction false} PrecedingSame<T(!new)>(s: seq<T>, t: seq<T>, x: T, less: (T, T) -> bool)
    requires multiset(s) == multiset(t)
    ensures Preceding(s, x, less) == Preceding(t, x, less)
    decreases |s|
  {
    if s == [] {
      assert |t| == |multiset(t)| == 0;
    } else {
      var i := TakeOut(s, t);
      PrecedingSame(s[1..], t[..i] + t[i + 1..], x, less);
      PrecedingWithout(t, i, x, less);
    }
  }

  /** A rearrangement without the first element is a rearrangement without it. */
  lemma TakeOut<T>(s: seq<T>, t: seq<T>) returns (i: nat)
    requires multiset(s) == multiset(t) && s != []
    ensures i < |t| && t[i] == s[0] && multiset(s[1..]) == multiset(t[..i] + t[i + 1..])
  {
    assert s[0] in multiset(t);
    i :| 0 <= i < |t| && t[i] == s[0];
    var u := t[i + 1..];
    assert s == [s[0]] + s[1..] && t == t[..i] + ([t[i]] + u);
    assert multiset(s) == multiset{s[0]} + multiset(s[1..]);
    assert multiset(t) == multiset(t[..i]) + (multiset{s[0]} + multiset(u));
    Cancel(multiset{s[0]}, multiset(s[1..]), multiset(t[..i]), multiset(u));
  }

  lemma Cancel<T>(a: multiset<T>, b: multiset<T>, c: multiset<T>, d: multiset<T>)
    requires a + b == c + (a + d)
    ensures b == c + d
  {
    forall x ensures b[x] == (c + d)[x] { assert (a + b)[x] == (c + (a + d))[x]; }
  }

  lemma PrecedingWithout<T(!new)>(t: seq<T>, i: nat, x: T, less: (T, T) -> bool)
    requires i < |t|
    ensures Preceding(t, x, less) == Preceding(t[..i] + t[i + 1..], x, less) + if less(t[i], x) then 1 else 0
  {
    assert t == t[..i] + t[i..] && t[i..][1..] == t[i + 1..];
    PrecedingBoth(t[..i], t[i..], x, less);
    PrecedingBoth(t[..i], t[i + 1..], x, less);
  }

  lemma {:induction false} AllPreceding<T(!new)>(s: seq<T>, x: T, less: (T, T) -> bool)
    requires forall i :: 0 <= i < |s| ==> less(s[i], x)
    ensures Preceding(s, x, less) == |s|
  {
    if s != [] { AllPreceding(s[1..], x, less); }
  }

  /** A part of a rearrangement may be sorted if the whole may. */
  lemma PartSuits<T(!new)>(s: seq<T>, n: seq<T>, lo: nat, hi: nat, less: (T, T) -> bool)
    requires Suitable(s, less) && multiset(n) == multiset(s) && lo <= hi <= |n|
    ensures Suitable(n[lo..hi], less)
  {
    var a, b, c := n[..lo], n[lo..hi], n[hi..];
    assert n == a + b + c;
    assert multiset(n) == multiset(a) + multiset(b) + multiset(c);
    forall x {:trigger less(x, x)} | multiset(b)[x] > 1 && less(x, x) ensures Preceding(b, x, less) <= 16 {
      PrecedingSame(s, n, x, less);
      PrecedingBoth(a + b, c, x, less);
      PrecedingBoth(a, b, x, less);
    }
  }

  // ----- rearranging a range -----------------------------------------------------------------------------

  /** `n` is `t` with the elements between `lo` and `hi` rearranged. */
  ghost predicate Perm<T>(t: seq<T>, n: seq<T>, lo: nat, hi: nat) {
    lo <= hi <= |t| == |n| && n[..lo] == t[..lo] && n[hi..] == t[hi..] && multiset(n[lo..hi]) == multiset(t[lo..hi])
  }

  lemma PermTrans<T>(t: seq<T>, n: seq<T>, m: seq<T>, lo: nat, hi: nat)
    requires Perm(t, n, lo, hi) && Perm(n, m, lo, hi)
    ensures Perm(t, m, lo, hi)
  {
  }

  lemma PermWider<T>(t: seq<T>, n: seq<T>, lo: nat, hi: nat, lo': nat, hi': nat)
    requires Perm(t, n, lo, hi) && lo' <= lo && hi <= hi' <= |t|
    ensures Perm(t, n, lo', hi')
  {
    assert t[lo'..hi'] == t[lo'..lo] + t[lo..hi] + t[hi..hi'];
    assert n[lo'..hi'] == n[lo'..lo] + n[lo..hi] + n[hi..hi'];
    assert n[lo'..lo] == n[..lo][lo'..] == t[lo'..lo];
    assert n[hi..hi'] == n[hi..][..hi' - hi] == t[hi..hi'];
    assert n[..lo'] == n[..lo][..lo'] == t[..lo'];
    assert n[hi'..] == n[hi..][hi' - hi..] == t[hi'..];
  }

  lemma PermMember<T>(t: seq<T>, n: seq<T>, lo: nat, hi: nat, k: nat)
    requires Perm(t, n, lo, hi) && k < |n|
    ensures lo <= k < hi ==> exists i :: lo <= i < hi && t[i] == n[k]
    ensures !(lo <= k < hi) ==> n[k] == t[k]
  {
    if lo <= k < hi {
      assert n[lo..hi][k - lo] in multiset(n[lo..hi]);
      assert n[k] in multiset(t[lo..hi]);
      var i :| 0 <= i < hi - lo && t[lo..hi][i] == n[k];
      assert t[lo + i] == n[k];
    } else if k < lo {
      assert n[..lo][k] == t[..lo][k];
    } else {
      assert n[hi..][k - hi] == t[hi..][k - hi];
    }
  }

  lemma SwapIsPerm<T>(t: seq<T>, i: nat, j: nat, lo: nat, hi: nat)
    requires lo <= i < hi <= |t| && lo <= j < hi
    ensures Perm(t, t[i := t[j]][j := t[i]], lo, hi)
  {
    var n := t[i := t[j]][j := t[i]];
    var s := t[lo..hi];
    assert n[lo..hi] == s[i - lo := s[j - lo]][j - lo := s[i - lo]];
    assert n[..lo] == t[..lo] && n[hi..] == t[hi..];
  }

  function Swapped<T>(s: seq<T>, i: nat, j: nat): seq<T>
    requires i < |s| && j < |s|
  {
    s[i := s[j]][j := s[i]]
  }

  lemma SwappedSlice<T>(t: seq<T>, lo: nat, hi: nat, i: nat, j: nat)
    requires lo <= hi <= |t| && i < hi - lo && j < hi - lo
    ensures Swapped(t, lo + i, lo + j)[lo..hi] == Swapped(t[lo..hi], i, j)
    ensures Swapped(t, lo + i, lo + j)[..lo] == t[..lo] && Swapped(t, lo + i, lo + j)[hi..] == t[hi..]
  {
  }

  /** `n` is a rearrangement of `s`; folded. */
  ghost predicate Same<T>(s: seq<T>, n: seq<T>) {
    forall k: nat {:trigger SameForm(s, n, k)} :: k < 1 ==> SameForm(s, n, k)
  }

  ghost predicate SameForm<T>(s: seq<T>, n: seq<T>, k: nat) {
    |s| == |n| && multiset(s) == multiset(n)
  }

  lemma SwappedIsSame<T>(s: seq<T>, i: nat, j: nat)
    requires i < |s| && j < |s|
    ensures Same(s, Swapped(s, i, j))
  {
    var n := Swapped(s, i, j);
    SwapIsPerm(s, i, j, 0, |s|);
    assert s[0..|s|] == s && n[0..|n|] == n;
    assert SameForm(s, n, 0);
  }

  lemma SameTrans<T>(s: seq<T>, n: seq<T>, m: seq<T>)
    requires Same(s, n) && Same(n, m)
    ensures Same(s, m)
  {
    assert SameForm(s, n, 0) && SameForm(n, m, 0);
    assert SameForm(s, m, 0);
  }

  lemma SameSelf<T>(s: seq<T>)
    ensures Same(s, s)
  {
    assert SameForm(s, s, 0);
  }

  // ----- insertion sort ------------------------------------------------------------------------------------

  method InsertionSort<T(!new)>(a: array<T>, begin: nat, end: nat, less: (T, T) -> bool)
    requires begin <= end <= a.Length && Total(less)
    modifies a
    ensures Perm(old(a[..]), a[..], begin, end) && Ascending(a[..], begin, end, less)
  {
    if begin == end { return; }
    var it := begin + 1;
    while it != end
      invariant begin < it <= end && Perm(old(a[..]), a[..], begin, end) && Ascending(a[..], begin, it, less)
    {
      InsertOne(a, begin, it, end, less);
      it := it + 1;
    }
  }

  /** Moves the element at `it` back to its place. */
  method InsertOne<T(!new)>(a: array<T>, begin: nat, it: nat, ghost end: nat, less: (T, T) -> bool)
    requires begin <= it < end <= a.Length && Total(less) && Ascending(a[..], begin, it, less)
    modifies a
    ensures Perm(old(a[..]), a[..], begin, end) && Ascending(a[..], begin, it + 1, less)
  {
    var val := a[it];
    var hole := it;
    ghost var n := a[..];
    while hole > begin && less(val, a[hole - 1])
      invariant begin <= hole <= it && |n| == a.Length && n[hole] == val
      invariant forall k :: 0 <= k < a.Length && k != hole ==> a[k] == n[k]
      invariant Perm(old(a[..]), n, begin, end) && Inserting(n, begin, hole, it, less)
    {
      Moved(old(a[..]), n, begin, hole, it, end, less);
      n := n[hole := n[hole - 1]][hole - 1 := val];
      a[hole] := a[hole - 1];
      hole := hole - 1;
    }
    Settled(n, begin, hole, it, less);
    a[hole] := val;
    assert a[..] == n;
  }

  /** In order up to `it`, but for the element in the hole, which precedes everything behind it. */
  ghost predicate Inserting<T(!new)>(n: seq<T>, begin: nat, hole: nat, it: nat, less: (T, T) -> bool) {
    && begin <= hole <= it < |n|
    && (forall i, j :: begin <= i < j <= it && i != hole && j != hole ==> NotAfter(less, n[i], n[j]))
    && (forall k :: hole < k <= it ==> NotAfter(less, n[hole], n[k]))
  }

  lemma Moved<T(!new)>(t: seq<T>, n: seq<T>, begin: nat, hole: nat, it: nat, end: nat, less: (T, T) -> bool)
    requires Perm(t, n, begin, end) && Inserting(n, begin, hole, it, less) && it < end && Total(less)
    requires begin < hole && less(n[hole], n[hole - 1])
    ensures var m := n[hole := n[hole - 1]][hole - 1 := n[hole]];
      Perm(t, m, begin, end) && Inserting(m, begin, hole - 1, it, less)
  {
    var m := n[hole := n[hole - 1]][hole - 1 := n[hole]];
    SwapIsPerm(n, hole, hole - 1, begin, end);
    PermTrans(t, n, m, begin, end);
  }

  lemma Settled<T(!new)>(n: seq<T>, begin: nat, hole: nat, it: nat, less: (T, T) -> bool)
    requires Inserting(n, begin, hole, it, less) && Total(less)
    requires hole == begin || !less(n[hole], n[hole - 1])
    ensures Ascending(n, begin, it + 1, less)
  {
    forall i, j | begin <= i < j < it + 1 ensures NotAfter(less, n[i], n[j]) {
      if j == hole { Trans(less, n[i], n[hole - 1], n[hole]); }
    }
  }

  // ----- the three-way partition ---------------------------------------------------------------------------

  /** The place of the median of three elements; only places are exchanged. */
  function MedianOf<T>(s: seq<T>, first0: nat, middle0: nat, last0: nat, less: (T, T) -> bool): nat
    requires first0 < |s| && middle0 < |s| && last0 < |s|
  {
    var (middle1, first1) := if less(s[middle0], s[first0]) then (first0, middle0) else (middle0, first0);
    var middle2 := if less(s[last0], s[middle1]) then last0 else middle1;
    if less(s[middle2], s[first1]) then first1 else middle2
  }

  method Median3<T>(a: array<T>, first: nat, middle0: nat, last: nat, less: (T, T) -> bool) returns (middle: nat)
    requires first < a.Length && middle0 < a.Length && last < a.Length
    ensures middle == MedianOf(a[..], first, middle0, last, less)
  {
    var f, l := first, last;
    middle := middle0;
    if less(a[middle], a[f]) { middle, f := f, middle; }
    if less(a[l], a[middle]) { l, middle := middle, l; }
    if less(a[middle], a[f]) { middle, f := f, middle; }
  }

  /** Of the two other elements, one is not after the median, and the median is not after the other. */
  lemma {:induction false} MedianIs<T(!new)>(s: seq<T>, first0: nat, middle0: nat, last0: nat, less: (T, T) -> bool)
    returns (first: nat, last: nat)
    requires first0 < |s| && middle0 < |s| && last0 < |s| && Total(less)
    ensures var middle := MedianOf(s, first0, middle0, last0, less);
      && multiset{first, middle, last} == multiset{first0, middle0, last0}
      && NotAfter(less, s[first], s[middle]) && NotAfter(less, s[middle], s[last])
  {
    var f, m, l := first0, middle0, last0;
    if less(s[m], s[f]) { m, f := f, m; }
    if less(s[l], s[m]) { l, m := m, l; }
    if less(s[m], s[f]) { m, f := f, m; }
    first, last := f, l;
  }

  ghost predicate Below<T(!new)>(t: seq<T>, lo: nat, hi: nat, pivot: T, less: (T, T) -> bool) {
    hi <= |t| && forall k :: lo <= k < hi ==> less(t[k], pivot)
  }

  ghost predicate Above<T(!new)>(t: seq<T>, lo: nat, hi: nat, pivot: T, less: (T, T) -> bool) {
    hi <= |t| && forall k :: lo <= k < hi ==> less(pivot, t[k]) && t[k] != pivot
  }

  ghost predicate Equal<T>(t: seq<T>, lo: nat, hi: nat, pivot: T) {
    hi <= |t| && forall k :: lo <= k < hi ==> t[k] == pivot
  }

  /** A sequence with two bounds. */
  datatype Parts<T> = Parts(s: seq<T>, lo: nat, hi: nat)

  /** Four groups: equal to the pivot, before it, not yet seen, and behind it. */
  function Split<T(==)>(s: seq<T>, eq: nat, lt: nat, gt: nat, pivot: T, less: (T, T) -> bool): (p: Parts<T>)
    requires eq <= lt <= gt <= |s|
    ensures p.lo <= p.hi <= |p.s| == |s|
    decreases gt - lt
  {
    if lt == gt then Parts(s, eq, gt)
    else if less(s[lt], pivot) then Split(s, eq, lt + 1, gt, pivot, less)
    else if s[lt] == pivot then Split(Swapped(s, eq, lt), eq + 1, lt + 1, gt, pivot, less)
    else Split(Swapped(s, lt, gt - 1), eq, lt, gt - 1, pivot, less)
  }

  /** Moves the equal elements from the front to the back of the smaller ones, also when they outnumber them. */
  function Exchange<T>(s: seq<T>, it: nat, eq: nat, eqbeg: nat): (r: seq<T>)
    requires it <= eq && eq - it <= eqbeg <= |s| && eq <= |s|
    ensures |r| == |s|
    decreases eq - it
  {
    if it == eq then s else Exchange(Swapped(s, it, eqbeg - 1), it + 1, eq, eqbeg - 1)
  }

  function Partition<T(==)>(s: seq<T>, pivot: T, less: (T, T) -> bool): (p: Parts<T>)
    ensures p.lo <= p.hi <= |p.s| == |s|
  {
    var g := Split(s, 0, 0, |s|, pivot, less);
    Parts(Exchange(g.s, 0, g.lo, g.hi), g.hi - g.lo, g.hi)
  }

  ghost predicate Groups<T(!new)>(s: seq<T>, eq: nat, lt: nat, gt: nat, pivot: T, less: (T, T) -> bool) {
    && eq <= lt <= gt <= |s| && (less(pivot, pivot) ==> eq == 0)
    && Equal(s, 0, eq, pivot) && Below(s, eq, lt, pivot, less) && Above(s, gt, |s|, pivot, less)
  }

  lemma GroupsStep<T(!new)>(s: seq<T>, eq: nat, lt: nat, gt: nat, pivot: T, less: (T, T) -> bool)
    requires Groups(s, eq, lt, gt, pivot, less) && lt < gt && Total(less)
    ensures if less(s[lt], pivot) then Groups(s, eq, lt + 1, gt, pivot, less)
            else if s[lt] == pivot then Groups(Swapped(s, eq, lt), eq + 1, lt + 1, gt, pivot, less)
            else Groups(Swapped(s, lt, gt - 1), eq, lt, gt - 1, pivot, less)
  {
  }

  lemma {:induction false} SplitOk<T(!new)>(s: seq<T>, eq: nat, lt: nat, gt: nat, pivot: T, less: (T, T) -> bool)
    requires Groups(s, eq, lt, gt, pivot, less) && Total(less)
    ensures var p := Split(s, eq, lt, gt, pivot, less); Groups(p.s, p.lo, p.hi, p.hi, pivot, less)
    decreases gt - lt
  {
    if lt < gt {
      GroupsStep(s, eq, lt, gt, pivot, less);
      if less(s[lt], pivot) {
        SplitOk(s, eq, lt + 1, gt, pivot, less);
      } else if s[lt] == pivot {
        SplitOk(Swapped(s, eq, lt), eq + 1, lt + 1, gt, pivot, less);
      } else {
        SplitOk(Swapped(s, lt, gt - 1), eq, lt, gt - 1, pivot, less);
      }
    }
  }

  lemma {:induction false} SplitKeeps<T>(s: seq<T>, eq: nat, lt: nat, gt: nat, pivot: T, less: (T, T) -> bool)
    requires eq <= lt <= gt <= |s|
    ensures Same(s, Split(s, eq, lt, gt, pivot, less).s)
    decreases gt - lt
  {
    if lt == gt {
      SameSelf(s);
    } else if less(s[lt], pivot) {
      SplitKeeps(s, eq, lt + 1, gt, pivot, less);
    } else if s[lt] == pivot {
      var n := Swapped(s, eq, lt);
      SwappedIsSame(s, eq, lt);
      SplitKeeps(n, eq + 1, lt + 1, gt, pivot, less);
      SameTrans(s, n, Split(n, eq + 1, lt + 1, gt, pivot, less).s);
    } else {
      var n := Swapped(s, lt, gt - 1);
      SwappedIsSame(s, lt, gt - 1);
      SplitKeeps(n, eq, lt, gt - 1, pivot, less);
      SameTrans(s, n, Split(n, eq, lt, gt - 1, pivot, less).s);
    }
  }

  /** Whether place `k` holds a smaller element when the exchange has come to `it`. */
  predicate Lower(k: int, it: int, eq: nat, gt: nat) {
    if k < it then k < gt - eq else k < gt - it && k >= eq
  }

  lemma {:induction false} ExchangeOk<T(!new)>(s: seq<T>, it: nat, eq: nat, gt: nat, pivot: T, less: (T, T) -> bool)
    requires it <= eq <= gt <= |s| && Above(s, gt, |s|, pivot, less)
    requires forall k :: 0 <= k < gt ==> if Lower(k, it, eq, gt) then less(s[k], pivot) else s[k] == pivot
    ensures var n := Exchange(s, it, eq, gt - it);
      Above(n, gt, |n|, pivot, less) && Below(n, 0, gt - eq, pivot, less) && Equal(n, gt - eq, gt, pivot)
    decreases eq - it
  {
    if it < eq {
      ExchangeOk(Swapped(s, it, gt - it - 1), it + 1, eq, gt, pivot, less);
    }
  }

  lemma {:induction false} ExchangeKeeps<T>(s: seq<T>, it: nat, eq: nat, eqbeg: nat)
    requires it <= eq && eq - it <= eqbeg <= |s| && eq <= |s|
    ensures Same(s, Exchange(s, it, eq, eqbeg))
    decreases eq - it
  {
    if it == eq {
      SameSelf(s);
    } else {
      var n := Swapped(s, it, eqbeg - 1);
      SwappedIsSame(s, it, eqbeg - 1);
      ExchangeKeeps(n, it + 1, eq, eqbeg - 1);
      SameTrans(s, n, Exchange(n, it + 1, eq, eqbeg - 1));
    }
  }

  /** Smaller, equal and larger elements; no equal ones if the pivot precedes itself. */
  lemma PartitionOk<T(!new)>(s: seq<T>, pivot: T, less: (T, T) -> bool)
    requires Total(less)
    ensures var p := Partition(s, pivot, less);
      && Same(s, p.s)
      && Below(p.s, 0, p.lo, pivot, less) && Equal(p.s, p.lo, p.hi, pivot) && Above(p.s, p.hi, |s|, pivot, less)
      && (less(pivot, pivot) ==> p.lo == p.hi) && (pivot in s ==> 0 < p.hi && (less(pivot, pivot) || p.lo < p.hi))
  {
    var g, p := Split(s, 0, 0, |s|, pivot, less), Partition(s, pivot, less);
    SplitOk(s, 0, 0, |s|, pivot, less);
    SplitKeeps(s, 0, 0, |s|, pivot, less);
    ExchangeOk(g.s, 0, g.lo, g.hi, pivot, less);
    ExchangeKeeps(g.s, 0, g.lo, g.hi);
    SameTrans(s, g.s, p.s);
    assert SameForm(s, p.s, 0);
    if pivot in s {
      assert pivot in multiset(p.s);
      var i :| 0 <= i < |p.s| && p.s[i] == pivot;
    }
  }

  // ----- the partition in place ----------------------------------------------------------------------------

  /** `n` is `t` with `s` between `lo` and `hi`. */
  ghost predicate Holds<T>(t: seq<T>, n: seq<T>, lo: nat, hi: nat, s: seq<T>) {
    lo <= hi <= |t| == |n| && n[..lo] == t[..lo] && n[lo..hi] == s && n[hi..] == t[hi..]
  }

  method Swap<T>(a: array<T>, begin: nat, end: nat, i: nat, j: nat, ghost t: seq<T>, ghost s: seq<T>)
    requires begin <= i < end <= a.Length && begin <= j < end && Holds(t, a[..], begin, end, s)
    modifies a
    ensures Holds(t, a[..], begin, end, Swapped(s, i - begin, j - begin))
  {
    SwappedSlice(a[..], begin, end, i - begin, j - begin);
    a[i], a[j] := a[j], a[i];
  }

  /** The main loop of the partition. */
  method SplitRange<T(!new, ==)>(a: array<T>, begin: nat, end: nat, pivot: T, less: (T, T) -> bool)
    returns (eq: nat, gt: nat)
    requires begin <= end <= a.Length
    modifies a
    ensures var g := Split(old(a[begin..end]), 0, 0, end - begin, pivot, less);
      eq == begin + g.lo && gt == begin + g.hi && Holds(old(a[..]), a[..], begin, end, g.s)
  {
    var lt;
    eq, lt, gt := begin, begin, end;
    ghost var s := a[begin..end];
    while lt < gt
      invariant begin <= eq <= lt <= gt <= end && |s| == end - begin && Holds(old(a[..]), a[..], begin, end, s)
      invariant Split(s, eq - begin, lt - begin, gt - begin, pivot, less) ==
                Split(old(a[begin..end]), 0, 0, end - begin, pivot, less)
    {
      assert a[lt] == s[lt - begin];
      if less(a[lt], pivot) {
        lt := lt + 1;
      } else if a[lt] == pivot {
        Swap(a, begin, end, eq, lt, old(a[..]), s);
        s := Swapped(s, eq - begin, lt - begin);
        eq, lt := eq + 1, lt + 1;
      } else {
        gt := gt - 1;
        Swap(a, begin, end, lt, gt, old(a[..]), s);
        s := Swapped(s, lt - begin, gt - begin);
      }
    }
  }

  method MoveEquals<T>(a: array<T>, begin: nat, eq: nat, gt: nat, end: nat) returns (eqbeg: nat)
    requires begin <= eq <= gt <= end <= a.Length
    modifies a
    ensures eqbeg == gt - (eq - begin)
    ensures Holds(old(a[..]), a[..], begin, end, Exchange(old(a[begin..end]), 0, eq - begin, gt - begin))
  {
    var it;
    eqbeg, it := gt, begin;
    ghost var s := a[begin..end];
    while it != eq
      invariant begin <= it <= eq && eqbeg == gt - (it - begin) && Holds(old(a[..]), a[..], begin, end, s)
      invariant Exchange(s, it - begin, eq - begin, eqbeg - begin) ==
                Exchange(old(a[begin..end]), 0, eq - begin, gt - begin)
    {
      eqbeg := eqbeg - 1;
      Swap(a, begin, end, it, eqbeg, old(a[..]), s);
      s := Swapped(s, it - begin, eqbeg - begin);
      it := it + 1;
    }
  }

  lemma HoldsTwice<T>(t: seq<T>, n: seq<T>, m: seq<T>, lo: nat, hi: nat, s: seq<T>, r: seq<T>)
    requires Holds(t, n, lo, hi, s) && Holds(n, m, lo, hi, r)
    ensures Holds(t, m, lo, hi, r)
  {
  }

  /** Splits a range into elements before, equal to and behind the pivot. */
  method Partition3<T(!new, ==)>(a: array<T>, begin: nat, end: nat, pivot: T, less: (T, T) -> bool)
    returns (eqbeg: nat, eqend: nat)
    requires begin <= end <= a.Length && Total(less)
    modifies a
    ensures var p := Partition(old(a[begin..end]), pivot, less);
      eqbeg == begin + p.lo && eqend == begin + p.hi && Holds(old(a[..]), a[..], begin, end, p.s)
    ensures begin <= eqbeg <= eqend <= end && Perm(old(a[..]), a[..], begin, end)
    ensures Below(a[..], begin, eqbeg, pivot, less) && Equal(a[..], eqbeg, eqend, pivot) &&
            Above(a[..], eqend, end, pivot, less)
    ensures less(pivot, pivot) ==> eqbeg == eqend
    ensures pivot in old(a[begin..end]) ==> begin < eqend && (less(pivot, pivot) || eqbeg < eqend)
  {
    ghost var t, s := a[..], a[begin..end];
    var eq, gt := SplitRange(a, begin, end, pivot, less);
    ghost var n, g := a[..], Split(s, 0, 0, end - begin, pivot, less);
    assert n[begin..end] == a[begin..end] == g.s;
    eqbeg := MoveEquals(a, begin, eq, gt, end);
    eqend := gt;
    HoldsTwice(t, n, a[..], begin, end, g.s, Partition(s, pivot, less).s);
    InRange(t, a[..], begin, end, s, pivot, less);
  }

  /** What is known of the partition of a range, in the places of the whole. */
  lemma InRange<T(!new)>(t: seq<T>, n: seq<T>, begin: nat, end: nat, s: seq<T>, pivot: T, less: (T, T) -> bool)
    requires begin <= end <= |t| && s == t[begin..end] && Total(less)
    requires Holds(t, n, begin, end, Partition(s, pivot, less).s)
    ensures var p := Partition(s, pivot, less);
      && Perm(t, n, begin, end) && Below(n, begin, begin + p.lo, pivot, less)
      && Equal(n, begin + p.lo, begin + p.hi, pivot) && Above(n, begin + p.hi, end, pivot, less)
      && (less(pivot, pivot) ==> p.lo == p.hi) && (pivot in s ==> 0 < p.hi && (less(pivot, pivot) || p.lo < p.hi))
  {
    var p := Partition(s, pivot, less);
    PartitionOk(s, pivot, less);
    assert SameForm(s, p.s, 0);
    assert forall k :: begin <= k < end ==> n[k] == n[begin..end][k - begin];
  }

  // ----- the sort ------------------------------------------------------------------------------------------

  /** The partition of one round: around the median of the first, the middle and the last element. */
  function Round<T(==)>(s: seq<T>, less: (T, T) -> bool): (p: Parts<T>)
    requires |s| > 16
    ensures p.lo <= p.hi <= |p.s| == |s|
  {
    Partition(s, s[MedianOf(s, 0, |s| / 2, |s| - 1, less)], less)
  }

  lemma MedianInPlace<T>(t: seq<T>, begin: nat, end: nat, less: (T, T) -> bool)
    requires begin + 16 < end <= |t|
    ensures var s, m := t[begin..end], MedianOf(t, begin, begin + (end - begin) / 2, end - 1, less);
      m == begin + MedianOf(s, 0, |s| / 2, |s| - 1, less) && t[m] == s[m - begin] && t[m] in s
  {
    var s := t[begin..end];
    assert s[0] == t[begin] && s[|s| / 2] == t[begin + (end - begin) / 2] && s[|s| - 1] == t[end - 1];
  }

  lemma Repeated<T>(s: seq<T>, i: nat, j: nat)
    requires i < |s| && j < |s| && i != j
    ensures s[i] == s[j] ==> multiset(s)[s[i]] > 1
  {
    var a, b := if i < j then i else j, if i < j then j else i;
    assert s == s[..a] + [s[a]] + s[a + 1..b] + [s[b]] + s[b + 1..];
  }

  /** Some element does not precede the median, if the range may be sorted and is longer than sixteen. */
  lemma SomethingBehind<T(!new)>(s: seq<T>, n: seq<T>, lo: nat, median: nat, last: nat, less: (T, T) -> bool)
    requires Suitable(s, less) && |s| > 16 && multiset(n) == multiset(s) && Total(less)
    requires median < |s| && last < |s| && last != median && NotAfter(less, s[median], s[last])
    requires lo <= |n| && Below(n, 0, lo, s[median], less) && less(s[median], s[median])
    ensures lo < |n|
  {
    assert |s| == |multiset(s)| == |multiset(n)| == |n|;
    assert s[last] in multiset(n);
    Repeated(s, median, last);
    PrecedingSame(s, n, s[median], less);
    if lo == |n| { AllPreceding(n, s[median], less); }
  }

  /** A part that is rearranged stays on its side of the pivot. */
  lemma SideKept<T(!new)>(t: seq<T>, n: seq<T>, lo: nat, hi: nat, pivot: T, less: (T, T) -> bool)
    requires Perm(t, n, lo, hi)
    ensures Below(t, lo, hi, pivot, less) ==> Below(n, lo, hi, pivot, less)
    ensures Above(t, lo, hi, pivot, less) ==> Above(n, lo, hi, pivot, less)
  {
    forall k | lo <= k < hi ensures exists i :: lo <= i < hi && t[i] == n[k] { PermMember(t, n, lo, hi, k); }
  }

  /** What lies outside a rearranged range is as it was. */
  lemma OutsideKept<T>(t: seq<T>, n: seq<T>, lo: nat, hi: nat)
    requires Perm(t, n, lo, hi)
    ensures forall k :: 0 <= k < |n| && !(lo <= k < hi) ==> n[k] == t[k]
  {
    forall k | 0 <= k < |n| && !(lo <= k < hi) ensures n[k] == t[k] { PermMember(t, n, lo, hi, k); }
  }

  /** What the loop has set aside: the sorted ends on both sides of what is left. */
  ghost predicate Aside<T(!new)>(t: seq<T>, begin0: nat, begin: nat, end: nat, end0: nat, less: (T, T) -> bool) {
    && begin0 <= begin <= end <= end0 <= |t|
    && Ascending(t, begin0, begin, less) && Ascending(t, end, end0, less)
    && (forall i, j :: begin0 <= i < begin && begin <= j < end0 ==> NotAfter(less, t[i], t[j]))
    && (forall i, j :: begin0 <= i < end && end <= j < end0 ==> NotAfter(less, t[i], t[j]))
  }

  lemma AsideKept<T(!new)>(t: seq<T>, n: seq<T>, begin0: nat, begin: nat, end: nat, end0: nat, less: (T, T) -> bool)
    requires Aside(t, begin0, begin, end, end0, less) && Perm(t, n, begin, end)
    ensures Aside(n, begin0, begin, end, end0, less)
  {
    OutsideKept(t, n, begin, end);
    forall k | begin <= k < end ensures exists i :: begin <= i < end && t[i] == n[k] {
      PermMember(t, n, begin, end, k);
    }
  }

  lemma AsideDone<T(!new)>(t: seq<T>, begin0: nat, begin: nat, end: nat, end0: nat, less: (T, T) -> bool)
    requires Aside(t, begin0, begin, end, end0, less) && Ascending(t, begin, end, less)
    ensures Ascending(t, begin0, end0, less)
  {
  }

  /** The part behind the pivot is sorted; what is left is the part before it. */
  lemma AsideBehind<T(!new)>(t: seq<T>, begin0: nat, begin: nat, eqbeg: nat, eqend: nat, end: nat, end0: nat,
                      pivot: T, less: (T, T) -> bool)
    requires Aside(t, begin0, begin, end, end0, less) && begin <= eqbeg <= eqend <= end && Total(less) &&
             Ascending(t, eqend, end, less)
    requires Below(t, begin, eqbeg, pivot, less) && Equal(t, eqbeg, eqend, pivot) && Above(t, eqend, end, pivot, less)
    ensures Aside(t, begin0, begin, eqbeg, end0, less)
  {
    forall i, j | eqbeg <= i < j < end0 ensures NotAfter(less, t[i], t[j]) {
      if j < end { Trans(less, t[i], pivot, t[j]); }
    }
    forall i, j | begin0 <= i < eqbeg && eqbeg <= j < end0 ensures NotAfter(less, t[i], t[j]) {
      if begin <= i && j < end { Trans(less, t[i], pivot, t[j]); }
    }
  }

  lemma AsideBefore<T(!new)>(t: seq<T>, begin0: nat, begin: nat, eqbeg: nat, eqend: nat, end: nat, end0: nat,
                      pivot: T, less: (T, T) -> bool)
    requires Aside(t, begin0, begin, end, end0, less) && begin <= eqbeg <= eqend <= end && Total(less) &&
             Ascending(t, begin, eqbeg, less)
    requires Below(t, begin, eqbeg, pivot, less) && Equal(t, eqbeg, eqend, pivot) && Above(t, eqend, end, pivot, less)
    ensures Aside(t, begin0, eqend, end, end0, less)
  {
    forall i, j | begin0 <= i < j < eqend ensures NotAfter(less, t[i], t[j]) {
      if i >= begin { Trans(less, t[i], pivot, t[j]); }
    }
    forall i, j | begin0 <= i < eqend && eqend <= j < end0 ensures NotAfter(less, t[i], t[j]) {
      if begin <= i && j < end { Trans(less, t[i], pivot, t[j]); }
    }
  }

  /** Sorts a range. The smaller part is sorted by a recursive call, so the depth of the recursion is at most the
      binary logarithm of the number of chunks of sixteen. */
  method Sort<T(!new, ==)>(a: array<T>, begin0: nat, end0: nat, less: (T, T) -> bool, ghost depth: nat)
    requires begin0 <= end0 <= a.Length && Total(less) && Suitable(a[begin0..end0], less) &&
             end0 - begin0 <= 16 * Pow2(depth)
    modifies a
    ensures Perm(old(a[..]), a[..], begin0, end0) && Ascending(a[..], begin0, end0, less)
    decreases depth
  {
    var begin, end := begin0, end0;
    while end - begin > 16
      invariant Perm(old(a[..]), a[..], begin0, end0) && Aside(a[..], begin0, begin, end, end0, less)
      decreases end - begin
    {
      begin, end := SortStep(a, begin0, begin, end, end0, less, depth, old(a[..]));
    }
    ghost var t := a[..];
    InsertionSort(a, begin, end, less);
    PermWider(t, a[..], begin, end, begin0, end0);
    PermTrans(old(a[..]), t, a[..], begin0, end0);
    AsideKept(t, a[..], begin0, begin, end, end0, less);
    AsideDone(a[..], begin0, begin, end, end0, less);
  }

  method PivotOf<T(!new)>(a: array<T>, begin: nat, end: nat, less: (T, T) -> bool)
    returns (pivot: T, ghost median: nat, ghost last: nat)
    requires begin + 16 < end <= a.Length && Total(less)
    ensures var s := a[begin..end]; pivot == s[MedianOf(s, 0, |s| / 2, |s| - 1, less)] && pivot in s
    ensures begin <= median < end && begin <= last < end && last != median
    ensures pivot == a[median] && NotAfter(less, pivot, a[last])
  {
    var m := Median3(a, begin, begin + (end - begin) / 2, end - 1, less);
    pivot := a[m];
    median, last := PivotIs(a[..], begin, end, less);
    assert a[..][begin..end] == a[begin..end];
  }

  lemma {:induction false} PivotIs<T(!new)>(t: seq<T>, begin: nat, end: nat, less: (T, T) -> bool)
    returns (median: nat, last: nat)
    requires begin + 16 < end <= |t| && Total(less)
    ensures median == MedianOf(t, begin, begin + (end - begin) / 2, end - 1, less)
    ensures var s := t[begin..end]; t[median] == s[MedianOf(s, 0, |s| / 2, |s| - 1, less)] && t[median] in s
    ensures begin <= median < end && begin <= last < end && last != median && NotAfter(less, t[median], t[last])
  {
    MedianInPlace(t, begin, end, less);
    var s := t[begin..end];
    median, last := Sampled(s, less);
    assert t[begin + last] == s[last];
    median, last := begin + median, begin + last;
  }

  /** The median of a range, and another element that is not before it. */
  lemma {:induction false} Sampled<T(!new)>(s: seq<T>, less: (T, T) -> bool) returns (median: nat, last: nat)
    requires |s| > 16 && Total(less)
    ensures median == MedianOf(s, 0, |s| / 2, |s| - 1, less) < |s| && last < |s| && last != median
    ensures NotAfter(less, s[median], s[last])
  {
    var first;
    median := MedianOf(s, 0, |s| / 2, |s| - 1, less);
    first, last := MedianIs(s, 0, |s| / 2, |s| - 1, less);
    OthersOf(0, |s| / 2, |s| - 1, first, median, last);
  }

  lemma OthersOf(a: nat, b: nat, c: nat, first: nat, median: nat, last: nat)
    requires multiset{first, median, last} == multiset{a, b, c} && a < b < c
    ensures a <= median <= c && a <= last <= c && last != median
  {
    assert median in multiset{a, b, c} && last in multiset{a, b, c};
    assert multiset{a, b, c}[median] == 1;
  }

  /** The partition of a round in place. */
  method PartitionRound<T(!new, ==)>(a: array<T>, begin: nat, end: nat, less: (T, T) -> bool)
    returns (pivot: T, eqbeg: nat, eqend: nat, ghost median: nat, ghost last: nat)
    requires begin + 16 < end <= a.Length && Total(less)
    modifies a
    ensures var p := Round(old(a[begin..end]), less);
      eqbeg == begin + p.lo && eqend == begin + p.hi && Holds(old(a[..]), a[..], begin, end, p.s)
    ensures Perm(old(a[..]), a[..], begin, end) && begin <= median < end && begin <= last < end && last != median
    ensures pivot == old(a[median]) && NotAfter(less, pivot, old(a[last]))
    ensures begin <= eqbeg <= eqend <= end && begin < eqend && (less(pivot, pivot) || eqbeg < eqend)
    ensures Below(a[..], begin, eqbeg, pivot, less) && Equal(a[..], eqbeg, eqend, pivot) &&
            Above(a[..], eqend, end, pivot, less)
  {
    pivot, median, last := PivotOf(a, begin, end, less);
    eqbeg, eqend := Partition3(a, begin, end, pivot, less);
  }

  /** Partitions what is left around the median of three of its elements; both parts are smaller. */
  method PartitionStep<T(!new, ==)>(a: array<T>, ghost begin0: nat, begin: nat, end: nat, ghost end0: nat,
                         less: (T, T) -> bool, ghost t0: seq<T>)
    returns (pivot: T, eqbeg: nat, eqend: nat)
    requires end0 <= a.Length && Total(less) && begin + 16 < end && Aside(a[..], begin0, begin, end, end0, less)
    requires Perm(t0, a[..], begin0, end0) && Suitable(t0[begin0..end0], less)
    modifies a
    ensures Perm(t0, a[..], begin0, end0) && Aside(a[..], begin0, begin, end, end0, less) &&
            begin <= eqbeg <= eqend <= end
    ensures Below(a[..], begin, eqbeg, pivot, less) && Equal(a[..], eqbeg, eqend, pivot) &&
            Above(a[..], eqend, end, pivot, less)
    ensures begin < eqend && eqbeg < end
    ensures Suitable(a[eqend..end], less) && Suitable(a[begin..eqbeg], less)
  {
    ghost var t := a[..];
    ghost var median, last;
    pivot, eqbeg, eqend, median, last := PartitionRound(a, begin, end, less);
    AsideKept(t, a[..], begin0, begin, end, end0, less);
    AfterPartition(t0, t, a[..], begin0, begin, eqbeg, eqend, end, end0, median, last, less);
    assert a[..][eqend..end] == a[eqend..end] && a[..][begin..eqbeg] == a[begin..eqbeg];
  }

  /** One round: partition, then sort the smaller part and keep the larger one. */
  method SortStep<T(!new, ==)>(a: array<T>, ghost begin0: nat, begin: nat, end: nat, ghost end0: nat,
                    less: (T, T) -> bool, ghost depth: nat, ghost t0: seq<T>)
    returns (begin': nat, end': nat)
    requires end0 <= a.Length && Total(less) && end0 - begin0 <= 16 * Pow2(depth) && begin + 16 < end
    requires Perm(t0, a[..], begin0, end0) && Suitable(t0[begin0..end0], less) &&
             Aside(a[..], begin0, begin, end, end0, less)
    modifies a
    ensures Perm(t0, a[..], begin0, end0) && Aside(a[..], begin0, begin', end', end0, less) &&
            end' - begin' < end - begin
    decreases depth, 0
  {
    var pivot, eqbeg, eqend := PartitionStep(a, begin0, begin, end, end0, less, t0);
    ghost var t1 := a[..];
    assert depth > 0;
    if eqbeg - begin > end - eqend {
      Sort(a, eqend, end, less, depth - 1);
      BehindSorted(t1, a[..], begin0, begin, eqbeg, eqend, end, end0, pivot, less);
      begin', end' := begin, eqbeg;
    } else {
      Sort(a, begin, eqbeg, less, depth - 1);
      BeforeSorted(t1, a[..], begin0, begin, eqbeg, eqend, end, end0, pivot, less);
      begin', end' := eqend, end;
    }
    PermWider(t1, a[..], begin, end, begin0, end0);
    PermTrans(t0, t1, a[..], begin0, end0);
  }

  /** After the partition both parts may be sorted, and each is smaller than the range. */
  lemma AfterPartition<T(!new)>(t0: seq<T>, t: seq<T>, n: seq<T>, begin0: nat, begin: nat, eqbeg: nat, eqend: nat,
                                end: nat, end0: nat, median: nat, last: nat, less: (T, T) -> bool)
    requires Perm(t0, t, begin0, end0) && Perm(t, n, begin, end) && begin0 <= begin && end <= end0 && Total(less)
    requires Suitable(t0[begin0..end0], less) && begin + 16 < end
    requires begin <= median < end && begin <= last < end && last != median && NotAfter(less, t[median], t[last])
    requires begin <= eqbeg <= eqend <= end && Below(n, begin, eqbeg, t[median], less)
    requires less(t[median], t[median]) || eqbeg < eqend
    ensures Perm(t0, n, begin0, end0) && eqbeg < end
    ensures Suitable(n[eqend..end], less) && Suitable(n[begin..eqbeg], less)
  {
    RangeSuits(t0, t, begin0, end0, begin, end, less);
    if less(t[median], t[median]) {
      var s, m := t[begin..end], n[begin..end];
      assert s[median - begin] == t[median] && s[last - begin] == t[last];
      assert forall k :: 0 <= k < eqbeg - begin ==> m[k] == n[begin + k];
      SomethingBehind(s, m, eqbeg - begin, median - begin, last - begin, less);
    }
    PermWider(t, n, begin, end, begin0, end0);
    PermTrans(t0, t, n, begin0, end0);
    RangeSuits(t0, n, begin0, end0, eqend, end, less);
    RangeSuits(t0, n, begin0, end0, begin, eqbeg, less);
  }

  lemma SliceOfSlice<T>(n: seq<T>, lo0: nat, hi0: nat, lo: nat, hi: nat)
    requires lo0 <= lo <= hi <= hi0 <= |n|
    ensures n[lo0..hi0][lo - lo0..hi - lo0] == n[lo..hi]
  {
    var s, t := n[lo0..hi0][lo - lo0..hi - lo0], n[lo..hi];
    assert |s| == |t| && forall k :: 0 <= k < |s| ==> s[k] == n[lo + k] == t[k];
    assert s == t;
  }

  lemma RangeSuits<T(!new)>(t: seq<T>, n: seq<T>, lo0: nat, hi0: nat, lo: nat, hi: nat, less: (T, T) -> bool)
    requires Perm(t, n, lo0, hi0) && lo0 <= lo <= hi <= hi0 && Suitable(t[lo0..hi0], less)
    ensures Suitable(n[lo..hi], less)
  {
    PartSuits(t[lo0..hi0], n[lo0..hi0], lo - lo0, hi - lo0, less);
    SliceOfSlice(n, lo0, hi0, lo, hi);
  }

  lemma BehindSorted<T(!new)>(t: seq<T>, n: seq<T>, begin0: nat, begin: nat, eqbeg: nat, eqend: nat, end: nat,
                       end0: nat, pivot: T, less: (T, T) -> bool)
    requires Aside(t, begin0, begin, end, end0, less) && begin <= eqbeg <= eqend <= end && Total(less)
    requires Below(t, begin, eqbeg, pivot, less) && Equal(t, eqbeg, eqend, pivot) && Above(t, eqend, end, pivot, less)
    requires Perm(t, n, eqend, end) && Ascending(n, eqend, end, less)
    ensures Aside(n, begin0, begin, eqbeg, end0, less) && Perm(t, n, begin, end)
  {
    PermWider(t, n, eqend, end, begin, end);
    SideKept(t, n, eqend, end, pivot, less);
    OutsideKept(t, n, eqend, end);
    AsideKept(t, n, begin0, begin, end, end0, less);
    AsideBehind(n, begin0, begin, eqbeg, eqend, end, end0, pivot, less);
  }

  lemma BeforeSorted<T(!new)>(t: seq<T>, n: seq<T>, begin0: nat, begin: nat, eqbeg: nat, eqend: nat, end: nat,
                       end0: nat, pivot: T, less: (T, T) -> bool)
    requires Aside(t, begin0, begin, end, end0, less) && begin <= eqbeg <= eqend <= end && Total(less)
    requires Below(t, begin, eqbeg, pivot, less) && Equal(t, eqbeg, eqend, pivot) && Above(t, eqend, end, pivot, less)
    requires Perm(t, n, begin, eqbeg) && Ascending(n, begin, eqbeg, less)
    ensures Aside(n, begin0, eqend, end, end0, less) && Perm(t, n, begin, end)
  {
    PermWider(t, n, begin, eqbeg, begin, end);
    SideKept(t, n, begin, eqbeg, pivot, less);
    OutsideKept(t, n, begin, eqbeg);
    AsideKept(t, n, begin0, begin, end, end0, less);
    AsideBefore(n, begin0, begin, eqbeg, eqend, end, end0, pivot, less);
  }
}
