// Putting a node set in order in place: removal of duplicates, and sorting.
module NodeSets {
  import opened Basics
  import opened Document
  import opened XPathAst
  import opened XPathEngine
  import XPathSequences
  import NodeHash
  import Sorting

  // ----- removal of duplicates ---------------------------------------------------------------------------

  /** Equal entries lie together. */
  ghost predicate Grouped(q: seq<XNode>) {
    forall i, j, k :: 0 <= i < j < k < |q| && q[i] == q[k] ==> q[j] == q[k]
  }

  lemma {:induction false} NoDuplicates(q: seq<XNode>, n: nat)
    requires n <= |q| && forall i :: 0 < i < n ==> q[i - 1] != q[i]
    requires Grouped(q)
    ensures RemoveDuplicates(q[..n]) == q[..n]
    decreases n
  {
    if n > 0 {
      NoDuplicates(q, n - 1);
      var p := q[..n];
      assert p[..n - 1] == q[..n - 1];
      if q[n - 1] in q[..n - 1] {
        GroupedMember(q, n - 1);
      }
      assert p == p[..n - 1] + [p[n - 1]];
    }
  }

  lemma GroupedMember(q: seq<XNode>, n: nat)
    requires 0 < n < |q| && Grouped(q)
    ensures q[n] in q[..n] <==> q[n] == q[n - 1]
  {
    if q[n] in q[..n] {
      var i :| 0 <= i < n && q[..n][i] == q[n];
      if i < n - 1 { assert q[n - 1] == q[n]; }
    }
    assert q[..n][n - 1] == q[n - 1];
  }

  lemma OneMore(q: seq<XNode>, n: nat)
    requires n < |q|
    ensures RemoveDuplicates(q[..n + 1]) == RemoveDuplicates(q[..n]) + (if q[n] in q[..n] then [] else [q[n]])
  {
    assert q[..n + 1][..n] == q[..n];
  }

  /** Of the first `it` entries of `q` the ones to keep lie in front; the others are untouched. */
  ghost predicate Kept(s: seq<XNode>, q: seq<XNode>, write: nat, it: nat) {
    write <= it <= |q| == |s| && s[it..] == q[it..] && s[..write] == RemoveDuplicates(q[..it])
  }

  lemma KeptStep(s: seq<XNode>, q: seq<XNode>, write: nat, it: nat)
    requires Kept(s, q, write, it) && it < |q|
    ensures s[it] == q[it]
    ensures if q[it] in q[..it] then Kept(s, q, write, it + 1) else Kept(s[write := s[it]], q, write + 1, it + 1)
  {
    OneMore(q, it);
    assert s[it] == s[it..][0] == q[it..][0];
    assert s[it + 1..] == s[it..][1..] == q[it..][1..] == q[it + 1..];
    if q[it] !in q[..it] {
      var n := s[write := s[it]];
      assert n[..write + 1] == s[..write] + [q[it]];
      assert n[it + 1..] == s[it + 1..];
    }
  }

  lemma KeptEnds(s: seq<XNode>, q: seq<XNode>, write: nat, size: nat)
    requires Kept(s, q, write, size)
    ensures s[..write] == RemoveDuplicates(q[..size]) && s[size..] == q[size..]
  {
  }

  /** Skips the front part, up to the first entry that is repeated. */
  method SkipHead(a: array<XNode>, size: nat) returns (begin: nat)
    requires size <= a.Length && Grouped(a[..size])
    ensures if size == 0 then begin == 0 else begin < size && Kept(a[..], a[..], begin + 1, begin + 1)
  {
    begin := 0;
    while size - begin > 1 && a[begin] != a[begin + 1]
      invariant begin <= size && (size > 0 ==> begin < size)
      invariant forall i :: 0 < i <= begin && i < size ==> a[i - 1] != a[i]
    {
      begin := begin + 1;
    }
    if size > 0 {
      NoDuplicates(a[..size], begin + 1);
      assert a[..begin + 1] == a[..size][..begin + 1];
    }
  }

  /** Keeps the first entry of every group of equal ones. */
  method Unique(a: array<XNode>, size: nat) returns (end: nat)
    requires size <= a.Length && Grouped(a[..size])
    modifies a
    ensures end <= size && a[..end] == RemoveDuplicates(old(a[..size])) && a[size..] == old(a[size..])
  {
    ghost var q := a[..];
    var begin := SkipHead(a, size);
    if begin == size { return begin; }
    var write := begin;
    begin := begin + 1;
    while begin != size
      invariant 0 <= write < begin <= size && Merged(a[..], q, write, begin)
    {
      ghost var s := a[..];
      MergeStep(s, q, size, write, begin);
      if a[begin] != a[write] {
        write := write + 1;
        a[write] := a[begin];
        assert a[..] == s[write := s[begin]];
      }
      begin := begin + 1;
    }
    KeptEnds(a[..], q, write + 1, size);
    end := write + 1;
  }

  /** The entries up to `write` are the ones kept; the last one kept is the last one seen. */
  ghost predicate Merged(s: seq<XNode>, q: seq<XNode>, write: nat, begin: nat) {
    0 < begin <= |q| && Kept(s, q, write + 1, begin) && s[write] == q[begin - 1]
  }

  lemma MergeStep(s: seq<XNode>, q: seq<XNode>, size: nat, write: nat, begin: nat)
    requires begin < size <= |q| && Grouped(q[..size]) && Merged(s, q, write, begin)
    ensures if s[begin] != s[write] then Merged(s[write + 1 := s[begin]], q, write + 1, begin + 1)
            else Merged(s, q, write, begin + 1)
  {
    KeptStep(s, q, write + 1, begin);
    NeighbourDecides(q, size, begin);
  }

  lemma NeighbourDecides(q: seq<XNode>, size: nat, n: nat)
    requires 0 < n < size <= |q| && Grouped(q[..size])
    ensures q[n] in q[..n] <==> q[n] == q[n - 1]
  {
    GroupedMember(q[..size], n);
    assert q[..size][..n] == q[..n];
  }

  lemma HalfMore(size: nat, h: nat)
    requires size > 1 && h >= size + size / 2
    ensures h > size
  {
  }

  /** Drops later copies of an entry. An unordered set is filtered through a hash table that is at most two thirds
      full; a set in order, or one of two entries, by comparing neighbours. */
  method RemoveDuplicatesInPlace(a: array<XNode>, size: nat, order: Order, hash: XNode -> nat) returns (end: nat)
    requires size <= a.Length && Nil !in a[..size] && (order != Unsorted ==> Grouped(a[..size]))
    modifies a
    ensures end <= size && a[..end] == RemoveDuplicates(old(a[..size])) && a[size..] == old(a[size..])
  {
    if order == Unsorted && size > 2 {
      var hashSize := 1;
      ghost var n: nat := 0;
      while hashSize < size + size / 2
        invariant hashSize == Pow2(n)
        decreases size + size / 2 - hashSize
      {
        hashSize := hashSize * 2;
        n := n + 1;
      }
      HalfMore(size, hashSize);
      end := Filter(a, size, hash, hashSize, n);
    } else {
      end := Unique(a, size);
    }
  }

  lemma NoKeys(t: seq<NodeHash.Slot<XNode>>, hash: XNode -> nat)
    requires forall i :: 0 <= i < |t| ==> t[i] == None
    ensures NodeHash.Keys(t) == {} && NodeHash.TableOk(t, hash)
  {
    forall b: nat | b < |t| ensures NodeHash.Placed(t, hash, b) {}
  }

  lemma {:induction false} ElemsCount(q: seq<XNode>)
    ensures |Elems(q)| <= |q|
  {
    if q != [] {
      ElemsCount(q[..|q| - 1]);
      assert q == q[..|q| - 1] + [q[|q| - 1]];
      assert Elems(q) == Elems(q[..|q| - 1]) + {q[|q| - 1]};
    }
  }

  lemma ElemsStep(q: seq<XNode>, n: nat)
    requires n < |q|
    ensures Elems(q[..n + 1]) == Elems(q[..n]) + {q[n]} && |Elems(q[..n])| <= n
  {
    assert q[..n + 1] == q[..n] + [q[n]];
    ElemsCount(q[..n]);
  }

  method Filter(a: array<XNode>, size: nat, hash: XNode -> nat, hashSize: nat, ghost n: nat) returns (write: nat)
    requires size <= a.Length && Nil !in a[..size] && size < hashSize == Pow2(n)
    modifies a
    ensures write <= size && a[..write] == RemoveDuplicates(old(a[..size])) && a[size..] == old(a[size..])
  {
    ghost var q := a[..];
    var table := new NodeHash.Slot<XNode>[hashSize](_ => None);
    NoKeys(table[..], hash);
    write := 0;
    var it := 0;
    while it != size
      invariant 0 <= write <= it <= size && fresh(table) && Kept(a[..], q, write, it)
      invariant NodeHash.TableOk(table[..], hash) && NodeHash.Keys(table[..]) == Elems(q[..it])
    {
      KeptStep(a[..], q, write, it);
      ElemsStep(q, it);
      var isNew := NodeHash.HashInsert(table, a[it], hash, n);
      if isNew {
        ghost var s := a[..];
        a[write] := a[it];
        write := write + 1;
        assert a[..] == s[write - 1 := s[it]];
      }
      it := it + 1;
    }
    KeptEnds(a[..], q, write, size);
  }

  // ----- sorting -------------------------------------------------------------------------------------------

  /** The comparator of the sort: document order, except that an attribute precedes itself if the comparator has to take
      its slow path for it. */
  predicate Precedes(slow: XNode -> bool, x: XNode, y: XNode) {
    Before(x, y) || (x == y && x.Attr? && slow(x))
  }

  function Less(slow: XNode -> bool): (XNode, XNode) -> bool {
    (x: XNode, y: XNode) => Precedes(slow, x, y)
  }

  lemma {:induction false} LessIsTotal(slow: XNode -> bool)
    ensures Sorting.Total(Less(slow))
  {
    forall x, y, z | Less(slow)(x, y) && Less(slow)(y, z) ensures Less(slow)(x, z) {
      assert Precedes(slow, x, y) && Precedes(slow, y, z);
    }
  }

  /** In document order, or in reverse; entries may be repeated. */
  ghost predicate Ascends(q: seq<XNode>) {
    forall a, b :: 0 <= a < b < |q| ==> q[a] == q[b] || Before(q[a], q[b])
  }

  ghost predicate Falls(q: seq<XNode>) {
    forall a, b :: 0 <= a < b < |q| ==> q[a] == q[b] || Before(q[b], q[a])
  }

  ghost predicate InOrder(q: seq<XNode>, order: Order) {
    (order == Sorted ==> Ascends(q)) && (order == SortedReverse ==> Falls(q))
  }

  /** An arrangement in document order is the only one. */
  lemma {:induction false} OneArrangement(p: seq<XNode>, q: seq<XNode>)
    requires Ascends(p) && Ascends(q) && multiset(p) == multiset(q)
    ensures p == q
  {
    assert |p| == |multiset(p)| == |multiset(q)| == |q|;
    if p != [] {
      SameFirst(p, q);
      assert p == [p[0]] + p[1..] && q == [q[0]] + q[1..];
      assert multiset(p[1..]) == multiset(p) - multiset{p[0]} == multiset(q) - multiset{q[0]} == multiset(q[1..]);
      OneArrangement(p[1..], q[1..]);
    }
  }

  lemma {:induction false} SameFirst(p: seq<XNode>, q: seq<XNode>)
    requires Ascends(p) && Ascends(q) && multiset(p) == multiset(q) && p != [] && q != []
    ensures p[0] == q[0]
  {
    assert p[0] in multiset(q) && q[0] in multiset(p);
    FirstIsLeast(q, p[0]);
    FirstIsLeast(p, q[0]);
  }

  lemma {:induction false} FirstIsLeast(q: seq<XNode>, x: XNode)
    requires Ascends(q) && x in q
    ensures q[0] == x || Before(q[0], x)
  {
    var i :| 0 <= i < |q| && q[i] == x;
    assert i == 0 || q[0] == q[i] || Before(q[0], q[i]);
  }

  /** Sorting by insertion is one way to find it. */
  lemma {:induction false} InsertAscends(q: seq<XNode>, x: XNode)
    requires Ascends(q)
    ensures Ascends(Insert(q, x)) && multiset(Insert(q, x)) == multiset(q) + multiset{x}
  {
    if q == [] || Before(x, q[0]) {
      assert Insert(q, x) == [x] + q;
    } else {
      InsertAscends(q[1..], x);
      FirstStays(q, x, Insert(q[1..], x));
    }
  }

  lemma {:induction false} FirstStays(q: seq<XNode>, x: XNode, r: seq<XNode>)
    requires Ascends(q) && q != [] && !Before(x, q[0]) && Ascends(r) && multiset(r) == multiset(q[1..]) + multiset{x}
    ensures Ascends([q[0]] + r) && multiset([q[0]] + r) == multiset(q) + multiset{x}
  {
    assert q == [q[0]] + q[1..];
    forall k | 0 <= k < |r| ensures q[0] == r[k] || Before(q[0], r[k]) {
      assert r[k] in multiset(r);
      if r[k] != x {
        assert r[k] in q[1..];
        var j :| 0 <= j < |q| - 1 && q[1..][j] == r[k];
        assert q[0] == q[j + 1] || Before(q[0], q[j + 1]);
      } else {
        assert x == q[0] || Before(q[0], x);
      }
    }
  }

  lemma {:induction false} SortNodesAscend(q: seq<XNode>)
    ensures Ascends(SortNodes(q)) && multiset(SortNodes(q)) == multiset(q)
  {
    if q != [] {
      SortNodesAscend(q[1..]);
      InsertAscends(SortNodes(q[1..]), q[0]);
      assert q == [q[0]] + q[1..];
    }
  }

  lemma {:induction false} ReverseArranges(q: seq<XNode>)
    ensures multiset(Reverse(q)) == multiset(q)
    ensures Falls(q) ==> Ascends(Reverse(q))
    ensures Ascends(q) ==> Falls(Reverse(q))
  {
    XPathSequences.ReverseOk(q);
    ReverseKeeps(q);
  }

  lemma {:induction false} ReverseKeeps(q: seq<XNode>)
    ensures multiset(Reverse(q)) == multiset(q)
  {
    if q != [] {
      ReverseKeeps(q[1..]);
      assert q == [q[0]] + q[1..];
    }
  }

  /** Every two neighbours compare alike. */
  ghost predicate Uniform(q: seq<XNode>, first: bool, slow: XNode -> bool) {
    forall k :: 0 <= k < |q| - 1 ==> Precedes(slow, q[k], q[k + 1]) == first
  }

  /** The order a set happens to be in, entries repeated or not: found by comparing every two neighbours. */
  method GetOrder(a: array<XNode>, slow: XNode -> bool) returns (order: Order)
    ensures InOrder(a[..], order)
    ensures order == Unsorted <==> !Uniform(a[..], true, slow) && !Uniform(a[..], false, slow)
  {
    if a.Length < 2 { return Sorted; }
    var first := Precedes(slow, a[0], a[1]);
    var it := 1;
    while it + 1 < a.Length
      invariant 1 <= it < a.Length && forall k :: 0 <= k < it ==> Precedes(slow, a[k], a[k + 1]) == first
    {
      if Precedes(slow, a[it], a[it + 1]) != first {
        assert Precedes(slow, a[..][0], a[..][0 + 1]) == first && Precedes(slow, a[..][it], a[..][it + 1]) != first;
        return Unsorted;
      }
      it := it + 1;
    }
    order := if first then Sorted else SortedReverse;
    UniformIsOrdered(a[..], first, slow);
  }

  lemma {:induction false} UniformIsOrdered(q: seq<XNode>, first: bool, slow: XNode -> bool)
    requires Uniform(q, first, slow)
    ensures if first then Ascends(q) else Falls(q)
  {
    forall a, b | 0 <= a < b < |q| ensures q[a] == q[b] || if first then Before(q[a], q[b]) else Before(q[b], q[a]) {
      NeighboursChain(q, first, slow, a, b);
    }
  }

  lemma {:induction false} NeighboursChain(q: seq<XNode>, first: bool, slow: XNode -> bool, a: nat, b: nat)
    requires Uniform(q, first, slow) && a < b < |q|
    ensures q[a] == q[b] || if first then Before(q[a], q[b]) else Before(q[b], q[a])
    decreases b
  {
    assert Precedes(slow, q[b - 1], q[b - 1 + 1]) == first;
    if a < b - 1 { NeighboursChain(q, first, slow, a, b - 1); }
  }

  /** Exchanges the ends until they meet. */
  method ReverseInPlace(a: array<XNode>)
    modifies a
    ensures a[..] == Reverse(old(a[..]))
  {
    var begin, end := 0, a.Length;
    ghost var q := a[..];
    while end - begin > 1
      invariant 0 <= begin && begin + end == |q| && begin <= end + 1
      invariant forall k :: 0 <= k < begin ==> a[k] == q[|q| - 1 - k] && a[|q| - 1 - k] == q[k]
      invariant forall k :: begin <= k < end ==> a[k] == q[k]
    {
      end := end - 1;
      a[begin], a[end] := a[end], a[begin];
      begin := begin + 1;
    }
    XPathSequences.ReverseOk(q);
  }

  /** What a set must be like for the sort to end: in an order already, or suitable. */
  ghost predicate Sortable(q: seq<XNode>, given: Order, slow: XNode -> bool) {
    && InOrder(q, given)
    && (given == Unsorted ==> Uniform(q, true, slow) || Uniform(q, false, slow) || Sorting.Suitable(q, Less(slow)))
  }

  /** A set of different entries always is. */
  lemma {:induction false} HonestIsSortable(d: Doc, ns: NodeSeq, slow: XNode -> bool)
    requires Honest(d, ns)
    ensures Sortable(ns.s, ns.order, slow)
  {
    NoDupCount(ns.s);
  }

  lemma {:induction false} NoDupCount(q: seq<XNode>)
    requires NoDup(q)
    ensures forall x :: multiset(q)[x] <= 1
  {
    if q != [] {
      var p := q[..|q| - 1];
      NoDupCount(p);
      assert q == p + [q[|q| - 1]];
      assert multiset(q) == multiset(p) + multiset{q[|q| - 1]};
      assert q[|q| - 1] !in p;
    }
  }

  /** Brings a set into document order, or into reverse order; entries may be repeated. */
  method SortNodeSet(a: array<XNode>, given: Order, rev: bool, slow: XNode -> bool) returns (order: Order)
    requires Sortable(a[..], given, slow)
    modifies a
    ensures order == if rev then SortedReverse else Sorted
    ensures InOrder(a[..], order) && multiset(a[..]) == multiset(old(a[..]))
    ensures a[..] == var s := SortDo(NodeSeq(old(a[..]), given)).s; if rev then Reverse(s) else s
  {
    order := if rev then SortedReverse else Sorted;
    var found := given;
    ghost var q := a[..];
    if found == Unsorted {
      found := GetOrder(a, slow);
      if found == Unsorted {
        SortAll(a, slow);
        found := Sorted;
      }
    }
    ghost var m := a[..];
    Arranged(q, m, given, found);
    if found != order { ReverseInPlace(a); }
    ReverseTwice(m);
    ReverseArranges(m);
  }

  method SortAll(a: array<XNode>, slow: XNode -> bool)
    requires Sorting.Suitable(a[..], Less(slow))
    modifies a
    ensures Ascends(a[..]) && multiset(a[..]) == multiset(old(a[..]))
  {
    ghost var q := a[..];
    LessIsTotal(slow);
    assert a[0..a.Length] == q;
    DepthOk(a.Length);
    Sorting.Sort(a, 0, a.Length, Less(slow), Depth(a.Length));
    AllSorted(q, a[..], slow);
  }

  /** How often a range can be halved until it is no longer than sixteen. */
  ghost function Depth(n: nat): nat {
    if n <= 16 then 0 else 1 + Depth((n + 1) / 2)
  }

  /** The least depth with which `n` elements can be sorted. */
  lemma {:induction false} DepthOk(n: nat)
    ensures n <= 16 * Pow2(Depth(n)) && (Depth(n) > 0 ==> 16 * Pow2(Depth(n) - 1) < n)
  {
    if n > 16 { DepthOk((n + 1) / 2); }
  }

  lemma {:induction false} AllSorted(q: seq<XNode>, n: seq<XNode>, slow: XNode -> bool)
    requires Sorting.Perm(q, n, 0, |q|) && Sorting.Ascending(n, 0, |q|, Less(slow))
    ensures Ascends(n) && multiset(n) == multiset(q)
  {
    assert q[0..|q|] == q && n[0..|q|] == n;
    forall i, j | 0 <= i < j < |n| ensures n[i] == n[j] || Before(n[i], n[j]) {
      assert Sorting.NotAfter(Less(slow), n[i], n[j]);
      assert !Precedes(slow, n[j], n[i]) || n[i] == n[j];
    }
  }

  /** However the order was found, what results is what the sort by insertion gives. */
  lemma {:induction false} Arranged(q: seq<XNode>, m: seq<XNode>, given: Order, found: Order)
    requires found != Unsorted && InOrder(m, found) && multiset(m) == multiset(q)
    requires given != Unsorted ==> m == q && found == given
    ensures SortDo(NodeSeq(q, given)).s == if found == SortedReverse then Reverse(m) else m
  {
    if given == Unsorted {
      SortNodesAscend(q);
      ReverseArranges(m);
      OneArrangement(SortNodes(q), if found == SortedReverse then Reverse(m) else m);
    }
  }

  lemma ReverseTwice(s: seq<XNode>)
    ensures Reverse(Reverse(s)) == s
  {
    XPathSequences.ReverseOk(s);
    XPathSequences.ReverseOk(Reverse(s));
  }
}
