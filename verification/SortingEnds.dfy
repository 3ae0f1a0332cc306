// When the sort comes to an end. Its rounds depend on nothing but the contents of the range, so they are followed on
// sequences; the methods of `Sorting` partition exactly as these functions do.
module SortingEnds {
  import opened Sorting

  /** The sort of a range ends with rounds nested no deeper than `depth`: sixteen elements need none, and otherwise both
      parts are sorted, one by a call and one by the loop. */
  predicate Ends<T(==)>(s: seq<T>, depth: nat, less: (T, T) -> bool)
    decreases depth
  {
    |s| <= 16
    || (depth > 0 && var p := Round(s, less); Ends(p.s[..p.lo], depth - 1, less) && Ends(p.s[p.hi..], depth - 1, less))
  }

  ghost predicate Halts<T(!new)>(s: seq<T>, less: (T, T) -> bool) {
    exists depth: nat :: Ends(s, depth, less)
  }

  // ----- ranges that can be sorted -------------------------------------------------------------------------

  /** Both parts are smaller, and can be sorted as well. */
  lemma {:induction false} RoundSuits<T(!new)>(s: seq<T>, less: (T, T) -> bool)
    requires Suitable(s, less) && |s| > 16 && Total(less)
    ensures var p := Round(s, less);
      p.lo < |s| && 0 < p.hi && Suitable(p.s[..p.lo], less) && Suitable(p.s[p.hi..], less)
  {
    var p := Round(s, less);
    var median, last := Sampled(s, less);
    PartitionOk(s, s[median], less);
    assert SameForm(s, p.s, 0);
    if less(s[median], s[median]) { SomethingBehind(s, p.s, p.lo, median, last, less); }
    PartSuits(s, p.s, 0, p.lo, less);
    PartSuits(s, p.s, p.hi, |p.s|, less);
    assert p.s[0..p.lo] == p.s[..p.lo] && p.s[p.hi..|p.s|] == p.s[p.hi..];
  }

  lemma {:induction false} SuitableEnds<T(!new)>(s: seq<T>, depth: nat, less: (T, T) -> bool)
    requires Suitable(s, less) && Total(less) && |s| <= depth
    ensures Ends(s, depth, less)
    decreases depth
  {
    if |s| > 16 {
      var p := Round(s, less);
      RoundSuits(s, less);
      SuitableEnds(p.s[..p.lo], depth - 1, less);
      SuitableEnds(p.s[p.hi..], depth - 1, less);
    }
  }

  // ----- ranges that cannot be sorted ----------------------------------------------------------------------

  lemma {:induction false} SplitSkips<T>(s: seq<T>, lt: nat, mid: nat, gt: nat, x: T, less: (T, T) -> bool)
    requires lt <= mid <= gt <= |s| && forall k :: lt <= k < mid ==> less(s[k], x)
    ensures Split(s, 0, lt, gt, x, less) == Split(s, 0, mid, gt, x, less)
    decreases mid - lt
  {
    if lt < mid { SplitSkips(s, lt + 1, mid, gt, x, less); }
  }

  /** Larger elements are moved behind `gt`; what is in front of `lt` stays. */
  lemma {:induction false} SplitLarger<T>(s: seq<T>, lt: nat, gt: nat, x: T, less: (T, T) -> bool)
    requires lt <= gt <= |s| && less(x, x) && forall k :: lt <= k < gt ==> !less(s[k], x)
    ensures var p := Split(s, 0, lt, gt, x, less); p.lo == 0 && p.hi == lt && p.s[..lt] == s[..lt]
    decreases gt - lt
  {
    if lt < gt { SplitLarger(Swapped(s, lt, gt - 1), lt, gt - 1, x, less); }
  }

  /** One smaller element among larger ones comes to stand at `lt`. */
  lemma {:induction false} SplitOne<T>(s: seq<T>, lt: nat, at: nat, gt: nat, x: T, less: (T, T) -> bool)
    requires lt <= at < gt <= |s| && less(x, x) && s[at] == x && forall k :: lt <= k < gt && k != at ==> !less(s[k], x)
    ensures var p := Split(s, 0, lt, gt, x, less); p.lo == 0 && p.hi == lt + 1 && p.s[..lt + 1] == s[..lt] + [x]
    decreases gt - lt
  {
    if lt == at {
      SplitLarger(s, lt + 1, gt, x, less);
    } else {
      var n := Swapped(s, lt, gt - 1);
      SplitOne(n, lt, if at == gt - 1 then lt else at, gt - 1, x, less);
      assert n[..lt] == s[..lt];
    }
  }

  /** A range longer than sixteen, whose first and last element are a largest one that precedes itself. */
  ghost predicate Stuck<T(!new)>(s: seq<T>, x: T, less: (T, T) -> bool) {
    |s| > 16 && less(x, x) && s[0] == x && s[|s| - 1] == x && forall k :: 0 <= k < |s| ==> less(s[k], x)
  }

  /** A round changes nothing there: neither the elements nor the bounds of the range. */
  lemma {:induction false} StuckRound<T(!new)>(s: seq<T>, x: T, less: (T, T) -> bool)
    requires Stuck(s, x, less) && Total(less)
    ensures Round(s, less) == Parts(s, |s|, |s|)
  {
    SplitSkips(s, 0, |s|, |s|, x, less);
    assert s[MedianOf(s, 0, |s| / 2, |s| - 1, less)] == x;
  }

  lemma {:induction false} StuckNeverEnds<T(!new)>(s: seq<T>, x: T, depth: nat, less: (T, T) -> bool)
    requires Stuck(s, x, less) && Total(less)
    ensures !Ends(s, depth, less)
    decreases depth
  {
    StuckRound(s, x, less);
    assert s[..|s|] == s;
    if depth > 0 { StuckNeverEnds(s, x, depth - 1, less); }
  }

  /** The elements of `s` that precede `x`, or that do not. */
  ghost function Those<T(!new)>(s: seq<T>, x: T, before: bool, less: (T, T) -> bool): seq<T> {
    if s == [] then [] else (if less(s[0], x) == before then [s[0]] else []) + Those(s[1..], x, before, less)
  }

  lemma {:induction false} ThoseAre<T(!new)>(s: seq<T>, x: T, before: bool, less: (T, T) -> bool)
    ensures forall k :: 0 <= k < |Those(s, x, before, less)| ==> less(Those(s, x, before, less)[k], x) == before
    ensures before ==> |Those(s, x, before, less)| == Preceding(s, x, less)
  {
    if s != [] { ThoseAre(s[1..], x, before, less); }
  }

  lemma {:induction false} ThoseAreAll<T(!new)>(s: seq<T>, x: T, less: (T, T) -> bool)
    ensures multiset(s) == multiset(Those(s, x, true, less)) + multiset(Those(s, x, false, less))
  {
    if s != [] {
      ThoseAreAll(s[1..], x, less);
      assert s == [s[0]] + s[1..];
      assert multiset(s) == multiset{s[0]} + multiset(s[1..]);
    }
  }

  lemma {:induction false} PutLast<T>(l: seq<T>, x: T) returns (m: seq<T>)
    requires x in multiset(l)
    ensures multiset(l) == multiset(m) + multiset{x}
  {
    var i :| 0 <= i < |l| && l[i] == x;
    m := l[..i] + l[i + 1..];
    assert l == l[..i] + ([x] + l[i + 1..]);
  }

  /** A rearrangement of some elements that begins and ends with a repeated one. */
  lemma {:induction false} Framed<T>(l: seq<T>, x: T) returns (m: seq<T>)
    requires multiset(l)[x] > 1
    ensures multiset([x] + m + [x]) == multiset(l)
  {
    var u := PutLast(l, x);
    assert multiset(u)[x] > 0;
    m := PutLast(u, x);
    assert multiset([x] + m + [x]) == multiset{x} + multiset(m) + multiset{x};
  }

  lemma {:induction false} LeftPartStuck<T(!new)>(t: seq<T>, l: seq<T>, x: T, less: (T, T) -> bool)
    requires |t| > 16 && Stuck(l, x, less) && Total(less)
    requires var p := Round(t, less); p.s[..p.lo] == l
    ensures !Halts(t, less)
  {
    forall depth: nat ensures !Ends(t, depth, less) {
      if depth > 0 { StuckNeverEnds(l, x, depth - 1, less); }
    }
  }

  /** The smaller elements come first: they are the left part, as they are. */
  lemma {:induction false} SmallerFirst<T(!new)>(l: seq<T>, g: seq<T>, x: T, less: (T, T) -> bool)
    requires Stuck(l, x, less) && Total(less) && forall k :: 0 <= k < |g| ==> !less(g[k], x)
    requires (|l| + |g|) / 2 < |l|
    ensures var p := Round(l + g, less); p.s[..p.lo] == l
  {
    var t := l + g;
    assert forall k :: 0 <= k < |l| ==> t[k] == l[k];
    assert forall k :: |l| <= k < |t| ==> t[k] == g[k - |l|];
    SplitSkips(t, 0, |l|, |t|, x, less);
    SplitLarger(t, |l|, |t|, x, less);
    assert t[..|l|] == l;
    assert t[MedianOf(t, 0, |t| / 2, |t| - 1, less)] == x;
  }

  /** The middle lies among the larger elements: there a copy of `x` is put. */
  lemma {:induction false} MiddleAmongLarger<T(!new)>(l: seq<T>, g: seq<T>, x: T, less: (T, T) -> bool)
    returns (t: seq<T>)
    requires Stuck(l, x, less) && Total(less) && forall k :: 0 <= k < |g| ==> !less(g[k], x)
    requires (|l| + |g|) / 2 >= |l|
    ensures |t| == |l| + |g| && multiset(t) == multiset(l) + multiset(g)
    ensures var p := Round(t, less); p.s[..p.lo] == l
  {
    var h := |l| - 1;
    var k := (|l| + |g|) / 2 - h;
    t := PutIn(l, g, x, k);
    SplitSkips(t, 0, h, |t|, x, less);
    SplitOne(t, h, h + k, |t|, x, less);
    assert t[..h] == l[..h] && l == l[..h] + [x];
    assert t[MedianOf(t, 0, |t| / 2, |t| - 1, less)] == x;
  }

  /** The last element of `l` is put in behind `k` elements of `g`. */
  lemma {:induction false} PutIn<T>(l: seq<T>, g: seq<T>, x: T, k: nat) returns (t: seq<T>)
    requires l != [] && l[|l| - 1] == x && k <= |g|
    ensures |t| == |l| + |g| && multiset(t) == multiset(l) + multiset(g)
    ensures var h := |l| - 1;
      && (forall j :: 0 <= j < h ==> t[j] == l[j]) && t[h + k] == x
      && (forall j :: h <= j < h + k ==> t[j] == g[j - h]) && (forall j :: h + k < j < |t| ==> t[j] == g[j - h - 1])
  {
    var a, b, c := l[..|l| - 1], g[..k], g[k..];
    t := a + b + [x] + c;
    assert g == b + c && l == a + [x];
    assert multiset(t) == multiset(a) + multiset(b) + multiset{x} + multiset(c);
  }

  /** A range that is not suitable has an arrangement for which the sort does not end. */
  lemma {:induction false} UnsuitableStays<T(!new)>(s: seq<T>, less: (T, T) -> bool) returns (t: seq<T>)
    requires !Suitable(s, less) && Total(less)
    ensures multiset(t) == multiset(s) && !Halts(t, less)
  {
    var x :| multiset(s)[x] > 1 && less(x, x) && Preceding(s, x, less) > 16;
    var l0, g := Those(s, x, true, less), Those(s, x, false, less);
    ThoseAre(s, x, true, less);
    ThoseAre(s, x, false, less);
    ThoseAreAll(s, x, less);
    assert x !in g;
    var m := Framed(l0, x);
    var l := [x] + m + [x];
    StuckArrangement(l0, l, x, less);
    if (|l| + |g|) / 2 < |l| {
      t := l + g;
      SmallerFirst(l, g, x, less);
    } else {
      t := MiddleAmongLarger(l, g, x, less);
    }
    LeftPartStuck(t, l, x, less);
  }

  lemma {:induction false} StuckArrangement<T(!new)>(l0: seq<T>, l: seq<T>, x: T, less: (T, T) -> bool)
    requires multiset(l) == multiset(l0) && |l0| > 16 && less(x, x) && l[0] == x && l[|l| - 1] == x
    requires forall k :: 0 <= k < |l0| ==> less(l0[k], x)
    ensures Stuck(l, x, less)
  {
    assert |l| == |multiset(l)| == |multiset(l0)| == |l0|;
    forall k | 0 <= k < |l| ensures less(l[k], x) { assert l[k] in multiset(l0); }
  }

  /** The sort ends for every arrangement of some elements if and only if they are suitable: no element that precedes
      itself is repeated, unless no more than sixteen precede it. */
  lemma {:induction false} EndsIff<T(!new)>(s: seq<T>, less: (T, T) -> bool)
    requires Total(less)
    ensures (forall t: seq<T> {:trigger multiset(t)} :: multiset(t) == multiset(s) ==> Halts(t, less)) <==>
            Suitable(s, less)
  {
    if Suitable(s, less) {
      forall t: seq<T> {:trigger multiset(t)} | multiset(t) == multiset(s) ensures Halts(t, less) {
        PartSuits(s, t, 0, |t|, less);
        assert t[0..|t|] == t;
        SuitableEnds(t, |t|, less);
      }
    } else {
      var t := UnsuitableStays(s, less);
    }
  }

  /** Copies of one element that precedes itself: the sort ends if and only if there are at most sixteen. */
  lemma {:induction false} CopiesIff<T(!new)>(s: seq<T>, x: T, less: (T, T) -> bool)
    requires Total(less) && less(x, x) && forall k :: 0 <= k < |s| ==> s[k] == x
    ensures Halts(s, less) <==> |s| <= 16
  {
    if |s| <= 16 {
      assert Ends(s, 0, less);
    } else {
      forall depth: nat ensures !Ends(s, depth, less) { StuckNeverEnds(s, x, depth, less); }
    }
  }
}
