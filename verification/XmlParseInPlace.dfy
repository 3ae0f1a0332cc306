// The parser's main loop on the buffer itself.
//
// Names and values are not copied: a node holds the offset of a string that the parser terminates inside
// the buffer while it goes on. What has been stored is never overwritten, because everything the parser
// still writes lies behind it. Nodes are the records below; the stack of open elements stands for the
// chain of parents from the cursor to the root.
module XmlParseInPlace {
  import opened Basics
  import opened XmlBytes
  import opened XmlText
  import opened XmlTrees
  import opened XmlParse
  import opened XmlDecode

  datatype AttAt = AttAt(name: nat, value: nat)

  datatype NodeAt =
    | ElemAt(name: nat, atts: seq<AttAt>, value: Option<nat>, kids: seq<NodeAt>)
    | CharsAt(text: nat)

  datatype OpenAt = OpenAt(name: nat, atts: seq<AttAt>, value: Option<nat>, kids: seq<NodeAt>)

  datatype ResultAt =
    | ParsedAt(kids: seq<NodeAt>)
    | FailedAt(status: Status, offset: nat)
    | ElsewhereAt(offset: nat)

  // ----- strings in the buffer --------------------------------------------------------------------------

  /** The string at `p`, terminator included, lies before `lim` and reads `s`. */
  ghost predicate StringAt(t: seq<byte>, lim: nat, p: nat, s: seq<byte>) {
    p + |s| < lim <= |t| && t[p..p + |s|] == s && t[p + |s|] == NUL
  }

  ghost predicate IsAtt(t: seq<byte>, lim: nat, x: AttAt, a: Att) {
    StringAt(t, lim, x.name, a.name) && StringAt(t, lim, x.value, a.value)
  }

  ghost predicate AreAtts(t: seq<byte>, lim: nat, x: seq<AttAt>, a: seq<Att>) {
    |x| == |a| && forall i :: 0 <= i < |x| ==> IsAtt(t, lim, x[i], a[i])
  }

  ghost predicate IsValue(t: seq<byte>, lim: nat, x: Option<nat>, v: Option<seq<byte>>) {
    x.Some? == v.Some? && (x.Some? ==> StringAt(t, lim, x.value, v.value))
  }

  ghost predicate IsNode(t: seq<byte>, lim: nat, x: NodeAt, k: Tree) {
    match x
    case CharsAt(p) => k.Chars? && StringAt(t, lim, p, k.text)
    case ElemAt(name, atts, value, kids) =>
      k.Elem? && StringAt(t, lim, name, k.name) && AreAtts(t, lim, atts, k.atts) &&
        IsValue(t, lim, value, k.value) && AreNodes(t, lim, kids, k.kids)
  }

  ghost predicate AreNodes(t: seq<byte>, lim: nat, x: seq<NodeAt>, k: seq<Tree>) {
    |x| == |k| && (x == [] || (IsNode(t, lim, x[0], k[0]) && AreNodes(t, lim, x[1..], k[1..])))
  }

  ghost predicate IsOpen(t: seq<byte>, lim: nat, x: OpenAt, f: Frame) {
    && StringAt(t, lim, x.name, f.name) && NUL !in f.name
    && AreAtts(t, lim, x.atts, f.atts) && IsValue(t, lim, x.value, f.value) && AreNodes(t, lim, x.kids, f.kids)
  }

  // ----- where names and values begin ----------------------------------------------------------------------

  /** The places of the attributes' names and values; of a node's name, its attributes, its value and its children, in
      document order. */
  function AttKeys(atts: seq<AttAt>): seq<nat> {
    if atts == [] then []
    else
      var last := atts[|atts| - 1];
      AttKeys(atts[..|atts| - 1]) + [last.name, last.value]
  }

  function ValueKeys(value: Option<nat>): seq<nat> {
    if value.Some? then [value.value] else []
  }

  /** Those of a node itself. */
  function OwnKeys(x: NodeAt): seq<nat> {
    match x
    case CharsAt(p) => [p]
    case ElemAt(name, atts, value, _) => [name] + AttKeys(atts) + ValueKeys(value)
  }

  function Keys(x: NodeAt): seq<nat> {
    OwnKeys(x) + if x.ElemAt? then KeysAll(x.kids) else []
  }

  function KeysAll(kids: seq<NodeAt>): seq<nat> {
    if kids == [] then [] else KeysAll(kids[..|kids| - 1]) + Keys(kids[|kids| - 1])
  }

  /** Those of an open element; the outermost frame is the document. */
  function FrameKeys(f: OpenAt, outermost: bool): seq<nat> {
    if outermost then KeysAll(f.kids) else [f.name] + AttKeys(f.atts) + ValueKeys(f.value) + KeysAll(f.kids)
  }

  function KeysOpen(x: seq<OpenAt>): seq<nat> {
    if x == [] then [] else KeysOpen(x[..|x| - 1]) + FrameKeys(x[|x| - 1], |x| == 1)
  }

  /** Ascending, and before `lim`. */
  ghost predicate Rising(q: seq<nat>, lim: nat) {
    (forall i, j :: 0 <= i < j < |q| ==> q[i] < q[j]) && forall i :: 0 <= i < |q| ==> q[i] < lim
  }

  lemma RisingOn(q: seq<nat>, lim: nat, p: nat, lim': nat)
    requires Rising(q, lim) && lim <= p < lim'
    ensures Rising(q + [p], lim')
  {
  }

  lemma RisingTwice(k: seq<nat>, p: nat, q: nat, lim: nat)
    requires Rising(k, p) && p < q < lim
    ensures Rising(k + [p, q], lim)
  {
    assert k + [p, q] == k + [p] + [q];
    RisingOn(k, p, p, q);
    RisingOn(k + [p], q, q, lim);
  }

  /** The open elements lie in the buffer in document order, before `lim`; kept folded. */
  ghost predicate Ordered(x: seq<OpenAt>, lim: nat) {
    forall n: nat {:trigger OrderedForm(x, lim, n)} :: n < 1 ==> OrderedForm(x, lim, n)
  }

  ghost predicate OrderedForm(x: seq<OpenAt>, lim: nat, n: nat) {
    Rising(KeysOpen(x), lim)
  }

  lemma OrderedLater(x: seq<OpenAt>, lim: nat, lim': nat)
    requires Ordered(x, lim) && lim <= lim'
    ensures Ordered(x, lim')
  {
    assert OrderedForm(x, lim, 0);
  }

  lemma OrderedGrows(x: seq<OpenAt>, y: seq<OpenAt>, p: nat, lim: nat)
    requires Ordered(x, p) && p < lim && KeysOpen(y) == KeysOpen(x) + [p]
    ensures Ordered(y, lim)
  {
    assert OrderedForm(x, p, 0);
    RisingOn(KeysOpen(x), p, p, lim);
  }

  lemma OrderedGrowsTwice(x: seq<OpenAt>, y: seq<OpenAt>, p: nat, q: nat, lim: nat)
    requires Ordered(x, p) && p < q < lim && KeysOpen(y) == KeysOpen(x) + [p, q]
    ensures Ordered(y, lim)
  {
    assert OrderedForm(x, p, 0);
    RisingTwice(KeysOpen(x), p, q, lim);
  }

  lemma OrderedSame(x: seq<OpenAt>, y: seq<OpenAt>, lim: nat)
    requires Ordered(x, lim) && KeysOpen(y) == KeysOpen(x)
    ensures Ordered(y, lim)
  {
    assert OrderedForm(x, lim, 0);
  }

  lemma KeysOfKid(x: seq<OpenAt>, k: NodeAt)
    requires x != []
    ensures KeysOpen(AddKidAt(x, k)) == KeysOpen(x) + Keys(k)
  {
    var n := |x| - 1;
    var x' := AddKidAt(x, k);
    assert x'[..n] == x[..n];
    var kids := x[n].kids;
    assert (kids + [k])[..|kids|] == kids;
    Assoc(KeysOpen(x[..n]), FrameKeys(x[n], |x| == 1), Keys(k));
    if n > 0 { Assoc([x[n].name] + AttKeys(x[n].atts) + ValueKeys(x[n].value), KeysAll(kids), Keys(k)); }
  }

  lemma KeysOfAtt(x: seq<OpenAt>, y: AttAt)
    requires |x| > 1 && x[|x| - 1].kids == [] && x[|x| - 1].value == None
    ensures KeysOpen(WithTopAt(x, x[|x| - 1].(atts := x[|x| - 1].atts + [y]))) == KeysOpen(x) + [y.name, y.value]
  {
    var n := |x| - 1;
    var atts := x[n].atts;
    var x' := WithTopAt(x, x[n].(atts := atts + [y]));
    assert x'[..n] == x[..n];
    assert (atts + [y])[..|atts|] == atts;
    Assoc(KeysOpen(x[..n]), [x[n].name] + AttKeys(atts), [y.name, y.value]);
    Assoc([x[n].name], AttKeys(atts), [y.name, y.value]);
    assert KeysAll([]) == [] && ValueKeys(None) == [];
    Assoc([x[n].name] + AttKeys(atts), [], []);
    Assoc([x[n].name] + AttKeys(atts + [y]), [], []);
  }

  lemma KeysOfValue(x: seq<OpenAt>, p: nat)
    requires |x| > 1 && x[|x| - 1].kids == [] && x[|x| - 1].value == None
    ensures KeysOpen(WithTopAt(x, x[|x| - 1].(value := Some(p)))) == KeysOpen(x) + [p]
  {
    var n := |x| - 1;
    var x' := WithTopAt(x, x[n].(value := Some(p)));
    assert x'[..n] == x[..n];
    var own := [x[n].name] + AttKeys(x[n].atts);
    assert KeysAll([]) == [] && ValueKeys(None) == [] && ValueKeys(Some(p)) == [p];
    Assoc(own, [], []);
    Assoc(own, [p], []);
    Assoc(KeysOpen(x[..n]), own, [p]);
  }

  lemma KeysOfPush(x: seq<OpenAt>, name: nat)
    requires x != []
    ensures KeysOpen(PushAt(x, name)) == KeysOpen(x) + [name]
  {
    var x' := PushAt(x, name);
    assert x'[..|x|] == x;
    assert FrameKeys(x'[|x|], false) == [name];
  }

  lemma KeysOfPop(x: seq<OpenAt>)
    requires |x| > 1
    ensures KeysOpen(PopAt(x)) == KeysOpen(x)
  {
    var f := x[|x| - 1];
    KeysOfKid(x[..|x| - 1], ElemAt(f.name, f.atts, f.value, f.kids));
  }

  /** All frames but the outermost, which has no name; and everything lies in the buffer in document order. */
  ghost predicate AreOpen(t: seq<byte>, lim: nat, x: seq<OpenAt>, st: seq<Frame>) {
    && |x| == |st| > 0 && lim <= |t| && Ordered(x, lim)
    && AreNodes(t, lim, x[0].kids, st[0].kids)
    && forall i {:trigger IsOpen(t, lim, x[i], st[i])} :: 0 < i < |x| ==> IsOpen(t, lim, x[i], st[i])
  }

  /** `n` agrees with `t` before `lim`. */
  ghost predicate Agree(t: seq<byte>, n: seq<byte>, lim: nat) {
    |t| == |n| && lim <= |t| && n[..lim] == t[..lim]
  }

  lemma StringKept(t: seq<byte>, n: seq<byte>, lim: nat, lim': nat, p: nat, s: seq<byte>)
    requires Agree(t, n, lim) && lim <= lim' <= |n| && StringAt(t, lim, p, s)
    ensures StringAt(n, lim', p, s)
  {
    assert n[p..p + |s|] == n[..lim][p..p + |s|] == t[..lim][p..p + |s|] == t[p..p + |s|];
    assert n[..lim][p + |s|] == t[..lim][p + |s|];
  }

  lemma AttsKept(t: seq<byte>, n: seq<byte>, lim: nat, lim': nat, x: seq<AttAt>, a: seq<Att>)
    requires Agree(t, n, lim) && lim <= lim' <= |n| && AreAtts(t, lim, x, a)
    ensures AreAtts(n, lim', x, a)
  {
    forall i | 0 <= i < |x| ensures IsAtt(n, lim', x[i], a[i]) {
      assert IsAtt(t, lim, x[i], a[i]);
      StringKept(t, n, lim, lim', x[i].name, a[i].name);
      StringKept(t, n, lim, lim', x[i].value, a[i].value);
    }
  }

  lemma ValueKept(t: seq<byte>, n: seq<byte>, lim: nat, lim': nat, x: Option<nat>, v: Option<seq<byte>>)
    requires Agree(t, n, lim) && lim <= lim' <= |n| && IsValue(t, lim, x, v)
    ensures IsValue(n, lim', x, v)
  {
    if x.Some? { StringKept(t, n, lim, lim', x.value, v.value); }
  }

  lemma {:induction false} NodeKept(t: seq<byte>, n: seq<byte>, lim: nat, lim': nat, x: NodeAt, k: Tree)
    requires Agree(t, n, lim) && lim <= lim' <= |n| && IsNode(t, lim, x, k)
    ensures IsNode(n, lim', x, k)
    decreases x
  {
    match x
    case CharsAt(p) => StringKept(t, n, lim, lim', p, k.text);
    case ElemAt(name, atts, value, kids) =>
      StringKept(t, n, lim, lim', name, k.name);
      AttsKept(t, n, lim, lim', atts, k.atts);
      ValueKept(t, n, lim, lim', value, k.value);
      NodesKept(t, n, lim, lim', kids, k.kids);
  }

  lemma {:induction false} NodesKept(t: seq<byte>, n: seq<byte>, lim: nat, lim': nat, x: seq<NodeAt>, k: seq<Tree>)
    requires Agree(t, n, lim) && lim <= lim' <= |n| && AreNodes(t, lim, x, k)
    ensures AreNodes(n, lim', x, k)
    decreases x
  {
    if x != [] {
      NodeKept(t, n, lim, lim', x[0], k[0]);
      NodesKept(t, n, lim, lim', x[1..], k[1..]);
    }
  }

  lemma OpenKept(t: seq<byte>, n: seq<byte>, lim: nat, lim': nat, x: seq<OpenAt>, st: seq<Frame>)
    requires Agree(t, n, lim) && lim <= lim' <= |n| && AreOpen(t, lim, x, st)
    ensures AreOpen(n, lim', x, st)
  {
    OrderedLater(x, lim, lim');
    NodesKept(t, n, lim, lim', x[0].kids, st[0].kids);
    forall i | 0 < i < |x| ensures IsOpen(n, lim', x[i], st[i]) {
      assert IsOpen(t, lim, x[i], st[i]);
      StringKept(t, n, lim, lim', x[i].name, st[i].name);
      AttsKept(t, n, lim, lim', x[i].atts, st[i].atts);
      ValueKept(t, n, lim, lim', x[i].value, st[i].value);
      NodesKept(t, n, lim, lim', x[i].kids, st[i].kids);
    }
  }

  lemma {:induction false} NodesAppend(t: seq<byte>, lim: nat, x: seq<NodeAt>, k: seq<Tree>, y: NodeAt, l: Tree)
    requires AreNodes(t, lim, x, k) && IsNode(t, lim, y, l)
    ensures AreNodes(t, lim, x + [y], k + [l])
    decreases |x|
  {
    if x == [] {
      assert ([] + [y])[1..] == [] && ([] + [l])[1..] == [];
      assert x + [y] == [y] && k + [l] == [l];
      assert [y][1..] == [] && [l][1..] == [];
    } else {
      assert (x + [y])[1..] == x[1..] + [y] && (k + [l])[1..] == k[1..] + [l];
      NodesAppend(t, lim, x[1..], k[1..], y, l);
    }
  }

  // ----- operations on the open elements ------------------------------------------------------------------

  function PushAt(x: seq<OpenAt>, name: nat): seq<OpenAt> {
    x + [OpenAt(name, [], None, [])]
  }

  function WithTopAt(x: seq<OpenAt>, f: OpenAt): seq<OpenAt>
    requires x != []
  {
    x[..|x| - 1] + [f]
  }

  function AddKidAt(x: seq<OpenAt>, k: NodeAt): seq<OpenAt>
    requires x != []
  {
    var top := x[|x| - 1];
    WithTopAt(x, top.(kids := top.kids + [k]))
  }

  function PopAt(x: seq<OpenAt>): seq<OpenAt>
    requires |x| > 1
  {
    var f := x[|x| - 1];
    AddKidAt(x[..|x| - 1], ElemAt(f.name, f.atts, f.value, f.kids))
  }

  lemma TopReplaced(t: seq<byte>, lim: nat, x: seq<OpenAt>, st: seq<Frame>, y: OpenAt, f: Frame)
    requires AreOpen(t, lim, x, st) && AreNodes(t, lim, y.kids, f.kids) && (|x| > 1 ==> IsOpen(t, lim, y, f))
    requires Ordered(WithTopAt(x, y), lim)
    ensures AreOpen(t, lim, WithTopAt(x, y), WithTop(st, f))
  {
    var x', st' := WithTopAt(x, y), WithTop(st, f);
    forall i | 0 < i < |x'| ensures IsOpen(t, lim, x'[i], st'[i]) {
      if i < |x| - 1 { assert IsOpen(t, lim, x[i], st[i]); }
    }
  }

  lemma KidAdded(t: seq<byte>, lim: nat, x: seq<OpenAt>, st: seq<Frame>, k: NodeAt, l: Tree)
    requires AreOpen(t, lim, x, st) && IsNode(t, lim, k, l) && Ordered(AddKidAt(x, k), lim)
    ensures AreOpen(t, lim, AddKidAt(x, k), AddKid(st, l))
  {
    var top, f := x[|x| - 1], Top(st);
    if |x| > 1 { assert IsOpen(t, lim, x[|x| - 1], st[|x| - 1]); }
    NodesAppend(t, lim, top.kids, f.kids, k, l);
    TopReplaced(t, lim, x, st, top.(kids := top.kids + [k]), f.(kids := f.kids + [l]));
  }

  lemma Popped(t: seq<byte>, lim: nat, x: seq<OpenAt>, st: seq<Frame>)
    requires AreOpen(t, lim, x, st) && |x| > 1
    ensures AreOpen(t, lim, PopAt(x), Pop(st))
  {
    var n := |x| - 1;
    assert IsOpen(t, lim, x[n], st[n]);
    var x0, st0 := x[..n], st[..n];
    forall i | 0 < i < |x0| ensures IsOpen(t, lim, x0[i], st0[i]) { assert IsOpen(t, lim, x[i], st[i]); }
    KeysOfPop(x);
    OrderedSame(x, PopAt(x), lim);
    OrderedFront(x, lim);
    KidAdded(t, lim, x0, st0, ElemAt(x[n].name, x[n].atts, x[n].value, x[n].kids),
      Elem(st[n].name, st[n].atts, st[n].value, st[n].kids));
  }

  lemma OrderedFront(x: seq<OpenAt>, lim: nat)
    requires Ordered(x, lim) && x != []
    ensures Ordered(x[..|x| - 1], lim)
  {
    assert OrderedForm(x, lim, 0);
    var q := KeysOpen(x[..|x| - 1]);
    assert forall i :: 0 <= i < |q| ==> q[i] == KeysOpen(x)[i];
  }

  lemma Pushed(t: seq<byte>, lim: nat, x: seq<OpenAt>, st: seq<Frame>, name: nat, s: seq<byte>)
    requires AreOpen(t, lim, x, st) && StringAt(t, lim, name, s) && NUL !in s && Ordered(x, name)
    ensures AreOpen(t, lim, PushAt(x, name), Push(st, s))
  {
    KeysOfPush(x, name);
    OrderedGrows(x, PushAt(x, name), name, lim);
    var x', st' := PushAt(x, name), Push(st, s);
    forall i | 0 < i < |x'| ensures IsOpen(t, lim, x'[i], st'[i]) {
      if i < |x| { assert IsOpen(t, lim, x[i], st[i]); }
    }
  }

  // ----- reading -------------------------------------------------------------------------------------------

  /** From `s` on, the buffer is as it was. */
  ghost predicate Unread(t: seq<byte>, o: seq<byte>, s: nat) {
    |t| == |o| && s < |o| && o[|o| - 1] == NUL && forall k :: s <= k < |o| ==> t[k] == o[k]
  }

  method SkipWs(a: array<byte>, i: nat, ghost o: seq<byte>) returns (e: nat)
    requires Unread(a[..], o, i)
    ensures e == SpacesEnd(o, i) && i <= e < |o|
  {
    e := SkipSpaces(a, i, |o| - 1);
    SameSpaces(a[..], o, i);
  }

  /** Scans and terminates a name. */
  method ReadName(a: array<byte>, s: nat, ghost o: seq<byte>) returns (e: nat, ch: byte)
    requires Unread(a[..], o, s) && IsStartSymbol(o[s])
    modifies a
    ensures e == NameEnd(o, s) && s < e < |o| && ch == o[e] && NUL !in o[s..e]
    ensures StringAt(a[..], e + 1, s, o[s..e]) && Agree(old(a[..]), a[..], s) &&
            (e + 1 < |o| ==> Unread(a[..], o, e + 1))
  {
    e := s;
    while IsSymbol(a[e])
      invariant s <= e < |o| && NameEnd(o, e) == NameEnd(o, s) && (e == s ==> IsSymbol(o[e]))
      invariant forall k :: s <= k < e ==> IsSymbol(o[k])
      decreases |o| - e
    {
      e := e + 1;
    }
    ch := a[e];
    a[e] := NUL;
    Terminated(old(a[..]), a[..], o, s, e);
  }

  lemma Terminated(t: seq<byte>, n: seq<byte>, o: seq<byte>, s: nat, e: nat)
    requires Unread(t, o, s) && s <= e < |o| && n == t[e := NUL]
    ensures StringAt(n, e + 1, s, o[s..e]) && Agree(t, n, s) && (e + 1 < |o| ==> Unread(n, o, e + 1))
  {
    assert n[s..e] == o[s..e];
  }

  method StrconvAttribute(a: array<byte>, s: nat, q: byte, spacing: Spacing, escape: bool, ghost z: nat)
    returns (r: Option<nat>)
    requires 0 < s <= z < a.Length && a[z] == NUL && a[s - 1] == q && (q == QUOT || q == APOS)
    modifies a
    ensures var p := AttrValue(spacing, escape, q, old(a[..]), s);
      && p.end <= z && r == (if old(a[..])[p.end] == NUL then None else Some(p.end + 1))
      && (r.Some? ==> Stored(old(a[..]), a[..], s, p.end, p.out))
  {
    match spacing
    case Simple => r := ParseSimple(a, s, q, escape, z);
    case Eol => r := ParseEol(a, s, q, escape, z);
    case Wconv => r := ParseWconv(a, s, q, escape, z);
    case Wnorm => r := ParseWnorm(a, s, q, escape, z);
  }

  /** Decoding depends on nothing before its start. */
  lemma {:induction false} SameRun(m: Mode, t: seq<byte>, o: seq<byte>, i: nat)
    requires i <= |t| == |o| && forall k :: i <= k < |o| ==> t[k] == o[k]
    ensures Run(m, t, i) == Run(m, o, i)
    decreases |t| - i
  {
    if i < |t| && !Ends(m, t[i]) {
      SameStep(m, t, o, i);
      SameRun(m, t, o, Step(m, o, i).end);
    }
  }

  lemma SameStep(m: Mode, t: seq<byte>, o: seq<byte>, i: nat)
    requires i < |t| == |o| && !Ends(m, t[i]) && forall k :: i <= k < |o| ==> t[k] == o[k]
    ensures Step(m, t, i) == Step(m, o, i)
  {
    SameSpaces(t, o, i + 1);
    if t[i] == AMP { SameReference(t, o, i); }
  }

  lemma SameKind(t: seq<byte>, o: seq<byte>, i: nat)
    requires i < |t| == |o| && t[i] == AMP && forall k :: i <= k < |o| ==> t[k] == o[k]
    ensures KindAt(t, i) == KindAt(o, i)
  {
    assert At(t, i + 1) == At(o, i + 1) && At(t, i + 2) == At(o, i + 2);
  }

  lemma SameNumeric(t: seq<byte>, o: seq<byte>, i: nat, j: nat, hex: bool)
    requires i <= j <= |t| == |o| && forall k :: i <= k < |o| ==> t[k] == o[k]
    ensures Numeric(t, i, j, hex) == Numeric(o, i, j, hex)
  {
    SameDigits(t, o, j, hex);
    var e := DigitsEnd(t, j, hex);
    SameNumber(t, o, j, e, hex, 0);
    assert t[i..e] == o[i..e] && At(t, e) == At(o, e);
  }

  lemma SameNamed(t: seq<byte>, o: seq<byte>, i: nat, j: nat, w: seq<byte>, c: byte)
    requires i <= j <= |t| == |o| && (forall k :: 0 <= k < |w| ==> w[k] != NUL) && forall k :: i <= k < |o| ==>
             t[k] == o[k]
    ensures Named(t, i, j, w, c) == Named(o, i, j, w, c)
  {
    SameStop(t, o, j, w);
    var e := Stop(t, j, w);
    assert t[i..e] == o[i..e];
  }

  lemma SameReference(t: seq<byte>, o: seq<byte>, i: nat)
    requires i < |t| == |o| && t[i] == AMP && forall k :: i <= k < |o| ==> t[k] == o[k]
    ensures Reference(t, i) == Reference(o, i)
  {
    KindStaysBefore(t, i, |t|);
    SameKind(t, o, i);
    match KindAt(t, i)
    case Code(j, hex) => SameNumeric(t, o, i, j, hex);
    case Entity(j, w, c) => SameNamed(t, o, i, j, w, c);
    case Neither(e) => assert t[i..e] == o[i..e];
  }

  lemma {:induction false} SameDigits(t: seq<byte>, o: seq<byte>, i: nat, hex: bool)
    requires |t| == |o| && forall k :: i <= k < |o| ==> t[k] == o[k]
    ensures DigitsEnd(t, i, hex) == DigitsEnd(o, i, hex)
    decreases |t| - i
  {
    if i < |t| && IsDigitOf(t[i], hex) { SameDigits(t, o, i + 1, hex); }
  }

  lemma {:induction false} SameNumber(t: seq<byte>, o: seq<byte>, i: nat, e: nat, hex: bool, acc: nat)
    requires |t| == |o| && i <= e <= |t| && acc < WORD && forall k :: i <= k < |o| ==> t[k] == o[k]
    ensures Number(t, i, e, hex, acc) == Number(o, i, e, hex, acc)
    decreases e - i
  {
    if i < e { SameNumber(t, o, i + 1, e, hex, ((if hex then 16 else 10) * acc + DigitValue(t[i])) % WORD); }
  }

  lemma {:induction false} SameStop(t: seq<byte>, o: seq<byte>, i: nat, w: seq<byte>)
    requires |t| == |o| && (forall k :: 0 <= k < |w| ==> w[k] != NUL) && forall k :: i <= k < |o| ==> t[k] == o[k]
    ensures Stop(t, i, w) == Stop(o, i, w)
    decreases |w|
  {
    if w != [] && At(t, i) == w[0] { SameStop(t, o, i + 1, w[1..]); }
  }

  lemma SameAttrValue(spacing: Spacing, escape: bool, q: byte, t: seq<byte>, o: seq<byte>, i: nat)
    requires i <= |t| == |o| && forall k :: i <= k < |o| ==> t[k] == o[k]
    ensures AttrValue(spacing, escape, q, t, i) == AttrValue(spacing, escape, q, o, i)
  {
    SameSpaces(t, o, i);
    SameRun(AttrText(spacing, escape, q), t, o, if spacing.Wnorm? then SpacesEnd(t, i) else i);
  }

  lemma StoredIsString(t: seq<byte>, n: seq<byte>, o: seq<byte>, begin: nat, end: nat, out: seq<byte>)
    requires Stored(t, n, begin, end, out) && Unread(t, o, begin)
    ensures StringAt(n, end + 1, begin, out) && Agree(t, n, begin) && (end + 1 < |o| ==> Unread(n, o, end + 1))
  {
    forall k | end + 1 <= k < |o| ensures n[k] == o[k] {
      assert n[end + 1..][k - (end + 1)] == t[end + 1..][k - (end + 1)];
    }
  }

  datatype AttResult = GotAt(att: AttAt, next: nat) | BadAt(offset: nat)

  /** One attribute: its name and value are terminated strings afterwards. */
  ghost predicate AttDone(t: seq<byte>, n: seq<byte>, o: seq<byte>, s: nat, spec: AttScan, r: AttResult) {
    match spec
    case BadAtt(offset) => r == BadAt(offset)
    case GotAtt(a, next) =>
      r.GotAt? && r.next == next && r.att.name == s < r.att.value && IsAtt(n, next, r.att, a) && Agree(t, n, s) &&
        Unread(n, o, next)
  }

  /** The name, terminated, and the place of the opening quotation mark. */
  method UpToQuote(a: array<byte>, s: nat, ghost o: seq<byte>) returns (r: EqScan)
    requires Unread(a[..], o, s) && IsStartSymbol(o[s])
    modifies a
    ensures r == ScanEq(o, s)
    ensures r.QuoteAt? ==>
            StringAt(a[..], r.end + 1, s, o[s..r.end]) && Agree(old(a[..]), a[..], s) && Unread(a[..], o, r.quote)
  {
    var e, ch := ReadName(a, s, o);
    r := EqBody(a, e, ch, o);
  }

  /** From the end of the name, where `ch` stood, to the opening quotation mark. */
  method EqBody(a: array<byte>, e: nat, ch0: byte, ghost o: seq<byte>) returns (r: EqScan)
    requires e < |o| == a.Length && ch0 == o[e] && o[|o| - 1] == NUL && (e + 1 < |o| ==> Unread(a[..], o, e + 1))
    ensures r == EqFrom(o, e) && (r.QuoteAt? ==> Unread(a[..], o, r.quote))
  {
    var b, ch := e, ch0;
    if IsSpace(ch) {
      b := SkipWs(a, e + 1, o);
      ch := a[b];
    }
    if ch != EQUALS { return NoQuote(b + 1); }
    var q := SkipWs(a, b + 1, o);
    if a[q] != QUOT && a[q] != APOS { return NoQuote(q); }
    return QuoteAt(e, q);
  }

  /** The value behind the quotation mark at `q`. */
  method ValueAt(a: array<byte>, q: nat, opt: Options, ghost o: seq<byte>) returns (v: Option<nat>)
    requires Unread(a[..], o, q) && q + 1 < |o| && (o[q] == QUOT || o[q] == APOS)
    modifies a
    ensures var p := AttrValue(opt.spacing, opt.escapes, o[q], o, q + 1);
      && p.end < |o| && v == (if o[p.end] == NUL then None else Some(p.end + 1))
      && (v.Some? ==> StringAt(a[..], p.end + 1, q + 1, p.out) && Agree(old(a[..]), a[..], q + 1) && Unread(a[..], o,
         p.end + 1))
  {
    ghost var p := AttrValue(opt.spacing, opt.escapes, o[q], o, q + 1);
    ghost var t := a[..];
    AttrEnds(o, q, opt);
    SameAttrValue(opt.spacing, opt.escapes, o[q], t, o, q + 1);
    assert t[p.end] == o[p.end];
    v := StrconvAttribute(a, q + 1, a[q], opt.spacing, opt.escapes, |o| - 1);
    if v.Some? { StoredIsString(t, a[..], o, q + 1, p.end, p.out); }
  }

  lemma BothRead(t: seq<byte>, n: seq<byte>, n': seq<byte>, s: nat, e: nat, q: nat, next: nat, name: seq<byte>,
                 value: seq<byte>)
    requires s <= e <= q && q + 1 < next && Agree(t, n, s) && StringAt(n, e + 1, s, name) && Agree(n, n', q + 1) &&
             StringAt(n', next, q + 1, value)
    ensures IsAtt(n', next, AttAt(s, q + 1), Att(name, value)) && Agree(t, n', s)
  {
    assert Agree(n, n', e + 1) by { assert n'[..e + 1] == n'[..q + 1][..e + 1] == n[..q + 1][..e + 1] == n[..e + 1]; }
    StringKept(n, n', e + 1, next, s, name);
    assert n'[..s] == n'[..q + 1][..s] == n[..q + 1][..s] == n[..s];
  }

  method FinishAttribute(a: array<byte>, s: nat, e: nat, q: nat, opt: Options, ghost o: seq<byte>)
    returns (r: AttResult)
    requires s < e < q && Unread(a[..], o, q) && q + 1 < |o| && (o[q] == QUOT || o[q] == APOS) &&
             StringAt(a[..], e + 1, s, o[s..e])
    modifies a
    ensures AttDone(old(a[..]), a[..], o, s, ScanValue(o, s, e, q, opt), r)
  {
    ghost var n := a[..];
    ghost var p := AttrValue(opt.spacing, opt.escapes, o[q], o, q + 1);
    var v := ValueAt(a, q, opt, o);
    if v == None { return BadAt(q + 1); }
    var next := v.value;
    if IsStartSymbol(a[next]) { return BadAt(next); }
    BothRead(n, n, a[..], s, e, q, next, o[s..e], p.out);
    return GotAt(AttAt(s, q + 1), next);
  }

  lemma AttDoneEarlier(t: seq<byte>, n: seq<byte>, n': seq<byte>, o: seq<byte>, s: nat, spec: AttScan, r: AttResult)
    requires AttDone(n, n', o, s, spec, r) && Agree(t, n, s)
    ensures AttDone(t, n', o, s, spec, r)
  {
  }

  method OneAttribute(a: array<byte>, s: nat, opt: Options, ghost o: seq<byte>) returns (r: AttResult)
    requires Unread(a[..], o, s) && IsStartSymbol(o[s])
    modifies a
    ensures AttDone(old(a[..]), a[..], o, s, ScanAtt(o, s, opt), r)
  {
    var head := UpToQuote(a, s, o);
    match head
    case NoQuote(offset) =>
      return BadAt(offset);
    case QuoteAt(e, q) =>
      ghost var n := a[..];
      r := FinishAttribute(a, s, e, q, opt, o);
      AttDoneEarlier(old(a[..]), n, a[..], o, s, ScanValue(o, s, e, q, opt), r);
  }

  // ----- start tags ----------------------------------------------------------------------------------------

  /** On with the main loop, or out of it: at the end of the input, or for an error. */
  datatype Go = On(next: nat) | Ended(offset: nat) | Fail(status: Status, offset: nat) | Away(offset: nat)

  /** The open elements `x` are those of `st`, stored before `s`, and the rest is unread. */
  ghost predicate Live(t: seq<byte>, o: seq<byte>, s: nat, x: seq<OpenAt>, st: seq<Frame>) {
    Unread(t, o, s) && AreOpen(t, s, x, st)
  }

  lemma StillLive(t: seq<byte>, n: seq<byte>, o: seq<byte>, s: nat, s': nat, x: seq<OpenAt>, st: seq<Frame>)
    requires Live(t, o, s, x, st) && Agree(t, n, s) && s <= s' && Unread(n, o, s')
    ensures Live(n, o, s', x, st)
  {
    OpenKept(t, n, s, s', x, st);
  }

  lemma {:induction false} AttAdded(t: seq<byte>, lim: nat, x: seq<OpenAt>, st: seq<Frame>, y: AttAt, a: Att)
    requires AreOpen(t, lim, x, st) && |x| > 1 && IsAtt(t, lim, y, a) && x[|x| - 1].kids == [] && Ordered(x, y.name)
    requires x[|x| - 1].value == None && y.name < y.value
    ensures AreOpen(t, lim, WithTopAt(x, x[|x| - 1].(atts := x[|x| - 1].atts + [y])), AddAtt(st, a))
  {
    var top, f := x[|x| - 1], Top(st);
    assert IsOpen(t, lim, x[|x| - 1], st[|x| - 1]);
    assert AreAtts(t, lim, top.atts + [y], f.atts + [a]);
    KeysOfAtt(x, y);
    OrderedGrowsTwice(x, WithTopAt(x, top.(atts := top.atts + [y])), y.name, y.value, lim);
    TopReplaced(t, lim, x, st, top.(atts := top.atts + [y]), f.(atts := f.atts + [a]));
  }

  /** A part of the parse that should come to `spec` has either come to the main loop with `x` open, or failed. */
  ghost predicate Continues(spec: Outcome, t: seq<byte>, o: seq<byte>, go: Go, x: seq<OpenAt>, st: seq<Frame>,
                            opt: Options, endch: byte) {
    match go
    case On(n) => Live(t, o, n, x, st) && spec == Content(o, n, st, opt, endch)
    case Ended(offset) => AreOpen(t, |t|, x, st) && spec == XmlParse.Finish(st, offset)
    case Fail(status, offset) => spec == Failed(status, offset)
    case Away(offset) => spec == Elsewhere(offset)
  }

  lemma Later(t: seq<byte>, o: seq<byte>, s: nat, s': nat, x: seq<OpenAt>, st: seq<Frame>)
    requires Live(t, o, s, x, st) && s <= s' < |o|
    ensures Live(t, o, s', x, st)
  {
    StillLive(t, t, o, s, s', x, st);
  }

  method PopTop(x: seq<OpenAt>, ghost t: seq<byte>, ghost o: seq<byte>, ghost s: nat, s': nat, ghost st: seq<Frame>)
    returns (y: seq<OpenAt>)
    requires Live(t, o, s, x, st) && |x| > 1 && s <= s' < |o|
    ensures Live(t, o, s', y, Pop(st))
  {
    y := PopAt(x);
    Later(t, o, s, s', x, st);
    Popped(t, s', x, st);
  }

  method EndOfAttributes(a: array<byte>, b: nat, x0: seq<OpenAt>, opt: Options, endch: byte, ghost o: seq<byte>,
                         ghost st0: seq<Frame>)
    returns (go: Go, x: seq<OpenAt>, ghost st: seq<Frame>)
    requires Live(a[..], o, b, x0, st0) && |x0| > 1
    ensures Continues(EndOfStart(o, b, st0, opt, endch), a[..], o, go, x, st, opt, endch)
    ensures go.On? ==> b <= go.next
  {
    x, st := x0, st0;
    if a[b] == SLASH {
      if a[b + 1] == GT {
        x := PopTop(x, a[..], o, b, b + 2, st);
        return On(b + 2), x, Pop(st);
      } else if a[b + 1] == NUL && endch == GT {
        x := PopTop(x, a[..], o, b, b + 1, st);
        return On(b + 1), x, Pop(st);
      } else {
        return Fail(BadStartElement, b + 1), x, st;
      }
    } else if a[b] == GT {
      Later(a[..], o, b, b + 1, x, st);
      return On(b + 1), x, st;
    } else if a[b] == NUL && endch == GT {
      return On(b), x, st;
    } else {
      return Fail(BadStartElement, b), x, st;
    }
  }

  method AttributeLoop(a: array<byte>, s0: nat, x0: seq<OpenAt>, opt: Options, endch: byte, ghost o: seq<byte>,
                       ghost st0: seq<Frame>)
    returns (go: Go, x: seq<OpenAt>, ghost st: seq<Frame>)
    requires Live(a[..], o, s0, x0, st0) && |x0| > 1 && x0[|x0| - 1].kids == [] && x0[|x0| - 1].value == None
    modifies a
    ensures Continues(Attributes(o, s0, st0, opt, endch), a[..], o, go, x, st, opt, endch)
    ensures go.On? ==> s0 <= go.next
  {
    var s := s0;
    x, st := x0, st0;
    while true
      invariant Live(a[..], o, s, x, st) && |x| > 1 && s0 <= s && x[|x| - 1].kids == [] && x[|x| - 1].value == None
      invariant Attributes(o, s, st, opt, endch) == Attributes(o, s0, st0, opt, endch)
      decreases |o| - s
    {
      var b := SkipWs(a, s, o);
      Later(a[..], o, s, b, x, st);
      if !IsStartSymbol(a[b]) {
        go, x, st := EndOfAttributes(a, b, x, opt, endch, o, st);
        return;
      }
      ghost var t := a[..];
      var r := OneAttribute(a, b, opt, o);
      if r.BadAt? { return Fail(BadAttribute, r.offset), x, st; }
      ghost var y := ScanAtt(o, b, opt).att;
      x := GrowAtts(t, a[..], o, b, r.next, x, st, r.att, y);
      st := AddAtt(st, y);
      s := r.next;
    }
  }

  method GrowAtts(ghost t: seq<byte>, ghost n: seq<byte>, ghost o: seq<byte>, ghost s: nat, ghost next: nat,
                  x: seq<OpenAt>, ghost st: seq<Frame>,
                  y: AttAt, ghost a: Att) returns (x': seq<OpenAt>)
    requires Live(t, o, s, x, st) && |x| > 1 && s <= next && Agree(t, n, s) && Unread(n, o, next) &&
             IsAtt(n, next, y, a)
    requires x[|x| - 1].kids == [] && x[|x| - 1].value == None && y.name == s < y.value
    ensures Live(n, o, next, x', AddAtt(st, a)) && |x'| > 1 && x'[|x'| - 1].kids == [] && x'[|x'| - 1].value == None
  {
    StillLive(t, n, o, s, next, x, st);
    AttAdded(n, next, x, st, y, a);
    x' := WithTopAt(x, x[|x| - 1].(atts := x[|x| - 1].atts + [y]));
  }

  lemma NameStored(t: seq<byte>, n: seq<byte>, o: seq<byte>, s: nat, e: nat, x: seq<OpenAt>, st: seq<Frame>)
    requires Live(t, o, s, x, st) && Agree(t, n, s) && s < e < |n| == |o| && StringAt(n, e + 1, s, o[s..e]) &&
             NUL !in o[s..e]
    ensures AreOpen(n, e + 1, PushAt(x, s), Push(st, o[s..e]))
  {
    OpenKept(t, n, s, e + 1, x, st);
    Pushed(n, e + 1, x, st, s, o[s..e]);
  }

  /** A start tag, from its name on. */
  method OpenTag(a: array<byte>, s: nat, x0: seq<OpenAt>, opt: Options, endch: byte, ghost o: seq<byte>,
                 ghost st0: seq<Frame>)
    returns (go: Go, x: seq<OpenAt>, ghost st: seq<Frame>)
    requires Live(a[..], o, s, x0, st0) && IsStartSymbol(o[s])
    modifies a
    ensures Continues(StartTag(o, s, NameEnd(o, s), st0, opt, endch), a[..], o, go, x, st, opt, endch)
    ensures go.On? ==> s <= go.next
  {
    var e, ch := ReadName(a, s, o);
    NameStored(old(a[..]), a[..], o, s, e, x0, st0);
    go, x, st := NameBody(a, e, ch, PushAt(x0, s), opt, endch, o, Push(st0, o[s..e]));
  }

  /** A start tag whose name has been read and terminated at `e`, where `ch` stood. */
  method NameBody(a: array<byte>, e: nat, ch: byte, x0: seq<OpenAt>, opt: Options, endch: byte, ghost o: seq<byte>,
                  ghost st0: seq<Frame>)
    returns (go: Go, x: seq<OpenAt>, ghost st: seq<Frame>)
    requires e < |o| == a.Length && ch == o[e] && o[|o| - 1] == NUL && (e + 1 < |o| ==> Unread(a[..], o, e + 1))
    requires AreOpen(a[..], e + 1, x0, st0) && |x0| > 1 && x0[|x0| - 1].kids == [] && x0[|x0| - 1].value == None
    modifies a
    ensures Continues(AfterName(o, e, st0, opt, endch), a[..], o, go, x, st, opt, endch)
    ensures go.On? ==> e < go.next
  {
    x, st := x0, st0;
    if ch == GT {
      return On(e + 1), x, st;
    } else if IsSpace(ch) {
      go, x, st := AttributeLoop(a, e + 1, x, opt, endch, o, st);
    } else if ch == SLASH {
      if !EndsWith(a[e + 1], GT, endch) { return Fail(BadStartElement, e + 1), x, st; }
      var s := if a[e + 1] == GT then e + 2 else e + 1;
      x := PopTop(x, a[..], o, e + 1, s, st);
      return On(s), x, Pop(st);
    } else if ch == NUL {
      if endch != GT { return Fail(BadStartElement, e), x, st; }
      OpenKept(a[..], a[..], e + 1, |o|, x, st);
      return Ended(e), x, st;
    } else {
      return Fail(BadStartElement, e + 1), x, st;
    }
  }

  // ----- end tags ------------------------------------------------------------------------------------------

  /** Compares the name behind the slash at `i` with the stored one at `p`, as far as they agree. */
  method CompareName(a: array<byte>, i: nat, p: nat, ghost o: seq<byte>, ghost lim: nat, ghost name: seq<byte>)
    returns (same: bool, s: nat, n: nat)
    requires Unread(a[..], o, i) && StringAt(a[..], lim, p, name) && NUL !in name && lim <= i
    ensures if !same then !(o[i..NameEnd(o, i)] <= name)
            else s == NameEnd(o, i) < |o| && s - i <= |name| && n == p + (s - i) && o[i..s] == name[..s - i]
  {
    same, s, n := true, i, p;
    Letters(a[..], lim, p, name);
    while IsSymbol(a[s])
      invariant i <= s < |o| && n == p + (s - i) && s - i <= |name| && o[i..s] == name[..s - i]
      invariant NameEnd(o, s) == NameEnd(o, i)
      decreases |o| - s
    {
      if a[s] != a[n] {
        Differs(o, i, s, name);
        return false, s, n;
      }
      assert o[i..s + 1] == o[i..s] + [o[s]];
      s, n := s + 1, n + 1;
    }
  }

  /** Reads an end tag behind its slash at `i`, for the element whose name is stored at `p`. */
  method CloseTag(a: array<byte>, i: nat, p: nat, endch: byte, ghost o: seq<byte>, ghost lim: nat,
                  ghost name: seq<byte>) returns (r: Close)
    requires Unread(a[..], o, i) && StringAt(a[..], lim, p, name) && NUL !in name && lim <= i
    ensures r == ScanClose(o, i, name, endch)
  {
    var same, s, n := CompareName(a, i, p, o, lim, name);
    if !same { return NotClosed(EndElementMismatch, i); }
    Letters(a[..], lim, p, name);
    if a[n] != NUL {
      if a[s] == NUL && a[n] == endch && a[n + 1] == NUL {
        return NotClosed(BadEndElement, s);
      } else {
        return NotClosed(EndElementMismatch, i);
      }
    }
    var b := SkipWs(a, s, o);
    if a[b] == NUL {
      return if endch != GT then NotClosed(BadEndElement, b) else Closed(b);
    } else if a[b] != GT {
      return NotClosed(BadEndElement, b);
    } else {
      return Closed(b + 1);
    }
  }

  /** Reading the stored name byte by byte meets the terminator exactly at its end. */
  lemma Letters(t: seq<byte>, lim: nat, p: nat, name: seq<byte>)
    requires StringAt(t, lim, p, name) && NUL !in name
    ensures forall k :: 0 <= k < |name| ==> t[p + k] == name[k] && t[p + k] != NUL
    ensures t[p + |name|] == NUL
  {
    forall k | 0 <= k < |name| ensures t[p + k] == name[k] && t[p + k] != NUL {
      assert t[p..p + |name|][k] == name[k];
      assert name[k] in name;
    }
  }

  lemma Differs(o: seq<byte>, i: nat, s: nat, name: seq<byte>)
    requires i <= s < |o| && IsSymbol(o[s]) && NameEnd(o, s) == NameEnd(o, i) && s - i <= |name|
    requires s - i < |name| ==> o[s] != name[s - i]
    ensures s < NameEnd(o, i) && !(o[i..NameEnd(o, i)] <= name)
  {
    var e := NameEnd(o, i);
    assert o[i..e][s - i] == o[s];
  }

  // ----- the main loop -------------------------------------------------------------------------------------

  /** Behind a '<'. */
  method TagBody(a: array<byte>, s: nat, x0: seq<OpenAt>, opt: Options, endch: byte, ghost o: seq<byte>,
                 ghost st0: seq<Frame>)
    returns (go: Go, x: seq<OpenAt>, ghost st: seq<Frame>)
    requires Live(a[..], o, s, x0, st0)
    modifies a
    ensures Continues(Tag(o, s, st0, opt, endch), a[..], o, go, x, st, opt, endch)
    ensures go.On? ==> s <= go.next
  {
    x, st := x0, st0;
    if IsStartSymbol(a[s]) {
      go, x, st := OpenTag(a, s, x, opt, endch, o, st);
    } else if a[s] == SLASH {
      if |x| == 1 { return Fail(EndElementMismatch, s + 1), x, st; }
      assert IsOpen(a[..], s, x[|x| - 1], st[|x| - 1]);
      var r := CloseTag(a, s + 1, x[|x| - 1].name, endch, o, s, Top(st).name);
      if r.NotClosed? { return Fail(r.status, r.offset), x, st; }
      x := PopTop(x, a[..], o, s, r.next, st);
      return On(r.next), x, Pop(st);
    } else if a[s] == '?' as int || a[s] == '!' as int {
      return Away(s), x, st;
    } else if a[s] == NUL && endch == '?' as int {
      return Fail(BadPi, s), x, st;
    } else {
      return Fail(UnrecognizedTag, s), x, st;
    }
  }

  lemma SamePcdata(eol: bool, escape: bool, trim: bool, t: seq<byte>, o: seq<byte>, i: nat)
    requires i <= |t| == |o| && forall k :: i <= k < |o| ==> t[k] == o[k]
    ensures PcdataValue(eol, escape, trim, t, i) == PcdataValue(eol, escape, trim, o, i)
  {
    SameRun(CharData(eol, escape), t, o, i);
  }

  /** Character data at `p` goes to the innermost open element. */
  function AddTextAt(x: seq<OpenAt>, p: nat, opt: Options): (r: seq<OpenAt>)
    requires x != []
    ensures |r| == |x|
  {
    var top := x[|x| - 1];
    if opt.embed && |x| > 1 && top.kids == [] && top.value == None then WithTopAt(x, top.(value := Some(p)))
    else AddKidAt(x, CharsAt(p))
  }

  lemma TextAdded(t: seq<byte>, lim: nat, x: seq<OpenAt>, st: seq<Frame>, p: nat, text: seq<byte>, opt: Options)
    requires AreOpen(t, lim, x, st) && StringAt(t, lim, p, text) && Ordered(x, p)
    ensures AreOpen(t, lim, AddTextAt(x, p, opt), AddText(st, text, opt))
  {
    if |x| > 1 { ValueSet(t, lim, x, st, p, text); }
    KeysOfKid(x, CharsAt(p));
    OrderedGrows(x, AddKidAt(x, CharsAt(p)), p, lim);
    KidAdded(t, lim, x, st, CharsAt(p), Chars(text));
  }

  /** Decodes text at `k`; it is a terminated string afterwards. */
  method StoreText(a: array<byte>, k: nat, opt: Options, ghost o: seq<byte>, ghost x: seq<OpenAt>,
                   ghost st: seq<Frame>) returns (s: nat)
    requires Live(a[..], o, k, x, st)
    modifies a
    ensures var p := PcdataValue(opt.eol, opt.escapes, opt.trim, o, k);
      && p.end < |o| == a.Length && s == (if o[p.end] == LT then p.end + 1 else p.end) && s < |o|
      && StringAt(a[..], p.end + 1, k, p.out) && AreOpen(a[..], p.end + 1, x, st)
      && (o[p.end] == LT ==> Unread(a[..], o, s)) && (o[p.end] != LT ==> o[s] == NUL && a[s] == NUL)
  {
    ghost var p := PcdataValue(opt.eol, opt.escapes, opt.trim, o, k);
    s := DecodeText(a, k, opt, o);
    StoredIsString(old(a[..]), a[..], o, k, p.end, p.out);
    OpenKept(old(a[..]), a[..], k, p.end + 1, x, st);
  }

  method DecodeText(a: array<byte>, k: nat, opt: Options, ghost o: seq<byte>) returns (s: nat)
    requires Unread(a[..], o, k)
    modifies a
    ensures var p := PcdataValue(opt.eol, opt.escapes, opt.trim, o, k);
      && p.end < |o| == a.Length && s == (if o[p.end] == LT then p.end + 1 else p.end) && s < |o|
      && Stored(old(a[..]), a[..], k, p.end, p.out) && (o[p.end] != LT ==> o[s] == NUL && a[s] == NUL)
  {
    PcdataEnds(o, k, opt);
    SamePcdata(opt.eol, opt.escapes, opt.trim, a[..], o, k);
    s := ParsePcdata(a, k, opt.trim, opt.eol, opt.escapes, |o| - 1);
  }

  /** Decodes text at `k` and adds it to the innermost element. */
  method KeepText(a: array<byte>, k: nat, x0: seq<OpenAt>, opt: Options, ghost o: seq<byte>, ghost st0: seq<Frame>)
    returns (s: nat, x: seq<OpenAt>, ghost st: seq<Frame>)
    requires Live(a[..], o, k, x0, st0)
    modifies a
    ensures var p := PcdataValue(opt.eol, opt.escapes, opt.trim, o, k);
      && p.end < |o| && st == AddText(st0, p.out, opt) && |st| == |x| &&
         s == (if o[p.end] == LT then p.end + 1 else p.end) && s < |o|
      && a.Length == |o| && a[s] == o[s] && AreOpen(a[..], a.Length, x, st) &&
         (o[p.end] == LT ==> Live(a[..], o, s, x, st))
      && (o[p.end] != LT ==> o[s] == NUL)
  {
    ghost var p := PcdataValue(opt.eol, opt.escapes, opt.trim, o, k);
    s := StoreText(a, k, opt, o, x0, st0);
    TextAdded(a[..], p.end + 1, x0, st0, k, p.out, opt);
    var top := x0[|x0| - 1];
    if opt.embed && |x0| > 1 && top.kids == [] && top.value == None {
      x := WithTopAt(x0, top.(value := Some(k)));
    } else {
      x := AddKidAt(x0, CharsAt(k));
    }
    st := AddText(st0, p.out, opt);
    OpenKept(a[..], a[..], p.end + 1, |o|, x, st);
  }

  lemma ValueSet(t: seq<byte>, lim: nat, x: seq<OpenAt>, st: seq<Frame>, p: nat, text: seq<byte>)
    requires AreOpen(t, lim, x, st) && |x| > 1 && StringAt(t, lim, p, text) && Ordered(x, p)
    ensures x[|x| - 1].kids == [] && x[|x| - 1].value == None ==>
            AreOpen(t, lim, WithTopAt(x, x[|x| - 1].(value := Some(p))), WithTop(st, Top(st).(value := Some(text))))
    ensures x[|x| - 1].kids == [] <==> Top(st).kids == []
    ensures x[|x| - 1].value == None <==> Top(st).value == None
  {
    assert IsOpen(t, lim, x[|x| - 1], st[|x| - 1]);
    if x[|x| - 1].kids == [] && x[|x| - 1].value == None {
      KeysOfValue(x, p);
      OrderedGrows(x, WithTopAt(x, x[|x| - 1].(value := Some(p))), p, lim);
      TopReplaced(t, lim, x, st, x[|x| - 1].(value := Some(p)), Top(st).(value := Some(text)));
    }
  }

  method FindTag(a: array<byte>, k: nat, ghost o: seq<byte>) returns (s: nat)
    requires Unread(a[..], o, k)
    ensures s == Find(o, k) && k <= s < |o|
  {
    FindStays(o, k);
    s := k;
    while a[s] != NUL && a[s] != LT
      invariant k <= s < |o| && Find(o, s) == Find(o, k)
      decreases |o| - s
    {
      s := s + 1;
    }
  }

  method DropsSpaceAt(a: array<byte>, j: nat, x: seq<OpenAt>, opt: Options, ghost o: seq<byte>,
                      ghost st: seq<Frame>) returns (drops: bool)
    requires Live(a[..], o, j, x, st) && (o[j] == LT || o[j] == NUL)
    ensures drops == DropsSpace(o, j, st, opt)
  {
    if |x| > 1 { assert IsOpen(a[..], j, x[|x| - 1], st[|x| - 1]); }
    if !(opt.wsPcdata || opt.wsSingle) || opt.trim {
      return true;
    } else if opt.wsSingle {
      return a[j] != LT || a[j + 1] != SLASH || x[|x| - 1].kids != [];
    } else {
      return false;
    }
  }

  /** Text at `s`: kept, or else dropped or ignored; behind text that is kept a '<' has been read as well. */
  method TextBody(a: array<byte>, s: nat, x0: seq<OpenAt>, opt: Options, ghost o: seq<byte>, ghost st0: seq<Frame>)
    returns (kept: bool, next: nat, x: seq<OpenAt>, ghost st: seq<Frame>)
    requires Live(a[..], o, s, x0, st0) && o[s] != NUL && o[s] != LT
    modifies a
    ensures |o| == a.Length && s < next < |o| && a[next] == o[next] && |st| == |x| > 0
    ensures AreOpen(a[..], a.Length, x, st) && (!kept || o[next] != NUL ==> Live(a[..], o, next, x, st))
    ensures match ScanText(o, s, st0, opt)
      case Dropped(n) => !kept && next == n && st == st0
      case TextTo(text, n) => kept && next == n && st == AddText(st0, text, opt)
      case Ignored(n) => !kept && next == n && st == st0
  {
    var j := SkipWs(a, s, o);
    x, st := x0, st0;
    if j > s && (a[j] == LT || a[j] == NUL) {
      Later(a[..], o, s, j, x, st);
      var drops := DropsSpaceAt(a, j, x, opt, o, st);
      if drops {
        OpenKept(a[..], a[..], j, |o|, x, st);
        return false, j, x, st;
      }
    }
    kept, next, x, st := KeepOrIgnore(a, s, j, x, opt, o, st);
  }

  method KeepOrIgnore(a: array<byte>, s: nat, j: nat, x0: seq<OpenAt>, opt: Options, ghost o: seq<byte>,
                      ghost st0: seq<Frame>)
    returns (kept: bool, next: nat, x: seq<OpenAt>, ghost st: seq<Frame>)
    requires Live(a[..], o, s, x0, st0) && o[s] != NUL && o[s] != LT && j == SpacesEnd(o, s) && s <= j < |o|
    requires !(j > s && (o[j] == LT || o[j] == NUL) && DropsSpace(o, j, st0, opt))
    modifies a
    ensures |o| == a.Length && s < next < |o| && a[next] == o[next] && |st| == |x| > 0
    ensures AreOpen(a[..], a.Length, x, st) && (!kept || o[next] != NUL ==> Live(a[..], o, next, x, st))
    ensures match ScanText(o, s, st0, opt)
      case Dropped(n) => false
      case TextTo(text, n) => kept && next == n && st == AddText(st0, text, opt)
      case Ignored(n) => !kept && next == n && st == st0
  {
    x, st := x0, st0;
    var k := if opt.trim then j else s;
    Later(a[..], o, s, k, x, st);
    TextIsMore(o, s, j, opt);
    kept := |x| > 1 || opt.fragment;
    if kept {
      PcdataEnds(o, k, opt);
      next, x, st := KeepText(a, k, x, opt, o, st);
    } else {
      FindStays(o, k);
      next := FindTag(a, k, o);
      Later(a[..], o, k, next, x, st);
      OpenKept(a[..], a[..], next, |o|, x, st);
    }
  }

  /** The outcome of the whole, with the strings where they are in the buffer. */
  ghost predicate Denotes(t: seq<byte>, r: ResultAt, spec: Outcome) {
    match spec
    case Parsed(kids) => r.ParsedAt? && AreNodes(t, |t|, r.kids, kids) && Rising(KeysAll(r.kids), |t|)
    case Failed(status, offset) => r == FailedAt(status, offset)
    case Elsewhere(offset) => r == ElsewhereAt(offset)
  }

  lemma TopLevelOrdered(x: seq<OpenAt>, lim: nat)
    requires |x| == 1 && Ordered(x, lim)
    ensures Rising(KeysAll(x[0].kids), lim)
  {
    assert OrderedForm(x, lim, 0);
    assert x[..0] == [];
    assert KeysOpen(x) == KeysAll(x[0].kids);
  }

  method FinishAt(a: array<byte>, offset: nat, x: seq<OpenAt>, ghost st: seq<Frame>) returns (r: ResultAt)
    requires AreOpen(a[..], a.Length, x, st)
    ensures Denotes(a[..], r, XmlParse.Finish(st, offset))
  {
    if |x| > 1 {
      return FailedAt(EndElementMismatch, offset);
    } else {
      TopLevelOrdered(x, a.Length);
      return ParsedAt(x[0].kids);
    }
  }

  /** One round of the loop: a tag, or a text and, if it is kept, the tag behind it. */
  method Round(a: array<byte>, s: nat, x0: seq<OpenAt>, opt: Options, endch: byte, ghost o: seq<byte>,
               ghost st0: seq<Frame>)
    returns (go: Go, x: seq<OpenAt>, ghost st: seq<Frame>)
    requires Live(a[..], o, s, x0, st0) && o[s] != NUL
    modifies a
    ensures Continues(Content(o, s, st0, opt, endch), a[..], o, go, x, st, opt, endch)
    ensures go.On? ==> s < go.next
  {
    x, st := x0, st0;
    if a[s] == LT {
      Later(a[..], o, s, s + 1, x, st);
      go, x, st := TagBody(a, s + 1, x, opt, endch, o, st);
    } else {
      var kept, next;
      kept, next, x, st := TextBody(a, s, x, opt, o, st);
      if !kept {
        go := On(next);
      } else if a[next] == NUL {
        go := Ended(next);
      } else {
        go, x, st := TagBody(a, next, x, opt, endch, o, st);
      }
    }
  }

  method ParseTree(a: array<byte>, s0: nat, opt: Options, endch: byte) returns (r: ResultAt)
    requires s0 < a.Length && a[a.Length - 1] == NUL
    modifies a
    ensures Denotes(a[..], r, Content(old(a[..]), s0, [Frame([], [], None, [])], opt, endch))
  {
    ghost var o := a[..];
    var s, x := s0, [OpenAt(0, [], None, [])];
    ghost var st := [Frame([], [], None, [])];
    ghost var spec := Content(o, s, st, opt, endch);
    assert Ordered(x, s) by {
      assert x[..0] == [];
      assert KeysOpen(x) == [];
    }
    while a[s] != NUL
      invariant Live(a[..], o, s, x, st) && Content(o, s, st, opt, endch) == spec
      decreases |o| - s
    {
      var go;
      go, x, st := Round(a, s, x, opt, endch, o, st);
      match go
      case On(n) => s := n;
      case Ended(offset) => r := FinishAt(a, offset, x, st); return;
      case Fail(status, offset) => return FailedAt(status, offset);
      case Away(offset) => return ElsewhereAt(offset);
    }
    OpenKept(a[..], a[..], s, |o|, x, st);
    r := FinishAt(a, s, x, st);
  }

  datatype ParseAt = DocumentAt(kids: seq<NodeAt>) | ErrorAt(status: Status,
    offset: nat) | NoElementAt(offset: nat) | OtherAt(offset: nat)

  ghost predicate Gives(t: seq<byte>, r: ParseAt, spec: Result) {
    match spec
    case Document(kids) => r.DocumentAt? && AreNodes(t, |t|, r.kids, kids) && Rising(KeysAll(r.kids), |t|)
    case ParseError(status, offset) => r == ErrorAt(status, offset)
    case NoDocumentElement(offset) => r == NoElementAt(offset)
    case Other(offset) => r == OtherAt(offset)
  }

  /** The first sibling that is an element. */
  method HasElementAt(kids: seq<NodeAt>, ghost t: seq<byte>, ghost spec: seq<Tree>) returns (has: bool)
    requires AreNodes(t, |t|, kids, spec)
    ensures has == HasElement(spec)
  {
    var i := 0;
    while i < |kids|
      invariant i <= |kids| == |spec| && AreNodes(t, |t|, kids[i..], spec[i..]) && forall j :: 0 <= j < i ==>
                !spec[j].Elem?
    {
      assert IsNode(t, |t|, kids[i..][0], spec[i..][0]);
      if kids[i].ElemAt? { return true; }
      assert kids[i..][1..] == kids[i + 1..] && spec[i..][1..] == spec[i + 1..];
      i := i + 1;
    }
    return false;
  }

  /** Parses a buffer, replacing its last byte by a terminator first. */
  method ParseBuffer(a: array<byte>, opt: Options) returns (r: ParseAt)
    modifies a
    ensures Gives(a[..], r, Parse(old(a[..]), opt))
  {
    if a.Length == 0 {
      return if opt.fragment then DocumentAt([]) else NoElementAt(0);
    }
    var last := a.Length - 1;
    var endch := a[last];
    ghost var b := a[..];
    a[last] := NUL;
    assert a[..] == b[..last] + [NUL];
    var skip := 0;
    if a[0] == 0xEF {
      if a[1] == 0xBB && a[2] == 0xBF { skip := 3; }
    }
    var res := ParseTree(a, skip, opt, endch);
    match res
    case ParsedAt(kids) =>
      if endch == LT { return ErrorAt(UnrecognizedTag, last); }
      var has := HasElementAt(kids, a[..], Content(b[..last] + [NUL], skip, [Frame([], [], None, [])], opt,
        endch).kids);
      if !opt.fragment && !has { return NoElementAt(last); }
      return DocumentAt(kids);
    case FailedAt(status, offset) =>
      return ErrorAt(status, if offset > 0 && offset == last && endch == NUL then offset - 1 else offset);
    case ElsewhereAt(offset) =>
      return OtherAt(offset);
  }
}
