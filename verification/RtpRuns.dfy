// What every run of the media path keeps, whatever the interleaving of its steps.
module RtpRuns {
  import opened Basics
  import opened PsHeaders
  import opened PsMux
  import opened RtpProtocol

  /** A stream is read in one way only. */
  lemma {:induction false} FramedUnique(t: seq<byte>, j: nat, c: seq<seq<byte>>, d: seq<seq<byte>>)
    requires Framed(t, j, c) && Framed(t, j, d)
    ensures c == d
    decreases |t| - j
  {
    if |t| - j >= 4 {
      if StartCode(t, j, 0xE0) {
        FramedUnique(t, j + 6 + LengthAt(t, j), c[1..], d[1..]);
        assert c == [c[0]] + c[1..] && d == [d[0]] + d[1..];
      } else if StartCode(t, j, 0xBB) || StartCode(t, j, 0xBC) {
        FramedUnique(t, j + 6 + LengthAt(t, j), c, d);
      }
    }
  }

  // ----- what is on its way --------------------------------------------------------------------------------

  function FragmentsAll(streams: seq<seq<byte>>): seq<Rtp> {
    if streams == [] then [] else Fragments(streams[0]) + FragmentsAll(streams[1..])
  }

  lemma {:induction false} FragmentsAllAppend(a: seq<seq<byte>>, b: seq<byte>)
    ensures FragmentsAll(a + [b]) == FragmentsAll(a) + Fragments(b)
  {
    if a == [] {
      assert ([] + [b])[1..] == [];
      assert a + [b] == [b];
    } else {
      assert (a + [b])[1..] == a[1..] + [b];
      FragmentsAllAppend(a[1..], b);
    }
  }

  /** The packets still to arrive: those in the channel, and those still to be sent of the stream being sent. */
  function Wire(s: State): seq<Rtp> {
    s.chan + if s.sending.Some? then Fragments(s.sending.value) else []
  }

  /** The packets of the stream being received, and of the streams behind it, are still to arrive. */
  ghost predicate OnTheWay(s: State) {
    && |s.streams| == |s.sent| && s.arrived <= |s.sent|
    && if s.phase == Demuxing then
         s.arrived < |s.sent| && s.buffer == s.streams[s.arrived] && Wire(s) == FragmentsAll(s.streams[s.arrived + 1..])
       else if s.arrived == |s.sent| then Wire(s) == [] && s.buffer == []
       else exists rest :: Splits(s, rest)
  }

  ghost predicate Splits(s: State, rest: seq<byte>)
    requires s.arrived < |s.streams|
  {
    s.buffer + rest == s.streams[s.arrived] && Wire(s) == Fragments(rest) + FragmentsAll(s.streams[s.arrived + 1..])
  }

  // ----- what has been delivered ---------------------------------------------------------------------------

  ghost predicate Streams(s: State, advancing: bool) {
    |s.streams| == |s.sent| && forall i :: 0 <= i < |s.sent| ==>
      s.sent[i].data != [] && IsStream(s.streams[i], s.sent[i], advancing)
  }

  /** The frame the receiver is about to push. */
  function Pending(p: Phase): seq<seq<byte>> {
    match p
    case Offered(frame) => [frame]
    case Admitted(frame) => [frame]
    case _ => []
  }

  /** The frames taken from the queue, those in it, and the one about to be pushed. */
  function Held(s: State): seq<seq<byte>> {
    s.popped + s.queue + Pending(s.phase)
  }

  ghost predicate ItemOk(sent: seq<Frame>, arrived: nat, held: seq<seq<byte>>, ids: seq<nat>, advancing: bool, i: nat)
    requires i < |ids| == |held| && arrived <= |sent|
  {
    ids[i] < arrived && held[i] == Demuxed(sent[ids[i]], advancing)
  }

  predicate Increasing(ids: seq<nat>) {
    forall i, j :: 0 <= i < j < |ids| ==> ids[i] < ids[j]
  }

  /** The frames held are those of the frames `ids`, in order and none twice; unless one was lost, of all that have
      arrived. */
  ghost predicate InOrder(sent: seq<Frame>, arrived: nat, held: seq<seq<byte>>, lost: bool, ids: seq<nat>,
                          advancing: bool) {
    && |ids| == |held| && arrived <= |sent| && Increasing(ids)
    && (forall i: nat {:trigger ItemOk(sent, arrived, held, ids, advancing, i)} :: i < |ids| ==>
       ItemOk(sent, arrived, held, ids, advancing, i))
    && (!lost ==> forall k :: 0 <= k < arrived && Demuxed(sent[k], advancing) != [] ==> k in ids)
  }

  ghost predicate Delivered(s: State, advancing: bool) {
    exists ids :: InOrder(s.sent, s.arrived, Held(s), s.lost, ids, advancing)
  }

  ghost predicate Facts(s: State, advancing: bool) {
    OnTheWay(s) && Streams(s, advancing) && |s.queue| <= QUEUE_MAX && Delivered(s, advancing)
  }

  /** What every state of a run satisfies; kept folded where runs are followed. */
  ghost predicate Invariant(s: State, advancing: bool) {
    forall n: nat {:trigger InvariantForm(s, advancing, n)} :: n < 1 ==> InvariantForm(s, advancing, n)
  }

  ghost predicate InvariantForm(s: State, advancing: bool, n: nat) {
    Facts(s, advancing)
  }

  lemma StartInvariant(advancing: bool)
    ensures Facts(START, advancing)
  {
    assert InOrder(START.sent, 0, Held(START), false, [], advancing);
  }

  // ----- steps of the sender -------------------------------------------------------------------------------

  /** Another frame is going to be sent: nothing changes for those that have arrived. */
  lemma MoreSent(sent: seq<Frame>, f: Frame, arrived: nat, held: seq<seq<byte>>, lost: bool, ids: seq<nat>,
                 advancing: bool)
    requires InOrder(sent, arrived, held, lost, ids, advancing)
    ensures InOrder(sent + [f], arrived, held, lost, ids, advancing)
  {
    forall i: nat | i < |ids| ensures ItemOk(sent + [f], arrived, held, ids, advancing, i) {
      assert ItemOk(sent, arrived, held, ids, advancing, i);
    }
  }

  lemma {:induction false} BeginKeeps(s: State, f: Frame, stream: seq<byte>, advancing: bool)
    requires Facts(s, advancing) && Enabled(s, Begin(f, stream), advancing)
    ensures Facts(Step(s, Begin(f, stream)), advancing)
  {
    var t := Step(s, Begin(f, stream));
    var ids :| InOrder(s.sent, s.arrived, Held(s), s.lost, ids, advancing);
    MoreSent(s.sent, f, s.arrived, Held(s), s.lost, ids, advancing);
    assert Held(t) == Held(s);
    BeginOnTheWay(s, f, stream, t);
  }

  lemma BeginOnTheWay(s: State, f: Frame, stream: seq<byte>, t: State)
    requires OnTheWay(s) && s.sending.None?
    requires t == s.(sent := s.sent + [f], streams := s.streams + [stream], sending := Some(stream))
    ensures OnTheWay(t)
  {
    assert Wire(s) == s.chan && Wire(t) == s.chan + Fragments(stream);
    if s.arrived == |s.sent| {
      assert t.streams[t.arrived] == stream && t.streams[t.arrived + 1..] == [];
      assert [] + stream == stream && Fragments(stream) + [] == Fragments(stream);
      assert Splits(t, stream);
    } else {
      var later := s.streams[s.arrived + 1..];
      assert t.streams[s.arrived] == s.streams[s.arrived] && t.streams[s.arrived + 1..] == later + [stream];
      FragmentsAllAppend(later, stream);
      if s.phase != Demuxing {
        var rest :| Splits(s, rest);
        Assoc(Fragments(rest), FragmentsAll(later), Fragments(stream));
        assert Splits(t, rest);
      }
    }
  }

  /** Sending a packet moves it from the sender to the channel. */
  lemma SendKeepsWire(s: State)
    requires Enabled(s, SendFragment, true)
    ensures Wire(Step(s, SendFragment)) == Wire(s)
  {
    var rest := s.sending.value;
    if |rest| > RTP_PAYLOAD_MAX {
      Assoc(s.chan, [Rtp(rest[..RTP_PAYLOAD_MAX], false)], Fragments(rest[RTP_PAYLOAD_MAX..]));
    } else {
      Assoc(s.chan, [Rtp(rest, true)], []);
    }
  }

  /** A step after which the same packets are to arrive. */
  lemma SameOnTheWay(s: State, t: State)
    requires OnTheWay(s) && t.sent == s.sent && t.streams == s.streams && t.arrived == s.arrived && t.buffer == s.buffer
    requires Wire(t) == Wire(s) && (t.phase == Demuxing <==> s.phase == Demuxing)
    ensures OnTheWay(t)
  {
    if s.phase != Demuxing && s.arrived < |s.sent| {
      var rest :| Splits(s, rest);
      assert Splits(t, rest);
    }
  }

  // ----- steps of the receiver -----------------------------------------------------------------------------

  lemma ReceiveKeeps(s: State, advancing: bool)
    requires Facts(s, advancing) && Enabled(s, Receive, advancing)
    ensures Facts(Step(s, Receive), advancing)
  {
    var t := Step(s, Receive);
    ReceiveOnTheWay(s, t);
    assert Held(t) == Held(s);
  }

  lemma ReceiveOnTheWay(s: State, t: State)
    requires OnTheWay(s) && s.phase == Gathering && s.chan != []
    requires t == s.(chan := s.chan[1..], buffer := s.buffer + s.chan[0].payload,
             phase := if s.chan[0].marker then Demuxing else Gathering)
    ensures OnTheWay(t)
  {
    var p := s.chan[0];
    WireFront(s, t);
    assert s.arrived < |s.sent|;
    var rest :| Splits(s, rest);
    TakeFirst(s.buffer, rest, FragmentsAll(s.streams[s.arrived + 1..]), p, Wire(t));
    if !p.marker { assert Splits(t, rest[RTP_PAYLOAD_MAX..]); }
  }

  lemma WireFront(s: State, t: State)
    requires s.chan != [] && t.chan == s.chan[1..] && t.sending == s.sending
    ensures Wire(s) == [s.chan[0]] + Wire(t)
  {
    assert s.chan == [s.chan[0]] + t.chan;
    Assoc([s.chan[0]], t.chan, if s.sending.Some? then Fragments(s.sending.value) else []);
  }

  lemma FrontAndRest<T>(p: T, a: seq<T>, q: T, b: seq<T>)
    requires [p] + a == [q] + b
    ensures p == q && a == b
  {
    assert ([p] + a)[0] == p && ([q] + b)[0] == q;
    assert ([p] + a)[1..] == a && ([q] + b)[1..] == b;
  }

  /** The first packet on its way: part of the stream being received, or its end. */
  lemma TakeFirst(buffer: seq<byte>, rest: seq<byte>, later: seq<Rtp>, p: Rtp, wire: seq<Rtp>)
    requires Fragments(rest) + later == [p] + wire
    ensures p.marker ==> p.payload == rest && wire == later
    ensures !p.marker ==> |rest| > RTP_PAYLOAD_MAX && (buffer + p.payload) + rest[RTP_PAYLOAD_MAX..] == buffer + rest &&
                          wire == Fragments(rest[RTP_PAYLOAD_MAX..]) + later
  {
    if |rest| > RTP_PAYLOAD_MAX {
      var q, r := Rtp(rest[..RTP_PAYLOAD_MAX], false), Fragments(rest[RTP_PAYLOAD_MAX..]);
      Assoc([q], r, later);
      FrontAndRest(q, r + later, p, wire);
      Assoc(buffer, p.payload, rest[RTP_PAYLOAD_MAX..]);
      assert rest == rest[..RTP_PAYLOAD_MAX] + rest[RTP_PAYLOAD_MAX..];
    } else {
      FrontAndRest(Rtp(rest, true), later, p, wire);
    }
  }

  lemma DemuxKeeps(s: State, chunks: seq<seq<byte>>, advancing: bool)
    requires Facts(s, advancing) && Enabled(s, Demux(chunks), advancing)
    ensures Facts(Step(s, Demux(chunks)), advancing)
  {
    var t := Step(s, Demux(chunks));
    FrameFound(s, chunks, advancing);
    DemuxOnTheWay(s, t);
    DemuxDelivered(s, t, advancing);
  }

  lemma FrameFound(s: State, chunks: seq<seq<byte>>, advancing: bool)
    requires OnTheWay(s) && Streams(s, advancing) && s.phase == Demuxing && Framed(s.buffer, 14, chunks)
    ensures Gather([], chunks) == Demuxed(s.sent[s.arrived], advancing)
  {
    var f := s.sent[s.arrived];
    StreamFramed(s.buffer, f, advancing);
    FramedUnique(s.buffer, 14, chunks, Payloads(f, advancing));
  }

  lemma DemuxDelivered(s: State, t: State, advancing: bool)
    requires Delivered(s, advancing) && s.arrived < |s.sent| && s.phase == Demuxing
    requires t.sent == s.sent && t.arrived == s.arrived + 1 && t.popped == s.popped && t.queue == s.queue &&
             t.lost == s.lost
    requires var frame := Demuxed(s.sent[s.arrived], advancing);
             t.phase == if frame == [] then Gathering else Offered(frame)
    ensures Delivered(t, advancing)
  {
    var ids :| InOrder(s.sent, s.arrived, Held(s), s.lost, ids, advancing);
    OneMore(s.sent, s.arrived, Held(s), s.lost, ids, advancing);
    var frame := Demuxed(s.sent[s.arrived], advancing);
    if frame == [] {
      assert Held(t) == Held(s);
    } else {
      assert Held(t) == Held(s) + [frame];
    }
  }

  lemma DemuxOnTheWay(s: State, t: State)
    requires OnTheWay(s) && s.phase == Demuxing && t.phase != Demuxing && t.arrived == s.arrived + 1 && t.buffer == []
    requires t.sent == s.sent && t.streams == s.streams && t.chan == s.chan && t.sending == s.sending
    ensures OnTheWay(t)
  {
    var n := t.arrived;
    if n < |s.sent| {
      assert s.streams[n..][1..] == s.streams[n + 1..];
      assert [] + s.streams[n] == s.streams[n];
      assert Splits(t, s.streams[n]);
    } else {
      assert s.streams[n..] == [];
    }
  }

  /** One more frame has arrived; unless it is empty, it is held as the last one. */
  lemma OneMore(sent: seq<Frame>, n: nat, held: seq<seq<byte>>, lost: bool, ids: seq<nat>, advancing: bool)
    requires InOrder(sent, n, held, lost, ids, advancing) && n < |sent|
    ensures var frame := Demuxed(sent[n], advancing);
      if frame == [] then InOrder(sent, n + 1, held, lost, ids, advancing)
      else InOrder(sent, n + 1, held + [frame], lost, ids + [n], advancing)
  {
    var frame := Demuxed(sent[n], advancing);
    forall i: nat | i < |ids| ensures ItemOk(sent, n + 1, held, ids, advancing, i) && ids[i] < n {
      assert ItemOk(sent, n, held, ids, advancing, i);
    }
    if frame != [] {
      var ids', held' := ids + [n], held + [frame];
      forall i: nat {:trigger ids'[i]} | i < |ids'| ensures ItemOk(sent, n + 1, held', ids', advancing, i) {
        if i < |ids| { assert ItemOk(sent, n + 1, held, ids, advancing, i); }
      }
      assert ids'[|ids|] == n;
      assert forall k :: k in ids ==> k in ids';
    }
  }

  /** A frame is dropped: the last one, or all those in the queue. */
  lemma Dropped(sent: seq<Frame>, n: nat, held: seq<seq<byte>>, lost: bool, ids: seq<nat>, advancing: bool,
                from: nat, to: nat)
    requires InOrder(sent, n, held, lost, ids, advancing) && from <= to <= |held|
    ensures InOrder(sent, n, held[..from] + held[to..], true, ids[..from] + ids[to..], advancing)
  {
    var held', ids' := held[..from] + held[to..], ids[..from] + ids[to..];
    forall i: nat | i < |ids'| ensures ItemOk(sent, n, held', ids', advancing, i) {
      assert ItemOk(sent, n, held, ids, advancing, if i < from then i else i + (to - from));
    }
  }

  lemma CheckKeeps(s: State, advancing: bool)
    requires Facts(s, advancing) && Enabled(s, CheckAccess, advancing)
    ensures Facts(Step(s, CheckAccess), advancing)
  {
    var t := Step(s, CheckAccess);
    SameOnTheWay(s, t);
    if s.access {
      assert Held(t) == Held(s);
    } else {
      LastDropped(s, t, advancing);
    }
  }

  lemma LastDropped(s: State, t: State, advancing: bool)
    requires Delivered(s, advancing) && |Pending(s.phase)| == 1 && t == s.(phase := Gathering, lost := true)
    ensures Delivered(t, advancing)
  {
    var ids :| InOrder(s.sent, s.arrived, Held(s), s.lost, ids, advancing);
    var n := |s.popped + s.queue|;
    Dropped(s.sent, s.arrived, Held(s), s.lost, ids, advancing, n, n + 1);
    assert Held(s)[..n] + Held(s)[n + 1..] == Held(t);
  }

  lemma {:induction false} PushKeeps(s: State, advancing: bool)
    requires Facts(s, advancing) && Enabled(s, PushLocked, advancing)
    ensures Facts(Step(s, PushLocked), advancing)
  {
    var t := Step(s, PushLocked);
    SameOnTheWay(s, t);
    if |s.queue| < QUEUE_MAX {
      Assoc(s.popped, s.queue, [s.phase.frame]);
      assert Held(t) == s.popped + (s.queue + [s.phase.frame]) + [] == Held(s);
    } else {
      LastDropped(s, t, advancing);
    }
  }

  // ----- steps at the queue --------------------------------------------------------------------------------

  lemma {:induction false} PopKeeps(s: State, advancing: bool)
    requires Facts(s, advancing)
    ensures Enabled(s, Pop, advancing) && Facts(Step(s, Pop), advancing)
  {
    assert Enabled(s, Pop, advancing);
    var t := Step(s, Pop);
    SameOnTheWay(s, t);
    if s.queue != [] { MoveFront(s.popped, s.queue); }
    assert Held(t) == Held(s);
  }

  lemma MoveFront<T>(a: seq<T>, b: seq<T>)
    requires b != []
    ensures (a + [b[0]]) + b[1..] == a + b
  {
    assert b == [b[0]] + b[1..];
  }

  lemma {:induction false} ClearKeeps(s: State, advancing: bool)
    requires Facts(s, advancing)
    ensures Enabled(s, Clear, advancing) && Facts(Step(s, Clear), advancing)
  {
    assert Enabled(s, Clear, advancing);
    var t := Step(s, Clear);
    SameOnTheWay(s, t);
    if s.queue == [] {
      assert t == s;
    } else {
      MiddleDropped(s, t, advancing);
    }
  }

  lemma MiddleDropped(s: State, t: State, advancing: bool)
    requires Delivered(s, advancing) && t == s.(queue := [], lost := true)
    ensures Delivered(t, advancing)
  {
    var ids :| InOrder(s.sent, s.arrived, Held(s), s.lost, ids, advancing);
    var from, to := |s.popped|, |s.popped + s.queue|;
    Dropped(s.sent, s.arrived, Held(s), s.lost, ids, advancing, from, to);
    assert Held(s)[..from] == s.popped && Held(s)[to..] == Pending(s.phase);
    assert Held(t) == s.popped + Pending(s.phase);
  }

  lemma {:induction false} StepKeeps(s: State, a: Action, advancing: bool)
    requires Facts(s, advancing) && Enabled(s, a, advancing)
    ensures Facts(Step(s, a), advancing)
  {
    match a
    case Begin(f, stream) => BeginKeeps(s, f, stream, advancing);
    case SendFragment => SendKeepsWire(s); SameOnTheWay(s, Step(s, a)); assert Held(Step(s, a)) == Held(s);
    case Receive => ReceiveKeeps(s, advancing);
    case Demux(chunks) => DemuxKeeps(s, chunks, advancing);
    case CheckAccess => CheckKeeps(s, advancing);
    case PushLocked => PushKeeps(s, advancing);
    case Pop => PopKeeps(s, advancing);
    case SetAccess(status) => SameOnTheWay(s, Step(s, a)); assert Held(Step(s, a)) == Held(s);
    case Clear => ClearKeeps(s, advancing);
  }

  // ----- runs ----------------------------------------------------------------------------------------------

  ghost predicate StepOk(run: seq<State>, actions: seq<Action>, advancing: bool, i: nat)
    requires i < |actions| && |run| == |actions| + 1
  {
    Enabled(run[i], actions[i], advancing) && run[i + 1] == Step(run[i], actions[i])
  }

  ghost predicate IsRun(run: seq<State>, actions: seq<Action>, advancing: bool) {
    && |run| == |actions| + 1 && run[0] == START
    && forall i: nat {:trigger StepOk(run, actions, advancing, i)} :: i < |actions| ==>
       StepOk(run, actions, advancing, i)
  }

  lemma {:induction false} RunInvariant(run: seq<State>, actions: seq<Action>, advancing: bool, n: nat)
    requires IsRun(run, actions, advancing) && n < |run|
    ensures Invariant(run[n], advancing)
    decreases n
  {
    if n == 0 {
      StartInvariant(advancing);
      assert InvariantForm(START, advancing, 0);
    } else {
      RunInvariant(run, actions, advancing, n - 1);
      assert StepOk(run, actions, advancing, n - 1);
      StepKeepsInvariant(run[n - 1], actions[n - 1], advancing);
    }
  }

  lemma StepKeepsInvariant(s: State, a: Action, advancing: bool)
    requires Invariant(s, advancing) && Enabled(s, a, advancing)
    ensures Invariant(Step(s, a), advancing)
  {
    assert InvariantForm(s, advancing, 0);
    StepKeeps(s, a, advancing);
    assert InvariantForm(Step(s, a), advancing, 0);
  }

  // ----- the main results ----------------------------------------------------------------------------------

  /** Frames the muxer does not damage. */
  predicate Survives(f: Frame, advancing: bool) {
    |f.data| < FRAME_SIZE_MAX && (advancing || Periodic(f.data))
  }

  ghost predicate AllSurvive(sent: seq<Frame>, advancing: bool) {
    forall i :: 0 <= i < |sent| ==> Survives(sent[i], advancing)
  }

  lemma Undamaged(f: Frame, advancing: bool)
    requires Survives(f, advancing)
    ensures Demuxed(f, advancing) == f.data
  {
    AdvancingFaithful(f);
    WrittenFaithful(f);
  }

  /** Whatever the interleaving, what is taken from the queue are frames that were sent, byte for byte, in order
      and none twice. */
  lemma DeliveredInOrder(run: seq<State>, actions: seq<Action>, advancing: bool, n: nat) returns (ids: seq<nat>)
    requires IsRun(run, actions, advancing) && n < |run| && AllSurvive(run[n].sent, advancing)
    ensures |ids| == |run[n].popped| && Increasing(ids)
    ensures forall i :: 0 <= i < |ids| ==> ids[i] < |run[n].sent| && run[n].popped[i] == run[n].sent[ids[i]].data
  {
    var s := run[n];
    RunInvariant(run, actions, advancing, n);
    assert InvariantForm(s, advancing, 0);
    var all :| InOrder(s.sent, s.arrived, Held(s), s.lost, all, advancing);
    ids := all[..|s.popped|];
    forall i | 0 <= i < |ids| ensures ids[i] < |s.sent| && s.popped[i] == s.sent[ids[i]].data {
      assert ItemOk(s.sent, s.arrived, Held(s), all, advancing, i) && Held(s)[i] == s.popped[i];
      Undamaged(s.sent[ids[i]], advancing);
    }
  }

  /** Nothing was ever dropped: the queue was open and not full whenever a frame came, and never emptied. */
  predicate NeverFull(run: seq<State>, actions: seq<Action>) {
    && (forall i :: 0 <= i < |run| ==> run[i].access && |run[i].queue| < QUEUE_MAX)
    && forall i :: 0 <= i < |actions| ==> !actions[i].Clear?
  }

  lemma {:induction false} NothingLost(run: seq<State>, actions: seq<Action>, advancing: bool, n: nat)
    requires IsRun(run, actions, advancing) && NeverFull(run, actions) && n < |run|
    ensures !run[n].lost
    decreases n
  {
    if n > 0 {
      NothingLost(run, actions, advancing, n - 1);
      assert StepOk(run, actions, advancing, n - 1);
      assert run[n - 1].access && |run[n - 1].queue| < QUEUE_MAX && !actions[n - 1].Clear?;
    }
  }

  function Datas(frames: seq<Frame>): seq<seq<byte>> {
    seq(|frames|, i requires 0 <= i < |frames| => frames[i].data)
  }

  lemma {:induction false} IncreasingFrom(ids: seq<nat>, i: nat)
    requires i < |ids| && Increasing(ids)
    ensures ids[i] >= i
    decreases i
  {
    if i > 0 { IncreasingFrom(ids, i - 1); }
  }

  /** Increasing numbers below `n` that include all of them are just all of them. */
  lemma AllIds(ids: seq<nat>, n: nat)
    requires Increasing(ids) && (forall a :: 0 <= a < |ids| ==> ids[a] < n)
    requires forall k: nat :: k < n ==> k in ids
    ensures |ids| == n && forall a :: 0 <= a < n ==> ids[a] == a
  {
    forall a: nat | a < n ensures a < |ids| && ids[a] == a { IdAt(ids, n, a); }
    if n > 0 { IdAt(ids, n, n - 1); }
    if |ids| > n {
      IncreasingFrom(ids, n);
      assert false;
    }
  }

  lemma {:induction false} IdAt(ids: seq<nat>, n: nat, a: nat)
    requires Increasing(ids) && (forall a :: 0 <= a < |ids| ==> ids[a] < n)
    requires (forall k: nat :: k < n ==> k in ids) && a < n
    ensures a < |ids| && ids[a] == a
    decreases a
  {
    assert a in ids;
    var i: nat :| i < |ids| && ids[i] == a;
    IncreasingFrom(ids, i);
    if i < a { IdAt(ids, n, i); }
  }

  /** If nothing was dropped, all frames that have arrived were taken, are in the queue, or are about to be pushed; and
      when nothing is under way any more, these are all the frames that were sent. */
  lemma {:induction false} AllDelivered(run: seq<State>, actions: seq<Action>, advancing: bool, n: nat)
    requires IsRun(run, actions, advancing) && NeverFull(run, actions) && n < |run| &&
             AllSurvive(run[n].sent, advancing)
    ensures run[n].arrived <= |run[n].sent| && Held(run[n]) == Datas(run[n].sent[..run[n].arrived])
    ensures run[n].sending.None? && run[n].chan == [] && run[n].phase == Gathering ==>
            run[n].popped + run[n].queue == Datas(run[n].sent)
  {
    var s := run[n];
    RunInvariant(run, actions, advancing, n);
    assert InvariantForm(s, advancing, 0);
    NothingLost(run, actions, advancing, n);
    var ids :| InOrder(s.sent, s.arrived, Held(s), s.lost, ids, advancing);
    assert Streams(s, advancing);
    forall k: nat | k < s.arrived ensures k in ids { Undamaged(s.sent[k], advancing); }
    forall i: nat | i < |ids| ensures ids[i] < s.arrived {
      assert ItemOk(s.sent, s.arrived, Held(s), ids, advancing, i);
    }
    AllIds(ids, s.arrived);
    forall i: nat | i < s.arrived ensures Held(s)[i] == s.sent[i].data {
      assert ItemOk(s.sent, s.arrived, Held(s), ids, advancing, i);
      Undamaged(s.sent[i], advancing);
    }
    assert Held(s) == Datas(s.sent[..s.arrived]);
    if s.sending.None? && s.chan == [] && s.phase == Gathering { NothingUnderWay(s); }
  }

  lemma NothingUnderWay(s: State)
    requires OnTheWay(s) && s.sending.None? && s.chan == [] && s.phase == Gathering
    ensures s.arrived == |s.sent| && s.sent[..s.arrived] == s.sent && Held(s) == s.popped + s.queue
  {
    assert Wire(s) == [];
  }

  /** As long as something is under way, the sender or the receiver can take a step. */
  lemma NeverStuck(s: State, advancing: bool) returns (a: Action)
    requires Invariant(s, advancing) && !(s.sending.None? && s.chan == [] && s.phase == Gathering)
    ensures Enabled(s, a, advancing) && (a.SendFragment? || a.Receive? || a.Demux? || a.CheckAccess? || a.PushLocked?)
  {
    assert InvariantForm(s, advancing, 0);
    match s.phase
    case Demuxing =>
      StreamFramed(s.buffer, s.sent[s.arrived], advancing);
      a := Demux(Payloads(s.sent[s.arrived], advancing));
    case Offered(_) => a := CheckAccess;
    case Admitted(_) => a := PushLocked;
    case Gathering => a := if s.chan != [] then Receive else SendFragment;
  }
}
