// The threads of the media path: what each step of the protocol does to the connection, the receive buffer and the
// queue. Every method is tied to its step, or steps, by the state it shows before and after.
module RtpPath {
  import opened Basics
  import opened PsHeaders
  import opened PsMux
  import opened RtpProtocol

  // ----- sending -------------------------------------------------------------------------------------------

  /** The connection: packets on their way. */
  class Session {
    var chan: seq<Rtp>

    method SendPacket(payload: seq<byte>, marker: bool)
      modifies this
      ensures chan == old(chan) + [Rtp(payload, marker)]
    {
      chan := chan + [Rtp(payload, marker)];
    }
  }

  /** Any number of fragments sent, with nothing in between. */
  ghost function SendMany(s: State, k: nat): State
    requires s.sending.Some?
    decreases k
  {
    if k == 0 then s
    else
      assert Enabled(s, SendFragment, true);
      var t := Step(s, SendFragment);
      if t.sending.Some? then SendMany(t, k - 1) else t
  }

  lemma {:induction false} SendAll(s: State, k: nat)
    requires s.sending.Some? && k >= |Fragments(s.sending.value)|
    ensures SendMany(s, k) == s.(chan := s.chan + Fragments(s.sending.value), sending := None)
    decreases k
  {
    var rest := s.sending.value;
    assert Enabled(s, SendFragment, true);
    var t := Step(s, SendFragment);
    if |rest| > RTP_PAYLOAD_MAX {
      SendAll(t, k - 1);
      var r := Fragments(rest[RTP_PAYLOAD_MAX..]);
      assert t.chan + r == s.chan + ([Rtp(rest[..RTP_PAYLOAD_MAX], false)] + r);
    }
  }

  /** Sends a stream; its loop does one step of the protocol a round. */
  method SendData(sess: Session, data: seq<byte>, ghost s: State)
    requires |data| < 0x8000_0000
    requires sess.chan == s.chan && s.sending == Some(data)
    modifies sess
    ensures sess.chan == SendMany(s, |Fragments(data)|).chan == old(sess.chan) + Fragments(data)
  {
    var left := |data|;
    var offset := 0;
    ghost var now := s;
    assert data[0..] == data;
    while left > RTP_PAYLOAD_MAX
      invariant 0 <= offset && 0 <= left && offset + left == |data| && sess.chan == now.chan
      invariant now.sending == Some(data[offset..]) && now.chan + Fragments(data[offset..]) == s.chan + Fragments(data)
    {
      var payload := data[offset..offset + RTP_PAYLOAD_MAX];
      sess.SendPacket(payload, false);
      var rest := data[offset..];
      assert rest[..RTP_PAYLOAD_MAX] == payload && rest[RTP_PAYLOAD_MAX..] == data[offset + RTP_PAYLOAD_MAX..];
      assert Enabled(now, SendFragment, true);
      Assoc(now.chan, [Rtp(payload, false)], Fragments(data[offset + RTP_PAYLOAD_MAX..]));
      now := Step(now, SendFragment);
      offset := offset + RTP_PAYLOAD_MAX;
      left := left - RTP_PAYLOAD_MAX;
    }
    assert data[offset..offset + left] == data[offset..];
    sess.SendPacket(data[offset..offset + left], true);
    SendAll(s, |Fragments(data)|);
  }

  // ----- the queue -----------------------------------------------------------------------------------------

  /** The bounded queue: what does not fit is dropped at the tail. */
  class Queue {
    var packets: seq<seq<byte>>
    var mQueAccess: bool

    constructor ()
      ensures Shows(START)
    {
      packets, mQueAccess := [], true;
    }

    ghost predicate Shows(s: State)
      reads this
    {
      packets == s.queue && mQueAccess == s.access
    }

    method IsAccess() returns (status: bool)
      ensures status == mQueAccess
    {
      status := mQueAccess;
    }

    method SetAccess(status: bool, ghost s: State)
      requires Shows(s)
      modifies this`mQueAccess
      ensures Enabled(s, Action.SetAccess(status), true) && Shows(Step(s, Action.SetAccess(status)))
      ensures mQueAccess == status
    {
      mQueAccess := status;
    }

    /** An empty packet stands for an empty queue. */
    method Pop(ghost s: State) returns (packet: seq<byte>)
      requires Shows(s)
      modifies this`packets
      ensures Enabled(s, Action.Pop, true) && Shows(Step(s, Action.Pop))
      ensures old(packets) == (if old(packets) == [] then packets else [packet] + packets)
      ensures if s.queue == [] then packet == [] else Step(s, Action.Pop).popped == s.popped + [packet]
    {
      assert Enabled(s, Action.Pop, true);
      packet := [];
      if packets != [] {
        packet := packets[0];
        packets := packets[1..];
      }
    }

    /** What `Push` does under the mutex. */
    method PushLocked(packet: seq<byte>, ghost s: State)
      requires Shows(s) && s.phase == Admitted(packet)
      modifies this`packets
      ensures Enabled(s, Action.PushLocked, true) && Shows(Step(s, Action.PushLocked))
      ensures packets == if |old(packets)| < 128 then old(packets) + [packet] else old(packets)
    {
      assert Enabled(s, Action.PushLocked, true);
      if |packets| < QUEUE_MAX {
        packets := packets + [packet];
      }
    }

    /** `Push` as a whole, if nobody interferes. */
    method Push(packet: seq<byte>, ghost s: State)
      requires Shows(s) && s.phase == Offered(packet)
      modifies this`packets
      ensures Shows(Pushed(s))
      ensures packets == if mQueAccess && |old(packets)| < 128 then old(packets) + [packet] else old(packets)
    {
      var status := IsAccess();
      if !status { return; }
      assert Enabled(s, CheckAccess, true);
      PushLocked(packet, Step(s, CheckAccess));
    }

    method Clear(ghost s: State)
      requires Shows(s)
      modifies this`packets
      ensures Enabled(s, Action.Clear, true) && Shows(Step(s, Action.Clear))
      ensures packets == []
    {
      assert Enabled(s, Action.Clear, true);
      while packets != []
        invariant mQueAccess == s.access
        decreases |packets|
      {
        packets := packets[1..];
      }
    }
  }

  /** Asking whether the queue is open, and pushing if it is. */
  ghost function Pushed(s: State): (t: State)
    requires s.phase.Offered?
    ensures t.phase == Gathering
  {
    assert Enabled(s, CheckAccess, true);
    var t := Step(s, CheckAccess);
    assert t.phase.Admitted? ==> Enabled(t, PushLocked, true);
    if t.phase.Admitted? then Step(t, PushLocked) else t
  }

  // ----- receiving -----------------------------------------------------------------------------------------

  /** The receive loop's own state: the stream received so far. */
  class Receiver {
    var buffer: seq<byte>
    const queue: Queue

    constructor (queue: Queue)
      ensures buffer == [] && this.queue == queue
    {
      buffer, this.queue := [], queue;
    }

    /** One packet: it is appended; at a marker the stream is demultiplexed and the frame, unless empty, queued. */
    method Receive(pack: Rtp, ghost s: State, ghost chunks: seq<seq<byte>>)
      requires Enabled(s, Action.Receive, true) && pack == s.chan[0] && buffer == s.buffer && queue.Shows(s)
      requires pack.marker ==> Readable(s.buffer + pack.payload, chunks)
      modifies this`buffer, queue`packets
      ensures buffer == Received(s, chunks).buffer && queue.Shows(Received(s, chunks))
    {
      var data := buffer + pack.payload;
      if pack.marker {
        var frame := Demultiplex(data, chunks);
        ghost var t := Step(s, Action.Receive);
        assert Enabled(t, Demux(chunks), true);
        if |frame| > 0 {
          queue.Push(frame, Step(t, Demux(chunks)));
        }
        buffer := [];
      } else {
        buffer := data;
      }
    }
  }

  method Demultiplex(data: seq<byte>, ghost chunks: seq<seq<byte>>) returns (frame: seq<byte>)
    requires Readable(data, chunks)
    ensures frame == Gather([], chunks)
  {
    var a := new byte[|data|](i requires 0 <= i < |data| => data[i]);
    assert a[..] == data;
    var ok;
    ok, frame := ParsingPs(a, chunks);
  }

  /** A stream with a pack header without stuffing, in which the payloads `chunks` are found. */
  ghost predicate Readable(t: seq<byte>, chunks: seq<seq<byte>>) {
    |t| >= PS_HDR_LEN && t[3] == 0xBA && t[13] % 8 == 0 && Framed(t, PS_HDR_LEN, chunks)
  }

  /** What becomes of a packet, if nobody interferes. */
  ghost function Received(s: State, chunks: seq<seq<byte>>): State
    requires Enabled(s, Receive, true) && (s.chan[0].marker ==> Readable(s.buffer + s.chan[0].payload, chunks))
  {
    var t := Step(s, Receive);
    if t.phase == Demuxing then
      assert Enabled(t, Demux(chunks), true);
      var u := Step(t, Demux(chunks));
      if u.phase.Offered? then Pushed(u) else u
    else t
  }
}
