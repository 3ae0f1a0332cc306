// The media path as steps of its threads: the sender, which cuts a stream into packets; the receiver, which puts it
// together again, demultiplexes it and offers the frame to a bounded queue; and whoever takes frames from the queue,
// empties it or closes it. The connection is taken to be lossless and in order.
module RtpProtocol {
  import opened Basics
  import opened PsMux

  const RTP_PAYLOAD_MAX: nat := 1280
  const QUEUE_MAX: nat := 128

  datatype Rtp = Rtp(payload: seq<byte>, marker: bool)

  /** The packets of one stream: full ones, and a last one that carries the marker. */
  function Fragments(data: seq<byte>): (r: seq<Rtp>)
    ensures r != []
    decreases |data|
  {
    if |data| > RTP_PAYLOAD_MAX then [Rtp(data[..RTP_PAYLOAD_MAX], false)] + Fragments(data[RTP_PAYLOAD_MAX..])
    else [Rtp(data, true)]
  }

  lemma {:induction false} FragmentsAre(data: seq<byte>)
    ensures var r := Fragments(data);
      && (forall i :: 0 <= i < |r| ==> |r[i].payload| <= RTP_PAYLOAD_MAX && (r[i].marker <==> i == |r| - 1))
      && (forall i :: 0 <= i < |r| - 1 ==> |r[i].payload| == RTP_PAYLOAD_MAX)
      && (data != [] ==> r[|r| - 1].payload != [])
    decreases |data|
  {
    if |data| > RTP_PAYLOAD_MAX { FragmentsAre(data[RTP_PAYLOAD_MAX..]); }
  }

  /** What the receiver is doing: gathering packets; about to demultiplex; with a frame for which it has not asked
      whether the queue is open; with a frame and a positive answer, but without the mutex. */
  datatype Phase = Gathering | Demuxing | Offered(frame: seq<byte>) | Admitted(frame: seq<byte>)

  /** `sending` is what is left of the stream being sent. `sent`, `streams`, `arrived`, `popped` and `lost` are
      histories: the frames sent and their streams, how many have been demultiplexed, the frames taken from the queue,
      and whether one has been dropped. */
  datatype State = State(sent: seq<Frame>, streams: seq<seq<byte>>, sending: Option<seq<byte>>, chan: seq<Rtp>,
                         buffer: seq<byte>, phase: Phase, arrived: nat,
                         queue: seq<seq<byte>>, access: bool, popped: seq<seq<byte>>, lost: bool)

  datatype Action =
    | Begin(f: Frame, stream: seq<byte>)
    | SendFragment
    | Receive
    | Demux(chunks: seq<seq<byte>>)
    | CheckAccess
    | PushLocked
    | Pop
    | SetAccess(status: bool)
    | Clear

  const START := State([], [], None, [], [], Gathering, 0, [], true, [], false)

  ghost predicate Enabled(s: State, a: Action, advancing: bool) {
    match a
    case Begin(f, stream) => s.sending.None? && f.data != [] && IsStream(stream, f, advancing)
    case SendFragment => s.sending.Some?
    case Receive => s.phase == Gathering && s.chan != []
    case Demux(chunks) => s.phase == Demuxing && Framed(s.buffer, 14, chunks)
    case CheckAccess => s.phase.Offered?
    case PushLocked => s.phase.Admitted?
    case Pop => true
    case SetAccess(_) => true
    case Clear => true
  }

  ghost function Step(s: State, a: Action): State
    requires exists advancing :: Enabled(s, a, advancing)
  {
    match a
    case Begin(f, stream) => s.(sent := s.sent + [f], streams := s.streams + [stream], sending := Some(stream))
    case SendFragment =>
      var rest := s.sending.value;
      if |rest| > RTP_PAYLOAD_MAX
      then s.(chan := s.chan + [Rtp(rest[..RTP_PAYLOAD_MAX], false)], sending := Some(rest[RTP_PAYLOAD_MAX..]))
      else s.(chan := s.chan + [Rtp(rest, true)], sending := None)
    case Receive =>
      s.(chan := s.chan[1..], buffer := s.buffer + s.chan[0].payload, phase := if s.chan[0].marker then Demuxing
        else Gathering)
    case Demux(chunks) =>
      var frame := Gather([], chunks);
      s.(buffer := [], arrived := s.arrived + 1, phase := if frame == [] then Gathering else Offered(frame))
    case CheckAccess => if s.access then s.(phase := Admitted(s.phase.frame)) else s.(phase := Gathering, lost := true)
    case PushLocked =>
      if |s.queue| < QUEUE_MAX then s.(queue := s.queue + [s.phase.frame], phase := Gathering)
      else s.(phase := Gathering, lost := true)
    case Pop => if s.queue == [] then s else s.(queue := s.queue[1..], popped := s.popped + [s.queue[0]])
    case SetAccess(status) => s.(access := status)
    case Clear => s.(queue := [], lost := s.lost || s.queue != [])
  }
}
