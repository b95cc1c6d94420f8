/** The per-connection TCP engine of src/tcp.rs: the sequence spaces, the
    connection states, and `accept`, `write` and `on_packet`. The network
    device is a log of the segments emitted on it. */
module Tcp {
  import opened Common
  import opened SeqSpace

  /** The implemented subset of RFC 793 states (src/tcp.rs:5-13). */
  datatype State = SynRcvd | Estab | FinWait1 | FinWait2 | TimeWait

  /** The position of a state along the path a connection takes. */
  function Rank(s: State): nat
  {
    match s
    case SynRcvd => 0
    case Estab => 1
    case FinWait1 => 2
    case FinWait2 => 3
    case TimeWait => 4
  }

  /** Send sequence space (section 3.2 of RFC 793, figure 4). The urgent
      pointer and `wl1`/`wl2` are never read and are not modelled. */
  datatype SendSequenceSpace = SendSequenceSpace(una: uint32, nxt: uint32, wnd: uint16, iss: uint32)

  /** Receive sequence space (section 3.2 of RFC 793, figure 5). */
  datatype RecvSequenceSpace = RecvSequenceSpace(nxt: uint32, wnd: uint16, irs: uint32)

  /** A TCP segment as the engine sees it: header fields and payload. */
  datatype Segment = Segment(seqn: uint32, ackn: uint32, syn: bool, ack: bool, fin: bool, wnd: uint16, data: seq<uint8>)

  /** Size of the frame buffer `write` assembles into (src/tcp.rs:128). */
  const FrameLen: int := 1500
  /** An IPv4 header and a TCP header, both without options. */
  const HeaderLen: int := 40
  /** Payload bytes that fit in one frame after the headers. */
  const MaxPayload: int := FrameLen - HeaderLen
  /** Size of the receive buffer of the packet loop (src/lib.rs:79). */
  const RecvBufLen: int := 1504
  /** The initial send sequence number is always zero (src/tcp.rs:88). */
  const Iss: uint32 := 0
  /** The window this side advertises (src/tcp.rs:89). */
  const LocalWindow: uint16 := 1024

  /** A received segment fits the receive buffer it was read into. */
  predicate WellFormed(seg: Segment)
  {
    |seg.data| <= RecvBufLen
  }

  function Bit(b: bool): nat
  {
    if b then 1 else 0
  }

  /** SEG.LEN: payload bytes, plus one for FIN and one for SYN. */
  function SegLen(seg: Segment): uint32
    requires WellFormed(seg)
  {
    |seg.data| + Bit(seg.fin) + Bit(seg.syn)
  }

  /** The mutable part of a connection: its state, both sequence spaces, and
      the SYN, ACK and FIN flags of the header template it reuses for every
      segment it sends. */
  datatype Tcb = Tcb(state: State, send: SendSequenceSpace, recv: RecvSequenceSpace, syn: bool, ack: bool, fin: bool)

  /** A connection after `write`, with the segment it put on the device. */
  datatype Emission = Emission(tcb: Tcb, seg: Segment)

  /** `write`: stamp the template with SND.NXT and RCV.NXT, send as much of
      `payload` as fits in a frame, then advance SND.NXT past what was sent
      and clear the one-shot SYN and FIN flags. */
  function Emit(t: Tcb, payload: seq<uint8>): (e: Emission)
    ensures e.seg == Segment(t.send.nxt, t.recv.nxt, t.syn, t.ack, t.fin, LocalWindow, e.seg.data)
    ensures e.seg.data == payload[..Min(|payload|, MaxPayload)]
    ensures WrappingSub(e.tcb.send.nxt, t.send.nxt) == |e.seg.data| + Bit(t.syn) + Bit(t.fin)
    ensures e.tcb == t.(send := t.send.(nxt := e.tcb.send.nxt), syn := false, fin := false)
  {
    var n := Min(|payload|, MaxPayload);
    var nxt1 := WrappingAdd(t.send.nxt, n);
    var nxt2 := if t.syn then WrappingAdd(nxt1, 1) else nxt1;
    var nxt3 := if t.fin then WrappingAdd(nxt2, 1) else nxt2;
    AddThenSub(t.send.nxt, n + Bit(t.syn) + Bit(t.fin));
    Emission(t.(send := t.send.(nxt := nxt3), syn := false, fin := false),
             Segment(t.send.nxt, t.recv.nxt, t.syn, t.ack, t.fin, LocalWindow, payload[..n]))
  }

  /** The connection `accept` builds from a SYN, before it replies: state
      SynRcvd, ISS zero, RCV.NXT one past the peer's SYN, and the SYN and
      ACK flags raised for the reply. */
  function InitialTcb(syn: Segment): Tcb
  {
    Tcb(SynRcvd,
        SendSequenceSpace(Iss, Iss, LocalWindow, Iss),
        RecvSequenceSpace(WrappingAdd(syn.seqn, 1), syn.wnd, syn.seqn),
        true, true, false)
  }

  /** The connection `accept` returns and the SYN+ACK it sends: the reply
      acknowledges exactly the peer's SYN, and our own SYN is counted in
      SND.NXT. */
  function Opened(syn: Segment): (o: Emission)
    ensures o.tcb.state == SynRcvd && !o.tcb.syn && !o.tcb.fin
    ensures o.seg.syn && o.seg.ack && !o.seg.fin && o.seg.data == []
    ensures o.tcb.recv.irs == syn.seqn && o.tcb.recv.wnd == syn.wnd
    ensures o.seg.ackn == o.tcb.recv.nxt && WrappingSub(o.tcb.recv.nxt, o.tcb.recv.irs) == 1
    ensures o.tcb.send.una == o.seg.seqn && WrappingSub(o.tcb.send.nxt, o.seg.seqn) == 1
  {
    AddThenSub(syn.seqn, 1);
    Emit(InitialTcb(syn), [])
  }

  /** One call of `on_packet`: the connection afterwards, the segments it
      sent, and the panic it ended in, if any. */
  datatype Step = Step(tcb: Tcb, out: seq<Segment>, fault: Option<Fault>)

  /** `on_packet` (src/tcp.rs:171-266). */
  function OnPacketSpec(t: Tcb, seg: Segment): (r: Step)
    requires WellFormed(seg)
    ensures Rank(t.state) <= Rank(r.tcb.state)
    ensures |r.out| <= 2
    ensures r.tcb.recv.wnd == t.recv.wnd && r.tcb.recv.irs == t.recv.irs && r.tcb.send.iss == t.send.iss
    ensures !SegmentValid(t.recv.nxt, t.recv.wnd, seg.seqn, SegLen(seg)) ==> |r.out| == 1 && r.tcb.state == t.state
    ensures r.fault.Some? ==> seg.ack
  {
    var slen := SegLen(seg);
    if !SegmentValid(t.recv.nxt, t.recv.wnd, seg.seqn, slen) then
      var e := Emit(t, []);
      Step(e.tcb, [e.seg], None)
    else
      var t1 := t.(recv := t.recv.(nxt := WrappingAdd(seg.seqn, slen)));
      if !seg.ack then Step(t1, [], None)
      else AckSpec(t1, seg)
  }

  /** The ACK-processing part of `on_packet` (src/tcp.rs:205-241). Its state
      tests follow one another, so one ACK may move the connection through
      several states, forward only. */
  function AckSpec(t: Tcb, seg: Segment): (r: Step)
    ensures Rank(t.state) <= Rank(r.tcb.state)
    ensures |r.out| <= 2 && r.tcb.recv == t.recv
    ensures r.fault == Some(AssertFailed) ==> |seg.data| != 0
    ensures r.tcb.send.una != t.send.una ==> IsBetweenWrapped(t.send.una, seg.ackn, WrappingAdd(t.send.nxt, 1))
    ensures var t2 := HandshakeSpec(t, seg);
      (t2.state == Estab || t2.state == FinWait1) && IsBetweenWrapped(t2.send.una, seg.ackn, WrappingAdd(t2.send.nxt, 1)) ==>
        r.tcb.send.una == seg.ackn && (r.fault == Some(AssertFailed) <==> |seg.data| != 0)
  {
    SteadyAckSpec(HandshakeSpec(t, seg), seg)
  }

  /** The handshake test of `on_packet` (src/tcp.rs:206-218). */
  function HandshakeSpec(t: Tcb, seg: Segment): (t2: Tcb)
    ensures t2 == t || (t.state == SynRcvd && t2 == t.(state := Estab))
    ensures t.state == SynRcvd && seg.ackn == t.send.una && WrappingSub(t.send.nxt, t.send.una) < Modulus - 2 ==>
      t2.state == Estab
  {
    if t.state == SynRcvd
       && IsBetweenWrapped(WrappingSub(t.send.una, 1), seg.ackn, WrappingAdd(t.send.nxt, 1))
    then t.(state := Estab) else t
  }

  /** The ACK test of an established connection and what follows it
      (src/tcp.rs:220-265): only an ACK of new data moves SND.UNA, and the
      first one makes an Estab connection send its FIN. */
  function SteadyAckSpec(t: Tcb, seg: Segment): (r: Step)
    ensures Rank(t.state) <= Rank(r.tcb.state)
    ensures |r.out| <= 2 && r.tcb.recv == t.recv
    ensures r.fault == Some(AssertFailed) ==> |seg.data| != 0
    ensures r.tcb.send.una != t.send.una ==> IsBetweenWrapped(t.send.una, seg.ackn, WrappingAdd(t.send.nxt, 1))
    ensures (t.state == Estab || t.state == FinWait1) && IsBetweenWrapped(t.send.una, seg.ackn, WrappingAdd(t.send.nxt, 1)) ==>
      r.tcb.send.una == seg.ackn && (r.fault == Some(AssertFailed) <==> |seg.data| != 0)
  {
    if t.state == Estab || t.state == FinWait1 then
      if !IsBetweenWrapped(t.send.una, seg.ackn, WrappingAdd(t.send.nxt, 1)) then Step(t, [], None)
      else
        var t3 := t.(send := t.send.(una := seg.ackn));
        if |seg.data| != 0 then Step(t3, [], Some(AssertFailed))
        else if t3.state == Estab then
          var e := Emit(t3.(fin := true), []);
          CloseSpec(e.tcb.(state := FinWait1), seg, [e.seg])
        else CloseSpec(t3, seg, [])
    else CloseSpec(t, seg, [])
  }

  /** The end of `on_packet` (src/tcp.rs:243-263): FinWait1 moves on to
      FinWait2, and a FIN is answered only in FinWait2. */
  function CloseSpec(t: Tcb, seg: Segment, out: seq<Segment>): (r: Step)
    ensures r.tcb.state != FinWait1 && Rank(t.state) <= Rank(r.tcb.state)
    ensures |out| <= |r.out| <= |out| + 1 && r.out[..|out|] == out
    ensures r.fault.Some? <==> seg.fin && t.state != FinWait1 && t.state != FinWait2
    ensures !seg.fin ==> r.out == out
  {
    var t4 := if t.state == FinWait1 then t.(state := FinWait2) else t;
    if !seg.fin then Step(t4, out, None)
    else if t4.state == FinWait2 then
      var e := Emit(t4, []);
      Step(e.tcb.(state := TimeWait), out + [e.seg], None)
    else Step(t4, out, Some(Unimplemented))
  }

  /** The outcome `on_packet` returns for a step. */
  function StepOutcome(s: Step): Outcome<()>
  {
    if s.fault.Some? then Panic(s.fault.value) else Ok(())
  }

  /** The network device, reduced to the log of the segments sent on it. */
  class Nic {
    var sent: seq<Segment>

    constructor ()
      ensures sent == []
    {
      sent := [];
    }

    method Send(seg: Segment)
      modifies this
      ensures sent == old(sent) + [seg]
    {
      sent := sent + [seg];
    }
  }

  /** One TCP connection (src/tcp.rs:14-20), with the inbound and outbound
      byte queues that src/lib.rs uses. */
  class Connection {
    var state: State
    var send: SendSequenceSpace
    var recv: RecvSequenceSpace
    /** Flags of the header template. */
    var syn: bool
    var ack: bool
    var fin: bool
    /** Bytes received and not yet read by the application. */
    var incoming: seq<uint8>
    /** Bytes written by the application and not yet acknowledged. */
    var unacked: seq<uint8>

    ghost function ControlBlock(): Tcb
      reads this
    {
      Tcb(state, send, recv, syn, ack, fin)
    }

    constructor FromSyn(seg: Segment)
      ensures ControlBlock() == InitialTcb(seg).(syn := false, ack := false)
      ensures incoming == [] && unacked == []
    {
      state := SynRcvd;
      send := SendSequenceSpace(Iss, Iss, LocalWindow, Iss);
      recv := RecvSequenceSpace(WrappingAdd(seg.seqn, 1), seg.wnd, seg.seqn);
      syn, ack, fin := false, false, false;
      incoming, unacked := [], [];
    }

    /** `Connection::accept`: only a SYN opens a connection, and opening it
        sends exactly one segment, the SYN+ACK. */
    static method Accept(nic: Nic, seg: Segment) returns (c: Connection?)
      modifies nic
      ensures (c != null) == seg.syn
      ensures c == null ==> nic.sent == old(nic.sent)
      ensures c != null ==>
        && fresh(c)
        && c.ControlBlock() == Opened(seg).tcb
        && c.incoming == [] && c.unacked == []
        && nic.sent == old(nic.sent) + [Opened(seg).seg]
    {
      if !seg.syn {
        return null;
      }
      c := new Connection.FromSyn(seg);
      c.syn := true;
      c.ack := true;
      var _ := c.Write(nic, []);
    }

    /** `Connection::write`; returns the length of the frame sent. */
    method Write(nic: Nic, payload: seq<uint8>) returns (frameLen: nat)
      modifies this, nic
      ensures ControlBlock() == Emit(old(ControlBlock()), payload).tcb
      ensures nic.sent == old(nic.sent) + [Emit(old(ControlBlock()), payload).seg]
      ensures frameLen == HeaderLen + Min(|payload|, MaxPayload)
      ensures incoming == old(incoming) && unacked == old(unacked)
    {
      var payloadBytes := Min(|payload|, MaxPayload);
      var frame := Segment(send.nxt, recv.nxt, syn, ack, fin, LocalWindow, payload[..payloadBytes]);
      send := send.(nxt := WrappingAdd(send.nxt, payloadBytes));
      if syn {
        send := send.(nxt := WrappingAdd(send.nxt, 1));
        syn := false;
      }
      if fin {
        send := send.(nxt := WrappingAdd(send.nxt, 1));
        fin := false;
      }
      nic.Send(frame);
      frameLen := HeaderLen + payloadBytes;
    }

    /** `Connection::on_packet`. */
    method OnPacket(nic: Nic, seg: Segment) returns (r: Outcome<()>)
      requires WellFormed(seg)
      modifies this, nic
      ensures ControlBlock() == OnPacketSpec(old(ControlBlock()), seg).tcb
      ensures nic.sent == old(nic.sent) + OnPacketSpec(old(ControlBlock()), seg).out
      ensures r == StepOutcome(OnPacketSpec(old(ControlBlock()), seg))
      ensures incoming == old(incoming) && unacked == old(unacked)
    {
      var seqn := seg.seqn;
      var slen: uint32 := |seg.data|;
      if seg.fin {
        slen := slen + 1;
      }
      if seg.syn {
        slen := slen + 1;
      }
      assert slen == SegLen(seg);
      if !SegmentValid(recv.nxt, recv.wnd, seqn, slen) {
        var _ := Write(nic, []);
        return Ok(());
      }
      recv := recv.(nxt := WrappingAdd(seqn, slen));
      if !seg.ack {
        return Ok(());
      }
      ghost var t1 := ControlBlock();
      assert OnPacketSpec(old(ControlBlock()), seg) == AckSpec(t1, seg);
      r := OnAck(nic, seg);
    }

    /** The ACK-processing part of `on_packet`. */
    method OnAck(nic: Nic, seg: Segment) returns (r: Outcome<()>)
      modifies this, nic
      ensures ControlBlock() == AckSpec(old(ControlBlock()), seg).tcb
      ensures nic.sent == old(nic.sent) + AckSpec(old(ControlBlock()), seg).out
      ensures r == StepOutcome(AckSpec(old(ControlBlock()), seg))
      ensures incoming == old(incoming) && unacked == old(unacked)
    {
      if state == SynRcvd {
        if IsBetweenWrapped(WrappingSub(send.una, 1), seg.ackn, WrappingAdd(send.nxt, 1)) {
          state := Estab;
        }
      }
      r := OnSteadyAck(nic, seg);
    }

    /** The ACK test of an established connection, then the end of
        `on_packet`. */
    method OnSteadyAck(nic: Nic, seg: Segment) returns (r: Outcome<()>)
      modifies this, nic
      ensures ControlBlock() == SteadyAckSpec(old(ControlBlock()), seg).tcb
      ensures nic.sent == old(nic.sent) + SteadyAckSpec(old(ControlBlock()), seg).out
      ensures r == StepOutcome(SteadyAckSpec(old(ControlBlock()), seg))
      ensures incoming == old(incoming) && unacked == old(unacked)
    {
      if state == Estab || state == FinWait1 {
        if !IsBetweenWrapped(send.una, seg.ackn, WrappingAdd(send.nxt, 1)) {
          return Ok(());
        }
        send := send.(una := seg.ackn);
        if |seg.data| != 0 {
          return Panic(AssertFailed);
        }
        if state == Estab {
          fin := true;
          var _ := Write(nic, []);
          state := FinWait1;
        }
      }
      r := OnClose(nic, seg);
    }

    /** The end of `on_packet`: FinWait1 moves on, then a FIN is answered. */
    method OnClose(nic: Nic, seg: Segment) returns (r: Outcome<()>)
      modifies this, nic
      ensures ControlBlock() == CloseSpec(old(ControlBlock()), seg, []).tcb
      ensures nic.sent == old(nic.sent) + CloseSpec(old(ControlBlock()), seg, []).out
      ensures r == StepOutcome(CloseSpec(old(ControlBlock()), seg, []))
      ensures incoming == old(incoming) && unacked == old(unacked)
    {
      if state == FinWait1 {
        state := FinWait2;
      }
      if seg.fin {
        if state == FinWait2 {
          var _ := Write(nic, []);
          state := TimeWait;
        } else {
          return Panic(Unimplemented);
        }
      }
      return Ok(());
    }
  }
}
