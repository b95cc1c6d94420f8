/** Properties of the TCP engine of src/tcp.rs, stated about the functions
    that `Connection::accept`, `write` and `on_packet` are proved to follow. */
module TcpFacts {
  import opened Common
  import opened SeqSpace
  import opened Tcp

  /** What holds of a connection between calls: the SYN is counted in
      SND.NXT from the start, the FIN once the connection has left Estab,
      the flags of the header template are back to ACK alone, and FinWait1
      is never seen from outside. */
  ghost predicate Inv(t: Tcb)
  {
    && t.send.iss == Iss && t.send.wnd == LocalWindow
    && !t.syn && !t.fin && t.ack
    && t.state != FinWait1
    && (t.state == SynRcvd || t.state == Estab ==> t.send.una == Iss && t.send.nxt == Iss + 1)
    && (t.state == FinWait2 || t.state == TimeWait ==> t.send.una == Iss + 1 && t.send.nxt == Iss + 2)
  }

  /** `accept` on a SYN with sequence number S and window W. */
  lemma AcceptHandshake(syn: Segment)
    ensures var o := Opened(syn);
      && o.tcb.state == SynRcvd
      && o.tcb.recv == RecvSequenceSpace(WrappingAdd(syn.seqn, 1), syn.wnd, syn.seqn)
      && o.tcb.send == SendSequenceSpace(0, 1, LocalWindow, 0)
      && !o.tcb.syn && !o.tcb.fin
      && o.seg == Segment(0, WrappingAdd(syn.seqn, 1), true, true, false, LocalWindow, [])
  {
  }

  /** The connection `accept` returns already keeps the invariant. */
  lemma AcceptEstablishesInv(syn: Segment)
    ensures Inv(Opened(syn).tcb)
  {
  }

  /** The SYN+ACK acknowledges exactly the peer's SYN, for every initial
      sequence number of the peer, the largest one included. */
  lemma AcceptAcksSyn(syn: Segment)
    ensures WrappingSub(Opened(syn).tcb.recv.nxt, syn.seqn) == 1
    ensures Opened(syn).seg.ackn == Opened(syn).tcb.recv.nxt
  {
    AddThenSub(syn.seqn, 1);
  }

  /** `tcph.sequence_number() + 1` as written at src/tcp.rs:106, in a debug
      build, where `+` on `u32` panics on overflow (`None`). */
  function RecvNxtAsWritten(syn: Segment): Option<uint32>
  {
    CheckedAdd(syn.seqn, 1)
  }

  /** The as-written addition panics exactly for a peer whose SYN carries
      the largest sequence number, and agrees with the model otherwise. */
  lemma RecvNxtAsWrittenOverflows(syn: Segment)
    ensures RecvNxtAsWritten(syn).None? <==> syn.seqn == 0xFFFF_FFFF
    ensures RecvNxtAsWritten(syn).Some? ==> RecvNxtAsWritten(syn).value == Opened(syn).tcb.recv.nxt
  {
  }

  /** A segment that fails the acceptability test is answered with one bare
      ACK carrying the current SND.NXT and RCV.NXT, and nothing else moves. */
  lemma OnPacketRejects(t: Tcb, seg: Segment)
    requires WellFormed(seg)
    requires !SegmentValid(t.recv.nxt, t.recv.wnd, seg.seqn, SegLen(seg))
    ensures var r := OnPacketSpec(t, seg);
      && r.fault == None
      && r.out == [Segment(t.send.nxt, t.recv.nxt, t.syn, t.ack, t.fin, LocalWindow, [])]
      && r.tcb.recv == t.recv && r.tcb.send.una == t.send.una && r.tcb.state == t.state
  {
  }

  /** An acceptable segment moves RCV.NXT to just past itself, whatever
      else happens; without the ACK flag nothing else happens. */
  lemma OnPacketAdvancesRecv(t: Tcb, seg: Segment)
    requires WellFormed(seg)
    requires SegmentValid(t.recv.nxt, t.recv.wnd, seg.seqn, SegLen(seg))
    ensures OnPacketSpec(t, seg).tcb.recv == t.recv.(nxt := WrappingAdd(seg.seqn, SegLen(seg)))
    ensures !seg.ack ==> OnPacketSpec(t, seg) == Step(t.(recv := t.recv.(nxt := WrappingAdd(seg.seqn, SegLen(seg)))), [], None)
  {
  }

  /** In SynRcvd an acceptable ACK completes the handshake exactly when its
      acknowledgment number lies in the open interval (SND.UNA - 1,
      SND.NXT + 1); otherwise the connection stays in SynRcvd. */
  lemma HandshakeCompletes(t: Tcb, seg: Segment)
    requires WellFormed(seg) && seg.ack && t.state == SynRcvd
    requires SegmentValid(t.recv.nxt, t.recv.wnd, seg.seqn, SegLen(seg))
    ensures OnPacketSpec(t, seg).tcb.state != SynRcvd
        <==> IsBetweenWrapped(WrappingSub(t.send.una, 1), seg.ackn, WrappingAdd(t.send.nxt, 1))
  {
  }

  /** In Estab or FinWait1 an ACK outside (SND.UNA, SND.NXT + 1), a
      duplicate ACK of SND.UNA among them, is dropped: no segment is sent,
      and SND.UNA and the state stay as they were, so FIN is never sent twice. */
  lemma StaleAckIgnored(t: Tcb, seg: Segment)
    requires WellFormed(seg) && seg.ack && (t.state == Estab || t.state == FinWait1)
    requires SegmentValid(t.recv.nxt, t.recv.wnd, seg.seqn, SegLen(seg))
    requires !IsBetweenWrapped(t.send.una, seg.ackn, WrappingAdd(t.send.nxt, 1))
    ensures var r := OnPacketSpec(t, seg);
      r.out == [] && r.fault == None && r.tcb.send == t.send && r.tcb.state == t.state
  {
  }

  /** The duplicate ACK case of `StaleAckIgnored`. */
  lemma DuplicateAckIgnored(t: Tcb, seg: Segment)
    requires WellFormed(seg) && seg.ack && (t.state == Estab || t.state == FinWait1)
    requires SegmentValid(t.recv.nxt, t.recv.wnd, seg.seqn, SegLen(seg))
    requires seg.ackn == t.send.una
    ensures OnPacketSpec(t, seg).out == []
    ensures OnPacketSpec(t, seg).tcb.state == t.state
  {
    StaleAckIgnored(t, seg);
  }

  /** The ACK of our SYN, arriving in SynRcvd, is processed by every state
      test in turn: the connection becomes Estab, takes the ACK, sends its
      FIN, and ends in FinWait2, all in one call. */
  lemma AckCascade(t: Tcb, seg: Segment)
    requires Inv(t) && t.state == SynRcvd
    requires WellFormed(seg) && seg.ack && !seg.fin && seg.data == [] && seg.ackn == 1
    requires SegmentValid(t.recv.nxt, t.recv.wnd, seg.seqn, SegLen(seg))
    ensures var r := OnPacketSpec(t, seg);
      && r.fault == None
      && r.tcb.state == FinWait2
      && r.tcb.send.una == 1 && r.tcb.send.nxt == 2
      && r.out == [Segment(1, r.tcb.recv.nxt, false, true, true, LocalWindow, [])]
  {
  }

  /** A connection resting in Estab, on the ACK of its SYN, likewise takes
      the ACK, sends its one FIN and ends in FinWait2 in the same call. */
  lemma EstabAckSendsFin(t: Tcb, seg: Segment)
    requires Inv(t) && t.state == Estab
    requires WellFormed(seg) && seg.ack && !seg.fin && seg.data == [] && seg.ackn == 1
    requires SegmentValid(t.recv.nxt, t.recv.wnd, seg.seqn, SegLen(seg))
    ensures var r := OnPacketSpec(t, seg);
      && r.fault == None
      && r.tcb.state == FinWait2
      && r.tcb.send.una == 1 && r.tcb.send.nxt == 2
      && r.out == [Segment(1, r.tcb.recv.nxt, false, true, true, LocalWindow, [])]
  {
  }

  /** An ACK of the ISS itself in SynRcvd completes the handshake but is not
      taken as an acknowledgment: the connection rests in Estab and sends
      nothing. */
  lemma AckOfIssRestsInEstab(t: Tcb, seg: Segment)
    requires Inv(t) && t.state == SynRcvd
    requires WellFormed(seg) && seg.ack && !seg.fin && seg.ackn == 0
    requires SegmentValid(t.recv.nxt, t.recv.wnd, seg.seqn, SegLen(seg))
    ensures var r := OnPacketSpec(t, seg);
      r.fault == None && r.tcb.state == Estab && r.tcb.send == t.send && r.out == []
  {
  }

  /** A FIN with ACK in FinWait2 is answered with one ACK of it and moves
      the connection to TimeWait. */
  lemma FinInFinWait2(t: Tcb, seg: Segment)
    requires WellFormed(seg) && seg.ack && seg.fin && t.state == FinWait2
    requires SegmentValid(t.recv.nxt, t.recv.wnd, seg.seqn, SegLen(seg))
    ensures var r := OnPacketSpec(t, seg);
      && r.fault == None && r.tcb.state == TimeWait
      && r.out == [Segment(t.send.nxt, WrappingAdd(seg.seqn, SegLen(seg)), t.syn, t.ack, t.fin, LocalWindow, [])]
  {
  }

  /** On a connection keeping the invariant, an acceptable FIN with ACK ends
      in `unimplemented!()` exactly when it reaches the FIN test in a state
      other than FinWait2: in TimeWait, or in SynRcvd when its ACK lies
      outside the handshake window and so leaves the state alone. */
  lemma FinWithAckPanics(t: Tcb, seg: Segment)
    requires Inv(t) && WellFormed(seg) && seg.ack && seg.fin
    requires SegmentValid(t.recv.nxt, t.recv.wnd, seg.seqn, SegLen(seg))
    ensures OnPacketSpec(t, seg).fault == Some(Unimplemented)
        <==> t.state == TimeWait || (t.state == SynRcvd && seg.ackn != 0 && seg.ackn != 1)
  {
    if t.state == SynRcvd {
      HandshakeWindowInSynRcvd(t, seg.ackn);
    }
    SteadyAckWindow(0, 1, seg.ackn);
  }

  /** A FIN without the ACK flag is never looked at. */
  lemma FinWithoutAckIgnored(t: Tcb, seg: Segment)
    requires WellFormed(seg) && !seg.ack
    ensures OnPacketSpec(t, seg).fault == None
    ensures OnPacketSpec(t, seg).tcb.state == t.state
  {
  }

  /** Every `on_packet` call that does not panic keeps the invariant. */
  lemma OnPacketKeepsInv(t: Tcb, seg: Segment)
    requires Inv(t) && WellFormed(seg)
    requires OnPacketSpec(t, seg).fault == None
    ensures Inv(OnPacketSpec(t, seg).tcb)
  {
  }

  /** The whole life of a connection: SYN, the ACK of our SYN+ACK, then the
      peer's FIN. Each of the three calls sends exactly one segment. */
  lemma OpenAndClose(s: uint32, w: uint16)
    requires w > 0
    ensures
      var o := Opened(Segment(s, 0, true, false, false, w, []));
      var r1 := OnPacketSpec(o.tcb, Segment(WrappingAdd(s, 1), 1, false, true, false, w, []));
      var r2 := OnPacketSpec(r1.tcb, Segment(WrappingAdd(s, 1), 2, false, true, true, w, []));
      && o.tcb.state == SynRcvd
      && o.seg == Segment(0, WrappingAdd(s, 1), true, true, false, LocalWindow, [])
      && r1.fault == None && r1.tcb.state == FinWait2
      && r1.out == [Segment(1, WrappingAdd(s, 1), false, true, true, LocalWindow, [])]
      && r2.fault == None && r2.tcb.state == TimeWait
      && r2.out == [Segment(2, WrappingAdd(WrappingAdd(s, 1), 1), false, true, false, LocalWindow, [])]
  {
  }

  /** `self.send.una.sub(1)` as written at src/tcp.rs:209, in a debug build,
      where `-` on `u32` panics on overflow (`None`). */
  function HandshakeLowAsWritten(t: Tcb): Option<uint32>
  {
    CheckedSub(t.send.una, 1)
  }

  /** In every SynRcvd connection SND.UNA is the ISS, zero, so the
      as-written subtraction panics on every ACK that reaches it. */
  lemma HandshakeLowAsWrittenOverflows(t: Tcb)
    requires Inv(t) && t.state == SynRcvd
    ensures HandshakeLowAsWritten(t) == None
  {
  }

  /** With wrapping subtraction the handshake window takes exactly the ACKs
      of the ISS and of the SYN, that is 0 and 1. */
  lemma HandshakeWindowInSynRcvd(t: Tcb, ackn: uint32)
    requires Inv(t) && t.state == SynRcvd
    ensures IsBetweenWrapped(WrappingSub(t.send.una, 1), ackn, WrappingAdd(t.send.nxt, 1))
        <==> ackn == 0 || ackn == 1
  {
    HandshakeAckWindow(t.send.una, t.send.nxt, ackn);
  }

  /** The connection after `on_packet` has been called with each of `segs`
      in turn, up to the first call that panics, with everything it sent. */
  function Run(t: Tcb, segs: seq<Segment>): Step
    requires forall i :: 0 <= i < |segs| ==> WellFormed(segs[i])
    decreases |segs|
  {
    if segs == [] then Step(t, [], None)
    else
      var s := OnPacketSpec(t, segs[0]);
      if s.fault.Some? then s
      else
        var rest := Run(s.tcb, segs[1..]);
        Step(rest.tcb, s.out + rest.out, rest.fault)
  }

  /** How many of `out` carry FIN. */
  function FinCount(out: seq<Segment>): nat
  {
    if out == [] then 0 else Bit(out[0].fin) + FinCount(out[1..])
  }

  lemma {:induction false} FinCountAppend(a: seq<Segment>, b: seq<Segment>)
    ensures FinCount(a + b) == FinCount(a) + FinCount(b)
  {
    if a == [] {
      assert a + b == b;
    } else {
      assert (a + b)[0] == a[0];
      assert (a + b)[1..] == a[1..] + b;
      FinCountAppend(a[1..], b);
    }
  }

  /** 1 once the connection has sent its FIN, 0 before. */
  function Closing(t: Tcb): nat
  {
    if t.state == SynRcvd || t.state == Estab then 0 else 1
  }

  /** Every segment in `out` acknowledges, and none opens a connection. */
  predicate AckOnly(out: seq<Segment>)
  {
    forall i :: 0 <= i < |out| ==> out[i].ack && !out[i].syn
  }

  /** One call of `on_packet` on a connection keeping the invariant sends a
      FIN exactly when it takes the connection out of Estab, and every
      segment it sends carries ACK and not SYN. */
  lemma OnPacketSendsFinOnLeavingEstab(t: Tcb, seg: Segment)
    requires Inv(t) && WellFormed(seg)
    ensures var s := OnPacketSpec(t, seg);
      && Closing(t) <= Closing(s.tcb)
      && FinCount(s.out) == Closing(s.tcb) - Closing(t)
      && AckOnly(s.out)
  {
    var s := OnPacketSpec(t, seg);
    assert |s.out| <= 2;
    if |s.out| == 2 {
      assert s.out == [s.out[0]] + [s.out[1]];
      FinCountAppend([s.out[0]], [s.out[1]]);
    }
  }

  /** Over any sequence of segments, a connection keeping the invariant
      keeps it up to its first panic, sends a FIN once at most, namely when
      it leaves Estab, and never sends a SYN again. */
  lemma {:induction false} RunSendsOneFin(t: Tcb, segs: seq<Segment>)
    requires Inv(t)
    requires forall i :: 0 <= i < |segs| ==> WellFormed(segs[i])
    ensures var r := Run(t, segs);
      && (r.fault == None ==> Inv(r.tcb))
      && Closing(t) <= Closing(r.tcb)
      && FinCount(r.out) == Closing(r.tcb) - Closing(t)
      && AckOnly(r.out)
    decreases |segs|
  {
    if segs != [] {
      var s := OnPacketSpec(t, segs[0]);
      OnPacketSendsFinOnLeavingEstab(t, segs[0]);
      if s.fault.None? {
        OnPacketKeepsInv(t, segs[0]);
        RunSendsOneFin(s.tcb, segs[1..]);
        var rest := Run(s.tcb, segs[1..]);
        FinCountAppend(s.out, rest.out);
      }
    }
  }

  /** Whatever the peer sends after the SYN, the connection sends exactly
      one SYN+ACK and at most one FIN. */
  lemma AtMostOneFin(syn: Segment, segs: seq<Segment>)
    requires forall i :: 0 <= i < |segs| ==> WellFormed(segs[i])
    ensures var o := Opened(syn); var r := Run(o.tcb, segs);
      FinCount([o.seg] + r.out) <= 1 && AckOnly(r.out)
  {
    var o := Opened(syn);
    AcceptEstablishesInv(syn);
    RunSendsOneFin(o.tcb, segs);
    FinCountAppend([o.seg], Run(o.tcb, segs).out);
  }
}
