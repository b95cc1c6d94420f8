/** The connection manager of src/lib.rs: the table of connections, the
    queues of connections waiting to be accepted on each bound port, the
    dispatch of received segments, and the listener and stream handles.
    Each operation runs as one atomic step, as it does under the manager's
    lock. */
module Interface {
  import opened Common
  import opened Tcp

  /** Most bytes a stream keeps unacknowledged (src/lib.rs:9). */
  const SendQueueSize: int := 1024

  datatype Ipv4Addr = Ipv4Addr(a: uint8, b: uint8, c: uint8, d: uint8)
  datatype Endpoint = Endpoint(addr: Ipv4Addr, port: uint16)

  /** A connection's identity: the peer's endpoint and ours (src/lib.rs:12-15). */
  datatype Quad = Quad(src: Endpoint, dst: Endpoint)

  /** `ConnectionManager` (src/lib.rs:27-32). A port is bound exactly when
      it is a key of `pending`. */
  class ConnectionManager {
    var connections: map<Quad, Connection>
    var pending: map<uint16, seq<Quad>>
    /** The quads every `accept` so far has handed out. */
    ghost var accepted: set<Quad>

    ghost predicate Valid()
      reads this, connections.Values
    {
      && (forall p, i :: p in pending && 0 <= i < |pending[p]| ==>
            pending[p][i] in connections && pending[p][i].dst.port == p && pending[p][i] !in accepted)
      && (forall p, i, j :: p in pending && 0 <= i < j < |pending[p]| ==> pending[p][i] != pending[p][j])
      && accepted <= connections.Keys
      && (forall q, q' :: q in connections && q' in connections && q != q' ==> connections[q] != connections[q'])
      && (forall q :: q in connections ==> |connections[q].unacked| <= SendQueueSize)
    }

    constructor ()
      ensures Valid()
      ensures connections == map[] && pending == map[] && accepted == {}
    {
      connections, pending, accepted := map[], map[], {};
    }

    /** `Interface::bind`: a port can be bound only once. */
    method Bind(port: uint16) returns (r: Outcome<TcpListener>)
      requires Valid()
      modifies this
      ensures Valid()
      ensures port in old(pending) ==> r == Err(AddrInUse) && pending == old(pending)
      ensures port !in old(pending) ==>
        && r.Ok? && fresh(r.value) && r.value.port == port && r.value.h == this
        && pending == old(pending)[port := []]
      ensures connections == old(connections) && accepted == old(accepted)
    {
      if port in pending {
        return Err(AddrInUse);
      }
      pending := pending[port := []];
      var l := new TcpListener(port, this);
      return Ok(l);
    }

    /** The body of `packet_loop` for one decoded segment on `q`: a known
        quad goes to its connection; an unknown one opens a connection when
        its destination port is bound and the segment is a SYN, and is then
        queued for `accept`. */
    method Dispatch(nic: Nic, q: Quad, seg: Segment) returns (r: Outcome<()>)
      requires Valid() && WellFormed(seg)
      modifies this, nic, connections.Values
      ensures Valid()
      ensures accepted == old(accepted)
      ensures q in old(connections) ==>
        && connections == old(connections) && pending == old(pending)
        && var c := connections[q];
           var s := OnPacketSpec(old(c.ControlBlock()), seg);
           && c.ControlBlock() == s.tcb && nic.sent == old(nic.sent) + s.out && r == StepOutcome(s)
           && c.incoming == old(c.incoming) && c.unacked == old(c.unacked)
      ensures q in old(connections) ==>
        forall q' :: q' in connections && q' != q ==> unchanged(connections[q'])
      ensures q !in old(connections) && (q.dst.port !in old(pending) || !seg.syn) ==>
        && connections == old(connections) && pending == old(pending) && r == Ok(())
        && nic.sent == old(nic.sent)
      ensures q !in old(connections) && q.dst.port in old(pending) && seg.syn ==>
        && r == Ok(())
        && connections.Keys == old(connections.Keys) + {q}
        && (forall q' :: q' in old(connections) ==> connections[q'] == old(connections[q']))
        && fresh(connections[q])
        && connections[q].ControlBlock() == Opened(seg).tcb
        && connections[q].incoming == [] && connections[q].unacked == []
        && pending == old(pending)[q.dst.port := old(pending[q.dst.port]) + [q]]
        && nic.sent == old(nic.sent) + [Opened(seg).seg]
      ensures q !in old(connections) ==>
        forall q' :: q' in old(connections) ==> unchanged(old(connections[q']))
    {
      if q in connections {
        r := Deliver(nic, q, seg);
      } else {
        r := Open(nic, q, seg);
      }
    }

    /** A segment on a known quad goes to its connection (src/lib.rs:120-124). */
    method Deliver(nic: Nic, q: Quad, seg: Segment) returns (r: Outcome<()>)
      requires Valid() && WellFormed(seg) && q in connections
      modifies nic, connections.Values
      ensures Valid()
      ensures var c := connections[q];
        var s := OnPacketSpec(old(c.ControlBlock()), seg);
        && c.ControlBlock() == s.tcb && nic.sent == old(nic.sent) + s.out && r == StepOutcome(s)
        && c.incoming == old(c.incoming) && c.unacked == old(c.unacked)
      ensures forall q' :: q' in connections && q' != q ==> unchanged(connections[q'])
    {
      var c := connections[q];
      r := c.OnPacket(nic, seg);
    }

    /** A segment on an unknown quad opens a connection when it is a SYN to a
        bound port, and the quad is queued for `accept` (src/lib.rs:125-144). */
    method Open(nic: Nic, q: Quad, seg: Segment) returns (r: Outcome<()>)
      requires Valid() && WellFormed(seg) && q !in connections
      modifies this, nic
      ensures Valid()
      ensures accepted == old(accepted) && r == Ok(())
      ensures q.dst.port !in old(pending) || !seg.syn ==>
        && connections == old(connections) && pending == old(pending)
        && nic.sent == old(nic.sent)
      ensures q.dst.port in old(pending) && seg.syn ==>
        && connections.Keys == old(connections.Keys) + {q}
        && (forall q' :: q' in old(connections) ==> connections[q'] == old(connections[q']))
        && fresh(connections[q])
        && connections[q].ControlBlock() == Opened(seg).tcb
        && connections[q].incoming == [] && connections[q].unacked == []
        && pending == old(pending)[q.dst.port := old(pending[q.dst.port]) + [q]]
        && nic.sent == old(nic.sent) + [Opened(seg).seg]
      ensures forall q' :: q' in old(connections) ==> unchanged(old(connections[q']))
    {
      r := Ok(());
      var port := q.dst.port;
      if port in pending {
        var c := Connection.Accept(nic, seg);
        if c != null {
          connections := connections[q := c];
          pending := pending[port := pending[port] + [q]];
        }
      }
    }
  }

  /** A bound port (src/lib.rs:250-253). */
  class TcpListener {
    const port: uint16
    const h: ConnectionManager

    constructor (port: uint16, h: ConnectionManager)
      ensures this.port == port && this.h == h
    {
      this.port := port;
      this.h := h;
    }

    /** One pass of the loop of `TcpListener::accept`: take the quad at the
        front of the port's queue. On an empty queue the source waits for a
        notification and tries again; here that is "nothing yet", with no
        change. */
    method Accept() returns (r: Outcome<Option<TcpStream>>)
      requires h.Valid()
      modifies h
      ensures h.Valid()
      ensures h.connections == old(h.connections)
      ensures port !in old(h.pending) ==> r == Panic(ExpectFailed) && unchanged(h)
      ensures port in old(h.pending) && old(h.pending[port]) == [] ==> r == Ok(None) && unchanged(h)
      ensures port in old(h.pending) && old(h.pending[port]) != [] ==>
        var q := old(h.pending[port][0]);
        && r.Ok? && r.value.Some? && fresh(r.value.value)
        && r.value.value.quad == q && r.value.value.h == h
        && q in h.connections && q.dst.port == port
        && q !in old(h.accepted) && h.accepted == old(h.accepted) + {q}
        && h.pending == old(h.pending)[port := old(h.pending[port][1..])]
    {
      if port !in h.pending {
        return Panic(ExpectFailed);
      }
      var queue := h.pending[port];
      if queue == [] {
        return Ok(None);
      }
      var q := queue[0];
      h.pending := h.pending[port := queue[1..]];
      h.accepted := h.accepted + {q};
      var s := new TcpStream(q, h);
      return Ok(Some(s));
    }

    /** `Drop for TcpListener`: unbind the port. Connections still queued
        reach `unimplemented!()`, after the port is already gone. */
    method Drop() returns (r: Outcome<()>)
      requires h.Valid()
      modifies h
      ensures h.Valid()
      ensures h.connections == old(h.connections) && h.accepted == old(h.accepted)
      ensures port !in old(h.pending) ==> r == Panic(ExpectFailed) && unchanged(h)
      ensures port in old(h.pending) ==>
        && h.pending == old(h.pending) - {port}
        && r == (if old(h.pending[port]) == [] then Ok(()) else Panic(Unimplemented))
    {
      if port !in h.pending {
        return Panic(ExpectFailed);
      }
      var queue := h.pending[port];
      h.pending := h.pending - {port};
      if queue != [] {
        return Panic(Unimplemented);
      }
      return Ok(());
    }
  }

  /** An accepted connection (src/lib.rs:160-163). */
  class TcpStream {
    const quad: Quad
    const h: ConnectionManager

    constructor (quad: Quad, h: ConnectionManager)
      ensures this.quad == quad && this.h == h
    {
      this.quad := quad;
      this.h := h;
    }

    /** `Read for TcpStream`: move the oldest queued bytes into `buf`. The
        inbound queue is a ring buffer, which `as_slices` reports as two
        runs split at a point the model leaves open. */
    method Read(buf: array<uint8>) returns (r: Outcome<nat>)
      requires h.Valid()
      modifies buf, if quad in h.connections then {h.connections[quad]} else {}
      ensures h.Valid()
      ensures quad !in h.connections ==> r == Err(ConnectionAborted) && buf[..] == old(buf[..])
      ensures quad in h.connections ==>
        var c := h.connections[quad];
        && c.ControlBlock() == old(c.ControlBlock()) && c.unacked == old(c.unacked)
        && (old(c.incoming) == [] ==> r == Err(WouldBlock) && buf[..] == old(buf[..]) && c.incoming == [])
        && (old(c.incoming) != [] ==>
              var n := Min(buf.Length, |old(c.incoming)|);
              && r == Ok(n)
              && buf[..n] == old(c.incoming)[..n]
              && buf[n..] == old(buf[n..])
              && c.incoming == old(c.incoming)[n..])
    {
      if quad !in h.connections {
        return Err(ConnectionAborted);
      }
      var c := h.connections[quad];
      if c.incoming == [] {
        return Err(WouldBlock);
      }
      var split :| 0 <= split <= |c.incoming|;
      var (copied, nread) := ReadTwoRuns(c.incoming[..split], c.incoming[split..], buf[..]);
      ReadTwoRunsIsFifo(c.incoming[..split], c.incoming[split..], buf[..]);
      assert c.incoming[..split] + c.incoming[split..] == c.incoming;
      forall i | 0 <= i < buf.Length {
        buf[i] := copied[i];
      }
      c.incoming := c.incoming[nread..];
      return Ok(nread);
    }

    /** `Write for TcpStream::write`: queue as much of `buf` as the send
        queue has room for. */
    method Write(buf: seq<uint8>) returns (r: Outcome<nat>)
      requires h.Valid()
      modifies if quad in h.connections then {h.connections[quad]} else {}
      ensures h.Valid()
      ensures quad !in h.connections ==> r == Err(ConnectionAborted)
      ensures quad in h.connections ==>
        var c := h.connections[quad];
        && c.ControlBlock() == old(c.ControlBlock()) && c.incoming == old(c.incoming)
        && (|old(c.unacked)| >= SendQueueSize ==> r == Err(WouldBlock) && c.unacked == old(c.unacked))
        && (|old(c.unacked)| < SendQueueSize ==>
              var n := Min(|buf|, SendQueueSize - |old(c.unacked)|);
              r == Ok(n) && c.unacked == old(c.unacked) + buf[..n])
    {
      if quad !in h.connections {
        return Err(ConnectionAborted);
      }
      var c := h.connections[quad];
      if |c.unacked| >= SendQueueSize {
        return Err(WouldBlock);
      }
      var nwrite := Min(|buf|, SendQueueSize - |c.unacked|);
      c.unacked := c.unacked + buf[..nwrite];
      return Ok(nwrite);
    }

    /** `Write for TcpStream::flush`: succeeds only once nothing is queued;
        it never changes anything. */
    method Flush() returns (r: Outcome<()>)
      requires h.Valid()
      ensures quad !in h.connections ==> r == Err(ConnectionAborted)
      ensures quad in h.connections ==>
        (r == Ok(()) <==> h.connections[quad].unacked == [])
        && (r != Ok(()) ==> r == Err(WouldBlock))
    {
      if quad !in h.connections {
        return Err(ConnectionAborted);
      }
      var c := h.connections[quad];
      if c.unacked == [] {
        return Ok(());
      }
      return Err(WouldBlock);
    }
  }

  /** After `bind(P)`, a SYN from a new quad to P is what the next `accept`
      on P returns. */
  method SynToBoundPortIsAccepted(m: ConnectionManager, nic: Nic, q: Quad, seg: Segment) returns (s: TcpStream)
    requires m.Valid() && WellFormed(seg) && seg.syn
    requires q !in m.connections && q.dst.port !in m.pending
    modifies m, nic, m.connections.Values
    ensures m.Valid()
    ensures s.quad == q && s.h == m && q in m.connections
  {
    var b := m.Bind(q.dst.port);
    var l := b.value;
    var _ := m.Dispatch(nic, q, seg);
    var a := l.Accept();
    s := a.value.value;
  }

  /** Dropping a listener whose queue is empty frees its port for `bind`. */
  method DropThenRebind(l: TcpListener) returns (r: Outcome<TcpListener>)
    requires l.h.Valid() && l.port in l.h.pending && l.h.pending[l.port] == []
    modifies l.h
    ensures l.h.Valid()
    ensures r.Ok? && r.value.port == l.port
  {
    var d := l.Drop();
    r := l.h.Bind(l.port);
  }

  /** `read` as written at src/lib.rs:186-193, on the two runs `head` and
      `tail` of the inbound queue: both `copy_from_slice` calls target the
      whole of `buf` and panic unless the source run has `buf`'s length.
      The result is the new contents of `buf` and the count read. */
  function ReadAsWritten(head: seq<uint8>, tail: seq<uint8>, buf: seq<uint8>): Outcome<(seq<uint8>, nat)>
  {
    var hread := Min(|buf|, |head|);
    if |buf| != hread then Panic(LengthMismatch)
    else
      var nread := hread;
      var tread := Min(|buf| - nread, |tail|);
      if |buf| != tread then Panic(LengthMismatch)
      else Ok((tail[..tread], nread + tread))
  }

  /** As written, `read` panics for every non-empty `buf`, however the
      queue is split, and reads nothing into an empty one. */
  lemma ReadAsWrittenPanics(head: seq<uint8>, tail: seq<uint8>, buf: seq<uint8>)
    ensures |buf| > 0 ==> ReadAsWritten(head, tail, buf) == Panic(LengthMismatch)
    ensures |buf| == 0 ==> ReadAsWritten(head, tail, buf) == Ok(([], 0))
  {
  }

  /** The two-run copy `read` evidently means: the head run into the front
      of `buf`, then the tail run right after it. */
  function ReadTwoRuns(head: seq<uint8>, tail: seq<uint8>, buf: seq<uint8>): (seq<uint8>, nat)
  {
    var hread := Min(|buf|, |head|);
    var tread := Min(|buf| - hread, |tail|);
    (head[..hread] + tail[..tread] + buf[hread + tread..], hread + tread)
  }

  /** The two-run copy reads the oldest bytes of the queue in order, as many
      as fit, and leaves the rest of `buf` alone: a FIFO read. */
  lemma ReadTwoRunsIsFifo(head: seq<uint8>, tail: seq<uint8>, buf: seq<uint8>)
    ensures var (copied, n) := ReadTwoRuns(head, tail, buf);
      && n == Min(|buf|, |head| + |tail|)
      && |copied| == |buf|
      && copied[..n] == (head + tail)[..n]
      && copied[n..] == buf[n..]
  {
    var (copied, n) := ReadTwoRuns(head, tail, buf);
    var hread := Min(|buf|, |head|);
    var tread := Min(|buf| - hread, |tail|);
    assert copied[..n] == head[..hread] + tail[..tread];
    if tread > 0 {
      assert hread == |head|;
    }
    assert head[..hread] + tail[..tread] == (head + tail)[..n];
  }
}
