# A verified model of a user-space TCP stack's core

This project models, in Dafny, the two sequential cores of a small
user-space TCP implementation written in Rust:

- **The per-connection engine** (`src/tcp.rs`). It has the wrapping
  sequence-number predicates `is_between_wrapped`, `seq_in_window` and
  `segment_valid`, which implement the segment acceptability test of
  section 3.3 of RFC 793. It also has the connection state machine
  (`SynRcvd`, `Estab`, `FinWait1`, `FinWait2`, `TimeWait`) driven by
  `Connection::accept`, `write` and `on_packet`.
- **The connection manager** (`src/lib.rs`). It keeps a table from connection
  quads to connections and a queue of accepted-but-unclaimed quads per bound
  port. It covers `bind`, the dispatch step of the packet loop, one pass of
  `TcpListener::accept`, `TcpListener`'s drop, and `TcpStream::read`,
  `write` and `flush`.

Files:

- `common.dfy` (module `Common`) holds the `u8`/`u16`/`u32` ranges and the
  `Outcome` of a call: a value, an `io::Error` kind (`AddrInUse`,
  `ConnectionAborted`, `WouldBlock`), or a panic. It also holds the
  debug-build checked `+`/`-`.
- `seq_space.dfy` (module `SeqSpace`) holds the sequence-space predicates
  and their lemmas.
- `tcp.dfy` (module `Tcp`) holds the connection. `Connection` is a class
  whose fields the methods update in place, as the Rust methods do. The
  network device is a `Nic` object holding the log of segments sent. Each
  method is proved to follow a pure function of the old state:
  - `Emit` for `write`;
  - `Opened` for `accept`;
  - `OnPacketSpec` for `on_packet`. It is built from `AckSpec`, which is
    `HandshakeSpec` followed by `SteadyAckSpec`, and `SteadyAckSpec` ends
    in `CloseSpec`.
  - `SegLen` and `InitialTcb` are helpers with no contract of their own.
    `SegLen` is covered by the `OnPacketSpec` and `OnPacketAdvancesRecv`
    rows, and `InitialTcb` by the `Opened`, `FromSyn` and `AcceptHandshake`
    rows.
- `tcp_facts.dfy` (module `TcpFacts`) holds the properties of those
  functions. They include an invariant kept by every call, the one-call
  ACK cascade, duplicate ACKs, a full open-and-close exchange, and, by
  induction over any sequence of incoming segments, that at most one FIN
  is ever sent.
- `interface.dfy` (module `Interface`) holds `ConnectionManager`,
  `TcpListener` and `TcpStream` as classes. The manager's `Valid()` states
  the table invariants:
  - every queued quad is a live connection on that port, queued once and
    not yet accepted;
  - distinct quads have distinct connections;
  - no send queue exceeds `SENDQUEUE_SIZE`.

`TcpFacts.RecvNxtAsWritten`, `TcpFacts.HandshakeLowAsWritten` and
`Interface.ReadAsWritten` are src/tcp.rs:106, src/tcp.rs:209 and
src/lib.rs:186-193 as written, the first two as a debug build checks
them. `Interface.ReadTwoRuns`
is the corrected copy that `TcpStream.Read` performs. They have no
contract of their own and are covered by the rows of
`RecvNxtAsWrittenOverflows`, `HandshakeLowAsWrittenOverflows`,
`ReadAsWrittenPanics` and `ReadTwoRunsIsFifo`.

Modelling choices:

- Wrapping arithmetic is written out on unbounded integers.
- Five operations in the source use plain `+`/`-` on `u32`, which a debug
  build checks for overflow. Three of them cannot overflow:
  `slen += 1` at src/tcp.rs:186 and src/tcp.rs:189 add at most 2 to a
  payload length that `WellFormed` bounds by 1504 (`SegLen` returns a
  `uint32`, so this is proved), and `slen - 1` at src/tcp.rs:293 lies in
  the branch where `slen > 0`. The other two can: `S + 1` at src/tcp.rs:106 and
  `una.sub(1)` at src/tcp.rs:209. The model gives those two wrapping
  semantics, as a release build does. What a debug build does is under
  "## Findings".
- A panic (`unimplemented!()`, a failed `expect` or `assert!`) is an
  outcome, not a precondition. Whatever the call changed before it
  panicked stays changed. The later effect of a panic on the manager is
  not modelled (see "## Left out").
- `Connection` has no `incoming`/`unacked` fields in src/tcp.rs, but
  src/lib.rs reads them. The model adds both as byte sequences that start
  empty. No code path in the source adds bytes to `incoming`: `on_packet`
  never delivers payload.

Four behaviours of the code are easy to misread:

- `is_between_wrapped` excludes `end` as well as `start`. So
  `is_between_wrapped(s, s+1, s+k)` holds for `k >= 2` only, not for
  `k = 1` (`IsBetweenWrappedSuccessor`).
- The handshake ACK that acknowledges our SYN (`ackn = 1`) does not stop in
  `Estab`. The state tests in `on_packet` follow one another, so the same
  call takes the ACK, sends FIN and ends in `FinWait2` (`AckCascade`,
  `OpenAndClose`). Only an ACK of the ISS itself (`ackn = 0`) leaves the
  connection resting in `Estab` (`AckOfIssRestsInEstab`).
- A FIN is looked at only when the segment also carries ACK
  (`FinWithoutAckIgnored`).
- The two windows swap their RFC 793 roles. `recv.wnd` holds the window
  the peer advertised in its SYN, and `send.wnd` holds our own 1024
  (src/tcp.rs:97, 107). So the acceptability test measures incoming
  segments against the peer's window, not ours. The model keeps this.

## Model

| member | source | states |
|---|---|---|
| `SeqSpace.IsBetweenWrapped` | src/tcp.rs:268-270 | holds exactly when `0 < (x - start) mod 2^32 < (end - start) mod 2^32`, using Euclidean `%` as an independent definition |
| `SeqSpace.IsBetweenWrappedOpenEnds` | src/tcp.rs:268-270 | neither `start` nor `end` lies inside the interval |
| `SeqSpace.IsBetweenWrappedRotation` | src/tcp.rs:268-270 | adding the same `k` (mod 2^32) to all three arguments does not change the answer |
| `SeqSpace.IsBetweenWrappedSuccessor` | src/tcp.rs:268-270 | `start + 1` lies in `(start, start + k)` exactly when `k >= 2` |
| `SeqSpace.SeqInWindow` | src/tcp.rs:297-299 | when the range is shorter than the circle less one, the result is membership in `[start, end)` measured around the circle |
| `SeqSpace.SeqInWindowHalfOpen` | src/tcp.rs:297-299 | when `end - start < 2^32 - 1`, `seq_in_window` is membership in the half-open wrapping range `[start, end)` |
| `SeqSpace.SeqInWindowLongestRangeEmpty` | src/tcp.rs:297-299 | when `end == start - 1`, `seq_in_window` accepts no value at all, which is the excluded edge case |
| `SeqSpace.SeqInWindowOfReceiveWindow` | src/tcp.rs:281-286 | with the window end `nxt + wnd` of a `u16` window, the window test is membership in the `wnd` numbers from `nxt` |
| `SeqSpace.SegmentValid` | src/tcp.rs:272-296 | the four rows of the RFC 793 acceptability table, with "in the window" read independently as `InWindow`: `seqn == nxt`; `seqn` in `[nxt, nxt+wnd)`; never; first or last octet in `[nxt, nxt+wnd)` |
| `SeqSpace.SegmentValidSamples` | src/tcp.rs:280-296 | sample points: `(n,0,n,0)` accepted; `(n,0,n+1,0)` refused; `(n,100,n+50,0)` accepted; `(n,100,n+150,0)` refused; `(n,0,n,5)` refused |
| `SeqSpace.HandshakeAckWindow` | src/tcp.rs:209 | the handshake window `(una-1, nxt+1)` takes exactly the acknowledgment numbers from `una` to `nxt` inclusive |
| `SeqSpace.SteadyAckWindow` | src/tcp.rs:221 | the established window `(una, nxt+1)` takes exactly those after `una` up to `nxt`, one fewer than the handshake window |
| `Tcp.Emit` | src/tcp.rs:127-167 | the segment sent carries `seq = SND.NXT` and `ack = RCV.NXT` from call time and at most 1460 payload bytes; SND.NXT advances by payload + SYN + FIN (mod 2^32); SYN and FIN are cleared; nothing else changes |
| `Tcp.Opened` | src/tcp.rs:84-125 | the connection `accept` returns is in SynRcvd with no flag pending; its SYN+ACK carries no data, acknowledges exactly the peer's SYN (IRS = S, RCV.NXT - IRS = 1, RCV.WND = the peer's window), starts at SND.UNA, and SND.NXT counts the SYN |
| `Tcp.OnPacketSpec` | src/tcp.rs:171-266 | never moves the connection back along SynRcvd, Estab, FinWait1, FinWait2, TimeWait; sends at most two segments; keeps RCV.WND, IRS and ISS; an unacceptable segment gets exactly one reply and no state change; only a segment with ACK can panic |
| `Tcp.AckSpec` | src/tcp.rs:205-265 | moves forward only, sends at most two segments, keeps the receive space, panics on `assert!` only for a segment with data, and moves SND.UNA only to an ACK inside `(SND.UNA, SND.NXT + 1)`; conversely, once past the handshake test in Estab or FinWait1, an ACK inside that window sets SND.UNA to it and panics on `assert!` exactly when the segment has data |
| `Tcp.HandshakeSpec` | src/tcp.rs:206-218 | changes at most the state, and only from SynRcvd to Estab; an ACK of SND.UNA itself always completes the handshake while fewer than 2^32 - 2 numbers are outstanding |
| `Tcp.SteadyAckSpec` | src/tcp.rs:220-265 | the same properties for the part after the handshake test, for a connection in Estab or FinWait1 on entry |
| `Tcp.CloseSpec` | src/tcp.rs:243-265 | never leaves the connection in FinWait1 and never moves it back; keeps what was sent before and adds at most one segment, and none unless the incoming segment carries FIN; panics exactly on a FIN outside FinWait1 and FinWait2 |
| `Tcp.Nic.Send` | src/tcp.rs:169 | the device log grows by exactly the segment sent |
| `Tcp.Connection.FromSyn` | src/tcp.rs:90-119 | a new connection in SynRcvd: ISS = UNA = NXT = 0, IRS = S, RCV.NXT = S + 1, RCV.WND = the peer's window, empty queues |
| `Tcp.Connection.Accept` | src/tcp.rs:76-126 | returns a connection exactly for a SYN; otherwise sends nothing; on a SYN the connection is `Opened(seg)` and exactly its SYN+ACK is sent |
| `Tcp.Connection.Write` | src/tcp.rs:127-170 | the new state is `Emit(old state, payload)`, the log grows by its segment, and the frame length is returned |
| `Tcp.Connection.OnPacket` | src/tcp.rs:171-204 | the new state, the segments sent and the outcome are those of `OnPacketSpec`; the byte queues are untouched |
| `Tcp.Connection.OnAck` | src/tcp.rs:205-241 | the ACK part of `on_packet` follows `AckSpec`: the handshake test, then `OnSteadyAck` |
| `Tcp.Connection.OnSteadyAck` | src/tcp.rs:220-265 | the established ACK test and the end of `on_packet` follow `SteadyAckSpec` |
| `Tcp.Connection.OnClose` | src/tcp.rs:243-265 | the end of `on_packet` follows `CloseSpec`: FinWait1 moves to FinWait2, and a FIN is answered only in FinWait2 |
| `TcpFacts.AcceptHandshake` | src/tcp.rs:84-125 | on a SYN (S, W): state SynRcvd, IRS = S, RCV.NXT = S + 1, RCV.WND = W, ISS = UNA = 0, NXT = 1, SYN cleared, one SYN+ACK with seq 0 and ack S + 1 |
| `TcpFacts.AcceptEstablishesInv` | src/tcp.rs:88-124 | the connection `accept` returns satisfies the connection invariant |
| `TcpFacts.AcceptAcksSyn` | src/tcp.rs:104-106 | the SYN+ACK acknowledges exactly the peer's SYN, with RCV.NXT - IRS = 1 for every S, the largest included |
| `TcpFacts.RecvNxtAsWrittenOverflows` | src/tcp.rs:106 | the as-written `S + 1` panics exactly when S = 2^32 - 1, and agrees with the model otherwise |
| `TcpFacts.OnPacketRejects` | src/tcp.rs:193-197 | an unacceptable segment gets one bare ACK with the current SND.NXT and RCV.NXT; RCV.NXT, SND.UNA and the state are unchanged |
| `TcpFacts.OnPacketAdvancesRecv` | src/tcp.rs:178-204 | an acceptable segment sets RCV.NXT to `seqn + slen` (mod 2^32); without the ACK flag nothing else changes and nothing is sent |
| `TcpFacts.HandshakeCompletes` | src/tcp.rs:206-218 | in SynRcvd, an acceptable ACK leaves SynRcvd exactly when `ackn` is in `(una - 1, nxt + 1)` |
| `TcpFacts.StaleAckIgnored` | src/tcp.rs:220-226 | in Estab or FinWait1, an ACK outside `(una, nxt + 1)` sends nothing and leaves SND and the state unchanged |
| `TcpFacts.DuplicateAckIgnored` | src/tcp.rs:220-226 | a duplicate ACK of SND.UNA in Estab or FinWait1 sends nothing and changes no state, so FIN is never sent twice |
| `TcpFacts.AckCascade` | src/tcp.rs:206-250 | in SynRcvd, the ACK of our SYN moves through Estab and FinWait1 to FinWait2 in one call, sending exactly one FIN with seq 1; UNA = 1, NXT = 2 |
| `TcpFacts.EstabAckSendsFin` | src/tcp.rs:220-250 | a connection resting in Estab, on the ACK of its SYN, sets UNA = 1, sends exactly one FIN with seq 1, NXT = 2, and ends in FinWait2 in the same call |
| `TcpFacts.AckOfIssRestsInEstab` | src/tcp.rs:206-226 | in SynRcvd, an ACK of the ISS (0) completes the handshake but leaves the connection in Estab, sending nothing |
| `TcpFacts.FinInFinWait2` | src/tcp.rs:252-260 | a FIN with ACK in FinWait2 gets exactly one ACK of it, and the state becomes TimeWait |
| `TcpFacts.FinWithAckPanics` | src/tcp.rs:206-262 | on a connection keeping the invariant, an acceptable FIN with ACK ends in `unimplemented!()` exactly when the connection is in TimeWait, or in SynRcvd with an ACK other than 0 or 1, which leaves it in SynRcvd at the FIN test |
| `TcpFacts.FinWithoutAckIgnored` | src/tcp.rs:202-204 | a segment without the ACK flag, FIN or not, never panics and never changes the state |
| `TcpFacts.OnPacketKeepsInv` | src/tcp.rs:171-266 | every `on_packet` that does not panic keeps the invariant: UNA/NXT are 0/1 before the FIN and 1/2 after it, the flags are back to ACK alone, FinWait1 is never seen at rest |
| `TcpFacts.OpenAndClose` | src/tcp.rs:76-266 | SYN, then the ACK of the SYN+ACK, then the peer's FIN: SynRcvd, then FinWait2, then TimeWait, with exactly one segment sent by each step and their exact contents. This holds for every peer window W > 0; RCV.WND is the peer's SYN window (src/tcp.rs:107), and with W = 0 `segment_valid` refuses every segment that carries FIN, so the exchange never closes |
| `TcpFacts.OnPacketSendsFinOnLeavingEstab` | src/tcp.rs:171-266 | from any state keeping the invariant, one `on_packet` sends a FIN exactly when it takes the connection past Estab, never goes back, and every segment it sends carries ACK and not SYN |
| `TcpFacts.RunSendsOneFin` | src/tcp.rs:171-266 | over any sequence of segments fed to `on_packet`, the invariant holds up to the first panic, the FIN is sent once, when the connection leaves Estab, and no segment carries SYN |
| `TcpFacts.AtMostOneFin` | src/tcp.rs:76-266 | whatever the peer sends after its SYN, the connection sends at most one FIN in total, and every segment after the SYN+ACK carries ACK and not SYN |
| `TcpFacts.HandshakeLowAsWrittenOverflows` | src/tcp.rs:209 | the as-written `una.sub(1)` panics on every connection in SynRcvd, because UNA is 0 there |
| `TcpFacts.HandshakeWindowInSynRcvd` | src/tcp.rs:209 | with wrapping subtraction, a SynRcvd connection takes exactly the ACK numbers 0 and 1 as completing the handshake |
| `Interface.ConnectionManager.constructor` | src/lib.rs:26-32 | an empty table with no bound port satisfies the table invariant |
| `Interface.ConnectionManager.Bind` | src/lib.rs:56-76 | AddrInUse with `pending` unchanged if the port is bound; otherwise `pending` gains `port ↦ []`, a listener on the port is returned, and nothing else changes |
| `Interface.ConnectionManager.Deliver` | src/lib.rs:119-124 | a segment on a known quad steps only its connection, per `OnPacketSpec`; every other connection is unchanged and the table invariant is kept |
| `Interface.ConnectionManager.Open` | src/lib.rs:125-144 | on an unknown quad: a SYN to a bound port inserts the connection `Opened(seg)`, appends the quad to the port's queue and sends the SYN+ACK; anything else changes nothing and sends nothing |
| `Interface.ConnectionManager.Dispatch` | src/lib.rs:114-145 | a known quad: only its connection steps, per `OnPacketSpec`, and both key sets stay. An unknown quad with a SYN to a bound port: the connection `Opened(seg)` is inserted and the quad is appended to the port's queue, together. Otherwise nothing changes and nothing is sent. The table invariant is kept |
| `Interface.TcpListener.Accept` | src/lib.rs:254-272 | on a non-empty queue it returns the front quad, removes exactly it, and that quad was never returned before; an empty queue gives no result and no change; an unbound port panics |
| `Interface.TcpListener.Drop` | src/lib.rs:285-298 | removes the port from `pending`; an unbound port panics via `expect`; a non-empty queue reaches `unimplemented!()` |
| `Interface.TcpStream.Read` | src/lib.rs:165-195 | ConnectionAborted if the quad is gone; WouldBlock on an empty inbound queue; otherwise `n = min(|buf|, |incoming|)`, `buf[..n]` holds the oldest `n` bytes, the rest of `buf` is untouched, and exactly those bytes leave the queue |
| `Interface.TcpStream.Write` | src/lib.rs:197-221 | ConnectionAborted if the quad is gone; WouldBlock if 1024 bytes are queued; otherwise it appends the first `min(|buf|, 1024 - |unacked|)` bytes and returns that count; the bound of 1024 is kept |
| `Interface.TcpStream.Flush` | src/lib.rs:222-240 | ConnectionAborted if the quad is gone; otherwise it succeeds exactly when nothing is queued and returns WouldBlock otherwise; it changes nothing |
| `Interface.SynToBoundPortIsAccepted` | src/lib.rs:56-272 | after `bind(P)`, a SYN from a new quad to P is what the next `accept` on P returns |
| `Interface.DropThenRebind` | src/lib.rs:285-298 | after dropping a listener with an empty queue, `bind` on its port succeeds again |
| `Interface.ReadAsWrittenPanics` | src/lib.rs:186-193 | as written, `read` panics for every non-empty `buf`, whatever the queue's split, and reads nothing into an empty one |
| `Interface.ReadTwoRunsIsFifo` | src/lib.rs:185-193 | the intended two-run copy reads `min(|buf|, |queue|)` of the oldest bytes in order and leaves the rest of `buf` alone |

## Findings

| source | as written | input that shows it | evidently intended | confidence | as-written member | corrected member |
|---|---|---|---|---|---|---|
| src/lib.rs:186-193 | both `copy_from_slice` calls copy into the whole `buf`, which panics unless the two lengths are equal; the second copy also targets `buf[0..]` | a 4-byte `buf` with 2 queued bytes panics at the first copy; in fact every non-empty `buf` panics at one of the two copies | copy the head run into `buf[..hread]` and the tail run into `buf[hread..hread+tread]`, a FIFO read | high; not executed | `Interface.ReadAsWrittenPanics` | `Interface.ReadTwoRunsIsFifo` |
| src/tcp.rs:209 | `self.send.una.sub(1)` is a checked subtraction in a debug build, and UNA is always 0 in SynRcvd | any ACK that reaches the handshake test, such as the ACK of the SYN+ACK, panics with an overflow in a debug build | `una.wrapping_sub(1)`, as the neighbouring code uses wrapping arithmetic | high for debug builds, none for release builds; not executed | `TcpFacts.HandshakeLowAsWrittenOverflows` | `TcpFacts.HandshakeWindowInSynRcvd` |
| src/tcp.rs:106 | `tcph.sequence_number() + 1` is a checked addition in a debug build | a SYN with sequence number 4294967295 panics with an overflow in a debug build | `wrapping_add(1)`, as on src/tcp.rs:200 | medium; not executed | `TcpFacts.RecvNxtAsWrittenOverflows` | `TcpFacts.AcceptAcksSyn` |

## Left out

- The TUN device (src/lib.rs:41, 83; src/tcp.rs:169) is left out. Sending is an append to `Nic.sent`, and receiving is the segment handed to `Dispatch`. Device I/O errors, which the source propagates with `?`, are not modelled.
- IPv4/TCP header parsing, serialisation and checksums (`etherparse`, src/lib.rs:98-108, src/tcp.rs:110-118, 140-152) are foreign library calls and are left out. Segments are records. Emitted segments carry no addresses, ports or checksum.
- The protocol filter at src/lib.rs:102 is left out. As written it keeps only datagrams whose IP protocol number is 41 (`IPV6`) and drops every TCP datagram (protocol 6) before dispatch, so `Dispatch` is never reached for TCP. The model's `Dispatch` takes TCP segments as if the test were "protocol is TCP".
- Frame truncation assumes both headers are 20 bytes, without options. So a frame holds at most 1460 payload bytes.
- The mutex, condition variable, `Arc`, the packet thread, the `terminate` flag and `Drop for Interface` (src/lib.rs:18-24, 40-55, 300-311) are left out. Each table operation is one atomic method.
- Interface.ConnectionManager.Dispatch: a panic under the manager's lock is not modelled as poisoning it. Every panic the model returns as an outcome happens under that lock: `assert!` and `unimplemented!()` in `on_packet` (src/tcp.rs:231, 261) under the guard of src/lib.rs:112, the `expect` of `accept` (src/lib.rs:261), and the `expect` and `unimplemented!()` of `TcpListener`'s drop (src/lib.rs:292, 296). In the source the panic poisons the mutex, so every later `lock().unwrap()` (src/lib.rs:58, 167, 199, 223, 256, 287) panics too, and a panic in dispatch also ends the packet thread. In the model the manager keeps working after a `Panic` outcome, so a later `Bind`, `Accept`, `Read`, `Write`, `Flush` or `Dispatch` can still succeed. The same holds for `Interface.TcpListener.Accept` and `Interface.TcpListener.Drop`.
- Interface.TcpListener.Accept: models one pass of the loop. The wait on the condition variable is the "no result, no change" outcome, so the model does not state that a later notification leads to a retry.
- `TcpStream::shutdown` and `Drop for TcpStream` (src/lib.rs:243-283) are left out. They are `unimplemented!()` or do nothing.
- Logging and the unused fields `up`, `wl1` and `wl2` are left out. So is the template header's sequence and acknowledgment fields, which `write` overwrites before every use.
- src/main.rs and src/bin.rs are process entry points and are not part of this model.
- Received segments are assumed to fit the 1504-byte receive buffer (`WellFormed`). So `data.len() as u32` never truncates.
