/** Arithmetic on the circular 32-bit sequence-number space and the segment
    acceptability test of section 3.3 of RFC 793 (src/tcp.rs:268-299). */
module SeqSpace {
  import opened Common

  const Modulus: int := 0x1_0000_0000

  /** `u32::wrapping_add`. */
  function WrappingAdd(a: uint32, b: uint32): uint32
  {
    if a + b < Modulus then a + b else a + b - Modulus
  }

  /** `u32::wrapping_sub`: how far `b` must advance to reach `a`. */
  function WrappingSub(a: uint32, b: uint32): uint32
  {
    if b <= a then a - b else a - b + Modulus
  }

  /** `x` lies strictly inside the circular interval that runs from `start`
      forward to `end`; both ends are excluded. */
  function IsBetweenWrapped(start: uint32, x: uint32, end: uint32): (b: bool)
    ensures b <==> 0 < (x - start) % Modulus < (end - start) % Modulus
  {
    x != start && WrappingSub(end, start) > WrappingSub(x, start)
  }

  /** `val` lies in the half-open circular range `[start, end)`, provided
      the range is shorter than the whole circle less one. */
  function SeqInWindow(start: uint32, end: uint32, val: uint32): (b: bool)
    ensures (end - start) % Modulus < Modulus - 1 ==>
      (b <==> (val - start) % Modulus < (end - start) % Modulus)
  {
    IsBetweenWrapped(WrappingSub(start, 1), val, end)
  }

  /** `v` is one of the `wnd` sequence numbers starting at `nxt`, counted
      around the circle: the reference reading of "`nxt <= v < nxt + wnd`". */
  predicate InWindow(nxt: uint32, wnd: int, v: uint32)
  {
    (v - nxt) % Modulus < wnd
  }

  /** Adding `k` and then measuring the distance back gives `k`. */
  lemma AddThenSub(a: uint32, k: uint32)
    ensures WrappingSub(WrappingAdd(a, k), a) == k
  {
  }

  /** Distances are unchanged when both ends are shifted by the same amount. */
  lemma SubShifted(a: uint32, b: uint32, k: uint32)
    ensures WrappingSub(WrappingAdd(a, k), WrappingAdd(b, k)) == WrappingSub(a, b)
  {
  }

  /** Rotating the whole circle by `k` does not change the answer. */
  lemma IsBetweenWrappedRotation(start: uint32, x: uint32, end: uint32, k: uint32)
    ensures IsBetweenWrapped(WrappingAdd(start, k), WrappingAdd(x, k), WrappingAdd(end, k))
        == IsBetweenWrapped(start, x, end)
  {
    SubShifted(x, start, k);
    SubShifted(end, start, k);
  }

  /** Neither end of the interval is inside it. */
  lemma IsBetweenWrappedOpenEnds(start: uint32, end: uint32)
    ensures !IsBetweenWrapped(start, start, end)
    ensures !IsBetweenWrapped(start, end, end)
  {
  }

  /** The successor of `start` is inside `(start, start + k)` exactly when
      `k >= 2`: the interval is open at its upper end. */
  lemma IsBetweenWrappedSuccessor(start: uint32, k: uint32)
    ensures IsBetweenWrapped(start, WrappingAdd(start, 1), WrappingAdd(start, k)) <==> k >= 2
  {
    AddThenSub(start, 1);
    AddThenSub(start, k);
  }

  /** Whenever the range is shorter than the whole circle less one,
      `SeqInWindow` is membership in the half-open range `[start, end)`. */
  lemma SeqInWindowHalfOpen(start: uint32, end: uint32, val: uint32)
    requires WrappingSub(end, start) < Modulus - 1
    ensures SeqInWindow(start, end, val) <==> WrappingSub(val, start) < WrappingSub(end, start)
  {
  }

  /** A range whose end is one before its start should hold all but one
      number, but `SeqInWindow` holds for none of them. */
  lemma SeqInWindowLongestRangeEmpty(start: uint32, val: uint32)
    ensures !SeqInWindow(start, WrappingSub(start, 1), val)
  {
  }

  /** `InWindow` measured with `WrappingSub`. */
  lemma InWindowDistance(nxt: uint32, wnd: int, v: uint32)
    ensures InWindow(nxt, wnd, v) <==> WrappingSub(v, nxt) < wnd
  {
  }

  /** `SegmentValid`'s window test, once the window end is computed, is
      membership in the `wnd` numbers starting at `nxt`. */
  lemma SeqInWindowOfReceiveWindow(nxt: uint32, wnd: uint16, v: uint32)
    ensures SeqInWindow(nxt, WrappingAdd(nxt, wnd), v) <==> InWindow(nxt, wnd, v)
  {
    AddThenSub(nxt, wnd);
    SeqInWindowHalfOpen(nxt, WrappingAdd(nxt, wnd), v);
    InWindowDistance(nxt, wnd, v);
  }

  /** The acceptability test: may a segment of sequence-consuming length
      `slen` that starts at `seqn` be taken in by a receiver that expects
      `recvNxt` and advertises `recvWnd`? Its contract is the four-row table
      of section 3.3 of RFC 793, with "in the window" read as `InWindow`. */
  function SegmentValid(recvNxt: uint32, recvWnd: uint16, seqn: uint32, slen: uint32): (ok: bool)
    ensures slen == 0 && recvWnd == 0 ==> (ok <==> seqn == recvNxt)
    ensures slen == 0 && recvWnd > 0 ==> (ok <==> InWindow(recvNxt, recvWnd, seqn))
    ensures slen > 0 && recvWnd == 0 ==> !ok
    ensures slen > 0 && recvWnd > 0 ==>
      (ok <==> InWindow(recvNxt, recvWnd, seqn) || InWindow(recvNxt, recvWnd, WrappingAdd(seqn, slen - 1)))
  {
    var wend := WrappingAdd(recvNxt, recvWnd);
    if slen == 0 then
      if recvWnd == 0 then seqn == recvNxt
      else
        SeqInWindowOfReceiveWindow(recvNxt, recvWnd, seqn);
        SeqInWindow(recvNxt, wend, seqn)
    else
      if recvWnd == 0 then false
      else
        SeqInWindowOfReceiveWindow(recvNxt, recvWnd, seqn);
        SeqInWindowOfReceiveWindow(recvNxt, recvWnd, WrappingAdd(seqn, slen - 1));
        SeqInWindow(recvNxt, wend, seqn) || SeqInWindow(recvNxt, wend, WrappingAdd(seqn, slen - 1))
  }

  /** Five sample points of the table around an arbitrary `n`. */
  lemma SegmentValidSamples(n: uint32)
    ensures SegmentValid(n, 0, n, 0)
    ensures !SegmentValid(n, 0, WrappingAdd(n, 1), 0)
    ensures SegmentValid(n, 100, WrappingAdd(n, 50), 0)
    ensures !SegmentValid(n, 100, WrappingAdd(n, 150), 0)
    ensures !SegmentValid(n, 0, n, 5)
  {
  }

  /** The ACK window used during the handshake, `(una - 1, nxt + 1)`, takes
      exactly the acknowledgment numbers from `una` to `nxt` inclusive. */
  lemma HandshakeAckWindow(una: uint32, nxt: uint32, ackn: uint32)
    requires WrappingSub(nxt, una) < Modulus - 2
    ensures IsBetweenWrapped(WrappingSub(una, 1), ackn, WrappingAdd(nxt, 1))
        <==> WrappingSub(ackn, una) <= WrappingSub(nxt, una)
  {
  }

  /** The ACK window used once established, `(una, nxt + 1)`, takes exactly
      the acknowledgment numbers after `una` up to `nxt` inclusive; so it is
      one narrower than the handshake window, at its lower end. */
  lemma SteadyAckWindow(una: uint32, nxt: uint32, ackn: uint32)
    requires WrappingSub(nxt, una) < Modulus - 1
    ensures IsBetweenWrapped(una, ackn, WrappingAdd(nxt, 1))
        <==> 0 < WrappingSub(ackn, una) <= WrappingSub(nxt, una)
  {
  }
}
