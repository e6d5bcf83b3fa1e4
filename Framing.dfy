/**
  The four operations of the framing layer: the exact-transfer loops
  `read_exact` and `write_exact`, and `send_frame` / `recv_frame`, which put a
  4-byte big-endian length header in front of a payload and take it off
  again. Each thrown `std::runtime_error` becomes a `Failed` status whose tag
  names the message the source throws.

  Next to each operation is a reference outcome, defined one primitive call at
  a time from the number of bytes pending and the oracle's caps; each method's
  contract says it ends exactly as its reference outcome does, and the lemmas
  below say what those outcomes are.
 */
module Framing {
  import opened Wire
  import opened Stream

  datatype Error =
    | PeerDisconnected          // "peer disconnected": a receive or send returned 0
    | RecvFailed                // "recv failed": a receive returned a negative value
    | SendFailed                // "send failed": a send returned a negative value
    | PayloadTooLarge           // "payload too large": send_frame refused the payload
    | IncomingPayloadTooLarge   // "incoming payload too large": recv_frame refused the header

  datatype Status = Done | Failed(error: Error)

  /**
    How a run of primitive calls ended: its status, how many bytes it moved
    in all and the number of the first call after it.
   */
  datatype Transfer = Transfer(status: Status, moved: nat, next: nat)

  /** `t`, after `done` bytes had already been moved before it. */
  function After(done: nat, t: Transfer): (r: Transfer)
  {
    Transfer(t.status, done + t.moved, t.next)
  }

  // ----- read_exact -----

  /**
    The rest of `read_exact`'s loop for `n` bytes once `total` of them have
    moved, `available` bytes are still pending and the next `::recv` is call
    number `k`: a call that returns 0 ends it with "peer disconnected", a
    negative one with "recv failed", and a positive one moves that many bytes
    and the loop goes on.
   */
  function ReadRun(available: nat, limits: seq<int>, k: nat, n: nat, total: nat): (t: Transfer)
    decreases n - total
  {
    if n <= total then Transfer(Done, total, k)
    else
      var r := RecvReturn(available, limits, k, n - total);
      if r == 0 then Transfer(Failed(PeerDisconnected), total, k + 1)
      else if r < 0 then Transfer(Failed(RecvFailed), total, k + 1)
      else ReadRun(available - r, limits, k + 1, n, total + r)
  }

  /** Reference outcome of `read_exact` for `n` bytes, starting at call number `k`. */
  function ReadOutcome(available: nat, limits: seq<int>, k: nat, n: nat): (t: Transfer)
  {
    ReadRun(available, limits, k, n, 0)
  }

  /**
    A read ends in one of `read_exact`'s three ways, succeeds exactly when all
    `n` bytes moved, never moves more than was pending, and a failure is the
    outcome of a call it made.
   */
  lemma {:induction false} ReadRunShape(available: nat, limits: seq<int>, k: nat, n: nat, total: nat)
    requires total <= n
    ensures var t := ReadRun(available, limits, k, n, total);
      t.status in {Done, Failed(PeerDisconnected), Failed(RecvFailed)} &&
      (t.status == Done <==> t.moved == n) &&
      total <= t.moved <= n && t.moved <= total + available &&
      k <= t.next && (t.status.Failed? ==> k < t.next)
    decreases n - total
  {
    if total < n {
      var r := RecvReturn(available, limits, k, n - total);
      if r > 0 {
        ReadRunShape(available - r, limits, k + 1, n, total + r);
      }
    }
  }

  /** Over a stream that reports no error and no close, reading stops short only once the peer has sent everything. */
  lemma {:induction false} ReadRunReliable(available: nat, limits: seq<int>, k: nat, n: nat, total: nat)
    requires total <= n && ReliableFrom(limits, k)
    ensures var t := ReadRun(available, limits, k, n, total);
      (t.status == Done <==> n <= total + available) &&
      (t.status != Done ==> t.status == Failed(PeerDisconnected) && t.moved == total + available)
    decreases n - total
  {
    if total < n {
      var r := RecvReturn(available, limits, k, n - total);
      if r > 0 {
        ReadRunReliable(available - r, limits, k + 1, n, total + r);
      }
    }
  }

  /**
    Every call a read made before its last one had a positive cap or none,
    and so did the last one when the read succeeded.
   */
  lemma {:induction false} ReadRunPositive(available: nat, limits: seq<int>, k: nat, n: nat, total: nat)
    requires total <= n
    ensures var t := ReadRun(available, limits, k, n, total);
      PositiveBetween(limits, k, t.next - 1) &&
      (t.status == Done ==> PositiveBetween(limits, k, t.next))
    decreases n - total
  {
    if total < n {
      var r := RecvReturn(available, limits, k, n - total);
      if r > 0 {
        var t := ReadRun(available - r, limits, k + 1, n, total + r);
        ReadRunPositive(available - r, limits, k + 1, n, total + r);
        if t.status == Done {
          PositiveBetweenCons(limits, k, t.next);
        }
        PositiveBetweenCons(limits, k, t.next - 1);
      }
    }
  }

  /**
    Which call ended a failed read: a RecvFailed comes from a last call whose
    cap was negative, a PeerDisconnected from a last call whose cap was not
    negative and was zero or found nothing more pending.
   */
  lemma {:induction false} ReadRunLastCall(available: nat, limits: seq<int>, k: nat, n: nat, total: nat)
    requires total <= n
    ensures var t := ReadRun(available, limits, k, n, total);
      (t.status == Failed(RecvFailed) ==> 0 < t.next <= |limits| && limits[t.next - 1] < 0) &&
      (t.status == Failed(PeerDisconnected) ==>
         0 < t.next && (t.next <= |limits| ==> limits[t.next - 1] >= 0) &&
         ((t.next <= |limits| && limits[t.next - 1] == 0) || t.moved == total + available))
    decreases n - total
  {
    if total < n {
      var r := RecvReturn(available, limits, k, n - total);
      if r > 0 {
        ReadRunLastCall(available - r, limits, k + 1, n, total + r);
      }
    }
  }

  /**
    A close or an error no call reaches does not matter: a read whose next
    `n - total` calls all have positive caps (or none) completes once enough
    bytes are pending, since every call before the last moves at least one.
   */
  lemma {:induction false} ReadRunCompletes(available: nat, limits: seq<int>, k: nat, n: nat, total: nat)
    requires total <= n <= total + available
    requires PositiveBetween(limits, k, k + (n - total))
    ensures ReadRun(available, limits, k, n, total).status == Done
    decreases n - total
  {
    if total < n {
      var r := RecvReturn(available, limits, k, n - total);
      ReadRunCompletes(available - r, limits, k + 1, n, total + r);
    }
  }

  /**
    How a read of `n` bytes can end: with one of `read_exact`'s three
    outcomes, success exactly when all `n` bytes moved, never more than was
    pending, a failure only after at least one call; and over a stream that
    reports no error and no close, failing only once the peer has sent
    everything.
   */
  predicate ReadEnding(available: nat, limits: seq<int>, k: nat, n: nat, t: Transfer) {
    && t.status in {Done, Failed(PeerDisconnected), Failed(RecvFailed)}
    && t.moved <= n && t.moved <= available
    && (t.status == Done <==> t.moved == n)
    && k <= t.next && (t.status.Failed? ==> k < t.next)
    && (t.status == Failed(RecvFailed) ==> !ReliableFrom(limits, k))
    && (ReliableFrom(limits, k) ==>
          (t.status == Done <==> n <= available) &&
          (t.status.Failed? ==> t.moved == available))
  }

  lemma ReadOutcomeEnding(available: nat, limits: seq<int>, k: nat, n: nat)
    ensures ReadEnding(available, limits, k, n, ReadOutcome(available, limits, k, n))
  {
    ReadRunShape(available, limits, k, n, 0);
    ReadRunPositive(available, limits, k, n, 0);
    ReadRunLastCall(available, limits, k, n, 0);
    if ReliableFrom(limits, k) {
      ReadRunReliable(available, limits, k, n, 0);
    }
  }

  /**
    The first call of a read whose cap is zero or negative is its last: a
    zero cap ends it with PeerDisconnected, a negative one with RecvFailed.
   */
  lemma ReadOutcomeStops(available: nat, limits: seq<int>, k: nat, n: nat, j: nat)
    requires k <= j < ReadOutcome(available, limits, k, n).next
    requires j < |limits| && limits[j] <= 0
    ensures var t := ReadOutcome(available, limits, k, n);
      t.next == j + 1 &&
      (limits[j] == 0 ==> t.status == Failed(PeerDisconnected)) &&
      (limits[j] < 0 ==> t.status == Failed(RecvFailed))
  {
    ReadRunShape(available, limits, k, n, 0);
    ReadRunPositive(available, limits, k, n, 0);
    ReadRunLastCall(available, limits, k, n, 0);
  }

  /**
    A read succeeds exactly when `n` bytes were pending and none of the calls
    it made had a zero or negative cap: a close or an error announced for a
    later call is never reached.
   */
  lemma ReadOutcomeSucceeds(available: nat, limits: seq<int>, k: nat, n: nat)
    ensures var t := ReadOutcome(available, limits, k, n);
      t.status == Done <==> n <= available && PositiveBetween(limits, k, t.next)
  {
    ReadRunShape(available, limits, k, n, 0);
    ReadRunPositive(available, limits, k, n, 0);
    ReadRunLastCall(available, limits, k, n, 0);
  }

  // ----- write_exact -----

  /**
    The rest of `write_exact`'s loop for `n` bytes once `total` of them have
    moved and the next `::send` is call number `k`: a call that returns 0
    ends it with "peer disconnected", a negative one with "send failed", and a
    positive one moves that many bytes and the loop goes on.
   */
  function WriteRun(limits: seq<int>, k: nat, n: nat, total: nat): (t: Transfer)
    decreases n - total
  {
    if n <= total then Transfer(Done, total, k)
    else
      var w := SendReturn(limits, k, n - total);
      if w == 0 then Transfer(Failed(PeerDisconnected), total, k + 1)
      else if w < 0 then Transfer(Failed(SendFailed), total, k + 1)
      else WriteRun(limits, k + 1, n, total + w)
  }

  /** Reference outcome of `write_exact` for `n` bytes, starting at call number `k`. */
  function WriteOutcome(limits: seq<int>, k: nat, n: nat): (t: Transfer)
  {
    WriteRun(limits, k, n, 0)
  }

  /** A write ends in one of `write_exact`'s three ways, succeeds exactly when all `n` bytes moved, and a failure is the outcome of a call it made. */
  lemma {:induction false} WriteRunShape(limits: seq<int>, k: nat, n: nat, total: nat)
    requires total <= n
    ensures var t := WriteRun(limits, k, n, total);
      t.status in {Done, Failed(PeerDisconnected), Failed(SendFailed)} &&
      (t.status == Done <==> t.moved == n) &&
      total <= t.moved <= n &&
      k <= t.next && (t.status.Failed? ==> k < t.next)
    decreases n - total
  {
    if total < n {
      var w := SendReturn(limits, k, n - total);
      if w > 0 {
        WriteRunShape(limits, k + 1, n, total + w);
      }
    }
  }

  /**
    Every call a write made before its last one had a positive cap or none,
    and so did the last one when the write succeeded.
   */
  lemma {:induction false} WriteRunPositive(limits: seq<int>, k: nat, n: nat, total: nat)
    requires total <= n
    ensures var t := WriteRun(limits, k, n, total);
      PositiveBetween(limits, k, t.next - 1) &&
      (t.status == Done ==> PositiveBetween(limits, k, t.next))
    decreases n - total
  {
    if total < n {
      var w := SendReturn(limits, k, n - total);
      if w > 0 {
        var t := WriteRun(limits, k + 1, n, total + w);
        WriteRunPositive(limits, k + 1, n, total + w);
        if t.status == Done {
          PositiveBetweenCons(limits, k, t.next);
        }
        PositiveBetweenCons(limits, k, t.next - 1);
      }
    }
  }

  /**
    Which call ended a failed write: a SendFailed comes from a last call whose
    cap was negative, a PeerDisconnected from one whose cap was zero.
   */
  lemma {:induction false} WriteRunLastCall(limits: seq<int>, k: nat, n: nat, total: nat)
    requires total <= n
    ensures var t := WriteRun(limits, k, n, total);
      (t.status == Failed(SendFailed) ==> 0 < t.next <= |limits| && limits[t.next - 1] < 0) &&
      (t.status == Failed(PeerDisconnected) ==> 0 < t.next <= |limits| && limits[t.next - 1] == 0)
    decreases n - total
  {
    if total < n {
      var w := SendReturn(limits, k, n - total);
      if w > 0 {
        WriteRunLastCall(limits, k + 1, n, total + w);
      }
    }
  }

  /** A write whose next `n - total` calls all have positive caps (or none) completes. */
  lemma {:induction false} WriteRunCompletes(limits: seq<int>, k: nat, n: nat, total: nat)
    requires total <= n
    requires PositiveBetween(limits, k, k + (n - total))
    ensures WriteRun(limits, k, n, total).status == Done
    decreases n - total
  {
    if total < n {
      var w := SendReturn(limits, k, n - total);
      WriteRunCompletes(limits, k + 1, n, total + w);
    }
  }

  /**
    How a write of `n` bytes can end: with one of `write_exact`'s three
    outcomes, success exactly when all `n` bytes moved, a failure only after
    at least one call; over a stream that reports no error and no close,
    always with success.
   */
  predicate WriteEnding(limits: seq<int>, k: nat, n: nat, t: Transfer) {
    && t.status in {Done, Failed(PeerDisconnected), Failed(SendFailed)}
    && t.moved <= n
    && (t.status == Done <==> t.moved == n)
    && k <= t.next && (t.status.Failed? ==> k < t.next)
    && (t.status == Failed(SendFailed) ==> !ReliableFrom(limits, k))
    && (ReliableFrom(limits, k) ==> t.status == Done)
  }

  lemma WriteOutcomeEnding(limits: seq<int>, k: nat, n: nat)
    ensures WriteEnding(limits, k, n, WriteOutcome(limits, k, n))
  {
    WriteRunShape(limits, k, n, 0);
    WriteRunPositive(limits, k, n, 0);
    WriteRunLastCall(limits, k, n, 0);
  }

  /**
    The first call of a write whose cap is zero or negative is its last: a
    zero cap ends it with PeerDisconnected, a negative one with SendFailed.
   */
  lemma WriteOutcomeStops(limits: seq<int>, k: nat, n: nat, j: nat)
    requires k <= j < WriteOutcome(limits, k, n).next
    requires j < |limits| && limits[j] <= 0
    ensures var t := WriteOutcome(limits, k, n);
      t.next == j + 1 &&
      (limits[j] == 0 ==> t.status == Failed(PeerDisconnected)) &&
      (limits[j] < 0 ==> t.status == Failed(SendFailed))
  {
    WriteRunShape(limits, k, n, 0);
    WriteRunPositive(limits, k, n, 0);
    WriteRunLastCall(limits, k, n, 0);
  }

  /** A write succeeds exactly when none of the calls it made had a zero or negative cap. */
  lemma WriteOutcomeSucceeds(limits: seq<int>, k: nat, n: nat)
    ensures var t := WriteOutcome(limits, k, n);
      t.status == Done <==> PositiveBetween(limits, k, t.next)
  {
    WriteRunShape(limits, k, n, 0);
    WriteRunPositive(limits, k, n, 0);
    WriteRunLastCall(limits, k, n, 0);
  }

  // ----- send_frame / recv_frame -----

  /**
    Reference outcome of `send_frame` for a payload of `size` bytes: the bound
    check, then the header, then (unless it is empty) the payload.
   */
  function SendFrameOutcome(limits: seq<int>, k: nat, size: nat): (t: Transfer)
  {
    if !Fits(size) then Transfer(Failed(PayloadTooLarge), 0, k)
    else
      var h := WriteOutcome(limits, k, HeaderSize);
      if h.status.Failed? || size == 0 then h
      else After(HeaderSize, WriteOutcome(limits, h.next, size))
  }

  /**
    How sending a frame of a `size`-byte payload can end: refused without
    sending anything exactly when the payload is over the bound, successful
    exactly when the whole frame moved, and failing on a transfer only as
    `write_exact` does; over a stream that reports no error and no close, a
    payload within the bound is always sent.
   */
  predicate SendFrameEnding(limits: seq<int>, k: nat, size: nat, t: Transfer) {
    && t.status in {Done, Failed(PayloadTooLarge), Failed(PeerDisconnected), Failed(SendFailed)}
    && (t.status == Failed(PayloadTooLarge) <==> !Fits(size))
    && (!Fits(size) ==> t.moved == 0 && t.next == k)
    && (t.status == Done <==> Fits(size) && t.moved == HeaderSize + size)
    && t.moved <= HeaderSize + size
    && k <= t.next
    && (t.status == Failed(SendFailed) ==> !ReliableFrom(limits, k))
    && (ReliableFrom(limits, k) && Fits(size) ==> t.status == Done)
  }

  lemma SendFrameOutcomeEnding(limits: seq<int>, k: nat, size: nat)
    ensures SendFrameEnding(limits, k, size, SendFrameOutcome(limits, k, size))
  {
    if Fits(size) {
      var h := WriteOutcome(limits, k, HeaderSize);
      WriteOutcomeEnding(limits, k, HeaderSize);
      if h.status == Done && size > 0 {
        WriteOutcomeEnding(limits, h.next, size);
      }
    }
  }

  /**
    Reference outcome of `recv_frame` on the pending bytes: the header, the
    bound check on the length it announces, then (unless it is zero) the
    payload.
   */
  function RecvFrameOutcome(pending: seq<byte>, limits: seq<int>, k: nat): (t: Transfer)
  {
    var h := ReadOutcome(|pending|, limits, k, HeaderSize);
    ReadRunShape(|pending|, limits, k, HeaderSize, 0);
    if h.status.Failed? then h
    else
      var len := DecodeLength(pending[..HeaderSize]) as nat;
      if !Fits(len) then Transfer(Failed(IncomingPayloadTooLarge), HeaderSize, h.next)
      else if len == 0 then h
      else After(HeaderSize, ReadOutcome(|pending| - HeaderSize, limits, h.next, len))
  }

  /**
    How receiving a frame can end, in the terms of the reference parser: a
    success moves exactly one parsed frame; a refused header is an oversized
    one and moves only the header; a transfer failure stops inside the header
    or inside a payload within the bound; and over a stream that reports no
    error and no close the outcome is the parser's, a truncated frame
    draining what was pending.
   */
  predicate RecvFrameEnding(pending: seq<byte>, limits: seq<int>, k: nat, t: Transfer) {
    && t.status in {Done, Failed(PeerDisconnected), Failed(RecvFailed), Failed(IncomingPayloadTooLarge)}
    && t.moved <= |pending|
    && (t.status == Done ==> ParseFrame(pending).Parsed? && t.moved == |pending| - |ParseFrame(pending).rest|)
    && (t.status == Failed(IncomingPayloadTooLarge) ==> ParseFrame(pending) == Oversized && t.moved == HeaderSize)
    && (t.status == Failed(PeerDisconnected) || t.status == Failed(RecvFailed) ==>
          t.moved < HeaderSize ||
          (HeaderSize <= |pending| && Fits(DecodeLength(pending[..HeaderSize]) as nat) &&
           t.moved < HeaderSize + DecodeLength(pending[..HeaderSize]) as nat))
    && k <= t.next
    && (t.status == Failed(RecvFailed) ==> !ReliableFrom(limits, k))
    && (ReliableFrom(limits, k) ==>
          (ParseFrame(pending).Parsed? ==> t.status == Done) &&
          (ParseFrame(pending).Oversized? ==> t.status == Failed(IncomingPayloadTooLarge)) &&
          (ParseFrame(pending).Truncated? ==> t.status == Failed(PeerDisconnected) && t.moved == |pending|))
  }

  lemma RecvFrameOutcomeEnding(pending: seq<byte>, limits: seq<int>, k: nat)
    ensures RecvFrameEnding(pending, limits, k, RecvFrameOutcome(pending, limits, k))
  {
    var h := ReadOutcome(|pending|, limits, k, HeaderSize);
    ReadOutcomeEnding(|pending|, limits, k, HeaderSize);
    if h.status == Done {
      var len := DecodeLength(pending[..HeaderSize]) as nat;
      var body := pending[HeaderSize..];
      assert ParseFrame(pending) == ParseBody(len, body);
      if Fits(len) && len > 0 {
        ReadOutcomeEnding(|body|, limits, h.next, len);
      }
    }
  }

  // ----- the operations -----

  /**
    `read_exact`: receives until exactly `n` bytes are stored at `buf[..n]`.
    The bytes taken off the stream are always a prefix of what was pending,
    never more than `n`, and they are exactly the bytes in `buf` so far.
   */
  method ReadExact(sock: Socket, buf: array<byte>, n: nat) returns (status: Status)
    requires n <= buf.Length
    modifies sock, buf
    ensures SuffixOf(sock.inbox, old(sock.inbox))
    ensures ReadOutcome(|old(sock.inbox)|, sock.recvLimits, old(sock.recvCalls), n) ==
            Transfer(status, |old(sock.inbox)| - |sock.inbox|, sock.recvCalls)
    ensures ReadEnding(|old(sock.inbox)|, sock.recvLimits, old(sock.recvCalls), n,
                       Transfer(status, |old(sock.inbox)| - |sock.inbox|, sock.recvCalls))
    ensures buf[..|old(sock.inbox)| - |sock.inbox|] == old(sock.inbox)[..|old(sock.inbox)| - |sock.inbox|]
    ensures forall i :: |old(sock.inbox)| - |sock.inbox| <= i < buf.Length ==> buf[i] == old(buf[i])
    ensures buf[n..] == old(buf[n..])
    ensures sock.outbox == old(sock.outbox) && sock.sendCalls == old(sock.sendCalls)
  {
    ReadOutcomeEnding(|sock.inbox|, sock.recvLimits, sock.recvCalls, n);
    status := Done;
    var total: nat := 0;
    while total < n
      invariant total <= n && total <= |old(sock.inbox)|
      invariant sock.inbox == old(sock.inbox)[total..]
      invariant old(sock.recvCalls) <= sock.recvCalls
      invariant ReadOutcome(|old(sock.inbox)|, sock.recvLimits, old(sock.recvCalls), n) ==
                ReadRun(|sock.inbox|, sock.recvLimits, sock.recvCalls, n, total)
      invariant buf[..total] == old(sock.inbox)[..total]
      invariant forall i :: total <= i < buf.Length ==> buf[i] == old(buf[i])
      invariant sock.outbox == old(sock.outbox) && sock.sendCalls == old(sock.sendCalls)
      decreases n - total
    {
      var r := ReadStep(sock, buf, n, total, old(sock.inbox));
      if r == 0 {
        return Failed(PeerDisconnected);
      }
      if r < 0 {
        return Failed(RecvFailed);
      }
      total := total + r;
    }
  }

  /**
    One pass of `read_exact`'s loop: a `::recv` of the `n - total` bytes still
    missing into `buf + total`, and what it does to the reference run.
   */
  method ReadStep(sock: Socket, buf: array<byte>, n: nat, total: nat, ghost wire: seq<byte>) returns (r: int)
    requires total < n <= buf.Length && total <= |wire|
    requires sock.inbox == wire[total..] && buf[..total] == wire[..total]
    modifies sock, buf
    ensures r <= 0 ==> ReadRun(|old(sock.inbox)|, sock.recvLimits, old(sock.recvCalls), n, total) ==
                       Transfer(if r == 0 then Failed(PeerDisconnected) else Failed(RecvFailed), total, sock.recvCalls)
    ensures r <= 0 ==> sock.inbox == old(sock.inbox) && buf[..total] == wire[..total]
    ensures r > 0 ==> total + r <= n && total + r <= |wire| && sock.inbox == wire[total + r..] && buf[..total + r] == wire[..total + r]
    ensures r > 0 ==> ReadRun(|old(sock.inbox)|, sock.recvLimits, old(sock.recvCalls), n, total) ==
                      ReadRun(|sock.inbox|, sock.recvLimits, sock.recvCalls, n, total + r)
    ensures sock.recvCalls == old(sock.recvCalls) + 1
    ensures forall i :: total + (if r > 0 then r else 0) <= i < buf.Length ==> buf[i] == old(buf[i])
    ensures sock.outbox == old(sock.outbox) && sock.sendCalls == old(sock.sendCalls)
  {
    ghost var before := buf[..];
    r := sock.Recv(buf, total, n - total);
    assert buf[..total] == before[..total];
    if r > 0 {
      PrefixGrows(buf[..], wire, total, r);
    }
  }

  /** Filling `buf[total..total + r]` with the next bytes of `wire` extends the matching prefix. */
  lemma PrefixGrows(buf: seq<byte>, wire: seq<byte>, total: nat, r: nat)
    requires total + r <= |buf| && total + r <= |wire|
    requires buf[..total] == wire[..total] && buf[total..total + r] == wire[total..][..r]
    ensures buf[..total + r] == wire[..total + r]
  {
    assert buf[..total + r] == buf[..total] + buf[total..total + r];
    assert wire[..total + r] == wire[..total] + wire[total..][..r];
  }

  /**
    `write_exact`: sends until the first `n` bytes of `data` have been accepted.
    What the stack accepted is always a prefix of `data[..n]`, in order.
   */
  method WriteExact(sock: Socket, data: seq<byte>, n: nat) returns (status: Status)
    requires n <= |data|
    modifies sock
    ensures ExtendedByPrefix(sock.outbox, old(sock.outbox), data[..n])
    ensures WriteOutcome(sock.sendLimits, old(sock.sendCalls), n) ==
            Transfer(status, |sock.outbox| - |old(sock.outbox)|, sock.sendCalls)
    ensures WriteEnding(sock.sendLimits, old(sock.sendCalls), n,
                        Transfer(status, |sock.outbox| - |old(sock.outbox)|, sock.sendCalls))
    ensures sock.inbox == old(sock.inbox) && sock.recvCalls == old(sock.recvCalls)
  {
    WriteOutcomeEnding(sock.sendLimits, sock.sendCalls, n);
    status := Done;
    var total: nat := 0;
    while total < n
      invariant total <= n
      invariant sock.outbox == old(sock.outbox) + data[..total]
      invariant old(sock.sendCalls) <= sock.sendCalls
      invariant WriteOutcome(sock.sendLimits, old(sock.sendCalls), n) ==
                WriteRun(sock.sendLimits, sock.sendCalls, n, total)
      invariant sock.inbox == old(sock.inbox) && sock.recvCalls == old(sock.recvCalls)
      decreases n - total
    {
      var w := sock.Send(data, total, n - total);
      if w == 0 {
        return Failed(PeerDisconnected);
      }
      if w < 0 {
        return Failed(SendFailed);
      }
      assert data[..total + w] == data[..total] + data[total..total + w];
      total := total + w;
    }
  }

  /**
    `send_frame`: refuses a payload over MaxPayload before writing anything,
    otherwise writes the header and then, unless it is empty, the payload.
   */
  method SendFrame(sock: Socket, payload: seq<byte>) returns (status: Status)
    modifies sock
    ensures |old(sock.outbox)| <= |sock.outbox|
    ensures SendFrameOutcome(sock.sendLimits, old(sock.sendCalls), |payload|) ==
            Transfer(status, |sock.outbox| - |old(sock.outbox)|, sock.sendCalls)
    ensures SendFrameEnding(sock.sendLimits, old(sock.sendCalls), |payload|,
                            Transfer(status, |sock.outbox| - |old(sock.outbox)|, sock.sendCalls))
    ensures !Fits(|payload|) ==> sock.outbox == old(sock.outbox)
    ensures Fits(|payload|) ==> ExtendedByPrefix(sock.outbox, old(sock.outbox), Frame(payload))
    ensures status == Done ==> sock.outbox == old(sock.outbox) + Frame(payload)
    ensures status == Done && |payload| == 0 ==> sock.outbox == old(sock.outbox) + [0, 0, 0, 0]
    ensures sock.inbox == old(sock.inbox) && sock.recvCalls == old(sock.recvCalls)
  {
    SendFrameOutcomeEnding(sock.sendLimits, sock.sendCalls, |payload|);
    if !Fits(|payload|) {
      return Failed(PayloadTooLarge);
    }
    var len := |payload| as u32;
    var header := EncodeLength(len);
    ghost var before := sock.outbox;
    status := WriteExact(sock, header, HeaderSize);
    assert header[..HeaderSize] == header;
    if status.Failed? {
      ExtendedByPrefixAppend(sock.outbox, before, header, payload);
      return;
    }
    ghost var mid := sock.outbox;
    if |payload| > 0 {
      status := WriteExact(sock, payload, |payload|);
      assert payload[..|payload|] == payload;
      ExtendedByPrefixChain(sock.outbox, mid, before, header, payload);
    } else {
      EmptyFrame();
    }
  }

  /**
    `recv_frame`: reads the header, refuses a length over MaxPayload before
    reading any payload byte, otherwise reads exactly that many bytes.
   */
  method RecvFrame(sock: Socket) returns (status: Status, payload: seq<byte>)
    modifies sock
    ensures SuffixOf(sock.inbox, old(sock.inbox))
    ensures RecvFrameOutcome(old(sock.inbox), sock.recvLimits, old(sock.recvCalls)) ==
            Transfer(status, |old(sock.inbox)| - |sock.inbox|, sock.recvCalls)
    ensures RecvFrameEnding(old(sock.inbox), sock.recvLimits, old(sock.recvCalls),
                            Transfer(status, |old(sock.inbox)| - |sock.inbox|, sock.recvCalls))
    ensures status == Done ==> ParseFrame(old(sock.inbox)) == Parsed(payload, sock.inbox)
    ensures status.Failed? ==> payload == []
    ensures sock.outbox == old(sock.outbox) && sock.sendCalls == old(sock.sendCalls)
  {
    RecvFrameOutcomeEnding(sock.inbox, sock.recvLimits, sock.recvCalls);
    ghost var wire := sock.inbox;
    var header := new byte[HeaderSize];
    status := ReadExact(sock, header, HeaderSize);
    if status.Failed? {
      return status, [];
    }
    assert header[..] == wire[..HeaderSize];
    ghost var body := sock.inbox;
    assert body == wire[HeaderSize..];
    var len := DecodeLength(header[..]);
    if !Fits(len as nat) {
      return Failed(IncomingPayloadTooLarge), [];
    }
    var buf := new byte[len](_ => 0);
    if len > 0 {
      status := ReadExact(sock, buf, len as nat);
      if status.Failed? {
        SuffixOfTrans(sock.inbox, body, wire);
        return status, [];
      }
    }
    payload := buf[..];
    assert payload == body[..len] && sock.inbox == body[len..];
    assert ParseFrame(wire) == ParseBody(len as nat, body);
    SuffixOfTrans(sock.inbox, body, wire);
  }
}
