/**
  Callers of the framing layer that connect a sending end to a receiving end:
  the bytes one socket's stack accepted become the bytes the other has
  pending. What they prove follows from the contracts of SendFrame and
  RecvFrame and the lemmas about the wire format alone.
 */
module Loopback {
  import opened Wire
  import opened Stream
  import opened Framing

  /**
    Over a connection that reports no error and no close, a payload within the
    bound is received intact, and exactly its 4 + |payload| bytes are taken
    off the stream: whatever the peer sent after it is left pending.
   */
  method RoundTrip(payload: seq<byte>, later: seq<byte>, sendLimits: seq<int>, recvLimits: seq<int>)
    returns (sent: Status, received: Status, got: seq<byte>, left: seq<byte>)
    requires Fits(|payload|)
    requires ReliableFrom(sendLimits, 0) && ReliableFrom(recvLimits, 0)
    ensures sent == Done && received == Done
    ensures got == payload && left == later
  {
    var tx := new Socket([], [], sendLimits);
    sent := SendFrame(tx, payload);
    var rx := new Socket(tx.outbox + later, recvLimits, []);
    ParseFrameOfFrame(payload, later);
    received, got := RecvFrame(rx);
    left := rx.inbox;
  }

  /** `ps` sent one frame after another; the first failure ends the batch. */
  method SendFrames(tx: Socket, ps: seq<seq<byte>>) returns (status: Status)
    requires AllFit(ps)
    modifies tx
    ensures status == Done ==> tx.outbox == old(tx.outbox) + Frames(ps)
    ensures ReliableFrom(tx.sendLimits, old(tx.sendCalls)) ==> status == Done
    ensures tx.inbox == old(tx.inbox) && tx.recvCalls == old(tx.recvCalls)
  {
    status := Done;
    var i := 0;
    while i < |ps|
      invariant 0 <= i <= |ps| && AllFit(ps[..i])
      invariant tx.outbox == old(tx.outbox) + Frames(ps[..i])
      invariant ReliableFrom(tx.sendLimits, old(tx.sendCalls)) ==> tx.SendReliable()
      invariant tx.inbox == old(tx.inbox) && tx.recvCalls == old(tx.recvCalls)
    {
      var s := SendFrame(tx, ps[i]);
      if s.Failed? {
        return s;
      }
      assert ps[..i + 1] == ps[..i] + [ps[i]];
      assert Frames([ps[i]]) == Frame(ps[i]);
      FramesAppend(ps[..i], [ps[i]]);
      i := i + 1;
    }
    assert ps[..i] == ps;
  }

  /** The reference reading of frames, with `got` read before it. */
  function Prefixed(got: seq<seq<byte>>, r: Received): (q: Received)
  {
    match r
    case Received(ps, rest) => Received(got + ps, rest)
    case Stuck => Stuck
  }

  /** One frame received, in the terms of the reference parser alone. */
  method RecvNext(rx: Socket) returns (status: Status, payload: seq<byte>)
    modifies rx
    ensures status == Done ==> ParseFrame(old(rx.inbox)) == Parsed(payload, rx.inbox)
    ensures ReliableFrom(rx.recvLimits, old(rx.recvCalls)) && ParseFrame(old(rx.inbox)).Parsed? ==>
              status == Done
    ensures ReliableFrom(rx.recvLimits, old(rx.recvCalls)) ==> rx.RecvReliable()
    ensures rx.outbox == old(rx.outbox) && rx.sendCalls == old(rx.sendCalls)
  {
    status, payload := RecvFrame(rx);
  }

  /** `count` frames received one after another; the first failure ends the batch. */
  method RecvFrames(rx: Socket, count: nat) returns (status: Status, got: seq<seq<byte>>)
    modifies rx
    ensures status == Done ==> ParseFrames(old(rx.inbox), count) == Received(got, rx.inbox)
    ensures ReliableFrom(rx.recvLimits, old(rx.recvCalls)) && ParseFrames(old(rx.inbox), count).Received? ==>
              status == Done
    ensures rx.outbox == old(rx.outbox) && rx.sendCalls == old(rx.sendCalls)
  {
    status, got := Done, [];
    var i := 0;
    while i < count
      invariant 0 <= i <= count
      invariant ParseFrames(old(rx.inbox), count) == Prefixed(got, ParseFrames(rx.inbox, count - i))
      invariant ReliableFrom(rx.recvLimits, old(rx.recvCalls)) ==> rx.RecvReliable()
      invariant rx.outbox == old(rx.outbox) && rx.sendCalls == old(rx.sendCalls)
    {
      ghost var before := rx.inbox;
      PrefixedReceived(got, ParseFrames(before, count - i));
      if ParseFrames(before, count - i).Received? {
        ParseFramesHead(before, count - i);
      }
      var s, p := RecvNext(rx);
      if s.Failed? {
        return s, got;
      }
      ReadOneMore(old(rx.inbox), count, got, before, p, rx.inbox, count - i);
      got := got + [p];
      i := i + 1;
    }
    PrefixedNone(got, rx.inbox);
  }

  /** Once `got` has been read on the way to `total` frames, reading one more frame `p` extends it. */
  lemma ReadOneMore(wire: seq<byte>, total: nat, got: seq<seq<byte>>,
                    before: seq<byte>, p: seq<byte>, after: seq<byte>, count: nat)
    requires ParseFrames(wire, total) == Prefixed(got, ParseFrames(before, count))
    requires 0 < count && ParseFrame(before) == Parsed(p, after)
    ensures ParseFrames(wire, total) == Prefixed(got + [p], ParseFrames(after, count - 1))
  {
    ParseFramesStep(before, p, after, count);
    PrefixedAppend(got, p, ParseFrames(after, count - 1));
  }

  /** Reading `count` frames reads a first one. */
  lemma ParseFramesHead(wire: seq<byte>, count: nat)
    requires 0 < count && ParseFrames(wire, count).Received?
    ensures ParseFrame(wire).Parsed?
  {
  }

  /** Reading `count` frames is reading the first one, then `count - 1` more. */
  lemma ParseFramesStep(wire: seq<byte>, p: seq<byte>, rest: seq<byte>, count: nat)
    requires 0 < count && ParseFrame(wire) == Parsed(p, rest)
    ensures ParseFrames(wire, count) == Prefixed([p], ParseFrames(rest, count - 1))
  {
  }

  /** Reading frames before a reading does not change whether it gets stuck. */
  lemma PrefixedReceived(got: seq<seq<byte>>, r: Received)
    ensures Prefixed(got, r).Received? <==> r.Received?
  {
  }

  /** Nothing read after `got` leaves `got`. */
  lemma PrefixedNone(got: seq<seq<byte>>, rest: seq<byte>)
    ensures Prefixed(got, Received([], rest)) == Received(got, rest)
  {
    assert got + [] == got;
  }

  lemma PrefixedAppend(got: seq<seq<byte>>, p: seq<byte>, r: Received)
    ensures Prefixed(got, Prefixed([p], r)) == Prefixed(got + [p], r)
  {
    if r.Received? {
      assert got + ([p] + r.payloads) == (got + [p]) + r.payloads;
    }
  }

  /**
    Any number of frames sent one after the other over a reliable connection
    are received in the order they were sent, and what the peer sent after
    them is left pending.
   */
  method InOrder(ps: seq<seq<byte>>, later: seq<byte>, sendLimits: seq<int>, recvLimits: seq<int>)
    returns (got: seq<seq<byte>>, left: seq<byte>)
    requires AllFit(ps)
    requires ReliableFrom(sendLimits, 0) && ReliableFrom(recvLimits, 0)
    ensures got == ps && left == later
  {
    var tx := new Socket([], [], sendLimits);
    var sent := SendFrames(tx, ps);
    assert tx.outbox == Frames(ps);
    var rx := new Socket(tx.outbox + later, recvLimits, []);
    ParseFramesOfFrames(ps, later);
    var received;
    received, got := RecvFrames(rx, |ps|);
    left := rx.inbox;
  }

  /** The peer closes after 2 of the 4 header bytes: the receive fails with PeerDisconnected. */
  method DisconnectMidHeader(start: seq<byte>) returns (status: Status, payload: seq<byte>)
    requires |start| == 2
    ensures status == Failed(PeerDisconnected) && payload == []
  {
    var rx := new Socket(start, [], []);
    status, payload := RecvFrame(rx);
  }

  /**
    A header announcing 100 bytes followed by only 40 before the peer closes:
    the receive fails with PeerDisconnected after taking all 44 bytes.
   */
  method DisconnectMidPayload(body: seq<byte>) returns (status: Status, took: nat)
    requires |body| == 40
    ensures status == Failed(PeerDisconnected) && took == HeaderSize + 40
  {
    var rx := new Socket(EncodeLength(100) + body, [], []);
    assert (EncodeLength(100) + body)[..HeaderSize] == EncodeLength(100);
    DecodeEncode(100);
    var payload;
    status, payload := RecvFrame(rx);
    took := |EncodeLength(100) + body| - |rx.inbox|;
  }

  /**
    A header announcing one byte more than the bound: the receive fails with
    IncomingPayloadTooLarge and takes nothing past the header.
   */
  method OversizedHeader(body: seq<byte>) returns (status: Status, left: seq<byte>)
    ensures status == Failed(IncomingPayloadTooLarge) && left == body
  {
    var rx := new Socket(EncodeLength((MaxPayload + 1) as u32) + body, [], []);
    assert (EncodeLength((MaxPayload + 1) as u32) + body)[..HeaderSize] == EncodeLength((MaxPayload + 1) as u32);
    DecodeEncode((MaxPayload + 1) as u32);
    var payload;
    status, payload := RecvFrame(rx);
    left := rx.inbox;
  }

  /**
    The first receive is refused with a close: the frame fails with
    PeerDisconnected before anything is taken, however much is pending.
   */
  method ClosedAtFirstCall(pending: seq<byte>) returns (status: Status, left: seq<byte>)
    ensures status == Failed(PeerDisconnected) && left == pending
  {
    var rx := new Socket(pending, [0], []);
    var payload;
    status, payload := RecvFrame(rx);
    left := rx.inbox;
  }

  /**
    A receive that moves 2 header bytes and then one that reports an error:
    the frame fails with RecvFailed even though the whole header was pending,
    and only those 2 bytes are taken.
   */
  method ErrorMidHeader(pending: seq<byte>) returns (status: Status, left: seq<byte>)
    requires HeaderSize <= |pending|
    ensures status == Failed(RecvFailed) && left == pending[2..]
  {
    var rx := new Socket(pending, [2, -1], []);
    var payload;
    status, payload := RecvFrame(rx);
    left := rx.inbox;
  }

  /**
    A close announced for the second receive is never reached when the first
    one brings the whole header of an empty frame: the receive succeeds.
   */
  method CloseNotReached(later: seq<byte>) returns (status: Status, payload: seq<byte>, left: seq<byte>)
    ensures status == Done && payload == [] && left == later
  {
    var rx := new Socket(Frame([]) + later, [5, 0], []);
    ParseFrameOfFrame([], later);
    status, payload := RecvFrame(rx);
    left := rx.inbox;
  }

  /**
    A send that takes the whole header and then one that reports an error:
    the frame fails with SendFailed and only the header was emitted.
   */
  method ErrorAfterHeader(payload: seq<byte>) returns (status: Status, sent: seq<byte>)
    requires 0 < |payload| && Fits(|payload|)
    ensures status == Failed(SendFailed) && sent == EncodeLength(|payload| as u32)
  {
    var tx := new Socket([], [], [4, -1]);
    status := SendFrame(tx, payload);
    sent := tx.outbox;
    assert Frame(payload)[..HeaderSize] == EncodeLength(|payload| as u32);
  }

  /**
    Two bytes pending and then the peer's close, read into a buffer of four
    7s: the read fails with PeerDisconnected, the two bytes are stored at the
    front and the cells the read never reached keep their old contents.
   */
  method ShortReadKeepsBuffer() returns (status: Status, contents: seq<byte>)
    ensures status == Failed(PeerDisconnected) && contents == [1, 2, 7, 7]
  {
    var rx := new Socket([1, 2], [], []);
    var buf := new byte[4](_ => 7);
    status := ReadExact(rx, buf, 4);
    contents := buf[..];
    assert contents[..2] == [1, 2] && contents[2] == 7 && contents[3] == 7;
  }
}
