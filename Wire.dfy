/**
  The wire format of one frame: a 4-byte big-endian (network byte order)
  unsigned length header followed by exactly that many payload bytes.
  Everything here is pure: the header codec, the size bound shared by the
  sending and the receiving side, the byte image of a frame and a reference
  parser that reads frames back from a byte sequence.
 */
module Wire {

  newtype byte = x: int | 0 <= x < 0x100

  /** The width of the length header (`uint32_t` in the source). */
  newtype u32 = x: int | 0 <= x < 0x1_0000_0000

  /** Number of bytes of the length header, `sizeof(uint32_t)`. */
  const HeaderSize: nat := 4

  /** The 10 MiB bound both directions enforce on a payload. */
  const MaxPayload: nat := 10 * 1024 * 1024

  /** The bound check, used before sending and after reading a header. */
  predicate Fits(size: nat) {
    size <= MaxPayload
  }

  /** The bound is inclusive: a payload of exactly 10 MiB fits, one byte more does not. */
  lemma FitsBoundary()
    ensures MaxPayload == 10_485_760 && Fits(MaxPayload) && !Fits(MaxPayload + 1)
  {
  }

  /** `htonl`: the four bytes of `x`, most significant first. */
  function EncodeLength(x: u32): (h: seq<byte>)
    ensures |h| == HeaderSize
  {
    var v := x as int;
    [(v / 0x100_0000) as byte,
     (v / 0x1_0000 % 0x100) as byte,
     (v / 0x100 % 0x100) as byte,
     (v % 0x100) as byte]
  }

  /** `ntohl`: the number whose big-endian bytes are `h`. */
  function DecodeLength(h: seq<byte>): (x: u32)
    requires |h| == HeaderSize
    ensures x as int / 0x100_0000 == h[0] as int && x as int % 0x100 == h[3] as int
  {
    var hi := h[0] as int * 0x100 + h[1] as int;
    var v := ((hi * 0x100 + h[2] as int) * 0x100 + h[3] as int);
    assert v / 0x100_0000 == v / 0x100 / 0x100 / 0x100 == h[0] as int;
    v as u32
  }

  /** Decoding undoes encoding. */
  lemma DecodeEncode(x: u32)
    ensures DecodeLength(EncodeLength(x)) == x
  {
    var v := x as int;
    var a, b, c, d := v / 0x100_0000, v / 0x1_0000 % 0x100, v / 0x100 % 0x100, v % 0x100;
    assert v == (v / 0x100) * 0x100 + d;
    assert v / 0x100 == (v / 0x1_0000) * 0x100 + c;
    assert v / 0x1_0000 == a * 0x100 + b;
  }

  /** Encoding undoes decoding: every 4-byte header is the encoding of exactly one length. */
  lemma EncodeDecode(h: seq<byte>)
    requires |h| == HeaderSize
    ensures EncodeLength(DecodeLength(h)) == h
  {
    var v := DecodeLength(h) as int;
    var hi := h[0] as int * 0x100 + h[1] as int;
    var mid := hi * 0x100 + h[2] as int;
    assert v == mid * 0x100 + h[3] as int;
    assert v % 0x100 == h[3] as int && v / 0x100 == mid;
    assert mid % 0x100 == h[2] as int && mid / 0x100 == hi;
    assert hi % 0x100 == h[1] as int && hi / 0x100 == h[0] as int;
    assert v / 0x1_0000 == hi;
    assert v / 0x100_0000 == h[0] as int;
    var e := EncodeLength(DecodeLength(h));
    assert e[0] == h[0] && e[1] == h[1] && e[2] == h[2] && e[3] == h[3];
  }

  /** Distinct lengths have distinct headers. */
  lemma EncodeLengthInjective(x: u32, y: u32)
    requires EncodeLength(x) == EncodeLength(y)
    ensures x == y
  {
    DecodeEncode(x);
    DecodeEncode(y);
  }

  /**
    The receive-side bound check read off the header bytes: a header passes
    exactly when its top byte is zero and the rest does not exceed 0xA00000.
   */
  lemma HeaderFits(h: seq<byte>)
    requires |h| == HeaderSize
    ensures Fits(DecodeLength(h) as nat) <==> h[0] == 0 && (h[1] < 0xA0 || (h[1] == 0xA0 && h[2] == 0 && h[3] == 0))
  {
    var rest := h[1] as int * 0x1_0000 + h[2] as int * 0x100 + h[3] as int;
    assert DecodeLength(h) as int == h[0] as int * 0x100_0000 + rest;
    assert rest < 0x100_0000;
    if h[1] < 0xA0 {
      assert rest <= 0x9F * 0x1_0000 + 0xFF * 0x100 + 0xFF;
    }
  }

  /** The byte image `send_frame` emits for `payload`. */
  function Frame(payload: seq<byte>): (wire: seq<byte>)
    requires Fits(|payload|)
    ensures |wire| == HeaderSize + |payload|
  {
    EncodeLength(|payload| as u32) + payload
  }

  /** An empty payload is sent as four zero bytes and nothing else. */
  lemma EmptyFrame()
    ensures Frame([]) == [0, 0, 0, 0]
  {
  }

  predicate AllFit(payloads: seq<seq<byte>>) {
    forall i :: 0 <= i < |payloads| ==> Fits(|payloads[i]|)
  }

  /** The byte image of sending several frames one after the other. */
  function Frames(payloads: seq<seq<byte>>): (wire: seq<byte>)
    requires AllFit(payloads)
  {
    if payloads == [] then [] else Frame(payloads[0]) + Frames(payloads[1..])
  }

  /** What reading one frame off the front of a byte sequence gives. */
  datatype Parse =
    | Parsed(payload: seq<byte>, rest: seq<byte>)  // a whole frame, and the bytes after it
    | Truncated                                    // the bytes end before the frame does
    | Oversized                                    // the header declares more than MaxPayload

  /** Reference reading of a frame's body once its header announced `len` bytes. */
  function ParseBody(len: nat, body: seq<byte>): (p: Parse)
    ensures p.Oversized? <==> !Fits(len)
    ensures p.Parsed? ==> |p.payload| == len && p.payload + p.rest == body
  {
    if !Fits(len) then Oversized
    else if |body| < len then Truncated
    else Parsed(body[..len], body[len..])
  }

  /** Reference reading of one frame: header, bound check, payload. */
  function ParseFrame(wire: seq<byte>): (p: Parse)
    ensures p.Parsed? ==> |wire| == HeaderSize + |p.payload| + |p.rest|
  {
    if |wire| < HeaderSize then Truncated
    else ParseBody(DecodeLength(wire[..HeaderSize]) as nat, wire[HeaderSize..])
  }

  /** A frame is read back as the payload it was made from, leaving the bytes after it. */
  lemma ParseFrameOfFrame(payload: seq<byte>, rest: seq<byte>)
    requires Fits(|payload|)
    ensures ParseFrame(Frame(payload) + rest) == Parsed(payload, rest)
  {
    var wire := Frame(payload) + rest;
    assert wire[..HeaderSize] == EncodeLength(|payload| as u32);
    DecodeEncode(|payload| as u32);
    assert wire[HeaderSize..HeaderSize + |payload|] == payload;
    assert wire[HeaderSize + |payload|..] == rest;
  }

  /** Conversely, the parser accepts nothing but a well-formed frame. */
  lemma ParsedIsFrame(wire: seq<byte>)
    requires ParseFrame(wire).Parsed?
    ensures Fits(|ParseFrame(wire).payload|)
    ensures wire == Frame(ParseFrame(wire).payload) + ParseFrame(wire).rest
  {
    var p := ParseFrame(wire).payload;
    assert |p| == DecodeLength(wire[..HeaderSize]) as nat;
    EncodeDecode(wire[..HeaderSize]);
    assert wire == wire[..HeaderSize] + p + ParseFrame(wire).rest;
  }

  /** The parser looks at no byte past the frame: extra bytes only lengthen the rest. */
  lemma ParseFrameExtend(wire: seq<byte>, more: seq<byte>)
    requires ParseFrame(wire).Parsed? || ParseFrame(wire).Oversized?
    ensures ParseFrame(wire + more) ==
            if ParseFrame(wire).Oversized? then Oversized
            else Parsed(ParseFrame(wire).payload, ParseFrame(wire).rest + more)
  {
    assert (wire + more)[..HeaderSize] == wire[..HeaderSize];
    var len := DecodeLength(wire[..HeaderSize]) as nat;
    if Fits(len) {
      assert (wire + more)[HeaderSize..HeaderSize + len] == wire[HeaderSize..HeaderSize + len];
      assert (wire + more)[HeaderSize + len..] == wire[HeaderSize + len..] + more;
    }
  }

  /** What reading several frames in sequence gives. */
  datatype Received = Received(payloads: seq<seq<byte>>, rest: seq<byte>) | Stuck

  /** Reference reading of `count` frames, one after the other. */
  function ParseFrames(wire: seq<byte>, count: nat): (r: Received)
    ensures r.Received? ==> |r.payloads| == count && |r.rest| <= |wire|
    decreases count
  {
    if count == 0 then Received([], wire)
    else match ParseFrame(wire)
      case Parsed(p, rest) =>
        (match ParseFrames(rest, count - 1)
         case Received(ps, tail) => Received([p] + ps, tail)
         case Stuck => Stuck)
      case _ => Stuck
  }

  /** Frames sent in sequence are received in sequence, in the same order. */
  lemma {:induction false} ParseFramesOfFrames(payloads: seq<seq<byte>>, rest: seq<byte>)
    requires AllFit(payloads)
    ensures ParseFrames(Frames(payloads) + rest, |payloads|) == Received(payloads, rest)
  {
    if payloads != [] {
      var head, tail := payloads[0], payloads[1..];
      AllFitTail(payloads);
      var after := Frames(tail) + rest;
      assert Frames(payloads) + rest == Frame(head) + after;
      ParseFrameOfFrame(head, after);
      ParseFramesOfFrames(tail, rest);
      assert [head] + tail == payloads;
    }
  }

  lemma AllFitTail(payloads: seq<seq<byte>>)
    requires AllFit(payloads) && payloads != []
    ensures AllFit(payloads[1..])
  {
    forall i | 0 <= i < |payloads| - 1 ensures Fits(|payloads[1..][i]|) {
      assert payloads[1..][i] == payloads[i + 1];
    }
  }

  /** Two batches within the bound make one batch within the bound. */
  lemma AllFitAppend(first: seq<seq<byte>>, second: seq<seq<byte>>)
    requires AllFit(first) && AllFit(second)
    ensures AllFit(first + second)
  {
    forall i | 0 <= i < |first + second| ensures Fits(|(first + second)[i]|) {
      if i < |first| {
        assert (first + second)[i] == first[i];
      } else {
        assert (first + second)[i] == second[i - |first|];
      }
    }
  }

  /** Sending two batches of frames one after the other puts the same bytes on the wire as sending them as one batch. */
  lemma {:induction false} FramesAppend(first: seq<seq<byte>>, second: seq<seq<byte>>)
    requires AllFit(first) && AllFit(second)
    ensures AllFit(first + second)
    ensures Frames(first + second) == Frames(first) + Frames(second)
  {
    AllFitAppend(first, second);
    if first == [] {
      assert first + second == second;
    } else {
      AllFitTail(first);
      FramesAppend(first[1..], second);
      assert (first + second)[1..] == first[1..] + second;
      assert (first + second)[0] == first[0];
    }
  }
}
