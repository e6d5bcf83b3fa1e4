/**
  The connection as an abstract byte stream, standing in for the socket
  behind a file descriptor and the `::recv` / `::send` calls on it.

  The receive side is the queue of bytes the peer has sent and this end has
  not read yet; once it is empty the peer has closed.
  The send side is the sequence of bytes the local stack has accepted so far.

  How much one call moves is not the caller's choice. The socket counts its
  receive and its send calls, and call number `k` (from 0) takes entry `k`
  of an oracle sequence: a negative entry is an error (returned as is,
  nothing moves), zero means the connection was closed, and a positive entry
  caps the transfer at that many bytes. Calls past the end of the oracle move
  as much as they can. A receive also returns 0 when nothing is pending and
  its entry is not negative.
 */
module Stream {
  import opened Wire

  function Min(a: int, b: int): (m: int)
    ensures m <= a && m <= b && (m == a || m == b)
  {
    if a <= b then a else b
  }

  /** `rest` is what is left of `s` once some prefix of it has been taken off. */
  predicate SuffixOf<T(==)>(rest: seq<T>, s: seq<T>) {
    |rest| <= |s| && rest == s[|s| - |rest|..]
  }

  lemma SuffixOfTrans<T>(c: seq<T>, b: seq<T>, a: seq<T>)
    requires SuffixOf(c, b) && SuffixOf(b, a)
    ensures SuffixOf(c, a)
  {
    assert a[|a| - |b|..][|b| - |c|..] == a[|a| - |c|..];
  }

  /** `after` is `before` extended by some prefix of `data`, in order. */
  predicate ExtendedByPrefix<T(==)>(after: seq<T>, before: seq<T>, data: seq<T>) {
    |before| <= |after| <= |before| + |data| && after == before + data[..|after| - |before|]
  }

  /** A prefix of `a` is also a prefix of `a + b`. */
  lemma ExtendedByPrefixAppend<T>(after: seq<T>, before: seq<T>, a: seq<T>, b: seq<T>)
    requires ExtendedByPrefix(after, before, a)
    ensures ExtendedByPrefix(after, before, a + b)
  {
    var k := |after| - |before|;
    assert (a + b)[..k] == a[..k];
  }

  /** All of `a` followed by a prefix of `b` is a prefix of `a + b`. */
  lemma ExtendedByPrefixChain<T>(after: seq<T>, mid: seq<T>, before: seq<T>, a: seq<T>, b: seq<T>)
    requires mid == before + a
    requires ExtendedByPrefix(after, mid, b)
    ensures ExtendedByPrefix(after, before, a + b)
  {
    var k := |after| - |mid|;
    assert (a + b)[..|a| + k] == a + b[..k];
  }

  /**
    The cap the oracle puts on call number `k` (counting from 0) asked for
    `count` bytes: its entry, or the request itself once the oracle is used up.
   */
  function Limit(limits: seq<int>, k: nat, count: nat): (c: int)
  {
    if k < |limits| then limits[k] else count
  }

  /** None of the calls from number `k` on reports an error or a close. */
  predicate ReliableFrom(limits: seq<int>, k: nat) {
    forall i :: k <= i < |limits| ==> limits[i] > 0
  }

  /** None of the calls numbered `from` up to, not including, `to` reports an error or a close. */
  predicate PositiveBetween(limits: seq<int>, from: nat, to: int) {
    forall i :: from <= i < to && i < |limits| ==> limits[i] > 0
  }

  /** Calls `k` up to `to` are positive when call `k` is and the ones after it up to `to` are. */
  lemma PositiveBetweenCons(limits: seq<int>, k: nat, to: int)
    requires k < to ==> (k < |limits| ==> limits[k] > 0) && PositiveBetween(limits, k + 1, to)
    ensures k < to ==> PositiveBetween(limits, k, to)
  {
  }

  /**
    What call number `k` to `::recv` returns when asked for `count` bytes with
    `available` bytes pending: a negative cap as is, otherwise as many bytes
    as the cap, the request and the pending bytes all allow.
   */
  function RecvReturn(available: nat, limits: seq<int>, k: nat, count: nat): (r: int)
    ensures r <= count && r <= available
    ensures r < 0 <==> k < |limits| && limits[k] < 0
    ensures r == 0 && count > 0 ==> available == 0 || (k < |limits| && limits[k] == 0)
    ensures count > 0 && available > 0 && (k < |limits| ==> limits[k] > 0) ==> r > 0
  {
    var limit := Limit(limits, k, count);
    if limit < 0 then limit else Min(Min(limit, count), available)
  }

  /**
    What call number `k` to `::send` returns when asked to send `count`
    bytes: a cap that is not positive as is, otherwise as many bytes as the
    cap and the request allow.
   */
  function SendReturn(limits: seq<int>, k: nat, count: nat): (w: int)
    ensures w <= count
    ensures w < 0 <==> k < |limits| && limits[k] < 0
    ensures w == 0 && count > 0 ==> k < |limits| && limits[k] == 0
    ensures count > 0 && (k < |limits| ==> limits[k] > 0) ==> w > 0
  {
    var limit := Limit(limits, k, count);
    if limit <= 0 then limit else Min(limit, count)
  }

  class Socket {
    var inbox: seq<byte>       // received by the stack, not yet read by this end
    var outbox: seq<byte>      // accepted by the stack for sending, in order
    const recvLimits: seq<int> // the cap on each receive call, by call number
    const sendLimits: seq<int> // the cap on each send call, by call number
    var recvCalls: nat         // receive calls made so far
    var sendCalls: nat         // send calls made so far

    constructor (incoming: seq<byte>, recvLimits: seq<int>, sendLimits: seq<int>)
      ensures inbox == incoming && outbox == []
      ensures this.recvLimits == recvLimits && this.sendLimits == sendLimits
      ensures recvCalls == 0 && sendCalls == 0
    {
      inbox := incoming;
      outbox := [];
      this.recvLimits := recvLimits;
      this.sendLimits := sendLimits;
      recvCalls := 0;
      sendCalls := 0;
    }

    /** No receive call still to come reports an error or a close of its own. */
    predicate RecvReliable()
      reads this
    {
      ReliableFrom(recvLimits, recvCalls)
    }

    /** No send call still to come reports an error or a close. */
    predicate SendReliable()
      reads this
    {
      ReliableFrom(sendLimits, sendCalls)
    }

    /**
      `::recv(fd, buf + off, count, 0)`: stores up to `count` received bytes at
      `buf[off..]` and returns how many, 0 when the peer has closed, or a
      negative value on error.
     */
    method Recv(buf: array<byte>, off: nat, count: nat) returns (r: int)
      requires 0 < count && off + count <= buf.Length
      modifies this, buf
      ensures r == RecvReturn(|old(inbox)|, recvLimits, old(recvCalls), count)
      ensures r > 0 ==> inbox == old(inbox)[r..] && buf[off..off + r] == old(inbox)[..r]
      ensures r <= 0 ==> inbox == old(inbox)
      ensures forall i :: 0 <= i < buf.Length && !(off <= i < off + r) ==> buf[i] == old(buf[i])
      ensures recvCalls == old(recvCalls) + 1
      ensures outbox == old(outbox) && sendCalls == old(sendCalls)
    {
      var limit := Limit(recvLimits, recvCalls, count);
      recvCalls := recvCalls + 1;
      if limit < 0 {
        r := limit;
      } else {
        r := Min(Min(limit, count), |inbox|);
        forall i | 0 <= i < r {
          buf[off + i] := inbox[i];
        }
        inbox := inbox[r..];
      }
    }

    /**
      `::send(fd, data + off, count, 0)`: hands up to `count` bytes of
      `data[off..]` to the stack and returns how many, 0 when the connection
      was closed, or a negative value on error.
     */
    method Send(data: seq<byte>, off: nat, count: nat) returns (w: int)
      requires 0 < count && off + count <= |data|
      modifies this
      ensures w == SendReturn(sendLimits, old(sendCalls), count)
      ensures w > 0 ==> outbox == old(outbox) + data[off..off + w]
      ensures w <= 0 ==> outbox == old(outbox)
      ensures sendCalls == old(sendCalls) + 1
      ensures inbox == old(inbox) && recvCalls == old(recvCalls)
    {
      var limit := Limit(sendLimits, sendCalls, count);
      sendCalls := sendCalls + 1;
      if limit <= 0 {
        w := limit;
      } else {
        w := Min(limit, count);
        outbox := outbox + data[off..off + w];
      }
    }
  }
}
