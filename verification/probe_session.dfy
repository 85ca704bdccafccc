/**
 * What both ping loops share: the abstract transport and clock they are driven
 * by, the record of the requests they hand to the socket, and the schedule
 * those requests follow (sequence numbers from 1, at most one request per
 * clock second).
 */
module ProbeSession {
  import opened IcmpHeader
  import opened InternetChecksum
  import opened EchoCodec

  /** What `sendto` reported for one request. */
  datatype SendOutcome = Sent | SendFailed

  /**
   * What one `recvfrom` on the raw socket reported: a datagram with the dotted
   * text `inet_ntoa` gives for its source address, a timeout (EAGAIN or
   * EWOULDBLOCK: nothing arrived within the receive timeout), or another error.
   */
  datatype RecvOutcome = Datagram(data: seq<Byte>, peer: string) | Timeout | RecvError

  /**
   * The environment of one pass of a ping loop: the clock reading (seconds, as
   * `get_timestamp` returns them), the 8 bytes of the timestamp a request built in this pass would
   * carry, what `sendto` reports if a request is sent, and what the receive
   * returns.
   */
  datatype Tick = Tick(now: real, stamp: seq<Byte>, send: SendOutcome, recv: RecvOutcome)

  /**
   * The timestamp has the size of a `double`, a received datagram holds an
   * Echo message at its ICMP offset, and the peer's text fits the 16-byte
   * IPv4 buffer of a result.
   */
  predicate WellFormedTick(t: Tick)
  {
    && |t.stamp| == 8
    && (t.recv.Datagram? ==> HoldsEcho(t.recv.data) && |t.recv.peer| < IPV4_LEN)
  }

  predicate WellFormedTrace(trace: seq<Tick>)
  {
    forall i :: 0 <= i < |trace| ==> WellFormedTick(trace[i])
  }

  /**
   * What the operating system answers before a loop starts: whether `inet_aton`
   * accepts a text, whether the raw socket can be created and its receive
   * timeout set, the process id `getpid` returns, and the clock at the start.
   */
  datatype Host = Host(
    inetAton: string -> bool,
    socketOk: bool,
    sockoptOk: bool,
    pid: int,
    startTs: real)

  /** How `ping` ends: with a return code, or still inside its loop when the trace runs out. */
  datatype PingStatus = Returned(code: int) | StillPolling

  /** One call of `send_echo_request`: the sequence number, the clock reading, and the timestamp bytes of the request. */
  datatype Attempt = Attempt(sequence: int, at: real, stamp: seq<Byte>)

  /** The bytes `send_echo_request` hands to `sendto` for an attempt of the process with identifier `ident`. */
  function Wire(ident: int, a: Attempt): (packet: seq<Byte>)
    requires |a.stamp| == 8
    ensures |packet| == ECHO_SIZE
  {
    EchoRequest(ident, a.sequence, a.stamp)
  }

  /** A request is due once the clock has reached the deadline `next_ts`. */
  predicate Due(now: real, nextTs: real)
  {
    now >= nextTs
  }

  /** Requests carry the sequence numbers 1, 2, 3, ... in the order they were sent. */
  ghost predicate Numbered(sent: seq<Attempt>)
  {
    forall k :: 0 <= k < |sent| ==> sent[k].sequence == k + 1
  }

  /** No request before the start, and successive requests at least one second apart. */
  ghost predicate Paced(sent: seq<Attempt>, start: real)
  {
    && (sent != [] ==> sent[0].at >= start)
    && (forall k :: 0 < k < |sent| ==> sent[k].at >= sent[k - 1].at + 1.0)
  }

  /**
   * The loop state agrees with the requests sent so far: the next sequence
   * number follows the last one used, and the deadline is one tick after the
   * last send (or the start, before any).
   */
  ghost predicate Schedule(sequence: int, nextTs: real, sent: seq<Attempt>, start: real)
  {
    && Numbered(sent)
    && Paced(sent, start)
    && sequence == |sent| + 1
    && nextTs == (if sent == [] then start else sent[|sent| - 1].at + 1.0)
  }

  /** Sending a due request, then moving the deadline one second past now, keeps the schedule. */
  lemma SendKeepsSchedule(sequence: int, nextTs: real, sent: seq<Attempt>, start: real, now: real, stamp: seq<Byte>)
    requires Schedule(sequence, nextTs, sent, start) && Due(now, nextTs)
    ensures Schedule(sequence + 1, now + 1.0, sent + [Attempt(sequence, now, stamp)], start)
  {
    var sent' := sent + [Attempt(sequence, now, stamp)];
    assert forall k :: 0 <= k < |sent| ==> sent'[k] == sent[k];
  }

  /**
   * `send_echo_request`: builds the Echo Request for `ident` and `sequence`,
   * stamped with this pass's timestamp, and hands it to `sendto`; 0 when the
   * send succeeded, -1 when it failed. The packet is a valid Echo Request
   * whatever the outcome.
   */
  method SendEchoRequest(ident: int, sequence: int, t: Tick) returns (ret: int, attempt: Attempt, packet: seq<Byte>)
    requires |t.stamp| == 8
    ensures ret == (if t.send == Sent then 0 else -1)
    ensures attempt == Attempt(sequence, t.now, t.stamp) && packet == Wire(ident, attempt)
    ensures Checksum(packet) == 0
  {
    packet := EncodeEchoRequest(ident, sequence, t.stamp);
    attempt := Attempt(sequence, t.now, t.stamp);
    ret := if t.send == SendFailed then -1 else 0;
  }
}
