/**
 * The bounded `ping` of the ping server: after the address is parsed and a raw
 * socket with a receive timeout is opened, it sends one Echo Request per second
 * and keeps every accepted reply in the caller's result array, stopping after
 * `icmp_num` of them (the test comes after each pass, so at least one pass is
 * made) or on the first failed send.
 */
module ServerPing {
  import opened IcmpHeader
  import opened EchoCodec
  import opened ProbeSession
  import opened Wrappers

  // ---------------------------------------------------------------------
  // recv_echo_reply, server flavour
  // ---------------------------------------------------------------------

  /**
   * The result `recv_echo_reply` returns for one receive: an accepted reply
   * gives the sender's address and the reply's sequence number; a timeout, a
   * receive error, or a rejected datagram gives the default result, whose
   * sequence number 0 the caller reads as "nothing".
   */
  function RecvEchoReply(r: RecvOutcome, ident: int): (p: PingResult)
    requires r.Datagram? ==> HoldsEcho(r.data)
    ensures r.Datagram? && MatchReply(r.data, ident).Some? ==>
      p == PingResult(r.peer, "", MatchReply(r.data, ident).value)
    ensures !(r.Datagram? && MatchReply(r.data, ident).Some?) ==> p == DEFAULT_RESULT
  {
    match r
    case Timeout => DEFAULT_RESULT
    case RecvError => DEFAULT_RESULT
    case Datagram(data, peer) =>
      match MatchReply(data, ident)
      case None => DEFAULT_RESULT
      case Some(sequence) => PingResult(peer, "", sequence)
  }

  /** Whether the caller stores the result of a receive: its sequence number is not 0. */
  predicate Stored(p: PingResult)
  {
    p.sequence != 0
  }

  /** What the caller stores from the receive of one pass: the result, or nothing. */
  function Received(t: Tick, ident: int): (rs: seq<PingResult>)
    requires WellFormedTick(t)
    ensures |rs| <= 1
    ensures forall k :: 0 <= k < |rs| ==> FitsBuffers(rs[k])
  {
    var r := RecvEchoReply(t.recv, ident);
    if Stored(r) then [r] else []
  }

  /** The results the passes of `trace` from the `i`-th on would store, in order, if the loop never stopped. */
  function Accepted(trace: seq<Tick>, ident: int, i: nat): (rs: seq<PingResult>)
    requires WellFormedTrace(trace) && i <= |trace|
    ensures |rs| <= |trace| - i
    decreases |trace| - i
  {
    if i == |trace| then []
    else Received(trace[i], ident) + Accepted(trace, ident, i + 1)
  }

  /**
   * An accepted reply is stored unless its 16-bit sequence number is 0, which
   * happens for the reply to every 65536th request: that reply is lost.
   */
  lemma StoredIffAccepted(r: RecvOutcome, ident: int)
    requires r.Datagram? ==> HoldsEcho(r.data)
    ensures Stored(RecvEchoReply(r, ident)) <==>
      r.Datagram? && MatchReply(r.data, ident).Some? && MatchReply(r.data, ident).value != 0
  {
  }

  // ---------------------------------------------------------------------
  // The loop, as a function of its state and the passes still to come
  // ---------------------------------------------------------------------

  /** The loop variables: `seq`, `next_ts`, the results stored so far, and every request handed to `sendto`. */
  datatype Probe = Probe(sequence: int, nextTs: real, collected: seq<PingResult>, sent: seq<Attempt>)

  /** The end of a run: its status, whether the raw socket is still open, and the final loop state. */
  datatype Run = Run(status: PingStatus, socketOpen: bool, probe: Probe)

  /** The send of a pass fails: a request was due and `sendto` failed. */
  predicate SendFails(p: Probe, t: Tick)
  {
    Due(t.now, p.nextTs) && t.send == SendFailed
  }

  /** The state with the request of this pass, if one is due, added to those handed to `sendto`. */
  function WithAttempt(p: Probe, t: Tick): (q: Probe)
    ensures q.sequence == p.sequence && q.nextTs == p.nextTs && q.collected == p.collected
    ensures q.sent == p.sent + (if Due(t.now, p.nextTs) then [Attempt(p.sequence, t.now, t.stamp)] else [])
  {
    if Due(t.now, p.nextTs) then p.(sent := p.sent + [Attempt(p.sequence, t.now, t.stamp)])
    else p
  }

  /**
   * The state after a pass whose send did not fail: a due request moves `seq`
   * on by one and the deadline to one second after now; the result of the
   * receive is stored if it is one.
   */
  function AfterPass(ident: int, p: Probe, t: Tick): (q: Probe)
    requires WellFormedTick(t)
    ensures q.sent == WithAttempt(p, t).sent
    ensures q.collected == p.collected + Received(t, ident)
    ensures Due(t.now, p.nextTs) ==> q.sequence == p.sequence + 1 && q.nextTs == t.now + 1.0
    ensures !Due(t.now, p.nextTs) ==> q.sequence == p.sequence && q.nextTs == p.nextTs
  {
    var sent := WithAttempt(p, t);
    var p1 := if Due(t.now, p.nextTs) then sent.(sequence := p.sequence + 1, nextTs := t.now + 1.0) else sent;
    p1.(collected := p1.collected + Received(t, ident))
  }

  /**
   * The passes of the loop over `trace`, from the `i`-th on, starting in state
   * `p`: send if due (a failed send closes the socket and returns -1),
   * receive, store an accepted result, and return 0 once `icmp_num` results
   * are stored.
   */
  function Collect(ident: int, icmpNum: int, p: Probe, trace: seq<Tick>, i: nat): Run
    requires WellFormedTrace(trace) && i <= |trace|
    decreases |trace| - i
  {
    if i == |trace| then Run(StillPolling, true, p)
    else if SendFails(p, trace[i]) then Run(Returned(-1), false, WithAttempt(p, trace[i]))
    else
      var q := AfterPass(ident, p, trace[i]);
      if |q.collected| >= icmpNum then Run(Returned(0), true, q)
      else Collect(ident, icmpNum, q, trace, i + 1)
  }

  /** A pass whose send fails ends the loop: -1, socket closed. */
  lemma PassFails(ident: int, icmpNum: int, p: Probe, trace: seq<Tick>, i: nat)
    requires WellFormedTrace(trace) && i < |trace| && SendFails(p, trace[i])
    ensures Collect(ident, icmpNum, p, trace, i) == Run(Returned(-1), false, WithAttempt(p, trace[i]))
  {
  }

  /** A pass that stores the `icmp_num`-th result ends the loop: 0, socket open. */
  lemma PassStops(ident: int, icmpNum: int, p: Probe, trace: seq<Tick>, i: nat)
    requires WellFormedTrace(trace) && i < |trace| && !SendFails(p, trace[i])
    requires |AfterPass(ident, p, trace[i]).collected| >= icmpNum
    ensures Collect(ident, icmpNum, p, trace, i) == Run(Returned(0), true, AfterPass(ident, p, trace[i]))
  {
  }

  /** Any other pass leaves the loop running on the next one. */
  lemma PassContinues(ident: int, icmpNum: int, p: Probe, trace: seq<Tick>, i: nat)
    requires WellFormedTrace(trace) && i < |trace| && !SendFails(p, trace[i])
    requires |AfterPass(ident, p, trace[i]).collected| < icmpNum
    ensures Collect(ident, icmpNum, p, trace, i) == Collect(ident, icmpNum, AfterPass(ident, p, trace[i]), trace, i + 1)
  {
  }

  /** The state before the first pass: `seq = 1`, the deadline at the start, nothing stored or sent. */
  function Initial(host: Host): Probe
  {
    Probe(1, host.startTs, [], [])
  }

  /**
   * `ping(ip, icmp_num, result)`: -1 with no socket left open when the address
   * does not parse or the socket cannot be created, -1 after closing it when
   * the receive timeout cannot be set, and otherwise the loop.
   */
  function PingSpec(ip: string, icmpNum: int, host: Host, trace: seq<Tick>): Run
    requires WellFormedTrace(trace)
  {
    if !host.inetAton(ip) || !host.socketOk || !host.sockoptOk then Run(Returned(-1), false, Initial(host))
    else Collect(host.pid, icmpNum, Initial(host), trace, 0)
  }

  // ---------------------------------------------------------------------
  // What a run does
  // ---------------------------------------------------------------------

  predicate IsPrefix<T(==)>(a: seq<T>, b: seq<T>)
  {
    |a| <= |b| && a == b[..|a|]
  }

  lemma PrefixOfJoin<T>(a: seq<T>, b: seq<T>)
    ensures IsPrefix(a, a + b)
  {
    assert (a + b)[..|a|] == a;
  }

  /** What is stored before a pass and what is accepted from it on is what is stored after it and accepted from the next one on. */
  lemma StoredSoFar(ident: int, p: Probe, trace: seq<Tick>, i: nat)
    requires WellFormedTrace(trace) && i < |trace|
    ensures p.collected + Accepted(trace, ident, i) == AfterPass(ident, p, trace[i]).collected + Accepted(trace, ident, i + 1)
  {
    var r := Received(trace[i], ident);
    assert p.collected + (r + Accepted(trace, ident, i + 1)) == (p.collected + r) + Accepted(trace, ident, i + 1);
  }

  /**
   * From a state holding fewer than `icmp_num` results, the loop stores the
   * accepted results in arrival order and nothing else; when the trace runs
   * out first, every accepted result has been stored.
   */
  lemma {:induction false} CollectStoresAccepted(ident: int, icmpNum: int, p: Probe, trace: seq<Tick>, i: nat)
    requires WellFormedTrace(trace) && i <= |trace| && |p.collected| < icmpNum
    ensures var run := Collect(ident, icmpNum, p, trace, i);
      && IsPrefix(run.probe.collected, p.collected + Accepted(trace, ident, i))
      && (run.status == StillPolling ==> run.probe.collected == p.collected + Accepted(trace, ident, i))
    decreases |trace| - i
  {
    if i < |trace| && !SendFails(p, trace[i]) {
      var q := AfterPass(ident, p, trace[i]);
      StoredSoFar(ident, p, trace, i);
      if |q.collected| < icmpNum {
        CollectStoresAccepted(ident, icmpNum, q, trace, i + 1);
      } else {
        PrefixOfJoin(q.collected, Accepted(trace, ident, i + 1));
      }
    }
  }

  /**
   * From a state holding fewer than `icmp_num` results, the loop never holds
   * more than `icmp_num`, and returns 0 exactly when it holds `icmp_num` of
   * them: a run that failed or is still polling holds fewer.
   */
  lemma {:induction false} CollectStopsAtCount(ident: int, icmpNum: int, p: Probe, trace: seq<Tick>, i: nat)
    requires WellFormedTrace(trace) && i <= |trace| && |p.collected| < icmpNum
    ensures var run := Collect(ident, icmpNum, p, trace, i);
      && |run.probe.collected| <= icmpNum
      && (run.status == Returned(0) <==> |run.probe.collected| == icmpNum)
    decreases |trace| - i
  {
    if i < |trace| && !SendFails(p, trace[i]) {
      var q := AfterPass(ident, p, trace[i]);
      if |q.collected| < icmpNum {
        CollectStopsAtCount(ident, icmpNum, q, trace, i + 1);
      }
    }
  }

  /**
   * The loop ends in one of three ways: it returns 0 with the socket left
   * open, returns -1 with the socket closed, which happens only after a failed
   * send, or is still polling, with the socket open, when the trace runs out.
   */
  lemma {:induction false} CollectEnds(ident: int, icmpNum: int, p: Probe, trace: seq<Tick>, i: nat)
    requires WellFormedTrace(trace) && i <= |trace|
    ensures var run := Collect(ident, icmpNum, p, trace, i);
      && (run.status == Returned(0) || run.status == Returned(-1) || run.status == StillPolling)
      && (run.socketOpen <==> run.status != Returned(-1))
      && (run.status == Returned(-1) ==> exists j :: i <= j < |trace| && trace[j].send == SendFailed)
    decreases |trace| - i
  {
    if i < |trace| && !SendFails(p, trace[i]) {
      var q := AfterPass(ident, p, trace[i]);
      if |q.collected| < icmpNum {
        CollectEnds(ident, icmpNum, q, trace, i + 1);
      }
    }
  }

  /** One pass keeps the schedule: the request it may send is numbered and paced. */
  lemma PassKeepsSchedule(ident: int, p: Probe, t: Tick, start: real)
    requires WellFormedTick(t) && Schedule(p.sequence, p.nextTs, p.sent, start)
    ensures Numbered(WithAttempt(p, t).sent) && Paced(WithAttempt(p, t).sent, start)
    ensures !SendFails(p, t) ==>
      var q := AfterPass(ident, p, t);
      Schedule(q.sequence, q.nextTs, q.sent, start)
  {
    if Due(t.now, p.nextTs) {
      SendKeepsSchedule(p.sequence, p.nextTs, p.sent, start, t.now, t.stamp);
    }
  }

  /**
   * Requests go out numbered 1, 2, 3, ... and at least a second apart, never
   * before the start; unless the run ended on a failed send, `seq` and
   * `next_ts` still follow the last request.
   */
  lemma {:induction false} CollectKeepsSchedule(ident: int, icmpNum: int, p: Probe, trace: seq<Tick>, i: nat, start: real)
    requires WellFormedTrace(trace) && i <= |trace| && Schedule(p.sequence, p.nextTs, p.sent, start)
    ensures var run := Collect(ident, icmpNum, p, trace, i);
      && Numbered(run.probe.sent) && Paced(run.probe.sent, start)
      && (run.status != Returned(-1) ==> Schedule(run.probe.sequence, run.probe.nextTs, run.probe.sent, start))
    decreases |trace| - i
  {
    if i < |trace| {
      PassKeepsSchedule(ident, p, trace[i], start);
      if !SendFails(p, trace[i]) {
        CollectKeepsSchedule(ident, icmpNum, AfterPass(ident, p, trace[i]), trace, i + 1, start);
      }
    }
  }

  /**
   * For `icmp_num >= 1`: a return of 0 delivers exactly the first `icmp_num`
   * accepted replies, in arrival order; a run still polling has accepted
   * fewer than `icmp_num` replies, and one that ended on -1 stored fewer than
   * `icmp_num`; every request sent carries the
   * sequence numbers 1, 2, ... and they are at least a second apart.
   */
  lemma PingDelivers(ip: string, icmpNum: int, host: Host, trace: seq<Tick>)
    requires WellFormedTrace(trace) && icmpNum >= 1
    ensures var run := PingSpec(ip, icmpNum, host, trace);
      && (run.status == Returned(0) ==>
            |Accepted(trace, host.pid, 0)| >= icmpNum && run.probe.collected == Accepted(trace, host.pid, 0)[..icmpNum])
      && (run.status == StillPolling ==>
            run.probe.collected == Accepted(trace, host.pid, 0) && |Accepted(trace, host.pid, 0)| < icmpNum)
      && (run.status == Returned(-1) ==> |run.probe.collected| < icmpNum)
      && Numbered(run.probe.sent) && Paced(run.probe.sent, host.startTs)
  {
    if host.inetAton(ip) && host.socketOk && host.sockoptOk {
      CollectStoresAccepted(host.pid, icmpNum, Initial(host), trace, 0);
      CollectStopsAtCount(host.pid, icmpNum, Initial(host), trace, 0);
      CollectKeepsSchedule(host.pid, icmpNum, Initial(host), trace, 0, host.startTs);
      assert [] + Accepted(trace, host.pid, 0) == Accepted(trace, host.pid, 0);
    }
  }

  /**
   * For `icmp_num <= 0` the break test still comes after the first pass: a
   * nonempty trace never leaves the loop polling, and at most one result is
   * stored.
   */
  lemma NonPositiveCountMakesOnePass(ip: string, icmpNum: int, host: Host, trace: seq<Tick>)
    requires WellFormedTrace(trace) && icmpNum <= 0 && trace != []
    ensures var run := PingSpec(ip, icmpNum, host, trace);
      run.status != StillPolling && |run.probe.collected| <= 1 && |run.probe.sent| <= 1
  {
  }

  // ---------------------------------------------------------------------
  // The loop as the source writes it
  // ---------------------------------------------------------------------

  /**
   * `ping` writing into the caller's array: the results stored are exactly
   * those of the specification, in `result[0..]`, and no other slot is
   * touched. The source demands an array of at least `icmp_num` entries, and
   * since one pass always happens, at least one.
   */
  method Ping(ip: string, icmpNum: int, result: array<PingResult>, host: Host, trace: seq<Tick>)
    returns (status: PingStatus, socketOpen: bool, sent: seq<Attempt>)
    requires WellFormedTrace(trace)
    requires result.Length >= icmpNum && result.Length >= 1
    modifies result
    ensures var run := PingSpec(ip, icmpNum, host, trace);
      && status == run.status && socketOpen == run.socketOpen && sent == run.probe.sent
      && |run.probe.collected| <= result.Length
      && result[..|run.probe.collected|] == run.probe.collected
      && forall k :: |run.probe.collected| <= k < result.Length ==> result[k] == old(result[k])
  {
    if !host.inetAton(ip) {
      // inet_aton rejected the address
      return Returned(-1), false, [];
    }
    if !host.socketOk {
      // socket() failed
      return Returned(-1), false, [];
    }
    if !host.sockoptOk {
      // setsockopt failed: the socket is closed
      return Returned(-1), false, [];
    }
    status, socketOpen, sent := Poll(host.pid, icmpNum, result, host.startTs, trace);
  }

  /**
   * The first half of a pass: when a request is due, `send_echo_request`
   * hands it to `sendto`; on success `next_ts` moves to one second after now
   * and `seq` on by one. Reports whether the send failed and the requests
   * handed to `sendto` (none or one).
   */
  method SendIfDue(ident: int, t: Tick, sequence: int, nextTs: real)
    returns (failed: bool, attempts: seq<Attempt>, newSequence: int, newNextTs: real)
    requires WellFormedTick(t)
    ensures failed == SendFails(Probe(sequence, nextTs, [], []), t)
    ensures attempts == WithAttempt(Probe(sequence, nextTs, [], []), t).sent
    ensures !failed ==>
      var q := AfterPass(ident, Probe(sequence, nextTs, [], []), t);
      newSequence == q.sequence && newNextTs == q.nextTs
  {
    failed, attempts, newSequence, newNextTs := false, [], sequence, nextTs;
    if Due(t.now, nextTs) {
      var ret, attempt, packet := SendEchoRequest(ident, sequence, t);
      attempts := [attempt];
      if ret == -1 {
        // sendto failed: the caller closes the socket and returns -1
        failed := true;
        return;
      }
      newNextTs := t.now + 1.0;
      newSequence := sequence + 1;
    }
  }

  /**
   * The second half of a pass: `recv_echo_reply`, and an accepted result
   * stored at `result[exit_flag]` with `exit_flag` moved on. The stored prefix
   * grows by what the pass stores, and no later slot changes.
   */
  method ReceiveInto(ident: int, t: Tick, result: array<PingResult>, exitFlag: nat, ghost stored: seq<PingResult>)
    returns (newExitFlag: nat)
    requires WellFormedTick(t)
    requires exitFlag < result.Length && result[..exitFlag] == stored
    modifies result
    ensures newExitFlag == exitFlag + |Received(t, ident)|
    ensures result[..newExitFlag] == stored + Received(t, ident)
    ensures forall k :: newExitFlag <= k < result.Length ==> result[k] == old(result[k])
  {
    newExitFlag := exitFlag;
    var r := RecvEchoReply(t.recv, ident);
    if Stored(r) {
      result[exitFlag] := r;
      assert result[..exitFlag + 1] == result[..exitFlag] + [r];
      newExitFlag := exitFlag + 1;
    }
  }

  /**
   * One pass of the loop over tick `trace[i]`: the send half, and unless the
   * send failed, the receive half, then the decision to stop. The loop ends
   * here exactly when `Collect` ends at this tick, with the same outcome;
   * otherwise it continues in the state `Collect` takes to the next tick.
   * The array keeps holding the stored results.
   */
  method Pass(ident: int, icmpNum: int, trace: seq<Tick>, i: nat, result: array<PingResult>,
              sequence: int, nextTs: real, exitFlag: nat, ghost probe: Probe)
    returns (status: PingStatus, socketOpen: bool, attempts: seq<Attempt>,
             newSequence: int, newNextTs: real, newExitFlag: nat, ghost next: Probe)
    requires WellFormedTrace(trace) && i < |trace|
    requires exitFlag < result.Length && probe.sequence == sequence && probe.nextTs == nextTs
    requires |probe.collected| == exitFlag && result[..exitFlag] == probe.collected
    modifies result
    ensures next.sent == probe.sent + attempts
    ensures exitFlag <= newExitFlag == |next.collected| <= result.Length && result[..newExitFlag] == next.collected
    ensures forall k :: newExitFlag <= k < result.Length ==> result[k] == old(result[k])
    ensures status == StillPolling ==>
      && socketOpen && newExitFlag < icmpNum
      && next.sequence == newSequence && next.nextTs == newNextTs
      && Collect(ident, icmpNum, next, trace, i + 1) == Collect(ident, icmpNum, probe, trace, i)
    ensures status != StillPolling ==> Collect(ident, icmpNum, probe, trace, i) == Run(status, socketOpen, next)
  {
    var failed;
    failed, attempts, newSequence, newNextTs := SendIfDue(ident, trace[i], sequence, nextTs);
    newExitFlag := exitFlag;
    if failed {
      // sendto failed: the socket is closed and -1 returned
      next := WithAttempt(probe, trace[i]);
      status, socketOpen := Returned(-1), false;
      PassFails(ident, icmpNum, probe, trace, i);
    } else {
      newExitFlag := ReceiveInto(ident, trace[i], result, exitFlag, probe.collected);
      next := AfterPass(ident, probe, trace[i]);
      socketOpen := true;
      if newExitFlag >= icmpNum {
        status := Returned(0);
        PassStops(ident, icmpNum, probe, trace, i);
      } else {
        status := StillPolling;
        PassContinues(ident, icmpNum, probe, trace, i);
      }
    }
  }

  /**
   * The `for (;;)` loop of `ping`, from `seq = 1` and the deadline at `start`:
   * what it returns, whether the socket is left open, the requests it sends
   * and the results it stores in `result[0..]` are those of `Collect`.
   */
  method Poll(ident: int, icmpNum: int, result: array<PingResult>, start: real, trace: seq<Tick>)
    returns (status: PingStatus, socketOpen: bool, sent: seq<Attempt>)
    requires WellFormedTrace(trace)
    requires result.Length >= icmpNum && result.Length >= 1
    modifies result
    ensures var run := Collect(ident, icmpNum, Probe(1, start, [], []), trace, 0);
      && status == run.status && socketOpen == run.socketOpen && sent == run.probe.sent
      && |run.probe.collected| <= result.Length
      && result[..|run.probe.collected|] == run.probe.collected
      && forall k :: |run.probe.collected| <= k < result.Length ==> result[k] == old(result[k])
  {
    var nextTs := start;
    var sequence := 1;
    var exitFlag := 0;
    sent := [];
    status, socketOpen := StillPolling, true;
    ghost var probe := Probe(1, start, [], []);
    ghost var goal := Collect(ident, icmpNum, probe, trace, 0);
    var i := 0;
    while i < |trace| && status == StillPolling
      invariant 0 <= i <= |trace|
      invariant |probe.collected| == exitFlag <= result.Length && result[..exitFlag] == probe.collected
      invariant probe.sent == sent
      invariant status == StillPolling ==>
        && exitFlag < result.Length && socketOpen
        && probe.sequence == sequence && probe.nextTs == nextTs
        && Collect(ident, icmpNum, probe, trace, i) == goal
      invariant status != StillPolling ==> goal == Run(status, socketOpen, probe)
      invariant forall k :: exitFlag <= k < result.Length ==> result[k] == old(result[k])
    {
      var attempts;
      status, socketOpen, attempts, sequence, nextTs, exitFlag, probe :=
        Pass(ident, icmpNum, trace, i, result, sequence, nextTs, exitFlag, probe);
      sent := sent + attempts;
      i := i + 1;
    }
    assert goal == Run(status, socketOpen, probe);
  }
}
