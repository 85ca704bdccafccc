/**
 * The standalone `icmp_ping` tool: it pings one address for ever, sending an
 * Echo Request whenever a second has passed since the last one and printing
 * every accepted reply. Send and receive failures are only logged; the loop
 * never ends, so one pass is a step of the `ContinuousPing` object and a run
 * is that step applied to each tick of a finite trace.
 */
module StandalonePing {
  import opened IcmpHeader
  import opened EchoCodec
  import opened ProbeSession
  import opened Wrappers

  // ---------------------------------------------------------------------
  // What the tool writes
  // ---------------------------------------------------------------------

  /**
   * The lines the tool writes during its loop: the `perror` lines after a
   * failed send or receive, and the line printed for an accepted reply (its
   * sender and sequence number; the round-trip time is not modelled).
   */
  datatype Line = SendFailedLine | ReceiveFailedLine | ReplyLine(peer: string, sequence: U16)

  /** What `recv_echo_reply` returns, and the reply line it printed, if any. */
  datatype RecvReport = RecvReport(ret: int, printed: seq<Line>)

  /**
   * `recv_echo_reply`, tool flavour: -1 for a receive error other than a
   * timeout, 0 otherwise; an accepted reply (type 0, code 0, identifier
   * `ident`) is printed whatever its sequence number, 0 included.
   */
  function RecvEchoReply(r: RecvOutcome, ident: int): (out: RecvReport)
    requires r.Datagram? ==> HoldsEcho(r.data)
    ensures out.ret == -1 <==> r.RecvError?
    ensures out.ret == 0 || out.ret == -1
    ensures r.Datagram? && MatchReply(r.data, ident).Some? ==>
      out.printed == [ReplyLine(r.peer, MatchReply(r.data, ident).value)]
    ensures !(r.Datagram? && MatchReply(r.data, ident).Some?) ==> out.printed == []
  {
    match r
    case Timeout => RecvReport(0, [])
    case RecvError => RecvReport(-1, [])
    case Datagram(data, peer) =>
      match MatchReply(data, ident)
      case None => RecvReport(0, [])
      case Some(sequence) => RecvReport(0, [ReplyLine(peer, sequence)])
  }

  // ---------------------------------------------------------------------
  // One pass of the loop, as a function of the state
  // ---------------------------------------------------------------------

  /** The loop variables `seq` and `next_ts`, with every request handed to `sendto` and every line written. */
  datatype Pacer = Pacer(sequence: int, nextTs: real, sent: seq<Attempt>, log: seq<Line>)

  /** What a pass writes about its send: a line when a due request failed to go out. */
  function SendLines(due: bool, send: SendOutcome): seq<Line>
  {
    if due && send == SendFailed then [SendFailedLine] else []
  }

  /** What a pass writes about its receive: the reply line `recv_echo_reply` printed, or a failure line when it returned -1. */
  function RecvLines(ident: int, r: RecvOutcome): seq<Line>
    requires r.Datagram? ==> HoldsEcho(r.data)
  {
    var report := RecvEchoReply(r, ident);
    if report.ret == -1 then [ReceiveFailedLine] else report.printed
  }

  /**
   * One pass: a due request is handed to `sendto`, and `next_ts` and `seq`
   * move on whether or not the send succeeded (a failure is only logged);
   * then one receive, whose failure is only logged too.
   */
  function StepSpec(ident: int, s: Pacer, t: Tick): (s': Pacer)
    requires WellFormedTick(t)
    ensures Due(t.now, s.nextTs) ==> s'.sequence == s.sequence + 1 && s'.nextTs == t.now + 1.0
    ensures !Due(t.now, s.nextTs) ==> s'.sequence == s.sequence && s'.nextTs == s.nextTs && s'.sent == s.sent
    ensures s'.log == s.log + SendLines(Due(t.now, s.nextTs), t.send) + RecvLines(ident, t.recv)
  {
    var due := Due(t.now, s.nextTs);
    Pacer(if due then s.sequence + 1 else s.sequence,
          if due then t.now + 1.0 else s.nextTs,
          if due then s.sent + [Attempt(s.sequence, t.now, t.stamp)] else s.sent,
          s.log + SendLines(due, t.send) + RecvLines(ident, t.recv))
  }

  /** The state after the first `i` passes over `trace`, from `seq = 1` and the deadline at `start`. */
  function Passes(ident: int, start: real, trace: seq<Tick>, i: nat): Pacer
    requires WellFormedTrace(trace) && i <= |trace|
  {
    if i == 0 then Initial(start) else StepSpec(ident, Passes(ident, start, trace, i - 1), trace[i - 1])
  }

  /** The state before the first pass: `seq = 1`, the deadline at the start, nothing sent or written. */
  function Initial(start: real): Pacer
  {
    Pacer(1, start, [], [])
  }

  // ---------------------------------------------------------------------
  // What a run writes and sends
  // ---------------------------------------------------------------------

  /** The reply lines of a log, in order. */
  function Replies(log: seq<Line>): (rs: seq<Line>)
    ensures |rs| <= |log|
  {
    if |log| == 0 then []
    else (if log[0].ReplyLine? then [log[0]] else []) + Replies(log[1..])
  }

  /** How many receive failures a log reports. */
  function ReceiveFailures(log: seq<Line>): (n: nat)
    ensures n <= |log|
  {
    if |log| == 0 then 0
    else (if log[0] == ReceiveFailedLine then 1 else 0) + ReceiveFailures(log[1..])
  }

  /** The replies of a log written in two parts are those of the first part, then those of the second. */
  lemma {:induction false} RepliesAppend(a: seq<Line>, b: seq<Line>)
    ensures Replies(a + b) == Replies(a) + Replies(b)
  {
    if a == [] {
      assert a + b == b;
    } else {
      var head := if a[0].ReplyLine? then [a[0]] else [];
      assert (a + b)[0] == a[0] && (a + b)[1..] == a[1..] + b;
      RepliesAppend(a[1..], b);
      calc {
        Replies(a + b);
        head + Replies(a[1..] + b);
        head + (Replies(a[1..]) + Replies(b));
        { assert head + (Replies(a[1..]) + Replies(b)) == (head + Replies(a[1..])) + Replies(b); }
        Replies(a) + Replies(b);
      }
    }
  }

  /** The failures a log written in two parts reports add up. */
  lemma {:induction false} FailuresAppend(a: seq<Line>, b: seq<Line>)
    ensures ReceiveFailures(a + b) == ReceiveFailures(a) + ReceiveFailures(b)
  {
    if a == [] {
      assert a + b == b;
    } else {
      assert (a + b)[1..] == a[1..] + b;
      FailuresAppend(a[1..], b);
    }
  }

  /** The reply line for a received datagram that the filter accepts, and nothing for any other receive. */
  function AcceptedLine(r: RecvOutcome, ident: int): seq<Line>
    requires r.Datagram? ==> HoldsEcho(r.data)
  {
    if r.Datagram? && MatchReply(r.data, ident).Some?
    then [ReplyLine(r.peer, MatchReply(r.data, ident).value)] else []
  }

  /** The lines for the replies the first `i` ticks of the trace deliver that the filter accepts. */
  function AcceptedLines(trace: seq<Tick>, ident: int, i: nat): seq<Line>
    requires WellFormedTrace(trace) && i <= |trace|
  {
    if i == 0 then [] else AcceptedLines(trace, ident, i - 1) + AcceptedLine(trace[i - 1].recv, ident)
  }

  /** How many receives among the first `i` ticks of the trace fail with an error other than a timeout. */
  function ReceiveErrors(trace: seq<Tick>, i: nat): (n: nat)
    requires i <= |trace|
    ensures n <= i
  {
    if i == 0 then 0 else ReceiveErrors(trace, i - 1) + (if trace[i - 1].recv.RecvError? then 1 else 0)
  }

  /** The send half of a pass writes neither a reply line nor a receive failure. */
  lemma SendLinesCount(due: bool, send: SendOutcome)
    ensures Replies(SendLines(due, send)) == [] && ReceiveFailures(SendLines(due, send)) == 0
  {
    if due && send == SendFailed {
      assert SendLines(due, send)[1..] == [];
    }
  }

  /** The receive half of a pass writes the reply line of an accepted reply, and a failure line for a receive error. */
  lemma RecvLinesCount(ident: int, r: RecvOutcome)
    requires r.Datagram? ==> HoldsEcho(r.data)
    ensures Replies(RecvLines(ident, r)) == AcceptedLine(r, ident)
    ensures ReceiveFailures(RecvLines(ident, r)) == (if r.RecvError? then 1 else 0)
  {
    var lines := RecvLines(ident, r);
    if lines != [] {
      assert |lines| == 1 && lines[1..] == [];
    }
  }

  /** A pass adds to the log's replies the reply line of an accepted reply and nothing else. */
  lemma StepPrints(ident: int, s: Pacer, t: Tick)
    requires WellFormedTick(t)
    ensures Replies(StepSpec(ident, s, t).log) == Replies(s.log) + AcceptedLine(t.recv, ident)
  {
    var sendLines := SendLines(Due(t.now, s.nextTs), t.send);
    var recvLines := RecvLines(ident, t.recv);
    assert StepSpec(ident, s, t).log == s.log + (sendLines + recvLines);
    RepliesAppend(s.log, sendLines + recvLines);
    RepliesAppend(sendLines, recvLines);
    SendLinesCount(Due(t.now, s.nextTs), t.send);
    RecvLinesCount(ident, t.recv);
    assert [] + AcceptedLine(t.recv, ident) == AcceptedLine(t.recv, ident);
  }

  /** A pass adds to the log one failure line for a receive error, and none otherwise. */
  lemma StepReportsFailure(ident: int, s: Pacer, t: Tick)
    requires WellFormedTick(t)
    ensures ReceiveFailures(StepSpec(ident, s, t).log) == ReceiveFailures(s.log) + (if t.recv.RecvError? then 1 else 0)
  {
    var sendLines := SendLines(Due(t.now, s.nextTs), t.send);
    var recvLines := RecvLines(ident, t.recv);
    assert StepSpec(ident, s, t).log == s.log + (sendLines + recvLines);
    FailuresAppend(s.log, sendLines + recvLines);
    FailuresAppend(sendLines, recvLines);
    SendLinesCount(Due(t.now, s.nextTs), t.send);
    RecvLinesCount(ident, t.recv);
  }

  /** Before the first pass the log holds no reply and no failure. */
  lemma NothingPrintedYet(ident: int, start: real, trace: seq<Tick>)
    requires WellFormedTrace(trace)
    ensures Replies(Passes(ident, start, trace, 0).log) == AcceptedLines(trace, ident, 0)
    ensures ReceiveFailures(Passes(ident, start, trace, 0).log) == ReceiveErrors(trace, 0)
  {
    assert Passes(ident, start, trace, 0).log == [];
  }

  /**
   * The tool prints every accepted reply, in arrival order, including one whose
   * sequence number wrapped to 0, and nothing else as a reply. Neither a
   * failed send nor a failed receive stops it.
   */
  lemma {:induction false} PassesPrintAccepted(ident: int, start: real, trace: seq<Tick>, i: nat)
    requires WellFormedTrace(trace) && i <= |trace|
    ensures Replies(Passes(ident, start, trace, i).log) == AcceptedLines(trace, ident, i)
  {
    if i > 0 {
      var before := Passes(ident, start, trace, i - 1);
      var line := AcceptedLine(trace[i - 1].recv, ident);
      PassesPrintAccepted(ident, start, trace, i - 1);
      StepPrints(ident, before, trace[i - 1]);
      assert Replies(Passes(ident, start, trace, i).log) == Replies(before.log) + line;
      assert AcceptedLines(trace, ident, i) == AcceptedLines(trace, ident, i - 1) + line;
    } else {
      NothingPrintedYet(ident, start, trace);
    }
  }

  /** The tool reports one failure per receive error, and no other. */
  lemma {:induction false} PassesReportFailures(ident: int, start: real, trace: seq<Tick>, i: nat)
    requires WellFormedTrace(trace) && i <= |trace|
    ensures ReceiveFailures(Passes(ident, start, trace, i).log) == ReceiveErrors(trace, i)
  {
    if i > 0 {
      var before := Passes(ident, start, trace, i - 1);
      PassesReportFailures(ident, start, trace, i - 1);
      StepReportsFailure(ident, before, trace[i - 1]);
    } else {
      NothingPrintedYet(ident, start, trace);
    }
  }

  /** Every pass keeps the schedule, whatever `sendto` reports. */
  lemma StepKeepsSchedule(ident: int, s: Pacer, t: Tick, start: real)
    requires WellFormedTick(t) && Schedule(s.sequence, s.nextTs, s.sent, start)
    ensures var s' := StepSpec(ident, s, t);
      Schedule(s'.sequence, s'.nextTs, s'.sent, start)
  {
    if Due(t.now, s.nextTs) {
      SendKeepsSchedule(s.sequence, s.nextTs, s.sent, start, t.now, t.stamp);
    }
  }

  /**
   * Requests are numbered 1, 2, 3, ... and at least a second apart, counting
   * failed sends too: `seq` is always one more than the number of requests
   * handed to `sendto`.
   */
  lemma {:induction false} PassesKeepSchedule(ident: int, start: real, trace: seq<Tick>, i: nat)
    requires WellFormedTrace(trace) && i <= |trace|
    ensures var s := Passes(ident, start, trace, i);
      Schedule(s.sequence, s.nextTs, s.sent, start)
  {
    if i > 0 {
      PassesKeepSchedule(ident, start, trace, i - 1);
      StepKeepsSchedule(ident, Passes(ident, start, trace, i - 1), trace[i - 1], start);
    }
  }

  /** With a process id outside 0..0xFFFF the identifier check never passes: no reply is ever printed. */
  lemma {:induction false} WidePidPrintsNothing(ident: int, trace: seq<Tick>, i: nat)
    requires WellFormedTrace(trace) && i <= |trace|
    requires ident < 0 || ident > 0xFFFF
    ensures AcceptedLines(trace, ident, i) == []
  {
    if i > 0 {
      if trace[i - 1].recv.Datagram? {
        WideIdentNeverMatches(trace[i - 1].recv.data, ident);
      }
      WidePidPrintsNothing(ident, trace, i - 1);
    }
  }

  // ---------------------------------------------------------------------
  // The loop as the source writes it
  // ---------------------------------------------------------------------

  /** The loop of `ping`: the process identifier, the start of the clock, and the variables a pass updates. */
  class ContinuousPing {
    const ident: int
    const start: real
    var sequence: int
    var nextTs: real
    var sent: seq<Attempt>
    var log: seq<Line>

    function State(): Pacer
      reads this
    {
      Pacer(sequence, nextTs, sent, log)
    }

    /** The variables agree with the requests sent so far. */
    ghost predicate Valid()
      reads this
    {
      Schedule(sequence, nextTs, sent, start)
    }

    /** `next_ts = get_timestamp(); ident = getpid(); seq = 1`. */
    constructor(ident: int, start: real)
      ensures this.ident == ident && this.start == start
      ensures State() == Initial(start) && Valid()
    {
      this.ident := ident;
      this.start := start;
      sequence := 1;
      nextTs := start;
      sent := [];
      log := [];
    }

    /** One pass of the `for (;;)` loop. */
    method Step(t: Tick)
      requires WellFormedTick(t) && Valid()
      modifies this
      ensures State() == StepSpec(ident, old(State()), t) && Valid()
    {
      ghost var before := State();
      var currentTs := t.now;
      if Due(currentTs, nextTs) {
        var ret, attempt, packet := SendEchoRequest(ident, sequence, t);
        sent := sent + [attempt];
        if ret == -1 {
          log := log + [SendFailedLine];
        }
        nextTs := currentTs + 1.0;
        sequence := sequence + 1;
      }
      var report := RecvEchoReply(t.recv, ident);
      if report.ret == -1 {
        log := log + [ReceiveFailedLine];
      } else {
        log := log + report.printed;
      }
      StepKeepsSchedule(ident, before, t, start);
    }
  }

  /**
   * `ping(ip)`: -1 when the address does not parse or the socket cannot be
   * created, -1 with the socket left open when the receive timeout cannot be
   * set, and otherwise a loop that never returns; here it runs over the ticks
   * of `trace` and ends still polling, with the state `Passes` gives.
   */
  method Ping(ip: string, host: Host, trace: seq<Tick>) returns (status: PingStatus, socketOpen: bool, final: Pacer)
    requires WellFormedTrace(trace)
    ensures status == StillPolling <==> host.inetAton(ip) && host.socketOk && host.sockoptOk
    ensures status != StillPolling ==> status == Returned(-1) && final == Initial(host.startTs)
    ensures socketOpen <==> host.inetAton(ip) && host.socketOk
    ensures status == StillPolling ==> final == Passes(host.pid, host.startTs, trace, |trace|)
  {
    final := Initial(host.startTs);
    if !host.inetAton(ip) {
      // inet_aton rejected the address
      return Returned(-1), false, final;
    }
    if !host.socketOk {
      // socket() failed
      return Returned(-1), false, final;
    }
    if !host.sockoptOk {
      // setsockopt failed: the socket is not closed
      return Returned(-1), true, final;
    }
    var pinger := new ContinuousPing(host.pid, host.startTs);
    var i := 0;
    while i < |trace|
      invariant 0 <= i <= |trace|
      invariant pinger.ident == host.pid && pinger.start == host.startTs && pinger.Valid()
      invariant pinger.State() == Passes(host.pid, host.startTs, trace, i)
    {
      pinger.Step(trace[i]);
      i := i + 1;
    }
    status, socketOpen, final := StillPolling, true, pinger.State();
  }

  /** `main`: -1 without an address argument, otherwise `ping(argv[1])`. */
  method Launch(args: seq<string>, host: Host, trace: seq<Tick>) returns (status: PingStatus, final: Pacer)
    requires WellFormedTrace(trace)
    ensures |args| < 2 ==> status == Returned(-1)
    ensures status != Returned(0)
    ensures |args| >= 2 && status == StillPolling ==> final == Passes(host.pid, host.startTs, trace, |trace|)
  {
    if |args| < 2 {
      // argc < 2: no address given
      return Returned(-1), Initial(host.startTs);
    }
    var socketOpen;
    status, socketOpen, final := Ping(args[1], host, trace);
  }

  /**
   * A run that reaches its loop prints exactly the accepted replies of the
   * trace and one failure line per receive error, and keeps the schedule.
   */
  lemma RunPrintsAccepted(host: Host, trace: seq<Tick>)
    requires WellFormedTrace(trace)
    ensures var s := Passes(host.pid, host.startTs, trace, |trace|);
      && Replies(s.log) == AcceptedLines(trace, host.pid, |trace|)
      && ReceiveFailures(s.log) == ReceiveErrors(trace, |trace|)
      && Schedule(s.sequence, s.nextTs, s.sent, host.startTs)
  {
    PassesPrintAccepted(host.pid, host.startTs, trace, |trace|);
    PassesReportFailures(host.pid, host.startTs, trace, |trace|);
    PassesKeepSchedule(host.pid, host.startTs, trace, |trace|);
  }
}
