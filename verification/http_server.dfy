/**
 * The HTTP front end of the ping server, up to the point where a response is
 * written: `parse_request` takes the address and the count out of the query
 * of a GET request, and `handle_client` turns the outcome into a status,
 * calling `ping` only with a count in 1..MAX_RESULTS.
 *
 * A request is the text C sees: the characters before the terminating NUL.
 */
module HttpServer {
  import opened IcmpHeader
  import opened ProbeSession
  import opened ServerPing
  import opened Wrappers

  /** The most results one request may ask for, and the size of the handler's result array. */
  const MAX_RESULTS: nat := 100

  /** The longest address `parse_request` copies; with its terminator it fills the 16-byte `ip` buffer. */
  const IP_CHARS: nat := 15

  /**
   * A C string: no NUL before its end, and every character one byte (a code
   * point below 0x100), so counting characters counts the bytes C sees.
   */
  predicate CString(s: string)
  {
    forall k :: 0 <= k < |s| ==> s[k] != '\0' && s[k] as int < 0x100
  }

  // ---------------------------------------------------------------------
  // strstr
  // ---------------------------------------------------------------------

  /** `pat` occurs in `s` starting at index `k`. */
  predicate OccursAt(s: string, pat: string, k: nat)
  {
    k + |pat| <= |s| && s[k..k + |pat|] == pat
  }

  /** The first index from `k` on where `pat` occurs in `s`, as `strstr` finds it. */
  function FindFrom(s: string, pat: string, k: nat): (r: Option<nat>)
    requires k <= |s|
    ensures r.Some? ==> k <= r.value && OccursAt(s, pat, r.value)
    ensures r.Some? ==> forall j :: k <= j < r.value ==> !OccursAt(s, pat, j)
    ensures r.None? ==> forall j :: k <= j <= |s| ==> !OccursAt(s, pat, j)
    decreases |s| - k
  {
    if OccursAt(s, pat, k) then Some(k)
    else if k == |s| then None
    else FindFrom(s, pat, k + 1)
  }

  /** `strstr(s, pat)`: the first occurrence of `pat` in `s`, if any. */
  function FindFirst(s: string, pat: string): (r: Option<nat>)
    ensures r.Some? ==> OccursAt(s, pat, r.value) && forall j :: 0 <= j < r.value ==> !OccursAt(s, pat, j)
    ensures r.None? <==> forall j :: 0 <= j <= |s| ==> !OccursAt(s, pat, j)
  {
    FindFrom(s, pat, 0)
  }

  // ---------------------------------------------------------------------
  // atoi
  // ---------------------------------------------------------------------

  /** The characters `isspace` accepts in the C locale. */
  predicate IsSpace(c: char)
  {
    c == ' ' || c == '\t' || c == '\n' || c == '\U{0B}' || c == '\U{0C}' || c == '\r'
  }

  predicate IsDigit(c: char)
  {
    '0' <= c <= '9'
  }

  /** The index of the first character at or after `k` that is not white space. */
  function SkipSpaces(s: string, k: nat): (r: nat)
    requires k <= |s|
    ensures k <= r <= |s| && (r < |s| ==> !IsSpace(s[r]))
    ensures forall j :: k <= j < r ==> IsSpace(s[j])
    decreases |s| - k
  {
    if k < |s| && IsSpace(s[k]) then SkipSpaces(s, k + 1) else k
  }

  /** The index just after the run of digits starting at `k`. */
  function DigitsEnd(s: string, k: nat): (r: nat)
    requires k <= |s|
    ensures k <= r <= |s| && (r < |s| ==> !IsDigit(s[r]))
    ensures forall j :: k <= j < r ==> IsDigit(s[j])
    decreases |s| - k
  {
    if k < |s| && IsDigit(s[k]) then DigitsEnd(s, k + 1) else k
  }

  /** The decimal value of the digits `s[k..end]`. */
  function DigitsValue(s: string, k: nat, end: nat): nat
    requires k <= end <= |s|
    requires forall j :: k <= j < end ==> IsDigit(s[j])
    decreases end
  {
    if end == k then 0
    else
      assert IsDigit(s[end - 1]);
      DigitsValue(s, k, end - 1) * 10 + (s[end - 1] as int - '0' as int)
  }

  /**
   * `atoi`: optional white space, an optional sign, then the value of the
   * leading digits; 0 when there are none. Overflow of `int` is not modelled.
   */
  function Atoi(s: string): int
  {
    var k := SkipSpaces(s, 0);
    var negative := k < |s| && s[k] == '-';
    var start := if k < |s| && (s[k] == '-' || s[k] == '+') then k + 1 else k;
    var value: int := DigitsValue(s, start, DigitsEnd(s, start));
    if negative then -value else value
  }

  /** The decimal digits of `n`, most significant first. */
  function Decimal(n: nat): (r: string)
    ensures |r| >= 1 && forall j :: 0 <= j < |r| ==> IsDigit(r[j])
  {
    if n < 10 then [('0' as int + n) as char]
    else Decimal(n / 10) + [('0' as int + n % 10) as char]
  }

  /** The digits of `n` read back from the start of a string give `n`. */
  lemma {:induction false} DigitsValueDecimal(s: string, n: nat)
    requires |Decimal(n)| <= |s| && s[..|Decimal(n)|] == Decimal(n)
    ensures forall j :: 0 <= j < |Decimal(n)| ==> IsDigit(s[j])
    ensures DigitsValue(s, 0, |Decimal(n)|) == n
  {
    var d := Decimal(n);
    assert forall j :: 0 <= j < |d| ==> s[j] == d[j];
    if n >= 10 {
      var front := Decimal(n / 10);
      assert d == front + [('0' as int + n % 10) as char];
      assert s[..|front|] == front by {
        assert s[..|front|] == s[..|d|][..|front|];
      }
      DigitsValueDecimal(s, n / 10);
      assert s[|d| - 1] == d[|d| - 1];
    }
  }

  /** `atoi` reads back what decimal printing writes: the digits of `n`, followed by anything that is not a digit. */
  lemma AtoiDecimal(n: nat, rest: string)
    requires rest == [] || !IsDigit(rest[0])
    ensures Atoi(Decimal(n) + rest) == n
  {
    var d := Decimal(n);
    var s := d + rest;
    assert s[0] == d[0] && s[..|d|] == d;
    assert |d| == |s| || s[|d|] == rest[0];
    DigitsEndAt(s, 0, |d|);
    DigitsValueDecimal(s, n);
  }

  /** A minus sign in front of the digits of `n` makes `atoi` read `-n`. */
  lemma AtoiNegative(n: nat, rest: string)
    requires rest == [] || !IsDigit(rest[0])
    ensures Atoi("-" + Decimal(n) + rest) == -(n as int)
  {
    var d := Decimal(n);
    var s := "-" + d + rest;
    var tail := d + rest;
    assert s[0] == '-' && s[1..] == tail;
    assert forall j :: 1 <= j < 1 + |d| ==> s[j] == d[j - 1];
    assert 1 + |d| == |s| || s[1 + |d|] == rest[0];
    DigitsEndAt(s, 1, 1 + |d|);
    DigitsValueShift(s, 1, |d|);
    assert tail[..|d|] == d;
    DigitsValueDecimal(tail, n);
  }

  /** A run of digits that ends at a non-digit or at the end is the whole run `DigitsEnd` finds. */
  lemma {:induction false} DigitsEndAt(s: string, k: nat, end: nat)
    requires k <= end <= |s|
    requires forall j :: k <= j < end ==> IsDigit(s[j])
    requires end == |s| || !IsDigit(s[end])
    ensures DigitsEnd(s, k) == end
    decreases end - k
  {
    if k < end {
      DigitsEndAt(s, k + 1, end);
    }
  }

  /** The value of digits does not depend on where they sit. */
  lemma {:induction false} DigitsValueShift(s: string, k: nat, len: nat)
    requires k + len <= |s|
    requires forall j :: k <= j < k + len ==> IsDigit(s[j])
    ensures forall j :: 0 <= j < len ==> IsDigit(s[k..][j])
    ensures DigitsValue(s, k, k + len) == DigitsValue(s[k..], 0, len)
  {
    assert forall j :: 0 <= j < len ==> s[k..][j] == s[k + j];
    if len > 0 {
      DigitsValueShift(s, k, len - 1);
    }
  }

  // ---------------------------------------------------------------------
  // parse_request
  // ---------------------------------------------------------------------

  /** The characters that end the address in a query: `&`, space, CR, LF and the terminator. */
  predicate EndsIp(c: char)
  {
    c == '&' || c == ' ' || c == '\r' || c == '\n' || c == '\0'
  }

  /** The character at index `k` of a C string, the terminating NUL at its end. */
  function CharAt(s: string, k: nat): char
    requires k <= |s|
  {
    if k < |s| then s[k] else '\0'
  }

  /** The address text from index `k` on: up to `budget` characters, stopping before the first that ends it. */
  function IpFrom(s: string, k: nat, budget: nat): (ip: string)
    requires k <= |s|
    ensures |ip| <= budget && k + |ip| <= |s|
    decreases budget
  {
    if budget == 0 || EndsIp(CharAt(s, k)) then []
    else [s[k]] + IpFrom(s, k + 1, budget - 1)
  }

  /**
   * The address field is the longest run of at most 15 characters after `k`
   * that holds no delimiter: it is what the text holds there, and it stops
   * at 15 characters, at a delimiter, or at the end of the string.
   */
  lemma {:induction false} IpFromShape(s: string, k: nat, budget: nat)
    requires k <= |s|
    ensures var ip := IpFrom(s, k, budget);
      && ip == s[k..k + |ip|]
      && (forall j :: 0 <= j < |ip| ==> !EndsIp(ip[j]))
      && (|ip| == budget || EndsIp(CharAt(s, k + |ip|)))
    decreases budget
  {
    if budget > 0 && !EndsIp(CharAt(s, k)) {
      IpFromShape(s, k + 1, budget - 1);
    }
  }

  /** The outcome of `parse_request`: 501, 400, or 200 with the address and count it wrote. */
  datatype Parsed = NotImplemented | BadRequest | Query(ip: string, icmpNum: int)

  /** The status code `parse_request` returns. */
  function StatusOf(p: Parsed): (code: int)
    ensures code == 200 <==> p.Query?
  {
    match p
    case NotImplemented => 501
    case BadRequest => 400
    case Query(_, _) => 200
  }

  /** `strncmp(request, "GET", 3) == 0`: only the first three characters are compared. */
  predicate StartsWithGet(request: string)
  {
    |request| >= 3 && request[..3] == "GET"
  }

  /**
   * What `parse_request` decides: 501 unless the request starts with "GET",
   * 400 unless both "ip=" and "icmp_num=" occur in it, and otherwise the
   * address after the first "ip=" and `atoi` of the text after the first
   * "icmp_num=".
   */
  function Parse(request: string): (p: Parsed)
    ensures p == NotImplemented <==> !StartsWithGet(request)
    ensures p == BadRequest <==> StartsWithGet(request) && (FindFirst(request, "ip=") == None || FindFirst(request, "icmp_num=") == None)
    ensures p.Query? ==> |p.ip| < IPV4_LEN
  {
    if !StartsWithGet(request) then NotImplemented
    else
      var ipAt := FindFirst(request, "ip=");
      var numAt := FindFirst(request, "icmp_num=");
      if ipAt.None? || numAt.None? then BadRequest
      else Query(IpFrom(request, ipAt.value + 3, IP_CHARS), Atoi(request[numAt.value + 9..]))
  }

  /**
   * The copy loop of `parse_request`: at most 15 characters from index `k`,
   * stopping at a delimiter; the terminator at the end of the string stops it
   * like the others.
   */
  method CopyIp(request: string, k: nat) returns (ip: string)
    requires k <= |request|
    ensures ip == IpFrom(request, k, IP_CHARS)
  {
    ip := [];
    var i := 0;
    while i < IP_CHARS
      invariant 0 <= i <= IP_CHARS && k + i <= |request|
      invariant ip + IpFrom(request, k + i, IP_CHARS - i) == IpFrom(request, k, IP_CHARS)
    {
      var c := CharAt(request, k + i);
      if EndsIp(c) {
        break;
      }
      ip := ip + [c];
      i := i + 1;
    }
  }

  /**
   * `parse_request(request, ip, &icmp_num)`: the status it returns and, on
   * 200, the address and count it writes through its out-parameters.
   */
  method ParseRequest(request: string) returns (status: int, ip: string, icmpNum: int)
    requires CString(request)
    ensures status == StatusOf(Parse(request))
    ensures status == 200 ==> ip == Parse(request).ip && icmpNum == Parse(request).icmpNum
  {
    ip, icmpNum := [], 0;
    if !(|request| >= 3 && request[..3] == "GET") {
      return 501, ip, icmpNum;
    }
    var ipStart := FindFirst(request, "ip=");
    var icmpNumStart := FindFirst(request, "icmp_num=");
    if ipStart == None || icmpNumStart == None {
      return 400, ip, icmpNum;
    }
    ip := CopyIp(request, ipStart.value + 3);
    icmpNum := Atoi(request[icmpNumStart.value + 9..]);
    status := 200;
  }

  /** The request a client sends to ping `addr` `n` times. */
  function PingQuery(addr: string, n: nat): string
  {
    "GET /?ip=" + addr + "&icmp_num=" + Decimal(n) + " HTTP/1.1\r\n"
  }

  /** Dotted IPv4 text: digits and dots only. */
  predicate DottedText(addr: string)
  {
    forall j :: 0 <= j < |addr| ==> IsDigit(addr[j]) || addr[j] == '.'
  }

  /** Where the parts of a query sit. */
  lemma QueryLayout(addr: string, n: nat)
    ensures var s := PingQuery(addr, n);
      && |s| > 19 + |addr|
      && s[..3] == "GET" && s[..9] == "GET /?ip="
      && s[9..9 + |addr|] == addr && s[9 + |addr|] == '&'
      && s[10 + |addr|..19 + |addr|] == "icmp_num="
      && s[19 + |addr|..] == Decimal(n) + " HTTP/1.1\r\n"
  {
    var head := "GET /?ip=" + addr + "&icmp_num=";
    var s := PingQuery(addr, n);
    assert s == head + (Decimal(n) + " HTTP/1.1\r\n");
    assert s[..|head|] == head;
    assert head[..9] == "GET /?ip=" && head[9..9 + |addr|] == addr && head[9 + |addr|] == '&';
    assert head[10 + |addr|..] == "icmp_num=";
  }

  /** A pattern found at `k` and nowhere before is what `strstr` returns. */
  lemma FirstAt(s: string, pat: string, k: nat)
    requires OccursAt(s, pat, k) && forall j :: 0 <= j < k ==> !OccursAt(s, pat, j)
    ensures FindFirst(s, pat) == Some(k)
  {
  }

  /** The first "ip=" of a query is the one after "GET /?". */
  lemma QueryIpFirst(addr: string, n: nat)
    requires DottedText(addr)
    ensures FindFirst(PingQuery(addr, n), "ip=") == Some(6)
  {
    var s := PingQuery(addr, n);
    QueryLayout(addr, n);
    assert s[6..9] == s[..9][6..9];
    forall j | 0 <= j < 6
      ensures !OccursAt(s, "ip=", j)
    {
      assert s[j] == s[..9][j];
    }
    FirstAt(s, "ip=", 6);
  }

  /** The first "icmp_num=" of a query is the one after the address, since a dotted address holds no 'i'. */
  lemma QueryCountFirst(addr: string, n: nat)
    requires DottedText(addr)
    ensures FindFirst(PingQuery(addr, n), "icmp_num=") == Some(10 + |addr|)
  {
    var s := PingQuery(addr, n);
    QueryLayout(addr, n);
    forall j | 0 <= j < 10 + |addr|
      ensures !OccursAt(s, "icmp_num=", j)
    {
      if j < 9 {
        assert s[j] == s[..9][j] && s[7] == s[..9][7];
      } else if j < 9 + |addr| {
        assert s[j] == s[9..9 + |addr|][j - 9];
      }
    }
    FirstAt(s, "icmp_num=", 10 + |addr|);
  }

  /** A GET request holding both keys parses to the text after the first occurrence of each. */
  lemma ParseFound(request: string, ipAt: nat, numAt: nat)
    requires StartsWithGet(request)
    requires FindFirst(request, "ip=") == Some(ipAt) && FindFirst(request, "icmp_num=") == Some(numAt)
    ensures ipAt + 3 <= |request| && numAt + 9 <= |request|
    ensures Parse(request) == Query(IpFrom(request, ipAt + 3, IP_CHARS), Atoi(request[numAt + 9..]))
  {
  }

  /**
   * Round trip: the query a client builds for a dotted address of at most 15
   * characters and a count `n` parses back to that address and count.
   */
  lemma ParsesQuery(addr: string, n: nat)
    requires DottedText(addr) && |addr| <= IP_CHARS
    ensures Parse(PingQuery(addr, n)) == Query(addr, n)
  {
    var s := PingQuery(addr, n);
    QueryLayout(addr, n);
    QueryIpFirst(addr, n);
    QueryCountFirst(addr, n);
    ParseFound(s, 6, 10 + |addr|);
    IpFromExact(s, 9, addr, IP_CHARS);
    AtoiDecimal(n, " HTTP/1.1\r\n");
  }

  /** Text without delimiters, no longer than the budget and followed by `&`, is copied whole. */
  lemma {:induction false} IpFromExact(s: string, k: nat, addr: string, budget: nat)
    requires k + |addr| < |s| && s[k..k + |addr|] == addr && s[k + |addr|] == '&'
    requires DottedText(addr) && |addr| <= budget
    ensures IpFrom(s, k, budget) == addr
    decreases |addr|
  {
    if addr != [] {
      assert s[k] == addr[0];
      assert s[k + 1..k + 1 + |addr[1..]|] == addr[1..];
      IpFromExact(s, k + 1, addr[1..], budget - 1);
    }
  }

  // ---------------------------------------------------------------------
  // handle_client
  // ---------------------------------------------------------------------

  /**
   * What `handle_client` does with a connection: nothing when the receive
   * failed, a status line otherwise (with the results of a 200), or it is
   * still inside `ping` when the trace runs out.
   */
  datatype Handled = Dropped | Responded(code: int, rows: seq<PingResult>) | AwaitingPing

  /**
   * The decisions of `handle_client`: a failed receive closes the connection
   * without a response; a parse failure answers its status; a count outside
   * 1..MAX_RESULTS answers 400; a failed `ping` answers 500; otherwise 200
   * with the results `ping` stored.
   */
  function HandleSpec(request: Option<string>, host: Host, trace: seq<Tick>): Handled
    requires WellFormedTrace(trace)
  {
    match request
    case None => Dropped
    case Some(text) =>
      match Parse(text)
      case Query(ip, n) =>
        if n <= 0 || n > MAX_RESULTS then Responded(400, [])
        else
          var run := PingSpec(ip, n, host, trace);
          if run.status == StillPolling then AwaitingPing
          else if run.status == Returned(0) then Responded(200, run.probe.collected)
          else Responded(500, [])
      case other => Responded(StatusOf(other), [])
  }

  /**
   * Every response carries one of the four documented statuses, and a 200
   * carries exactly the count asked for: the first accepted replies, in
   * arrival order.
   */
  lemma HandleResponds(request: Option<string>, host: Host, trace: seq<Tick>)
    requires WellFormedTrace(trace)
    ensures var h := HandleSpec(request, host, trace);
      && (h.Responded? ==> h.code in {200, 400, 500, 501})
      && (h.Responded? && h.code == 200 ==>
            && request.Some? && Parse(request.value).Query?
            && var n := Parse(request.value).icmpNum;
            && 1 <= n <= MAX_RESULTS
            && |Accepted(trace, host.pid, 0)| >= n
            && h.rows == Accepted(trace, host.pid, 0)[..n])
  {
    if request.Some? && Parse(request.value).Query? {
      var n := Parse(request.value).icmpNum;
      if 1 <= n <= MAX_RESULTS {
        PingDelivers(Parse(request.value).ip, n, host, trace);
      }
    }
  }

  /**
   * `handle_client`: receives the request (`None` when `recv` failed), parses
   * it, checks the count and only then calls `ping` with an array of
   * MAX_RESULTS results. Reports the count `ping` was called with, if it was.
   */
  method HandleClient(request: Option<string>, host: Host, trace: seq<Tick>) returns (handled: Handled, pingedWith: Option<int>)
    requires request.Some? ==> CString(request.value)
    requires WellFormedTrace(trace)
    ensures handled == HandleSpec(request, host, trace)
    ensures pingedWith.Some? ==> 1 <= pingedWith.value <= MAX_RESULTS
    ensures pingedWith.Some? <==> request.Some? && Parse(request.value).Query? && 1 <= Parse(request.value).icmpNum <= MAX_RESULTS
  {
    pingedWith := None;
    if request.None? {
      // recv from the client failed
      return Dropped, pingedWith;
    }
    var status, ip, icmpNum := ParseRequest(request.value);
    if status != 200 {
      return Responded(status, []), pingedWith;
    }
    if icmpNum <= 0 || icmpNum > MAX_RESULTS {
      return Responded(400, []), pingedWith;
    }
    var results := new PingResult[MAX_RESULTS](_ => DEFAULT_RESULT);
    pingedWith := Some(icmpNum);
    var pingStatus, socketOpen, sent := Ping(ip, icmpNum, results, host, trace);
    ghost var run := PingSpec(ip, icmpNum, host, trace);
    if pingStatus == StillPolling {
      handled := AwaitingPing;
    } else if pingStatus != Returned(0) {
      handled := Responded(500, []);
    } else {
      PingDelivers(ip, icmpNum, host, trace);
      handled := Responded(200, results[..icmpNum]);
    }
  }
}
