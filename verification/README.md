# ICMP echo engine of the dialing app

This project models the ICMP ping core of the dialing app in Dafny. The core has two clients:

- the standalone `icmp_ping` tool, which pings one address for ever and prints every accepted reply;
- the ping server, whose `ping(ip, icmp_num, result)` stores the first `icmp_num` accepted replies in the caller's array. Its HTTP front end (`parse_request`, `handle_client`) decides, from a `GET /?ip=...&icmp_num=...` request, whether `ping` is called at all and which status is answered.

The model is split into modules, one per part of the program:

| module | file | models |
|---|---|---|
| `IcmpHeader` | `icmp_header.dfy` | the constants of `icmp_ping.h`, the packed layout of `struct icmp_echo`, `struct ping_result` |
| `InternetChecksum` | `checksum.dfy` | `calculate_checksum`, proved equal to the Internet checksum of RFC 1071 |
| `EchoCodec` | `echo_codec.dfy` | the bytes of the packed struct, the request `send_echo_request` builds, the reply filter of `recv_echo_reply` |
| `ProbeSession` | `probe_session.dfy` | the transport and clock both loops are driven by, `send_echo_request`, the sending schedule |
| `ServerPing` | `server_ping.dfy` | the server's `recv_echo_reply` and the bounded `ping`, as a specification function (`Collect`) and as the loop writing into an `array` |
| `StandalonePing` | `standalone_ping.dfy` | the tool's `recv_echo_reply`, `ping` and `main`; the loop is a class whose `Step` is one pass |
| `HttpServer` | `http_server.dfy` | `strstr`, `atoi`, `parse_request` and the decisions of `handle_client` |
| `Wrappers` | `wrappers.dfy` | `Option` |

`calculate_checksum`, `send_echo_request` and the Echo filter are the same code in both programs (`linux/icmp_ping/icmp_ping.c:68-184` and `linux/ping_server/src/icmp_ping.c:10-121`). The table cites the server copy.

Sockets, the clock and `getpid` are parameters, not modelled code:

- A `Host` value says whether `inet_aton` accepts a text, and whether the socket and its receive timeout can be set up. It also gives the process id and the start time.
- Each pass of a loop consumes one `Tick`. A tick holds the clock reading, the 8 timestamp bytes a request would carry, what `sendto` reports, and what `recvfrom` returns: a datagram with its sender's dotted text, a timeout, or another error.
- Neither loop ends by itself while replies are missing. A run therefore consumes a finite trace of ticks. When the trace runs out first, the run ends in the state `StillPolling`.

The main properties proved:

- The checksum routine computes the RFC 1071 checksum. A message whose checksum was computed while bytes 2-3 were zero, and then stored there, has checksum 0 when recomputed: its one's-complement word sum is 0xFFFF.
- Every request is 27 bytes, type 8, with the identifier and sequence number truncated to 16 bits at their packed offsets. Its checksum validates.
- The reply a peer returns for a request is accepted under the sender's identifier, with the truncated sequence number, and under no other identifier. The host's own request is never accepted. A process id above 0xFFFF never matches.
- For `icmp_num >= 1`, the server's `ping` returns 0 exactly when `icmp_num` results are stored, and it never stores more; a run that is still polling has accepted fewer. It then holds the first `icmp_num` accepted replies, in arrival order. A failed send returns -1 with the socket closed. Requests are numbered 1, 2, 3, ... and at least one second apart. The array loop stores exactly what the specification says, and no other slot changes.
- The tool prints exactly the accepted replies, in arrival order, and one failure line per receive error. Its failed sends still advance `seq` and `next_ts`.
- `parse_request` reads back the query a client builds. `handle_client` answers only 200, 400, 500 or 501, and calls `ping` only with a count in 1..100. A 200 carries exactly the requested number of results.

## Model

| member | source | states |
|---|---|---|
| `IcmpHeader.PackedLayout` | linux/ping_server/src/icmp_ping.h:41-50 | with no padding, the fields of `struct icmp_echo` start at 0, 1, 2, 4, 6, 8 and 16, and the struct is 27 bytes |
| `InternetChecksum.CalculateChecksum` | linux/ping_server/src/icmp_ping.c:10-35 | the routine (odd byte first, carries folded into a `uint32_t` that provably never wraps, complement masked to 16 bits) returns the RFC 1071 checksum of the buffer, a value below 0x10000 |
| `InternetChecksum.CarryStep` | linux/ping_server/src/icmp_ping.c:24-29 | one loop step adds a word and folds the carry, and keeps the accumulator at most 0xFFFF |
| `InternetChecksum.MaskedComplement` | linux/ping_server/src/icmp_ping.c:33-34 | `~sum & 0xffff` of a 32-bit sum of at most 0xFFFF is `0xFFFF - sum` |
| `InternetChecksum.FoldWordsIsEndAround` | linux/ping_server/src/icmp_ping.c:22-31 | folding the whole words with end-around carry gives the one's-complement value of their plain sum, and stays at most 0xFFFF |
| `InternetChecksum.TrailingByteFirst` | linux/ping_server/src/icmp_ping.c:16-20 | adding an odd trailing byte, as a zero-padded high byte, before the other words gives the RFC's word sum |
| `InternetChecksum.SplitMatchesRoutine` | linux/ping_server/src/icmp_ping.c:16-31 | what the routine folds, in its own order, is the one's-complement value of the reference word sum |
| `InternetChecksum.WordSumAppend` | linux/ping_server/src/icmp_ping.c:22-31 | the word sum of two buffers joined at an even boundary is the sum of their word sums |
| `InternetChecksum.PatchChecksum` | linux/ping_server/src/icmp_ping.c:47 | storing a checksum big-endian changes bytes 2-3 only, and they read back as that checksum |
| `InternetChecksum.SumWithComplement` | linux/ping_server/src/icmp_ping.c:33-34 | a one's-complement sum plus its complement is 0xFFFF |
| `InternetChecksum.ChecksumValidates` | linux/ping_server/src/icmp_ping.c:47 | a message whose checksum was computed with bytes 2-3 zero, then stored there, has checksum 0 |
| `InternetChecksum.Rfc1071Example` | linux/ping_server/src/icmp_ping.c:10-35 | the worked example of section 3 of RFC 1071 sums to 0x2ddf0, checksum 0x220d |
| `InternetChecksum.ZeroRequestVector` | linux/ping_server/src/icmp_ping.c:10-35 | the 27-byte message that is all zero but for type 8 has checksum 0xF7FF |
| `EchoCodec.Be16Word` | linux/ping_server/src/icmp_ping.c:43-44 | a 16-bit value stored by `htons` reads back, high byte first, as that value |
| `EchoCodec.DecodeEncode` | linux/ping_server/src/icmp_ping.h:41-50 | reading back the 27 bytes of a struct gives the struct |
| `EchoCodec.EncodeDecode` | linux/ping_server/src/icmp_ping.h:41-50 | writing out the struct read from 27 bytes gives those bytes |
| `EchoCodec.EncodeWithChecksum` | linux/ping_server/src/icmp_ping.c:47 | setting the checksum field changes bytes 2-3 of the encoding and nothing else |
| `EchoCodec.StrNCpy` | linux/ping_server/src/icmp_ping.c:45 | `strncpy` writes exactly n bytes: the source, then NULs |
| `EchoCodec.DecodeSummed` | linux/ping_server/src/icmp_ping.c:47 | a summed message is 27 bytes and reads back as its fields with the computed checksum |
| `EchoCodec.EncodeEchoRequest` | linux/ping_server/src/icmp_ping.c:37-47 | the struct built field by field, then summed, is the Echo Request, 27 bytes, with checksum 0 |
| `EchoCodec.EchoRequestLayout` | linux/ping_server/src/icmp_ping.c:39-47 | a request is type 8, code 0, identifier and sequence number modulo 2^16 at bytes 4-5 and 6-7, the stamp at 8-15, the ten digits of the tag and a NUL at 16-26, and at 2-3 the checksum of the message with that field zero |
| `EchoCodec.EchoRequestValidates` | linux/ping_server/src/icmp_ping.c:47 | every request passes the receiver's checksum test |
| `EchoCodec.IcmpOffset` | linux/ping_server/src/icmp_ping.c:94-96 | the ICMP message starts at four times the low nibble of byte 0: a multiple of 4, at most 60 |
| `EchoCodec.MatchReply` | linux/ping_server/src/icmp_ping.c:97-106 | a message is accepted exactly when it is type 0, code 0 and carries the identifier, and then its sequence number is returned |
| `EchoCodec.WideIdentNeverMatches` | linux/ping_server/src/icmp_ping.c:103-106 | an identifier outside 0..0xFFFF never equals the 16-bit field: nothing is accepted |
| `EchoCodec.BehindHeader` | linux/ping_server/src/icmp_ping.c:94-96 | behind an IPv4 header of the length its byte 0 states, the message read is the one that follows the header |
| `EchoCodec.ReplyFields` | linux/ping_server/src/icmp_ping.c:94-106 | the fields read from a peer's reply behind a header are type 0, code 0, and the identifier and sequence number echoed |
| `EchoCodec.ReplyRoundTrip` | linux/ping_server/src/icmp_ping.c:94-117 | the reply to a request is accepted under its identifier with the sequence number modulo 2^16, and rejected under any other identifier |
| `EchoCodec.OwnRequestNeverMatches` | linux/ping_server/src/icmp_ping.c:97-100 | an Echo Request seen on the raw socket is never accepted, whatever identifier is expected |
| `ProbeSession.SendKeepsSchedule` | linux/ping_server/src/icmp_ping.c:164-176 | a due request sent with `seq`, then `next_ts = now + 1` and `seq++`, keeps requests numbered from 1 and at least a second apart |
| `ProbeSession.SendEchoRequest` | linux/ping_server/src/icmp_ping.c:37-64 | returns 0 on a successful `sendto` and -1 otherwise; the packet is the request for the identifier and sequence number, with checksum 0 |
| `ServerPing.RecvEchoReply` | linux/ping_server/src/icmp_ping.c:66-121 | an accepted reply gives the sender's text and its sequence number; a timeout, an error or a rejected datagram gives the all-zero default result |
| `ServerPing.Received` | linux/ping_server/src/icmp_ping.c:178-183 | a pass stores at most one result, and its two strings fit the 16- and 40-byte buffers of `struct ping_result` with their terminators, as the `strcpy` at line 116 needs (`icmp_ping.h:57-58`), given that the peer text is a dotted quad (assumed by `ProbeSession.WellFormedTick`) |
| `ServerPing.StoredIffAccepted` | linux/ping_server/src/icmp_ping.c:178-183 | a receive is stored exactly when its reply is accepted and its sequence number is not 0 |
| `ServerPing.WithAttempt` | linux/ping_server/src/icmp_ping.c:164-173 | a due request is added to the requests handed to `sendto`; nothing else changes |
| `ServerPing.AfterPass` | linux/ping_server/src/icmp_ping.c:164-183 | after a pass whose send did not fail, a due request moved `seq` on by one and the deadline to now + 1, and the pass's result is appended to those stored |
| `ServerPing.CollectStoresAccepted` | linux/ping_server/src/icmp_ping.c:162-186 | the stored results are a prefix of the accepted replies in arrival order; a run still polling has stored them all |
| `ServerPing.CollectStopsAtCount` | linux/ping_server/src/icmp_ping.c:179-185 | from fewer than `icmp_num` results, the run never holds more than `icmp_num`, and returns 0 exactly when it holds `icmp_num`: a run ending on -1 or still polling holds fewer |
| `ServerPing.CollectEnds` | linux/ping_server/src/icmp_ping.c:162-188 | a run returns 0, returns -1, or is still polling; the socket is closed exactly on -1, and -1 needs a failed send |
| `ServerPing.PassKeepsSchedule` | linux/ping_server/src/icmp_ping.c:164-176 | one pass keeps the requests numbered and paced, and `seq` and `next_ts` following them |
| `ServerPing.CollectKeepsSchedule` | linux/ping_server/src/icmp_ping.c:157-186 | requests are numbered 1, 2, ... and at least a second apart, from the start on; unless the run ended on a failed send, `seq` and `next_ts` follow the last one |
| `ServerPing.PingDelivers` | linux/ping_server/src/icmp_ping.c:123-189 | for `icmp_num >= 1`, a return of 0 stores exactly the first `icmp_num` accepted replies, in order; a run still polling has stored every one and has accepted fewer than `icmp_num`; a run ending on -1 stored fewer than `icmp_num`; requests keep the schedule |
| `ServerPing.NonPositiveCountMakesOnePass` | linux/ping_server/src/icmp_ping.c:162-186 | with `icmp_num <= 0` the first pass always ends the run, having sent and stored at most one |
| `ServerPing.Ping` | linux/ping_server/src/icmp_ping.c:123-189 | setup failures return -1 and leave no socket open; otherwise the array loop ends as the specification says, `result[0..]` holds the stored results and no later slot changes |
| `ServerPing.SendIfDue` | linux/ping_server/src/icmp_ping.c:164-176 | the send half of a pass: a due request is sent; on success `seq` and `next_ts` move on; reports the failure and the attempt |
| `ServerPing.ReceiveInto` | linux/ping_server/src/icmp_ping.c:178-183 | the receive half: a result is written at `result[exit_flag]` and `exit_flag` moves on exactly when it is stored; no later slot changes |
| `ServerPing.Pass` | linux/ping_server/src/icmp_ping.c:162-186 | one pass of the array loop ends the run exactly when the specification does, with its outcome, or continues in the state it takes to the next tick |
| `ServerPing.Poll` | linux/ping_server/src/icmp_ping.c:157-188 | the loop from `seq = 1` ends as the specification says, with the same requests and the stored results in `result[0..]` |
| `StandalonePing.RecvEchoReply` | linux/icmp_ping/icmp_ping.c:138-184 | -1 exactly for a receive error other than a timeout, else 0; an accepted reply is printed, sequence number 0 included, and nothing else is |
| `StandalonePing.SendLinesCount` | linux/icmp_ping/icmp_ping.c:232-236 | the send half of a pass writes no reply line and no receive failure |
| `StandalonePing.RecvLinesCount` | linux/icmp_ping/icmp_ping.c:241-245 | the receive half writes the reply line of an accepted reply, and one failure line exactly for a receive error |
| `StandalonePing.StepPrints` | linux/icmp_ping/icmp_ping.c:227-246 | a pass adds to the printed replies exactly the line of its accepted reply |
| `StandalonePing.StepReportsFailure` | linux/icmp_ping/icmp_ping.c:241-245 | a pass adds one receive failure exactly when its receive failed |
| `StandalonePing.PassesPrintAccepted` | linux/icmp_ping/icmp_ping.c:227-246 | the replies printed after any number of passes are the accepted replies of those ticks, in order |
| `StandalonePing.PassesReportFailures` | linux/icmp_ping/icmp_ping.c:241-245 | the failures reported after any number of passes are the receive errors of those ticks |
| `StandalonePing.StepKeepsSchedule` | linux/icmp_ping/icmp_ping.c:229-239 | a pass keeps the schedule whether or not its send failed |
| `StandalonePing.PassesKeepSchedule` | linux/icmp_ping/icmp_ping.c:223-246 | after any number of passes, requests are numbered 1, 2, ... and at least a second apart, and `seq` is one more than the number sent |
| `StandalonePing.WidePidPrintsNothing` | linux/icmp_ping/icmp_ping.c:173-176 | with a process id outside 0..0xFFFF no reply is ever printed |
| `StandalonePing.ContinuousPing.constructor` | linux/icmp_ping/icmp_ping.c:223-225 | `next_ts` is the start time, `ident` the pid, `seq = 1`, and the schedule holds |
| `StandalonePing.ContinuousPing.Step` | linux/icmp_ping/icmp_ping.c:227-246 | one pass updates the loop variables, the requests sent and the lines written as `StepSpec` says, and keeps the schedule |
| `StandalonePing.Ping` | linux/icmp_ping/icmp_ping.c:191-249 | -1 for a bad address or socket, -1 with the socket left open when the timeout cannot be set, otherwise still looping, in the state of all the passes over the trace |
| `StandalonePing.Launch` | linux/icmp_ping/icmp_ping.c:257-265 | -1 without an address argument; the program never returns 0 |
| `StandalonePing.RunPrintsAccepted` | linux/icmp_ping/icmp_ping.c:223-246 | a run prints exactly the accepted replies of the trace and one failure per receive error, and keeps the schedule |
| `HttpServer.FindFrom` | linux/ping_server/src/http_server.c:12-13 | the first occurrence of the pattern at or after an index, and none before it; none at all when it says so |
| `HttpServer.FindFirst` | linux/ping_server/src/http_server.c:12-14 | `strstr` finds the first occurrence; it finds none exactly when the pattern occurs nowhere |
| `HttpServer.AtoiDecimal` | linux/ping_server/src/http_server.c:32 | `atoi` reads back the decimal digits of n followed by a non-digit |
| `HttpServer.AtoiNegative` | linux/ping_server/src/http_server.c:32 | `atoi` of a minus sign and the digits of n is -n |
| `HttpServer.IpFrom` | linux/ping_server/src/http_server.c:21-30 | the copied address is at most 15 characters and lies inside the request |
| `HttpServer.IpFromShape` | linux/ping_server/src/http_server.c:21-30 | the copied address is the request's text there, holds no delimiter, and stops at 15 characters or before a delimiter or the terminator |
| `HttpServer.StatusOf` | linux/ping_server/src/http_server.c:5-34 | 200 exactly for a parsed query |
| `HttpServer.Parse` | linux/ping_server/src/http_server.c:3-35 | 501 exactly when the request does not start with "GET"; 400 exactly when it does but lacks "ip=" or "icmp_num="; a parsed address fits the 16-byte buffer |
| `HttpServer.CopyIp` | linux/ping_server/src/http_server.c:21-30 | the copy loop yields the address `IpFrom` describes |
| `HttpServer.ParseRequest` | linux/ping_server/src/http_server.c:3-35 | returns the status of `Parse`, and on 200 writes its address and count |
| `HttpServer.QueryIpFirst` | linux/ping_server/src/http_server.c:12 | in a client's query the first "ip=" is the one after "GET /?" |
| `HttpServer.QueryCountFirst` | linux/ping_server/src/http_server.c:13 | in a client's query with a dotted address, the first "icmp_num=" is the one after the address |
| `HttpServer.ParsesQuery` | linux/ping_server/src/http_server.c:3-35 | the query a client builds for a dotted address of at most 15 characters and a count parses back to that address and count |
| `HttpServer.IpFromExact` | linux/ping_server/src/http_server.c:21-30 | an address without delimiters, within the budget and followed by `&`, is copied whole |
| `HttpServer.HandleResponds` | linux/ping_server/src/http_server.c:37-78 | every response is 200, 400, 500 or 501; a 200 answers a parsed count in 1..100 with exactly that many first accepted replies |
| `HttpServer.HandleClient` | linux/ping_server/src/http_server.c:37-78 | the handler decides as `HandleSpec`, reading the 200 rows from the array `ping` filled; it calls `ping` exactly for a parsed count in 1..100 |

## Left out

- Round-trip times are left out: the `double` arithmetic of `get_timestamp` and `time_ms`, and the `time` field of a result. The clock is a `real`, so floating-point rounding of `next_ts = current_ts + 1` is not modelled either.
- The timestamp bytes in a request are taken from the tick as 8 opaque bytes. The host byte order of the `double` is not modelled.
- Sockets, `inet_aton`, `getpid`, `gettimeofday`, `recv` and `sendto` are not modelled code. They enter as the `Host` and `Tick` parameters.
- A run consumes a finite trace. Neither loop's behaviour after the trace ends is modelled; such a run reports `StillPolling`.
- The standalone tool's printing is modelled as lines in a log, without their text. The `perror` lines of its setup failures are not modelled.
- The server's output is not modelled at all: the reply line `printf` writes (`linux/ping_server/src/icmp_ping.c:109-112`) and the `perror`/`fprintf` lines of a receive error, a setup failure and a failed send (`linux/ping_server/src/icmp_ping.c:89`, `:133`, `:141`, `:152`, `:170`).
- `ProbeSession.WellFormedTick`: the peer text of a received datagram is assumed to be a dotted quad of at most 15 characters, as `inet_ntoa` returns. The buffer fit that `ServerPing.Received` states, and the absence of overflow in the `strcpy` at `linux/ping_server/src/icmp_ping.c:116`, rest on that assumption.
- The text of the HTTP responses is not modelled: status lines, Content-Length (`icmp_num * sizeof(struct ping_result)`), the CSV rows, and `send`/`close` on the client socket. `Handled` records the status and the rows.
- `linux/ping_server/src/main.c` (the accept loop) and `linux/http_server/main.c` are not part of this model.
- `HttpServer.CString`: a request is a Dafny string whose every character stands for one byte (code point below 0x100), so the 15-character copy budget counts the bytes the C loop counts. Multi-byte encodings of the request text are not modelled.
- `HttpServer.Atoi` does not model `int` overflow of `atoi`. `seq` is an unbounded integer; its wire value is taken modulo 2^16, as `htons` does.
- `EchoCodec.HoldsEcho`: the source reads the Echo fields at the ICMP offset without checking the datagram's length. The model requires every delivered datagram to hold them.
- Received checksums are not checked, because the code does not check them. A message with a bad checksum is accepted like any other.
- The socket of a successful server `ping` is never closed by the code. `Run.socketOpen` records that.
- `HandleClient` takes the request as the text before its terminating NUL. The code does not terminate the 1024-byte buffer `recv` fills; reading past the received bytes is not modelled.
- `ParseRequest`: the out-parameters the C code leaves unwritten on 501 and 400 are returned as empty values, and no caller reads them.
- `StandalonePing.Replies` and `StandalonePing.ReceiveFailures` read the log back. Failed-send lines are written by `Step` but not counted by any lemma.

## Notes on the source

Behaviours of the code that a reader might not expect, which the model reproduces:

- The code checks neither the checksum nor the length of a received message (`linux/ping_server/src/icmp_ping.c:97-106`). A message with a bad checksum is accepted like any other, and a short one is not rejected (see `EchoCodec.HoldsEcho` above).
- The server drops an accepted reply whose 16-bit sequence number is 0 (`linux/ping_server/src/icmp_ping.c:179`). This is the reply to every 65536th request. `ServerPing.StoredIffAccepted` states this. The standalone tool still prints such a reply.
- The standalone tool does not close its socket when setting the receive timeout fails (`linux/icmp_ping/icmp_ping.c:217-221`). The server does.
- A failed send does not stop the standalone tool: `seq` and `next_ts` still advance (`linux/icmp_ping/icmp_ping.c:232-238`).
- With `icmp_num <= 0`, the server's `ping` still makes one pass before its break test (`ServerPing.NonPositiveCountMakesOnePass`). `handle_client` never calls it that way.
