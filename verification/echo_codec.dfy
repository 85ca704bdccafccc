/**
 * The Echo message codec shared by both ping programs: the packed
 * `struct icmp_echo` and its 27 bytes, the Echo Request that
 * `send_echo_request` builds before `sendto`, and the filter by which
 * `recv_echo_reply` accepts an Echo Reply from a received IPv4 datagram.
 */
module EchoCodec {
  import opened IcmpHeader
  import opened InternetChecksum
  import opened Wrappers

  // ---------------------------------------------------------------------
  // The packed struct and its bytes
  // ---------------------------------------------------------------------

  /**
   * The fields of `struct icmp_echo`. The 16-bit fields hold the values that
   * travel on the wire (what `htons` produced); the timestamp's 8 bytes are
   * kept as they are, since the source stores a native `double` there.
   */
  datatype EchoMessage = EchoMessage(
    msgType: Byte,
    code: Byte,
    checksum: U16,
    ident: U16,
    sequence: U16,
    sendingTs: seq<Byte>,
    magic: seq<Byte>)

  /** The variable-length fields have their C array sizes. */
  predicate WellSized(m: EchoMessage)
  {
    |m.sendingTs| == 8 && |m.magic| == MAGIC_LEN
  }

  /** A 16-bit value stored high byte first. */
  function Be16(v: U16): (r: seq<Byte>)
    ensures |r| == 2
  {
    [v / 0x100, v % 0x100]
  }

  /** Reading the two bytes back, high byte first, gives the value. */
  lemma Be16Word(v: U16)
    ensures Word(Be16(v)[0], Be16(v)[1]) == v
  {
  }

  /** `htons` applied to an `int`: the value converted to `uint16_t`, i.e. taken modulo 2^16. */
  function Htons(x: int): U16
  {
    x % 0x10000
  }

  /** The bytes of the packed struct, each field at its offset in network order. */
  function Encode(m: EchoMessage): (r: seq<Byte>)
    requires WellSized(m)
    ensures |r| == ECHO_SIZE
  {
    [m.msgType, m.code] + Be16(m.checksum) + Body(m)
  }

  /** The bytes after the checksum field: identifier, sequence number, timestamp and magic field. */
  function Body(m: EchoMessage): (r: seq<Byte>)
    requires WellSized(m)
    ensures |r| == ECHO_SIZE - IDENT_AT
  {
    Be16(m.ident) + Be16(m.sequence) + m.sendingTs + m.magic
  }

  /** Reading 27 bytes as the packed struct, field by field at the offsets of the layout. */
  function Decode(b: seq<Byte>): (m: EchoMessage)
    requires |b| == ECHO_SIZE
    ensures WellSized(m)
  {
    EchoMessage(
      b[TYPE_AT], b[CODE_AT],
      Word(b[CHECKSUM_AT], b[CHECKSUM_AT + 1]),
      Word(b[IDENT_AT], b[IDENT_AT + 1]),
      Word(b[SEQ_AT], b[SEQ_AT + 1]),
      b[SENDING_TS_AT..MAGIC_AT],
      b[MAGIC_AT..ECHO_SIZE])
  }

  /** Reading back the bytes of a struct gives the struct. */
  lemma DecodeEncode(m: EchoMessage)
    requires WellSized(m)
    ensures Decode(Encode(m)) == m
  {
    var b := Encode(m);
    Be16Word(m.checksum);
    Be16Word(m.ident);
    Be16Word(m.sequence);
    assert b[SENDING_TS_AT..MAGIC_AT] == m.sendingTs;
    assert b[MAGIC_AT..ECHO_SIZE] == m.magic;
  }

  /** Splitting a value into bytes, high byte first, undoes `Word`. */
  lemma WordBe16(hi: Byte, lo: Byte)
    ensures Be16(Word(hi, lo)) == [hi, lo]
  {
  }

  /** Writing out the struct read from 27 bytes gives those bytes. */
  lemma EncodeDecode(b: seq<Byte>)
    requires |b| == ECHO_SIZE
    ensures Encode(Decode(b)) == b
  {
    WordBe16(b[2], b[3]);
    WordBe16(b[4], b[5]);
    WordBe16(b[6], b[7]);
    assert b == [b[0], b[1]] + [b[2], b[3]] + ([b[4], b[5]] + [b[6], b[7]] + b[8..16] + b[16..27]);
  }

  /** Setting the checksum field of a struct changes bytes 2-3 of its encoding and nothing else. */
  lemma EncodeWithChecksum(m: EchoMessage, c: U16)
    requires WellSized(m)
    ensures Encode(m.(checksum := c)) == PatchChecksum(Encode(m), c)
  {
    var e := Encode(m);
    var e2 := Encode(m.(checksum := c));
    var p := PatchChecksum(e, c);
    forall j | 0 <= j < |p|
      ensures e2[j] == p[j]
    {
      if j >= 4 {
        assert e2[j] == Body(m)[j - 4] == e[j];
      } else if j < 2 {
        assert e2[j] == e[j];
      }
    }
  }

  // ---------------------------------------------------------------------
  // Building the Echo Request
  // ---------------------------------------------------------------------

  /** Characters below 256, written as bytes. */
  function Ascii(s: string): (r: seq<Byte>)
    requires forall i :: 0 <= i < |s| ==> s[i] as int < 0x100
    ensures |r| == |s| && forall i :: 0 <= i < |s| ==> r[i] == s[i] as int
  {
    seq(|s|, i requires 0 <= i < |s| => s[i] as int)
  }

  /**
   * `strncpy(field, src, n)` of a source with no NUL in it: the first n
   * characters, then NUL bytes up to n after the source's end.
   */
  function StrNCpy(src: seq<Byte>, n: nat): (r: seq<Byte>)
    ensures |r| == n
    ensures forall i :: 0 <= i < n ==> r[i] == if i < |src| then src[i] else 0
  {
    if |src| >= n then src[..n] else src + seq(n - |src|, _ => 0)
  }

  /** The magic field of a request: the ten digits of the tag, then one NUL. */
  function MagicBytes(): (r: seq<Byte>)
    ensures |r| == MAGIC_LEN
  {
    StrNCpy(Ascii(MAGIC), MAGIC_LEN)
  }

  /** An Echo message with every field but the checksum filled in, the checksum field zero. */
  function Unsummed(msgType: Byte, ident: int, sequence: int, stamp: seq<Byte>): (m: EchoMessage)
    requires |stamp| == 8
    ensures WellSized(m)
  {
    EchoMessage(msgType, 0, 0, Htons(ident), Htons(sequence), stamp, MagicBytes())
  }

  /** The bytes of a message whose checksum, computed over its bytes with the field zero, is stored in it. */
  function Summed(m: EchoMessage): (r: seq<Byte>)
    requires WellSized(m)
  {
    Encode(m.(checksum := Checksum(Encode(m))))
  }

  /** Reading back a summed message gives its fields, and the checksum that was stored. */
  lemma DecodeSummed(m: EchoMessage)
    requires WellSized(m)
    ensures |Summed(m)| == ECHO_SIZE
    ensures Decode(Summed(m)) == m.(checksum := Checksum(Encode(m)))
  {
    DecodeEncode(m.(checksum := Checksum(Encode(m))));
  }

  /** The Echo Request `send_echo_request` hands to `sendto`. */
  function EchoRequest(ident: int, sequence: int, stamp: seq<Byte>): (r: seq<Byte>)
    requires |stamp| == 8
  {
    Summed(Unsummed(ICMP_ECHO, ident, sequence, stamp))
  }

  /**
   * The Echo Reply a conforming peer returns for that request (RFC 792): type 0,
   * the identifier, sequence number and data echoed, the checksum recomputed.
   */
  function EchoReply(ident: int, sequence: int, stamp: seq<Byte>): (r: seq<Byte>)
    requires |stamp| == 8
  {
    Summed(Unsummed(ICMP_ECHOREPLY, ident, sequence, stamp))
  }

  /**
   * Builds the request as `send_echo_request` does: a zeroed struct, its fields
   * assigned one by one, then the checksum of the struct's bytes, computed
   * while the checksum field is still zero, stored in that field.
   */
  method EncodeEchoRequest(ident: int, sequence: int, stamp: seq<Byte>) returns (packet: seq<Byte>)
    requires |stamp| == 8
    ensures packet == EchoRequest(ident, sequence, stamp)
    ensures |packet| == ECHO_SIZE && Checksum(packet) == 0
  {
    var icmp := EchoMessage(0, 0, 0, 0, 0, seq(8, _ => 0), seq(MAGIC_LEN, _ => 0));
    icmp := icmp.(msgType := ICMP_ECHO);
    icmp := icmp.(code := 0);
    icmp := icmp.(ident := Htons(ident));
    icmp := icmp.(sequence := Htons(sequence));
    icmp := icmp.(magic := StrNCpy(Ascii(MAGIC), MAGIC_LEN));
    icmp := icmp.(sendingTs := stamp);
    var c := CalculateChecksum(Encode(icmp));
    icmp := icmp.(checksum := c);
    packet := Encode(icmp);
    EchoRequestValidates(ident, sequence, stamp);
  }

  /**
   * The layout of every request: 27 bytes, type 8 and code 0, identifier and
   * sequence number truncated to 16 bits and big-endian at bytes 4-5 and 6-7,
   * the timestamp at 8-15, the ten digits of the tag at 16-25 and a NUL at 26,
   * and at 2-3 the checksum of the message with that field zero.
   */
  lemma EchoRequestLayout(ident: int, sequence: int, stamp: seq<Byte>)
    requires |stamp| == 8
    ensures var r := EchoRequest(ident, sequence, stamp);
      && |r| == ECHO_SIZE
      && r[TYPE_AT] == ICMP_ECHO && r[CODE_AT] == 0
      && Word(r[CHECKSUM_AT], r[CHECKSUM_AT + 1]) == Checksum(Encode(Unsummed(ICMP_ECHO, ident, sequence, stamp)))
      && Word(r[IDENT_AT], r[IDENT_AT + 1]) == ident % 0x10000
      && Word(r[SEQ_AT], r[SEQ_AT + 1]) == sequence % 0x10000
      && r[SENDING_TS_AT..MAGIC_AT] == stamp
      && r[MAGIC_AT..MAGIC_AT + |MAGIC|] == Ascii(MAGIC)
      && r[MAGIC_AT + |MAGIC|] == 0 && MAGIC_AT + |MAGIC| + 1 == ECHO_SIZE
  {
    var m := Unsummed(ICMP_ECHO, ident, sequence, stamp);
    var s := m.(checksum := Checksum(Encode(m)));
    DecodeEncode(s);
    var r := Encode(s);
    assert r[MAGIC_AT..ECHO_SIZE] == MagicBytes();
    assert r[MAGIC_AT..MAGIC_AT + |MAGIC|] == MagicBytes()[..|MAGIC|];
  }

  /** Every request `send_echo_request` builds passes the receiver's checksum test. */
  lemma EchoRequestValidates(ident: int, sequence: int, stamp: seq<Byte>)
    requires |stamp| == 8
    ensures |EchoRequest(ident, sequence, stamp)| == ECHO_SIZE
    ensures Checksum(EchoRequest(ident, sequence, stamp)) == 0
  {
    var m := Unsummed(ICMP_ECHO, ident, sequence, stamp);
    EncodeWithChecksum(m, Checksum(Encode(m)));
    ChecksumValidates(Encode(m));
  }

  // ---------------------------------------------------------------------
  // Reply filter
  // ---------------------------------------------------------------------

  /**
   * Where the ICMP message starts in a received IPv4 datagram: the header
   * length, `(byte0 & 0xf) << 2`, four times the low nibble of byte 0.
   */
  function IcmpOffset(first: Byte): (off: nat)
    ensures off % 4 == 0 && off <= 60
    ensures off / 4 == first % 16
  {
    (first % 16) * 4
  }

  /**
   * The datagram is long enough to hold an Echo message at its ICMP offset.
   * The source reads the fields without checking this; here it is demanded of
   * every datagram the transport delivers.
   */
  predicate HoldsEcho(d: seq<Byte>)
  {
    |d| >= 1 && |d| >= IcmpOffset(d[0]) + ECHO_SIZE
  }

  /** The Echo message at the ICMP offset of a datagram, read as the packed struct. */
  function EchoIn(d: seq<Byte>): (m: EchoMessage)
    requires HoldsEcho(d)
    ensures WellSized(m)
  {
    var off := IcmpOffset(d[0]);
    Decode(d[off..off + ECHO_SIZE])
  }

  /**
   * The filter of `recv_echo_reply`: a message of type 0 (Echo Reply) with
   * code 0 whose identifier equals `ident` is accepted and its sequence number
   * returned; anything else is silently rejected. The identifier is compared
   * as a 16-bit wire value against the full `int`; the checksum is not checked.
   */
  function MatchReply(d: seq<Byte>, ident: int): (r: Option<U16>)
    requires HoldsEcho(d)
    ensures r.Some? ==> ident == EchoIn(d).ident && r.value == EchoIn(d).sequence
    ensures r.Some? ==> EchoIn(d).msgType == ICMP_ECHOREPLY && EchoIn(d).code == 0
    ensures EchoIn(d).msgType == ICMP_ECHOREPLY && EchoIn(d).code == 0 && EchoIn(d).ident == ident ==> r.Some?
  {
    var icmp := EchoIn(d);
    if icmp.msgType != ICMP_ECHOREPLY || icmp.code != 0 then None
    else if icmp.ident != ident then None
    else Some(icmp.sequence)
  }

  /**
   * An identifier outside 0..0xFFFF, such as a process id of 65536 or more,
   * can never equal a 16-bit wire field: no reply is ever accepted.
   */
  lemma WideIdentNeverMatches(d: seq<Byte>, ident: int)
    requires HoldsEcho(d)
    requires ident < 0 || ident > 0xFFFF
    ensures MatchReply(d, ident) == None
  {
  }

  /** An IPv4 header whose length field (the low nibble of byte 0) gives its own length. */
  predicate IsHeaderFor(header: seq<Byte>)
  {
    |header| >= 1 && |header| == IcmpOffset(header[0])
  }

  /** Behind such a header, the message found at the ICMP offset is the one that follows it. */
  lemma BehindHeader(header: seq<Byte>, msg: seq<Byte>)
    requires IsHeaderFor(header) && |msg| == ECHO_SIZE
    ensures HoldsEcho(header + msg)
    ensures EchoIn(header + msg) == Decode(msg)
  {
    var d := header + msg;
    assert d[0] == header[0];
    assert d[|header|..|header| + ECHO_SIZE] == msg;
  }

  /** The fields read back from a reply behind an IPv4 header are those the peer echoed. */
  lemma ReplyFields(header: seq<Byte>, ident: int, sequence: int, stamp: seq<Byte>)
    requires IsHeaderFor(header) && |stamp| == 8
    ensures HoldsEcho(header + EchoReply(ident, sequence, stamp))
    ensures var icmp := EchoIn(header + EchoReply(ident, sequence, stamp));
      && icmp.msgType == ICMP_ECHOREPLY && icmp.code == 0
      && icmp.ident == Htons(ident) && icmp.sequence == Htons(sequence)
  {
    var m := Unsummed(ICMP_ECHOREPLY, ident, sequence, stamp);
    DecodeSummed(m);
    BehindHeader(header, Summed(m));
  }

  /**
   * Round trip: the reply a peer sends for a request carrying `ident` and
   * `sequence`, received behind any IPv4 header, is accepted under `ident` and
   * yields the sequence number truncated to 16 bits; under any other
   * identifier it is rejected.
   */
  lemma ReplyRoundTrip(header: seq<Byte>, ident: int, sequence: int, stamp: seq<Byte>, other: int)
    requires IsHeaderFor(header) && |stamp| == 8
    requires 0 <= ident <= 0xFFFF && other != ident
    ensures HoldsEcho(header + EchoReply(ident, sequence, stamp))
    ensures MatchReply(header + EchoReply(ident, sequence, stamp), ident) == Some(sequence % 0x10000)
    ensures MatchReply(header + EchoReply(ident, sequence, stamp), other) == None
  {
    ReplyFields(header, ident, sequence, stamp);
  }

  /**
   * A raw ICMP socket also receives the host's own requests: an Echo Request
   * (type 8) is never accepted, whatever identifier is expected.
   */
  lemma OwnRequestNeverMatches(header: seq<Byte>, ident: int, sequence: int, stamp: seq<Byte>, expected: int)
    requires IsHeaderFor(header) && |stamp| == 8
    ensures HoldsEcho(header + EchoRequest(ident, sequence, stamp))
    ensures MatchReply(header + EchoRequest(ident, sequence, stamp), expected) == None
  {
    var m := Unsummed(ICMP_ECHO, ident, sequence, stamp);
    DecodeSummed(m);
    BehindHeader(header, Summed(m));
    assert EchoIn(header + Summed(m)).msgType == ICMP_ECHO;
  }
}
