/**
 * Declarations shared by the ping engine: the ICMP message type numbers, the
 * magic tag carried in every request, the packed layout of an Echo message and
 * the record a bounded run hands back per accepted reply.
 */
module IcmpHeader {

  /** An octet, the contents of one `uint8_t` or `unsigned char`. */
  type Byte = b: int | 0 <= b < 0x100

  /** A value of a `uint16_t`. */
  type U16 = x: int | 0 <= x < 0x10000

  /** Message type of an Echo Request (RFC 792, "Echo or Echo Reply Message"). */
  const ICMP_ECHO: Byte := 8
  /** Message type of an Echo Reply (RFC 792, "Echo or Echo Reply Message"). */
  const ICMP_ECHOREPLY: Byte := 0

  /** The tag written into every request, and the size of the field that holds it. */
  const MAGIC: string := "1234567890"
  const MAGIC_LEN: nat := 11

  /** Sizes of the two address strings of a ping result, terminator included. */
  const IPV4_LEN: nat := 16
  const IPV6_LEN: nat := 40

  /** The fields of the packed Echo message, in declaration order. */
  datatype Field = FieldType | FieldCode | FieldChecksum | FieldIdent | FieldSeq | FieldSendingTs | FieldMagic

  const FIELDS: seq<Field> :=
    [FieldType, FieldCode, FieldChecksum, FieldIdent, FieldSeq, FieldSendingTs, FieldMagic]

  /** Width in bytes of each field's C type. */
  function Width(f: Field): (w: nat)
    ensures w >= 1
  {
    match f
    case FieldType => 1        // uint8_t
    case FieldCode => 1        // uint8_t
    case FieldChecksum => 2    // uint16_t
    case FieldIdent => 2       // uint16_t
    case FieldSeq => 2         // uint16_t
    case FieldSendingTs => 8   // double
    case FieldMagic => MAGIC_LEN
  }

  function Position(f: Field): (i: nat)
    ensures i < |FIELDS| && FIELDS[i] == f
  {
    match f
    case FieldType => 0
    case FieldCode => 1
    case FieldChecksum => 2
    case FieldIdent => 3
    case FieldSeq => 4
    case FieldSendingTs => 5
    case FieldMagic => 6
  }

  /**
   * Where the i-th declared field starts when fields are laid out with no
   * padding: the sum of the widths of the fields declared before it.
   */
  function PackedOffset(i: nat): nat
    requires i <= |FIELDS|
  {
    if i == 0 then 0 else PackedOffset(i - 1) + Width(FIELDS[i - 1])
  }

  function Offset(f: Field): nat
  {
    PackedOffset(Position(f))
  }

  /** Offsets used by the encoder and the decoder. */
  const TYPE_AT: nat := 0
  const CODE_AT: nat := 1
  const CHECKSUM_AT: nat := 2
  const IDENT_AT: nat := 4
  const SEQ_AT: nat := 6
  const SENDING_TS_AT: nat := 8
  const MAGIC_AT: nat := 16
  /** `sizeof(struct icmp_echo)`. */
  const ECHO_SIZE: nat := 27

  /**
   * The packed layout has no padding: every field starts where the previous one
   * ends, the constants above are the offsets, and the message is 27 bytes long.
   */
  lemma PackedLayout()
    ensures Offset(FieldType) == TYPE_AT && Offset(FieldCode) == CODE_AT
    ensures Offset(FieldChecksum) == CHECKSUM_AT && Offset(FieldIdent) == IDENT_AT
    ensures Offset(FieldSeq) == SEQ_AT && Offset(FieldSendingTs) == SENDING_TS_AT
    ensures Offset(FieldMagic) == MAGIC_AT
    ensures PackedOffset(|FIELDS|) == ECHO_SIZE
  {
  }

  /**
   * One accepted reply, as `struct ping_result` holds it: the peer's dotted IPv4
   * text, an IPv6 text and the 16-bit sequence number. The round-trip time is
   * not part of this model.
   */
  datatype PingResult = PingResult(ipv4: string, ipv6: string, sequence: U16)

  /** The all-zero result `recv_echo_reply` returns when nothing was accepted. */
  const DEFAULT_RESULT: PingResult := PingResult("", "", 0)

  /** A result whose two strings fit their C buffers with the terminating NUL. */
  predicate FitsBuffers(r: PingResult)
  {
    |r.ipv4| < IPV4_LEN && |r.ipv6| < IPV6_LEN
  }
}
