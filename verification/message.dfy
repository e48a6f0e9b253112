/** `RubyPtp::Message#parse`: decoding one PTP message (IEEE 1588-2008,
    clause 13) from the bytes of a datagram.

    The 34-byte common header is read with the unpack format
    `CCSCCSQLQSSCC`; the low nibble of byte 0 selects how the rest is read.
    SYNC, DELAY_REQ and FOLLOW_UP carry an origin timestamp, DELAY_RESP a
    receive timestamp and the requesting port identity.  Six further known
    types raise `NotImplementedError`, every other nibble `ArgumentError`;
    both happen after the header fields have been assigned, so both error
    results carry the header. */
module PtpMessage {
  import opened Bits
  import opened Bytes
  import opened UnpackFormat

  // Message type codes (IEEE 1588-2008, Table 19).
  const SYNC: nat := 0x0
  const DELAY_REQ: nat := 0x1
  const PDELAY_REQ: nat := 0x2
  const PDELAY_RESP: nat := 0x3
  const FOLLOW_UP: nat := 0x8
  const DELAY_RESP: nat := 0x9
  const PDELAY_RESP_FOLLOW_UP: nat := 0xa
  const ANNOUNCE: nat := 0xb
  const SIGNALING: nat := 0xc
  const MANAGEMENT: nat := 0xd

  /** The unpack format `CCSCCSQLQSSCC`.  Header fields, in order: transport/type byte, versionPTP, messageLength,
      domainNumber, reserved, flagField, correctionField, reserved,
      clock identity, port number, sequenceId, controlField,
      logMessageInterval. */
  const HEADER_FORMAT: seq<Directive> := [C, C, S, C, C, S, Q, L, Q, S, S, C, C]
  const HEADER_LENGTH: nat := 34

  /** The unpack format `LSL`: seconds (high 32 bits), seconds (low 16 bits), nanoseconds. */
  const TIMESTAMP_FORMAT: seq<Directive> := [L, S, L]
  const TIMESTAMP_LENGTH: nat := 10

  /** The unpack format `LSLQS`: a timestamp followed by clock identity and port number. */
  const DELAY_RESP_FORMAT: seq<Directive> := [L, S, L, Q, S]
  const DELAY_RESP_LENGTH: nat := 20

  datatype Option<+T> = None | Some(value: T)

  datatype Header = Header(
    transport: nat,
    messageType: nat,
    versionPTP: nat,
    messageLength: nat,
    domainNumber: nat,
    flagField: nat,
    correctionField: nat,
    sourcePortIdentity: nat,
    sequenceId: nat,
    controlField: nat,
    logMessageInterval: nat)

  datatype Timestamp = Timestamp(seconds: nat, nanoseconds: nat)

  /** The origin timestamp; `Absent` is the Ruby `-1` that `parse` stores, used when the
      encoded seconds and nanoseconds are both zero. */
  datatype OriginTimestamp = Absent | Ts(time: Timestamp)

  datatype Body =
    | OriginBody(originTimestamp: OriginTimestamp)
    | DelayRespBody(receiveTimestamp: Timestamp, requestingPortIdentity: nat)

  datatype Message = Message(header: Header, body: Body) {
    /** The `originTimestamp` attribute; `None` where `parse` leaves it nil. */
    function GetOriginTimestamp(): Option<OriginTimestamp>
    {
      if body.OriginBody? then Some(body.originTimestamp) else None
    }

    /** The `receiveTimestamp` attribute; `None` where `parse` leaves it nil. */
    function GetReceiveTimestamp(): Option<Timestamp>
    {
      if body.DelayRespBody? then Some(body.receiveTimestamp) else None
    }

    /** The `requestingPortIdentity` attribute; `None` where `parse` leaves it nil. */
    function GetRequestingPortIdentity(): Option<nat>
    {
      if body.DelayRespBody? then Some(body.requestingPortIdentity) else None
    }
  }

  datatype ParseResult =
    | Ok(message: Message)
    | NotImplemented(header: Header, typeName: string)
    | UnknownType(header: Header)
  {
    function HeaderOf(): Header
    {
      if Ok? then message.header else header
    }
  }

  /** The name of each defined message type, spelled as its Ruby constant;
      exactly the ten defined types have a name. */
  function TypeName(t: nat): (r: string)
    ensures r != "" <==> t in {SYNC, DELAY_REQ, PDELAY_REQ, PDELAY_RESP, FOLLOW_UP,
                                DELAY_RESP, PDELAY_RESP_FOLLOW_UP, ANNOUNCE, SIGNALING, MANAGEMENT}
  {
    if t == SYNC then "SYNC"
    else if t == DELAY_REQ then "DELAY_REQ"
    else if t == PDELAY_REQ then "PDELAY_REQ"
    else if t == PDELAY_RESP then "PDELAY_RESP"
    else if t == FOLLOW_UP then "FOLLOW_UP"
    else if t == DELAY_RESP then "DELAY_RESP"
    else if t == PDELAY_RESP_FOLLOW_UP then "PDELAY_RESP_FOLLOW_UP"
    else if t == ANNOUNCE then "ANNOUNCE"
    else if t == SIGNALING then "SIGNALING"
    else if t == MANAGEMENT then "MANAGEMENT"
    else ""
  }

  /** Byte 0 split into `(transport, messageType)` by `>> 4` and `& 0xf`. */
  function Nibbles(b: byte): (p: (nat, nat))
    ensures p.0 < 16 && p.1 < 16
    ensures 16 * p.0 + p.1 == b
  {
    NibbleSplit(b);
    (ShiftRight(b, 4), And(b, 0xf))
  }

  /** `(hi << k) | lo`, Ruby's way of joining a field split over two
      unpack directives. */
  function JoinFields(hi: nat, lo: nat, k: nat): (v: nat)
    ensures lo < Pow2(k) ==> v == hi * Pow2(k) + lo
  {
    var v := Or(ShiftLeft(hi, k), lo);
    assert lo < Pow2(k) ==> v == hi * Pow2(k) + lo by {
      if lo < Pow2(k) { OrShiftedLow(hi, lo, k); }
    }
    v
  }

  /** Where each header field starts; the format covers exactly bytes 0 to 33. */
  lemma HeaderOffsets(f: seq<Directive>)
    requires f == HEADER_FORMAT
    ensures FieldOffset(f, 0) == 0 && FieldOffset(f, 1) == 1 && FieldOffset(f, 2) == 2
    ensures FieldOffset(f, 3) == 4 && FieldOffset(f, 4) == 5 && FieldOffset(f, 5) == 6
    ensures FieldOffset(f, 6) == 8 && FieldOffset(f, 7) == 16 && FieldOffset(f, 8) == 20
    ensures FieldOffset(f, 9) == 28 && FieldOffset(f, 10) == 30 && FieldOffset(f, 11) == 32
    ensures FieldOffset(f, 12) == 33
    ensures FormatWidth(f) == HEADER_LENGTH
  {
  }

  lemma TimestampOffsets(f: seq<Directive>)
    requires f == TIMESTAMP_FORMAT
    ensures FieldOffset(f, 0) == 0 && FieldOffset(f, 1) == 4 && FieldOffset(f, 2) == 6
    ensures FormatWidth(f) == TIMESTAMP_LENGTH
  {
  }

  lemma DelayRespOffsets(f: seq<Directive>)
    requires f == DELAY_RESP_FORMAT
    ensures FieldOffset(f, 0) == 0 && FieldOffset(f, 1) == 4 && FieldOffset(f, 2) == 6
    ensures FieldOffset(f, 3) == 10 && FieldOffset(f, 4) == 18
    ensures FormatWidth(f) == DELAY_RESP_LENGTH
  {
  }

  lemma HeaderFields0To1(h: seq<Directive>, data: seq<byte>, order: ByteOrder)
    requires h == HEADER_FORMAT && |data| >= HEADER_LENGTH
    ensures FormatWidth(h) == HEADER_LENGTH
    ensures var f := Unpack(h, data, order);
      f[0] == data[0] && f[1] == data[1]
  {
    HeaderOffsets(h);
    FieldAt(h, data, order, 0, 0);
    FieldAt(h, data, order, 1, 1);
  }

  lemma HeaderFields2To3(h: seq<Directive>, data: seq<byte>, order: ByteOrder)
    requires h == HEADER_FORMAT && |data| >= HEADER_LENGTH
    ensures FormatWidth(h) == HEADER_LENGTH
    ensures var f := Unpack(h, data, order);
      f[2] == ReadUint(data[2..4], order) && f[3] == data[4]
  {
    HeaderOffsets(h);
    FieldAt(h, data, order, 2, 2);
    FieldAt(h, data, order, 3, 4);
  }

  lemma HeaderFields4To5(h: seq<Directive>, data: seq<byte>, order: ByteOrder)
    requires h == HEADER_FORMAT && |data| >= HEADER_LENGTH
    ensures FormatWidth(h) == HEADER_LENGTH
    ensures var f := Unpack(h, data, order);
      f[4] == data[5] && f[5] == ReadUint(data[6..8], order)
  {
    HeaderOffsets(h);
    FieldAt(h, data, order, 4, 5);
    FieldAt(h, data, order, 5, 6);
  }

  lemma HeaderFields6To8(h: seq<Directive>, data: seq<byte>, order: ByteOrder)
    requires h == HEADER_FORMAT && |data| >= HEADER_LENGTH
    ensures FormatWidth(h) == HEADER_LENGTH
    ensures var f := Unpack(h, data, order);
      f[6] == ReadUint(data[8..16], order) && f[7] == ReadUint(data[16..20], order) && f[8] == ReadUint(data[20..28], order)
  {
    HeaderOffsets(h);
    FieldAt(h, data, order, 6, 8);
    FieldAt(h, data, order, 7, 16);
    FieldAt(h, data, order, 8, 20);
  }

  lemma HeaderFields9To10(h: seq<Directive>, data: seq<byte>, order: ByteOrder)
    requires h == HEADER_FORMAT && |data| >= HEADER_LENGTH
    ensures FormatWidth(h) == HEADER_LENGTH
    ensures var f := Unpack(h, data, order);
      f[9] == ReadUint(data[28..30], order) && f[10] == ReadUint(data[30..32], order)
  {
    HeaderOffsets(h);
    FieldAt(h, data, order, 9, 28);
    FieldAt(h, data, order, 10, 30);
  }

  lemma HeaderFields11To12(h: seq<Directive>, data: seq<byte>, order: ByteOrder)
    requires h == HEADER_FORMAT && |data| >= HEADER_LENGTH
    ensures FormatWidth(h) == HEADER_LENGTH
    ensures var f := Unpack(h, data, order);
      f[11] == data[32] && f[12] == data[33]
  {
    HeaderOffsets(h);
    FieldAt(h, data, order, 11, 32);
    FieldAt(h, data, order, 12, 33);
  }

  /** The header fields as `unpack` returns them, read straight off the bytes. */
  lemma HeaderFieldsAt(h: seq<Directive>, data: seq<byte>, order: ByteOrder)
    requires h == HEADER_FORMAT && |data| >= HEADER_LENGTH
    ensures FormatWidth(h) == HEADER_LENGTH
    ensures var f := Unpack(h, data, order);
      && f[0] == data[0] && f[1] == data[1] && f[2] == ReadUint(data[2..4], order)
      && f[3] == data[4] && f[4] == data[5] && f[5] == ReadUint(data[6..8], order)
      && f[6] == ReadUint(data[8..16], order) && f[7] == ReadUint(data[16..20], order)
      && f[8] == ReadUint(data[20..28], order) && f[9] == ReadUint(data[28..30], order)
      && f[10] == ReadUint(data[30..32], order) && f[11] == data[32] && f[12] == data[33]
  {
    HeaderFields0To1(h, data, order);
    HeaderFields2To3(h, data, order);
    HeaderFields4To5(h, data, order);
    HeaderFields6To8(h, data, order);
    HeaderFields9To10(h, data, order);
    HeaderFields11To12(h, data, order);
  }

  lemma HeaderBytes(h: seq<Directive>, msg: seq<byte>, order: ByteOrder)
    requires h == HEADER_FORMAT && |msg| >= HEADER_LENGTH
    ensures FormatWidth(h) == HEADER_LENGTH
    ensures var f := Unpack(h, msg[..HEADER_LENGTH], order);
      && f[0] == msg[0] && f[1] == msg[1] && f[2] == ReadUint(msg[2..4], order)
      && f[3] == msg[4] && f[4] == msg[5] && f[5] == ReadUint(msg[6..8], order)
      && f[6] == ReadUint(msg[8..16], order) && f[7] == ReadUint(msg[16..20], order)
      && f[8] == ReadUint(msg[20..28], order) && f[9] == ReadUint(msg[28..30], order)
      && f[10] == ReadUint(msg[30..32], order) && f[11] == msg[32] && f[12] == msg[33]
  {
    HeaderFieldsAt(h, msg, order);
    UnpackTake(h, msg, HEADER_LENGTH, order);
  }

  /** `msg[0..33].unpack("CCSCCSQLQSSCC")`: the thirteen header values,
      each read off its own bytes of the message. */
  function UnpackHeader(msg: seq<byte>, order: ByteOrder): (f: seq<nat>)
    requires |msg| >= HEADER_LENGTH
    ensures |f| == |HEADER_FORMAT|
    ensures && f[0] == msg[0] && f[1] == msg[1] && f[2] == ReadUint(msg[2..4], order)
      && f[3] == msg[4] && f[4] == msg[5] && f[5] == ReadUint(msg[6..8], order)
      && f[6] == ReadUint(msg[8..16], order) && f[7] == ReadUint(msg[16..20], order)
      && f[8] == ReadUint(msg[20..28], order) && f[9] == ReadUint(msg[28..30], order)
      && f[10] == ReadUint(msg[30..32], order) && f[11] == msg[32] && f[12] == msg[33]
  {
    HeaderBytes(HEADER_FORMAT, msg, order);
    Unpack(HEADER_FORMAT, msg[..HEADER_LENGTH], order)
  }

  /** The timestamp fields of an `LSL` payload, read off its first ten bytes. */
  lemma TimestampBytes(f: seq<Directive>, data: seq<byte>, order: ByteOrder)
    requires f == TIMESTAMP_FORMAT && |data| >= TIMESTAMP_LENGTH
    ensures FormatWidth(f) == TIMESTAMP_LENGTH
    ensures var v := Unpack(f, data, order);
      && v[0] == ReadUint(data[0..4], order) && v[1] == ReadUint(data[4..6], order)
      && v[2] == ReadUint(data[6..10], order)
  {
    TimestampOffsets(f);
    FieldAt(f, data, order, 0, 0);
    FieldAt(f, data, order, 1, 4);
    FieldAt(f, data, order, 2, 6);
  }

  /** The fields of an `LSLQS` payload, read off its first twenty bytes. */
  lemma DelayRespBytes(f: seq<Directive>, data: seq<byte>, order: ByteOrder)
    requires f == DELAY_RESP_FORMAT && |data| >= DELAY_RESP_LENGTH
    ensures FormatWidth(f) == DELAY_RESP_LENGTH
    ensures var v := Unpack(f, data, order);
      && v[0] == ReadUint(data[0..4], order) && v[1] == ReadUint(data[4..6], order)
      && v[2] == ReadUint(data[6..10], order) && v[3] == ReadUint(data[10..18], order)
      && v[4] == ReadUint(data[18..20], order)
  {
    DelayRespOffsets(f);
    FieldAt(f, data, order, 0, 0);
    FieldAt(f, data, order, 1, 4);
    FieldAt(f, data, order, 2, 6);
    FieldAt(f, data, order, 3, 10);
    FieldAt(f, data, order, 4, 18);
  }

  /** The header attributes assigned from the thirteen values `unpack`
      returns; the two reserved values are dropped.  The nibbles recombine
      to value 0, and the source port identity is value 8 times 2^64 plus
      value 9 whenever value 9 fits in 16 bits, as an `S` value does. */
  function HeaderFromFields(f: seq<nat>): (h: Header)
    requires |f| == |HEADER_FORMAT| && f[0] < 256
    ensures h.transport < 16 && h.messageType < 16 && 16 * h.transport + h.messageType == f[0]
    ensures f[9] < 0x1_0000 ==> h.sourcePortIdentity == f[8] * 0x1_0000_0000_0000_0000 + f[9]
  {
    Pow2Small();
    Pow2Of64();
    var (transport, messageType) := Nibbles(f[0]);
    Header(
      transport := transport,
      messageType := messageType,
      versionPTP := f[1],
      messageLength := f[2],
      domainNumber := f[3],
      flagField := f[5],
      correctionField := f[6],
      sourcePortIdentity := JoinFields(f[8], f[9], 64),
      sequenceId := f[10],
      controlField := f[11],
      logMessageInterval := f[12])
  }

  /** Where each header attribute comes from in the first 34 bytes of a
      message: byte 0 holds transport (high nibble) and messageType (low
      nibble); bytes 5 and 16 to 19 are reserved and feed no attribute. */
  predicate HeaderLayout(msg: seq<byte>, order: ByteOrder, h: Header)
    requires |msg| >= HEADER_LENGTH
  {
    && h.transport < 16 && h.messageType < 16
    && 16 * h.transport + h.messageType == msg[0]
    && h.versionPTP == msg[1]
    && h.messageLength == ReadUint(msg[2..4], order)
    && h.domainNumber == msg[4]
    && h.flagField == ReadUint(msg[6..8], order)
    && h.correctionField == ReadUint(msg[8..16], order)
    && h.sourcePortIdentity ==
      ReadUint(msg[20..28], order) * 0x1_0000_0000_0000_0000 + ReadUint(msg[28..30], order)
    && h.sequenceId == ReadUint(msg[30..32], order)
    && h.controlField == msg[32]
    && h.logMessageInterval == msg[33]
  }

  lemma HeaderLayoutOf(msg: seq<byte>, order: ByteOrder)
    requires |msg| >= HEADER_LENGTH
    ensures HeaderLayout(msg, order, HeaderFromFields(UnpackHeader(msg, order)))
  {
    var f := UnpackHeader(msg, order);
    ReadUintFits(msg[28..30], order);
  }

  /** The common header: the first 34 bytes unpacked with `CCSCCSQLQSSCC`. */
  function ParseHeader(msg: seq<byte>, order: ByteOrder): (h: Header)
    requires |msg| >= HEADER_LENGTH
    ensures HeaderLayout(msg, order, h)
  {
    HeaderLayoutOf(msg, order);
    HeaderFromFields(UnpackHeader(msg, order))
  }

  /** The type code a message carries: the low nibble of byte 0. */
  lemma MessageTypeNibble(msg: seq<byte>, order: ByteOrder)
    requires |msg| >= HEADER_LENGTH
    ensures ParseHeader(msg, order).messageType == msg[0] % 16
    ensures ParseHeader(msg, order).transport == msg[0] / 16
  {
    var h := ParseHeader(msg, order);
    DivModUnique(msg[0], 16, h.transport, h.messageType);
  }

  /** `payload.unpack("LSL")`: seconds (high part), seconds (low part) and
      nanoseconds, read off the first ten payload bytes. */
  function UnpackTimestamp(payload: seq<byte>, order: ByteOrder): (v: seq<nat>)
    requires |payload| >= TIMESTAMP_LENGTH
    ensures |v| == 3
    ensures v[0] == ReadUint(payload[0..4], order) && v[1] == ReadUint(payload[4..6], order)
    ensures v[2] == ReadUint(payload[6..10], order)
  {
    TimestampBytes(TIMESTAMP_FORMAT, payload, order);
    Unpack(TIMESTAMP_FORMAT, payload, order)
  }

  /** `payload.unpack("LSLQS")`: a timestamp as above, then the clock
      identity and port number of the requesting port. */
  function UnpackDelayResp(payload: seq<byte>, order: ByteOrder): (v: seq<nat>)
    requires |payload| >= DELAY_RESP_LENGTH
    ensures |v| == 5
    ensures v[0] == ReadUint(payload[0..4], order) && v[1] == ReadUint(payload[4..6], order)
    ensures v[2] == ReadUint(payload[6..10], order)
    ensures v[3] == ReadUint(payload[10..18], order) && v[4] == ReadUint(payload[18..20], order)
  {
    DelayRespBytes(DELAY_RESP_FORMAT, payload, order);
    Unpack(DELAY_RESP_FORMAT, payload, order)
  }

  /** `[(sec1 << 16) | sec2, nsec]`: the seconds are `sec1 * 2^16 + sec2`
      whenever `sec2` fits in 16 bits, as an `S` value does. */
  function TimestampFromFields(sec1: nat, sec2: nat, nsec: nat): (t: Timestamp)
    ensures sec2 < 0x1_0000 ==> t.seconds == sec1 * 0x1_0000 + sec2
  {
    Pow2Small();
    Timestamp(JoinFields(sec1, sec2, 16), nsec)
  }

  /** Where a timestamp comes from in the first ten bytes of a payload:
      48 bits of seconds (a 32-bit high part, then a 16-bit low part) and
      32 bits of nanoseconds. */
  predicate TimestampLayout(payload: seq<byte>, order: ByteOrder, t: Timestamp)
    requires |payload| >= TIMESTAMP_LENGTH
  {
    && t.seconds == ReadUint(payload[0..4], order) * 0x1_0000 + ReadUint(payload[4..6], order)
    && t.nanoseconds == ReadUint(payload[6..10], order)
  }

  lemma TimestampLayoutOf(payload: seq<byte>, order: ByteOrder)
    requires |payload| >= TIMESTAMP_LENGTH
    ensures var v := UnpackTimestamp(payload, order);
      TimestampLayout(payload, order, TimestampFromFields(v[0], v[1], v[2]))
  {
    var v := UnpackTimestamp(payload, order);
    ReadUintFits(payload[4..6], order);
    Pow2Small();
  }

  /** The ten timestamp bytes are all zero exactly when both the seconds and
      the nanoseconds they encode are zero. */
  lemma TimestampZero(payload: seq<byte>, order: ByteOrder, t: Timestamp)
    requires |payload| >= TIMESTAMP_LENGTH && TimestampLayout(payload, order, t)
    ensures (t.seconds == 0 && t.nanoseconds == 0)
      <==> forall i :: 0 <= i < TIMESTAMP_LENGTH ==> payload[i] == 0
  {
    var a, b, c := payload[0..4], payload[4..6], payload[6..10];
    ReadZero(a, order);
    ReadZero(b, order);
    ReadZero(c, order);
    var hi := ReadUint(a, order);
    if hi > 0 {
      MulAtLeast(0x1_0000, hi);
    }
    assert t.seconds == 0 <==> hi == 0 && ReadUint(b, order) == 0;
    if forall i :: 0 <= i < TIMESTAMP_LENGTH ==> payload[i] == 0 {
      assert forall i :: 0 <= i < 4 ==> a[i] == payload[i];
      assert forall i :: 0 <= i < 2 ==> b[i] == payload[i + 4];
      assert forall i :: 0 <= i < 4 ==> c[i] == payload[i + 6];
    }
    if t.seconds == 0 && t.nanoseconds == 0 {
      forall i | 0 <= i < TIMESTAMP_LENGTH
        ensures payload[i] == 0
      {
        if i < 4 {
          assert payload[i] == a[i];
        } else if i < 6 {
          assert payload[i] == b[i - 4];
        } else {
          assert payload[i] == c[i - 6];
        }
      }
    }
  }

  /** The origin timestamp of SYNC, DELAY_REQ and FOLLOW_UP; all-zero seconds
      and nanoseconds mean a two-step clock that sends it later. */
  function ParseOrigin(payload: seq<byte>, order: ByteOrder): (o: OriginTimestamp)
    requires |payload| >= TIMESTAMP_LENGTH
    ensures o.Absent? <==> forall i :: 0 <= i < TIMESTAMP_LENGTH ==> payload[i] == 0
    ensures o.Ts? ==> TimestampLayout(payload, order, o.time)
  {
    var v := UnpackTimestamp(payload, order);
    var t := TimestampFromFields(v[0], v[1], v[2]);
    TimestampLayoutOf(payload, order);
    TimestampZero(payload, order, t);
    if t.seconds == 0 && t.nanoseconds == 0 then Absent else Ts(t)
  }

  /** Where the DELAY_RESP body comes from in the first twenty payload
      bytes: the receive timestamp, then the requesting port identity as
      `(clockIdentity << 32) | portNumber`. */
  predicate DelayRespLayout(payload: seq<byte>, order: ByteOrder, b: Body)
    requires |payload| >= DELAY_RESP_LENGTH
  {
    && b.DelayRespBody?
    && TimestampLayout(payload, order, b.receiveTimestamp)
    && b.requestingPortIdentity ==
      ReadUint(payload[10..18], order) * 0x1_0000_0000 + ReadUint(payload[18..20], order)
  }

  lemma DelayRespLayoutOf(payload: seq<byte>, order: ByteOrder)
    requires |payload| >= DELAY_RESP_LENGTH
    ensures var v := UnpackDelayResp(payload, order);
      DelayRespLayout(payload, order,
        DelayRespBody(TimestampFromFields(v[0], v[1], v[2]), JoinFields(v[3], v[4], 32)))
  {
    var v := UnpackDelayResp(payload, order);
    ReadUintFits(payload[4..6], order);
    ReadUintFits(payload[18..20], order);
    Pow2Small();
    Pow2Of32();
  }

  /** The DELAY_RESP body: receive timestamp and requesting port identity. */
  function ParseDelayResp(payload: seq<byte>, order: ByteOrder): (b: Body)
    requires |payload| >= DELAY_RESP_LENGTH
    ensures DelayRespLayout(payload, order, b)
  {
    var v := UnpackDelayResp(payload, order);
    DelayRespLayoutOf(payload, order);
    DelayRespBody(TimestampFromFields(v[0], v[1], v[2]), JoinFields(v[3], v[4], 32))
  }

  /** The message is long enough for everything `parse` reads from it: the
      whole header, and the whole payload its type's format covers. */
  predicate LongEnough(msg: seq<byte>)
  {
    && |msg| >= HEADER_LENGTH
    && var t := msg[0] % 16;
      && (t == SYNC || t == DELAY_REQ || t == FOLLOW_UP ==>
            |msg| >= HEADER_LENGTH + TIMESTAMP_LENGTH)
      && (t == DELAY_RESP ==> |msg| >= HEADER_LENGTH + DELAY_RESP_LENGTH)
  }

  /** `Message#parse`: the header first, then the payload as the message
      type dictates.  The six known but unsupported types give
      `NotImplemented` with the type's name, any other type `UnknownType`;
      both keep the header already assigned. */
  function Parse(msg: seq<byte>, order: ByteOrder): (r: ParseResult)
    requires LongEnough(msg)
    ensures r.HeaderOf() == ParseHeader(msg, order)
    ensures r.Ok? <==> msg[0] % 16 in {SYNC, DELAY_REQ, FOLLOW_UP, DELAY_RESP}
    ensures r.NotImplemented? <==>
      msg[0] % 16 in {PDELAY_REQ, PDELAY_RESP, PDELAY_RESP_FOLLOW_UP, ANNOUNCE, SIGNALING, MANAGEMENT}
    ensures r.UnknownType? <==> msg[0] % 16 in {4, 5, 6, 7, 0xe, 0xf}
    ensures r.NotImplemented? ==> r.typeName == TypeName(msg[0] % 16)
    ensures r.Ok? && msg[0] % 16 != DELAY_RESP ==>
      r.message.body == OriginBody(ParseOrigin(msg[HEADER_LENGTH..], order))
    ensures r.Ok? && msg[0] % 16 == DELAY_RESP ==>
      r.message.body == ParseDelayResp(msg[HEADER_LENGTH..], order)
  {
    var header := ParseHeader(msg, order);
    var payload := msg[HEADER_LENGTH..];
    MessageTypeNibble(msg, order);
    var t := header.messageType;
    if t == SYNC || t == FOLLOW_UP || t == DELAY_REQ then
      Ok(Message(header, OriginBody(ParseOrigin(payload, order))))
    else if t == PDELAY_REQ then NotImplemented(header, "PDELAY_REQ")
    else if t == PDELAY_RESP then NotImplemented(header, "PDELAY_RESP")
    else if t == DELAY_RESP then Ok(Message(header, ParseDelayResp(payload, order)))
    else if t == PDELAY_RESP_FOLLOW_UP then NotImplemented(header, "PDELAY_RESP_FOLLOW_UP")
    else if t == ANNOUNCE then NotImplemented(header, "ANNOUNCE")
    else if t == SIGNALING then NotImplemented(header, "SIGNALING")
    else if t == MANAGEMENT then NotImplemented(header, "MANAGEMENT")
    else UnknownType(header)
  }
}
