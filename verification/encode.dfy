/** The inverse of the parser: writing a header, an origin timestamp and a
    DELAY_RESP body back to bytes in the same layouts, with the reserved
    bytes zero.  The parser has no encoder of its own; these definitions are
    the inverse against which its layout is checked, by round-trip lemmas in
    both directions. */
module PtpEncode {
  import opened Bits
  import opened Bytes
  import opened UnpackFormat
  import opened PtpMessage

  /** Every header attribute fits the field it is read from. */
  predicate WellFormedHeader(h: Header)
  {
    && h.transport < 16 && h.messageType < 16
    && h.versionPTP < 0x100
    && h.messageLength < 0x1_0000
    && h.domainNumber < 0x100
    && h.flagField < 0x1_0000
    && h.correctionField < 0x1_0000_0000_0000_0000
    && h.sourcePortIdentity / 0x1_0000_0000_0000_0000 < 0x1_0000_0000_0000_0000
    && h.sourcePortIdentity % 0x1_0000_0000_0000_0000 < 0x1_0000
    && h.sequenceId < 0x1_0000
    && h.controlField < 0x100
    && h.logMessageInterval < 0x100
  }

  /** The thirteen values `unpack` would return for a header, reserved ones zero. */
  function HeaderToFields(h: Header): seq<nat>
  {
    [ 16 * h.transport + h.messageType, h.versionPTP, h.messageLength, h.domainNumber, 0,
      h.flagField, h.correctionField, 0,
      h.sourcePortIdentity / 0x1_0000_0000_0000_0000, h.sourcePortIdentity % 0x1_0000_0000_0000_0000,
      h.sequenceId, h.controlField, h.logMessageInterval ]
  }

  /** Unpacked values whose reserved entries are zero. */
  predicate ReservedZero(f: seq<nat>)
    requires |f| == |HEADER_FORMAT|
  {
    f[4] == 0 && f[7] == 0
  }

  /** Splitting a header into fields and assigning them back gives the header. */
  lemma HeaderFieldsRoundTrip(h: Header)
    requires WellFormedHeader(h)
    ensures var f := HeaderToFields(h);
      f[0] < 256 && f[9] < 0x1_0000 && HeaderFromFields(f) == h
  {
  }

  /** Assigning unpacked values to a header and splitting it again gives the
      values back, when the reserved values are zero and the port number fits
      its 16 bits. */
  lemma FieldsHeaderRoundTrip(f: seq<nat>)
    requires |f| == |HEADER_FORMAT| && f[0] < 256 && f[9] < 0x1_0000 && ReservedZero(f)
    ensures HeaderToFields(HeaderFromFields(f)) == f
  {
    var h := HeaderFromFields(f);
    DivModUnique(h.sourcePortIdentity, 0x1_0000_0000_0000_0000, f[8], f[9]);
    var g := HeaderToFields(h);
    assert forall i :: 0 <= i < |f| ==> g[i] == f[i];
  }

  /** The header as the 34 bytes `parse` reads it from. */
  function EncodeHeader(h: Header, order: ByteOrder): (msg: seq<byte>)
    ensures |msg| == HEADER_LENGTH
  {
    HeaderOffsets(HEADER_FORMAT);
    Pack(HEADER_FORMAT, HeaderToFields(h), order)
  }

  /** The number of values a directive's field can hold. */
  lemma WidthBound(d: Directive)
    ensures Pow2(8 * Width(d)) == match d
      case C => 0x100
      case S => 0x1_0000
      case L => 0x1_0000_0000
      case Q => 0x1_0000_0000_0000_0000
  {
    match d
    case C => Pow2Small();
    case S => Pow2Small();
    case L => Pow2Of32();
    case Q => Pow2Of64();
  }

  /** The fields of a well-formed header fit their directives. */
  lemma HeaderFieldsFit(fmt: seq<Directive>, h: Header)
    requires fmt == HEADER_FORMAT && WellFormedHeader(h)
    ensures FitsFormat(fmt, HeaderToFields(h))
  {
    var f := HeaderToFields(h);
    forall i | 0 <= i < |fmt|
      ensures f[i] < Pow2(8 * Width(fmt[i]))
    {
      WidthBound(fmt[i]);
    }
  }

  /** What `parse` returns for a message whose first 34 bytes are `data`:
      the header built from the unpacked values. */
  lemma ParseHeaderUnpacks(fmt: seq<Directive>, msg: seq<byte>, order: ByteOrder)
    requires fmt == HEADER_FORMAT && |msg| >= HEADER_LENGTH
    ensures FormatWidth(fmt) <= |msg|
    ensures var f := Unpack(fmt, msg, order);
      f[0] < 256 && ParseHeader(msg, order) == HeaderFromFields(f)
  {
    HeaderBytes(fmt, msg, order);
    UnpackTake(fmt, msg, HEADER_LENGTH, order);
  }

  /** Encoding a well-formed header and parsing it back, whatever payload
      follows, gives the header. */
  lemma HeaderRoundTrip(h: Header, payload: seq<byte>, order: ByteOrder)
    requires WellFormedHeader(h)
    ensures ParseHeader(EncodeHeader(h, order) + payload, order) == h
  {
    var fmt := HEADER_FORMAT;
    var f := HeaderToFields(h);
    var msg := EncodeHeader(h, order) + payload;
    HeaderFieldsFit(fmt, h);
    UnpackPack(fmt, f, payload, order);
    ParseHeaderUnpacks(fmt, msg, order);
    HeaderFieldsRoundTrip(h);
  }

  /** Every header `parse` produces is well-formed. */
  lemma ParsedHeaderWellFormed(msg: seq<byte>, order: ByteOrder)
    requires |msg| >= HEADER_LENGTH
    ensures WellFormedHeader(ParseHeader(msg, order))
  {
    var h := ParseHeader(msg, order);
    ReadUintFits(msg[2..4], order);
    ReadUintFits(msg[6..8], order);
    ReadUintFits(msg[8..16], order);
    ReadUintFits(msg[20..28], order);
    ReadUintFits(msg[28..30], order);
    ReadUintFits(msg[30..32], order);
    DivModUnique(h.sourcePortIdentity, 0x1_0000_0000_0000_0000,
      ReadUint(msg[20..28], order), ReadUint(msg[28..30], order));
  }

  /** Zero reserved bytes unpack as zero reserved values. */
  lemma ReservedBytesZero(msg: seq<byte>, order: ByteOrder)
    requires |msg| >= HEADER_LENGTH
    requires msg[5] == 0 && forall i :: 16 <= i < 20 ==> msg[i] == 0
    ensures ReadUint(msg[16..20], order) == 0
  {
    ReadZero(msg[16..20], order);
  }

  /** The unpacked header values of a message whose reserved bytes are zero
      meet what `FieldsHeaderRoundTrip` needs. */
  lemma ParsedFieldsReady(fmt: seq<Directive>, msg: seq<byte>, order: ByteOrder)
    requires fmt == HEADER_FORMAT && |msg| >= HEADER_LENGTH
    requires msg[5] == 0 && forall i :: 16 <= i < 20 ==> msg[i] == 0
    ensures FormatWidth(fmt) <= |msg|
    ensures var f := Unpack(fmt, msg, order);
      |f| == |HEADER_FORMAT| && f[0] < 256 && f[9] < 0x1_0000 && ReservedZero(f)
  {
    HeaderOffsets(fmt);
    FieldAt(fmt, msg, order, 0, 0);
    FieldAt(fmt, msg, order, 4, 5);
    FieldAt(fmt, msg, order, 7, 16);
    FieldAt(fmt, msg, order, 9, 28);
    ReservedBytesZero(msg, order);
    ReadUintFits(msg[28..30], order);
  }

  /** Parsing a header whose reserved bytes are zero and encoding it again
      gives back the 34 header bytes. */
  lemma HeaderEncodeInverse(msg: seq<byte>, order: ByteOrder)
    requires |msg| >= HEADER_LENGTH
    requires msg[5] == 0 && forall i :: 16 <= i < 20 ==> msg[i] == 0
    ensures WellFormedHeader(ParseHeader(msg, order))
    ensures EncodeHeader(ParseHeader(msg, order), order) == msg[..HEADER_LENGTH]
  {
    var fmt := HEADER_FORMAT;
    ParsedHeaderWellFormed(msg, order);
    ParseHeaderUnpacks(fmt, msg, order);
    ParsedFieldsReady(fmt, msg, order);
    FieldsHeaderRoundTrip(Unpack(fmt, msg, order));
    PackUnpack(fmt, msg, order);
  }

  /** The three values `unpack("LSL")` would return for a timestamp. */
  function TimestampToFields(t: Timestamp): seq<nat>
  {
    [t.seconds / 0x1_0000, t.seconds % 0x1_0000, t.nanoseconds]
  }

  /** The timestamp fits its 48 bits of seconds and 32 bits of nanoseconds. */
  predicate WellFormedTimestamp(t: Timestamp)
  {
    t.seconds < 0x1_0000_0000_0000 && t.nanoseconds < 0x1_0000_0000
  }

  /** Origin timestamps that survive a round trip: a present timestamp must
      fit its fields and must not be zero, which reads back as absent. */
  predicate WellFormedOrigin(o: OriginTimestamp)
  {
    o.Ts? ==> WellFormedTimestamp(o.time) && !(o.time.seconds == 0 && o.time.nanoseconds == 0)
  }

  /** The ten payload bytes of SYNC, DELAY_REQ and FOLLOW_UP; an absent
      origin timestamp is written as zeros. */
  function EncodeOrigin(o: OriginTimestamp, order: ByteOrder): (s: seq<byte>)
    ensures |s| == TIMESTAMP_LENGTH
  {
    TimestampOffsets(TIMESTAMP_FORMAT);
    match o
    case Absent => seq(TIMESTAMP_LENGTH, i => 0)
    case Ts(t) => Pack(TIMESTAMP_FORMAT, TimestampToFields(t), order)
  }

  /** The fields of a well-formed timestamp fit their directives. */
  lemma TimestampFieldsFit(fmt: seq<Directive>, t: Timestamp)
    requires fmt == TIMESTAMP_FORMAT && WellFormedTimestamp(t)
    ensures FitsFormat(fmt, TimestampToFields(t))
  {
    var f := TimestampToFields(t);
    forall i | 0 <= i < |fmt|
      ensures f[i] < Pow2(8 * Width(fmt[i]))
    {
      WidthBound(fmt[i]);
    }
  }

  /** The bytes of an encoded timestamp lay it out as `parse` reads it. */
  lemma TimestampEncodeLayout(t: Timestamp, rest: seq<byte>, order: ByteOrder)
    requires WellFormedTimestamp(t)
    ensures var p := Pack(TIMESTAMP_FORMAT, TimestampToFields(t), order) + rest;
      |p| >= TIMESTAMP_LENGTH && TimestampLayout(p, order, t)
  {
    var fmt := TIMESTAMP_FORMAT;
    var p := Pack(fmt, TimestampToFields(t), order) + rest;
    TimestampFieldsFit(fmt, t);
    UnpackPack(fmt, TimestampToFields(t), rest, order);
    TimestampBytes(fmt, p, order);
  }

  /** A timestamp layout determines the timestamp. */
  lemma TimestampLayoutUnique(p: seq<byte>, order: ByteOrder, t: Timestamp, u: Timestamp)
    requires |p| >= TIMESTAMP_LENGTH
    requires TimestampLayout(p, order, t) && TimestampLayout(p, order, u)
    ensures t == u
  {
  }

  /** Encoding a well-formed origin timestamp and parsing it back, whatever
      follows it, gives the origin timestamp. */
  lemma OriginRoundTrip(o: OriginTimestamp, rest: seq<byte>, order: ByteOrder)
    requires WellFormedOrigin(o)
    ensures ParseOrigin(EncodeOrigin(o, order) + rest, order) == o
  {
    var p := EncodeOrigin(o, order) + rest;
    match o
    case Absent =>
      assert forall i :: 0 <= i < TIMESTAMP_LENGTH ==> p[i] == 0;
    case Ts(t) =>
      TimestampEncodeLayout(t, rest, order);
      TimestampZero(p, order, t);
      TimestampLayoutUnique(p, order, t, ParseOrigin(p, order).time);
  }

  /** Every timestamp `parse` reads is well-formed. */
  lemma TimestampLayoutBounds(p: seq<byte>, order: ByteOrder, t: Timestamp)
    requires |p| >= TIMESTAMP_LENGTH && TimestampLayout(p, order, t)
    ensures WellFormedTimestamp(t)
  {
    ReadUintFits(p[0..4], order);
    ReadUintFits(p[4..6], order);
    ReadUintFits(p[6..10], order);
  }

  /** The timestamp fields `parse` reads are the fields of the timestamp it
      builds. */
  lemma TimestampFieldsOfLayout(p: seq<byte>, order: ByteOrder, t: Timestamp)
    requires |p| >= TIMESTAMP_LENGTH && TimestampLayout(p, order, t)
    ensures FormatWidth(TIMESTAMP_FORMAT) <= |p|
    ensures TimestampToFields(t) == Unpack(TIMESTAMP_FORMAT, p, order)
  {
    TimestampBytes(TIMESTAMP_FORMAT, p, order);
    var hi, lo := ReadUint(p[0..4], order), ReadUint(p[4..6], order);
    ReadUintFits(p[4..6], order);
    DivModUnique(t.seconds, 0x1_0000, hi, lo);
  }

  /** Parsing an origin timestamp and encoding it again gives back the ten
      bytes it was read from; what `parse` produces is well-formed. */
  lemma OriginEncodeInverse(payload: seq<byte>, order: ByteOrder)
    requires |payload| >= TIMESTAMP_LENGTH
    ensures WellFormedOrigin(ParseOrigin(payload, order))
    ensures EncodeOrigin(ParseOrigin(payload, order), order) == payload[..TIMESTAMP_LENGTH]
  {
    match ParseOrigin(payload, order)
    case Absent =>
      assert EncodeOrigin(Absent, order) == payload[..TIMESTAMP_LENGTH];
    case Ts(t) =>
      TimestampLayoutBounds(payload, order, t);
      TimestampFieldsOfLayout(payload, order, t);
      TimestampZero(payload, order, t);
      PackUnpack(TIMESTAMP_FORMAT, payload, order);
  }

  /** A DELAY_RESP body that survives a round trip: the timestamp fits its
      fields, the clock identity its 64 bits and the port number its 16. */
  predicate WellFormedDelayResp(b: Body)
  {
    && b.DelayRespBody?
    && WellFormedTimestamp(b.receiveTimestamp)
    && b.requestingPortIdentity / 0x1_0000_0000 < 0x1_0000_0000_0000_0000
    && b.requestingPortIdentity % 0x1_0000_0000 < 0x1_0000
  }

  /** The five values `unpack("LSLQS")` would return for a DELAY_RESP body. */
  function DelayRespToFields(b: Body): seq<nat>
    requires b.DelayRespBody?
  {
    TimestampToFields(b.receiveTimestamp)
      + [b.requestingPortIdentity / 0x1_0000_0000, b.requestingPortIdentity % 0x1_0000_0000]
  }

  /** The twenty payload bytes of DELAY_RESP. */
  function EncodeDelayResp(b: Body, order: ByteOrder): (s: seq<byte>)
    requires b.DelayRespBody?
    ensures |s| == DELAY_RESP_LENGTH
  {
    DelayRespOffsets(DELAY_RESP_FORMAT);
    Pack(DELAY_RESP_FORMAT, DelayRespToFields(b), order)
  }

  lemma DelayRespFieldsFit(fmt: seq<Directive>, b: Body)
    requires fmt == DELAY_RESP_FORMAT && WellFormedDelayResp(b)
    ensures FitsFormat(fmt, DelayRespToFields(b))
  {
    var f := DelayRespToFields(b);
    forall i | 0 <= i < |fmt|
      ensures f[i] < Pow2(8 * Width(fmt[i]))
    {
      WidthBound(fmt[i]);
    }
  }

  /** The bytes of an encoded DELAY_RESP body lay it out as `parse` reads it. */
  lemma DelayRespEncodeLayout(b: Body, rest: seq<byte>, order: ByteOrder)
    requires WellFormedDelayResp(b)
    ensures var p := EncodeDelayResp(b, order) + rest;
      |p| >= DELAY_RESP_LENGTH && DelayRespLayout(p, order, b)
  {
    var fmt := DELAY_RESP_FORMAT;
    var p := EncodeDelayResp(b, order) + rest;
    DelayRespFieldsFit(fmt, b);
    UnpackPack(fmt, DelayRespToFields(b), rest, order);
    DelayRespBytes(fmt, p, order);
  }

  /** Encoding a well-formed DELAY_RESP body and parsing it back, whatever
      follows it, gives the body. */
  lemma DelayRespRoundTrip(b: Body, rest: seq<byte>, order: ByteOrder)
    requires WellFormedDelayResp(b)
    ensures ParseDelayResp(EncodeDelayResp(b, order) + rest, order) == b
  {
    var p := EncodeDelayResp(b, order) + rest;
    DelayRespEncodeLayout(b, rest, order);
    var c := ParseDelayResp(p, order);
    TimestampLayoutUnique(p, order, b.receiveTimestamp, c.receiveTimestamp);
  }

  /** Every DELAY_RESP body `parse` reads is well-formed. */
  lemma DelayRespLayoutBounds(p: seq<byte>, order: ByteOrder, b: Body)
    requires |p| >= DELAY_RESP_LENGTH && DelayRespLayout(p, order, b)
    ensures WellFormedDelayResp(b)
  {
    TimestampLayoutBounds(p, order, b.receiveTimestamp);
    var hi, lo := ReadUint(p[10..18], order), ReadUint(p[18..20], order);
    ReadUintFits(p[10..18], order);
    ReadUintFits(p[18..20], order);
    DivModUnique(b.requestingPortIdentity, 0x1_0000_0000, hi, lo);
  }

  /** The requesting port identity splits back into the two values it
      was joined from. */
  lemma PortIdentityFields(p: seq<byte>, order: ByteOrder, b: Body)
    requires |p| >= DELAY_RESP_LENGTH && DelayRespLayout(p, order, b)
    ensures b.requestingPortIdentity / 0x1_0000_0000 == ReadUint(p[10..18], order)
    ensures b.requestingPortIdentity % 0x1_0000_0000 == ReadUint(p[18..20], order)
  {
    var id, port := ReadUint(p[10..18], order), ReadUint(p[18..20], order);
    ReadUintFits(p[18..20], order);
    DivModUnique(b.requestingPortIdentity, 0x1_0000_0000, id, port);
  }

  /** The DELAY_RESP fields `parse` reads are the fields of the body it builds. */
  lemma DelayRespFieldsOfLayout(p: seq<byte>, order: ByteOrder, b: Body)
    requires |p| >= DELAY_RESP_LENGTH && DelayRespLayout(p, order, b)
    ensures FormatWidth(DELAY_RESP_FORMAT) <= |p|
    ensures DelayRespToFields(b) == Unpack(DELAY_RESP_FORMAT, p, order)
  {
    var fmt := DELAY_RESP_FORMAT;
    DelayRespOffsets(fmt);
    assert fmt == TIMESTAMP_FORMAT + [Q, S];
    UnpackPrefix(TIMESTAMP_FORMAT, [Q, S], p, order);
    TimestampFieldsOfLayout(p, order, b.receiveTimestamp);
    PortIdentityFields(p, order, b);
    FieldAt(fmt, p, order, 3, 10);
    FieldAt(fmt, p, order, 4, 18);
    var g := Unpack(fmt, p, order);
    assert g == g[..3] + [g[3], g[4]];
  }

  /** Parsing a DELAY_RESP body and encoding it again gives back the twenty
      bytes it was read from. */
  lemma DelayRespEncodeInverse(payload: seq<byte>, order: ByteOrder)
    requires |payload| >= DELAY_RESP_LENGTH
    ensures WellFormedDelayResp(ParseDelayResp(payload, order))
    ensures EncodeDelayResp(ParseDelayResp(payload, order), order) == payload[..DELAY_RESP_LENGTH]
  {
    var b := ParseDelayResp(payload, order);
    DelayRespLayoutBounds(payload, order, b);
    DelayRespFieldsOfLayout(payload, order, b);
    PackUnpack(DELAY_RESP_FORMAT, payload, order);
  }

  /** A message `parse` accepts and returns unchanged: a well-formed header
      of one of the four supported types, and the body that type carries. */
  predicate WellFormedMessage(m: Message)
  {
    && WellFormedHeader(m.header)
    && var t := m.header.messageType;
      && (t == SYNC || t == DELAY_REQ || t == FOLLOW_UP || t == DELAY_RESP)
      && (t == DELAY_RESP <==> m.body.DelayRespBody?)
      && (m.body.OriginBody? ==> WellFormedOrigin(m.body.originTimestamp))
      && (m.body.DelayRespBody? ==> WellFormedDelayResp(m.body))
  }

  /** The payload bytes of a message body. */
  function EncodeBody(b: Body, order: ByteOrder): seq<byte>
  {
    match b
    case OriginBody(o) => EncodeOrigin(o, order)
    case DelayRespBody(_, _) => EncodeDelayResp(b, order)
  }

  /** A whole message: header, then payload. */
  function EncodeMessage(m: Message, order: ByteOrder): (msg: seq<byte>)
    ensures |msg| >= HEADER_LENGTH
  {
    EncodeHeader(m.header, order) + EncodeBody(m.body, order)
  }

  /** `parse` accepts a message, and returns `Ok(m)`, once its header reads
      as `m`'s header, its type is a supported one and its payload reads as
      `m`'s body. */
  lemma ParseAssembles(msg: seq<byte>, order: ByteOrder, m: Message)
    requires |msg| >= HEADER_LENGTH && ParseHeader(msg, order) == m.header
    requires msg[0] % 16 in {SYNC, DELAY_REQ, FOLLOW_UP, DELAY_RESP}
    requires msg[0] % 16 != DELAY_RESP ==>
      |msg| >= HEADER_LENGTH + TIMESTAMP_LENGTH &&
      m.body == OriginBody(ParseOrigin(msg[HEADER_LENGTH..], order))
    requires msg[0] % 16 == DELAY_RESP ==>
      |msg| >= HEADER_LENGTH + DELAY_RESP_LENGTH &&
      m.body == ParseDelayResp(msg[HEADER_LENGTH..], order)
    ensures LongEnough(msg) && Parse(msg, order) == Ok(m)
  {
  }

  /** The payload of an encoded body parses back as the body. */
  lemma BodyRoundTrip(m: Message, rest: seq<byte>, order: ByteOrder)
    requires WellFormedMessage(m)
    ensures m.body.OriginBody? ==>
      |EncodeBody(m.body, order) + rest| >= TIMESTAMP_LENGTH &&
      ParseOrigin(EncodeBody(m.body, order) + rest, order) == m.body.originTimestamp
    ensures m.body.DelayRespBody? ==>
      |EncodeBody(m.body, order) + rest| >= DELAY_RESP_LENGTH &&
      ParseDelayResp(EncodeBody(m.body, order) + rest, order) == m.body
  {
    match m.body
    case OriginBody(o) => OriginRoundTrip(o, rest, order);
    case DelayRespBody(_, _) => DelayRespRoundTrip(m.body, rest, order);
  }

  /** Bytes after an encoded header leave the header and its type nibble
      intact and become the payload. */
  lemma HeaderThenPayload(h: Header, tail: seq<byte>, order: ByteOrder)
    requires WellFormedHeader(h)
    ensures var msg := EncodeHeader(h, order) + tail;
      && ParseHeader(msg, order) == h
      && msg[0] % 16 == h.messageType
      && msg[HEADER_LENGTH..] == tail
  {
    HeaderRoundTrip(h, tail, order);
    MessageTypeNibble(EncodeHeader(h, order) + tail, order);
  }

  /** A message's bytes, with anything appended, are its header's bytes
      followed by the rest. */
  lemma MessageBytes(m: Message, rest: seq<byte>, order: ByteOrder)
    ensures EncodeMessage(m, order) + rest ==
      EncodeHeader(m.header, order) + (EncodeBody(m.body, order) + rest)
  {
    var a, b := EncodeHeader(m.header, order), EncodeBody(m.body, order);
    assert (a + b) + rest == a + (b + rest);
  }

  /** Encoding a well-formed message and parsing it back, whatever bytes
      follow it, gives the message. */
  lemma MessageRoundTrip(m: Message, rest: seq<byte>, order: ByteOrder)
    requires WellFormedMessage(m)
    ensures LongEnough(EncodeMessage(m, order) + rest)
    ensures Parse(EncodeMessage(m, order) + rest, order) == Ok(m)
  {
    MessageBytes(m, rest, order);
    HeaderThenPayload(m.header, EncodeBody(m.body, order) + rest, order);
    BodyRoundTrip(m, rest, order);
    ParseAssembles(EncodeMessage(m, order) + rest, order, m);
  }
}
