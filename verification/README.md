# PTP message parser model

A Dafny model of `RubyPtp::Message#parse`, the Precision Time Protocol
(IEEE 1588-2008) message decoder of the `ruby_ptp` gem. `parse` takes the
bytes of one datagram and does three things:

- It reads the 34-byte common header with `unpack("CCSCCSQLQSSCC")`.
- It splits byte 0 into the transport nibble and the message-type nibble, and
  joins the clock identity and port number into one source port identity.
- It dispatches on the message type:
  - SYNC, DELAY_REQ and FOLLOW_UP carry an origin timestamp, read with `LSL`.
    An all-zero timestamp is reported as the sentinel `-1`.
  - DELAY_RESP carries a receive timestamp and the requesting port identity,
    read with `LSLQS`.
  - Six other known types raise `NotImplementedError` with the type's name.
  - Every remaining nibble raises `ArgumentError`.

Both errors are raised after the header attributes have been assigned.

Modules:

- `Bits` models Ruby's `<<`, `>>`, `|` and `&` on non-negative Integers.
  `|` and `&` are defined bit by bit, so the arithmetic reading of each
  fix-up is proved, not assumed.
- `Bytes` reads and writes unsigned integers stored in bytes. Ruby's `S`, `L`
  and `Q` directives use the host's native byte order, so the byte order is a
  parameter (`BigEndian` or `LittleEndian`).
- `UnpackFormat` models `String#unpack` for the directives `C`, `S`, `L` and
  `Q`. `Pack` is its inverse, and both round trips are proved.
- `PtpMessage` models `parse`:
  - `Parse` returns `Ok(message)`, `NotImplemented(header, typeName)` or
    `UnknownType(header)`.
  - `HeaderLayout`, `TimestampLayout` and `DelayRespLayout` state which bytes
    each attribute is read from.
- `PtpEncode` is the inverse of the parser. It writes headers, origin
  timestamps, DELAY_RESP bodies and whole messages back to bytes, and proves
  both round trips against the parser. The gem has no encoder; these
  definitions exist only as the parser's inverse.
- `PtpProperties` holds the properties that relate several inputs:
  - which bytes the result depends on;
  - that both port identities are injective;
  - how the two port-identity encodings differ;
  - which attributes each message type sets.

Where IEEE 1588-2008 and the gem's code differ, the model follows the code:

- **Byte order.** The standard sends every multi-octet field in network
  (big-endian) order. The code reads them with the native-order directives
  `S`, `L` and `Q`, so the byte order is a parameter here.
- **Two-step flag.** The standard marks a two-step clock with the
  twoStepFlag bit in flagField (clause 13.3, the common header). The code
  never looks at flagField: it reports the absent origin timestamp only when
  the encoded timestamp is zero. `FlagFieldIndependent` proves that the flag
  field cannot change the origin timestamp.
- **Port identities.** The standard's portIdentity is a 10-octet structure:
  an 8-octet clockIdentity followed by a 16-bit portNumber (clause 5.3, the
  derived data types). The code joins the two into one Integer, with
  `(clockIdentity << 64) | portNumber` in the header and
  `(clockIdentity << 32) | portNumber` in DELAY_RESP. The model keeps both as
  unbounded naturals; see `PortIdentityEncodingsDiffer`.
- **Correction field.** The standard's correctionField is a signed
  Integer64. The code reads it with the unsigned `Q` directive, and so does
  the model.

## Model

| member | source | states |
|---|---|---|
| PtpMessage.Parse | lib/ruby_ptp/message.rb:30-85 | The result carries the header read from the first 34 bytes, in every outcome. It is `Ok` exactly for nibbles 0x0, 0x1, 0x8 and 0x9. It is `NotImplemented`, with that type's name, exactly for 0x2, 0x3 and 0xa to 0xd. It is `UnknownType` exactly for 0x4 to 0x7, 0xe and 0xf. SYNC, DELAY_REQ and FOLLOW_UP carry the origin timestamp read from the payload (the bytes after byte 33). DELAY_RESP carries the DELAY_RESP body read from the payload. |
| PtpMessage.ParseHeader | lib/ruby_ptp/message.rb:31-43 | Each header attribute is read from its bytes in the `CCSCCSQLQSSCC` layout. Byte 0 gives transport (high nibble) and messageType (low nibble). The source port identity is bytes 20-27 times 2^64 plus bytes 28-29. Bytes 5 and 16-19 feed no attribute. |
| PtpMessage.UnpackHeader | lib/ruby_ptp/message.rb:31-37 | `msg[0..33].unpack("CCSCCSQLQSSCC")` returns thirteen values: the single bytes 0, 1, 4, 5, 32 and 33, and the integers in bytes 2-3, 6-7, 8-15, 16-19, 20-27, 28-29 and 30-31, in the given byte order. |
| PtpMessage.Nibbles | lib/ruby_ptp/message.rb:40-41 | `b >> 4` and `b & 0xf` are both below 16, and `16 * transport + messageType == b`. |
| PtpMessage.JoinFields | lib/ruby_ptp/message.rb:43 | `hi << k` or-ed with `lo` equals `hi * 2^k + lo` whenever `lo` fits in `k` bits. |
| PtpMessage.MessageTypeNibble | lib/ruby_ptp/message.rb:40-41 | The parsed messageType is byte 0 mod 16, and transport is byte 0 div 16. |
| PtpMessage.UnpackTimestamp | lib/ruby_ptp/message.rb:51 | `payload.unpack("LSL")` reads payload bytes 0-3, 4-5 and 6-9. |
| PtpMessage.UnpackDelayResp | lib/ruby_ptp/message.rb:66 | `payload.unpack("LSLQS")` reads payload bytes 0-3, 4-5, 6-9, 10-17 and 18-19. |
| PtpMessage.TimestampZero | lib/ruby_ptp/message.rb:52-55 | A timestamp read from the payload has zero seconds and zero nanoseconds exactly when all ten timestamp bytes are zero. |
| PtpMessage.ParseOrigin | lib/ruby_ptp/message.rb:51-59 | The origin timestamp is `Absent` (the `-1` sentinel) exactly when the ten timestamp bytes are zero. Otherwise its seconds are bytes 0-3 times 2^16 plus bytes 4-5, and its nanoseconds are bytes 6-9. |
| PtpMessage.ParseDelayResp | lib/ruby_ptp/message.rb:66-71 | The DELAY_RESP body has a receive timestamp in the timestamp layout. Its requesting port identity is payload bytes 10-17 times 2^32 plus bytes 18-19. |
| PtpMessage.HeaderLayoutOf | lib/ruby_ptp/message.rb:35-43 | The attributes assigned from the unpacked header values lie where the header layout says. |
| PtpMessage.TimestampLayoutOf | lib/ruby_ptp/message.rb:51-52 | `sec1 << 16` or-ed with `sec2`, and `nsec`, lie where the timestamp layout says. |
| PtpMessage.DelayRespLayoutOf | lib/ruby_ptp/message.rb:66-71 | The receive timestamp and `rpi1 << 32` or-ed with `rpi2` lie where the DELAY_RESP layout says. |
| PtpMessage.HeaderFromFields | lib/ruby_ptp/message.rb:35-43 | The header attributes follow from the unpacked values: the nibbles recombine to value 0, and the source port identity is value 8 times 2^64 plus value 9 whenever value 9 fits in 16 bits. |
| PtpMessage.TimestampFromFields | lib/ruby_ptp/message.rb:52 | The seconds, `sec1 << 16` or-ed with `sec2`, are `sec1 * 2^16 + sec2` whenever `sec2` fits in 16 bits. |
| PtpMessage.TypeName | lib/ruby_ptp/message.rb:61-80 | A type code has a name exactly when it is one of the ten defined constants; the name is the one `NotImplementedError` carries. |
| PtpMessage.LongEnough | lib/ruby_ptp/message.rb:31-66 | What `parse` reads without meeting `nil`: the 34 header bytes, then 10 payload bytes for SYNC, DELAY_REQ and FOLLOW_UP, or 20 for DELAY_RESP. |
| Bytes.ReadUint | lib/ruby_ptp/message.rb:37 | One `C`, `S`, `L` or `Q` value: the unsigned integer its 1, 2, 4 or 8 bytes encode in the given byte order. Its bounds, injectivity and inverse are the `Bytes` lemmas below. |
| UnpackFormat.Unpack | lib/ruby_ptp/message.rb:37 | `String#unpack`: one value per directive, each read from the bytes at that field's offset. What it returns is stated by `UnpackCons`, `FieldAt`, `UnpackFits` and `UnpackTake` below. |
| Bits.OrShiftedLow | lib/ruby_ptp/message.rb:43 | Or-ing a value of at most `k` bits into `hi << k` is addition. |
| Bits.ShiftLeft | lib/ruby_ptp/message.rb:43 | `a << k` on a Ruby Integer is `a * 2^k`: Integers have no width, so no bit is lost. |
| Bits.ShiftRight | lib/ruby_ptp/message.rb:40 | `a >> k` is `a` divided by 2^k, rounded down. |
| Bits.Or | lib/ruby_ptp/message.rb:43 | Or-ing `a` with `b` gives at least each operand and at most their sum. |
| Bits.And | lib/ruby_ptp/message.rb:41 | `a & b` is at most each operand. |
| Bits.AndLowMask | lib/ruby_ptp/message.rb:41 | `a & (2^k - 1)` is `a` mod 2^k. |
| Bits.NibbleSplit | lib/ruby_ptp/message.rb:40-41 | `a >> 4` is `a / 16`, and `a & 0xf` is `a % 16`. |
| Bytes.ReadUintBound | lib/ruby_ptp/message.rb:37 | An `n`-byte unpacked integer is below 2^(8n), in either byte order. |
| Bytes.ReadUintFits | lib/ruby_ptp/message.rb:37 | `S`, `L` and `Q` values are below 2^16, 2^32 and 2^64. |
| Bytes.ReadUintByte | lib/ruby_ptp/message.rb:37 | A `C` value is the byte itself. |
| Bytes.ReadWrite | lib/ruby_ptp/message.rb:37 | Writing a value that fits in `n` bytes and reading it back gives the value. |
| Bytes.WriteRead | lib/ruby_ptp/message.rb:37 | Reading bytes and writing the value back at the same width gives the bytes. |
| Bytes.ReadInjective | lib/ruby_ptp/message.rb:37 | Two byte runs of one width read as the same integer only when they are equal. |
| Bytes.ReadZero | lib/ruby_ptp/message.rb:55 | A run of bytes reads as zero exactly when every byte is zero. |
| UnpackFormat.UnpackCons | lib/ruby_ptp/message.rb:37 | `unpack` reads the first directive's value off the front, then unpacks the rest of the format from the bytes after it. |
| UnpackFormat.FieldAt | lib/ruby_ptp/message.rb:37 | The `i`-th unpacked value is the integer in the `Width` bytes at the field's offset. For `C`, it is that byte. |
| UnpackFormat.UnpackTake | lib/ruby_ptp/message.rb:31-37 | Bytes beyond the format do not change what `unpack` returns, so `msg[0..33]` and `msg` unpack alike. |
| UnpackFormat.UnpackPrefix | lib/ruby_ptp/message.rb:66 | A longer format reads a shorter format's fields first, with the same values (`LSLQS` begins with `LSL`). |
| UnpackFormat.UnpackFits | lib/ruby_ptp/message.rb:37 | Every unpacked value fits the width of its directive. |
| UnpackFormat.UnpackPack | lib/ruby_ptp/message.rb:37 | Unpacking what `Pack` wrote, with any bytes appended, returns the values `Pack` was given. |
| UnpackFormat.PackUnpack | lib/ruby_ptp/message.rb:37 | Packing what `unpack` read gives back exactly the bytes the format covers. |
| PtpEncode.HeaderFieldsRoundTrip | lib/ruby_ptp/message.rb:35-43 | Splitting a well-formed header into the thirteen unpack values, with reserved values zero, and assigning them back gives the header. |
| PtpEncode.FieldsHeaderRoundTrip | lib/ruby_ptp/message.rb:35-43 | Assigning unpacked values with zero reserved values to a header, and splitting it again, gives the values. |
| PtpEncode.EncodeHeader | lib/ruby_ptp/message.rb:31-37 | An encoded header is exactly the 34 bytes the header format covers. |
| PtpEncode.HeaderRoundTrip | lib/ruby_ptp/message.rb:31-43 | Parsing a well-formed header written at the format's offsets, followed by any payload, returns every header attribute unchanged. |
| PtpEncode.ParsedHeaderWellFormed | lib/ruby_ptp/message.rb:35-43 | Every header `parse` reads fits its fields. |
| PtpEncode.HeaderEncodeInverse | lib/ruby_ptp/message.rb:31-43 | Take a message whose reserved bytes are zero. Its parsed header is well-formed, and encoding it gives back the first 34 bytes. |
| PtpEncode.OriginRoundTrip | lib/ruby_ptp/message.rb:51-59 | Encoding a well-formed origin timestamp, `Absent` included, and parsing it back gives it unchanged, whatever follows. |
| PtpEncode.TimestampLayoutBounds | lib/ruby_ptp/message.rb:51-52 | Every timestamp `parse` reads has seconds below 2^48 and nanoseconds below 2^32. |
| PtpEncode.TimestampFieldsOfLayout | lib/ruby_ptp/message.rb:51-52 | A timestamp's seconds split back into the `sec1` and `sec2` it was joined from. |
| PtpEncode.OriginEncodeInverse | lib/ruby_ptp/message.rb:51-59 | A parsed origin timestamp is well-formed, and encoding it gives back the ten bytes it was read from. |
| PtpEncode.DelayRespRoundTrip | lib/ruby_ptp/message.rb:66-71 | Encoding a well-formed DELAY_RESP body and parsing it back gives the body, whatever follows. |
| PtpEncode.DelayRespLayoutBounds | lib/ruby_ptp/message.rb:66-71 | Every DELAY_RESP body `parse` reads is well-formed. |
| PtpEncode.PortIdentityFields | lib/ruby_ptp/message.rb:68 | The requesting port identity splits back into `rpi1` and `rpi2`. |
| PtpEncode.DelayRespFieldsOfLayout | lib/ruby_ptp/message.rb:66-71 | The DELAY_RESP values `parse` unpacks are the fields of the body it builds. |
| PtpEncode.DelayRespEncodeInverse | lib/ruby_ptp/message.rb:66-71 | A parsed DELAY_RESP body is well-formed, and encoding it gives back the twenty bytes it was read from. |
| PtpEncode.ParseAssembles | lib/ruby_ptp/message.rb:46-71 | `parse` returns `Ok(m)`, and accepts the message, once three things hold: the header reads as `m`'s header, the type is supported, and the payload reads as `m`'s body. |
| PtpEncode.HeaderThenPayload | lib/ruby_ptp/message.rb:31-32 | Bytes after an encoded header leave the header and its type nibble intact, and become the payload. |
| PtpEncode.MessageRoundTrip | lib/ruby_ptp/message.rb:30-71 | Take a well-formed message of a supported type, encode it, and append anything. `parse` accepts the result and returns `Ok` of that message. |
| PtpProperties.LayoutAgreement | lib/ruby_ptp/message.rb:35-43 | Messages that agree on bytes 0-4, 8-15 and 20-33 have headers that differ at most in `flagField`. |
| PtpProperties.HeaderAgreement | lib/ruby_ptp/message.rb:31-43 | Every header attribute except `flagField` depends only on bytes 0-4, 8-15 and 20-33. |
| PtpProperties.HeaderIgnoresReserved | lib/ruby_ptp/message.rb:31-42 | Messages that agree on the non-reserved header bytes have equal headers. The reserved bytes and the payload never change a header attribute. |
| PtpProperties.LayoutPortIdentity | lib/ruby_ptp/message.rb:43 | Equal source port identities come from equal bytes 20-29. |
| PtpProperties.LayoutPortIdentityOfBytes | lib/ruby_ptp/message.rb:43 | Equal bytes 20-29 give equal source port identities. |
| PtpProperties.SourcePortIdentityInjective | lib/ruby_ptp/message.rb:36-43 | Two messages have equal source port identities exactly when their bytes 20-29 are equal. |
| PtpProperties.LayoutInjective | lib/ruby_ptp/message.rb:35-43 | One header layout determines every non-reserved header byte. |
| PtpProperties.HeaderInjective | lib/ruby_ptp/message.rb:35-43 | Equal headers come only from messages that agree on every non-reserved header byte. |
| PtpProperties.HeaderDeterminedByBytes | lib/ruby_ptp/message.rb:31-43 | Two messages have equal headers exactly when they agree on the non-reserved header bytes. |
| PtpProperties.ParseDetermined | lib/ruby_ptp/message.rb:30-85 | The whole result of `parse` depends only on the non-reserved header bytes and the payload. |
| PtpProperties.ReservedBytesIgnored | lib/ruby_ptp/message.rb:35-42 | Overwriting byte 5 and bytes 16-19 with any values leaves the result of `parse` unchanged. |
| PtpProperties.FlagFieldIndependent | lib/ruby_ptp/message.rb:46-59 | Overwriting bytes 6-7 changes `flagField` to their value and nothing else. The other header attributes, the outcome, and the body (the origin timestamp included) stay the same. |
| PtpProperties.LayoutRequestingPortIdentity | lib/ruby_ptp/message.rb:66-68 | Within DELAY_RESP layouts, equal requesting port identities come exactly from equal payload bytes 10-19. |
| PtpProperties.RequestingPortIdentityInjective | lib/ruby_ptp/message.rb:66-68 | Two DELAY_RESP payloads have equal requesting port identities exactly when their bytes 10-19 are equal. |
| PtpProperties.PortIdentityEncodingsDiffer | lib/ruby_ptp/message.rb:43-68 | Take the same ten identity bytes in a header and in a DELAY_RESP payload. They decode to the same integer exactly when the clock identity bytes are all zero. |
| PtpProperties.LayoutEncodingsDiffer | lib/ruby_ptp/message.rb:43-68 | Within a header layout and a DELAY_RESP layout sharing the ten identity bytes, the two port identities are equal exactly when the clock identity bytes are all zero. |
| PtpProperties.ParseAttributes | lib/ruby_ptp/message.rb:50-71 | SYNC, DELAY_REQ and FOLLOW_UP set the origin timestamp and leave receiveTimestamp and requestingPortIdentity unset. DELAY_RESP sets those two and leaves the origin timestamp unset. |
| PtpProperties.OriginSentinel | lib/ruby_ptp/message.rb:52-59 | The origin timestamp is `Absent` exactly when the seconds and nanoseconds read are both zero. Otherwise it is `[sec, nsec]`. |

## Left out

- lib/ruby_ptp/init_interface.rb, lib/ruby_ptp/port.rb, lib/ruby_ptp/change_time.rb and lib/ruby_ptp/helper.rb are not part of this model. They are sockets, ioctls, `adjtimex`, file output and floating point.
- The synchronisation state machine and the delay and offset estimator are not part of this model either.
- The `puts` diagnostic before `ArgumentError` (message.rb:83) is output only and is not modelled.
- The option-hash constructor (message.rb:22-28) and `alias_attribute :type` (message.rb:8) are not modelled. `parse` is modelled as a pure function of the bytes.
- `parse` assigns attributes on a Message object and never clears them. The model returns a fresh result, which matches the only caller, the constructor, working on a new object.
- PtpMessage.Parse: short input is excluded by the precondition `LongEnough` rather than modelled as an error. The header needs 34 bytes, the SYNC, DELAY_REQ and FOLLOW_UP payload 10 and the DELAY_RESP payload 20; on shorter input Ruby's `unpack` yields `nil` fields and the fix-ups fail on them. A few short inputs that Ruby does handle are excluded too: a 30- to 33-byte message of an unsupported or unknown type, and a SYNC, DELAY_REQ or FOLLOW_UP payload of 6 to 9 bytes, which yields `[sec, nil]`.
- The model assumes `msg` is a binary (ASCII-8BIT) String, as socket reads return. `msg[0..33]` and `msg[34..-1]` (message.rb:31-32) index characters, so for a UTF-8 String holding multibyte characters the payload would start at a different byte; `unpack` reads bytes, so the header would not change.
- The byte order is the host's native order in Ruby. The model takes it as a parameter and proves every property for both orders.
- The encoders in `PtpEncode` have no counterpart in the gem. They exist to state the round-trip properties.
