/** Properties of `Message#parse` that relate several inputs: which bytes
    each part of the result depends on, the injectivity of the two port
    identities, the difference between their encodings, and which
    attributes each message type sets. */
module PtpProperties {
  import opened Bits
  import opened Bytes
  import opened PtpMessage

  /** The positions of the two reserved header fields: byte 5 and bytes 16 to 19. */
  predicate Reserved(i: int)
  {
    i == 5 || 16 <= i < 20
  }

  /** Two messages agree on every header byte that is not reserved. */
  predicate SameHeaderBytes(a: seq<byte>, b: seq<byte>)
    requires |a| >= HEADER_LENGTH && |b| >= HEADER_LENGTH
  {
    forall i :: 0 <= i < HEADER_LENGTH && !Reserved(i) ==> a[i] == b[i]
  }

  lemma SliceOfSlice(s: seq<byte>, i: nat, j: nat, k: nat, l: nat)
    requires i <= j <= |s| && k <= l <= j - i
    ensures s[i..j][k..l] == s[i + k .. i + l]
  {
    assert |s[i..j][k..l]| == l - k;
    forall n | 0 <= n < l - k
      ensures s[i..j][k..l][n] == s[i + k .. i + l][n]
    {
    }
  }

  /** Bytes that two runs share, slice by slice. */
  lemma SliceBytes(a: seq<byte>, b: seq<byte>, lo: nat, hi: nat)
    requires lo <= hi <= |a| && hi <= |b| && a[lo..hi] == b[lo..hi]
    ensures forall i :: lo <= i < hi ==> a[i] == b[i]
  {
    forall i | lo <= i < hi
      ensures a[i] == b[i]
    {
      assert a[i] == a[lo..hi][i - lo] && b[i] == b[lo..hi][i - lo];
    }
  }

  /** Two header layouts over messages that agree on bytes 0 to 4, 8 to 15
      and 20 to 33 describe headers that differ at most in `flagField`. */
  lemma LayoutAgreement(a: seq<byte>, b: seq<byte>, order: ByteOrder, h: Header, g: Header)
    requires |a| >= HEADER_LENGTH && |b| >= HEADER_LENGTH
    requires HeaderLayout(a, order, h) && HeaderLayout(b, order, g)
    requires a[0..5] == b[0..5] && a[8..16] == b[8..16] && a[20..34] == b[20..34]
    ensures h.(flagField := g.flagField) == g
  {
    SliceBytes(a, b, 0, 5);
    SliceBytes(a, b, 20, 34);
    SliceOfSlice(a, 0, 5, 2, 4);
    SliceOfSlice(b, 0, 5, 2, 4);
    SliceOfSlice(a, 20, 34, 0, 8);
    SliceOfSlice(b, 20, 34, 0, 8);
    SliceOfSlice(a, 20, 34, 8, 10);
    SliceOfSlice(b, 20, 34, 8, 10);
    SliceOfSlice(a, 20, 34, 10, 12);
    SliceOfSlice(b, 20, 34, 10, 12);
    DivModUnique(a[0], 16, h.transport, h.messageType);
    DivModUnique(b[0], 16, g.transport, g.messageType);
  }

  /** Every header attribute but `flagField` is read from bytes 0 to 4,
      8 to 15 and 20 to 33 alone. */
  lemma HeaderAgreement(a: seq<byte>, b: seq<byte>, order: ByteOrder)
    requires |a| >= HEADER_LENGTH && |b| >= HEADER_LENGTH
    requires a[0..5] == b[0..5] && a[8..16] == b[8..16] && a[20..34] == b[20..34]
    ensures ParseHeader(a, order).(flagField := ParseHeader(b, order).flagField) == ParseHeader(b, order)
  {
    LayoutAgreement(a, b, order, ParseHeader(a, order), ParseHeader(b, order));
  }

  /** Header bytes outside the reserved fields determine the header:
      neither the reserved bytes nor anything after byte 33 can change it. */
  lemma HeaderIgnoresReserved(a: seq<byte>, b: seq<byte>, order: ByteOrder)
    requires |a| >= HEADER_LENGTH && |b| >= HEADER_LENGTH && SameHeaderBytes(a, b)
    ensures ParseHeader(a, order) == ParseHeader(b, order)
  {
    assert a[0..5] == b[0..5];
    assert a[6..8] == b[6..8];
    assert a[8..16] == b[8..16];
    assert a[20..34] == b[20..34];
    HeaderAgreement(a, b, order);
  }

  /** Within one header layout, the source port identity
      `clockIdentity * 2^64 + portNumber` determines bytes 20 to 29: the
      port number's 16 bits never reach the clock identity's. */
  lemma LayoutPortIdentity(a: seq<byte>, b: seq<byte>, order: ByteOrder, h: Header, g: Header)
    requires |a| >= HEADER_LENGTH && |b| >= HEADER_LENGTH
    requires HeaderLayout(a, order, h) && HeaderLayout(b, order, g)
    requires h.sourcePortIdentity == g.sourcePortIdentity
    ensures a[20..30] == b[20..30]
  {
    var spi := h.sourcePortIdentity;
    ReadUintFits(a[28..30], order);
    ReadUintFits(b[28..30], order);
    DivModUnique(spi, 0x1_0000_0000_0000_0000, ReadUint(a[20..28], order), ReadUint(a[28..30], order));
    DivModUnique(spi, 0x1_0000_0000_0000_0000, ReadUint(b[20..28], order), ReadUint(b[28..30], order));
    ReadInjective(a[20..28], b[20..28], order);
    ReadInjective(a[28..30], b[28..30], order);
    assert a[20..30] == a[20..28] + a[28..30];
    assert b[20..30] == b[20..28] + b[28..30];
  }

  /** Equal source port identities come exactly from equal bytes 20 to 29. */
  lemma SourcePortIdentityInjective(a: seq<byte>, b: seq<byte>, order: ByteOrder)
    requires |a| >= HEADER_LENGTH && |b| >= HEADER_LENGTH
    ensures ParseHeader(a, order).sourcePortIdentity == ParseHeader(b, order).sourcePortIdentity
      <==> a[20..30] == b[20..30]
  {
    var h, g := ParseHeader(a, order), ParseHeader(b, order);
    if h.sourcePortIdentity == g.sourcePortIdentity {
      LayoutPortIdentity(a, b, order, h, g);
    }
    if a[20..30] == b[20..30] {
      LayoutPortIdentityOfBytes(a, b, order, h, g);
    }
  }

  /** Equal bytes 20 to 29 give equal source port identities. */
  lemma LayoutPortIdentityOfBytes(a: seq<byte>, b: seq<byte>, order: ByteOrder, h: Header, g: Header)
    requires |a| >= HEADER_LENGTH && |b| >= HEADER_LENGTH
    requires HeaderLayout(a, order, h) && HeaderLayout(b, order, g)
    requires a[20..30] == b[20..30]
    ensures h.sourcePortIdentity == g.sourcePortIdentity
  {
    SliceOfSlice(a, 20, 30, 0, 8);
    SliceOfSlice(b, 20, 30, 0, 8);
    SliceOfSlice(a, 20, 30, 8, 10);
    SliceOfSlice(b, 20, 30, 8, 10);
  }

  /** One header layout determines every non-reserved header byte. */
  lemma LayoutInjective(a: seq<byte>, b: seq<byte>, order: ByteOrder, h: Header)
    requires |a| >= HEADER_LENGTH && |b| >= HEADER_LENGTH
    requires HeaderLayout(a, order, h) && HeaderLayout(b, order, h)
    ensures SameHeaderBytes(a, b)
  {
    ReadInjective(a[2..4], b[2..4], order);
    SliceBytes(a, b, 2, 4);
    ReadInjective(a[6..8], b[6..8], order);
    SliceBytes(a, b, 6, 8);
    ReadInjective(a[8..16], b[8..16], order);
    SliceBytes(a, b, 8, 16);
    LayoutPortIdentity(a, b, order, h, h);
    SliceBytes(a, b, 20, 30);
    ReadInjective(a[30..32], b[30..32], order);
    SliceBytes(a, b, 30, 32);
  }

  /** Equal headers come only from messages that agree on every
      non-reserved header byte. */
  lemma HeaderInjective(a: seq<byte>, b: seq<byte>, order: ByteOrder)
    requires |a| >= HEADER_LENGTH && |b| >= HEADER_LENGTH
    requires ParseHeader(a, order) == ParseHeader(b, order)
    ensures SameHeaderBytes(a, b)
  {
    LayoutInjective(a, b, order, ParseHeader(a, order));
  }

  /** Two messages have the same header exactly when they agree on the
      header bytes outside the reserved fields. */
  lemma HeaderDeterminedByBytes(a: seq<byte>, b: seq<byte>, order: ByteOrder)
    requires |a| >= HEADER_LENGTH && |b| >= HEADER_LENGTH
    ensures ParseHeader(a, order) == ParseHeader(b, order) <==> SameHeaderBytes(a, b)
  {
    if SameHeaderBytes(a, b) {
      HeaderIgnoresReserved(a, b, order);
    }
    if ParseHeader(a, order) == ParseHeader(b, order) {
      HeaderInjective(a, b, order);
    }
  }

  /** The whole result of `parse` depends only on the non-reserved header
      bytes and the payload. */
  lemma ParseDetermined(a: seq<byte>, b: seq<byte>, order: ByteOrder)
    requires LongEnough(a) && LongEnough(b)
    requires SameHeaderBytes(a, b) && a[HEADER_LENGTH..] == b[HEADER_LENGTH..]
    ensures Parse(a, order) == Parse(b, order)
  {
    HeaderIgnoresReserved(a, b, order);
    assert a[0] == b[0];
  }

  /** Overwriting the reserved byte 5 and the reserved bytes 16 to 19 with
      anything leaves the result of `parse` unchanged. */
  lemma ReservedBytesIgnored(a: seq<byte>, x: byte, r: seq<byte>, order: ByteOrder)
    requires LongEnough(a) && |r| == 4
    ensures var b := a[..5] + [x] + a[6..16] + r + a[20..];
      LongEnough(b) && Parse(b, order) == Parse(a, order)
  {
    var b := a[..5] + [x] + a[6..16] + r + a[20..];
    assert |b| == |a|;
    forall i | 0 <= i < |a| && !Reserved(i)
      ensures b[i] == a[i]
    {
    }
    assert b[HEADER_LENGTH..] == a[HEADER_LENGTH..];
    ParseDetermined(a, b, order);
  }

  /** Overwriting the flag field (bytes 6 and 7) changes `flagField` and
      nothing else: the other header attributes, which outcome `parse`
      gives, and the body (for SYNC, DELAY_REQ and FOLLOW_UP, the origin
      timestamp) stay as they were. */
  lemma FlagFieldIndependent(a: seq<byte>, f: seq<byte>, order: ByteOrder)
    requires LongEnough(a) && |f| == 2
    ensures var b := a[..6] + f + a[8..];
      && LongEnough(b)
      && Parse(b, order).HeaderOf() == Parse(a, order).HeaderOf().(flagField := ReadUint(f, order))
      && Parse(b, order).Ok? == Parse(a, order).Ok?
      && (Parse(a, order).Ok? ==> Parse(b, order).message.body == Parse(a, order).message.body)
  {
    var b := a[..6] + f + a[8..];
    assert |b| == |a| && b[0] == a[0];
    assert b[0..5] == a[0..5];
    assert b[8..16] == a[8..16];
    assert b[20..34] == a[20..34];
    assert b[6..8] == f;
    assert b[HEADER_LENGTH..] == a[HEADER_LENGTH..];
    HeaderAgreement(a, b, order);
  }

  /** Within DELAY_RESP body layouts, the requesting port identity
      `clockIdentity * 2^32 + portNumber` determines payload bytes 10 to 19
      and is determined by them: the port number has only 16 bits. */
  lemma LayoutRequestingPortIdentity(p: seq<byte>, q: seq<byte>, order: ByteOrder, b: Body, c: Body)
    requires |p| >= DELAY_RESP_LENGTH && |q| >= DELAY_RESP_LENGTH
    requires DelayRespLayout(p, order, b) && DelayRespLayout(q, order, c)
    ensures b.requestingPortIdentity == c.requestingPortIdentity <==> p[10..20] == q[10..20]
  {
    var cp, np := ReadUint(p[10..18], order), ReadUint(p[18..20], order);
    var cq, nq := ReadUint(q[10..18], order), ReadUint(q[18..20], order);
    assert p[10..18] == p[10..20][..8] && p[18..20] == p[10..20][8..];
    assert q[10..18] == q[10..20][..8] && q[18..20] == q[10..20][8..];
    if b.requestingPortIdentity == c.requestingPortIdentity {
      var rpi := b.requestingPortIdentity;
      ReadUintFits(p[18..20], order);
      ReadUintFits(q[18..20], order);
      DivModUnique(rpi, 0x1_0000_0000, cp, np);
      DivModUnique(rpi, 0x1_0000_0000, cq, nq);
      ReadInjective(p[10..18], q[10..18], order);
      ReadInjective(p[18..20], q[18..20], order);
      assert p[10..20] == p[10..18] + p[18..20];
      assert q[10..20] == q[10..18] + q[18..20];
    }
  }

  /** The requesting port identity of DELAY_RESP: equal identities come
      exactly from equal payload bytes 10 to 19. */
  lemma RequestingPortIdentityInjective(p: seq<byte>, q: seq<byte>, order: ByteOrder)
    requires |p| >= DELAY_RESP_LENGTH && |q| >= DELAY_RESP_LENGTH
    ensures ParseDelayResp(p, order).requestingPortIdentity == ParseDelayResp(q, order).requestingPortIdentity
      <==> p[10..20] == q[10..20]
  {
    LayoutRequestingPortIdentity(p, q, order, ParseDelayResp(p, order), ParseDelayResp(q, order));
  }

  /** The header joins a port identity with a 64-bit shift, the DELAY_RESP
      body with a 32-bit one: the same ten identity bytes decode to the same
      integer in both places only when the clock identity is all zero. */
  lemma PortIdentityEncodingsDiffer(msg: seq<byte>, p: seq<byte>, order: ByteOrder)
    requires |msg| >= HEADER_LENGTH && |p| >= DELAY_RESP_LENGTH
    requires msg[20..30] == p[10..20]
    ensures ParseHeader(msg, order).sourcePortIdentity == ParseDelayResp(p, order).requestingPortIdentity
      <==> forall i :: 20 <= i < 28 ==> msg[i] == 0
  {
    LayoutEncodingsDiffer(msg, p, order, ParseHeader(msg, order), ParseDelayResp(p, order));
  }

  /** The same, over any header and DELAY_RESP body layouts. */
  lemma LayoutEncodingsDiffer(msg: seq<byte>, p: seq<byte>, order: ByteOrder, h: Header, b: Body)
    requires |msg| >= HEADER_LENGTH && |p| >= DELAY_RESP_LENGTH
    requires msg[20..30] == p[10..20]
    requires HeaderLayout(msg, order, h) && DelayRespLayout(p, order, b)
    ensures h.sourcePortIdentity == b.requestingPortIdentity
      <==> forall i :: 20 <= i < 28 ==> msg[i] == 0
  {
    var clock := msg[20..28];
    assert clock == msg[20..30][..8] && p[10..18] == p[10..20][..8];
    assert msg[28..30] == msg[20..30][8..] && p[18..20] == p[10..20][8..];
    ReadZero(clock, order);
    assert (forall i :: 0 <= i < 8 ==> clock[i] == 0) <==> (forall i :: 20 <= i < 28 ==> msg[i] == 0) by {
      assert forall i :: 20 <= i < 28 ==> msg[i] == clock[i - 20];
    }
  }

  /** Which attributes `parse` sets: SYNC, DELAY_REQ and FOLLOW_UP set the
      origin timestamp and leave the DELAY_RESP attributes unset; DELAY_RESP
      sets its two attributes and leaves the origin timestamp unset. */
  lemma ParseAttributes(msg: seq<byte>, order: ByteOrder)
    requires LongEnough(msg)
    ensures var r := Parse(msg, order);
      r.Ok? && msg[0] % 16 != DELAY_RESP ==>
        && r.message.GetOriginTimestamp().Some?
        && r.message.GetReceiveTimestamp() == None
        && r.message.GetRequestingPortIdentity() == None
    ensures var r := Parse(msg, order);
      r.Ok? && msg[0] % 16 == DELAY_RESP ==>
        && r.message.GetOriginTimestamp() == None
        && r.message.GetReceiveTimestamp().Some?
        && r.message.GetRequestingPortIdentity().Some?
  {
  }

  /** The origin timestamp is the absent sentinel exactly when the seconds
      and nanoseconds read are both zero, and otherwise that timestamp. */
  lemma OriginSentinel(payload: seq<byte>, order: ByteOrder, t: Timestamp)
    requires |payload| >= TIMESTAMP_LENGTH && TimestampLayout(payload, order, t)
    ensures ParseOrigin(payload, order) ==
      if t.seconds == 0 && t.nanoseconds == 0 then Absent else Ts(t)
  {
    TimestampZero(payload, order, t);
  }
}
