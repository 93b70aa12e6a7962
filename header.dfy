/**
 * The common RTCP header of section 6.4.1 of RFC 3550:
 *
 *     V=2 | P | count/format (5 bits) | packet type (8 bits) | length (16 bits)
 *     SSRC (32 bits)
 *
 * The length field holds the packet length in 32-bit words minus one. The
 * SSRC after the first four octets is always present; for some packet types
 * it belongs to the header (header length 8), for the others it is the
 * first field of the body (header length 4).
 */
module Header {
  import opened Wire
  import opened Format

  /** `RtcpType`: the packet types of RFC 3550 and RFC 4585. */
  datatype RtcpType =
    | SenderReport
    | ReceiverReport
    | SourceDescription
    | Goodbye
    | ApplicationDefined
    | TransportLayerFeedback
    | PayloadSpecificFeedback
    | ExtendedReport

  /** `packet_type as u8`: the enum discriminants 200..207. */
  function Code(t: RtcpType): (r: Byte)
    ensures 200 <= r <= 207
  {
    match t
    case SenderReport => 200
    case ReceiverReport => 201
    case SourceDescription => 202
    case Goodbye => 203
    case ApplicationDefined => 204
    case TransportLayerFeedback => 205
    case PayloadSpecificFeedback => 206
    case ExtendedReport => 207
  }

  /** Distinct packet types have distinct codes. */
  lemma CodeInjective(s: RtcpType, t: RtcpType)
    ensures Code(s) == Code(t) ==> s == t
  {
  }

  /**
   * `RtcpType::header_len`: 8 when the SSRC after the first four octets is
   * a "sender" field sent as zero (RR, RTPFB, PSFB, XR), 4 when it is the
   * first field of the body (the sender info of an SR, the first SDES
   * chunk, the first BYE source, the APP source).
   */
  function HeaderLen(t: RtcpType): (r: nat)
    ensures r == 4 || r == 8
    ensures r == 4 <==> t in {SenderReport, SourceDescription, Goodbye, ApplicationDefined}
  {
    match t
    case SenderReport => 4
    case ReceiverReport => 8
    case SourceDescription => 4
    case Goodbye => 4
    case ApplicationDefined => 4
    case TransportLayerFeedback => 8
    case PayloadSpecificFeedback => 8
    case ExtendedReport => 8
  }

  /** `RtcpType::from_u8`: defined exactly on 200..207, and inverse to `Code`. */
  function FromU8(v: Byte): (r: Option<RtcpType>)
    ensures r.Some? <==> 200 <= v <= 207
    ensures r.Some? ==> Code(r.value) == v
  {
    match v
    case 200 => Some(SenderReport)
    case 201 => Some(ReceiverReport)
    case 202 => Some(SourceDescription)
    case 203 => Some(Goodbye)
    case 204 => Some(ApplicationDefined)
    case 205 => Some(TransportLayerFeedback)
    case 206 => Some(PayloadSpecificFeedback)
    case 207 => Some(ExtendedReport)
    case _ => None
  }

  /** Decoding the code of a packet type gives back the packet type. */
  lemma FromU8Code(t: RtcpType)
    ensures FromU8(Code(t)) == Some(t)
  {
  }

  /** `RtcpHeader`. `length` is the whole packet length in bytes. */
  datatype RtcpHeader = RtcpHeader(
    version: Byte,
    hasPadding: bool,
    fmt: FeedbackMessageType,
    packetType: RtcpType,
    length: nat,
    ssrc: U32
  )

  /**
   * `RtcpHeader::len`: 8 bytes exactly for the packet types whose header
   * carries the sender SSRC, 4 for the others.
   */
  function Len(h: RtcpHeader): (r: nat)
    ensures r == 4 || r == 8
    ensures r == 8 <==> h.packetType in {ReceiverReport, TransportLayerFeedback, PayloadSpecificFeedback, ExtendedReport}
  {
    HeaderLen(h.packetType)
  }

  /** The shape of format field that a packet type carries. */
  predicate FmtMatches(t: RtcpType, f: FeedbackMessageType)
  {
    match t
    case SenderReport => f.ReceptionReport?
    case ReceiverReport => f.ReceptionReport?
    case SourceDescription => f.SourceCount?
    case Goodbye => f.SourceCount?
    case ApplicationDefined => f.Subtype?
    case TransportLayerFeedback => f.TransportFeedback?
    case PayloadSpecificFeedback => f.PayloadFeedback?
    case ExtendedReport => f.NotUsed?
  }

  /**
   * The `match packet_type` in `parse`: interprets the five format bits
   * for a packet type; an unknown feedback kind fails the decode.
   */
  function DecodeFmt(t: RtcpType, n: Byte): (r: Option<FeedbackMessageType>)
    requires n < 32
    ensures r.Some? ==> FmtMatches(t, r.value)
    ensures r.Some? && !t.ExtendedReport? ==> FmtToU8(r.value) == n
    ensures !(t.TransportLayerFeedback? || t.PayloadSpecificFeedback?) ==> r.Some?
  {
    match t
    case SenderReport => Some(ReceptionReport(n))
    case ReceiverReport => Some(ReceptionReport(n))
    case SourceDescription => Some(SourceCount(n))
    case Goodbye => Some(SourceCount(n))
    case ApplicationDefined => Some(Subtype(n))
    case TransportLayerFeedback =>
      (match TransportFromU8(n)
       case Some(k) => Some(TransportFeedback(k))
       case None => None)
    case PayloadSpecificFeedback =>
      (match PayloadFromU8(n)
       case Some(k) => Some(PayloadFeedback(k))
       case None => None)
    case ExtendedReport => Some(NotUsed)
  }

  /** Decoding the five bits a format field writes gives back the field. */
  lemma DecodeFmtRoundTrip(t: RtcpType, f: FeedbackMessageType)
    requires FmtMatches(t, f) && FmtToU8(f) < 32
    ensures DecodeFmt(t, FmtToU8(f)) == Some(f)
  {
    match f
    case TransportFeedback(k) => FeedbackKindRoundTrip(k, PictureLossIndication);
    case PayloadFeedback(k) => FeedbackKindRoundTrip(Nack, k);
    case _ =>
  }

  /** `(b & 0b1100_0000) >> 6`: the version bits. */
  function VersionBits(b: Byte): (r: nat)
    ensures r < 4
  {
    b / 64
  }

  /** `b & 0b0010_0000 > 0`: the padding bit. */
  predicate PaddingBit(b: Byte)
  {
    (b / 32) % 2 == 1
  }

  /** `b & 0b0001_1111`: the count/format bits. */
  function FmtBits(b: Byte): (r: Byte)
    ensures r < 32
  {
    b % 32
  }

  /** `0b1000_0000 | v`: sets the top bit of `v`. */
  function OrHighBit(v: Byte): (r: Byte)
    ensures r >= 128 && r % 128 == v % 128
  {
    if v >= 128 then v else v + 128
  }

  /** The first byte written for a format value below 32 reads back as version 2, no padding, that value. */
  lemma FirstByteRoundTrip(v: Byte)
    requires v < 32
    ensures VersionBits(OrHighBit(v)) == 2 && !PaddingBit(OrHighBit(v)) && FmtBits(OrHighBit(v)) == v
  {
  }

  /**
   * `(u16::from_be_bytes(length_be) + 1) * 4`, in `u16` arithmetic. A
   * release build wraps on overflow, which happens for field values of
   * 16383 and above; a debug build panics there instead.
   */
  function DecodeLength(hi: Byte, lo: Byte): (r: U16)
    ensures r % 4 == 0
    ensures BeToU16(hi, lo) < 16383 ==> r == (BeToU16(hi, lo) + 1) * 4 && 4 <= r <= 65532
  {
    var plusOne: U16 := (BeToU16(hi, lo) + 1) % 0x1_0000;
    WrapTimesFour(plusOne);
    (plusOne * 4) % 0x1_0000
  }

  /** `u16` multiplication by 4 wraps to a multiple of 4, and does not wrap below 16384. */
  lemma WrapTimesFour(p: U16)
    ensures ((p * 4) % 0x1_0000) % 4 == 0
    ensures p < 16384 ==> (p * 4) % 0x1_0000 == p * 4
  {
    var q := (p * 4) / 0x1_0000;
    assert (p * 4) % 0x1_0000 == 4 * (p - q * 16384);
  }

  /** A length field of 16383 wraps to a decoded length of zero. */
  lemma DecodeLengthWraps()
    ensures DecodeLength(0x3F, 0xFF) == 0
    ensures DecodeLength(0xFF, 0xFF) == 0
  {
  }

  /**
   * `RtcpHeader::parse`. Fails on fewer than 8 bytes, a version other
   * than 2, an unknown packet type or feedback kind, and, when
   * `isSrtcp`, on any packet type but SR or RR (section 6.1 of RFC 3550:
   * the first packet of a compound packet must be a report).
   */
  function Parse(buf: seq<Byte>, isSrtcp: bool): (r: Option<RtcpHeader>)
    ensures |buf| < 8 ==> r.None?
    ensures |buf| >= 8 && VersionBits(buf[0]) != 2 ==> r.None?
    ensures |buf| >= 8 && FromU8(buf[1]).None? ==> r.None?
    ensures |buf| >= 8 && FromU8(buf[1]).Some? && DecodeFmt(FromU8(buf[1]).value, FmtBits(buf[0])).None? ==> r.None?
    ensures isSrtcp && r.Some? ==> r.value.packetType in {SenderReport, ReceiverReport}
    ensures r.Some? ==> DecodeFmt(r.value.packetType, FmtBits(buf[0])) == Some(r.value.fmt)
    ensures r.Some? ==>
              && r.value.version == 2
              && r.value.hasPadding == PaddingBit(buf[0])
              && Code(r.value.packetType) == buf[1]
              && FmtMatches(r.value.packetType, r.value.fmt)
              && r.value.length == DecodeLength(buf[2], buf[3]) as nat
              && r.value.length % 4 == 0
              && r.value.ssrc == BeToU32(buf[4..8])
  {
    if |buf| < 8 then None
    else
      var version := VersionBits(buf[0]);
      if version != 2 then None
      else
        var hasPadding := PaddingBit(buf[0]);
        var fmtN := FmtBits(buf[0]);
        match FromU8(buf[1])
        case None => None
        case Some(packetType) =>
          match DecodeFmt(packetType, fmtN)
          case None => None
          case Some(fmt) =>
            if isSrtcp && packetType != SenderReport && packetType != ReceiverReport then None
            else
              var length := DecodeLength(buf[2], buf[3]);
              var ssrc := BeToU32(buf[4..8]);
              Some(RtcpHeader(version, hasPadding, fmt, packetType, length as nat, ssrc))
  }

  /** Parsing succeeds on every well-formed header: the failures above are the only ones. */
  lemma ParseSucceeds(buf: seq<Byte>, isSrtcp: bool)
    requires |buf| >= 8 && VersionBits(buf[0]) == 2 && 200 <= buf[1] <= 207
    requires buf[1] != Code(TransportLayerFeedback) || FmtBits(buf[0]) == TransportCode(Nack)
    requires buf[1] != Code(PayloadSpecificFeedback) || FmtBits(buf[0]) in {PayloadCode(PictureLossIndication), PayloadCode(FullIntraRequest)}
    requires isSrtcp ==> buf[1] in {Code(SenderReport), Code(ReceiverReport)}
    ensures Parse(buf, isSrtcp).Some?
  {
  }

  /**
   * The bytes `RtcpHeader::write_to` puts at the start of the buffer: the
   * first byte with version 2, padding 0 and the format bits, the packet
   * type, `length / 4 - 1` truncated to `u16` big-endian, and the SSRC only
   * when the header length is 8.
   */
  function HeaderBytes(h: RtcpHeader): (r: seq<Byte>)
    requires h.length % 4 == 0 && 4 <= h.length
    ensures |r| == HeaderLen(h.packetType)
  {
    var lengthField: U16 := (h.length / 4 - 1) % 0x1_0000;
    [OrHighBit(FmtToU8(h.fmt)), Code(h.packetType)]
      + U16ToBe(lengthField)
      + (if Len(h) == 8 then U32ToBe(h.ssrc) else [])
  }

  /**
   * `RtcpHeader::write_to` at offset `off` of `buf`. The assertion that the
   * length is a multiple of 4 is a precondition, as is a length of at least
   * 4 (below that `length / 4 - 1` underflows), and the buffer must hold the
   * header.
   */
  method WriteHeader(h: RtcpHeader, buf: array<Byte>, off: nat)
    requires h.length % 4 == 0
    requires 4 <= h.length
    requires off + Len(h) <= buf.Length
    modifies buf
    ensures buf[..] == Overwrite(old(buf[..]), off, HeaderBytes(h))
  {
    ghost var before := buf[..];
    var first, code := OrHighBit(FmtToU8(h.fmt)), Code(h.packetType);
    buf[off] := first;
    assert buf[..] == Overwrite(before, off, [first]) by { OverwriteOne(before, off, first, buf[..]); }
    ghost var s1 := buf[..];
    buf[off + 1] := code;
    assert buf[..] == Overwrite(before, off, [first] + [code]) by {
      OverwriteOne(s1, off + 1, code, buf[..]);
      OverwriteThen(before, off, [first], [code], off + 1, s1, buf[..]);
    }
    var length: U16 := (h.length / 4 - 1) % 0x1_0000;
    ghost var s2 := buf[..];
    WriteBytes(buf, off + 2, U16ToBe(length));
    ghost var fixed := [first] + [code] + U16ToBe(length);
    assert buf[..] == Overwrite(before, off, fixed)
      by { OverwriteThen(before, off, [first] + [code], U16ToBe(length), off + 2, s2, buf[..]); }
    if Len(h) == 8 {
      ghost var s3 := buf[..];
      WriteBytes(buf, off + 4, U32ToBe(h.ssrc));
      assert buf[..] == Overwrite(before, off, fixed + U32ToBe(h.ssrc))
        by { OverwriteThen(before, off, fixed, U32ToBe(h.ssrc), off + 4, s3, buf[..]); }
      assert HeaderBytes(h) == fixed + U32ToBe(h.ssrc);
    } else {
      assert HeaderBytes(h) == fixed + [];
      assert fixed + [] == fixed;
    }
  }

  /**
   * Header round trip: parsing what `write_to` writes recovers version 2,
   * no padding, the format field, the packet type and the length; the SSRC
   * is the header's own when the header length is 8, and otherwise the
   * first four bytes of the body that follows.
   */
  lemma HeaderRoundTrip(h: RtcpHeader, body: seq<Byte>, isSrtcp: bool)
    requires h.length % 4 == 0 && 4 <= h.length <= 65532
    requires FmtMatches(h.packetType, h.fmt) && FmtToU8(h.fmt) < 32
    requires Len(h) == 8 || |body| >= 4
    requires isSrtcp ==> h.packetType in {SenderReport, ReceiverReport}
    ensures Parse(HeaderBytes(h) + body, isSrtcp)
         == Some(RtcpHeader(2, false, h.fmt, h.packetType, h.length,
                            if Len(h) == 8 then h.ssrc else BeToU32(body[..4])))
  {
    var buf := HeaderBytes(h) + body;
    var v := FmtToU8(h.fmt);
    var lengthField: U16 := h.length / 4 - 1;
    HeaderBytesFields(h);
    assert buf[0] == OrHighBit(v) && buf[1] == Code(h.packetType);
    assert buf[2] == U16ToBe(lengthField)[0] && buf[3] == U16ToBe(lengthField)[1];
    FirstByteRoundTrip(v);
    FromU8Code(h.packetType);
    DecodeFmtRoundTrip(h.packetType, h.fmt);
    LengthFieldRoundTrip(h.length);
    if Len(h) == 8 {
      assert buf[4..8] == HeaderBytes(h)[4..8];
      U32RoundTrip(h.ssrc);
    } else {
      assert buf[4..8] == body[..4];
    }
    ParseFields(buf, isSrtcp, h.packetType, h.fmt);
  }

  /** The bytes of a header whose length field does not wrap. */
  lemma HeaderBytesFields(h: RtcpHeader)
    requires h.length % 4 == 0 && 4 <= h.length <= 65532
    ensures HeaderBytes(h)[0] == OrHighBit(FmtToU8(h.fmt)) && HeaderBytes(h)[1] == Code(h.packetType)
    ensures HeaderBytes(h)[2] == U16ToBe(h.length / 4 - 1)[0] && HeaderBytes(h)[3] == U16ToBe(h.length / 4 - 1)[1]
    ensures Len(h) == 8 ==> HeaderBytes(h)[4..8] == U32ToBe(h.ssrc)
  {
    assert (h.length / 4 - 1) % 0x1_0000 == h.length / 4 - 1;
  }

  /** The length field written for a length of at most 65532 decodes back to that length. */
  lemma LengthFieldRoundTrip(length: nat)
    requires length % 4 == 0 && 4 <= length <= 65532
    ensures DecodeLength(U16ToBe(length / 4 - 1)[0], U16ToBe(length / 4 - 1)[1]) as nat == length
  {
    U16RoundTrip(length / 4 - 1);
  }

  /** What `parse` returns once the version, the packet type and the format bits are known to be accepted. */
  lemma ParseFields(buf: seq<Byte>, isSrtcp: bool, packetType: RtcpType, fmt: FeedbackMessageType)
    requires |buf| >= 8 && VersionBits(buf[0]) == 2
    requires FromU8(buf[1]) == Some(packetType) && DecodeFmt(packetType, FmtBits(buf[0])) == Some(fmt)
    requires isSrtcp ==> packetType in {SenderReport, ReceiverReport}
    ensures Parse(buf, isSrtcp)
         == Some(RtcpHeader(2, PaddingBit(buf[0]), fmt, packetType, DecodeLength(buf[2], buf[3]) as nat, BeToU32(buf[4..8])))
  {
  }

  /**
   * The other direction: a header parsed from bytes whose padding bit is
   * clear and whose length field is below 16383 is written back as exactly
   * the bytes it was parsed from (for XR, whose format bits are discarded,
   * when they were zero).
   */
  lemma ParseThenWrite(buf: seq<Byte>, isSrtcp: bool)
    requires Parse(buf, isSrtcp).Some?
    requires !PaddingBit(buf[0]) && BeToU16(buf[2], buf[3]) < 16383
    requires buf[1] == Code(ExtendedReport) ==> FmtBits(buf[0]) == 0
    ensures var h := Parse(buf, isSrtcp).value;
            h.length % 4 == 0 && 4 <= h.length && HeaderBytes(h) == buf[..Len(h)]
  {
    var h := Parse(buf, isSrtcp).value;
    assert FmtToU8(h.fmt) == FmtBits(buf[0]);
    assert buf[0] == OrHighBit(FmtBits(buf[0])) by { FirstByteBack(buf[0]); }
    assert h.length % 4 == 0 && 4 <= h.length && U16ToBe((h.length / 4 - 1) % 0x1_0000) == [buf[2], buf[3]]
      by { LengthFieldBack(buf[2], buf[3]); }
    assert HeaderBytes(h)[..4] == buf[..4];
    if Len(h) == 8 {
      assert U32ToBe(h.ssrc) == buf[4..8] by { BeToU32RoundTrip(buf[4..8]); }
      assert HeaderBytes(h)[4..] == buf[4..8];
      assert HeaderBytes(h) == HeaderBytes(h)[..4] + HeaderBytes(h)[4..];
    }
  }

  /** A first byte with version 2 and no padding is the one written for its format bits. */
  lemma FirstByteBack(b: Byte)
    requires VersionBits(b) == 2 && !PaddingBit(b)
    ensures b == OrHighBit(FmtBits(b))
  {
  }

  /** A length field below 16383 decodes to an aligned length that is written back as the same two bytes. */
  lemma LengthFieldBack(hi: Byte, lo: Byte)
    requires BeToU16(hi, lo) < 16383
    ensures DecodeLength(hi, lo) % 4 == 0 && 4 <= DecodeLength(hi, lo)
    ensures U16ToBe((DecodeLength(hi, lo) as nat / 4 - 1) % 0x1_0000) == [hi, lo]
  {
    var field := BeToU16(hi, lo);
    assert (DecodeLength(hi, lo) as nat / 4 - 1) % 0x1_0000 == field;
  }
}
