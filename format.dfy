/**
 * The five-bit format field of an RTCP header, whose meaning depends on the
 * packet type: a reception-report count (SR, RR), a source count (SDES,
 * BYE), an application subtype (APP), or a feedback message type (RTPFB,
 * PSFB; section 6.1 of RFC 4585).
 *
 * rtp/src/rtcp/fmt.rs is not part of this model. It is stood in for by the
 * codes of section 6.2.1 of RFC 4585 (generic NACK = 1), section 6.3.1 of
 * RFC 4585 (PLI = 1) and section 4.3.1 of RFC 5104 (FIR = 4), and by an
 * `as_u8` that returns a carried count unchanged, without masking it to
 * five bits.
 */
module Format {
  import opened Wire

  /** Transport-layer feedback kinds recognised: the generic NACK only. */
  datatype TransportType = Nack

  /** Payload-specific feedback kinds recognised. */
  datatype PayloadType = PictureLossIndication | FullIntraRequest

  /** `FeedbackMessageType`: the decoded format field. */
  datatype FeedbackMessageType =
    | ReceptionReport(count: Byte)
    | SourceCount(count: Byte)
    | Subtype(subtype: Byte)
    | TransportFeedback(transport: TransportType)
    | PayloadFeedback(payload: PayloadType)
    | NotUsed

  /** `TransportType as u8`. */
  function TransportCode(t: TransportType): (r: Byte)
    ensures r < 32
  {
    match t
    case Nack => 1
  }

  /** `TransportType::from_u8`: the partial inverse of `TransportCode`. */
  function TransportFromU8(v: Byte): (r: Option<TransportType>)
    ensures r.Some? <==> v == TransportCode(Nack)
    ensures r.Some? ==> TransportCode(r.value) == v
  {
    if v == 1 then Some(Nack) else None
  }

  /** `PayloadType as u8`. */
  function PayloadCode(p: PayloadType): (r: Byte)
    ensures r < 32
  {
    match p
    case PictureLossIndication => 1
    case FullIntraRequest => 4
  }

  /** `PayloadType::from_u8`: the partial inverse of `PayloadCode`. */
  function PayloadFromU8(v: Byte): (r: Option<PayloadType>)
    ensures r.Some? <==> v == PayloadCode(PictureLossIndication) || v == PayloadCode(FullIntraRequest)
    ensures r.Some? ==> PayloadCode(r.value) == v
  {
    if v == 1 then Some(PictureLossIndication)
    else if v == 4 then Some(FullIntraRequest)
    else None
  }

  /**
   * `FeedbackMessageType::as_u8`: the value that goes into the low five
   * bits of the first header byte. Only the feedback kinds are known to fit
   * in five bits; a carried count is returned as it is.
   */
  function FmtToU8(f: FeedbackMessageType): (r: Byte)
    ensures (f.ReceptionReport? || f.SourceCount?) ==> r == f.count
    ensures f.Subtype? ==> r == f.subtype
    ensures (f.TransportFeedback? || f.PayloadFeedback? || f.NotUsed?) ==> r < 32
  {
    match f
    case ReceptionReport(n) => n
    case SourceCount(n) => n
    case Subtype(n) => n
    case TransportFeedback(t) => TransportCode(t)
    case PayloadFeedback(p) => PayloadCode(p)
    case NotUsed => 0
  }

  /** Decoding a feedback kind from its code gives back the kind. */
  lemma FeedbackKindRoundTrip(t: TransportType, p: PayloadType)
    ensures TransportFromU8(TransportCode(t)) == Some(t)
    ensures PayloadFromU8(PayloadCode(p)) == Some(p)
  {
  }
}
