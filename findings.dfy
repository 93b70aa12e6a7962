/**
 * Two places where the count field `build_feedback` writes disagrees with
 * what the packet carries, each modelled as written and as evidently
 * intended.
 *
 * 1. An RR packet carries its leading receiver report and up to 31 more,
 *    and counts them all (`count = max_rr + xrr`). With 31 more the count
 *    is 32, which does not fit in five bits: `0b10_0_00000 | 32` sets the
 *    padding bit and leaves a count of 0 (section 6.4.2 of RFC 3550 allows
 *    at most 31 report blocks per packet). Intended: cap the added reports
 *    at 30 when a receiver report leads.
 *
 * 2. A BYE packet carries its leading goodbye and `max_gb` more, but its
 *    count field is `max_gb`, one short of the number of SSRCs it carries
 *    (section 6.6 of RFC 3550: SC is the number of SSRC identifiers in the
 *    packet). Intended: count the leading goodbye too, and cap the added
 *    goodbyes at 30 so the count fits in five bits.
 */
module Findings {
  import opened Wire
  import Format
  import Header
  import opened Feedback
  import opened Compound
  import opened Properties

  // ---------------------------------------------------------------------
  // As written.
  // ---------------------------------------------------------------------

  /** A queue whose items all have one key is already sorted by the stable sort. */
  lemma {:induction false} SameKeySorted(s: seq<RtcpFb>, k: nat)
    requires forall i :: 0 <= i < |s| ==> OrdNo(s[i]) == k
    ensures SortByKey(s) == s
  {
    if s != [] {
      SameKeySorted(s[1..], k);
      assert s == [s[0]] + s[1..];
    }
  }

  /**
   * As written, a count field reaches 32 only in an RR packet with 31
   * added receiver reports; every other packet's count fits in five bits.
   * The count of a BYE packet is one less than the SSRCs it carries, and
   * the count of an SR/RR packet is the number of report blocks.
   */
  lemma WrittenCount(g: Group)
    requires WellFormed(g)
    ensures CountField(g) <= MaxCount + 1
    ensures CountField(g) == MaxCount + 1 <==> g.first.ReceiverReport? && |g.extra| == MaxCount
    ensures g.first.Goodbye? ==> CountField(g) + 1 == SsrcsCarried(g)
    ensures IsReport(g.first) ==> CountField(g) == SsrcsCarried(g) - (if g.first.SenderInfo? then 1 else 0)
  {
  }

  /**
   * The SSRCs a packet carries, read off its length: report blocks and a
   * sender info of 24 bytes behind a 4- or 8-byte header, or 4-byte SSRCs
   * behind a 4-byte header.
   */
  function SsrcsCarried(g: Group): (n: nat)
    requires WellFormed(g)
    ensures n == 1 + |g.extra|
  {
    if g.first.SenderInfo? then (GroupLength(g) - 4) / 24
    else if g.first.ReceiverReport? then (GroupLength(g) - 8) / 24
    else (GroupLength(g) - 4) / 4
  }

  /**
   * Finding 1, as written: 32 receiver reports in a 776-byte buffer make
   * one RR packet whose count is 32; read back, its padding bit is set and
   * its count is 0.
   */
  lemma RrCountSpills(feedback: seq<RtcpFb>)
    requires |feedback| == 32 && forall i :: 0 <= i < |feedback| ==> feedback[i].ReceiverReport?
    ensures |Build(feedback, 776).groups| == 1
    ensures CountField(Build(feedback, 776).groups[0]) == 32
    ensures Header.Parse(BuildBytes(feedback, 776), false).Some?
    ensures Header.Parse(BuildBytes(feedback, 776), false).value.hasPadding
    ensures Header.Parse(BuildBytes(feedback, 776), false).value.fmt == Format.ReceptionReport(0)
  {
    ThirtyTwoReports(feedback);
    var g := ReportStep(feedback, 776).group;
    FlattenSingle(g);
    assert BuildBytes(feedback, 776) == Flatten([g]);
    SpilledHeader(g, []);
  }

  /** 32 receiver reports in 776 bytes are one RR packet: the first and 31 added. */
  lemma ThirtyTwoReports(feedback: seq<RtcpFb>)
    requires |feedback| == 32 && forall i :: 0 <= i < |feedback| ==> feedback[i].ReceiverReport?
    ensures Build(feedback, 776).groups == [ReportStep(feedback, 776).group]
    ensures ReportStep(feedback, 776).group.first.ReceiverReport? && |ReportStep(feedback, 776).group.extra| == 31
  {
    SameKeySorted(feedback, 1);
    var rest := feedback[1..];
    FilterUniform(rest, 1, 1);
    assert Count(rest, 1) == 31;
    assert Min(Min(Count(rest, 1), MaxCount), (776 - NeededLen(feedback[0])) / RrLen) == 31;
    assert ReportStep(feedback, 776).rest == PullReports(rest, 31).rest;
    assert |PullReports(rest, 31).rest| == 0;
    ReportPassStep(feedback, 776);
    assert Reports(feedback, 776).groups == [ReportStep(feedback, 776).group];
    assert Goodbyes(feedback, 776) == Outcome([], []);
  }

  /**
   * Finding 2, as written: two goodbyes in a 12-byte buffer make one BYE
   * packet carrying both SSRCs under a count of 1.
   */
  lemma ByeCountShort(feedback: seq<RtcpFb>)
    requires |feedback| == 2 && feedback[0].Goodbye? && feedback[1].Goodbye?
    ensures |Build(feedback, 12).groups| == 1
    ensures SsrcsCarried(Build(feedback, 12).groups[0]) == 2
    ensures Header.Parse(BuildBytes(feedback, 12), false)
         == Some(Header.RtcpHeader(2, false, Format.SourceCount(1), Header.Goodbye, 12, Ssrc(feedback[0])))
  {
    SameKeySorted(feedback, 2);
    assert Reports(feedback, 12) == Outcome([], feedback);
    FilterUniform(feedback[1..], 2, 2);
    GoodbyePassStep(feedback, 12);
    var g := GoodbyeStep(feedback, 12).group;
    assert |g.extra| == 1 && g.extra[0].Goodbye?;
    assert GoodbyeStep(feedback, 12).rest == [];
    assert Build(feedback, 12).groups == [g];
    FlattenSingle(g);
    assert BuildBytes(feedback, 12) == Flatten([g]);
    GroupParses(g, [], false);
  }

  // ---------------------------------------------------------------------
  // As intended.
  // ---------------------------------------------------------------------

  /** The count the header should carry: the report blocks of an SR/RR packet, the SSRCs of a BYE packet. */
  function IntendedCount(g: Group): (n: nat)
    requires WellFormed(g)
    ensures n == SsrcsCarried(g) - (if g.first.SenderInfo? then 1 else 0)
  {
    |g.extra| + (if g.first.SenderInfo? then 0 else 1)
  }

  /** The most items that may follow the leading one so that the intended count fits in five bits. */
  function IntendedCap(fb: RtcpFb): nat
  {
    if fb.SenderInfo? then MaxCount else MaxCount - 1
  }

  /** One SR/RR packet as intended: the added receiver reports capped so the count fits. */
  function IntendedReportStep(q: seq<RtcpFb>, room: nat): (r: Step)
    requires q != [] && IsReport(q[0]) && NeededLen(q[0]) <= room
    ensures ReportGroup(r.group) && r.group.first == q[0]
    ensures IntendedCount(r.group) <= MaxCount
    ensures r.room + GroupLength(r.group) == room
    ensures |r.rest| < |q|
  {
    var fb := q[0];
    var rest := q[1..];
    var needed := NeededLen(fb);
    var maxRr := Min(Min(Count(rest, 1), IntendedCap(fb)), (room - needed) / RrLen);
    FitsIn(maxRr, room - needed, RrLen);
    var y := PullReports(rest, maxRr);
    assert GroupLength(Group(fb, y.taken)) == needed + maxRr * RrLen;
    Step(Group(fb, y.taken), y.rest, room - GroupLength(Group(fb, y.taken)))
  }

  /** One BYE packet as intended, on a sorted queue: the added goodbyes capped so the count fits. */
  function IntendedByeStep(q: seq<RtcpFb>, room: nat): (r: Step)
    requires Sorted(q) && q != [] && q[0].Goodbye? && ByeNeeded <= room
    ensures GoodbyeGroup(r.group) && r.group.first == q[0]
    ensures IntendedCount(r.group) <= MaxCount
    ensures r.room + GroupLength(r.group) == room
    ensures |r.rest| < |q|
  {
    var rest := q[1..];
    var maxGb := Min(Min(Count(rest, 2), IntendedCap(q[0])), (room - ByeNeeded) / 4);
    FitsIn(maxGb, room - ByeNeeded, 4);
    ByeRun(q);
    Step(Group(q[0], rest[..maxGb]), rest[maxGb..], room - ByeNeeded - maxGb * 4)
  }

  /**
   * Finding 1 and 2, as intended: a packet whose header carries the
   * intended count reads back without the padding bit and with the number
   * of report blocks or SSRCs it carries.
   */
  lemma IntendedParses(g: Group, tail: seq<Byte>, isSrtcp: bool)
    requires WellFormed(g) && IntendedCount(g) <= MaxCount
    requires isSrtcp ==> IsReport(g.first)
    ensures Header.Parse(PacketBytes(g, IntendedCount(g)) + tail, isSrtcp).Some?
    ensures !Header.Parse(PacketBytes(g, IntendedCount(g)) + tail, isSrtcp).value.hasPadding
    ensures Header.Parse(PacketBytes(g, IntendedCount(g)) + tail, isSrtcp).value.fmt.count
         == SsrcsCarried(g) - (if g.first.SenderInfo? then 1 else 0)
  {
    PacketParses(g, IntendedCount(g), tail, isSrtcp);
  }
}
