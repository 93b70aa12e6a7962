/**
 * The unit tests of `build_feedback`, restated as lemmas about `Build`:
 * a 1200-byte buffer and queues of sender infos and receiver reports.
 * Each lemma states the packets written, what is left of the queue, the
 * number of bytes written, and how the first packet's header reads back.
 */
module CompoundTests {
  import opened Wire
  import opened Seqs
  import Format
  import Header
  import opened Feedback
  import opened Compound
  import opened Properties

  // ---------------------------------------------------------------------
  // General facts the tests rest on.
  // ---------------------------------------------------------------------

  /** A sequence in which every item has key `k` is selected whole for `k`. */
  lemma {:induction false} FullCount(s: seq<RtcpFb>, k: nat)
    requires Count(s, k) == |s|
    ensures forall i :: 0 <= i < |s| ==> OrdNo(s[i]) == k
  {
    if s != [] {
      assert |Filter(s[1..], k)| <= |s| - 1;
      assert OrdNo(s[0]) == k;
      FullCount(s[1..], k);
      assert forall i :: 1 <= i < |s| ==> s[i] == s[1..][i - 1];
    }
  }

  /** Pulling `n` receiver reports out of a queue of receiver reports takes its first `n`. */
  lemma AllReceiverPull(s: seq<RtcpFb>, n: nat)
    requires forall i :: 0 <= i < |s| ==> s[i].ReceiverReport?
    requires n <= |s|
    ensures n <= Count(s, 1)
    ensures PullReports(s, n) == Pulled(s[..n], s[n..])
  {
    FilterUniform(s, 1, 1);
    PullReportsTaken(s, n);
    var rest := PullReports(s, n).rest;
    FullCount(rest, 1);
    FilterUniform(rest, 1, 1);
    PullReportsSelects(s, n, 1);
  }

  /**
   * One SR/RR packet from a queue whose tail holds only receiver reports:
   * the head and the first `n` of the tail, `n` being the least of the
   * reports there, 31 and what fits.
   */
  lemma ReportStepOnReports(q: seq<RtcpFb>, room: nat, n: nat)
    requires q != [] && IsReport(q[0]) && NeededLen(q[0]) <= room
    requires forall i :: 1 <= i < |q| ==> q[i].ReceiverReport?
    requires n == Min(Min(|q| - 1, MaxCount), (room - NeededLen(q[0])) / RrLen)
    ensures ReportStep(q, room) == Step(Group(q[0], q[1..][..n]), q[1..][n..], room - NeededLen(q[0]) - n * RrLen)
  {
    var rest := q[1..];
    assert Count(rest, 1) == |rest| by {
      assert forall i :: 0 <= i < |rest| ==> rest[i] == q[i + 1];
      FilterUniform(rest, 1, 1);
    }
    assert n <= |rest|;
    assert PullReports(rest, n) == Pulled(rest[..n], rest[n..]) by {
      assert forall i :: 0 <= i < |rest| ==> rest[i].ReceiverReport?;
      AllReceiverPull(rest, n);
    }
    assert Min(Min(Count(rest, 1), MaxCount), (room - NeededLen(q[0])) / RrLen) == n;
    var g := Group(q[0], rest[..n]);
    assert ReportStep(q, room).group == g && ReportStep(q, room).rest == rest[n..];
  }

  /** A sender info followed by receiver reports is sorted. */
  lemma SenderLeadsSorted(rrs: seq<RtcpFb>, sr: RtcpFb)
    requires sr.SenderInfo? && forall i :: 0 <= i < |rrs| ==> rrs[i].ReceiverReport?
    ensures Sorted([sr] + rrs)
  {
    var t := [sr] + rrs;
    forall i, j | 0 <= i < j < |t| ensures OrdNo(t[i]) <= OrdNo(t[j]) {
      assert t[j] == rrs[j - 1];
    }
  }

  /** Moving the sender info from the back to the front changes no selection by key. */
  lemma SenderMovedSelects(rrs: seq<RtcpFb>, sr: RtcpFb, k: nat)
    requires sr.SenderInfo? && forall i :: 0 <= i < |rrs| ==> rrs[i].ReceiverReport?
    ensures Filter(rrs + [sr], k) == Filter([sr] + rrs, k)
  {
    FilterConcat(rrs, [sr], k);
    FilterConcat([sr], rrs, k);
    FilterUniform(rrs, 1, k);
    FilterUniform([sr], 0, k);
  }

  /** A sender info behind receiver reports is sorted to the front; the reports keep their order. */
  lemma SenderSortedFirst(rrs: seq<RtcpFb>, sr: RtcpFb)
    requires sr.SenderInfo? && forall i :: 0 <= i < |rrs| ==> rrs[i].ReceiverReport?
    ensures SortByKey(rrs + [sr]) == [sr] + rrs
  {
    var q := rrs + [sr];
    SortByKeyIsStableSort(q);
    forall k ensures Filter(SortByKey(q), k) == Filter([sr] + rrs, k) {
      SenderMovedSelects(rrs, sr, k);
    }
    SenderLeadsSorted(rrs, sr);
    SortedUnique(SortByKey(q), [sr] + rrs);
  }

  /** The first pass runs over the queue sorted. */
  lemma ReportsOfSorted(feedback: seq<RtcpFb>, q: seq<RtcpFb>, capacity: nat)
    requires SortByKey(feedback) == q
    ensures Reports(feedback, capacity) == ReportPass(q, capacity)
  {
  }

  /** Nothing is left for the second pass after the first pass empties the queue. */
  lemma NoGoodbyes(feedback: seq<RtcpFb>, capacity: nat)
    requires Reports(feedback, capacity).left == []
    ensures Goodbyes(feedback, capacity) == Outcome([], [])
  {
  }

  // ---------------------------------------------------------------------
  // The tests.
  // ---------------------------------------------------------------------

  /** `test_sr`: one sender info makes one 28-byte SR packet, read back as an SR of its SSRC. */
  lemma SenderAlone(sr: RtcpFb)
    requires sr.SenderInfo?
    ensures Build([sr], 1200) == Outcome([Group(sr, [])], [])
    ensures |BuildBytes([sr], 1200)| == 28
    ensures Header.Parse(BuildBytes([sr], 1200), false)
         == Some(Header.RtcpHeader(2, false, Format.ReceptionReport(0), Header.SenderReport, 28, Ssrc(sr)))
  {
    var g := Group(sr, []);
    assert SortByKey([sr]) == [sr];
    ReportStepOnReports([sr], 1200, 0);
    ReportPassStep([sr], 1200);
    assert Reports([sr], 1200) == Outcome([g], []);
    NoGoodbyes([sr], 1200);
    assert Build([sr], 1200).groups == [g];
    FlattenSingle(g);
    assert BuildBytes([sr], 1200) == GroupBytes(g) + [];
    GroupParses(g, [], false);
  }

  /** `test_rr`: one receiver report makes one 32-byte RR packet with a count of 1. */
  lemma ReceiverAlone(rr: RtcpFb)
    requires rr.ReceiverReport?
    ensures Build([rr], 1200) == Outcome([Group(rr, [])], [])
    ensures |BuildBytes([rr], 1200)| == 32
    ensures Header.Parse(BuildBytes([rr], 1200), false)
         == Some(Header.RtcpHeader(2, false, Format.ReceptionReport(1), Header.ReceiverReport, 32, 0))
  {
    var g := Group(rr, []);
    assert SortByKey([rr]) == [rr];
    ReportStepOnReports([rr], 1200, 0);
    ReportPassStep([rr], 1200);
    assert Reports([rr], 1200) == Outcome([g], []);
    NoGoodbyes([rr], 1200);
    assert Build([rr], 1200).groups == [g];
    FlattenSingle(g);
    assert BuildBytes([rr], 1200) == GroupBytes(g) + [];
    GroupParses(g, [], false);
  }

  /**
   * `test_sr_rr`: a receiver report queued before a sender info is written
   * after it, in one 52-byte SR packet with one report block.
   */
  lemma ReceiverThenSender(rr: RtcpFb, sr: RtcpFb)
    requires rr.ReceiverReport? && sr.SenderInfo?
    ensures Build([rr, sr], 1200) == Outcome([Group(sr, [rr])], [])
    ensures |BuildBytes([rr, sr], 1200)| == 52
    ensures Header.Parse(BuildBytes([rr, sr], 1200), false)
         == Some(Header.RtcpHeader(2, false, Format.ReceptionReport(1), Header.SenderReport, 52, Ssrc(sr)))
  {
    var q := [sr, rr];
    var g := Group(sr, [rr]);
    assert [rr] + [sr] == [rr, sr] && [sr] + [rr] == q;
    SenderSortedFirst([rr], sr);
    assert Min(Min(1, MaxCount), (1200 - 28) / RrLen) == 1;
    ReportStepOnReports(q, 1200, 1);
    assert q[1..][..1] == [rr] && q[1..][1..] == [];
    ReportPassStep(q, 1200);
    assert Reports([rr, sr], 1200) == Outcome([g], []);
    NoGoodbyes([rr, sr], 1200);
    assert Build([rr, sr], 1200).groups == [g];
    FlattenSingle(g);
    assert BuildBytes([rr, sr], 1200) == GroupBytes(g) + [];
    GroupParses(g, [], false);
  }

  /**
   * `test_sr_rr_more_than_31`: 33 receiver reports queued before a sender
   * info make an SR packet carrying the first 31 reports (772 bytes) and an
   * RR packet carrying the last two (56 bytes), 828 bytes in all. A reader
   * finds the SR header, with 31 report blocks and the sender's SSRC, at
   * the start, and the RR header, with 2 report blocks, 772 bytes on.
   */
  lemma MoreThan31(rrs: seq<RtcpFb>, sr: RtcpFb)
    requires |rrs| == 33 && forall i :: 0 <= i < |rrs| ==> rrs[i].ReceiverReport?
    requires sr.SenderInfo?
    ensures Build(rrs + [sr], 1200) == Outcome([Group(sr, rrs[..31]), Group(rrs[31], [rrs[32]])], [])
    ensures |BuildBytes(rrs + [sr], 1200)| == 828
    ensures Header.Parse(BuildBytes(rrs + [sr], 1200), false)
         == Some(Header.RtcpHeader(2, false, Format.ReceptionReport(31), Header.SenderReport, 772, Ssrc(sr)))
    ensures Header.Parse(BuildBytes(rrs + [sr], 1200)[772..], false)
         == Some(Header.RtcpHeader(2, false, Format.ReceptionReport(2), Header.ReceiverReport, 56, 0))
  {
    var g1 := Group(sr, rrs[..31]);
    var g2 := Group(rrs[31], [rrs[32]]);
    SortedThenReports(rrs, sr);
    Pair(g1, g2);
    NoGoodbyes(rrs + [sr], 1200);
    assert Build(rrs + [sr], 1200).groups == [g1, g2] + [];
    TwoPackets(g1, g2);
    assert BuildBytes(rrs + [sr], 1200) == GroupBytes(g1) + GroupBytes(g2) by {
      EmptyBack([g1, g2]);
      TwoPacketsBytes(g1, g2);
    }
    TwoPacketsParse(g1, g2);
  }

  /** The bytes of two packets are the first packet's bytes followed by the second's. */
  lemma TwoPacketsBytes(g1: Group, g2: Group)
    requires WellFormed(g1) && WellFormed(g2)
    ensures AllWellFormed([g1, g2]) && Flatten([g1, g2]) == GroupBytes(g1) + GroupBytes(g2)
  {
    assert [g1, g2] == [g1] + [g2];
    assert Flatten([g1]) == GroupBytes(g1) by { FlattenSingle(g1); EmptyBack(GroupBytes(g1)); }
    assert Flatten([g2]) == GroupBytes(g2) by { FlattenSingle(g2); EmptyBack(GroupBytes(g2)); }
    assert AllWellFormed([g1] + [g2]) && Flatten([g1] + [g2]) == Flatten([g1]) + Flatten([g2]) by {
      FlattenSingle(g1);
      FlattenSingle(g2);
      FlattenConcat([g1], [g2]);
    }
  }

  /** The headers of the two packets of `test_sr_rr_more_than_31`, read back where each packet starts. */
  lemma TwoPacketsParse(g1: Group, g2: Group)
    requires ReportGroup(g1) && g1.first.SenderInfo? && |g1.extra| == 31
    requires ReportGroup(g2) && g2.first.ReceiverReport? && |g2.extra| == 1
    ensures Header.Parse(GroupBytes(g1) + GroupBytes(g2), false)
         == Some(Header.RtcpHeader(2, false, Format.ReceptionReport(31), Header.SenderReport, 772, Ssrc(g1.first)))
    ensures Header.Parse((GroupBytes(g1) + GroupBytes(g2))[772..], false)
         == Some(Header.RtcpHeader(2, false, Format.ReceptionReport(2), Header.ReceiverReport, 56, 0))
  {
    GroupParses(g1, GroupBytes(g2), false);
    Halves(GroupBytes(g1), GroupBytes(g2));
    assert GroupBytes(g2) == GroupBytes(g2) + [] by { EmptyBack(GroupBytes(g2)); }
    GroupParses(g2, [], false);
  }

  /** The first pass of `test_sr_rr_more_than_31`, on the queue as given. */
  lemma SortedThenReports(rrs: seq<RtcpFb>, sr: RtcpFb)
    requires |rrs| == 33 && forall i :: 0 <= i < |rrs| ==> rrs[i].ReceiverReport?
    requires sr.SenderInfo?
    ensures Reports(rrs + [sr], 1200).groups == [Group(sr, rrs[..31])] + [Group(rrs[31], [rrs[32]])]
    ensures Reports(rrs + [sr], 1200).left == []
  {
    SenderSortedFirst(rrs, sr);
    ReportsOfSorted(rrs + [sr], [sr] + rrs, 1200);
    ReportsOf34(rrs, sr);
  }

  /** Two packets of 772 and 56 bytes take 828 bytes. */
  lemma TwoPackets(g1: Group, g2: Group)
    requires g1.first.SenderInfo? && |g1.extra| == 31
    requires g2.first.ReceiverReport? && |g2.extra| == 1
    ensures TotalLength([g1, g2] + []) == 828
  {
    assert [g1, g2] + [] == [g1] + [g2] && [g2] == [g2] + [];
    TotalLengthCons(g1, [g2]);
    TotalLengthCons(g2, []);
  }

  /** The first pass of `test_sr_rr_more_than_31`, over the sorted queue, writes both packets and empties it. */
  lemma ReportsOf34(rrs: seq<RtcpFb>, sr: RtcpFb)
    requires |rrs| == 33 && forall i :: 0 <= i < |rrs| ==> rrs[i].ReceiverReport?
    requires sr.SenderInfo?
    ensures ReportPass([sr] + rrs, 1200).groups == [Group(sr, rrs[..31])] + [Group(rrs[31], [rrs[32]])]
    ensures ReportPass([sr] + rrs, 1200).left == []
  {
    FirstOf34(rrs, sr);
    ReportPassStep([sr] + rrs, 1200);
    LastTwo(rrs);
  }

  /** The SR packet of `test_sr_rr_more_than_31`: the sender info and the first 31 reports, 772 bytes. */
  lemma FirstOf34(rrs: seq<RtcpFb>, sr: RtcpFb)
    requires |rrs| == 33 && forall i :: 0 <= i < |rrs| ==> rrs[i].ReceiverReport?
    requires sr.SenderInfo?
    ensures ReportStep([sr] + rrs, 1200) == Step(Group(sr, rrs[..31]), rrs[31..], 428)
  {
    var q := [sr] + rrs;
    assert q[1..] == rrs;
    assert Min(Min(33, MaxCount), (1200 - 28) / RrLen) == 31;
    ReportStepOnReports(q, 1200, 31);
  }

  /** The RR packet of `test_sr_rr_more_than_31`: the last two reports in the 428 bytes left, 56 bytes. */
  lemma LastTwo(rrs: seq<RtcpFb>)
    requires |rrs| == 33 && forall i :: 0 <= i < |rrs| ==> rrs[i].ReceiverReport?
    ensures ReportPass(rrs[31..], 428) == Outcome([Group(rrs[31], [rrs[32]])], [])
  {
    var rest := rrs[31..];
    assert Min(Min(1, MaxCount), (428 - 32) / RrLen) == 1;
    ReportStepOnReports(rest, 428, 1);
    assert rest[1..][..1] == [rrs[32]] && rest[1..][1..] == [];
    ReportPassStep(rest, 428);
  }
}
