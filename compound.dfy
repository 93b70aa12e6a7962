/**
 * `RtcpFb::build_feedback`: packs a queue of pending feedback items into a
 * caller-supplied buffer as a compound RTCP packet.
 *
 * The queue is first stably sorted by `ord_no`. Then, while the head is a
 * sender info or a receiver report, one SR or RR packet is written: a
 * header, the head item, and as many further receiver reports as remain in
 * the queue, fit in the buffer, and stay within 31. Then, while the head is
 * a goodbye, one BYE packet is written the same way from the leading
 * goodbyes. The builder stops as soon as the head does not fit, and leaves
 * everything it did not write in the queue.
 *
 * The spec of the builder is `Build`, a function of the queue and the
 * buffer length giving the packets written (`Group`s) and the queue left;
 * `BuildFeedback` is the imperative algorithm, proved to write exactly
 * `Build`'s bytes.
 */
module Compound {
  import opened Wire
  import opened Seqs
  import Format
  import Header
  import opened Feedback

  /** `NEEDED` in the goodbye loop: a 4-byte header and one SSRC. */
  const ByeNeeded: nat := 4 + 4

  /** The largest value of a five-bit count field, the cap the source applies to added items. */
  const MaxCount: nat := 31

  /** `usize::min`. */
  function Min(a: nat, b: nat): (m: nat)
    ensures m <= a && m <= b && (m == a || m == b)
  {
    if a <= b then a else b
  }

  /** `n` slots of 24 or 4 bytes take a multiple of 4 bytes. */
  lemma SlotsAligned(n: nat, w: nat)
    requires w == RrLen || w == 4
    ensures (n * w) % 4 == 0
  {
    assert n * w == 4 * (n * (w / 4));
  }

  /** A packet of `m` slots of `w` bytes behind a head of `needed` bytes, with `m` chosen to fit in `room`. */
  lemma PacketArith(needed: nat, room: nat, m: nat, w: nat, length: nat)
    requires w == RrLen || w == 4
    requires needed % 4 == 0 && needed <= room && m <= (room - needed) / w
    requires length == needed + m * w
    ensures needed <= length <= room && length % 4 == 0
  {
    FitsIn(m, room - needed, w);
    SlotsAligned(m, w);
    AlignedSum(needed, m * w, room, length);
  }

  /** A head and a run of slots, both whole words, that fit in `room`. */
  lemma AlignedSum(needed: nat, p: int, room: nat, length: nat)
    requires needed % 4 == 0 && p % 4 == 0 && 0 <= p <= room - needed
    requires length == needed + p
    ensures needed <= length <= room && length % 4 == 0
  {
  }

  /** `m` items of width `w` fit in `avail` bytes when `m` is at most `avail / w`. */
  lemma FitsIn(m: nat, avail: nat, w: nat)
    requires 0 < w && m <= avail / w
    ensures 0 <= m * w <= avail
  {
    assert m * w <= (avail / w) * w;
  }

  /** The next slot of a packet still lies within its first `m` slots. */
  lemma NextSlot(i: nat, m: nat, w: nat)
    requires i < m
    ensures (i + 1) * w == i * w + w <= m * w
  {
  }

  /**
   * The room needed for the header and the leading item of a packet:
   * `RtcpType::SenderReport.header_len() + SR_LEN` (28),
   * `RtcpType::ReceiverReport.header_len() + RR_LEN` (32) or `NEEDED` (8).
   * Only sender infos, receiver reports and goodbyes lead packets.
   */
  function NeededLen(fb: RtcpFb): (n: nat)
    ensures n == (if fb.SenderInfo? then 28 else if fb.ReceiverReport? then 32 else 8)
  {
    match fb
    case SenderInfo(_) => Header.HeaderLen(Header.SenderReport) + SrLen
    case ReceiverReport(_) => Header.HeaderLen(Header.ReceiverReport) + RrLen
    case _ => ByeNeeded
  }

  /** The room each further item of a packet takes: `RR_LEN` after a report, 4 after a goodbye. */
  function SlotLen(fb: RtcpFb): nat
  {
    if IsReport(fb) then RrLen else 4
  }

  /** One packet of the compound packet: the leading item and the items added after it. */
  datatype Group = Group(first: RtcpFb, extra: seq<RtcpFb>)

  /** An SR or RR packet: led by a report, and only receiver reports added, at most 31. */
  ghost predicate ReportGroup(g: Group)
  {
    && IsReport(g.first)
    && |g.extra| <= MaxCount
    && forall i :: 0 <= i < |g.extra| ==> g.extra[i].ReceiverReport?
  }

  /** A BYE packet: led by a goodbye, and only goodbyes added, at most 31. */
  ghost predicate GoodbyeGroup(g: Group)
  {
    && g.first.Goodbye?
    && |g.extra| <= MaxCount
    && forall i :: 0 <= i < |g.extra| ==> g.extra[i].Goodbye?
  }

  ghost predicate WellFormed(g: Group)
  {
    ReportGroup(g) || GoodbyeGroup(g)
  }

  ghost predicate AllWellFormed(gs: seq<Group>)
  {
    forall i :: 0 <= i < |gs| ==> WellFormed(gs[i])
  }

  /**
   * The count the source puts in a packet's header: the number of added
   * receiver reports plus one when a receiver report leads (a sender info
   * is not a report block), and for a BYE `max_gb`, the number of added
   * goodbyes, which leaves the leading one out.
   */
  function CountField(g: Group): nat
  {
    |g.extra| + (if g.first.ReceiverReport? then 1 else 0)
  }

  /** The packet's length in bytes, `needed_len + max_rr * RR_LEN` or `NEEDED + max_gb * 4`. */
  function GroupLength(g: Group): nat
  {
    NeededLen(g.first) + |g.extra| * SlotLen(g.first)
  }

  /** `fb.as_header(count as u8, length)` for the packet. */
  function GroupHeader(g: Group): (h: Header.RtcpHeader)
    ensures h.length == GroupLength(g)
  {
    AsHeader(g.first, CountField(g) % 0x100, GroupLength(g))
  }

  /** The encodings of a run of items, one after the other. */
  function EncodeAll(s: seq<RtcpFb>): (r: seq<Byte>)
    requires forall i :: 0 <= i < |s| ==> Encodable(s[i])
  {
    if s == [] then [] else Encode(s[0]) + EncodeAll(s[1..])
  }

  /** Encoding a run that ends in `x` ends in `x`'s encoding. */
  lemma {:induction false} EncodeAllAppend(s: seq<RtcpFb>, x: RtcpFb)
    requires forall i :: 0 <= i < |s| ==> Encodable(s[i])
    requires Encodable(x)
    ensures EncodeAll(s + [x]) == EncodeAll(s) + Encode(x)
  {
    if s != [] {
      assert (s + [x])[1..] == s[1..] + [x];
      EncodeAllAppend(s[1..], x);
    }
  }

  /** Writing one more item right after a run already in place extends the run. */
  lemma EncodedStep(before: seq<Byte>, off: nat, items: seq<RtcpFb>, x: RtcpFb, at: nat, current: seq<Byte>, after: seq<Byte>)
    requires (forall i :: 0 <= i < |items| ==> Encodable(items[i])) && Encodable(x)
    requires at == off + |EncodeAll(items)| && at + |Encode(x)| <= |before|
    requires current == Overwrite(before, off, EncodeAll(items))
    requires after == Overwrite(current, at, Encode(x))
    ensures forall i :: 0 <= i < |items + [x]| ==> Encodable((items + [x])[i])
    ensures |EncodeAll(items + [x])| == |EncodeAll(items)| + |Encode(x)|
    ensures after == Overwrite(before, off, EncodeAll(items + [x]))
  {
    assert (forall i :: 0 <= i < |items + [x]| ==> Encodable((items + [x])[i]))
           && EncodeAll(items + [x]) == EncodeAll(items) + Encode(x)
      by { EncodeAllAppend(items, x); }
    assert after == Overwrite(before, off, EncodeAll(items) + Encode(x))
      by { OverwriteThen(before, off, EncodeAll(items), Encode(x), at, current, after); }
  }

  /** A run of `n` items whose encodings all have length `w` encodes to `n * w` bytes. */
  lemma {:induction false} EncodeAllLength(s: seq<RtcpFb>, w: nat)
    requires forall i :: 0 <= i < |s| ==> Encodable(s[i]) && BodyLen(s[i]) == w
    ensures |EncodeAll(s)| == |s| * w
  {
    if s != [] {
      EncodeAllLength(s[1..], w);
      assert |s| * w == w + |s[1..]| * w;
    }
  }

  /** The added items of a packet are encodable, and take one slot each. */
  lemma ExtraLength(g: Group)
    requires WellFormed(g)
    ensures forall i :: 0 <= i < |g.extra| ==> Encodable(g.extra[i])
    ensures |EncodeAll(g.extra)| == |g.extra| * SlotLen(g.first)
  {
    if ReportGroup(g) {
      EncodeAllLength(g.extra, RrLen);
    } else {
      EncodeAllLength(g.extra, 4);
    }
  }

  /** The bytes of one packet: its header, its leading item, and the added items in order. */
  function GroupBytes(g: Group): (r: seq<Byte>)
    requires WellFormed(g)
    ensures |r| == GroupLength(g)
  {
    ExtraLength(g);
    SlotsAligned(|g.extra|, SlotLen(g.first));
    Header.HeaderBytes(GroupHeader(g)) + Encode(g.first) + EncodeAll(g.extra)
  }

  /** The bytes of a run of packets. */
  function Flatten(gs: seq<Group>): (r: seq<Byte>)
    requires AllWellFormed(gs)
  {
    if gs == [] then [] else GroupBytes(gs[0]) + Flatten(gs[1..])
  }

  /** The total length of a run of packets. */
  function TotalLength(gs: seq<Group>): nat
  {
    if gs == [] then 0 else GroupLength(gs[0]) + TotalLength(gs[1..])
  }

  /** The items a run of packets carries, in the order they are written. */
  function Items(gs: seq<Group>): seq<RtcpFb>
  {
    if gs == [] then [] else [gs[0].first] + gs[0].extra + Items(gs[1..])
  }

  lemma {:induction false} FlattenLength(gs: seq<Group>)
    requires AllWellFormed(gs)
    ensures |Flatten(gs)| == TotalLength(gs)
  {
    if gs != [] {
      FlattenLength(gs[1..]);
    }
  }

  lemma WellFormedConcat(a: seq<Group>, b: seq<Group>)
    requires AllWellFormed(a) && AllWellFormed(b)
    ensures AllWellFormed(a + b)
  {
    forall i | 0 <= i < |a + b| ensures WellFormed((a + b)[i]) {
      if i >= |a| {
        assert (a + b)[i] == b[i - |a|];
      }
    }
  }

  lemma {:induction false} FlattenConcat(a: seq<Group>, b: seq<Group>)
    requires AllWellFormed(a) && AllWellFormed(b)
    ensures AllWellFormed(a + b)
    ensures Flatten(a + b) == Flatten(a) + Flatten(b)
  {
    WellFormedConcat(a, b);
    if a == [] {
      EmptyFront(b);
      EmptyFront(Flatten(b));
    } else {
      WellFormedConcat(a[1..], b);
      assert (a + b)[0] == a[0];
      assert (a + b)[1..] == a[1..] + b;
      FlattenConcat(a[1..], b);
      Associative(GroupBytes(a[0]), Flatten(a[1..]), Flatten(b));
    }
  }

  lemma {:induction false} TotalLengthConcat(a: seq<Group>, b: seq<Group>)
    ensures TotalLength(a + b) == TotalLength(a) + TotalLength(b)
  {
    if a == [] {
      assert a + b == b;
    } else {
      assert (a + b)[1..] == a[1..] + b;
      TotalLengthConcat(a[1..], b);
    }
  }

  lemma {:induction false} ItemsConcat(a: seq<Group>, b: seq<Group>)
    ensures Items(a + b) == Items(a) + Items(b)
  {
    if a == [] {
      assert a + b == b;
    } else {
      assert (a + b)[1..] == a[1..] + b;
      ItemsConcat(a[1..], b);
    }
  }

  // ---------------------------------------------------------------------
  // Pulling receiver reports out of the queue.
  // ---------------------------------------------------------------------

  /** The receiver reports pulled out of a queue, and what is left of the queue. */
  datatype Pulled = Pulled(taken: seq<RtcpFb>, rest: seq<RtcpFb>)

  /**
   * One iteration of the `for i in 0..max_rr` loop: find the first receiver
   * report in the queue (`position`) and remove it (`remove(pos)`).
   */
  function PullReport(s: seq<RtcpFb>): (r: Pulled)
    requires Count(s, 1) > 0
    ensures |r.taken| == 1 && r.taken[0].ReceiverReport?
    ensures |r.rest| == |s| - 1
    ensures Count(r.rest, 1) == Count(s, 1) - 1
  {
    var p := FirstPos(s, 1);
    PullCount(s);
    Pulled([s[p]], s[..p] + s[p + 1..])
  }

  lemma PullCount(s: seq<RtcpFb>)
    requires Count(s, 1) > 0
    ensures Count(s[..FirstPos(s, 1)] + s[FirstPos(s, 1) + 1..], 1) == Count(s, 1) - 1
  {
    RemoveFirst(s, 1, 1);
  }

  /**
   * The item pulled is the first receiver report, and what is left holds
   * every other item in order.
   */
  lemma PullReportSelects(s: seq<RtcpFb>, k: nat)
    requires Count(s, 1) > 0
    ensures PullReport(s).taken == [Filter(s, 1)[0]]
    ensures Filter(PullReport(s).rest, k) == if k == 1 then Filter(s, 1)[1..] else Filter(s, k)
  {
    RemoveFirst(s, 1, k);
  }

  /** Pulling a receiver report out of a sorted queue leaves it sorted. */
  lemma PullReportSorted(s: seq<RtcpFb>)
    requires Count(s, 1) > 0 && Sorted(s)
    ensures Sorted(PullReport(s).rest)
  {
    SortedRemove(s, FirstPos(s, 1));
  }

  /**
   * The whole `for i in 0..max_rr` loop: `n` receiver reports pulled one
   * after the other. Its precondition is why the `expect` never fires:
   * there are at least `n` receiver reports to pull.
   */
  function PullReports(s: seq<RtcpFb>, n: nat): (r: Pulled)
    requires n <= Count(s, 1)
    ensures |r.taken| == n && |r.rest| == |s| - n
    ensures Count(r.rest, 1) == Count(s, 1) - n
    ensures forall i :: 0 <= i < n ==> r.taken[i].ReceiverReport?
    decreases n
  {
    if n == 0 then Pulled([], s)
    else
      var prev := PullReports(s, n - 1);
      var one := PullReport(prev.rest);
      Pulled(prev.taken + one.taken, one.rest)
  }

  /** Pulling one more receiver report after the first `n`. */
  lemma PullReportsNext(s: seq<RtcpFb>, n: nat)
    requires n < Count(s, 1)
    ensures PullReports(s, n + 1).taken == PullReports(s, n).taken + PullReport(PullReports(s, n).rest).taken
    ensures PullReports(s, n + 1).rest == PullReport(PullReports(s, n).rest).rest
  {
  }

  /**
   * Pulling `n` receiver reports takes the first `n` of them in queue
   * order and leaves every other item, in order.
   */
  lemma {:induction false} PullReportsSelects(s: seq<RtcpFb>, n: nat, k: nat)
    requires n <= Count(s, 1)
    ensures Filter(PullReports(s, n).rest, k) == if k == 1 then Filter(s, 1)[n..] else Filter(s, k)
  {
    if n > 0 {
      var prev := PullReports(s, n - 1);
      PullReportsSelects(s, n - 1, k);
      PullReportSelects(prev.rest, k);
      assert PullReports(s, n).rest == PullReport(prev.rest).rest;
      if k == 1 {
        var f := Filter(s, 1);
        assert f[n - 1..][1..] == f[n..];
      }
    }
  }

  /** The receiver reports pulled are the first `n` of them, in queue order. */
  lemma {:induction false} PullReportsTaken(s: seq<RtcpFb>, n: nat)
    requires n <= Count(s, 1)
    ensures PullReports(s, n).taken == Filter(s, 1)[..n]
  {
    if n > 0 {
      var f := Filter(s, 1);
      var prev := PullReports(s, n - 1);
      assert prev.taken == f[..n - 1] by { PullReportsTaken(s, n - 1); }
      assert Filter(prev.rest, 1) == f[n - 1..] by { PullReportsSelects(s, n - 1, 1); }
      assert PullReport(prev.rest).taken == [Filter(prev.rest, 1)[0]] by { PullReportSelects(prev.rest, 1); }
      assert PullReports(s, n).taken == prev.taken + PullReport(prev.rest).taken by { PullReportsNext(s, n - 1); }
      TakeStep(f, n, prev.taken, Filter(prev.rest, 1), PullReport(prev.rest).taken, PullReports(s, n).taken);
    }
  }

  /** Extending the first `n - 1` items by the head of the rest gives the first `n`. */
  lemma TakeStep(f: seq<RtcpFb>, n: nat, front: seq<RtcpFb>, back: seq<RtcpFb>, one: seq<RtcpFb>, whole: seq<RtcpFb>)
    requires 0 < n <= |f| && front == f[..n - 1] && back == f[n - 1..]
    requires one == [back[0]] && whole == front + one
    ensures whole == f[..n]
  {
    assert f[..n] == f[..n - 1] + [f[n - 1]];
  }

  /** Pulling receiver reports out of a sorted queue leaves it sorted. */
  lemma {:induction false} PullReportsSorted(s: seq<RtcpFb>, n: nat)
    requires n <= Count(s, 1) && Sorted(s)
    ensures Sorted(PullReports(s, n).rest)
  {
    if n > 0 {
      var prev := PullReports(s, n - 1);
      assert Sorted(prev.rest) by { PullReportsSorted(s, n - 1); }
      assert Sorted(PullReport(prev.rest).rest) by { PullReportSorted(prev.rest); }
      assert PullReports(s, n).rest == PullReport(prev.rest).rest by { PullReportsNext(s, n - 1); }
    }
  }

  // ---------------------------------------------------------------------
  // One packet, the two passes and the whole builder, as functions.
  // ---------------------------------------------------------------------

  /** One iteration of a loop: the packet written, the queue after it, and the room left after it. */
  datatype Step = Step(group: Group, rest: seq<RtcpFb>, room: nat)

  /**
   * One iteration of the first `while` loop, for a queue led by a report
   * whose packet fits in `room`: the head, then as many receiver reports
   * pulled from the rest as remain, fit and stay within 31.
   */
  function ReportStep(q: seq<RtcpFb>, room: nat): (r: Step)
    requires q != [] && IsReport(q[0]) && NeededLen(q[0]) <= room
    ensures ReportGroup(r.group) && r.group.first == q[0]
    ensures r.room + GroupLength(r.group) == room
    ensures |r.rest| < |q|
  {
    var fb := q[0];
    var rest := q[1..];
    var needed := NeededLen(fb);
    var maxRr := Min(Min(Count(rest, 1), MaxCount), (room - needed) / RrLen);
    FitsIn(maxRr, room - needed, RrLen);
    var y := PullReports(rest, maxRr);
    assert GroupLength(Group(fb, y.taken)) == needed + maxRr * RrLen;
    Step(Group(fb, y.taken), y.rest, room - GroupLength(Group(fb, y.taken)))
  }

  /** The packets written and the queue left behind. */
  datatype Outcome = Outcome(groups: seq<Group>, left: seq<RtcpFb>)

  /**
   * The first `while` loop: SR/RR packets while the head is a report and
   * its packet fits in `room`.
   */
  function ReportPass(q: seq<RtcpFb>, room: nat): (r: Outcome)
    ensures forall i :: 0 <= i < |r.groups| ==> ReportGroup(r.groups[i])
    ensures TotalLength(r.groups) <= room
    decreases |q|
  {
    if q == [] || !IsReport(q[0]) || room < NeededLen(q[0]) then Outcome([], q)
    else
      var st := ReportStep(q, room);
      var r := ReportPass(st.rest, st.room);
      var gs := [st.group] + r.groups;
      assert gs[0] == st.group && gs[1..] == r.groups;
      Outcome(gs, r.left)
  }

  /** A report that fits is written as one packet, and the pass goes on with the queue after it. */
  lemma ReportPassStep(q: seq<RtcpFb>, room: nat)
    requires q != [] && IsReport(q[0]) && NeededLen(q[0]) <= room
    ensures ReportPass(q, room).groups == [ReportStep(q, room).group] + ReportPass(ReportStep(q, room).rest, ReportStep(q, room).room).groups
    ensures ReportPass(q, room).left == ReportPass(ReportStep(q, room).rest, ReportStep(q, room).room).left
  {
  }

  /** In a sorted queue led by a goodbye, the goodbyes after the head come first. */
  lemma ByeRun(q: seq<RtcpFb>)
    requires Sorted(q) && |q| > 0 && q[0].Goodbye?
    ensures forall i :: 0 <= i < Count(q[1..], 2) ==> q[1..][i].Goodbye?
  {
    SortedTail(q, 2);
    SortedSuffix(q, 1);
    LeadingBucket(q[1..], 2);
  }

  /**
   * One iteration of the second `while` loop, for a queue led by a goodbye
   * whose packet fits in `room`: the head, then as many items popped from
   * the front as there are further goodbyes, that fit and stay within 31.
   */
  function GoodbyeStep(q: seq<RtcpFb>, room: nat): (r: Step)
    requires q != [] && q[0].Goodbye? && ByeNeeded <= room
    ensures r.group.first == q[0] && |r.group.extra| <= MaxCount
    ensures r.room + GroupLength(r.group) == room
    ensures |r.rest| < |q|
  {
    var rest := q[1..];
    var maxGb := Min(Min(Count(rest, 2), MaxCount), (room - ByeNeeded) / 4);
    FitsIn(maxGb, room - ByeNeeded, 4);
    Step(Group(q[0], rest[..maxGb]), rest[maxGb..], room - ByeNeeded - maxGb * 4)
  }

  /** The second `while` loop: BYE packets while the head is a goodbye and its packet fits in `room`. */
  function GoodbyePass(q: seq<RtcpFb>, room: nat): (r: Outcome)
    ensures TotalLength(r.groups) <= room
    decreases |q|
  {
    if q == [] || !q[0].Goodbye? || room < ByeNeeded then Outcome([], q)
    else
      var st := GoodbyeStep(q, room);
      var r := GoodbyePass(st.rest, st.room);
      var gs := [st.group] + r.groups;
      assert gs[0] == st.group && gs[1..] == r.groups;
      Outcome(gs, r.left)
  }

  /** A goodbye that fits is written as one packet, and the pass goes on with the queue after it. */
  lemma GoodbyePassStep(q: seq<RtcpFb>, room: nat)
    requires q != [] && q[0].Goodbye? && ByeNeeded <= room
    ensures GoodbyePass(q, room).groups == [GoodbyeStep(q, room).group] + GoodbyePass(GoodbyeStep(q, room).rest, GoodbyeStep(q, room).room).groups
    ensures GoodbyePass(q, room).left == GoodbyePass(GoodbyeStep(q, room).rest, GoodbyeStep(q, room).room).left
  {
  }

  /**
   * In a sorted queue the items a BYE packet pops after its head are all
   * goodbyes, so the `expect` never fires and no other kind is written as
   * a goodbye; what is left stays sorted.
   */
  lemma GoodbyeStepSorted(q: seq<RtcpFb>, room: nat)
    requires Sorted(q) && q != [] && q[0].Goodbye? && ByeNeeded <= room
    ensures GoodbyeGroup(GoodbyeStep(q, room).group)
    ensures Sorted(GoodbyeStep(q, room).rest)
  {
    var maxGb := |GoodbyeStep(q, room).group.extra|;
    ByeRun(q);
    SortedSuffix(q, 1 + maxGb);
    assert q[1..][maxGb..] == q[1 + maxGb..];
  }

  /** On a sorted queue the BYE pass leaves the queue sorted. */
  lemma {:induction false} GoodbyePassSorted(q: seq<RtcpFb>, room: nat)
    requires Sorted(q)
    ensures Sorted(GoodbyePass(q, room).left)
    decreases |q|
  {
    if !(q == [] || !q[0].Goodbye? || room < ByeNeeded) {
      GoodbyeStepSorted(q, room);
      GoodbyePassSorted(GoodbyeStep(q, room).rest, GoodbyeStep(q, room).room);
      GoodbyePassStep(q, room);
    }
  }

  /** On a sorted queue the BYE pass writes only BYE packets. */
  lemma {:induction false} GoodbyePassGroups(q: seq<RtcpFb>, room: nat)
    requires Sorted(q)
    ensures forall i :: 0 <= i < |GoodbyePass(q, room).groups| ==> GoodbyeGroup(GoodbyePass(q, room).groups[i])
    decreases |q|
  {
    if !(q == [] || !q[0].Goodbye? || room < ByeNeeded) {
      GoodbyeStepSorted(q, room);
      GoodbyePassGroups(GoodbyeStep(q, room).rest, GoodbyeStep(q, room).room);
      GoodbyePassStep(q, room);
      var gs := GoodbyePass(q, room).groups;
      forall i | 0 <= i < |gs| ensures GoodbyeGroup(gs[i]) {
        if i > 0 {
          assert gs[i] == GoodbyePass(GoodbyeStep(q, room).rest, GoodbyeStep(q, room).room).groups[i - 1];
        }
      }
    }
  }

  /** A report packet leaves a sorted queue sorted. */
  lemma ReportStepSorted(q: seq<RtcpFb>, room: nat)
    requires q != [] && IsReport(q[0]) && NeededLen(q[0]) <= room && Sorted(q)
    ensures Sorted(ReportStep(q, room).rest)
  {
    SortedSuffix(q, 1);
    var maxRr := Min(Min(Count(q[1..], 1), MaxCount), (room - NeededLen(q[0])) / RrLen);
    PullReportsSorted(q[1..], maxRr);
  }

  /** The SR/RR pass leaves a sorted queue sorted. */
  lemma {:induction false} ReportPassSorted(q: seq<RtcpFb>, room: nat)
    requires Sorted(q)
    ensures Sorted(ReportPass(q, room).left)
    decreases |q|
  {
    if !(q == [] || !IsReport(q[0]) || room < NeededLen(q[0])) {
      ReportStepSorted(q, room);
      ReportPassSorted(ReportStep(q, room).rest, ReportStep(q, room).room);
      ReportPassStep(q, room);
    }
  }

  /** The SR/RR packets `build_feedback` writes: the first pass over the sorted queue. */
  function Reports(feedback: seq<RtcpFb>, capacity: nat): (r: Outcome)
    ensures TotalLength(r.groups) <= capacity
  {
    ReportPass(SortByKey(feedback), capacity)
  }

  /** The room the SR/RR packets leave in the buffer. */
  function ByeRoom(feedback: seq<RtcpFb>, capacity: nat): nat
  {
    capacity - TotalLength(Reports(feedback, capacity).groups)
  }

  /** The BYE packets `build_feedback` writes: the second pass, over what the first left. */
  function Goodbyes(feedback: seq<RtcpFb>, capacity: nat): Outcome
  {
    GoodbyePass(Reports(feedback, capacity).left, ByeRoom(feedback, capacity))
  }

  /**
   * `build_feedback` as a function of the queue and the buffer length: the
   * packets it writes, and the queue it leaves.
   */
  function Build(feedback: seq<RtcpFb>, capacity: nat): Outcome
  {
    Outcome(Reports(feedback, capacity).groups + Goodbyes(feedback, capacity).groups, Goodbyes(feedback, capacity).left)
  }

  /** What the first pass leaves is sorted, and the second pass writes only BYE packets. */
  lemma PassesSorted(feedback: seq<RtcpFb>, capacity: nat)
    ensures Sorted(Reports(feedback, capacity).left)
    ensures forall i :: 0 <= i < |Goodbyes(feedback, capacity).groups| ==> GoodbyeGroup(Goodbyes(feedback, capacity).groups[i])
  {
    SortByKeyIsStableSort(feedback);
    ReportPassSorted(SortByKey(feedback), capacity);
    GoodbyePassGroups(Reports(feedback, capacity).left, ByeRoom(feedback, capacity));
  }

  /** Every packet `build_feedback` writes is an SR/RR or a BYE packet, and together they fit in the buffer. */
  lemma BuildWellFormed(feedback: seq<RtcpFb>, capacity: nat)
    ensures AllWellFormed(Build(feedback, capacity).groups)
    ensures TotalLength(Build(feedback, capacity).groups) <= capacity
  {
    var reports, byes := Reports(feedback, capacity).groups, Goodbyes(feedback, capacity).groups;
    assert AllWellFormed(reports);
    assert AllWellFormed(byes) by { PassesSorted(feedback, capacity); }
    assert AllWellFormed(reports + byes) by { WellFormedConcat(reports, byes); }
    assert TotalLength(reports + byes) == TotalLength(reports) + TotalLength(byes)
      by { TotalLengthConcat(reports, byes); }
  }

  /** The bytes `build_feedback` writes. */
  function BuildBytes(feedback: seq<RtcpFb>, capacity: nat): (r: seq<Byte>)
    ensures |r| == TotalLength(Build(feedback, capacity).groups) <= capacity
  {
    BuildWellFormed(feedback, capacity);
    FlattenLength(Build(feedback, capacity).groups);
    Flatten(Build(feedback, capacity).groups)
  }

  // ---------------------------------------------------------------------
  // The algorithm.
  // ---------------------------------------------------------------------

  /**
   * `header.write_to(buf)` then `fb.write_to(&mut buf[header.len()..])`:
   * the header of a packet and its leading item, at `abs`.
   */
  method WriteHead(fb: RtcpFb, count: Byte, length: nat, buf: array<Byte>, abs: nat)
    requires Encodable(fb) && length % 4 == 0 && NeededLen(fb) <= length && abs + length <= buf.Length
    modifies buf
    ensures buf[..] == Overwrite(old(buf[..]), abs, Header.HeaderBytes(AsHeader(fb, count, length)) + Encode(fb))
  {
    ghost var before := buf[..];
    var header := AsHeader(fb, count, length);
    Header.WriteHeader(header, buf, abs);
    WriteItem(fb, buf, abs + Header.Len(header));
    OverwriteAdjacent(before, abs, Header.HeaderBytes(header), Encode(fb));
  }

  /**
   * The `for i in 0..max_rr` loop: pulls `n` receiver reports out of the
   * queue one by one and writes them one after the other from `off` on.
   */
  method WriteReports(queue0: seq<RtcpFb>, n: nat, buf: array<Byte>, off: nat) returns (queue: seq<RtcpFb>)
    requires n <= Count(queue0, 1) && off + n * RrLen <= buf.Length
    modifies buf
    ensures queue == PullReports(queue0, n).rest
    ensures |EncodeAll(PullReports(queue0, n).taken)| == n * RrLen
    ensures buf[..] == Overwrite(old(buf[..]), off, EncodeAll(PullReports(queue0, n).taken))
  {
    ghost var before := buf[..];
    queue := queue0;
    for i := 0 to n
      invariant queue == PullReports(queue0, i).rest
      invariant |EncodeAll(PullReports(queue0, i).taken)| == i * RrLen
      invariant buf[..] == Overwrite(before, off, EncodeAll(PullReports(queue0, i).taken))
    {
      queue := WriteReportSlot(queue0, i, n, queue, buf, off, before);
    }
  }

  /**
   * The body of the removal loop: finds the first receiver report, removes
   * it from the queue and writes it into slot `i`.
   */
  method WriteReportSlot(queue0: seq<RtcpFb>, i: nat, n: nat, queue: seq<RtcpFb>, buf: array<Byte>, off: nat, ghost before: seq<Byte>)
      returns (next: seq<RtcpFb>)
    requires i < n <= Count(queue0, 1) && off + n * RrLen <= buf.Length && |before| == buf.Length
    requires queue == PullReports(queue0, i).rest
    requires |EncodeAll(PullReports(queue0, i).taken)| == i * RrLen
    requires buf[..] == Overwrite(before, off, EncodeAll(PullReports(queue0, i).taken))
    modifies buf
    ensures next == PullReports(queue0, i + 1).rest
    ensures |EncodeAll(PullReports(queue0, i + 1).taken)| == (i + 1) * RrLen
    ensures buf[..] == Overwrite(before, off, EncodeAll(PullReports(queue0, i + 1).taken))
  {
    ghost var taken := PullReports(queue0, i).taken;
    assert Count(queue, 1) > 0;
    var pos := FirstPos(queue, 1);
    var rr := queue[pos];
    assert && rr.ReceiverReport? && BodyLen(rr) == RrLen
           && taken + [rr] == PullReports(queue0, i + 1).taken
           && queue[..pos] + queue[pos + 1..] == PullReports(queue0, i + 1).rest
      by { ReportSlot(queue0, i, taken, queue); }
    next := queue[..pos] + queue[pos + 1..];
    assert (i + 1) * RrLen == i * RrLen + RrLen <= n * RrLen by { NextSlot(i, n, RrLen); }
    ghost var current := buf[..];
    WriteItem(rr, buf, off + i * RrLen);
    assert && |EncodeAll(taken + [rr])| == |EncodeAll(taken)| + RrLen
           && buf[..] == Overwrite(before, off, EncodeAll(taken + [rr]))
      by { EncodedStep(before, off, taken, rr, off + i * RrLen, current, buf[..]); }
  }

  /** One turn of the removal loop: the report `position` finds is the next one `PullReports` takes. */
  lemma ReportSlot(s: seq<RtcpFb>, i: nat, taken: seq<RtcpFb>, queue: seq<RtcpFb>)
    requires i < Count(s, 1)
    requires taken == PullReports(s, i).taken && queue == PullReports(s, i).rest
    ensures Count(queue, 1) > 0
    ensures queue[FirstPos(queue, 1)].ReceiverReport? && BodyLen(queue[FirstPos(queue, 1)]) == RrLen
    ensures taken + [queue[FirstPos(queue, 1)]] == PullReports(s, i + 1).taken
    ensures queue[..FirstPos(queue, 1)] + queue[FirstPos(queue, 1) + 1..] == PullReports(s, i + 1).rest
  {
    PullReportsNext(s, i);
  }

  /**
   * The `for i in 0..max_gb` loop: pops `n` goodbyes from the front of the
   * queue and writes them one after the other from `off` on. Its
   * precondition is why the `expect` never fires.
   */
  method WriteGoodbyes(queue0: seq<RtcpFb>, n: nat, buf: array<Byte>, off: nat) returns (queue: seq<RtcpFb>)
    requires n <= |queue0| && (forall i :: 0 <= i < n ==> queue0[i].Goodbye?)
    requires off + n * 4 <= buf.Length
    modifies buf
    ensures queue == queue0[n..]
    ensures |EncodeAll(queue0[..n])| == n * 4
    ensures buf[..] == Overwrite(old(buf[..]), off, EncodeAll(queue0[..n]))
  {
    ghost var before := buf[..];
    queue := queue0;
    for i := 0 to n
      invariant queue == queue0[i..]
      invariant |EncodeAll(queue0[..i])| == i * 4
      invariant buf[..] == Overwrite(before, off, EncodeAll(queue0[..i]))
    {
      var fbn := queue[0];
      queue := queue[1..];
      ghost var current := buf[..];
      WriteItem(fbn, buf, off + i * 4);
      EncodedStep(before, off, queue0[..i], fbn, off + i * 4, current, buf[..]);
      assert queue0[..i + 1] == queue0[..i] + [fbn];
    }
  }

  /**
   * The body of the first `while` loop once the head is known to fit:
   * writes the packet led by the head report at `abs` and returns the
   * queue after it and the packet's length.
   */
  method WriteReportPacket(q: seq<RtcpFb>, neededLen: nat, xrr: nat, buf: array<Byte>, abs: nat, ghost room: nat)
      returns (rest: seq<RtcpFb>, length: nat)
    requires room == buf.Length - abs
    requires q != [] && IsReport(q[0])
    requires neededLen == NeededLen(q[0]) && xrr == (if q[0].ReceiverReport? then 1 else 0)
    requires abs + neededLen <= buf.Length
    modifies buf
    ensures rest == ReportStep(q, room).rest
    ensures length == GroupLength(ReportStep(q, room).group) <= room
    ensures buf[..] == Overwrite(old(buf[..]), abs, GroupBytes(ReportStep(q, room).group))
  {
    ghost var before := buf[..];
    var fb := q[0];
    var queue := q[1..];
    // How many receiver reports fit after the first item.
    var rrCount := Count(queue, 1);
    var availableForRr := buf.Length - abs - neededLen;
    var fittingSr := availableForRr / RrLen;
    var maxRr := Min(Min(rrCount, MaxCount), fittingSr);
    length := neededLen + maxRr * RrLen;
    // Number of receiver reports to send.
    var count := maxRr + xrr;
    ReportPlan(q, room, maxRr, length, count);
    WriteHead(fb, count % 0x100, length, buf, abs);
    ghost var mid := buf[..];
    rest := WriteReports(queue, maxRr, buf, abs + neededLen);
    PacketWritten(before, mid, buf[..], abs, ReportStep(q, room).group, abs + neededLen);
  }

  /** What one SR/RR packet is, once the number of added receiver reports is named. */
  lemma ReportPlan(q: seq<RtcpFb>, room: nat, maxRr: nat, length: nat, count: nat)
    requires q != [] && IsReport(q[0]) && NeededLen(q[0]) <= room
    requires maxRr == Min(Min(Count(q[1..], 1), MaxCount), (room - NeededLen(q[0])) / RrLen)
    requires length == NeededLen(q[0]) + maxRr * RrLen
    requires count == maxRr + (if q[0].ReceiverReport? then 1 else 0)
    ensures NeededLen(q[0]) <= length <= room && length % 4 == 0
    ensures maxRr <= Count(q[1..], 1)
    ensures ReportStep(q, room).group == Group(q[0], PullReports(q[1..], maxRr).taken)
    ensures ReportStep(q, room).rest == PullReports(q[1..], maxRr).rest
    ensures GroupLength(ReportStep(q, room).group) == length
    ensures GroupHeader(ReportStep(q, room).group) == AsHeader(q[0], count % 0x100, length)
  {
    var g := Group(q[0], PullReports(q[1..], maxRr).taken);
    assert ReportStep(q, room).group == g && ReportStep(q, room).rest == PullReports(q[1..], maxRr).rest
      by { ReportStepIs(q, room, maxRr); }
    assert NeededLen(q[0]) <= length <= room && length % 4 == 0
      by { PacketArith(NeededLen(q[0]), room, maxRr, RrLen, length); }
    assert |g.extra| == maxRr;
    assert GroupLength(g) == length;
    assert GroupHeader(g) == AsHeader(q[0], count % 0x100, length);
  }

  /** `ReportStep` with the number of added receiver reports named. */
  lemma ReportStepIs(q: seq<RtcpFb>, room: nat, maxRr: nat)
    requires q != [] && IsReport(q[0]) && NeededLen(q[0]) <= room
    requires maxRr == Min(Min(Count(q[1..], 1), MaxCount), (room - NeededLen(q[0])) / RrLen)
    ensures ReportStep(q, room).group == Group(q[0], PullReports(q[1..], maxRr).taken)
    ensures ReportStep(q, room).rest == PullReports(q[1..], maxRr).rest
  {
  }

  /** A packet written as its head, then its added items right after, is the packet's bytes. */
  lemma PacketWritten(before: seq<Byte>, mid: seq<Byte>, after: seq<Byte>, abs: nat, g: Group, off: nat)
    requires WellFormed(g) && GroupLength(g) % 4 == 0 && abs + GroupLength(g) <= |before|
    requires off == abs + NeededLen(g.first) && |EncodeAll(g.extra)| == |g.extra| * SlotLen(g.first)
    requires mid == Overwrite(before, abs, Header.HeaderBytes(GroupHeader(g)) + Encode(g.first))
    requires after == Overwrite(mid, off, EncodeAll(g.extra))
    ensures after == Overwrite(before, abs, GroupBytes(g))
  {
    OverwriteAdjacent(before, abs, Header.HeaderBytes(GroupHeader(g)) + Encode(g.first), EncodeAll(g.extra));
  }

  /**
   * The body of the second `while` loop once the head is known to fit:
   * writes the packet led by the head goodbye at `abs` and returns the
   * queue after it and the packet's length.
   */
  method WriteGoodbyePacket(q: seq<RtcpFb>, buf: array<Byte>, abs: nat, ghost room: nat) returns (rest: seq<RtcpFb>, length: nat)
    requires room == buf.Length - abs
    requires Sorted(q) && q != [] && q[0].Goodbye? && abs + ByeNeeded <= buf.Length
    modifies buf
    ensures GoodbyeGroup(GoodbyeStep(q, room).group)
    ensures rest == GoodbyeStep(q, room).rest
    ensures length == GroupLength(GoodbyeStep(q, room).group) <= room
    ensures buf[..] == Overwrite(old(buf[..]), abs, GroupBytes(GoodbyeStep(q, room).group))
  {
    ghost var before := buf[..];
    var fb := q[0];
    var queue := q[1..];
    GoodbyeStepSorted(q, room);
    var gbCount := Count(queue, 2);
    var availableForGb := buf.Length - abs - ByeNeeded;
    var fittingGb := availableForGb / 4;
    var maxGb := Min(Min(gbCount, MaxCount), fittingGb);
    length := ByeNeeded + maxGb * 4;
    GoodbyePlan(q, room, maxGb, length);
    WriteHead(fb, maxGb % 0x100, length, buf, abs);
    ghost var mid := buf[..];
    rest := WriteGoodbyes(queue, maxGb, buf, abs + ByeNeeded);
    PacketWritten(before, mid, buf[..], abs, GoodbyeStep(q, room).group, abs + ByeNeeded);
  }

  /** What one BYE packet is, once the number of added goodbyes is named. */
  lemma GoodbyePlan(q: seq<RtcpFb>, room: nat, maxGb: nat, length: nat)
    requires Sorted(q) && q != [] && q[0].Goodbye? && ByeNeeded <= room
    requires maxGb == Min(Min(Count(q[1..], 2), MaxCount), (room - ByeNeeded) / 4)
    requires length == ByeNeeded + maxGb * 4
    ensures ByeNeeded <= length <= room && length % 4 == 0
    ensures maxGb <= Count(q[1..], 2) <= |q[1..]|
    ensures GoodbyeStep(q, room).group == Group(q[0], q[1..][..maxGb])
    ensures GoodbyeStep(q, room).rest == q[1..][maxGb..]
    ensures forall i :: 0 <= i < maxGb ==> q[1..][i].Goodbye?
    ensures GroupLength(GoodbyeStep(q, room).group) == length
    ensures GroupHeader(GoodbyeStep(q, room).group) == AsHeader(q[0], maxGb % 0x100, length)
  {
    assert ByeNeeded <= length <= room && length % 4 == 0
      by { PacketArith(ByeNeeded, room, maxGb, 4, length); }
    assert forall i :: 0 <= i < Count(q[1..], 2) ==> q[1..][i].Goodbye? by { ByeRun(q); }
  }

  /** Appending one packet to those written. */
  lemma AppendGroup(done: seq<Group>, g: Group)
    requires AllWellFormed(done) && WellFormed(g)
    ensures AllWellFormed(done + [g])
    ensures Flatten(done + [g]) == Flatten(done) + GroupBytes(g)
    ensures TotalLength(done + [g]) == TotalLength(done) + GroupLength(g)
  {
    assert [g][0] == g && [g][1..] == [];
    assert AllWellFormed([g]);
    assert TotalLength([g]) == GroupLength(g) + TotalLength([]);
    assert Flatten([g]) == GroupBytes(g) by {
      assert Flatten([g]) == GroupBytes(g) + Flatten([]);
      EmptyBack(GroupBytes(g));
    }
    assert AllWellFormed(done + [g]) && Flatten(done + [g]) == Flatten(done) + Flatten([g])
      by { FlattenConcat(done, [g]); }
    assert TotalLength(done + [g]) == TotalLength(done) + TotalLength([g])
      by { TotalLengthConcat(done, [g]); }
  }

  /** One more packet written: what the bytes so far are, and their length. */
  lemma WrittenStep(before: seq<Byte>, base: nat, done: seq<Group>, g: Group, at: nat, current: seq<Byte>, after: seq<Byte>)
    requires AllWellFormed(done) && WellFormed(g)
    requires |Flatten(done)| == TotalLength(done) && at == base + TotalLength(done)
    requires at + GroupLength(g) <= |before|
    requires current == Overwrite(before, base, Flatten(done))
    requires after == Overwrite(current, at, GroupBytes(g))
    ensures AllWellFormed(done + [g])
    ensures TotalLength(done + [g]) == |Flatten(done + [g])| == TotalLength(done) + GroupLength(g)
    ensures after == Overwrite(before, base, Flatten(done + [g]))
  {
    assert AllWellFormed(done + [g]) && Flatten(done + [g]) == Flatten(done) + GroupBytes(g)
           && TotalLength(done + [g]) == TotalLength(done) + GroupLength(g)
      by { AppendGroup(done, g); }
    assert after == Overwrite(before, base, Flatten(done) + GroupBytes(g))
      by { OverwriteThen(before, base, Flatten(done), GroupBytes(g), at, current, after); }
  }

  /** One more SR/RR packet written: the invariant of the first loop carries over. */
  lemma ReportLoopStep(whole: Outcome, done: seq<Group>, q: seq<RtcpFb>, room: nat)
    requires q != [] && IsReport(q[0]) && NeededLen(q[0]) <= room
    requires whole.groups == done + ReportPass(q, room).groups
    requires whole.left == ReportPass(q, room).left
    ensures whole.groups == (done + [ReportStep(q, room).group]) + ReportPass(ReportStep(q, room).rest, ReportStep(q, room).room).groups
    ensures whole.left == ReportPass(ReportStep(q, room).rest, ReportStep(q, room).room).left
  {
    var st := ReportStep(q, room);
    var tail := ReportPass(st.rest, st.room).groups;
    assert ReportPass(q, room).groups == [st.group] + tail && ReportPass(q, room).left == ReportPass(st.rest, st.room).left
      by { ReportPassStep(q, room); }
    Associative(done, [st.group], tail);
  }

  /** One more BYE packet written: the invariant of the second loop carries over. */
  lemma GoodbyeLoopStep(whole: Outcome, done: seq<Group>, q: seq<RtcpFb>, room: nat)
    requires q != [] && q[0].Goodbye? && ByeNeeded <= room
    requires whole.groups == done + GoodbyePass(q, room).groups
    requires whole.left == GoodbyePass(q, room).left
    ensures whole.groups == (done + [GoodbyeStep(q, room).group]) + GoodbyePass(GoodbyeStep(q, room).rest, GoodbyeStep(q, room).room).groups
    ensures whole.left == GoodbyePass(GoodbyeStep(q, room).rest, GoodbyeStep(q, room).room).left
  {
    var st := GoodbyeStep(q, room);
    var tail := GoodbyePass(st.rest, st.room).groups;
    assert GoodbyePass(q, room).groups == [st.group] + tail && GoodbyePass(q, room).left == GoodbyePass(st.rest, st.room).left
      by { GoodbyePassStep(q, room); }
    Associative(done, [st.group], tail);
  }

  /**
   * The first `while` loop of `build_feedback`, from the front of the
   * buffer. `full` says it stopped because the head report did not fit,
   * where the source returns at once.
   */
  method WriteReportPackets(q0: seq<RtcpFb>, buf: array<Byte>) returns (abs: nat, q: seq<RtcpFb>, full: bool)
    modifies buf
    ensures abs == TotalLength(ReportPass(q0, buf.Length).groups) == |Flatten(ReportPass(q0, buf.Length).groups)|
    ensures q == ReportPass(q0, buf.Length).left
    ensures buf[..] == Overwrite(old(buf[..]), 0, Flatten(ReportPass(q0, buf.Length).groups))
    ensures full <==> q != [] && IsReport(q[0])
  {
    ghost var before := buf[..];
    ghost var done: seq<Group> := [];
    ghost var room := buf.Length;
    ghost var whole := ReportPass(q0, room);
    abs, q, full := 0, q0, false;
    while q != [] && IsReport(q[0])
      invariant AllWellFormed(done)
      invariant abs == TotalLength(done) == |Flatten(done)| <= buf.Length
      invariant room == buf.Length - abs
      invariant buf[..] == Overwrite(before, 0, Flatten(done))
      invariant whole.groups == done + ReportPass(q, room).groups
      invariant whole.left == ReportPass(q, room).left
      decreases |q|
    {
      // Length needed to fit the first item.
      var neededLen, xrr;
      if q[0].SenderInfo? {
        neededLen, xrr := Header.HeaderLen(Header.SenderReport) + SrLen, 0;
      } else {
        neededLen, xrr := Header.HeaderLen(Header.ReceiverReport) + RrLen, 1;
      }
      if buf.Length - abs < neededLen {
        // Nothing more fits in this buffer.
        assert ReportPass(q, room).groups == [];
        assert done + [] == done;
        return abs, q, true;
      }
      ghost var current := buf[..];
      var rest, length := WriteReportPacket(q, neededLen, xrr, buf, abs, room);
      ReportLoopStep(whole, done, q, room);
      WrittenStep(before, 0, done, ReportStep(q, room).group, abs, current, buf[..]);
      done := done + [ReportStep(q, room).group];
      room := ReportStep(q, room).room;
      q := rest;
      abs := abs + length;
    }
    assert ReportPass(q, room).groups == [];
    assert done + [] == done;
  }

  /** The second `while` loop of `build_feedback`, from `abs0` on. */
  method WriteGoodbyePackets(q0: seq<RtcpFb>, buf: array<Byte>, abs0: nat, ghost room0: nat) returns (abs: nat, q: seq<RtcpFb>)
    requires Sorted(q0) && abs0 <= buf.Length && room0 == buf.Length - abs0
    modifies buf
    ensures AllWellFormed(GoodbyePass(q0, room0).groups)
    ensures abs == abs0 + TotalLength(GoodbyePass(q0, room0).groups) == abs0 + |Flatten(GoodbyePass(q0, room0).groups)|
    ensures q == GoodbyePass(q0, room0).left
    ensures buf[..] == Overwrite(old(buf[..]), abs0, Flatten(GoodbyePass(q0, room0).groups))
  {
    ghost var before := buf[..];
    ghost var done: seq<Group> := [];
    ghost var room := room0;
    ghost var whole := GoodbyePass(q0, room);
    GoodbyePassGroups(q0, room);
    abs, q := abs0, q0;
    while q != [] && q[0].Goodbye?
      invariant Sorted(q)
      invariant AllWellFormed(done)
      invariant abs == abs0 + TotalLength(done) == abs0 + |Flatten(done)| <= buf.Length
      invariant room == buf.Length - abs
      invariant buf[..] == Overwrite(before, abs0, Flatten(done))
      invariant whole.groups == done + GoodbyePass(q, room).groups
      invariant whole.left == GoodbyePass(q, room).left
      decreases |q|
    {
      if buf.Length - abs < ByeNeeded {
        // No room for more.
        assert GoodbyePass(q, room).groups == [];
        assert done + [] == done;
        return abs, q;
      }
      GoodbyeStepSorted(q, room);
      ghost var current := buf[..];
      var rest, length := WriteGoodbyePacket(q, buf, abs, room);
      GoodbyeLoopStep(whole, done, q, room);
      WrittenStep(before, abs0, done, GoodbyeStep(q, room).group, abs, current, buf[..]);
      done := done + [GoodbyeStep(q, room).group];
      room := GoodbyeStep(q, room).room;
      q := rest;
      abs := abs + length;
    }
    assert GoodbyePass(q, room).groups == [];
    assert done + [] == done;
  }

  /**
   * `RtcpFb::build_feedback(feedback, buf)`: returns the number of bytes
   * written and the queue it leaves (the source sorts and drains the
   * `VecDeque` in place). Writes exactly `BuildBytes` at the front of the
   * buffer and nothing after them.
   */
  method BuildFeedback(feedback: seq<RtcpFb>, buf: array<Byte>) returns (written: nat, left: seq<RtcpFb>)
    modifies buf
    ensures written == |BuildBytes(feedback, buf.Length)|
    ensures left == Build(feedback, buf.Length).left
    ensures buf[..written] == BuildBytes(feedback, buf.Length)
    ensures buf[written..] == old(buf[written..])
  {
    ghost var original := buf[..];
    ghost var reports, byes := Reports(feedback, buf.Length), Goodbyes(feedback, buf.Length);
    var q := SortByKey(feedback);
    var abs, full;
    abs, q, full := WriteReportPackets(q, buf);
    if full {
      // The head report does not fit, and no goodbye is written after it.
      assert && buf[..] == Overwrite(original, 0, BuildBytes(feedback, buf.Length))
             && abs == |BuildBytes(feedback, buf.Length)| && q == Build(feedback, buf.Length).left
        by { StoppedAtReport(feedback, buf.Length); }
      OverwriteFront(original, BuildBytes(feedback, buf.Length));
      return abs, q;
    }
    assert Sorted(q) by { BuildJoins(feedback, buf.Length); }
    ghost var mid := buf[..];
    abs, q := WriteGoodbyePackets(q, buf, abs, ByeRoom(feedback, buf.Length));
    assert && buf[..] == Overwrite(original, 0, BuildBytes(feedback, buf.Length))
           && abs == |BuildBytes(feedback, buf.Length)| && q == Build(feedback, buf.Length).left
      by {
        BuildJoins(feedback, buf.Length);
        OverwriteThen(original, 0, Flatten(reports.groups), Flatten(byes.groups), |Flatten(reports.groups)|, mid, buf[..]);
      }
    OverwriteFront(original, BuildBytes(feedback, buf.Length));
    return abs, q;
  }

  /** When the first loop stops at a report that does not fit, the goodbye loop writes nothing. */
  lemma StoppedAtReport(feedback: seq<RtcpFb>, capacity: nat)
    requires Reports(feedback, capacity).left != [] && IsReport(Reports(feedback, capacity).left[0])
    ensures AllWellFormed(Reports(feedback, capacity).groups)
    ensures BuildBytes(feedback, capacity) == Flatten(Reports(feedback, capacity).groups)
    ensures Build(feedback, capacity).left == Reports(feedback, capacity).left
  {
    assert Goodbyes(feedback, capacity) == Outcome([], Reports(feedback, capacity).left);
    assert Build(feedback, capacity).groups == Reports(feedback, capacity).groups + [];
    assert Reports(feedback, capacity).groups + [] == Reports(feedback, capacity).groups;
  }

  /** The bytes built are the report packets' bytes followed by the goodbye packets' bytes. */
  lemma BuildJoins(feedback: seq<RtcpFb>, capacity: nat)
    ensures Sorted(Reports(feedback, capacity).left)
    ensures AllWellFormed(Reports(feedback, capacity).groups) && AllWellFormed(Goodbyes(feedback, capacity).groups)
    ensures BuildBytes(feedback, capacity) == Flatten(Reports(feedback, capacity).groups) + Flatten(Goodbyes(feedback, capacity).groups)
  {
    PassesSorted(feedback, capacity);
    FlattenConcat(Reports(feedback, capacity).groups, Goodbyes(feedback, capacity).groups);
  }
}
