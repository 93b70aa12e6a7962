/**
 * What `build_feedback` promises its caller, proved about `Build`, the
 * function the algorithm is proved to implement:
 *
 *  - nothing is lost or invented: every item of the queue is either
 *    written or left in the queue, and the items of each kind keep their
 *    order (the queue's contents are conserved);
 *  - only sender infos, receiver reports and goodbyes are written; every
 *    other kind stays queued, in order, for a later call;
 *  - what is left is sorted by `ord_no`;
 *  - the builder stops only when the head of what is left cannot be
 *    written or does not fit;
 *  - nothing is written exactly when the sorted head cannot be written or
 *    does not fit the buffer, and then the queue is only sorted;
 *  - SR/RR packets come before BYE packets, and the first packet is a
 *    report whenever the queue holds one (section 6.1 of RFC 3550, the
 *    rule the SRTCP gate of `RtcpHeader::parse` checks);
 *  - every packet starts at the sum of the lengths before it, and its
 *    header parses back to its type, count, length and sender SSRC.
 */
module Properties {
  import opened Wire
  import opened Seqs
  import Format
  import Header
  import opened Feedback
  import opened Compound

  // ---------------------------------------------------------------------
  // Conservation of the queue.
  // ---------------------------------------------------------------------

  /** The items of one packet, in the order they are written. */
  function GroupItems(g: Group): (r: seq<RtcpFb>)
    ensures r == Items([g])
  {
    assert [g][1..] == [];
    [g.first] + g.extra
  }

  /** One SR/RR packet takes its head and the first receiver reports after it, and leaves the rest in order. */
  lemma ReportStepConserves(q: seq<RtcpFb>, room: nat, k: nat)
    requires q != [] && IsReport(q[0]) && NeededLen(q[0]) <= room
    ensures Filter(q, k) == Filter(GroupItems(ReportStep(q, room).group), k) + Filter(ReportStep(q, room).rest, k)
  {
    var maxRr := Min(Min(Count(q[1..], 1), MaxCount), (room - NeededLen(q[0])) / RrLen);
    assert ReportStep(q, room).group.extra == PullReports(q[1..], maxRr).taken;
    assert ReportStep(q, room).rest == PullReports(q[1..], maxRr).rest;
    PullStepConserves(q[0], q[1..], maxRr, k);
  }

  /** Pulling `n` receiver reports splits each kind into the items pulled and the items left. */
  lemma PullSplits(rest: seq<RtcpFb>, n: nat, k: nat)
    requires n <= Count(rest, 1)
    ensures Filter(rest, k) == Filter(PullReports(rest, n).taken, k) + Filter(PullReports(rest, n).rest, k)
  {
    PullReportsTaken(rest, n);
    PullReportsSelects(rest, n, k);
    FilterUniform(Filter(rest, 1)[..n], 1, k);
    if k == 1 {
      TakeDrop(Filter(rest, 1), n);
    } else {
      EmptyFront(Filter(rest, k));
    }
  }

  /** The head, then `n` receiver reports pulled from the rest, then what is left: each kind in its order. */
  lemma PullStepConserves(x: RtcpFb, rest: seq<RtcpFb>, n: nat, k: nat)
    requires n <= Count(rest, 1)
    ensures Filter([x] + rest, k) == Filter([x] + PullReports(rest, n).taken, k) + Filter(PullReports(rest, n).rest, k)
  {
    PullSplits(rest, n, k);
    FilterConcat([x], rest, k);
    FilterConcat([x], PullReports(rest, n).taken, k);
  }

  /** A packet taken off the front, then the packets and the queue of the rest: each kind in its order. */
  lemma ConserveChain(q: seq<RtcpFb>, g: Group, rest: seq<RtcpFb>, gs: seq<Group>, left: seq<RtcpFb>, k: nat)
    requires Filter(q, k) == Filter(GroupItems(g), k) + Filter(rest, k)
    requires Filter(rest, k) == Filter(Items(gs), k) + Filter(left, k)
    ensures Filter(q, k) == Filter(Items([g] + gs), k) + Filter(left, k)
  {
    var a, b, c := Filter(GroupItems(g), k), Filter(Items(gs), k), Filter(left, k);
    ItemsConcat([g], gs);
    FilterConcat(GroupItems(g), Items(gs), k);
    assert Filter(Items([g] + gs), k) == a + b;
    Associative(a, b, c);
  }

  /** The SR/RR pass writes or leaves every item, and keeps each kind in order. */
  lemma {:induction false} ReportPassConserves(q: seq<RtcpFb>, room: nat, k: nat)
    ensures Filter(q, k) == Filter(Items(ReportPass(q, room).groups), k) + Filter(ReportPass(q, room).left, k)
    decreases |q|
  {
    if !(q == [] || !IsReport(q[0]) || room < NeededLen(q[0])) {
      ReportPassStep(q, room);
      ReportStepConserves(q, room, k);
      ReportPassConserves(ReportStep(q, room).rest, ReportStep(q, room).room, k);
      ConserveChain(q, ReportStep(q, room).group, ReportStep(q, room).rest,
                    ReportPass(ReportStep(q, room).rest, ReportStep(q, room).room).groups,
                    ReportPass(ReportStep(q, room).rest, ReportStep(q, room).room).left, k);
    }
  }

  /** One BYE packet takes the head and the items popped after it, and leaves the rest in order. */
  lemma GoodbyeStepConserves(q: seq<RtcpFb>, room: nat, k: nat)
    requires q != [] && q[0].Goodbye? && ByeNeeded <= room
    ensures Filter(q, k) == Filter(GroupItems(GoodbyeStep(q, room).group), k) + Filter(GoodbyeStep(q, room).rest, k)
  {
    var rest := q[1..];
    var m := |GoodbyeStep(q, room).group.extra|;
    assert q == ([q[0]] + rest[..m]) + rest[m..];
    FilterConcat([q[0]] + rest[..m], rest[m..], k);
  }

  /** The BYE pass writes or leaves every item, and keeps each kind in order. */
  lemma {:induction false} GoodbyePassConserves(q: seq<RtcpFb>, room: nat, k: nat)
    ensures Filter(q, k) == Filter(Items(GoodbyePass(q, room).groups), k) + Filter(GoodbyePass(q, room).left, k)
    decreases |q|
  {
    if !(q == [] || !q[0].Goodbye? || room < ByeNeeded) {
      GoodbyePassStep(q, room);
      GoodbyeStepConserves(q, room, k);
      GoodbyePassConserves(GoodbyeStep(q, room).rest, GoodbyeStep(q, room).room, k);
      ConserveChain(q, GoodbyeStep(q, room).group, GoodbyeStep(q, room).rest,
                    GoodbyePass(GoodbyeStep(q, room).rest, GoodbyeStep(q, room).room).groups,
                    GoodbyePass(GoodbyeStep(q, room).rest, GoodbyeStep(q, room).room).left, k);
    }
  }

  /**
   * The builder loses and invents nothing: for every kind, the items of
   * that kind in the queue are those written, in the order they are
   * written, followed by those left, in the order they are left.
   */
  lemma BuildConserves(feedback: seq<RtcpFb>, capacity: nat, k: nat)
    ensures Filter(feedback, k) == Filter(Items(Build(feedback, capacity).groups), k) + Filter(Build(feedback, capacity).left, k)
  {
    var reports, byes := Reports(feedback, capacity), Goodbyes(feedback, capacity);
    assert Build(feedback, capacity).groups == reports.groups + byes.groups;
    assert Build(feedback, capacity).left == byes.left;
    ReportsConserve(feedback, capacity, k);
    GoodbyePassConserves(reports.left, ByeRoom(feedback, capacity), k);
    ItemsConcat(reports.groups, byes.groups);
    FilterConcat(Items(reports.groups), Items(byes.groups), k);
    Associative(Filter(Items(reports.groups), k), Filter(Items(byes.groups), k), Filter(byes.left, k));
  }

  /** The first pass, over the sorted queue, conserves each kind of the unsorted queue. */
  lemma ReportsConserve(feedback: seq<RtcpFb>, capacity: nat, k: nat)
    ensures Filter(feedback, k) == Filter(Items(Reports(feedback, capacity).groups), k) + Filter(Reports(feedback, capacity).left, k)
  {
    SortByKeyIsStableSort(feedback);
    ReportPassConserves(SortByKey(feedback), capacity, k);
  }

  /** How often `x` occurs in `s` is how often it occurs among the items of its own key. */
  lemma {:induction false} OccursByKey(s: seq<RtcpFb>, x: RtcpFb)
    ensures multiset(s)[x] == multiset(Filter(s, OrdNo(x)))[x]
  {
    if s != [] {
      OccursByKey(s[1..], x);
      assert s == [s[0]] + s[1..];
      var head := if OrdNo(s[0]) == OrdNo(x) then [s[0]] else [];
      assert Filter(s, OrdNo(x)) == head + Filter(s[1..], OrdNo(x));
      assert multiset(Filter(s, OrdNo(x))) == multiset(head) + multiset(Filter(s[1..], OrdNo(x)));
    }
  }

  /** Sequences whose selections split key by key split as multisets too. */
  lemma SplitByKey(a: seq<RtcpFb>, b: seq<RtcpFb>, c: seq<RtcpFb>)
    requires forall k :: Filter(a, k) == Filter(b, k) + Filter(c, k)
    ensures multiset(a) == multiset(b) + multiset(c)
  {
    forall x ensures multiset(a)[x] == (multiset(b) + multiset(c))[x] {
      OccursByKey(a, x);
      OccursByKey(b, x);
      OccursByKey(c, x);
      assert multiset(Filter(a, OrdNo(x))) == multiset(Filter(b, OrdNo(x))) + multiset(Filter(c, OrdNo(x)));
    }
  }

  /** The items written and the items left are, together, exactly the items queued. */
  lemma BuildPermutes(feedback: seq<RtcpFb>, capacity: nat)
    ensures multiset(feedback) == multiset(Items(Build(feedback, capacity).groups)) + multiset(Build(feedback, capacity).left)
  {
    forall k ensures Filter(feedback, k) == Filter(Items(Build(feedback, capacity).groups), k) + Filter(Build(feedback, capacity).left, k) {
      BuildConserves(feedback, capacity, k);
    }
    SplitByKey(feedback, Items(Build(feedback, capacity).groups), Build(feedback, capacity).left);
  }

  // ---------------------------------------------------------------------
  // What is written, and what is left.
  // ---------------------------------------------------------------------

  /** Every item a run of well-formed packets carries is a report or a goodbye. */
  lemma {:induction false} ItemsEncodable(gs: seq<Group>)
    requires AllWellFormed(gs)
    ensures forall i :: 0 <= i < |Items(gs)| ==> Encodable(Items(gs)[i])
  {
    if gs != [] {
      ItemsEncodable(gs[1..]);
      var head := [gs[0].first] + gs[0].extra;
      assert Items(gs) == head + Items(gs[1..]);
      assert forall i :: 0 <= i < |head| ==> Encodable(head[i]);
    }
  }

  /**
   * Only sender infos, receiver reports and goodbyes are written; the
   * kinds `RtcpFb::write_to` cannot write (SDES, NACK, PLI, FIR) all stay
   * in the queue, in their order.
   */
  lemma BuildKeepsOthers(feedback: seq<RtcpFb>, capacity: nat, k: nat)
    requires 3 <= k
    ensures forall i :: 0 <= i < |Items(Build(feedback, capacity).groups)| ==> Encodable(Items(Build(feedback, capacity).groups)[i])
    ensures Filter(Build(feedback, capacity).left, k) == Filter(feedback, k)
  {
    BuildWellFormed(feedback, capacity);
    ItemsEncodable(Build(feedback, capacity).groups);
    FilterNone(Items(Build(feedback, capacity).groups), k);
    BuildConserves(feedback, capacity, k);
    EmptyFront(Filter(Build(feedback, capacity).left, k));
  }

  /** What the builder leaves in the queue is sorted by `ord_no`. */
  lemma BuildLeftSorted(feedback: seq<RtcpFb>, capacity: nat)
    ensures Sorted(Build(feedback, capacity).left)
  {
    PassesSorted(feedback, capacity);
    GoodbyePassSorted(Reports(feedback, capacity).left, ByeRoom(feedback, capacity));
  }

  // ---------------------------------------------------------------------
  // When the builder stops.
  // ---------------------------------------------------------------------

  lemma TotalLengthCons(g: Group, gs: seq<Group>)
    ensures TotalLength([g] + gs) == GroupLength(g) + TotalLength(gs)
  {
    assert ([g] + gs)[1..] == gs;
  }

  /** The SR/RR pass ends on an empty queue, a head that is not a report, or a head whose packet does not fit. */
  lemma {:induction false} ReportPassStops(q: seq<RtcpFb>, room: nat)
    ensures || ReportPass(q, room).left == []
            || !IsReport(ReportPass(q, room).left[0])
            || room - TotalLength(ReportPass(q, room).groups) < NeededLen(ReportPass(q, room).left[0])
    decreases |q|
  {
    if !(q == [] || !IsReport(q[0]) || room < NeededLen(q[0])) {
      ReportPassStep(q, room);
      ReportPassStops(ReportStep(q, room).rest, ReportStep(q, room).room);
      TotalLengthCons(ReportStep(q, room).group, ReportPass(ReportStep(q, room).rest, ReportStep(q, room).room).groups);
    }
  }

  /** The BYE pass ends on an empty queue, a head that is not a goodbye, or fewer than 8 bytes left. */
  lemma {:induction false} GoodbyePassStops(q: seq<RtcpFb>, room: nat)
    ensures || GoodbyePass(q, room).left == []
            || !GoodbyePass(q, room).left[0].Goodbye?
            || room - TotalLength(GoodbyePass(q, room).groups) < ByeNeeded
    decreases |q|
  {
    if !(q == [] || !q[0].Goodbye? || room < ByeNeeded) {
      GoodbyePassStep(q, room);
      GoodbyePassStops(GoodbyeStep(q, room).rest, GoodbyeStep(q, room).room);
      TotalLengthCons(GoodbyeStep(q, room).group, GoodbyePass(GoodbyeStep(q, room).rest, GoodbyeStep(q, room).room).groups);
    }
  }

  /** The BYE pass only removes items from the front, so a lower bound on the keys survives it. */
  lemma {:induction false} GoodbyePassAtLeast(q: seq<RtcpFb>, room: nat, lo: nat)
    requires AllAtLeast(q, lo)
    ensures AllAtLeast(GoodbyePass(q, room).left, lo)
    decreases |q|
  {
    if !(q == [] || !q[0].Goodbye? || room < ByeNeeded) {
      var m := |GoodbyeStep(q, room).group.extra|;
      assert GoodbyeStep(q, room).rest == q[1 + m..];
      assert AllAtLeast(GoodbyeStep(q, room).rest, lo);
      GoodbyePassAtLeast(GoodbyeStep(q, room).rest, GoodbyeStep(q, room).room, lo);
      GoodbyePassStep(q, room);
    }
  }

  /**
   * The builder stops only when it must: what it leaves is empty, or led
   * by an item it cannot write, or led by one whose packet does not fit in
   * the room the packets written leave.
   */
  lemma BuildStops(feedback: seq<RtcpFb>, capacity: nat)
    ensures || Build(feedback, capacity).left == []
            || !Encodable(Build(feedback, capacity).left[0])
            || capacity - TotalLength(Build(feedback, capacity).groups) < NeededLen(Build(feedback, capacity).left[0])
  {
    var left1 := Reports(feedback, capacity).left;
    ReportPassStops(SortByKey(feedback), capacity);
    TotalLengthConcat(Reports(feedback, capacity).groups, Goodbyes(feedback, capacity).groups);
    if left1 != [] && IsReport(left1[0]) {
      assert Goodbyes(feedback, capacity) == Outcome([], left1);
    } else {
      PassesSorted(feedback, capacity);
      if left1 != [] {
        SortedTail(left1, OrdNo(left1[0]));
      }
      assert AllAtLeast(left1, 2);
      GoodbyePassAtLeast(left1, ByeRoom(feedback, capacity), 2);
      GoodbyePassStops(left1, ByeRoom(feedback, capacity));
    }
  }

  /**
   * Nothing is written exactly when the sorted queue is empty, or led by
   * an item the builder cannot write, or led by one whose packet does not
   * fit in the buffer; the queue is then only sorted.
   */
  lemma BuildWritesNothing(feedback: seq<RtcpFb>, capacity: nat)
    ensures Build(feedback, capacity).groups == [] <==>
              || SortByKey(feedback) == []
              || !Encodable(SortByKey(feedback)[0])
              || capacity < NeededLen(SortByKey(feedback)[0])
    ensures Build(feedback, capacity).groups == [] ==> Build(feedback, capacity).left == SortByKey(feedback)
  {
    var s := SortByKey(feedback);
    if s != [] && IsReport(s[0]) && NeededLen(s[0]) <= capacity {
      ReportPassStep(s, capacity);
    } else {
      assert Reports(feedback, capacity) == Outcome([], s);
      if s != [] && s[0].Goodbye? && ByeNeeded <= capacity {
        GoodbyePassStep(s, capacity);
      } else {
        assert Goodbyes(feedback, capacity) == Outcome([], s);
      }
    }
  }

  // ---------------------------------------------------------------------
  // The order of the packets.
  // ---------------------------------------------------------------------

  /** SR/RR packets come before BYE packets. */
  lemma BuildReportsFirst(feedback: seq<RtcpFb>, capacity: nat)
    ensures forall i, j :: 0 <= i < j < |Build(feedback, capacity).groups| && IsReport(Build(feedback, capacity).groups[j].first)
              ==> IsReport(Build(feedback, capacity).groups[i].first)
  {
    PassesSorted(feedback, capacity);
    var reports, byes := Reports(feedback, capacity).groups, Goodbyes(feedback, capacity).groups;
    var gs := Build(feedback, capacity).groups;
    forall i, j | 0 <= i < j < |gs| && IsReport(gs[j].first) ensures IsReport(gs[i].first) {
      InReports(reports, byes, j);
      assert gs[i] == reports[i];
    }
  }

  /** A report-led packet among SR/RR packets followed by BYE packets is one of the SR/RR packets. */
  lemma InReports(reports: seq<Group>, byes: seq<Group>, j: nat)
    requires forall i :: 0 <= i < |byes| ==> GoodbyeGroup(byes[i])
    requires j < |reports + byes| && IsReport((reports + byes)[j].first)
    ensures j < |reports|
  {
  }

  /** Whenever something is written, the first packet is led by the head of the sorted queue. */
  lemma BuildFirst(feedback: seq<RtcpFb>, capacity: nat)
    ensures Build(feedback, capacity).groups != [] ==> Build(feedback, capacity).groups[0].first == SortByKey(feedback)[0]
  {
    var s := SortByKey(feedback);
    if s != [] && IsReport(s[0]) && NeededLen(s[0]) <= capacity {
      ReportPassStep(s, capacity);
    } else {
      assert Reports(feedback, capacity) == Outcome([], s);
      if s != [] && s[0].Goodbye? && ByeNeeded <= capacity {
        GoodbyePassStep(s, capacity);
      } else {
        assert Goodbyes(feedback, capacity) == Outcome([], s);
      }
    }
  }

  /** A sorted sequence holding a report is led by a report. */
  lemma SortedLedByReport(s: seq<RtcpFb>, x: RtcpFb)
    requires Sorted(s) && x in s && IsReport(x)
    ensures IsReport(s[0])
  {
    var j :| 0 <= j < |s| && s[j] == x;
    if j > 0 {
      assert OrdNo(s[0]) <= OrdNo(s[j]);
    }
  }

  /**
   * When the queue holds a sender info or a receiver report, the first
   * packet written is an SR or RR packet: the compound packet starts the
   * way section 6.1 of RFC 3550 demands and the SRTCP check of
   * `RtcpHeader::parse` admits.
   */
  lemma BuildStartsWithReport(feedback: seq<RtcpFb>, capacity: nat)
    requires exists i :: 0 <= i < |feedback| && IsReport(feedback[i])
    ensures Build(feedback, capacity).groups != [] ==> IsReport(Build(feedback, capacity).groups[0].first)
  {
    var i :| 0 <= i < |feedback| && IsReport(feedback[i]);
    SortByKeyIsStableSort(feedback);
    assert feedback[i] in multiset(SortByKey(feedback));
    SortedLedByReport(SortByKey(feedback), feedback[i]);
    BuildFirst(feedback, capacity);
  }

  // ---------------------------------------------------------------------
  // Reading the packets back.
  // ---------------------------------------------------------------------

  /** The packet type a packet led by `fb` travels under. */
  function PacketType(fb: RtcpFb): Header.RtcpType
  {
    if fb.SenderInfo? then Header.SenderReport
    else if fb.ReceiverReport? then Header.ReceiverReport
    else Header.Goodbye
  }

  /** A packet's length is a multiple of 4 from 8 up to 776 bytes. */
  lemma GroupLengthBounds(g: Group)
    requires WellFormed(g)
    ensures GroupLength(g) % 4 == 0 && 8 <= GroupLength(g) <= 776
  {
    var n := |g.extra|;
    if IsReport(g.first) {
      assert n * RrLen == (n * 6) * 4 <= 31 * 24;
    } else {
      assert n * 4 <= 31 * 4;
    }
  }

  /**
   * The bytes of a packet whose header carries `count`: the header
   * `as_header` builds for the leading item, the leading item and the
   * added items.
   */
  function PacketBytes(g: Group, count: Byte): (r: seq<Byte>)
    requires WellFormed(g)
    ensures |r| == GroupLength(g)
  {
    GroupLengthBounds(g);
    EncodeAllLength(g.extra, SlotLen(g.first));
    Header.HeaderBytes(AsHeader(g.first, count, GroupLength(g))) + Encode(g.first) + EncodeAll(g.extra)
  }

  /**
   * A packet whose count fits in five bits parses back, whatever follows
   * it: version 2, no padding, the packet's type, that count, the packet's
   * length and its sender SSRC (zero in an RR packet, whose sender field is
   * unused; the leading item's own SSRC otherwise). An SR/RR packet also
   * passes the SRTCP check.
   */
  lemma PacketParses(g: Group, count: Byte, tail: seq<Byte>, isSrtcp: bool)
    requires WellFormed(g) && count <= MaxCount
    requires isSrtcp ==> IsReport(g.first)
    ensures Header.Parse(PacketBytes(g, count) + tail, isSrtcp)
         == Some(Header.RtcpHeader(2, false,
                                   if IsReport(g.first) then Format.ReceptionReport(count) else Format.SourceCount(count),
                                   PacketType(g.first),
                                   GroupLength(g),
                                   if g.first.ReceiverReport? then 0 else Ssrc(g.first)))
  {
    GroupLengthBounds(g);
    var h := AsHeader(g.first, count, GroupLength(g));
    var body := Encode(g.first) + (EncodeAll(g.extra) + tail);
    Associative(Header.HeaderBytes(h) + Encode(g.first), EncodeAll(g.extra), tail);
    Associative(Header.HeaderBytes(h), Encode(g.first), EncodeAll(g.extra) + tail);
    assert h.packetType == PacketType(g.first);
    Header.HeaderRoundTrip(h, body, isSrtcp);
    if g.first.ReceiverReport? {
      assert Header.Len(h) == 8 && h.ssrc == 0;
    } else {
      assert Header.Len(h) == 4;
      assert body[..4] == Encode(g.first)[..4] == U32ToBe(Ssrc(g.first));
      U32RoundTrip(Ssrc(g.first));
    }
  }

  /** What the builder writes for a packet whose count fits in five bits parses back to that count. */
  lemma GroupParses(g: Group, tail: seq<Byte>, isSrtcp: bool)
    requires WellFormed(g) && CountField(g) <= MaxCount
    requires isSrtcp ==> IsReport(g.first)
    ensures Header.Parse(GroupBytes(g) + tail, isSrtcp)
         == Some(Header.RtcpHeader(2, false,
                                   if IsReport(g.first) then Format.ReceptionReport(CountField(g)) else Format.SourceCount(CountField(g)),
                                   PacketType(g.first),
                                   GroupLength(g),
                                   if g.first.ReceiverReport? then 0 else Ssrc(g.first)))
  {
    assert GroupHeader(g) == AsHeader(g.first, CountField(g), GroupLength(g)) by {
      assert CountField(g) % 0x100 == CountField(g);
    }
    assert GroupBytes(g) == PacketBytes(g, CountField(g));
    PacketParses(g, CountField(g), tail, isSrtcp);
  }

  /** The bytes of a single packet. */
  lemma FlattenSingle(g: Group)
    requires WellFormed(g)
    ensures AllWellFormed([g]) && Flatten([g]) == GroupBytes(g) + []
  {
    assert [g][1..] == [];
  }

  /** A run of packets is the packets before the `i`-th, the `i`-th, and the packets after it. */
  lemma FlattenAt(gs: seq<Group>, i: nat)
    requires AllWellFormed(gs) && i < |gs|
    ensures AllWellFormed(gs[..i]) && AllWellFormed(gs[i + 1..])
    ensures Flatten(gs) == Flatten(gs[..i]) + GroupBytes(gs[i]) + Flatten(gs[i + 1..])
    ensures |Flatten(gs[..i])| == TotalLength(gs[..i])
  {
    var front, rest := gs[..i], gs[i + 1..];
    SplitAt(gs, i);
    assert AllWellFormed(front) && AllWellFormed([gs[i]] + rest) && AllWellFormed(rest);
    FlattenConcat(front, [gs[i]] + rest);
    Cons(gs[i], rest);
    Associative(Flatten(front), GroupBytes(gs[i]), Flatten(rest));
    FlattenLength(front);
  }

  /**
   * The header of an RR packet with 31 added reports, count 32, still
   * parses: with the padding bit set, a count of 0, and its own length.
   */
  lemma SpilledHeader(g: Group, tail: seq<Byte>)
    requires ReportGroup(g) && g.first.ReceiverReport? && |g.extra| == MaxCount
    ensures Header.Parse(GroupBytes(g) + tail, false).Some?
    ensures Header.Parse(GroupBytes(g) + tail, false).value.hasPadding
    ensures Header.Parse(GroupBytes(g) + tail, false).value.fmt == Format.ReceptionReport(0)
    ensures Header.Parse(GroupBytes(g) + tail, false).value.length == GroupLength(g)
  {
    var bytes := GroupBytes(g) + tail;
    var length := GroupLength(g);
    assert length % 4 == 0 && 4 <= length <= 65532 by { GroupLengthBounds(g); }
    assert && |bytes| >= 8 && bytes[0] == 160 && bytes[1] == 201
           && bytes[2] == U16ToBe(length / 4 - 1)[0] && bytes[3] == U16ToBe(length / 4 - 1)[1]
      by { SpilledBytes(g, tail); }
    assert Header.VersionBits(bytes[0]) == 2 && Header.PaddingBit(bytes[0]) && Header.FmtBits(bytes[0]) == 0;
    assert Header.FromU8(bytes[1]) == Some(Header.ReceiverReport);
    assert Header.DecodeLength(bytes[2], bytes[3]) as nat == length by { Header.LengthFieldRoundTrip(length); }
    assert Header.Parse(bytes, false)
        == Some(Header.RtcpHeader(2, true, Format.ReceptionReport(0), Header.ReceiverReport, length, BeToU32(bytes[4..8])))
      by { Header.ParseFields(bytes, false, Header.ReceiverReport, Format.ReceptionReport(0)); }
  }

  /** The first four bytes of the count-32 RR packet: 0x80 OR 32, the RR code, and the length field. */
  lemma SpilledBytes(g: Group, tail: seq<Byte>)
    requires ReportGroup(g) && g.first.ReceiverReport? && |g.extra| == MaxCount
    ensures |GroupBytes(g) + tail| >= 8
    ensures (GroupBytes(g) + tail)[0] == 160 && (GroupBytes(g) + tail)[1] == 201
    ensures (GroupBytes(g) + tail)[2] == U16ToBe(GroupLength(g) / 4 - 1)[0]
    ensures (GroupBytes(g) + tail)[3] == U16ToBe(GroupLength(g) / 4 - 1)[1]
  {
    var h := GroupHeader(g);
    assert h.length % 4 == 0 && 4 <= h.length <= 65532 by { GroupLengthBounds(g); }
    assert h.fmt == Format.ReceptionReport(32) && h.packetType == Header.ReceiverReport;
    var head := Header.HeaderBytes(h);
    assert && head[0] == Header.OrHighBit(Format.FmtToU8(h.fmt)) && head[1] == Header.Code(h.packetType)
           && head[2] == U16ToBe(h.length / 4 - 1)[0] && head[3] == U16ToBe(h.length / 4 - 1)[1]
      by { Header.HeaderBytesFields(h); }
    assert (GroupBytes(g) + tail)[..4] == head[..4];
  }

  /** Every packet the builder writes parses, whatever follows it, and the parsed length is the packet's. */
  lemma PacketLength(g: Group, tail: seq<Byte>)
    requires WellFormed(g)
    ensures Header.Parse(GroupBytes(g) + tail, false).Some?
    ensures Header.Parse(GroupBytes(g) + tail, false).value.length == GroupLength(g)
  {
    if CountField(g) <= MaxCount {
      GroupParses(g, tail, false);
    } else {
      SpilledHeader(g, tail);
    }
  }

  /**
   * The `i`-th packet starts where the packets before it end, and a reader
   * that parses the header there finds that packet's length, so stepping
   * by the lengths visits the packets in order.
   */
  lemma BuildPacketAt(feedback: seq<RtcpFb>, capacity: nat, i: nat)
    requires i < |Build(feedback, capacity).groups|
    ensures WellFormed(Build(feedback, capacity).groups[i])
    ensures TotalLength(Build(feedback, capacity).groups[..i]) + GroupLength(Build(feedback, capacity).groups[i]) <= |BuildBytes(feedback, capacity)|
    ensures BuildBytes(feedback, capacity)[TotalLength(Build(feedback, capacity).groups[..i])..][..GroupLength(Build(feedback, capacity).groups[i])]
         == GroupBytes(Build(feedback, capacity).groups[i])
    ensures Header.Parse(BuildBytes(feedback, capacity)[TotalLength(Build(feedback, capacity).groups[..i])..], false).Some?
    ensures Header.Parse(BuildBytes(feedback, capacity)[TotalLength(Build(feedback, capacity).groups[..i])..], false).value.length
         == GroupLength(Build(feedback, capacity).groups[i])
  {
    var gs := Build(feedback, capacity).groups;
    BuildWellFormed(feedback, capacity);
    FlattenAt(gs, i);
    var front, tail := Flatten(gs[..i]), Flatten(gs[i + 1..]);
    Associative(front, GroupBytes(gs[i]), tail);
    Halves(front, GroupBytes(gs[i]) + tail);
    Halves(GroupBytes(gs[i]), tail);
    PacketLength(gs[i], tail);
  }
}
