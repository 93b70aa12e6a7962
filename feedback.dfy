/**
 * `RtcpFb`: the feedback items the session layer exchanges, their sort key,
 * their SSRC, the header each kind travels under, and the writers for the
 * kinds the compound builder knows how to encode.
 *
 * The bodies of sender and receiver reports (sr.rs, rr.rs) are not part of
 * this model: each is a 24-byte record whose first four bytes are its SSRC,
 * and the other 20 bytes are opaque. SDES chunks and NACK entries (sdes.rs,
 * nack.rs) are opaque as well.
 */
module Feedback {
  import opened Wire
  import Format
  import Header

  /** The 20 bytes of a report body that follow its SSRC, as sr.rs / rr.rs write them. */
  type ReportFields = s: seq<Byte> | |s| == 20
    witness [0, 0, 0, 0, 0, 0, 0, 0, 0, 0, 0, 0, 0, 0, 0, 0, 0, 0, 0, 0]

  /** `SenderInfo` / `ReceiverReport`: an SSRC and the rest of a 24-byte record. */
  datatype ReportBody = ReportBody(ssrc: U32, fields: ReportFields)

  /** `Sdes` / `Nack`: an SSRC and an opaque payload. */
  datatype OpaqueBody = OpaqueBody(ssrc: U32, payload: seq<Byte>)

  /** `RtcpFb`. */
  datatype RtcpFb =
    | SenderInfo(sr: ReportBody)
    | ReceiverReport(rr: ReportBody)
    | Sdes(sdes: OpaqueBody)
    | Goodbye(bye: U32)
    | Nack(nack: OpaqueBody)
    | Pli(pli: U32)
    | Fir(fir: U32)

  /** `SR_LEN` and `RR_LEN`: the length of a report body. */
  const SrLen: nat := 6 * 4
  const RrLen: nat := 6 * 4

  /** The items that lead or fill an SR/RR group. */
  predicate IsReport(fb: RtcpFb)
  {
    fb.SenderInfo? || fb.ReceiverReport?
  }

  /** The items `RtcpFb::write_to` can write; the others are `todo!()` there. */
  predicate Encodable(fb: RtcpFb)
  {
    IsReport(fb) || fb.Goodbye?
  }

  /**
   * `RtcpFb::ord_no`: the sort key. Reports come first, then goodbyes, and
   * the kinds the builder cannot write sort after every kind it can.
   */
  function OrdNo(fb: RtcpFb): (k: nat)
    ensures k <= 6
    ensures k <= 1 <==> IsReport(fb)
    ensures k <= 2 <==> Encodable(fb)
  {
    match fb
    case SenderInfo(_) => 0
    case ReceiverReport(_) => 1
    case Goodbye(_) => 2
    case Sdes(_) => 3
    case Nack(_) => 4
    case Pli(_) => 5
    case Fir(_) => 6
  }

  /** The byte length of an item's encoding. */
  function BodyLen(fb: RtcpFb): (n: nat)
    requires Encodable(fb)
  {
    if IsReport(fb) then SrLen else 4
  }

  /**
   * The bytes `RtcpFb::write_to` writes: a report body is its SSRC and its
   * 20 opaque bytes, a goodbye is its SSRC (`Ssrc::write_to`).
   */
  function Encode(fb: RtcpFb): (r: seq<Byte>)
    requires Encodable(fb)
    ensures |r| == BodyLen(fb)
  {
    match fb
    case SenderInfo(v) => U32ToBe(v.ssrc) + v.fields
    case ReceiverReport(v) => U32ToBe(v.ssrc) + v.fields
    case Goodbye(v) => U32ToBe(v)
  }

  /**
   * `RtcpFb::ssrc`. For every item the builder writes, it is what the first
   * four bytes of the item's encoding hold.
   */
  function Ssrc(fb: RtcpFb): (s: U32)
    ensures Encodable(fb) ==> Encode(fb)[..4] == U32ToBe(s)
  {
    match fb
    case SenderInfo(v) => v.ssrc
    case ReceiverReport(v) => v.ssrc
    case Sdes(v) => v.ssrc
    case Goodbye(v) => v
    case Nack(v) => v.ssrc
    case Pli(v) => v
    case Fir(v) => v
  }

  /**
   * `RtcpFb::as_header`: the header an item's packet travels under. The
   * format field has the shape its packet type decodes to, a count goes
   * into it unchanged, and the SSRC field is the sender's for an SR and zero
   * otherwise, so an 8-byte header always carries a zero "sender" SSRC.
   */
  function AsHeader(fb: RtcpFb, count: Byte, length: nat): (h: Header.RtcpHeader)
    ensures h.version == 2 && !h.hasPadding && h.length == length
    ensures Header.FmtMatches(h.packetType, h.fmt)
    ensures IsReport(fb) ==> h.fmt == Format.ReceptionReport(count)
    ensures (fb.Sdes? || fb.Goodbye?) ==> h.fmt == Format.SourceCount(count)
    ensures Header.Len(h) == 8 ==> h.ssrc == 0
    ensures Header.Len(h) == 4 <==> fb.SenderInfo? || fb.Sdes? || fb.Goodbye?
    ensures IsReport(fb) <==> h.packetType in {Header.SenderReport, Header.ReceiverReport}
  {
    var (fmt, packetType, ssrc) :=
      match fb
      case SenderInfo(v) => (Format.ReceptionReport(count), Header.SenderReport, v.ssrc)
      case ReceiverReport(_) => (Format.ReceptionReport(count), Header.ReceiverReport, 0)
      case Sdes(_) => (Format.SourceCount(count), Header.SourceDescription, 0)
      case Goodbye(_) => (Format.SourceCount(count), Header.Goodbye, 0)
      case Nack(_) => (Format.TransportFeedback(Format.Nack), Header.TransportLayerFeedback, 0)
      case Pli(_) => (Format.PayloadFeedback(Format.PictureLossIndication), Header.PayloadSpecificFeedback, 0)
      case Fir(_) => (Format.PayloadFeedback(Format.FullIntraRequest), Header.PayloadSpecificFeedback, 0);
    Header.RtcpHeader(2, false, fmt, packetType, length, ssrc)
  }

  /** `Ssrc::write_to`: the SSRC big-endian into `buf[off..off + 4]`. */
  method WriteSsrc(ssrc: U32, buf: array<Byte>, off: nat)
    requires off + 4 <= buf.Length
    modifies buf
    ensures buf[..] == Overwrite(old(buf[..]), off, U32ToBe(ssrc))
  {
    WriteBytes(buf, off, U32ToBe(ssrc));
  }

  /**
   * `RtcpFb::write_to` at offset `off`. The SDES, NACK, PLI and FIR arms
   * are `todo!()` in the source; here they are excluded by the
   * precondition, which the builder is proved to meet.
   */
  method WriteItem(fb: RtcpFb, buf: array<Byte>, off: nat)
    requires Encodable(fb)
    requires off + BodyLen(fb) <= buf.Length
    modifies buf
    ensures buf[..] == Overwrite(old(buf[..]), off, Encode(fb))
  {
    match fb
    case SenderInfo(v) => WriteBytes(buf, off, U32ToBe(v.ssrc) + v.fields);
    case ReceiverReport(v) => WriteBytes(buf, off, U32ToBe(v.ssrc) + v.fields);
    case Goodbye(v) => WriteSsrc(v, buf, off);
  }

  // ---------------------------------------------------------------------
  // Selecting items by sort key, and the stable sort `sort_by_key(ord_no)`.
  // ---------------------------------------------------------------------

  /** The items of `s` whose sort key is `k`, in their order in `s`. */
  function Filter(s: seq<RtcpFb>, k: nat): (r: seq<RtcpFb>)
    ensures |r| <= |s|
    ensures forall i :: 0 <= i < |r| ==> OrdNo(r[i]) == k
  {
    if s == [] then []
    else (if OrdNo(s[0]) == k then [s[0]] else []) + Filter(s[1..], k)
  }

  /** `iter().filter(..).count()`: how many items of `s` have sort key `k`. */
  function Count(s: seq<RtcpFb>, k: nat): (n: nat)
    ensures n <= |s|
  {
    |Filter(s, k)|
  }

  /** Selecting from a concatenation selects from each part. */
  lemma {:induction false} FilterConcat(a: seq<RtcpFb>, b: seq<RtcpFb>, k: nat)
    ensures Filter(a + b, k) == Filter(a, k) + Filter(b, k)
  {
    if a == [] {
      assert a + b == b;
    } else {
      assert (a + b)[1..] == a[1..] + b;
      FilterConcat(a[1..], b, k);
    }
  }

  /** A sequence of items that all have key `k` is its own selection for `k`, and selecting any other key gives nothing. */
  lemma {:induction false} FilterUniform(s: seq<RtcpFb>, k: nat, j: nat)
    requires forall i :: 0 <= i < |s| ==> OrdNo(s[i]) == k
    ensures Filter(s, j) == if j == k then s else []
  {
    if s != [] {
      FilterUniform(s[1..], k, j);
    }
  }

  /** `iter().position(..)`: the index of the first item with key `k`. */
  function FirstPos(s: seq<RtcpFb>, k: nat): (p: nat)
    requires Count(s, k) > 0
    ensures p < |s| && OrdNo(s[p]) == k
    ensures forall j :: 0 <= j < p ==> OrdNo(s[j]) != k
  {
    if OrdNo(s[0]) == k then 0 else 1 + FirstPos(s[1..], k)
  }

  /**
   * Removing the first item with key `k` (`VecDeque::remove` at its
   * position) removes the head of the `k` selection and nothing else.
   */
  lemma RemoveFirst(s: seq<RtcpFb>, k: nat, j: nat)
    requires Count(s, k) > 0
    ensures var p := FirstPos(s, k);
            && s[p] == Filter(s, k)[0]
            && Filter(s[..p] + s[p + 1..], j) == if j == k then Filter(s, k)[1..] else Filter(s, j)
  {
    var p := FirstPos(s, k);
    var a, x, b := s[..p], s[p], s[p + 1..];
    assert s == a + ([x] + b);
    FilterNone(a, k);
    FilterConcat(a, [x] + b, k);
    FilterConcat([x], b, k);
    assert Filter([x], k) == [x];
    assert s[..p] + s[p + 1..] == a + b;
    if j != k {
      RemoveOther(a, x, b, j);
    } else {
      FilterConcat(a, b, k);
      assert Filter(s, k) == [x] + Filter(b, k);
    }
  }

  /** Removing an item leaves the selections of the other keys as they were. */
  lemma RemoveOther(a: seq<RtcpFb>, x: RtcpFb, b: seq<RtcpFb>, j: nat)
    requires OrdNo(x) != j
    ensures Filter(a + b, j) == Filter(a + ([x] + b), j)
  {
    FilterConcat(a, [x] + b, j);
    FilterConcat(a, b, j);
    FilterConcat([x], b, j);
    assert Filter([x], j) == [];
  }

  /** A non-empty sequence holds an item of the key of its first item. */
  lemma FilterFirst(s: seq<RtcpFb>)
    requires s != []
    ensures Count(s, OrdNo(s[0])) > 0
  {
  }

  /** No item of `s` has key `k`: the selection is empty. */
  lemma {:induction false} FilterNone(s: seq<RtcpFb>, k: nat)
    requires forall i :: 0 <= i < |s| ==> OrdNo(s[i]) != k
    ensures Filter(s, k) == []
  {
    if s != [] {
      FilterNone(s[1..], k);
    }
  }

  /** Sorted by sort key. */
  ghost predicate Sorted(s: seq<RtcpFb>)
  {
    forall i, j {:trigger OrdNo(s[i]), OrdNo(s[j])} :: 0 <= i < j < |s| ==> OrdNo(s[i]) <= OrdNo(s[j])
  }

  /** Every item of `s` has a key of at least `lo`. */
  ghost predicate AllAtLeast(s: seq<RtcpFb>, lo: nat)
  {
    forall i :: 0 <= i < |s| ==> lo <= OrdNo(s[i])
  }

  /** A suffix of a sorted sequence is sorted. */
  lemma SortedSuffix(s: seq<RtcpFb>, n: nat)
    requires Sorted(s) && n <= |s|
    ensures Sorted(s[n..])
  {
    assert forall i :: 0 <= i < |s| - n ==> s[n..][i] == s[n + i];
  }

  /** Inserts `x` before the first item whose key is not below its own. */
  function Insert(x: RtcpFb, t: seq<RtcpFb>): (r: seq<RtcpFb>)
    ensures |r| == |t| + 1
    ensures multiset(r) == multiset(t) + multiset{x}
  {
    if t == [] || OrdNo(x) <= OrdNo(t[0]) then [x] + t
    else
      assert t == [t[0]] + t[1..];
      [t[0]] + Insert(x, t[1..])
  }

  /**
   * The stable sort `sort_by_key(RtcpFb::ord_no)`, written as an insertion
   * sort (the standard library's algorithm is not part of this model; only
   * the result of a stable sort matters).
   */
  function SortByKey(s: seq<RtcpFb>): (r: seq<RtcpFb>)
    ensures |r| == |s|
  {
    if s == [] then [] else Insert(s[0], SortByKey(s[1..]))
  }

  /** A lower bound on the keys survives an insert. */
  lemma {:induction false} InsertAtLeast(x: RtcpFb, t: seq<RtcpFb>, lo: nat)
    requires lo <= OrdNo(x) && AllAtLeast(t, lo)
    ensures AllAtLeast(Insert(x, t), lo)
  {
    if t == [] || OrdNo(x) <= OrdNo(t[0]) {
    } else {
      InsertAtLeast(x, t[1..], lo);
    }
  }

  /** Inserting into a sorted sequence keeps it sorted. */
  lemma {:induction false} InsertSorted(x: RtcpFb, t: seq<RtcpFb>)
    requires Sorted(t)
    ensures Sorted(Insert(x, t))
  {
    if t == [] || OrdNo(x) <= OrdNo(t[0]) {
      var r := [x] + t;
      assert r[1..] == t;
    } else {
      SortedSuffix(t, 1);
      InsertSorted(x, t[1..]);
      InsertAtLeast(x, t[1..], OrdNo(t[0]));
      ConsSorted(t[0], Insert(x, t[1..]));
    }
  }

  /** An item put in front of a sorted sequence whose keys are at least its own keeps it sorted. */
  lemma ConsSorted(y: RtcpFb, rest: seq<RtcpFb>)
    requires Sorted(rest) && AllAtLeast(rest, OrdNo(y))
    ensures Sorted([y] + rest)
  {
    var r := [y] + rest;
    forall i, j | 0 <= i < j < |r| ensures OrdNo(r[i]) <= OrdNo(r[j]) {
      if i > 0 {
        assert r[i] == rest[i - 1] && r[j] == rest[j - 1];
      } else {
        assert r[j] == rest[j - 1];
      }
    }
  }

  /** Inserting into a sorted sequence puts `x` in front of the other items of its key. */
  lemma {:induction false} InsertFilter(x: RtcpFb, t: seq<RtcpFb>, k: nat)
    requires Sorted(t)
    ensures Filter(Insert(x, t), k) == (if OrdNo(x) == k then [x] else []) + Filter(t, k)
  {
    if t == [] || OrdNo(x) <= OrdNo(t[0]) {
      var r := [x] + t;
      assert r[1..] == t;
    } else {
      var rest := Insert(x, t[1..]);
      assert Filter(rest, k) == (if OrdNo(x) == k then [x] else []) + Filter(t[1..], k)
        by { SortedSuffix(t, 1); InsertFilter(x, t[1..], k); }
      var r := [t[0]] + rest;
      assert Insert(x, t) == r;
      assert r[1..] == rest;
      if OrdNo(t[0]) == k {
        // Then `x`, whose key is larger, is not selected.
        assert Filter(r, k) == [t[0]] + Filter(t[1..], k);
        assert Filter(t, k) == [t[0]] + Filter(t[1..], k);
      } else {
        assert Filter(r, k) == Filter(rest, k);
        assert Filter(t, k) == Filter(t[1..], k);
      }
    }
  }

  /**
   * `SortByKey` is a stable sort: its result is sorted by key, is a
   * permutation of its input, and keeps the items of each key in their
   * input order.
   */
  lemma {:induction false} SortByKeyIsStableSort(s: seq<RtcpFb>)
    ensures Sorted(SortByKey(s))
    ensures multiset(SortByKey(s)) == multiset(s)
    ensures forall k :: Filter(SortByKey(s), k) == Filter(s, k)
  {
    SortByKeySorted(s);
    SortByKeyPermutes(s);
    forall k ensures Filter(SortByKey(s), k) == Filter(s, k) {
      SortByKeyStable(s, k);
    }
  }

  /** `sort_by_key` sorts. */
  lemma {:induction false} SortByKeySorted(s: seq<RtcpFb>)
    ensures Sorted(SortByKey(s))
  {
    if s != [] {
      SortByKeySorted(s[1..]);
      InsertSorted(s[0], SortByKey(s[1..]));
    }
  }

  /** `sort_by_key` neither loses nor duplicates an item. */
  lemma {:induction false} SortByKeyPermutes(s: seq<RtcpFb>)
    ensures multiset(SortByKey(s)) == multiset(s)
  {
    if s != [] {
      SortByKeyPermutes(s[1..]);
      assert s == [s[0]] + s[1..];
    }
  }

  /** `sort_by_key` keeps the items of key `k` in their input order. */
  lemma {:induction false} SortByKeyStable(s: seq<RtcpFb>, k: nat)
    ensures Filter(SortByKey(s), k) == Filter(s, k)
  {
    if s != [] {
      SortByKeyStable(s[1..], k);
      SortByKeySorted(s[1..]);
      InsertStep(s, SortByKey(s[1..]), k);
    }
  }

  /** Inserting the head into the sorted tail keeps each key's items in input order. */
  lemma InsertStep(s: seq<RtcpFb>, t: seq<RtcpFb>, k: nat)
    requires s != [] && Sorted(t) && Filter(t, k) == Filter(s[1..], k)
    ensures Filter(Insert(s[0], t), k) == Filter(s, k)
  {
    InsertFilter(s[0], t, k);
  }

  /**
   * A sorted sequence is fixed by its per-key selections, so the stable
   * sort of a sequence is the only sorted sequence with the same
   * selections.
   */
  lemma {:induction false} SortedUnique(a: seq<RtcpFb>, b: seq<RtcpFb>)
    requires Sorted(a) && Sorted(b)
    requires forall k :: Filter(a, k) == Filter(b, k)
    ensures a == b
  {
    if a == [] || b == [] {
      if a != [] {
        FilterFirst(a);
        assert false;
      } else if b != [] {
        FilterFirst(b);
        assert false;
      }
    } else {
      var ka, kb := OrdNo(a[0]), OrdNo(b[0]);
      if ka < kb {
        SortedTail(b, kb);
        FilterNone(b, ka);
        FilterFirst(a);
        assert false;
      } else if kb < ka {
        SortedTail(a, ka);
        FilterNone(a, kb);
        FilterFirst(b);
        assert false;
      } else {
        assert a[0] == Filter(a, ka)[0] == Filter(b, ka)[0] == b[0];
        forall k ensures Filter(a[1..], k) == Filter(b[1..], k) {
          var head := if ka == k then [a[0]] else [];
          assert Filter(a, k) == head + Filter(a[1..], k);
          assert Filter(b, k) == head + Filter(b[1..], k);
          assert Filter(a[1..], k) == Filter(a, k)[|head|..];
          assert Filter(b[1..], k) == Filter(b, k)[|head|..];
        }
        SortedUnique(a[1..], b[1..]);
        assert a == [a[0]] + a[1..] && b == [b[0]] + b[1..];
      }
    }
  }

  /** In a sorted sequence every key is at least the first one. */
  lemma SortedTail(s: seq<RtcpFb>, k: nat)
    requires Sorted(s) && |s| > 0 && OrdNo(s[0]) == k
    ensures AllAtLeast(s, k)
  {
  }

  /** Removing one item from a sorted sequence leaves it sorted. */
  lemma SortedRemove(s: seq<RtcpFb>, p: nat)
    requires Sorted(s) && p < |s|
    ensures Sorted(s[..p] + s[p + 1..])
  {
    var r := s[..p] + s[p + 1..];
    assert forall i :: 0 <= i < |r| ==> r[i] == s[if i < p then i else i + 1];
  }

  /**
   * In a sorted sequence whose keys are all at least `k`, the items with
   * key `k` are exactly the leading `Count(s, k)` ones.
   */
  lemma {:induction false} LeadingBucket(s: seq<RtcpFb>, k: nat)
    requires Sorted(s) && AllAtLeast(s, k)
    ensures forall i :: 0 <= i < Count(s, k) ==> OrdNo(s[i]) == k
  {
    if s != [] {
      if OrdNo(s[0]) == k {
        LeadingBucket(s[1..], k);
        assert forall i :: 1 <= i < Count(s, k) ==> s[i] == s[1..][i - 1];
      } else {
        FilterNone(s, k);
      }
    }
  }
}
