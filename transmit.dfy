/**
 * Taking bytes out of the buffer for transmission (tcp-tx-buffer.cc:510-706):
 * `CopyFromSequence` serves a retransmission from the sent list
 * (`GetTransmittedSegment`), or moves new data from one of the two pending
 * lists to the sent list (`GetNewSegment`), the primary list only while the
 * credit `m_qednum` is positive.
 */
module Transmit {
  import opened U32
  import opened TxItems
  import opened ItemLists
  import opened Status
  import opened Scoreboard
  import opened PacketLookup
  import opened Enqueue
  import opened BufferState

  // ---------------------------------------------------------------------
  // Moving the head of a pending list (tcp-tx-buffer.cc:623-633, 653-663)
  // ---------------------------------------------------------------------

  /**
   * `GetPacketFromList (list, start, numBytes, start)` followed by the
   * `std::find` and `erase` of the item it returns: the item and the rest of
   * the list.
   */
  function TakeFront(l: seq<TxItem>, base: nat, n: nat): Result<(TxItem, seq<TxItem>)> {
    match Locate(l, base, n, base, false)
    case Failed(why) => Fatal(why)
    case Located(items, idx, _) =>
      LocateCorrect(l, base, n, base, false);
      Ok((items[idx], Remove(items, idx)))
  }

  /**
   * Taking from the front succeeds exactly when the list holds a byte. The
   * item taken holds the first `min (n, total)` bytes of the list and the
   * rest of the list holds the others, in order.
   */
  lemma TakeFrontCorrect(l: seq<TxItem>, base: nat, n: nat)
    ensures var r := TakeFront(l, base, n);
      && (r.Ok? <==> Total(l) > 0)
      && (r.Ok? ==>
            && |r.value.0.data| == Min(n, Total(l))
            && r.value.0.data + Flatten(r.value.1) == Flatten(l)
            && Total(r.value.1) + |r.value.0.data| == Total(l))
  {
    var lk := Locate(l, base, n, base, false);
    assert LocateSpec(l, base, n, base, false, lk) by {
      LocateCorrect(l, base, n, base, false);
    }
    if lk.Located? {
      var items, idx := lk.items, lk.index;
      assert TakeFront(l, base, n) == Ok((items[idx], Remove(items, idx)));
      AroundFront(items, idx);
    } else {
      assert TakeFront(l, base, n).Fatal?;
    }
  }

  // ---------------------------------------------------------------------
  // GetNewSegment (tcp-tx-buffer.cc:609-681)
  // ---------------------------------------------------------------------

  /**
   * `GetNewSegment (numBytes)`: with `m_stage == 1` the head of the auxiliary
   * list is tagged auxiliary and appended to the sent list, counted in
   * `m_sentSize` and `m_stagesentSize`, and `m_stage` becomes 0. Otherwise the
   * head of the primary list is tagged primary, counted in `m_sentSize` and
   * `m_appsentSize`, and `m_qednum`, `m_appnum` drop by one and `m_stage`
   * becomes 1. The value is the position of the item in the sent list.
   */
  function GetNewSegment(st: BufState, n: nat): (r: Step<nat>)
    ensures r.Step? ==> r.value == |st.sent| && |r.st.sent| == |st.sent| + 1
  {
    match TakeFront(Source(st), SourceStart(st), n)
    case Fatal(why) => Stop(why)
    case Ok(taken) => Step(Moved(st, taken.0, taken.1), |st.sent|)
  }

  /** The pending list `GetNewSegment` draws from. */
  function Source(st: BufState): seq<TxItem> {
    if st.stage == 1 then st.qid else st.app
  }

  /** Where that list starts: `startOfQidList` or `startOfAppList`. */
  function SourceStart(st: BufState): nat {
    if st.stage == 1 then st.first + st.stagesentSize else st.first + st.appsentSize
  }

  /** The state once `item` has been taken off the source list, leaving `rest`. */
  function Moved(st: BufState, item: TxItem, rest: seq<TxItem>): (r: BufState)
    ensures |r.sent| == |st.sent| + 1
  {
    if st.stage == 1 then
      var t := item.(qided := true);
      st.(qid := rest, sent := st.sent + [t], hs := AfterPush(st.hs, |st.sent|),
          sentSize := U32.Add(st.sentSize, |t.data|),
          stagesentSize := U32.Add(st.stagesentSize, |t.data|), stage := 0)
    else
      var t := item.(qided := false);
      st.(app := rest, sent := st.sent + [t], hs := AfterPush(st.hs, |st.sent|),
          sentSize := U32.Add(st.sentSize, |t.data|),
          appsentSize := U32.Add(st.appsentSize, |t.data|),
          qednum := Sub(st.qednum, 1), stage := 1, appnum := Sub(st.appnum, 1))
  }

  /**
   * `GetNewSegment` fails exactly when the list it draws from holds no byte.
   * Otherwise the item appended to the sent list carries the first
   * `min (numBytes, pending)` bytes of that list, which keeps the rest; the
   * other pending list is untouched, and the item is untouched but for its
   * stream tag.
   */
  lemma GetNewSegmentCorrect(st: BufState, n: nat)
    ensures var r := GetNewSegment(st, n);
      && (r.Step? <==> Total(Source(st)) > 0)
      && (r.Step? ==>
            var item := r.st.sent[|st.sent|];
            && r.st.sent[..|st.sent|] == st.sent
            && item.qided == (st.stage == 1)
            && |item.data| == Min(n, Total(Source(st)))
            && item.data + Flatten(Source(r.st.(stage := st.stage))) == Flatten(Source(st))
            && (st.stage == 1 ==> r.st.app == st.app && r.st.stage == 0)
            && (st.stage != 1 ==> r.st.qid == st.qid && r.st.stage == 1))
  {
    TakeFrontCorrect(Source(st), SourceStart(st), n);
    var t := TakeFront(Source(st), SourceStart(st), n);
    if t.Ok? {
      var st1 := Moved(st, t.value.0, t.value.1);
      assert st1.sent[..|st.sent|] == st.sent;
    }
  }

  /** `GetNewSegment` through the lookup at the front of its source list. */
  lemma GetNewSegmentFrom(st: BufState, n: nat, lk: Lookup)
    requires lk == Locate(Source(st), SourceStart(st), n, SourceStart(st), false)
    ensures lk.Failed? ==> GetNewSegment(st, n) == Stop(lk.reason)
    ensures lk.Located? ==>
      && lk.index < |lk.items|
      && GetNewSegment(st, n) == Step(Moved(st, lk.items[lk.index], Remove(lk.items, lk.index)), |st.sent|)
  {
    LocateCorrect(Source(st), SourceStart(st), n, SourceStart(st), false);
  }

  /** Serving new data moves bytes from the pending side to the sent side of both counters. */
  lemma MoveCong(sentSize: nat, sentTotal: int, sizes: int, pending: int, k: nat)
    requires Cong(sentSize, sentTotal) && Cong(sizes - sentSize, pending)
    ensures Cong(U32.Add(sentSize, k), sentTotal + k)
    ensures Cong(sizes - U32.Add(sentSize, k), pending - k)
  {
    AddCong(sentSize, k);
    assert Cong(k, k);
    CongAdd(sentSize, sentTotal, k, k);
    CongTrans(U32.Add(sentSize, k), sentSize + k, sentTotal + k);
    assert Cong(sizes, sizes);
    CongSub(sizes, sizes, U32.Add(sentSize, k), sentSize + k);
    CongSub(sizes - sentSize, pending, k, k);
    assert sizes - (sentSize + k) == sizes - sentSize - k;
    CongTrans(sizes - U32.Add(sentSize, k), sizes - sentSize - k, pending - k);
  }

  /**
   * How `GetNewSegment` moves the byte counters: the `k` bytes of the item
   * leave the pending lists and join the sent list; `m_size` and
   * `m_stageSize` stay. A non-empty request moves at least one byte.
   */
  lemma GetNewSegmentCounts(st: BufState, n: nat)
    ensures var r := GetNewSegment(st, n);
      r.Step? ==>
        var k := |r.st.sent[|st.sent|].data|;
        && Total(r.st.sent) == Total(st.sent) + k
        && r.st.sentSize == U32.Add(st.sentSize, k)
        && r.st.size == st.size && r.st.stageSize == st.stageSize
        && Pending(r.st) + k == Pending(st)
        && (n > 0 ==> k > 0)
  {
    var t := TakeFront(Source(st), SourceStart(st), n);
    if t.Ok? {
      var item, rest := t.value.0, t.value.1;
      assert Total(rest) + |item.data| == Total(Source(st)) && (n > 0 ==> |item.data| > 0) by {
        TakeFrontCorrect(Source(st), SourceStart(st), n);
      }
      MovedCounts(st, item, rest);
    }
  }

  /** The counts after an item taken off the source list is pushed onto the sent list. */
  lemma MovedCounts(st: BufState, item: TxItem, rest: seq<TxItem>)
    requires Total(rest) + |item.data| == Total(Source(st))
    ensures var st1 := Moved(st, item, rest);
      && |st1.sent[|st.sent|].data| == |item.data|
      && Total(st1.sent) == Total(st.sent) + |item.data|
      && st1.sentSize == U32.Add(st.sentSize, |item.data|)
      && st1.size == st.size && st1.stageSize == st.stageSize
      && Pending(st1) + |item.data| == Pending(st)
  {
    PushTotal(st.sent, item.(qided := st.stage == 1));
  }

  /** `GetNewSegment` keeps the counter invariant. */
  lemma GetNewSegmentConsistent(st: BufState, n: nat)
    requires Consistent(st)
    ensures GetNewSegment(st, n).Step? ==> Consistent(GetNewSegment(st, n).st)
  {
    var r := GetNewSegment(st, n);
    if r.Step? {
      GetNewSegmentCounts(st, n);
      MoveConsistent(st, r.st, r.st.sent[|st.sent|]);
    }
  }

  /** Moving one item of `k` bytes from the pending side to the end of the sent list keeps the invariant. */
  lemma MoveConsistent(st: BufState, st1: BufState, item: TxItem)
    requires Consistent(st)
    requires Total(st1.sent) == Total(st.sent) + |item.data| && st1.sentSize == U32.Add(st.sentSize, |item.data|)
    requires st1.size == st.size && st1.stageSize == st.stageSize
    requires Pending(st1) + |item.data| == Pending(st)
    ensures Consistent(st1)
  {
    var k := |item.data|;
    MoveCong(st.sentSize, Total(st.sent), st.size + st.stageSize, Pending(st), k);
  }

  // ---------------------------------------------------------------------
  // GetTransmittedSegment (tcp-tx-buffer.cc:683-706)
  // ---------------------------------------------------------------------

  /**
   * `GetTransmittedSegment (numBytes, seq)`: the sent item covering exactly
   * `[seq, seq + numBytes)`, made by splitting and merging. When the list was
   * edited and the highest sack is not behind the head, the highest sack is
   * recomputed. The value is the position of the item.
   */
  function GetTransmittedSegment(st: BufState, n: nat, sn: nat): (r: Step<nat>)
    requires 16 <= st.qheader
    ensures r.Step? ==> r.value < |r.st.sent|
  {
    if sn < st.first then Stop(BeforeHead)
    else if n > st.sentSize then Stop(BeyondSent)
    else
      match Locate(st.sent, st.first, n, sn, false)
      case Failed(why) => Stop(why)
      case Located(items, idx, edited) =>
        LocateCorrect(st.sent, st.first, n, sn, false);
        var hs := if edited && st.hs.sn >= st.first then HighestSacked(items, st.first)
                  else AfterResize(st.hs, |st.sent|, |items|);
        Regenerate(st.(sent := items, hs := hs), idx)
  }

  /** `GetTransmittedSegment` through the lookup of `seq` in the sent list. */
  lemma GetTransmittedSegmentFrom(st: BufState, n: nat, sn: nat, lk: Lookup)
    requires 16 <= st.qheader && st.first <= sn && n <= st.sentSize
    requires lk == Locate(st.sent, st.first, n, sn, false)
    ensures lk.Failed? ==> GetTransmittedSegment(st, n, sn) == Stop(lk.reason)
    ensures lk.Located? ==>
      var hs := if lk.edited && st.hs.sn >= st.first then HighestSacked(lk.items, st.first)
                else AfterResize(st.hs, |st.sent|, |lk.items|);
      && lk.index < |lk.items|
      && GetTransmittedSegment(st, n, sn) == Regenerate(st.(sent := lk.items, hs := hs), lk.index)
  {
    LocateCorrect(st.sent, st.first, n, sn, false);
  }

  /**
   * The last step of `GetTransmittedSegment`: an auxiliary item that is lost
   * and was already retransmitted gets a fresh payload from `Addqednew`.
   */
  function Regenerate(st: BufState, i: nat): (r: Step<nat>)
    requires 16 <= st.qheader && i < |st.sent|
    ensures r.Step? ==> r.value == i && |r.st.sent| == |st.sent|
  {
    var item := st.sent[i];
    if item.qided && item.lost && item.retrans then
      match Addqednew(st, item)
      case Stop(why) => Stop(why)
      case Step(st1, redone) => Step(st1.(sent := st.sent[i := redone]), i)
    else Step(st, i)
  }

  /**
   * Only a regenerated item changes: it keeps its length and its flags, the
   * other items and the byte counters stay, and the header numbers are the
   * only other fields that move. Anything else is returned as it is.
   */
  lemma RegenerateCorrect(st: BufState, i: nat)
    requires 16 <= st.qheader && i < |st.sent|
    ensures var r := Regenerate(st, i);
      var item := st.sent[i];
      && (r.Step? <==> !(item.qided && item.lost && item.retrans) || |item.data| == 0 || st.qheader <= |item.data|)
      && (!(item.qided && item.lost && item.retrans) ==> r == Step(st, i))
      && (r.Step? ==>
            && r.st.sent == st.sent[i := r.st.sent[i]]
            && |r.st.sent[i].data| == |item.data| && SameFlags(r.st.sent[i], item)
            && r.st.(sent := st.sent, esQseq := st.esQseq, stageQseq := st.stageQseq) == st)
  {
    AddqednewCorrect(st, st.sent[i]);
  }

  /**
   * `GetTransmittedSegment` fails when `seq` is behind the head or beyond the
   * sent list, or the request is longer than `m_sentSize`. The item found
   * starts at `seq` and holds `numBytes` bytes, or all the bytes to the end
   * of the list; the list keeps its length in bytes and only the sent list,
   * the highest sack and the header numbers change. Unless the item is
   * regenerated, the sent list carries the same bytes and the item's are the
   * requested slice of them.
   */
  lemma GetTransmittedSegmentCorrect(st: BufState, n: nat, sn: nat)
    requires 16 <= st.qheader
    ensures var r := GetTransmittedSegment(st, n, sn);
      && (sn < st.first || n > st.sentSize || st.first + Total(st.sent) <= sn ==> r.Stop?)
      && Served(st, n, sn, r)
  {
    var r := GetTransmittedSegment(st, n, sn);
    if sn >= st.first && n <= st.sentSize {
      var lk := Locate(st.sent, st.first, n, sn, false);
      assert LocateSpec(st.sent, st.first, n, sn, false, lk) by {
        LocateCorrect(st.sent, st.first, n, sn, false);
      }
      if lk.Located? {
        var items, idx := lk.items, lk.index;
        var hs := if lk.edited && st.hs.sn >= st.first then HighestSacked(items, st.first)
                  else AfterResize(st.hs, |st.sent|, |items|);
        var st1 := st.(sent := items, hs := hs);
        assert r == Regenerate(st1, idx);
        RegenerateServes(st, st1, idx, n, sn);
      }
    }
  }

  /**
   * What a successful `GetTransmittedSegment (numBytes, seq)` returns: the
   * item at the position it names starts at `seq` and holds `numBytes`
   * bytes, or all the bytes to the end of the list; the list keeps its
   * length in bytes and only the sent list, the highest sack and the header
   * numbers change. Unless the item is regenerated, the sent list carries
   * the same bytes and the item's are the requested slice of them.
   */
  predicate Served(st: BufState, n: nat, sn: nat, r: Step<nat>) {
    r.Step? ==>
      var l := r.st.sent;
      var i := r.value;
      && i < |l| && sn >= st.first && sn - st.first <= Total(st.sent)
      && StartOf(l, st.first, i) == sn
      && |l[i].data| == Min(n, st.first + Total(st.sent) - sn)
      && Total(l) == Total(st.sent)
      && r.st.(sent := st.sent, hs := st.hs, esQseq := st.esQseq, stageQseq := st.stageQseq) == st
      && (!l[i].qided || !l[i].lost || !l[i].retrans ==>
            && Flatten(l) == Flatten(st.sent)
            && sn - st.first + |l[i].data| <= Total(st.sent)
            && l[i].data == Flatten(st.sent)[sn - st.first .. sn - st.first + |l[i].data|])
  }

  /** The item `GetPacketFromList` found, after the regeneration step. */
  lemma RegenerateServes(st: BufState, st1: BufState, idx: nat, n: nat, sn: nat)
    requires 16 <= st.qheader && idx < |st1.sent|
    requires st1 == st.(sent := st1.sent, hs := st1.hs)
    requires Flatten(st1.sent) == Flatten(st.sent)
    requires st.first <= sn <= st.first + Total(st.sent) && StartOf(st1.sent, st.first, idx) == sn
    requires |st1.sent[idx].data| == Min(n, st.first + Total(st.sent) - sn)
    ensures Served(st, n, sn, Regenerate(st1, idx))
  {
    var r := Regenerate(st1, idx);
    var items := st1.sent;
    assert Total(items) == Total(st.sent) by {
      assert |Flatten(items)| == |Flatten(st.sent)|;
    }
    RegenerateCorrect(st1, idx);
    if r.Step? {
      var l := r.st.sent;
      assert StartOf(l, st.first, idx) == sn && Total(l) == Total(items) by {
        TotalUpdate(items, idx, l[idx]);
        assert l[..idx] == items[..idx];
      }
      StartOfMono(items, st.first, idx, |items|);
      StartOfEnd(items, st.first);
      if !l[idx].qided || !l[idx].lost || !l[idx].retrans {
        ItemBytes(items, st.first, idx);
      }
    }
  }

  /** The bytes of item `i` are the slice of the list's bytes at its offset. */
  lemma ItemBytes(l: seq<TxItem>, base: nat, i: nat)
    requires i < |l|
    ensures var o := StartOf(l, base, i) - base;
      o + |l[i].data| <= |Flatten(l)| && l[i].data == Flatten(l)[o .. o + |l[i].data|]
  {
    Around(l, i);
  }

  /** `GetTransmittedSegment` keeps the counter invariant. */
  lemma GetTransmittedSegmentConsistent(st: BufState, n: nat, sn: nat)
    requires 16 <= st.qheader && Consistent(st)
    ensures GetTransmittedSegment(st, n, sn).Step? ==> Consistent(GetTransmittedSegment(st, n, sn).st)
  {
    var r := GetTransmittedSegment(st, n, sn);
    if r.Step? {
      GetTransmittedSegmentCorrect(st, n, sn);
      SameBytes(st, r.st);
    }
  }

  /** The invariant holds again when every counter and every list total is the same. */
  lemma SameBytes(a: BufState, b: BufState)
    requires Consistent(a)
    requires Total(a.sent) == Total(b.sent) && Total(a.app) == Total(b.app) && Total(a.qid) == Total(b.qid)
    requires a.size == b.size && a.sentSize == b.sentSize && a.stageSize == b.stageSize
    ensures Consistent(b)
  {
  }

  // ---------------------------------------------------------------------
  // CopyFromSequence (tcp-tx-buffer.cc:510-598)
  // ---------------------------------------------------------------------

  /**
   * The end of `CopyFromSequence`: the item at `i` is marked not lost and sent
   * at `now`, and its payload is returned; a payload of the wrong size fails
   * the final assertion.
   */
  function Sent(st: BufState, i: nat, s: nat, now: int): (r: Step<seq<byte>>)
    requires i < |st.sent|
    ensures r.Step? <==> |st.sent[i].data| == s
    ensures r.Step? ==> r.value == st.sent[i].data &&
                        r.st == st.(sent := st.sent[i := st.sent[i].(lost := false, lastSent := now)])
  {
    var item := st.sent[i].(lost := false, lastSent := now);
    if |item.data| != s then Stop(SizeMismatch)
    else Step(st.(sent := st.sent[i := item]), item.data)
  }

  /** The bytes still waiting on the two pending lists. */
  function Pending(st: BufState): nat {
    Total(st.app) + Total(st.qid)
  }

  /** The branch of `CopyFromSequence` for a range sent completely before. */
  function Retransmit(st: BufState, s: nat, sn: nat, now: int): Step<seq<byte>>
    requires 16 <= st.qheader
  {
    match GetTransmittedSegment(st, s, sn)
    case Stop(why) => Stop(why)
    case Step(st1, i) => Sent(st1.(sent := st1.sent[i := st1.sent[i].(retrans := true)]), i, s, now)
  }

  /** The branch of `CopyFromSequence` for new data starting at the end of the sent list. */
  function SendNew(st: BufState, s: nat, now: int): Step<seq<byte>> {
    match GetNewSegment(st, s)
    case Stop(why) => Stop(why)
    case Step(st1, i) =>
      if st1.sent[i].retrans then Stop(NewDataRetransmitted) else Sent(st1, i, s, now)
  }

  /** The stream choice of `CopyFromSequence`: primary data only while `m_qednum > 0`. */
  function Credit(st: BufState): BufState {
    st.(stage := if st.qednum > 0 then 0 else 1)
  }

  /**
   * The amount of new data `CopyFromSequence` asks for: the request, cut to
   * what the chosen stream has not sent yet (`s3` for the primary stream,
   * `s1` for the auxiliary one).
   */
  function NewAmount(st: BufState, n: nat, sn: nat): nat {
    var s := Min(n, SizeFromSequence(st, sn));
    if st.qednum > 0 then Min(s, Sub(st.size, st.appsentSize))
    else Min(s, Sub(st.stageSize, st.stagesentSize))
  }

  /**
   * `CopyFromSequence (numBytes, seq)`: nothing for a sequence number behind
   * the head or an empty request; a retransmission when the range was sent
   * completely; otherwise new data from the stream the credit selects. A
   * request that straddles the end of the sent list first moves the new part
   * and then starts over; a request beginning beyond the sent list is a hole.
   */
  function CopyFromSequence(st: BufState, n: nat, sn: nat, now: int): Step<seq<byte>>
    requires 16 <= st.qheader
    decreases Pending(st)
  {
    if st.first > sn then Step(st, [])
    else
      var s := Min(n, SizeFromSequence(st, sn));
      if s == 0 then Step(st, [])
      else if st.first + st.sentSize >= sn + s then Retransmit(st, s, sn, now)
      else
        var st0 := Credit(st);
        var s' := NewAmount(st, n, sn);
        var high := st.first + st.sentSize;
        if high < sn then Stop(Hole)
        else if high == sn then SendNew(st0, s', now)
        else if high < sn + s' then
          match GetNewSegment(st0, sn + s' - high)
          case Stop(why) => Stop(why)
          case Step(st1, _) =>
            GetNewSegmentCounts(st0, sn + s' - high);
            CopyFromSequence(st1, n, sn, now)
        else Stop(NoItem)
  }

  /**
   * The two early exits: a sequence number behind the head and an empty
   * request return no bytes and change nothing.
   */
  lemma CopyFromSequenceEmpty(st: BufState, n: nat, sn: nat, now: int)
    requires 16 <= st.qheader
    requires st.first > sn || n == 0 || SizeFromSequence(st, sn) == 0
    ensures CopyFromSequence(st, n, sn, now) == Step(st, [])
  {
  }

  /** What `Retransmit` returns and how it marks the item it found. */
  lemma RetransmitCorrect(st: BufState, s: nat, sn: nat, now: int)
    requires 16 <= st.qheader
    ensures var r := Retransmit(st, s, sn, now);
      var g := GetTransmittedSegment(st, s, sn);
      r.Step? ==>
        && g.Step?
        && r.value == g.st.sent[g.value].data && |r.value| == s
        && r.st == g.st.(sent := g.st.sent[g.value := g.st.sent[g.value].(retrans := true, lost := false, lastSent := now)])
  {
  }

  /** What `SendNew` returns and how it marks the item it appended. */
  lemma SendNewCorrect(st: BufState, s: nat, now: int)
    ensures var r := SendNew(st, s, now);
      var g := GetNewSegment(st, s);
      r.Step? ==>
        && g.Step? && !g.st.sent[|st.sent|].retrans
        && r.value == g.st.sent[|st.sent|].data && |r.value| == s
        && r.st == g.st.(sent := g.st.sent[|st.sent| := g.st.sent[|st.sent|].(lost := false, lastSent := now)])
  {
  }

  /**
   * A request whose range was sent completely is a retransmission: it
   * returns `min (numBytes, SizeFromSequence (seq))` bytes starting at `seq`,
   * and the item holding them is marked retransmitted, not lost and sent at
   * `now`. The pending lists and the byte counters stay.
   */
  lemma CopyFromSequenceRetransmits(st: BufState, n: nat, sn: nat, now: int)
    requires 16 <= st.qheader
    requires st.first <= sn
    requires var s := Min(n, SizeFromSequence(st, sn));
             s > 0 && st.first + st.sentSize >= sn + s
    ensures var r := CopyFromSequence(st, n, sn, now);
      r.Step? ==>
        && |r.value| == Min(n, SizeFromSequence(st, sn))
        && r.st.app == st.app && r.st.qid == st.qid
        && r.st.size == st.size && r.st.sentSize == st.sentSize && r.st.stageSize == st.stageSize
        && Total(r.st.sent) == Total(st.sent)
        && (exists i :: 0 <= i < |r.st.sent| && StartOf(r.st.sent, st.first, i) == sn &&
              r.st.sent[i].data == r.value &&
              r.st.sent[i].retrans && !r.st.sent[i].lost && r.st.sent[i].lastSent == now)
  {
    var s := Min(n, SizeFromSequence(st, sn));
    var r := CopyFromSequence(st, n, sn, now);
    assert r == Retransmit(st, s, sn, now);
    if r.Step? {
      RetransmitCorrect(st, s, sn, now);
      GetTransmittedSegmentCorrect(st, s, sn);
      var g := GetTransmittedSegment(st, s, sn);
      var i := g.value;
      var l := g.st.sent;
      assert r.st.sent == l[i := l[i].(retrans := true, lost := false, lastSent := now)];
      assert StartOf(r.st.sent, st.first, i) == sn && Total(r.st.sent) == Total(l) by {
        TotalUpdate(l, i, r.st.sent[i]);
        assert r.st.sent[..i] == l[..i];
      }
      assert r.st.sent[i].data == r.value;
    }
  }

  /**
   * The credit rule for new data that starts at the end of the sent list:
   * the item comes from the primary list exactly when `m_qednum > 0`,
   * serving it lowers `m_qednum` and `m_appnum` by one, and serving the
   * auxiliary list leaves them alone. The bytes returned are the first ones
   * of that list, appended to the sent list as one new item that was never
   * retransmitted; `m_sentSize` and that stream's sent counter grow by their
   * number, and the other pending list stays.
   */
  lemma CopyFromSequenceCredit(st: BufState, n: nat, sn: nat, now: int)
    requires 16 <= st.qheader
    requires sn == st.first + st.sentSize && Min(n, SizeFromSequence(st, sn)) > 0
    ensures var r := CopyFromSequence(st, n, sn, now);
      var fromApp := st.qednum > 0;
      r.Step? ==>
        && |r.st.sent| == |st.sent| + 1
        && r.st.sent[..|st.sent|] == st.sent
        && r.st.sent[|st.sent|].qided == !fromApp
        && !r.st.sent[|st.sent|].retrans && r.st.sent[|st.sent|].lastSent == now
        && r.st.sent[|st.sent|].data == r.value
        && |r.value| == NewAmount(st, n, sn)
        && r.value + Flatten(if fromApp then r.st.app else r.st.qid) ==
             Flatten(if fromApp then st.app else st.qid)
        && r.st.qednum == (if fromApp then Sub(st.qednum, 1) else st.qednum)
        && r.st.appnum == (if fromApp then Sub(st.appnum, 1) else st.appnum)
        && r.st.stage == (if fromApp then 1 else 0)
        && r.st.sentSize == U32.Add(st.sentSize, |r.value|)
        && r.st.size == st.size && r.st.stageSize == st.stageSize
        && (fromApp ==>
              && r.st.appsentSize == U32.Add(st.appsentSize, |r.value|)
              && r.st.stagesentSize == st.stagesentSize && r.st.qid == st.qid)
        && (!fromApp ==>
              && r.st.stagesentSize == U32.Add(st.stagesentSize, |r.value|)
              && r.st.appsentSize == st.appsentSize && r.st.app == st.app)
  {
    var st0 := Credit(st);
    var s' := NewAmount(st, n, sn);
    var r := CopyFromSequence(st, n, sn, now);
    assert r == SendNew(st0, s', now);
    if r.Step? {
      SendNewCorrect(st0, s', now);
      GetNewSegmentCorrect(st0, s');
      var g := GetNewSegment(st0, s');
      var i := |st.sent|;
      assert r.st.sent[..i] == g.st.sent[..i];
      assert Source(st0) == (if st.qednum > 0 then st.app else st.qid);
    }
  }

  /**
   * New data requested beyond the end of the sent list would leave a hole
   * in the stream: the call aborts.
   */
  lemma CopyFromSequenceHole(st: BufState, n: nat, sn: nat, now: int)
    requires 16 <= st.qheader
    requires st.first + st.sentSize < sn && Min(n, SizeFromSequence(st, sn)) > 0
    ensures CopyFromSequence(st, n, sn, now) == Stop(Hole)
  {
  }

  /** `Retransmit` keeps the counter invariant. */
  lemma RetransmitConsistent(st: BufState, s: nat, sn: nat, now: int)
    requires 16 <= st.qheader && Consistent(st)
    ensures Retransmit(st, s, sn, now).Step? ==> Consistent(Retransmit(st, s, sn, now).st)
  {
    var r := Retransmit(st, s, sn, now);
    if r.Step? {
      RetransmitCorrect(st, s, sn, now);
      GetTransmittedSegmentConsistent(st, s, sn);
      var g := GetTransmittedSegment(st, s, sn);
      TotalUpdate(g.st.sent, g.value, r.st.sent[g.value]);
      SameBytes(g.st, r.st);
    }
  }

  /** `SendNew` keeps the counter invariant. */
  lemma SendNewConsistent(st: BufState, s: nat, now: int)
    requires Consistent(st)
    ensures SendNew(st, s, now).Step? ==> Consistent(SendNew(st, s, now).st)
  {
    var r := SendNew(st, s, now);
    if r.Step? {
      SendNewCorrect(st, s, now);
      GetNewSegmentConsistent(st, s);
      var g := GetNewSegment(st, s);
      TotalUpdate(g.st.sent, |st.sent|, r.st.sent[|st.sent|]);
      SameBytes(g.st, r.st);
    }
  }

  /** `CopyFromSequence` keeps the counter invariant. */
  lemma {:induction false} CopyFromSequenceConsistent(st: BufState, n: nat, sn: nat, now: int)
    requires 16 <= st.qheader && Consistent(st)
    ensures CopyFromSequence(st, n, sn, now).Step? ==> Consistent(CopyFromSequence(st, n, sn, now).st)
    decreases Pending(st)
  {
    var r := CopyFromSequence(st, n, sn, now);
    if r.Step? && st.first <= sn {
      var s := Min(n, SizeFromSequence(st, sn));
      if s > 0 {
        if st.first + st.sentSize >= sn + s {
          RetransmitConsistent(st, s, sn, now);
        } else {
          var st0 := Credit(st);
          SameBytes(st, st0);
          var s' := NewAmount(st, n, sn);
          var high := st.first + st.sentSize;
          if high == sn {
            SendNewConsistent(st0, s', now);
          } else {
            var a := sn + s' - high;
            GetNewSegmentConsistent(st0, a);
            GetNewSegmentCounts(st0, a);
            var g := GetNewSegment(st0, a);
            assert r == CopyFromSequence(g.st, n, sn, now);
            CopyFromSequenceConsistent(g.st, n, sn, now);
          }
        }
      }
    }
  }

  /** The attributes, the buffer limit and the head are fields no transmission touches. */
  predicate Fixed(a: BufState, b: BufState) {
    a.qheader == b.qheader && a.red == b.red && a.maxBuffer == b.maxBuffer && a.first == b.first
  }

  lemma GetNewSegmentKeeps(st: BufState, n: nat)
    ensures GetNewSegment(st, n).Step? ==> Fixed(st, GetNewSegment(st, n).st)
  {
  }

  lemma RetransmitKeeps(st: BufState, s: nat, sn: nat, now: int)
    requires 16 <= st.qheader
    ensures Retransmit(st, s, sn, now).Step? ==> Fixed(st, Retransmit(st, s, sn, now).st)
  {
    GetTransmittedSegmentCorrect(st, s, sn);
  }

  lemma SendNewKeeps(st: BufState, s: nat, now: int)
    ensures SendNew(st, s, now).Step? ==> Fixed(st, SendNew(st, s, now).st)
  {
    GetNewSegmentKeeps(st, s);
  }

  /** `CopyFromSequence` moves neither the head nor the attributes. */
  lemma {:induction false} CopyFromSequenceKeeps(st: BufState, n: nat, sn: nat, now: int)
    requires 16 <= st.qheader
    ensures CopyFromSequence(st, n, sn, now).Step? ==> Fixed(st, CopyFromSequence(st, n, sn, now).st)
    decreases Pending(st)
  {
    var r := CopyFromSequence(st, n, sn, now);
    if r.Step? && st.first <= sn {
      var s := Min(n, SizeFromSequence(st, sn));
      if s > 0 {
        if st.first + st.sentSize >= sn + s {
          RetransmitKeeps(st, s, sn, now);
        } else {
          var st0 := Credit(st);
          var s' := NewAmount(st, n, sn);
          var high := st.first + st.sentSize;
          if high == sn {
            SendNewKeeps(st0, s', now);
          } else {
            var a := sn + s' - high;
            GetNewSegmentKeeps(st0, a);
            GetNewSegmentCounts(st0, a);
            var g := GetNewSegment(st0, a);
            assert r == CopyFromSequence(g.st, n, sn, now);
            CopyFromSequenceKeeps(g.st, n, sn, now);
          }
        }
      }
    }
  }
}
