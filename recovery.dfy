/**
 * Loss recovery on the sent list (tcp-tx-buffer.cc:1241-1327 and
 * 1382-1525): the RFC 6675 `NextSeg` routine, the head's retransmission
 * flag, and the operations a retransmission timeout performs — clearing the
 * scoreboard, marking everything lost, and handing sent items back to the
 * pending lists.
 */
module Recovery {
  import opened U32
  import opened TxItems
  import opened ItemLists
  import opened Status
  import opened Scoreboard
  import opened BufferState

  // ---------------------------------------------------------------------
  // NextSeg (tcp-tx-buffer.cc:1241-1327)
  // ---------------------------------------------------------------------

  /** Criteria (1.a) and (1.b) as the source reads them: neither retransmitted nor sacked. */
  predicate Candidate(l: seq<TxItem>, k: nat)
    requires k < |l|
  {
    !l[k].retrans && !l[k].sacked
  }

  /** A candidate that also passes the loss test (1.c). */
  predicate LostCandidate(l: seq<TxItem>, first: nat, hs: HighSack, dup: nat, seg: nat, k: nat)
    requires k < |l|
  {
    Candidate(l, k) && IsLostAt(l, hs, k, StartOf(l, first, k), dup, seg)
  }

  /** `k` is the first lost candidate from `i` on. */
  predicate FirstLost(l: seq<TxItem>, first: nat, hs: HighSack, dup: nat, seg: nat, i: nat, k: nat) {
    i <= k < |l| && LostCandidate(l, first, hs, dup, seg, k) &&
    forall j :: i <= j < k ==> !LostCandidate(l, first, hs, dup, seg, j)
  }

  /** `k` is the first candidate from `i` on. */
  predicate FirstCandidate(l: seq<TxItem>, i: nat, k: nat) {
    i <= k < |l| && Candidate(l, k) && forall j :: i <= j < k ==> !Candidate(l, j)
  }

  /** The loop of `NextSeg`: rule (1) found a segment, or the rule (3) state it leaves. */
  datatype Scan = Found(sn: nat) | Done(valid: bool, r3: nat)

  /**
   * The loop of tcp-tx-buffer.cc:1267-1288 from item `i`, whose first byte is
   * `begin`. `r3` is `seqPerRule3`; it is taken only while it still holds 0,
   * the value it was initialised with.
   */
  function NextScan(l: seq<TxItem>, hs: HighSack, dup: nat, seg: nat, recovery: bool,
                    i: nat, begin: nat, valid: bool, r3: nat): Scan
    requires i <= |l|
    decreases |l| - i
  {
    if i == |l| then Done(valid, r3)
    else
      var next := begin + |l[i].data|;
      if !l[i].retrans && !l[i].sacked then
        if IsLostAt(l, hs, i, begin, dup, seg) then Found(begin)
        else if r3 == 0 && recovery then NextScan(l, hs, dup, seg, recovery, i + 1, next, true, begin)
        else NextScan(l, hs, dup, seg, recovery, i + 1, next, valid, r3)
      else NextScan(l, hs, dup, seg, recovery, i + 1, next, valid, r3)
  }

  /**
   * `NextSeg (seq, dupThresh, segmentSize, isRecovery)`: the sequence number
   * it stores in `*seq` when it returns true, `None` when it returns false.
   */
  function NextSeg(st: BufState, dup: nat, seg: nat, recovery: bool): Option<nat> {
    match NextScan(st.sent, st.hs, dup, seg, recovery, 0, st.first, false, 0)
    case Found(sn) => Some(sn)
    case Done(valid, r3) =>
      if SizeFromSequence(st, st.first + st.sentSize) > 0 then Some(st.first + st.sentSize)
      else if valid then Some(r3)
      else None
  }

  /**
   * The scan finds a segment exactly when some item from `i` on is a lost
   * candidate, and then returns the first byte of the first one; outside
   * recovery it leaves the rule (3) state alone.
   */
  lemma {:induction false} NextScanFound(l: seq<TxItem>, first: nat, hs: HighSack, dup: nat, seg: nat,
                                         recovery: bool, i: nat, valid: bool, r3: nat)
    requires i <= |l|
    ensures var r := NextScan(l, hs, dup, seg, recovery, i, StartOf(l, first, i), valid, r3);
      && (r.Found? <==> exists k :: i <= k < |l| && LostCandidate(l, first, hs, dup, seg, k))
      && (r.Found? ==> exists k :: FirstLost(l, first, hs, dup, seg, i, k) && r.sn == StartOf(l, first, k))
      && (!recovery && r.Done? ==> r == Done(valid, r3))
    decreases |l| - i
  {
    if i < |l| {
      var begin := StartOf(l, first, i);
      StartOfNext(l, first, i);
      if LostCandidate(l, first, hs, dup, seg, i) {
        assert FirstLost(l, first, hs, dup, seg, i, i);
      } else {
        var valid', r3' := valid, r3;
        if Candidate(l, i) && r3 == 0 && recovery {
          valid', r3' := true, begin;
        }
        NextScanFound(l, first, hs, dup, seg, recovery, i + 1, valid', r3');
        var r := NextScan(l, hs, dup, seg, recovery, i + 1, StartOf(l, first, i + 1), valid', r3');
        if r.Found? {
          var k :| FirstLost(l, first, hs, dup, seg, i + 1, k) && r.sn == StartOf(l, first, k);
          assert FirstLost(l, first, hs, dup, seg, i, k);
        }
      }
    }
  }

  /** Once `seqPerRule3` holds a non-zero value the scan keeps it. */
  lemma {:induction false} NextScanKeeps(l: seq<TxItem>, hs: HighSack, dup: nat, seg: nat, recovery: bool,
                                         i: nat, begin: nat, valid: bool, r3: nat)
    requires i <= |l| && r3 != 0
    ensures var r := NextScan(l, hs, dup, seg, recovery, i, begin, valid, r3);
      r.Done? ==> r == Done(valid, r3)
    decreases |l| - i
  {
    if i < |l| {
      NextScanKeeps(l, hs, dup, seg, recovery, i + 1, begin + |l[i].data|, valid, r3);
    }
  }

  /**
   * Rule (3) in recovery, from a fresh state: when no byte from `i` on has
   * sequence number 0, the scan is valid exactly when a candidate exists, and
   * remembers the first byte of the first candidate.
   */
  lemma {:induction false} NextScanRule3(l: seq<TxItem>, first: nat, hs: HighSack, dup: nat, seg: nat, i: nat)
    requires i <= |l| && StartOf(l, first, i) > 0
    ensures var r := NextScan(l, hs, dup, seg, true, i, StartOf(l, first, i), false, 0);
      r.Done? ==>
        && (r.valid <==> exists k :: i <= k < |l| && Candidate(l, k))
        && (r.valid ==> exists k :: FirstCandidate(l, i, k) && r.r3 == StartOf(l, first, k))
    decreases |l| - i
  {
    if i < |l| {
      var begin := StartOf(l, first, i);
      StartOfNext(l, first, i);
      if Candidate(l, i) {
        if !IsLostAt(l, hs, i, begin, dup, seg) {
          NextScanKeeps(l, hs, dup, seg, true, i + 1, begin + |l[i].data|, true, begin);
          assert FirstCandidate(l, i, i);
        }
      } else {
        NextScanRule3(l, first, hs, dup, seg, i + 1);
        var r := NextScan(l, hs, dup, seg, true, i + 1, StartOf(l, first, i + 1), false, 0);
        if r.Done? && r.valid {
          var k :| FirstCandidate(l, i + 1, k) && r.r3 == StartOf(l, first, k);
          assert FirstCandidate(l, i, k);
        }
      }
    }
  }

  /**
   * `NextSeg` applies the rules of section 4 of RFC 6675 in order: (1) the
   * first unsacked, unretransmitted item that is lost; else (2) the first
   * unsent byte when there is unsent data; else, in recovery, (3) the first
   * unsacked, unretransmitted item; else nothing. Rule (3) is stated for a
   * head whose sequence number is not 0, the value the source also uses to
   * mean "not yet chosen".
   */
  lemma NextSegCorrect(st: BufState, dup: nat, seg: nat, recovery: bool)
    ensures var r := NextSeg(st, dup, seg, recovery);
      var l := st.sent;
      var lostAny := exists k :: 0 <= k < |l| && LostCandidate(l, st.first, st.hs, dup, seg, k);
      var unsent := SizeFromSequence(st, st.first + st.sentSize) > 0;
      && (lostAny ==> exists k :: FirstLost(l, st.first, st.hs, dup, seg, 0, k) &&
                                  r == Some(StartOf(l, st.first, k)))
      && (!lostAny && unsent ==> r == Some(st.first + st.sentSize))
      && (!lostAny && !unsent && !recovery ==> r == None)
      && (!lostAny && !unsent && recovery && st.first > 0 ==>
            && (r.Some? <==> exists k :: 0 <= k < |l| && Candidate(l, k))
            && (r.Some? ==> exists k :: FirstCandidate(l, 0, k) && r.value == StartOf(l, st.first, k)))
  {
    assert st.sent[..0] == [];
    assert StartOf(st.sent, st.first, 0) == st.first;
    NextScanFound(st.sent, st.first, st.hs, dup, seg, recovery, 0, false, 0);
    if recovery && st.first > 0 {
      NextScanRule3(st.sent, st.first, st.hs, dup, seg, 0);
    }
  }

  // ---------------------------------------------------------------------
  // IsHeadRetransmitted (tcp-tx-buffer.cc:1512-1524)
  // ---------------------------------------------------------------------

  /** `IsHeadRetransmitted ()`; the assertion that the list is not empty is fatal. */
  function IsHeadRetransmitted(st: BufState): Result<bool> {
    if st.sentSize == 0 then Ok(false)
    else if st.sent == [] then Fatal(EmptySentList)
    else Ok(st.sent[0].retrans)
  }

  /**
   * On a consistent buffer the assertion holds, and the answer is whether
   * bytes are outstanding and the head carries the retransmission flag;
   * a true answer means the retransmission count is not zero.
   */
  lemma IsHeadRetransmittedCorrect(st: BufState)
    requires Consistent(st) && Is32(st.sentSize) && Total(st.sent) < M && |st.sent| < M
    ensures var r := IsHeadRetransmitted(st);
      && r.Ok?
      && (r.value <==> Total(st.sent) > 0 && st.sent[0].retrans)
      && (r.value ==> Retransmits(st.sent) > 0)
  {
    CongEq(st.sentSize, Total(st.sent));
    RetransmitsCount(st.sent);
  }

  // ---------------------------------------------------------------------
  // ResetScoreboard and SetSentListLost (tcp-tx-buffer.cc:1382-1397, 1499-1510)
  // ---------------------------------------------------------------------

  /** `ResetScoreboard ()`. */
  function ResetScoreboard(st: BufState): BufState {
    st.(sent := ClearSacked(st.sent), hs := NoSack(st.sent))
  }

  /**
   * After `ResetScoreboard` nothing is sacked, and the stored highest sack is
   * what `GetHighestSacked` would compute; only the sacked flags and the
   * highest sack change, so the counter invariant holds as before.
   */
  lemma ResetScoreboardCorrect(st: BufState)
    ensures var r := ResetScoreboard(st);
      && |r.sent| == |st.sent|
      && (forall k :: 0 <= k < |st.sent| ==> r.sent[k] == st.sent[k].(sacked := false))
      && r.hs == HighestSacked(r.sent, r.first)
      && Flatten(r.sent) == Flatten(st.sent)
      && r.(sent := st.sent, hs := st.hs) == st
      && (Consistent(st) ==> Consistent(r))
  {
    SameShapeTotal(ClearSacked(st.sent), st.sent);
  }

  /** `SetSentListLost ()`. */
  function SetSentListLost(st: BufState): BufState {
    st.(sent := MarkAllLost(st.sent))
  }

  /**
   * `SetSentListLost` flags every sent item lost and changes nothing else:
   * the bytes and the invariant stay, every item is lost, and the pipe is
   * empty.
   */
  lemma SetSentListLostCorrect(st: BufState, dup: nat, seg: nat)
    ensures var r := SetSentListLost(st);
      && |r.sent| == |st.sent|
      && (forall k :: 0 <= k < |st.sent| ==> r.sent[k] == st.sent[k].(lost := true))
      && r.(sent := st.sent) == st
      && Flatten(r.sent) == Flatten(st.sent)
      && (forall k :: 0 <= k < |st.sent| ==>
            IsLostAt(r.sent, r.hs, k, StartOf(st.sent, st.first, k), dup, seg))
      && BytesInFlight(r.sent, r.first, r.hs, dup, seg) == 0
      && (Consistent(st) ==> Consistent(r))
  {
    MarkAllLostEffect(st.sent, st.first, st.hs, dup, seg);
  }

  // ---------------------------------------------------------------------
  // ResetLastSegmentSent (tcp-tx-buffer.cc:1476-1497)
  // ---------------------------------------------------------------------

  /**
   * `ResetLastSegmentSent ()`. The highest sack is left as it was; an
   * iterator to the removed item is taken to mean the end of the list.
   */
  function ResetLastSegmentSent(st: BufState): BufState {
    if st.sent == [] then st
    else
      var n := |st.sent|;
      var item := st.sent[n - 1];
      var k := |item.data|;
      var st1 := st.(sent := st.sent[..n - 1], sentSize := Sub(st.sentSize, k),
                     hs := AfterResize(st.hs, n, n - 1));
      if !item.qided then st1.(appsentSize := Sub(st.appsentSize, k), app := [item] + st.app)
      else st1.(stagesentSize := Sub(st.stagesentSize, k), qid := [item] + st.qid)
  }

  /**
   * The last sent item goes back, unchanged, to the front of its own
   * stream's pending list; `m_sentSize` and that stream's sent counter lose
   * its size, and the invariant still holds.
   */
  lemma ResetLastSegmentSentCorrect(st: BufState)
    ensures var r := ResetLastSegmentSent(st);
      && (st.sent == [] ==> r == st)
      && (st.sent != [] ==>
            var item := st.sent[|st.sent| - 1];
            var k := |item.data|;
            && r.sent + [item] == st.sent
            && Flatten(r.sent) + item.data == Flatten(st.sent)
            && r.sentSize == Sub(st.sentSize, k)
            && (!item.qided ==> r.app == [item] + st.app && r.qid == st.qid &&
                                r.appsentSize == Sub(st.appsentSize, k) && r.stagesentSize == st.stagesentSize)
            && (item.qided ==> r.qid == [item] + st.qid && r.app == st.app &&
                               r.stagesentSize == Sub(st.stagesentSize, k) && r.appsentSize == st.appsentSize)
            && r.size == st.size && r.stageSize == st.stageSize && r.first == st.first)
      && (Consistent(st) ==> Consistent(r))
  {
    if st.sent != [] {
      var n := |st.sent|;
      var item := st.sent[n - 1];
      var k := |item.data|;
      var r := ResetLastSegmentSent(st);
      assert st.sent == r.sent + [item];
      FlattenConcat(r.sent, [item]);
      assert Flatten([item]) == item.data;
      FlattenConcat([item], st.app);
      FlattenConcat([item], st.qid);
      if Consistent(st) {
        RequeueCong(st.sentSize, Total(r.sent), st.size + st.stageSize, Total(st.app) + Total(st.qid), k);
      }
    }
  }

  /**
   * Handing `k` bytes back from the sent list to a pending list keeps both
   * congruences.
   */
  lemma RequeueCong(sentSize: nat, sentTotal: int, sizes: int, pending: int, k: nat)
    requires Cong(sentSize, sentTotal + k) && Cong(sizes - sentSize, pending)
    ensures Cong(Sub(sentSize, k), sentTotal)
    ensures Cong(sizes - Sub(sentSize, k), pending + k)
  {
    var mk: int := -(k as int);
    SubCong(sentSize, k);
    CongShift(sentSize, sentTotal + k, mk);
    CongTrans(Sub(sentSize, k), sentSize - k, sentTotal);
    assert Cong(sizes, sizes);
    CongSub(sizes, sizes, Sub(sentSize, k), sentSize - k);
    CongShift(sizes - sentSize, pending, k);
    assert sizes - (sentSize - k) == sizes - sentSize + k;
    CongTrans(sizes - Sub(sentSize, k), sizes - sentSize + k, pending + k);
  }

  // ---------------------------------------------------------------------
  // ResetSentList (tcp-tx-buffer.cc:1399-1474)
  // ---------------------------------------------------------------------

  /**
   * One iteration of the loop of `ResetSentList`: the tail item, its
   * retransmitted and sacked flags cleared, goes to the front of its own
   * stream's pending list; the new tail is flagged lost and its sacked and
   * retransmitted flags cleared; a primary item returns one unit of credit
   * and of `m_appnum`. `m_sentSize` and the popped stream's sent counter
   * lose `k` bytes, or become 0 when the sent list is now empty.
   */
  function Requeue(st: BufState, k: nat): (r: BufState)
    requires st.sent != []
    ensures |r.sent| == |st.sent| - 1
  {
    var n := |st.sent|;
    var item := st.sent[n - 1].(retrans := false, sacked := false);
    var rest := st.sent[..n - 1];
    var sent := if rest == [] then rest
                else rest[n - 2 := rest[n - 2].(lost := true, sacked := false, retrans := false)];
    if item.qided then
      var st1 := st.(sent := sent, qid := [item] + st.qid);
      if rest == [] then st1.(sentSize := 0, stagesentSize := 0)
      else st1.(stagesentSize := Sub(st.stagesentSize, k), sentSize := Sub(st.sentSize, k))
    else
      var st1 := st.(sent := sent, app := [item] + st.app, appnum := U32.Add(st.appnum, 1),
                     qednum := U32.Add(st.qednum, 1));
      if rest == [] then st1.(appsentSize := 0, sentSize := 0)
      else st1.(appsentSize := Sub(st.appsentSize, k), sentSize := Sub(st.sentSize, k))
  }

  /** The size of the item that becomes the tail (tcp-tx-buffer.cc:1429, 1455), 0 when none. */
  function NewTailSize(l: seq<TxItem>): nat {
    if |l| > 1 then |l[|l| - 2].data| else 0
  }

  /**
   * One iteration: as written, the counters lose the size of the new tail;
   * corrected, they lose the size of the item handed back.
   */
  function Pop(st: BufState, asWritten: bool): (r: BufState)
    requires st.sent != []
    ensures |r.sent| == |st.sent| - 1
  {
    Requeue(st, if asWritten then NewTailSize(st.sent) else |st.sent[|st.sent| - 1].data|)
  }

  /** The loop of tcp-tx-buffer.cc:1407-1468. */
  function ResetLoop(st: BufState, keep: nat, asWritten: bool): BufState
    decreases |st.sent|
  {
    if |st.sent| <= keep then st else ResetLoop(Pop(st, asWritten), keep, asWritten)
  }

  /** `ResetSentList (keepItems)` as the source computes it. */
  function ResetSentListAsWritten(st: BufState, keep: nat): BufState {
    var r := ResetLoop(st, keep, true);
    r.(hs := NoSack(r.sent))
  }

  /** `ResetSentList (keepItems)` with each iteration subtracting the size of the item it hands back. */
  function ResetSentList(st: BufState, keep: nat): BufState {
    var r := ResetLoop(st, keep, false);
    r.(hs := NoSack(r.sent))
  }

  /** The same payloads and streams, item by item. */
  predicate Kin(a: seq<TxItem>, b: seq<TxItem>) {
    |a| == |b| && forall k :: 0 <= k < |a| ==> a[k].data == b[k].data && a[k].qided == b[k].qided
  }

  /** The payloads of the items of `l` that belong to one stream, in order. */
  function StreamBytes(l: seq<TxItem>, q: bool): seq<byte> {
    if l == [] then []
    else StreamBytes(l[..|l| - 1], q) + (if l[|l| - 1].qided == q then l[|l| - 1].data else [])
  }

  /** What one iteration does to the lists. */
  lemma RequeueLists(st: BufState, k: nat)
    requires st.sent != []
    ensures var r := Requeue(st, k);
      var n := |st.sent|;
      var item := st.sent[n - 1];
      && Kin(r.sent, st.sent[..n - 1])
      && Total(r.sent) + |item.data| == Total(st.sent)
      && (item.qided ==> Flatten(r.qid) == item.data + Flatten(st.qid) && r.app == st.app)
      && (!item.qided ==> Flatten(r.app) == item.data + Flatten(st.app) && r.qid == st.qid)
      && r.size == st.size && r.stageSize == st.stageSize && r.first == st.first
      && (n > 1 ==> r.sentSize == Sub(st.sentSize, k))
      && (n == 1 ==> r.sentSize == 0)
  {
    RequeueSent(st, k);
    RequeuePending(st, k);
  }

  /** What one iteration does to the sent list. */
  lemma RequeueSent(st: BufState, k: nat)
    requires st.sent != []
    ensures var r := Requeue(st, k);
      var n := |st.sent|;
      && Kin(r.sent, st.sent[..n - 1])
      && Total(r.sent) + |st.sent[n - 1].data| == Total(st.sent)
  {
    var n := |st.sent|;
    var r := Requeue(st, k);
    var item := st.sent[n - 1];
    assert SameShape(r.sent, st.sent[..n - 1]);
    SameShapeTotal(r.sent, st.sent[..n - 1]);
    PushTotal(st.sent[..n - 1], item);
    assert st.sent[..n - 1] + [item] == st.sent;
  }

  /** What one iteration does to the pending lists. */
  lemma RequeuePending(st: BufState, k: nat)
    requires st.sent != []
    ensures var r := Requeue(st, k);
      var item := st.sent[|st.sent| - 1];
      && (item.qided ==> Flatten(r.qid) == item.data + Flatten(st.qid) && r.app == st.app)
      && (!item.qided ==> Flatten(r.app) == item.data + Flatten(st.app) && r.qid == st.qid)
  {
    var item := st.sent[|st.sent| - 1];
    var back := item.(retrans := false, sacked := false);
    FlattenConcat([back], st.app);
    FlattenConcat([back], st.qid);
    assert Flatten([back]) == item.data;
  }

  lemma KinPrefix(a: seq<TxItem>, b: seq<TxItem>, m: nat)
    requires Kin(a, b) && m <= |a|
    ensures Kin(a[..m], b[..m]) && Flatten(a[..m]) == Flatten(b[..m])
  {
    assert SameShape(a[..m], b[..m]);
    SameShapeTotal(a[..m], b[..m]);
  }

  lemma {:induction false} KinStreamBytes(a: seq<TxItem>, b: seq<TxItem>, q: bool)
    requires Kin(a, b)
    ensures StreamBytes(a, q) == StreamBytes(b, q)
    decreases |a|
  {
    if a != [] {
      KinPrefix(a, b, |a| - 1);
      KinStreamBytes(a[..|a| - 1], b[..|b| - 1], q);
    }
  }

  /** The stream bytes of a suffix are those without its last item, then the last item's. */
  lemma StreamBytesLast(l: seq<TxItem>, m: nat, q: bool)
    requires m < |l|
    ensures StreamBytes(l[m..], q) ==
            StreamBytes(l[m..|l| - 1], q) + (if l[|l| - 1].qided == q then l[|l| - 1].data else [])
  {
    assert l[m..][..|l| - m - 1] == l[m..|l| - 1];
  }

  /** The pending list of stream `q`: `m_qidList` for the auxiliary stream, `m_appList` otherwise. */
  function PendingOf(st: BufState, q: bool): seq<TxItem> {
    if q then st.qid else st.app
  }

  /**
   * The loop keeps the first `Min(|sent|, keep)` items on the sent list with
   * their bytes and their streams, and leaves the stream sizes and the head
   * alone.
   */
  lemma {:induction false} ResetLoopSent(st: BufState, keep: nat, asWritten: bool)
    ensures var r := ResetLoop(st, keep, asWritten);
      var m := Min(|st.sent|, keep);
      && |r.sent| == m
      && Kin(r.sent, st.sent[..m])
      && Flatten(r.sent) == Flatten(st.sent[..m])
      && r.size == st.size && r.stageSize == st.stageSize && r.first == st.first
    decreases |st.sent|
  {
    var m := Min(|st.sent|, keep);
    if |st.sent| <= keep {
      assert st.sent[..m] == st.sent;
      assert Kin(st.sent, st.sent);
    } else {
      var n := |st.sent|;
      var p := Pop(st, asWritten);
      RequeueLists(st, if asWritten then NewTailSize(st.sent) else |st.sent[n - 1].data|);
      ResetLoopSent(p, keep, asWritten);
      var r := ResetLoop(p, keep, asWritten);
      KinPrefix(p.sent, st.sent[..n - 1], m);
      assert st.sent[..n - 1][..m] == st.sent[..m];
      KinTrans(r.sent, p.sent[..m], st.sent[..m]);
    }
  }

  lemma KinTrans(a: seq<TxItem>, b: seq<TxItem>, c: seq<TxItem>)
    requires Kin(a, b) && Kin(b, c)
    ensures Kin(a, c) && Flatten(a) == Flatten(c)
  {
    assert SameShape(a, c);
    SameShapeTotal(a, c);
  }

  /** The loop moves bytes between the lists and loses none. */
  lemma {:induction false} ResetLoopTotals(st: BufState, keep: nat, asWritten: bool)
    ensures var r := ResetLoop(st, keep, asWritten);
      Total(r.sent) + Total(r.app) + Total(r.qid) == Total(st.sent) + Total(st.app) + Total(st.qid)
    decreases |st.sent|
  {
    if |st.sent| > keep {
      var n := |st.sent|;
      var p := Pop(st, asWritten);
      RequeueLists(st, if asWritten then NewTailSize(st.sent) else |st.sent[n - 1].data|);
      FlattenTotal(p.app);
      FlattenTotal(p.qid);
      FlattenTotal(st.app);
      FlattenTotal(st.qid);
      ResetLoopTotals(p, keep, asWritten);
    }
  }

  /** One iteration puts the tail's bytes in front of its own stream's pending bytes. */
  lemma RequeueStream(st: BufState, k: nat, q: bool)
    requires st.sent != []
    ensures var item := st.sent[|st.sent| - 1];
      Flatten(PendingOf(Requeue(st, k), q)) ==
        (if item.qided == q then item.data else []) + Flatten(PendingOf(st, q))
  {
    RequeueLists(st, k);
  }

  /** The items handed back reach their own stream's pending list, in order. */
  lemma {:induction false} ResetLoopStream(st: BufState, keep: nat, asWritten: bool, q: bool)
    ensures var r := ResetLoop(st, keep, asWritten);
      var m := Min(|st.sent|, keep);
      Flatten(PendingOf(r, q)) == StreamBytes(st.sent[m..], q) + Flatten(PendingOf(st, q))
    decreases |st.sent|
  {
    var m := Min(|st.sent|, keep);
    if |st.sent| <= keep {
      assert st.sent[m..] == [];
    } else {
      var n := |st.sent|;
      var k := if asWritten then NewTailSize(st.sent) else |st.sent[n - 1].data|;
      var p := Pop(st, asWritten);
      assert p == Requeue(st, k);
      assert ResetLoop(st, keep, asWritten) == ResetLoop(p, keep, asWritten);
      RequeueStream(st, k, q);
      RequeueLists(st, k);
      ResetLoopStream(p, keep, asWritten, q);
      StreamStep(st, p, m, q, Flatten(PendingOf(ResetLoop(p, keep, asWritten), q)));
    }
  }

  /** One step of `ResetLoopStream`, kept apart from the unfolding of the loop. */
  lemma StreamStep(st: BufState, p: BufState, m: nat, q: bool, x: seq<byte>)
    requires m < |st.sent| && m <= |p.sent| && Kin(p.sent, st.sent[..|st.sent| - 1])
    requires var last := st.sent[|st.sent| - 1];
      Flatten(PendingOf(p, q)) == (if last.qided == q then last.data else []) + Flatten(PendingOf(st, q))
    requires x == StreamBytes(p.sent[m..], q) + Flatten(PendingOf(p, q))
    ensures x == StreamBytes(st.sent[m..], q) + Flatten(PendingOf(st, q))
  {
    var n := |st.sent|;
    assert st.sent[..n - 1][m..] == st.sent[m..n - 1];
    KinSuffix(p.sent, st.sent[..n - 1], m);
    KinStreamBytes(p.sent[m..], st.sent[m..n - 1], q);
    StreamBytesLast(st.sent, m, q);
    var tail := if st.sent[n - 1].qided == q then st.sent[n - 1].data else [];
    ConcatAssoc(StreamBytes(st.sent[m..n - 1], q), tail, Flatten(PendingOf(st, q)));
  }

  lemma KinSuffix(a: seq<TxItem>, b: seq<TxItem>, m: nat)
    requires Kin(a, b) && m <= |a|
    ensures Kin(a[m..], b[m..])
  {
  }

  lemma FlattenTotal(l: seq<TxItem>)
    ensures |Flatten(l)| == Total(l)
  {
  }

  /** The flags an item gets when it becomes the tail (tcp-tx-buffer.cc:1423-1426, 1450-1453). */
  function Mark(x: TxItem): TxItem {
    x.(lost := true, sacked := false, retrans := false)
  }

  /** The flags cleared on the item handed back (tcp-tx-buffer.cc:1413). */
  function Clear(x: TxItem): TxItem {
    x.(retrans := false, sacked := false)
  }

  /**
   * The sent list once its first `m` items are kept: all of them when
   * nothing was handed back, otherwise with the last kept item marked as
   * the new tail.
   */
  function Kept(l: seq<TxItem>, m: nat): seq<TxItem>
    requires m <= |l|
  {
    if m == |l| || m == 0 then l[..m] else l[..m - 1] + [Mark(l[m - 1])]
  }

  /** The items of stream `q`, in order. */
  function Select(l: seq<TxItem>, q: bool): seq<TxItem> {
    if l == [] then []
    else Select(l[..|l| - 1], q) + (if l[|l| - 1].qided == q then [l[|l| - 1]] else [])
  }

  /**
   * The handed-back items as the loop leaves them: each was marked as the
   * tail before it was popped, except the old tail, and every one has its
   * retransmitted and sacked flags cleared.
   */
  function Returned(l: seq<TxItem>): seq<TxItem> {
    if l == [] then [] else Marks(l[..|l| - 1]) + [Clear(l[|l| - 1])]
  }

  /** Every item marked as a tail. */
  function Marks(l: seq<TxItem>): seq<TxItem> {
    if l == [] then [] else Marks(l[..|l| - 1]) + [Mark(l[|l| - 1])]
  }

  lemma {:induction false} SelectConcat(a: seq<TxItem>, b: seq<TxItem>, q: bool)
    ensures Select(a + b, q) == Select(a, q) + Select(b, q)
    decreases |b|
  {
    if b == [] {
      assert a + b == a;
    } else {
      var n := |b|;
      assert (a + b)[..|a + b| - 1] == a + b[..n - 1];
      SelectConcat(a, b[..n - 1], q);
    }
  }

  lemma {:induction false} KinSelect(a: seq<TxItem>, b: seq<TxItem>, q: bool)
    requires Kin(a, b)
    ensures |Select(a, q)| == |Select(b, q)|
    decreases |a|
  {
    if a != [] {
      KinPrefix(a, b, |a| - 1);
      KinSelect(a[..|a| - 1], b[..|b| - 1], q);
    }
  }

  /** One iteration, item by item: the new tail is marked, the old one cleared and pushed in front. */
  lemma RequeueItems(st: BufState, k: nat, q: bool)
    requires st.sent != []
    ensures var r := Requeue(st, k);
      var n := |st.sent|;
      var last := st.sent[n - 1];
      && r.sent == (if n == 1 then [] else st.sent[..n - 2] + [Mark(st.sent[n - 2])])
      && PendingOf(r, q) == Select([Clear(last)], q) + PendingOf(st, q)
  {
    var n := |st.sent|;
    if n > 1 {
      var rest := st.sent[..n - 1];
      assert rest[n - 2 := Mark(rest[n - 2])] == st.sent[..n - 2] + [Mark(st.sent[n - 2])];
    }
    assert Select([Clear(st.sent[n - 1])], q) == Select([], q) + (if st.sent[n - 1].qided == q then [Clear(st.sent[n - 1])] else []);
  }

  /** The loop keeps the first `Min(|sent|, keep)` items, the last of them marked as the new tail. */
  lemma {:induction false} ResetLoopKept(st: BufState, keep: nat, asWritten: bool)
    ensures var m := Min(|st.sent|, keep);
      ResetLoop(st, keep, asWritten).sent == Kept(st.sent, m)
    decreases |st.sent|
  {
    var n := |st.sent|;
    if n > keep {
      var k := if asWritten then NewTailSize(st.sent) else |st.sent[n - 1].data|;
      var p := Pop(st, asWritten);
      assert p == Requeue(st, k);
      RequeueItems(st, k, true);
      ResetLoopKept(p, keep, asWritten);
      var m := keep;
      if 0 < m < n - 1 {
        assert p.sent[..m - 1] == st.sent[..m - 1] && p.sent[m - 1] == st.sent[m - 1];
      }
    } else {
      assert st.sent[..n] == st.sent;
    }
  }

  /** The loop hands the other items back to their own stream's list, in order and with their flags reset. */
  lemma {:induction false} ResetLoopReturned(st: BufState, keep: nat, asWritten: bool, q: bool)
    ensures var m := Min(|st.sent|, keep);
      PendingOf(ResetLoop(st, keep, asWritten), q) == Select(Returned(st.sent[m..]), q) + PendingOf(st, q)
    decreases |st.sent|
  {
    var n := |st.sent|;
    if n > keep {
      var k := if asWritten then NewTailSize(st.sent) else |st.sent[n - 1].data|;
      var p := Pop(st, asWritten);
      assert p == Requeue(st, k);
      assert ResetLoop(st, keep, asWritten) == ResetLoop(p, keep, asWritten);
      RequeueItems(st, k, q);
      ResetLoopReturned(p, keep, asWritten, q);
      ReturnedStep(st, p, keep, q, PendingOf(ResetLoop(p, keep, asWritten), q));
    } else {
      assert st.sent[Min(n, keep)..] == [];
    }
  }

  /** One step of `ResetLoopReturned`, kept apart from the unfolding of the loop. */
  lemma ReturnedStep(st: BufState, p: BufState, m: nat, q: bool, x: seq<TxItem>)
    requires m < |st.sent|
    requires var n := |st.sent|;
      p.sent == (if n == 1 then [] else st.sent[..n - 2] + [Mark(st.sent[n - 2])])
    requires PendingOf(p, q) == Select([Clear(st.sent[|st.sent| - 1])], q) + PendingOf(st, q)
    requires m <= |p.sent| && x == Select(Returned(p.sent[m..]), q) + PendingOf(p, q)
    ensures x == Select(Returned(st.sent[m..]), q) + PendingOf(st, q)
  {
    var last := Clear(st.sent[|st.sent| - 1]);
    ReturnedPop(st.sent, p.sent, m);
    SelectConcat(Returned(p.sent[m..]), [last], q);
  }

  /** The items returned before an iteration are those returned after it, then the old tail. */
  lemma ReturnedPop(l: seq<TxItem>, ps: seq<TxItem>, m: nat)
    requires m < |l|
    requires ps == (if |l| == 1 then [] else l[..|l| - 2] + [Mark(l[|l| - 2])])
    ensures m <= |ps| && Returned(l[m..]) == Returned(ps[m..]) + [Clear(l[|l| - 1])]
  {
    var n := |l|;
    assert l[m..][..n - m - 1] == l[m..n - 1];
    if m < n - 1 {
      assert ps[m..] == l[m..n - 2] + [Mark(l[n - 2])];
      ReturnedMarked(l[m..n - 2], l[n - 2]);
      assert l[m..n - 2] + [l[n - 2]] == l[m..n - 1];
    }
  }

  /** Marking the tail first makes it one more marked item. */
  lemma ReturnedMarked(a: seq<TxItem>, y: TxItem)
    ensures Returned(a + [Mark(y)]) == Marks(a + [y])
  {
    assert (a + [Mark(y)])[..|a|] == a;
    assert (a + [y])[..|a|] == a;
  }

  /** One iteration returns a unit of credit exactly when it hands back a primary item. */
  lemma RequeueCredit(st: BufState, k: nat)
    requires st.sent != []
    ensures var r := Requeue(st, k);
      var primary := !st.sent[|st.sent| - 1].qided;
      && r.qednum == (if primary then U32.Add(st.qednum, 1) else st.qednum)
      && r.appnum == (if primary then U32.Add(st.appnum, 1) else st.appnum)
  {
  }

  /**
   * The loop returns one unit of `m_qednum` and of `m_appnum` for every
   * primary item it hands back (tcp-tx-buffer.cc:1442-1443).
   */
  lemma {:induction false} ResetLoopCredit(st: BufState, keep: nat, asWritten: bool)
    ensures var r := ResetLoop(st, keep, asWritten);
      var c := |Select(st.sent[Min(|st.sent|, keep)..], false)|;
      && r.qednum == (if c == 0 then st.qednum else U32.Add(st.qednum, c))
      && r.appnum == (if c == 0 then st.appnum else U32.Add(st.appnum, c))
    decreases |st.sent|
  {
    var n := |st.sent|;
    if n > keep {
      var k := if asWritten then NewTailSize(st.sent) else |st.sent[n - 1].data|;
      var p := Pop(st, asWritten);
      assert p == Requeue(st, k);
      assert ResetLoop(st, keep, asWritten) == ResetLoop(p, keep, asWritten);
      RequeueCredit(st, k);
      RequeueSent(st, k);
      ResetLoopCredit(p, keep, asWritten);
      var r := ResetLoop(p, keep, asWritten);
      CreditStep(st, p, keep, st.qednum, p.qednum, r.qednum);
      CreditStep(st, p, keep, st.appnum, p.appnum, r.appnum);
    } else {
      assert st.sent[Min(n, keep)..] == [];
    }
  }

  /** One step of `ResetLoopCredit` for one counter, kept apart from the unfolding of the loop. */
  lemma CreditStep(st: BufState, p: BufState, m: nat, a: nat, b: nat, x: nat)
    requires m < |st.sent| && Kin(p.sent, st.sent[..|st.sent| - 1])
    requires b == (if !st.sent[|st.sent| - 1].qided then U32.Add(a, 1) else a)
    requires var c := |Select(p.sent[m..], false)|;
      x == (if c == 0 then b else U32.Add(b, c))
    ensures var c := |Select(st.sent[m..], false)|;
      x == (if c == 0 then a else U32.Add(a, c))
  {
    var n := |st.sent|;
    KinSuffix(p.sent, st.sent[..n - 1], m);
    assert st.sent[..n - 1][m..] == st.sent[m..n - 1];
    KinSelect(p.sent[m..], st.sent[m..n - 1], false);
    assert st.sent[m..][..n - m - 1] == st.sent[m..n - 1];
    AddAdd(a, 1, |Select(p.sent[m..], false)|);
  }

  /**
   * With each iteration subtracting the size of the item it hands back,
   * `ResetSentList` keeps the counter invariant for every `keepItems`.
   */
  lemma {:induction false} ResetLoopConsistent(st: BufState, keep: nat)
    requires Consistent(st)
    ensures Consistent(ResetLoop(st, keep, false))
    decreases |st.sent|
  {
    if |st.sent| > keep {
      PopConsistent(st);
      ResetLoopConsistent(Pop(st, false), keep);
    }
  }

  /** One corrected iteration keeps the counter invariant. */
  lemma PopConsistent(st: BufState)
    requires Consistent(st) && st.sent != []
    ensures Consistent(Pop(st, false))
  {
    var n := |st.sent|;
    var k := |st.sent[n - 1].data|;
    var p := Pop(st, false);
    assert p == Requeue(st, k);
    RequeueLists(st, k);
    var pending := Total(st.app) + Total(st.qid);
    assert Total(p.app) + Total(p.qid) == pending + k by {
      FlattenTotal(p.app);
      FlattenTotal(p.qid);
      FlattenTotal(st.app);
      FlattenTotal(st.qid);
    }
    RequeueCong(st.sentSize, Total(p.sent), st.size + st.stageSize, pending, k);
    if n == 1 {
      assert Total(p.sent) == 0;
      assert Sub(st.sentSize, k) == 0;
    }
  }

  /**
   * The corrected `ResetSentList`: the first `keepItems` items stay with
   * their bytes, the last of them marked as the new tail when anything was
   * handed back; the rest go back to their streams in order, with their
   * flags reset; each primary item handed back returns one unit of
   * `m_qednum` and of `m_appnum`; the highest sack is reset, and the
   * invariant holds.
   */
  lemma ResetSentListCorrect(st: BufState, keep: nat)
    ensures var r := ResetSentList(st, keep);
      var m := Min(|st.sent|, keep);
      var c := |Select(st.sent[m..], false)|;
      && |r.sent| == m
      && Flatten(r.sent) == Flatten(st.sent[..m])
      && Flatten(r.app) == StreamBytes(st.sent[m..], false) + Flatten(st.app)
      && Flatten(r.qid) == StreamBytes(st.sent[m..], true) + Flatten(st.qid)
      && r.sent == Kept(st.sent, m)
      && r.app == Select(Returned(st.sent[m..]), false) + st.app
      && r.qid == Select(Returned(st.sent[m..]), true) + st.qid
      && r.qednum == (if c == 0 then st.qednum else U32.Add(st.qednum, c))
      && r.appnum == (if c == 0 then st.appnum else U32.Add(st.appnum, c))
      && r.hs == NoSack(r.sent)
      && (Consistent(st) ==> Consistent(r))
  {
    var l := ResetLoop(st, keep, false);
    ResetLoopSent(st, keep, false);
    ResetLoopStream(st, keep, false, false);
    ResetLoopStream(st, keep, false, true);
    ResetLoopKept(st, keep, false);
    ResetLoopReturned(st, keep, false, false);
    ResetLoopReturned(st, keep, false, true);
    ResetLoopCredit(st, keep, false);
    if Consistent(st) {
      ResetLoopConsistent(st, keep);
      SackResetConsistent(l);
    }
  }

  /** Resetting the highest sack leaves the counter invariant alone. */
  lemma SackResetConsistent(st: BufState)
    requires Consistent(st)
    ensures Consistent(st.(hs := NoSack(st.sent)))
  {
  }

  /**
   * As written, handing back every item still keeps the invariant: the last
   * iteration sets `m_sentSize` to 0 and every byte is pending again.
   */
  lemma ResetSentListAsWrittenAll(st: BufState)
    requires Consistent(st)
    ensures var r := ResetSentListAsWritten(st, 0);
      r.sent == [] && (st.sent != [] ==> r.sentSize == 0) && Consistent(r)
  {
    ResetLoopSent(st, 0, true);
    ResetLoopTotals(st, 0, true);
    var r := ResetLoop(st, 0, true);
    assert r.sent == [];
    if st.sent != [] {
      ResetLoopEmpties(st);
      EmptiedConsistent(st, r);
      SackResetConsistent(r);
    } else {
      SackResetConsistent(st);
    }
  }

  /** A sent list emptied into the pending lists, with `m_sentSize` at 0, is consistent. */
  lemma EmptiedConsistent(st: BufState, r: BufState)
    requires Consistent(st) && r.sent == [] && r.sentSize == 0
    requires r.size == st.size && r.stageSize == st.stageSize
    requires Total(r.sent) + Total(r.app) + Total(r.qid) == Total(st.sent) + Total(st.app) + Total(st.qid)
    ensures Consistent(r)
  {
    var sizes, pending := st.size + st.stageSize, Total(st.app) + Total(st.qid);
    CongAdd(sizes - st.sentSize, pending, st.sentSize, Total(st.sent));
    assert sizes - st.sentSize + st.sentSize == sizes;
  }

  lemma {:induction false} ResetLoopEmpties(st: BufState)
    requires st.sent != []
    ensures ResetLoop(st, 0, true).sentSize == 0
    decreases |st.sent|
  {
    var p := Pop(st, true);
    if p.sent != [] {
      ResetLoopEmpties(p);
    }
  }

  /**
   * As written, keeping one of two items of different sizes breaks the
   * invariant: the counter loses the size of the kept item instead of the
   * size of the returned one.
   */
  lemma ResetSentListAsWrittenBreaks(st: BufState)
    requires Consistent(st) && Is32(st.sentSize) && Total(st.sent) < M
    requires |st.sent| == 2 && |st.sent[0].data| != |st.sent[1].data|
    ensures !Consistent(ResetSentListAsWritten(st, 1))
  {
    CongEq(st.sentSize, Total(st.sent));
    var r := ResetSentListAsWritten(st, 1);
    RequeueLists(st, |st.sent[0].data|);
    assert ResetLoop(st, 1, true) == Requeue(st, |st.sent[0].data|);
    assert st.sent[..1] == [st.sent[0]];
    assert Total(r.sent) == |st.sent[0].data|;
    assert Total(st.sent) == |st.sent[0].data| + |st.sent[1].data|;
  }
}
