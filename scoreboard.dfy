/**
 * The SACK scoreboard kept on the sent list (tcp-tx-buffer.cc:708-731,
 * 1076-1397, 1500-1510, 1526-1614): which items are sacked, lost or
 * retransmitted, the highest sacked position, the RFC 6675 loss test, the
 * pipe estimate and the SACK option a receiver-less sender crafts for itself.
 *
 * Everything here is a function of the sent list, the sequence number of its
 * first byte and `m_highestSack`; the loops of the source are in the class
 * `TxBuffer.TcpTxBuffer`, each proved equal to the function given here.
 */
module Scoreboard {
  import opened U32
  import opened TxItems
  import opened ItemLists
  import opened Status

  /**
   * `m_highestSack`: an iterator into the sent list, as an index (`|sent|`
   * stands for `end ()`), and a sequence number.
   */
  datatype HighSack = HighSack(pos: nat, sn: nat)

  /** `std::make_pair (m_sentList.end (), SequenceNumber32 (0))`. */
  function NoSack(l: seq<TxItem>): HighSack {
    HighSack(|l|, 0)
  }

  /** The first and the one-past-last byte of item `k`. */
  function EndOf(l: seq<TxItem>, first: nat, k: nat): nat
    requires k < |l|
  {
    StartOf(l, first, k) + |l[k].data|
  }

  // ---------------------------------------------------------------------
  // GetHighestSacked (tcp-tx-buffer.cc:708-731)
  // ---------------------------------------------------------------------

  /** Index of the last sacked item, or -1 when none is sacked. */
  function LastSacked(l: seq<TxItem>): (r: int)
    ensures -1 <= r < |l|
    ensures r >= 0 ==> l[r].sacked
    ensures forall k :: r < k < |l| ==> !l[k].sacked
  {
    if l == [] then -1
    else if l[|l| - 1].sacked then |l| - 1
    else LastSacked(l[..|l| - 1])
  }

  /**
   * `GetHighestSacked ()`: the last sacked item and the sequence number of its
   * first byte; the end of the list and 0 when nothing is sacked.
   */
  function HighestSacked(l: seq<TxItem>, first: nat): (r: HighSack)
    ensures r.pos <= |l|
    ensures r.pos < |l| ==> l[r.pos].sacked && r.sn == StartOf(l, first, r.pos)
    ensures forall k :: r.pos < k < |l| ==> !l[k].sacked
    ensures r.pos == |l| ==> r.sn == 0 && forall k :: 0 <= k < |l| ==> !l[k].sacked
  {
    var k := LastSacked(l);
    if k < 0 then NoSack(l) else HighSack(k, StartOf(l, first, k))
  }

  // ---------------------------------------------------------------------
  // IsLost (tcp-tx-buffer.cc:1145-1239)
  // ---------------------------------------------------------------------

  /**
   * `(count >= dupThresh) || (bytes > (dupThresh-1) * segmentSize)`, all in
   * `uint32_t`.
   */
  predicate Threshold(dup: nat, seg: nat, count: nat, bytes: nat) {
    count >= dup || bytes > Mul(Sub(dup, 1), seg)
  }

  /**
   * The loop of tcp-tx-buffer.cc:1181-1205 from item `i`, whose first byte is
   * `begin`, with `count` sacked items and `bytes` sacked bytes seen so far.
   * It stops at `m_highestSack.first`, at the end of the list, or at the first
   * item that begins at or after `m_highestSack.second`.
   */
  function LostScan(l: seq<TxItem>, hs: HighSack, dup: nat, seg: nat,
                    i: nat, begin: nat, count: nat, bytes: nat): bool
    requires i <= |l|
    decreases |l| - i
  {
    if i == hs.pos || i == |l| then false
    else if begin >= hs.sn then false
    else if l[i].sacked then
      var c := Add(count, 1);
      var b := Add(bytes, |l[i].data|);
      if Threshold(dup, seg, c, b) then true
      else LostScan(l, hs, dup, seg, i + 1, begin + |l[i].data|, c, b)
    else LostScan(l, hs, dup, seg, i + 1, begin + |l[i].data|, count, bytes)
  }

  /**
   * `IsLost (seq, segment, dupThresh, segmentSize)` for the item at index `i`
   * whose first byte is `begin`.
   */
  function IsLostAt(l: seq<TxItem>, hs: HighSack, i: nat, begin: nat, dup: nat, seg: nat): bool
    requires i < |l|
  {
    if l[i].lost then true
    else if l[i].sacked then false
    else LostScan(l, hs, dup, seg, i, begin, 0, 0)
  }

  /**
   * Sacked items and sacked bytes in the window `LostScan` walks: from item
   * `i` up to the highest sack.
   */
  function Ahead(l: seq<TxItem>, hs: HighSack, i: nat, begin: nat): (r: (nat, nat))
    requires i <= |l|
    ensures r.0 == 0 ==> r.1 == 0
    ensures r.0 <= |l| - i
    decreases |l| - i
  {
    if i == hs.pos || i == |l| || begin >= hs.sn then (0, 0)
    else
      var rest := Ahead(l, hs, i + 1, begin + |l[i].data|);
      if l[i].sacked then (rest.0 + 1, rest.1 + |l[i].data|) else rest
  }

  /**
   * The scan answers true exactly when it meets some sacked item and the
   * totals at the end of the window reach the threshold: the threshold is
   * monotone, so reaching it part-way and at the end are the same.
   */
  lemma {:induction false} LostScanAhead(l: seq<TxItem>, hs: HighSack, dup: nat, seg: nat,
                                          i: nat, begin: nat, count: nat, bytes: nat)
    requires i <= |l|
    requires count + Ahead(l, hs, i, begin).0 < M && bytes + Ahead(l, hs, i, begin).1 < M
    ensures LostScan(l, hs, dup, seg, i, begin, count, bytes) ==
            (Ahead(l, hs, i, begin).0 > 0 &&
             Threshold(dup, seg, count + Ahead(l, hs, i, begin).0, bytes + Ahead(l, hs, i, begin).1))
    decreases |l| - i
  {
    if i == hs.pos || i == |l| || begin >= hs.sn {
    } else {
      var next := begin + |l[i].data|;
      var rest := Ahead(l, hs, i + 1, next);
      if l[i].sacked {
        var c := Add(count, 1);
        var b := Add(bytes, |l[i].data|);
        assert c == count + 1 && b == bytes + |l[i].data|;
        if !Threshold(dup, seg, c, b) {
          LostScanAhead(l, hs, dup, seg, i + 1, next, c, b);
        }
      } else {
        LostScanAhead(l, hs, dup, seg, i + 1, next, count, bytes);
      }
    }
  }

  /**
   * The loss rule of section 5 of RFC 6675 as the source applies it: an item
   * is lost when it is flagged lost, or when it is not sacked and, between it
   * and the highest sack, at least `dupThresh` sacked items or more than
   * `(dupThresh - 1) * segmentSize` sacked bytes lie.
   */
  lemma IsLostRule(l: seq<TxItem>, hs: HighSack, i: nat, begin: nat, dup: nat, seg: nat)
    requires i < |l|
    requires 1 <= dup < M && (dup - 1) * seg < M
    requires Ahead(l, hs, i, begin).0 < M && Ahead(l, hs, i, begin).1 < M
    ensures IsLostAt(l, hs, i, begin, dup, seg) <==>
            (l[i].lost ||
             (!l[i].sacked && (Ahead(l, hs, i, begin).0 >= dup ||
                               Ahead(l, hs, i, begin).1 > (dup - 1) * seg)))
  {
    if !l[i].lost && !l[i].sacked {
      LostScanAhead(l, hs, dup, seg, i, begin, 0, 0);
    }
  }

  /** With no sacked item in the window, only the lost flag counts. */
  lemma NothingSackedNotLost(l: seq<TxItem>, hs: HighSack, i: nat, begin: nat, dup: nat, seg: nat)
    requires i < |l|
    requires forall k :: i <= k < |l| ==> !l[k].sacked
    ensures IsLostAt(l, hs, i, begin, dup, seg) == l[i].lost
  {
    NoneSackedAhead(l, hs, i, begin);
    if !l[i].lost && !l[i].sacked {
      LostScanAhead(l, hs, dup, seg, i, begin, 0, 0);
    }
  }

  lemma {:induction false} NoneSackedAhead(l: seq<TxItem>, hs: HighSack, i: nat, begin: nat)
    requires i <= |l|
    requires forall k :: i <= k < |l| ==> !l[k].sacked
    ensures Ahead(l, hs, i, begin) == (0, 0)
    decreases |l| - i
  {
    if !(i == hs.pos || i == |l| || begin >= hs.sn) {
      NoneSackedAhead(l, hs, i + 1, begin + |l[i].data|);
    }
  }

  /**
   * The search of tcp-tx-buffer.cc:1226-1236: the first item from `i` on
   * that begins at or after `sn`.
   */
  function LostSearch(l: seq<TxItem>, hs: HighSack, sn: nat, dup: nat, seg: nat,
                      i: nat, begin: nat): bool
    requires i <= |l|
    decreases |l| - i
  {
    if i == |l| then false
    else if begin >= sn then IsLostAt(l, hs, i, begin, dup, seg)
    else LostSearch(l, hs, sn, dup, seg, i + 1, begin + |l[i].data|)
  }

  /** `IsLost (seq, dupThresh, segmentSize)`. */
  function IsLost(l: seq<TxItem>, first: nat, hs: HighSack, sn: nat, dup: nat, seg: nat): bool {
    if sn >= hs.sn then false else LostSearch(l, hs, sn, dup, seg, 0, first)
  }

  /** No item before `k` begins at or after `sn`. */
  predicate FirstAtOrAfter(l: seq<TxItem>, first: nat, sn: nat, k: nat)
    requires k < |l|
  {
    StartOf(l, first, k) >= sn && forall j :: 0 <= j < k ==> StartOf(l, first, j) < sn
  }

  /**
   * `IsLost` by sequence number: false at or above the highest sack;
   * otherwise the loss test of the first item that begins at or after `sn`,
   * and false when there is none.
   */
  lemma IsLostBySequence(l: seq<TxItem>, first: nat, hs: HighSack, sn: nat, dup: nat, seg: nat)
    ensures IsLost(l, first, hs, sn, dup, seg) <==>
            (sn < hs.sn &&
             exists k :: 0 <= k < |l| && FirstAtOrAfter(l, first, sn, k) &&
                         IsLostAt(l, hs, k, StartOf(l, first, k), dup, seg))
  {
    if sn < hs.sn {
      assert StartOf(l, first, 0) == first;
      LostSearchFinds(l, first, hs, sn, dup, seg, 0);
    }
  }

  lemma {:induction false} LostSearchFinds(l: seq<TxItem>, first: nat, hs: HighSack, sn: nat,
                                            dup: nat, seg: nat, i: nat)
    requires i <= |l|
    requires forall j :: 0 <= j < i ==> StartOf(l, first, j) < sn
    ensures LostSearch(l, hs, sn, dup, seg, i, StartOf(l, first, i)) <==>
            exists k :: 0 <= k < |l| && FirstAtOrAfter(l, first, sn, k) &&
                        IsLostAt(l, hs, k, StartOf(l, first, k), dup, seg)
    decreases |l| - i
  {
    if i == |l| {
      assert forall k :: 0 <= k < |l| ==> !FirstAtOrAfter(l, first, sn, k);
    } else if StartOf(l, first, i) >= sn {
      assert FirstAtOrAfter(l, first, sn, i);
      forall k | 0 <= k < |l| && FirstAtOrAfter(l, first, sn, k)
        ensures k == i
      {
      }
    } else {
      StartOfNext(l, first, i);
      LostSearchFinds(l, first, hs, sn, dup, seg, i + 1);
    }
  }

  // ---------------------------------------------------------------------
  // BytesInFlight (tcp-tx-buffer.cc:1347-1380)
  // ---------------------------------------------------------------------

  /** Item `k` adds to the pipe: not sacked, and not lost or retransmitted while not flagged lost. */
  predicate InPipe(l: seq<TxItem>, hs: HighSack, k: nat, begin: nat, dup: nat, seg: nat)
    requires k < |l|
  {
    !l[k].sacked &&
    (!IsLostAt(l, hs, k, begin, dup, seg) || (l[k].retrans && !l[k].lost))
  }

  /** The loop of tcp-tx-buffer.cc:1359-1377 from item `i`, with `acc` bytes so far. */
  function PipeFrom(l: seq<TxItem>, hs: HighSack, dup: nat, seg: nat,
                    i: nat, begin: nat, acc: nat): nat
    requires i <= |l|
    decreases |l| - i
  {
    if i == |l| then acc
    else
      var acc' := if InPipe(l, hs, i, begin, dup, seg) then Add(acc, |l[i].data|) else acc;
      PipeFrom(l, hs, dup, seg, i + 1, begin + |l[i].data|, acc')
  }

  /** `BytesInFlight (dupThresh, segmentSize)`, the `pipe` of RFC 6675. */
  function BytesInFlight(l: seq<TxItem>, first: nat, hs: HighSack, dup: nat, seg: nat): nat {
    PipeFrom(l, hs, dup, seg, 0, first, 0)
  }

  /** The pipe never exceeds the bytes on the sent list (while they fit in 32 bits). */
  lemma {:induction false} PipeBound(l: seq<TxItem>, hs: HighSack, dup: nat, seg: nat,
                                      i: nat, begin: nat, acc: nat)
    requires i <= |l| && acc + Total(l[i..]) < M
    ensures acc <= PipeFrom(l, hs, dup, seg, i, begin, acc) <= acc + Total(l[i..])
    decreases |l| - i
  {
    if i < |l| {
      assert l[i..][1..] == l[i + 1..];
      var acc' := if InPipe(l, hs, i, begin, dup, seg) then Add(acc, |l[i].data|) else acc;
      PipeBound(l, hs, dup, seg, i + 1, begin + |l[i].data|, acc');
    }
  }

  lemma BytesInFlightBound(l: seq<TxItem>, first: nat, hs: HighSack, dup: nat, seg: nat)
    requires Total(l) < M
    ensures BytesInFlight(l, first, hs, dup, seg) <= Total(l)
  {
    assert l[0..] == l;
    PipeBound(l, hs, dup, seg, 0, first, 0);
  }

  /** Bytes of the items not flagged lost. */
  function NotLostBytes(l: seq<TxItem>): nat {
    if l == [] then 0 else (if l[0].lost then 0 else |l[0].data|) + NotLostBytes(l[1..])
  }

  /**
   * With nothing sacked, no item is found lost by the threshold, so the pipe
   * is every byte not flagged lost.
   */
  lemma {:induction false} PipeNothingSacked(l: seq<TxItem>, hs: HighSack, dup: nat, seg: nat,
                                              i: nat, begin: nat, acc: nat)
    requires i <= |l| && acc + NotLostBytes(l[i..]) < M
    requires forall k :: 0 <= k < |l| ==> !l[k].sacked
    ensures PipeFrom(l, hs, dup, seg, i, begin, acc) == acc + NotLostBytes(l[i..])
    decreases |l| - i
  {
    if i < |l| {
      assert l[i..][1..] == l[i + 1..];
      NothingSackedNotLost(l, hs, i, begin, dup, seg);
      var acc' := if InPipe(l, hs, i, begin, dup, seg) then Add(acc, |l[i].data|) else acc;
      PipeNothingSacked(l, hs, dup, seg, i + 1, begin + |l[i].data|, acc');
    }
  }

  lemma BytesInFlightNothingSacked(l: seq<TxItem>, first: nat, hs: HighSack, dup: nat, seg: nat)
    requires NotLostBytes(l) < M
    requires forall k :: 0 <= k < |l| ==> !l[k].sacked
    ensures BytesInFlight(l, first, hs, dup, seg) == NotLostBytes(l)
  {
    assert l[0..] == l;
    PipeNothingSacked(l, hs, dup, seg, 0, first, 0);
  }

  /** With every item flagged lost nothing is in flight. */
  lemma {:induction false} PipeAllLost(l: seq<TxItem>, hs: HighSack, dup: nat, seg: nat,
                                        i: nat, begin: nat, acc: nat)
    requires i <= |l|
    requires forall k :: 0 <= k < |l| ==> l[k].lost
    ensures PipeFrom(l, hs, dup, seg, i, begin, acc) == acc
    decreases |l| - i
  {
    if i < |l| {
      assert !InPipe(l, hs, i, begin, dup, seg);
      PipeAllLost(l, hs, dup, seg, i + 1, begin + |l[i].data|, acc);
    }
  }

  // ---------------------------------------------------------------------
  // GetRetransmitsCount (tcp-tx-buffer.cc:1329-1344)
  // ---------------------------------------------------------------------

  /** Retransmitted items of `l`, counted in `uint32_t`. */
  function Retransmits(l: seq<TxItem>): nat {
    if l == [] then 0
    else Add(Retransmits(l[..|l| - 1]), if l[|l| - 1].retrans then 1 else 0)
  }

  /** The count is the number of retransmitted items, and zero exactly when there are none. */
  lemma {:induction false} RetransmitsCount(l: seq<TxItem>)
    requires |l| < M
    ensures Retransmits(l) <= |l|
    ensures Retransmits(l) == 0 <==> forall k :: 0 <= k < |l| ==> !l[k].retrans
  {
    if l != [] {
      var p := l[..|l| - 1];
      RetransmitsCount(p);
      assert forall k :: 0 <= k < |p| ==> p[k] == l[k];
      if !l[|l| - 1].retrans {
        assert (forall k :: 0 <= k < |l| ==> !l[k].retrans) <==>
               (forall k :: 0 <= k < |p| ==> !p[k].retrans);
      }
    }
  }

  /** Flags that do not say `retrans` leave the count alone. */
  lemma {:induction false} RetransmitsSameFlags(a: seq<TxItem>, b: seq<TxItem>)
    requires |a| == |b| && forall k :: 0 <= k < |a| ==> a[k].retrans == b[k].retrans
    ensures Retransmits(a) == Retransmits(b)
  {
    if a != [] {
      RetransmitsSameFlags(a[..|a| - 1], b[..|b| - 1]);
    }
  }

  // ---------------------------------------------------------------------
  // ResetScoreboard and SetSentListLost (tcp-tx-buffer.cc:1382-1397, 1499-1510)
  // ---------------------------------------------------------------------

  /** Every item with `m_sacked` cleared. */
  function ClearSacked(l: seq<TxItem>): seq<TxItem> {
    seq(|l|, k requires 0 <= k < |l| => l[k].(sacked := false))
  }

  /** Every item with `m_lost` set. */
  function MarkAllLost(l: seq<TxItem>): seq<TxItem> {
    seq(|l|, k requires 0 <= k < |l| => l[k].(lost := true))
  }

  /**
   * After `ResetScoreboard` the list carries the same bytes, the highest sack
   * recomputed is the end of the list, and the pipe counts every byte not
   * flagged lost.
   */
  lemma ClearSackedEffect(l: seq<TxItem>, first: nat, hs: HighSack, dup: nat, seg: nat)
    requires NotLostBytes(l) < M
    ensures SameShape(ClearSacked(l), l) && Flatten(ClearSacked(l)) == Flatten(l)
    ensures HighestSacked(ClearSacked(l), first) == NoSack(l)
    ensures BytesInFlight(ClearSacked(l), first, hs, dup, seg) == NotLostBytes(l)
    ensures Retransmits(ClearSacked(l)) == Retransmits(l)
  {
    var c := ClearSacked(l);
    SameShapeTotal(c, l);
    NotLostSameLost(c, l);
    BytesInFlightNothingSacked(c, first, hs, dup, seg);
    RetransmitsSameFlags(c, l);
  }

  /**
   * After `SetSentListLost` the bytes are the same, every item is lost by
   * sequence number, nothing is in flight and the retransmission count is
   * unchanged.
   */
  lemma MarkAllLostEffect(l: seq<TxItem>, first: nat, hs: HighSack, dup: nat, seg: nat)
    ensures SameShape(MarkAllLost(l), l) && Flatten(MarkAllLost(l)) == Flatten(l)
    ensures forall k :: 0 <= k < |l| ==> IsLostAt(MarkAllLost(l), hs, k, StartOf(l, first, k), dup, seg)
    ensures BytesInFlight(MarkAllLost(l), first, hs, dup, seg) == 0
    ensures Retransmits(MarkAllLost(l)) == Retransmits(l)
  {
    var m := MarkAllLost(l);
    SameShapeTotal(m, l);
    PipeAllLost(m, hs, dup, seg, 0, first, 0);
    RetransmitsSameFlags(m, l);
  }

  lemma {:induction false} NotLostSameLost(a: seq<TxItem>, b: seq<TxItem>)
    requires SameShape(a, b) && forall k :: 0 <= k < |a| ==> a[k].lost == b[k].lost
    ensures NotLostBytes(a) == NotLostBytes(b)
  {
    if a != [] {
      NotLostSameLost(a[1..], b[1..]);
    }
  }

  // ---------------------------------------------------------------------
  // Update (tcp-tx-buffer.cc:1075-1143)
  // ---------------------------------------------------------------------

  /** A SACK block `[lo, hi)`. */
  datatype SackBlock = SackBlock(lo: nat, hi: nat)

  /** Item `k` lies wholly inside block `b`. */
  predicate Inside(l: seq<TxItem>, first: nat, k: nat, b: SackBlock)
    requires k < |l|
  {
    b.lo <= StartOf(l, first, k) && EndOf(l, first, k) <= b.hi
  }

  /** The list, `m_highestSack` and `modified` while the blocks are processed. */
  datatype Board = Board(items: seq<TxItem>, hs: HighSack, modified: bool)

  /**
   * The walk of tcp-tx-buffer.cc:1089-1136 for one block, from item `k`
   * whose first byte is `begin`: sack every item inside the block, move the
   * highest sack past each newly sacked item that ends at or after it, and
   * stop at the first item that ends beyond the block.
   */
  function MarkBlock(l: seq<TxItem>, b: SackBlock, hs: HighSack, modified: bool,
                     k: nat, begin: nat): Board
    requires k <= |l|
    decreases |l| - k
  {
    if k == |l| then Board(l, hs, modified)
    else
      var e := begin + |l[k].data|;
      if begin >= b.lo && e <= b.hi then
        if l[k].sacked then MarkBlock(l, b, hs, true, k + 1, e)
        else
          var hs' := if hs.sn <= e then HighSack(k + 1, e) else hs;
          MarkBlock(l[k := l[k].(sacked := true)], b, hs', true, k + 1, e)
      else if e > b.hi then Board(l, hs, modified)
      else MarkBlock(l, b, hs, modified, k + 1, e)
  }

  /** Every block of the option in turn, each walk starting at the head. */
  function UpdateFrom(l: seq<TxItem>, first: nat, blocks: seq<SackBlock>, j: nat,
                      hs: HighSack, modified: bool): Board
    requires j <= |blocks|
    decreases |blocks| - j
  {
    if j == |blocks| then Board(l, hs, modified)
    else
      var r := MarkBlock(l, blocks[j], hs, modified, 0, first);
      UpdateFrom(r.items, first, blocks, j + 1, r.hs, r.modified)
  }

  /**
   * `Update (list)`: the scoreboard after the blocks, and whether any item
   * lay inside one of them; the closing assertion that the head is not
   * sacked (and its dereference of the head) is a fatal outcome.
   */
  function Update(l: seq<TxItem>, first: nat, blocks: seq<SackBlock>, hs: HighSack): Result<Board> {
    var r := UpdateFrom(l, first, blocks, 0, hs, false);
    if r.items == [] then Fatal(EmptySentList)
    else if r.items[0].sacked then Fatal(HeadSacked)
    else Ok(r)
  }

  /** Item `i` of `l` with block `b` applied. */
  function Marked(l: seq<TxItem>, first: nat, b: SackBlock, i: nat): TxItem
    requires i < |l|
  {
    l[i].(sacked := l[i].sacked || Inside(l, first, i, b))
  }

  /** Once an item ends beyond the block, every later one does. */
  lemma PastBlock(l: seq<TxItem>, first: nat, b: SackBlock, k: nat)
    requires k < |l| && EndOf(l, first, k) > b.hi
    ensures forall i :: k <= i < |l| ==> !Inside(l, first, i, b)
  {
    forall i | k <= i < |l|
      ensures EndOf(l, first, i) >= EndOf(l, first, k)
    {
      StartOfNext(l, first, k);
      StartOfNext(l, first, i);
      StartOfMono(l, first, k + 1, i + 1);
    }
  }

  /**
   * One block, walked from item `k` of the list `l0` it started on: the
   * early `break` of tcp-tx-buffer.cc:1124-1133 never skips an item inside
   * the block, so exactly the items inside it end up sacked; `modified`
   * records whether any item lay inside it; the highest sack only grows and
   * covers the end of every newly sacked item.
   */
  lemma {:induction false} MarkBlockCorrect(l0: seq<TxItem>, l: seq<TxItem>, first: nat, b: SackBlock,
                                             hs: HighSack, modified: bool, k: nat)
    requires k <= |l| == |l0|
    requires forall i :: 0 <= i < k ==> l[i] == Marked(l0, first, b, i)
    requires forall i :: k <= i < |l| ==> l[i] == l0[i]
    ensures var r := MarkBlock(l, b, hs, modified, k, StartOf(l0, first, k));
      && |r.items| == |l0|
      && (forall i :: 0 <= i < |l0| ==> r.items[i] == Marked(l0, first, b, i))
      && (r.modified <==> modified || exists i :: k <= i < |l0| && Inside(l0, first, i, b))
      && hs.sn <= r.hs.sn
      && (hs.pos <= |l0| ==> r.hs.pos <= |l0|)
      && (forall i :: k <= i < |l0| && !l0[i].sacked && Inside(l0, first, i, b) ==>
            EndOf(l0, first, i) <= r.hs.sn)
      && (r.hs == hs ||
          exists i :: k <= i < |l0| && !l0[i].sacked && Inside(l0, first, i, b) &&
                      r.hs == HighSack(i + 1, EndOf(l0, first, i)))
    decreases |l| - k
  {
    assert SameShape(l, l0);
    SameShapeStart(l, l0, first, k);
    if k < |l| {
      var begin := StartOf(l0, first, k);
      var e := begin + |l[k].data|;
      StartOfNext(l0, first, k);
      if begin >= b.lo && e <= b.hi {
        assert Inside(l0, first, k, b);
        var l' := if l[k].sacked then l else l[k := l[k].(sacked := true)];
        var hs' := if l[k].sacked || hs.sn > e then hs else HighSack(k + 1, e);
        MarkBlockCorrect(l0, l', first, b, hs', true, k + 1);
        assert e == EndOf(l0, first, k);
      } else if e > b.hi {
        PastBlock(l0, first, b, k);
      } else {
        assert !Inside(l0, first, k, b);
        MarkBlockCorrect(l0, l, first, b, hs, modified, k + 1);
      }
    } else {
      assert forall i :: 0 <= i < |l0| ==> l[i] == Marked(l0, first, b, i);
    }
  }

  lemma InsideSame(a: seq<TxItem>, c: seq<TxItem>, first: nat, b: SackBlock)
    requires SameShape(a, c)
    ensures forall i :: 0 <= i < |a| ==> Inside(a, first, i, b) == Inside(c, first, i, b)
  {
    forall i | 0 <= i < |a|
      ensures StartOf(a, first, i) == StartOf(c, first, i)
    {
      SameShapeStart(a, c, first, i);
    }
  }

  /** Some of the first `j` blocks covers item `i`. */
  predicate InsideSome(l: seq<TxItem>, first: nat, i: nat, blocks: seq<SackBlock>, j: nat)
    requires i < |l| && j <= |blocks|
  {
    exists m :: 0 <= m < j && Inside(l, first, i, blocks[m])
  }

  /** `r` is `l` with the first `j` blocks applied. */
  predicate SackedBy(l: seq<TxItem>, r: seq<TxItem>, first: nat, blocks: seq<SackBlock>, j: nat)
    requires j <= |blocks|
  {
    |r| == |l| &&
    forall i :: 0 <= i < |l| ==> r[i] == l[i].(sacked := l[i].sacked || InsideSome(l, first, i, blocks, j))
  }

  lemma {:induction false} UpdateFromCorrect(l0: seq<TxItem>, l: seq<TxItem>, first: nat,
                                              blocks: seq<SackBlock>, j: nat, hs: HighSack, modified: bool)
    requires j <= |blocks| && SackedBy(l0, l, first, blocks, j)
    ensures var r := UpdateFrom(l, first, blocks, j, hs, modified);
      && SackedBy(l0, r.items, first, blocks, |blocks|)
      && (r.modified <==>
            (modified || exists i, m :: 0 <= i < |l0| && j <= m < |blocks| && Inside(l0, first, i, blocks[m])))
      && hs.sn <= r.hs.sn
      && (hs.pos <= |l0| ==> r.hs.pos <= |l0|)
      && (forall i :: 0 <= i < |l0| && !l[i].sacked && r.items[i].sacked ==> EndOf(l0, first, i) <= r.hs.sn)
      && (r.hs == hs ||
          exists i :: 0 <= i < |l0| && !l[i].sacked && r.items[i].sacked &&
                      r.hs == HighSack(i + 1, EndOf(l0, first, i)))
    decreases |blocks| - j
  {
    if j < |blocks| {
      var b := blocks[j];
      assert SameShape(l, l0);
      InsideSame(l, l0, first, b);
      assert StartOf(l, first, 0) == first == StartOf(l0, first, 0);
      MarkBlockCorrect(l, l, first, b, hs, modified, 0);
      var r := MarkBlock(l, b, hs, modified, 0, first);
      forall i | 0 <= i < |l0|
        ensures InsideSome(l0, first, i, blocks, j + 1) == (InsideSome(l0, first, i, blocks, j) || Inside(l0, first, i, b))
      {
        if Inside(l0, first, i, b) {
          assert 0 <= j < j + 1 && Inside(l0, first, i, blocks[j]);
        }
      }
      assert SackedBy(l0, r.items, first, blocks, j + 1);
      UpdateFromCorrect(l0, r.items, first, blocks, j + 1, r.hs, r.modified);
      var f := UpdateFrom(r.items, first, blocks, j + 1, r.hs, r.modified);
      forall i | 0 <= i < |l0| && !l[i].sacked && f.items[i].sacked
        ensures EndOf(l0, first, i) <= f.hs.sn
      {
        SameShapeStart(l, l0, first, i);
        if r.items[i].sacked {
          assert Inside(l, first, i, b);
        }
      }
      NewHighSack(l0, l, r.items, f.items, first, blocks, j, hs, r.hs, f.hs);
    }
  }

  /**
   * The highest sack after the remaining blocks is the one after this block,
   * or the end of an item sacked later; the one after this block is the old
   * one, or the end of an item this block sacked.
   */
  lemma NewHighSack(l0: seq<TxItem>, l: seq<TxItem>, m: seq<TxItem>, f: seq<TxItem>, first: nat,
                    blocks: seq<SackBlock>, j: nat, hs: HighSack, hs1: HighSack, hs2: HighSack)
    requires j < |blocks| && SackedBy(l0, l, first, blocks, j)
    requires SackedBy(l0, m, first, blocks, j + 1) && SackedBy(l0, f, first, blocks, |blocks|)
    requires hs1 == hs || exists i :: 0 <= i < |l| && !l[i].sacked && Inside(l, first, i, blocks[j]) &&
                                      hs1 == HighSack(i + 1, EndOf(l, first, i))
    requires forall i :: 0 <= i < |l| && !l[i].sacked && Inside(l, first, i, blocks[j]) ==> m[i].sacked
    requires hs2 == hs1 || exists i :: 0 <= i < |l0| && !m[i].sacked && f[i].sacked &&
                                       hs2 == HighSack(i + 1, EndOf(l0, first, i))
    ensures hs2 == hs || exists i :: 0 <= i < |l0| && !l[i].sacked && f[i].sacked &&
                                     hs2 == HighSack(i + 1, EndOf(l0, first, i))
  {
    if hs2 != hs1 {
      var i :| 0 <= i < |l0| && !m[i].sacked && f[i].sacked && hs2 == HighSack(i + 1, EndOf(l0, first, i));
      assert !l[i].sacked;
    } else if hs1 != hs {
      var i :| 0 <= i < |l| && !l[i].sacked && Inside(l, first, i, blocks[j]) &&
               hs1 == HighSack(i + 1, EndOf(l, first, i));
      assert SameShape(l, l0);
      SameShapeStart(l, l0, first, i);
      assert m[i].sacked;
      assert InsideSome(l0, first, i, blocks, j + 1);
      assert f[i].sacked;
    }
  }

  /**
   * `Update` sacks exactly the items that lie wholly inside some block,
   * reports `modified` exactly when some item lies inside some block, and
   * leaves the highest sack at or after its old sequence number and the end
   * of every item it newly sacked.
   */
  lemma UpdateCorrect(l: seq<TxItem>, first: nat, blocks: seq<SackBlock>, hs: HighSack)
    ensures var r := UpdateFrom(l, first, blocks, 0, hs, false);
      && SackedBy(l, r.items, first, blocks, |blocks|)
      && (r.modified <==> exists i, m :: 0 <= i < |l| && 0 <= m < |blocks| && Inside(l, first, i, blocks[m]))
      && hs.sn <= r.hs.sn
      && (hs.pos <= |l| ==> r.hs.pos <= |l|)
      && (forall i :: 0 <= i < |l| && !l[i].sacked && r.items[i].sacked ==> EndOf(l, first, i) <= r.hs.sn)
      && (r.hs == hs ||
          exists i :: 0 <= i < |l| && !l[i].sacked && r.items[i].sacked &&
                      r.hs == HighSack(i + 1, EndOf(l, first, i)))
  {
    assert SackedBy(l, l, first, blocks, 0);
    UpdateFromCorrect(l, l, first, blocks, 0, hs, false);
  }

  // ---------------------------------------------------------------------
  // CraftSackOption (tcp-tx-buffer.cc:1526-1614)
  // ---------------------------------------------------------------------

  /**
   * `TcpOptionSack::GetSerializedSize ()` of an option with `n` blocks: kind,
   * length and eight bytes a block (section 3 of RFC 2018).
   */
  function SackOptionSize(n: nat): nat {
    2 + 8 * n
  }

  /** The block `[start, end)` of item `k`. */
  function BlockOf(l: seq<TxItem>, first: nat, k: nat): SackBlock
    requires k < |l|
  {
    SackBlock(StartOf(l, first, k), EndOf(l, first, k))
  }

  /**
   * The backward fill of tcp-tx-buffer.cc:1594-1610 from item `i`, whose
   * first byte is `begin`: while one more block fits below `available`, step
   * back one item, stop at the head, otherwise report that item as a block;
   * the assertion that the block begins after the head is fatal.
   */
  function Fill(l: seq<TxItem>, first: nat, available: nat, i: nat, begin: nat,
                blocks: seq<SackBlock>): Result<seq<SackBlock>>
    requires i < |l|
    decreases i
  {
    if SackOptionSize(|blocks|) + 8 >= available then Ok(blocks)
    else if i <= 1 then Ok(blocks)
    else
      var lo := begin - |l[i - 1].data|;
      if lo <= first then Fatal(BlockBeforeHead)
      else Fill(l, first, available, i - 1, lo, blocks + [SackBlock(lo, begin)])
  }

  /**
   * The forward walk of tcp-tx-buffer.cc:1555-1613 from item `i`, whose first
   * byte is `begin`: the first item that is not the head, not sacked and
   * begins at or after `sn` opens the option.
   */
  function CraftFrom(l: seq<TxItem>, first: nat, sn: nat, available: nat,
                     i: nat, begin: nat): Result<Option<seq<SackBlock>>>
    requires i <= |l|
    decreases |l| - i
  {
    if i == |l| then Ok(None)
    else if l[i].sacked || i == 0 || sn > begin then
      CraftFrom(l, first, sn, available, i + 1, begin + |l[i].data|)
    else
      match Fill(l, first, available, i, begin, [SackBlock(begin, begin + |l[i].data|)])
      case Ok(bs) => Ok(Some(bs))
      case Fatal(r) => Fatal(r)
  }

  /**
   * `CraftSackOption (seq, available)`: the walk starts at the highest sack,
   * or at the head when there is none; `None` is the null option.
   */
  function CraftSackOption(l: seq<TxItem>, first: nat, hs: HighSack, sn: nat,
                           available: nat): Result<Option<seq<SackBlock>>>
  {
    if hs.pos >= |l| then CraftFrom(l, first, sn, available, 0, first)
    else CraftFrom(l, first, sn, available, hs.pos, hs.sn)
  }

  /** `m_highestSack` points at an item and names that item's first byte, or it is the end. */
  predicate HighSackValid(l: seq<TxItem>, first: nat, hs: HighSack) {
    hs.pos <= |l| && (hs.pos < |l| ==> hs.sn == StartOf(l, first, hs.pos))
  }

  /** Item `k` may open the option. */
  predicate Opens(l: seq<TxItem>, first: nat, sn: nat, k: nat)
    requires k < |l|
  {
    k != 0 && !l[k].sacked && StartOf(l, first, k) >= sn
  }

  /** `bs` are the blocks of items `k`, `k - 1`, ..., none of them the head, and fit the space. */
  predicate OptionFrom(l: seq<TxItem>, first: nat, available: nat, k: nat, bs: seq<SackBlock>) {
    1 <= |bs| <= k < |l| &&
    (forall m :: 0 <= m < |bs| ==> bs[m] == BlockOf(l, first, k - m)) &&
    (|bs| == 1 || SackOptionSize(|bs|) < available)
  }

  /**
   * The fill stopped for one of its two reasons: one more block would not
   * fit below `available`, or the item before the last block is the head.
   */
  predicate Filled(available: nat, k: nat, bs: seq<SackBlock>) {
    SackOptionSize(|bs|) + 8 >= available || k + 1 - |bs| <= 1
  }

  /**
   * The backward fill ends with as many blocks as fit: the blocks of the
   * items `k`, `k - 1`, ... down to where one more block would not fit or the
   * head is reached.
   */
  lemma {:induction false} FillCorrect(l: seq<TxItem>, first: nat, available: nat, k: nat,
                                        i: nat, blocks: seq<SackBlock>)
    requires 1 <= i < |l| && OptionFrom(l, first, available, k, blocks) && i == k - |blocks| + 1
    ensures var r := Fill(l, first, available, i, StartOf(l, first, i), blocks);
      r.Ok? ==> OptionFrom(l, first, available, k, r.value) && Filled(available, k, r.value)
    decreases i
  {
    var begin := StartOf(l, first, i);
    if SackOptionSize(|blocks|) + 8 < available && i > 1 {
      StartOfNext(l, first, i - 1);
      var lo := begin - |l[i - 1].data|;
      if lo > first {
        var bs := blocks + [SackBlock(lo, begin)];
        assert bs[|blocks|] == BlockOf(l, first, i - 1);
        FillCorrect(l, first, available, k, i - 1, bs);
      }
    }
  }

  lemma {:induction false} CraftFromNone(l: seq<TxItem>, first: nat, sn: nat, available: nat, i: nat)
    requires i <= |l|
    ensures CraftFrom(l, first, sn, available, i, StartOf(l, first, i)) == Ok(None) <==>
            forall k :: i <= k < |l| ==> !Opens(l, first, sn, k)
    decreases |l| - i
  {
    if i < |l| {
      var begin := StartOf(l, first, i);
      StartOfNext(l, first, i);
      if l[i].sacked || i == 0 || sn > begin {
        CraftFromNone(l, first, sn, available, i + 1);
      } else {
        assert Opens(l, first, sn, i);
      }
    }
  }

  lemma {:induction false} CraftFromSome(l: seq<TxItem>, first: nat, sn: nat, available: nat, i: nat)
    returns (k: nat)
    requires i <= |l|
    requires CraftFrom(l, first, sn, available, i, StartOf(l, first, i)).Ok?
    requires CraftFrom(l, first, sn, available, i, StartOf(l, first, i)).value.Some?
    ensures i <= k < |l| && Opens(l, first, sn, k)
    ensures forall j :: i <= j < k ==> !Opens(l, first, sn, j)
    ensures OptionFrom(l, first, available, k, CraftFrom(l, first, sn, available, i, StartOf(l, first, i)).value.value)
    ensures Filled(available, k, CraftFrom(l, first, sn, available, i, StartOf(l, first, i)).value.value)
    decreases |l| - i
  {
    var begin := StartOf(l, first, i);
    StartOfNext(l, first, i);
    if l[i].sacked || i == 0 || sn > begin {
      assert !Opens(l, first, sn, i);
      k := CraftFromSome(l, first, sn, available, i + 1);
    } else {
      k := i;
      var one := [SackBlock(begin, begin + |l[i].data|)];
      assert one[0] == BlockOf(l, first, i);
      FillCorrect(l, first, available, i, i, one);
    }
  }

  /**
   * The crafted option, when there is one, starts with the block of the
   * first item at or after the starting point that is not the head, is not
   * sacked and begins at or after `seq`; each further block is the item just
   * before the previous one, never the head; the option fits in `available`
   * bytes unless it holds the one mandatory block, and it holds as many
   * blocks as fit before the head. There is no option exactly when no such
   * item exists.
   */
  lemma CraftSackOptionCorrect(l: seq<TxItem>, first: nat, hs: HighSack, sn: nat, available: nat)
    requires HighSackValid(l, first, hs)
    ensures var start := if hs.pos >= |l| then 0 else hs.pos;
      var r := CraftSackOption(l, first, hs, sn, available);
      && (r == Ok(None) <==> forall k :: start <= k < |l| ==> !Opens(l, first, sn, k))
      && (r.Ok? && r.value.Some? ==>
            exists k :: start <= k < |l| && Opens(l, first, sn, k) &&
                        (forall j :: start <= j < k ==> !Opens(l, first, sn, j)) &&
                        OptionFrom(l, first, available, k, r.value.value) &&
                        Filled(available, k, r.value.value))
  {
    assert StartOf(l, first, 0) == first;
    var start := if hs.pos >= |l| then 0 else hs.pos;
    CraftFromNone(l, first, sn, available, start);
    var r := CraftSackOption(l, first, hs, sn, available);
    if r.Ok? && r.value.Some? {
      var k := CraftFromSome(l, first, sn, available, start);
    }
  }
}
