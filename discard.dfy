/**
 * Acknowledged data leaving the buffer (tcp-tx-buffer.cc:948-1073):
 * `DiscardUpTo (seq)` drops the items of the sent list that lie wholly
 * before `seq`, trims the one that straddles it, refills an empty sent list
 * through `CopyFromSequence`, and afterwards clears a sacked head and
 * forgets a highest sack that fell behind the head.
 *
 * The loop of the source may go on forever when the refill keeps producing
 * empty items; the model bounds it by `fuel` iterations.
 */
module Discard {
  import opened U32
  import opened TxItems
  import opened ItemLists
  import opened Status
  import opened Scoreboard
  import opened BufferState
  import opened Transmit

  /** The loop condition of tcp-tx-buffer.cc:964, with its `uint32_t` sum. */
  predicate Going(st: BufState, offset: nat) {
    st.size > 0 && U32.Add(st.size, st.stageSize) > 0 && offset > 0
  }

  /**
   * Dropping the head item of `k` bytes (tcp-tx-buffer.cc:980-1009): the head
   * moves by `k`, `m_sentSize` shrinks by `k`, and so do the size and sent
   * counters of the item's stream; an auxiliary item returns one unit of
   * credit to `m_qednum`.
   */
  function DropHead(st: BufState): (r: BufState)
    requires st.sent != []
    ensures |r.sent| == |st.sent| - 1
  {
    var item := st.sent[0];
    var k := |item.data|;
    var st1 := st.(sent := st.sent[1..], sentSize := Sub(st.sentSize, k), first := st.first + k,
                   hs := AfterPopFront(st.hs));
    if item.qided then
      st1.(qednum := U32.Add(st.qednum, 1), stageSize := Sub(st.stageSize, k),
           stagesentSize := Sub(st.stagesentSize, k))
    else
      st1.(size := Sub(st.size, k), appsentSize := Sub(st.appsentSize, k))
  }

  /**
   * Trimming the first `offset` bytes off the head item
   * (tcp-tx-buffer.cc:1010-1038): the counters move as for a drop of
   * `offset` bytes, and the credit grows when the item is auxiliary.
   */
  function TrimHead(st: BufState, offset: nat): (r: BufState)
    requires st.sent != [] && offset < |st.sent[0].data|
    ensures |r.sent| == |st.sent|
  {
    var item := st.sent[0];
    var st1 := st.(sent := st.sent[0 := item.(data := item.data[offset..])],
                   sentSize := Sub(st.sentSize, offset), first := st.first + offset);
    if item.qided then
      st1.(qednum := U32.Add(st.qednum, 1), stageSize := Sub(st.stageSize, offset),
           stagesentSize := Sub(st.stagesentSize, offset))
    else
      st1.(size := Sub(st.size, offset), appsentSize := Sub(st.appsentSize, offset))
  }

  /**
   * An empty sent list is refilled with `CopyFromSequence (offset,
   * m_firstByteSeq)` (tcp-tx-buffer.cc:968-974); the list must hold an item
   * afterwards.
   */
  function Refill(st: BufState, offset: nat, now: int): (r: Step<()>)
    requires 16 <= st.qheader
    ensures r.Step? ==> r.st.sent != [] && Fixed(st, r.st)
  {
    if st.sent != [] then Step(st, ())
    else
      CopyFromSequenceKeeps(st, offset, st.first, now);
      match CopyFromSequence(st, offset, st.first, now)
      case Stop(why) => Stop(why)
      case Step(st1, _) => if st1.sent == [] then Stop(RefillFailed) else Step(st1, ())
  }

  /** The loop of tcp-tx-buffer.cc:964-1039, at most `fuel` iterations of it. */
  function DiscardLoop(st: BufState, offset: nat, now: int, fuel: nat): Step<()>
    requires 16 <= st.qheader
    decreases fuel, 1
  {
    if !Going(st, offset) then Step(st, ())
    else if fuel == 0 then Stop(OutOfFuel)
    else Iteration(st, offset, now, fuel)
  }

  /** One iteration of that loop: the refill, then a drop or a trim of the head. */
  function Iteration(st: BufState, offset: nat, now: int, fuel: nat): Step<()>
    requires 16 <= st.qheader && fuel > 0
    decreases fuel, 0
  {
    match Refill(st, offset, now)
    case Stop(why) => Stop(why)
    case Step(st1, _) =>
      var k := |st1.sent[0].data|;
      if offset >= k then DiscardLoop(DropHead(st1), offset - k, now, fuel - 1)
      else Step(TrimHead(st1, offset), ())
  }

  /**
   * The end of `DiscardUpTo` (tcp-tx-buffer.cc:1040-1072): acknowledging a
   * FIN moves the head to `seq` once both streams are empty, a sacked head
   * is cleared, a highest sack at or behind the head is forgotten, and the
   * head must have reached `seq`.
   */
  function Finish(st: BufState, sn: nat): Step<()> {
    var st1 := if st.size == 0 && st.stageSize == 0 then st.(first := sn) else st;
    var st2 := if st1.sent != [] then st1.(sent := st1.sent[0 := st1.sent[0].(sacked := false)]) else st1;
    var st3 := if st2.hs.sn <= st2.first then st2.(hs := NoSack(st2.sent)) else st2;
    if st3.first < sn then Stop(AckNotReached) else Step(st3, ())
  }

  /** `DiscardUpTo (seq)`. */
  function DiscardUpTo(st: BufState, sn: nat, now: int, fuel: nat): Step<()>
    requires 16 <= st.qheader
  {
    if st.first >= sn then Step(st, ())
    else AfterLoop(DiscardLoop(st, sn - st.first, now, fuel), sn)
  }

  /** A loop that ended hands its state to `Finish`. */
  lemma AfterLoopStep(r: Step<()>, sn: nat)
    requires r.Step?
    ensures AfterLoop(r, sn) == Finish(r.st, sn)
  {
  }

  /** A loop that stopped stops `DiscardUpTo`; one that ended is finished. */
  function AfterLoop(r: Step<()>, sn: nat): Step<()> {
    match r
    case Stop(why) => Stop(why)
    case Step(st1, _) => Finish(st1, sn)
  }

  // ---------------------------------------------------------------------
  // Properties
  // ---------------------------------------------------------------------

  /** A sequence number the head has already passed changes nothing. */
  lemma DiscardUpToNoop(st: BufState, sn: nat, now: int, fuel: nat)
    requires 16 <= st.qheader && sn <= st.first
    ensures DiscardUpTo(st, sn, now, fuel) == Step(st, ())
  {
  }

  /**
   * After `Finish` the head is at or past `seq` (the final assertion), the
   * head item is not sacked, and the highest sack lies beyond the head unless
   * it was reset to the end of the list. The lists keep their bytes and
   * look otherwise the same; no counter moves.
   */
  lemma FinishCorrect(st: BufState, sn: nat)
    ensures var r := Finish(st, sn);
      var head := if st.size == 0 && st.stageSize == 0 then sn else st.first;
      && (r.Step? <==> head >= sn)
      && (r.Step? ==>
            && r.st.first == head
            && (r.st.sent != [] ==> !r.st.sent[0].sacked)
            && (r.st.hs == NoSack(r.st.sent) || r.st.hs.sn > r.st.first)
            && (st.hs.sn > head ==> r.st.hs == st.hs)
            && |r.st.sent| == |st.sent|
            && (forall k :: 0 < k < |st.sent| ==> r.st.sent[k] == st.sent[k])
            && (st.sent != [] ==> r.st.sent[0] == st.sent[0].(sacked := false))
            && r.st.(sent := st.sent, first := st.first, hs := st.hs) == st)
  {
  }

  /**
   * `DiscardUpTo` ends with the head at or past `seq`, an unsacked head item,
   * and a highest sack beyond the head or reset.
   */
  lemma DiscardUpToCorrect(st: BufState, sn: nat, now: int, fuel: nat)
    requires 16 <= st.qheader && st.first < sn
    ensures var r := DiscardUpTo(st, sn, now, fuel);
      r.Step? ==>
        && r.st.first >= sn
        && (r.st.sent != [] ==> !r.st.sent[0].sacked)
        && (r.st.hs == NoSack(r.st.sent) || r.st.hs.sn > r.st.first)
  {
    var l := DiscardLoop(st, sn - st.first, now, fuel);
    if l.Step? {
      FinishCorrect(l.st, sn);
    }
  }

  /**
   * Dropping the head removes exactly its bytes from the front of the sent
   * list. The credit grows by one for an auxiliary item, and only that
   * item's stream counters shrink.
   */
  lemma DropHeadCorrect(st: BufState)
    requires st.sent != []
    ensures var r := DropHead(st);
      var item := st.sent[0];
      var k := |item.data|;
      && Flatten(r.sent) == Flatten(st.sent)[k..]
      && Total(r.sent) + k == Total(st.sent)
      && r.first == st.first + k && r.sentSize == Sub(st.sentSize, k)
      && (item.qided ==>
            && r.qednum == U32.Add(st.qednum, 1)
            && r.stageSize == Sub(st.stageSize, k) && r.stagesentSize == Sub(st.stagesentSize, k)
            && r.size == st.size && r.appsentSize == st.appsentSize)
      && (!item.qided ==>
            && r.qednum == st.qednum
            && r.size == Sub(st.size, k) && r.appsentSize == Sub(st.appsentSize, k)
            && r.stageSize == st.stageSize && r.stagesentSize == st.stagesentSize)
      && r.app == st.app && r.qid == st.qid
  {
    DropPrefix(st.sent[0].data, Flatten(st.sent[1..]));
  }

  /**
   * Trimming the head removes exactly `offset` bytes from the front of the
   * sent list; the item keeps its flags.
   */
  lemma TrimHeadCorrect(st: BufState, offset: nat)
    requires st.sent != [] && offset < |st.sent[0].data|
    ensures var r := TrimHead(st, offset);
      var item := st.sent[0];
      && Flatten(r.sent) == Flatten(st.sent)[offset..]
      && Total(r.sent) + offset == Total(st.sent)
      && SameFlags(r.sent[0], item) && r.sent[1..] == st.sent[1..]
      && r.first == st.first + offset && r.sentSize == Sub(st.sentSize, offset)
      && (item.qided ==>
            && r.qednum == U32.Add(st.qednum, 1)
            && r.stageSize == Sub(st.stageSize, offset) && r.stagesentSize == Sub(st.stagesentSize, offset)
            && r.size == st.size && r.appsentSize == st.appsentSize)
      && (!item.qided ==>
            && r.qednum == st.qednum
            && r.size == Sub(st.size, offset) && r.appsentSize == Sub(st.appsentSize, offset)
            && r.stageSize == st.stageSize && r.stagesentSize == st.stagesentSize)
      && r.app == st.app && r.qid == st.qid
  {
    var l := st.sent;
    var d := l[0].data;
    var m := l[0 := l[0].(data := d[offset..])];
    assert m[1..] == l[1..];
    SliceConcat(d, Flatten(l[1..]), offset);
    TotalUpdate(l, 0, m[0]);
  }

  lemma DropPrefix(a: seq<byte>, b: seq<byte>)
    ensures (a + b)[|a|..] == b
  {
  }

  lemma SliceConcat(a: seq<byte>, b: seq<byte>, o: nat)
    requires o <= |a|
    ensures (a + b)[o..] == a[o..] + b
  {
  }

  /**
   * When the sent list already holds the bytes to acknowledge and the loop
   * may run once per item, no refill happens and the loop cannot fail. The
   * head moves over a prefix of those bytes, the sent list keeps the rest of
   * them, and the head reaches `seq` unless the loop stopped on an empty
   * primary stream.
   */
  lemma {:induction false} DiscardLoopCovered(st: BufState, offset: nat, now: int, fuel: nat)
    requires 16 <= st.qheader && offset <= Total(st.sent) && |st.sent| <= fuel
    ensures Covered(st, offset, DiscardLoop(st, offset, now, fuel))
    decreases fuel
  {
    if Going(st, offset) {
      assert st.sent != [];
      var k := |st.sent[0].data|;
      DiscardOnce(st, offset, now, fuel);
      if offset >= k {
        DropHeadCorrect(st);
        DiscardLoopCovered(DropHead(st), offset - k, now, fuel - 1);
        CoveredDrop(st, offset, DiscardLoop(DropHead(st), offset - k, now, fuel - 1));
      } else {
        TrimHeadCorrect(st, offset);
      }
    }
  }

  /**
   * The outcome of the loop when no refill is needed: it does not fail, the
   * head moves over a prefix of the `offset` bytes, the sent list keeps the
   * bytes after them, and the head reaches the end of the prefix unless the
   * loop condition turned false first.
   */
  predicate Covered(st: BufState, offset: nat, r: Step<()>) {
    && r.Step?
    && st.first <= r.st.first <= st.first + offset
    && r.st.first - st.first <= |Flatten(st.sent)|
    && Flatten(r.st.sent) == Flatten(st.sent)[r.st.first - st.first..]
    && (r.st.first == st.first + offset || !Going(r.st, offset - (r.st.first - st.first)))
  }

  lemma CoveredDrop(st: BufState, offset: nat, r: Step<()>)
    requires st.sent != [] && offset >= |st.sent[0].data|
    requires Covered(DropHead(st), offset - |st.sent[0].data|, r)
    ensures Covered(st, offset, r)
  {
    var k := |st.sent[0].data|;
    DropHeadCorrect(st);
    SliceTwice(Flatten(st.sent), k, r.st.first - DropHead(st).first);
  }

  /** One iteration over a non-empty sent list, which needs no refill. */
  lemma DiscardOnce(st: BufState, offset: nat, now: int, fuel: nat)
    requires 16 <= st.qheader && st.sent != [] && Going(st, offset) && fuel > 0
    ensures var k := |st.sent[0].data|;
      DiscardLoop(st, offset, now, fuel) ==
        if offset >= k then DiscardLoop(DropHead(st), offset - k, now, fuel - 1)
        else Step(TrimHead(st, offset), ())
  {
    assert Refill(st, offset, now) == Step(st, ());
  }

  /** One iteration in any state: the refill, then a drop or a trim of the head. */
  lemma DiscardStep(st: BufState, offset: nat, now: int, fuel: nat)
    requires 16 <= st.qheader && Going(st, offset) && fuel > 0
    ensures var r := Refill(st, offset, now);
      && (r.Stop? ==> DiscardLoop(st, offset, now, fuel) == Stop(r.reason))
      && (r.Step? ==>
            var k := |r.st.sent[0].data|;
            && 16 <= r.st.qheader
            && DiscardLoop(st, offset, now, fuel) ==
                 if offset >= k then DiscardLoop(DropHead(r.st), offset - k, now, fuel - 1)
                 else Step(TrimHead(r.st, offset), ()))
  {
  }

  lemma SliceTwice(s: seq<byte>, i: nat, j: nat)
    requires i + j <= |s|
    ensures s[i..][j..] == s[i + j..]
  {
  }

  /** Taking `k` bytes off the sent list and off one stream keeps both congruences. */
  lemma ShrinkCong(sentSize: nat, sentTotal: int, sizes: int, sizes': int, pending: int, k: nat)
    requires Cong(sentSize, sentTotal + k) && Cong(sizes - sentSize, pending) && Cong(sizes', sizes - k)
    ensures Cong(Sub(sentSize, k), sentTotal)
    ensures Cong(sizes' - Sub(sentSize, k), pending)
  {
    var mk: int := -(k as int);
    SubCong(sentSize, k);
    CongShift(sentSize, sentTotal + k, mk);
    CongTrans(Sub(sentSize, k), sentSize - k, sentTotal);
    CongSub(sizes', sizes - k, Sub(sentSize, k), sentSize - k);
    assert sizes - k - (sentSize - k) == sizes - sentSize;
    CongTrans(sizes' - Sub(sentSize, k), sizes - sentSize, pending);
  }

  lemma SizesCong(size: nat, stageSize: nat, size': nat, stageSize': nat, k: nat)
    requires (size' == Sub(size, k) && stageSize' == stageSize) || (size' == size && stageSize' == Sub(stageSize, k))
    ensures Cong(size' + stageSize', size + stageSize - k)
  {
    if size' == Sub(size, k) && stageSize' == stageSize {
      SubCong(size, k);
      CongShift(size', size - k, stageSize);
    } else {
      SubCong(stageSize, k);
      CongShift(stageSize', stageSize - k, size);
    }
  }

  /** Dropping or trimming the head keeps the counter invariant. */
  lemma ShrinkConsistent(st: BufState, r: BufState, k: nat)
    requires Consistent(st)
    requires Total(r.sent) + k == Total(st.sent) && r.sentSize == Sub(st.sentSize, k)
    requires r.app == st.app && r.qid == st.qid
    requires (r.size == Sub(st.size, k) && r.stageSize == st.stageSize) ||
             (r.size == st.size && r.stageSize == Sub(st.stageSize, k))
    ensures Consistent(r)
  {
    SizesCong(st.size, st.stageSize, r.size, r.stageSize, k);
    ShrinkCong(st.sentSize, Total(r.sent), st.size + st.stageSize, r.size + r.stageSize,
               Total(st.app) + Total(st.qid), k);
  }

  /** A refill keeps the counter invariant. */
  lemma RefillConsistent(st: BufState, offset: nat, now: int)
    requires 16 <= st.qheader && Consistent(st)
    ensures Refill(st, offset, now).Step? ==> Consistent(Refill(st, offset, now).st)
  {
    if st.sent == [] {
      CopyFromSequenceConsistent(st, offset, st.first, now);
    }
  }

  /** One iteration's edit of the head keeps the counter invariant. */
  lemma AdvanceConsistent(st: BufState, offset: nat)
    requires Consistent(st) && st.sent != []
    ensures offset >= |st.sent[0].data| ==> Consistent(DropHead(st))
    ensures offset < |st.sent[0].data| ==> Consistent(TrimHead(st, offset))
  {
    var k := |st.sent[0].data|;
    if offset >= k {
      DropHeadCorrect(st);
      ShrinkConsistent(st, DropHead(st), k);
    } else {
      TrimHeadCorrect(st, offset);
      ShrinkConsistent(st, TrimHead(st, offset), offset);
    }
  }

  /** The loop keeps the counter invariant, refills included. */
  lemma {:induction false} DiscardLoopConsistent(st: BufState, offset: nat, now: int, fuel: nat)
    requires 16 <= st.qheader && Consistent(st)
    ensures DiscardLoop(st, offset, now, fuel).Step? ==> Consistent(DiscardLoop(st, offset, now, fuel).st)
    decreases fuel
  {
    if Going(st, offset) && fuel > 0 {
      var f := Refill(st, offset, now);
      if f.Step? {
        RefillConsistent(st, offset, now);
        var k := |f.st.sent[0].data|;
        AdvanceConsistent(f.st, offset);
        if offset >= k {
          DiscardLoopConsistent(DropHead(f.st), offset - k, now, fuel - 1);
        }
      }
    }
  }

  /** `Finish` keeps the counter invariant: it only clears a flag and moves the head. */
  lemma FinishConsistent(st: BufState, sn: nat)
    requires Consistent(st)
    ensures Finish(st, sn).Step? ==> Consistent(Finish(st, sn).st)
  {
    var r := Finish(st, sn);
    if r.Step? {
      FinishCorrect(st, sn);
      if st.sent != [] {
        TotalUpdate(st.sent, 0, r.st.sent[0]);
        assert r.st.sent == st.sent[0 := r.st.sent[0]];
      }
      SameBytes(st, r.st);
    }
  }

  /** `DiscardUpTo` keeps the counter invariant. */
  lemma DiscardUpToConsistent(st: BufState, sn: nat, now: int, fuel: nat)
    requires 16 <= st.qheader && Consistent(st)
    ensures DiscardUpTo(st, sn, now, fuel).Step? ==> Consistent(DiscardUpTo(st, sn, now, fuel).st)
  {
    if st.first < sn {
      DiscardLoopConsistent(st, sn - st.first, now, fuel);
      var l := DiscardLoop(st, sn - st.first, now, fuel);
      if l.Step? {
        FinishConsistent(l.st, sn);
      }
    }
  }
}
