/**
 * `TcpTxBuffer` as the object the source updates in place: every field of
 * the class, and each operation as a method that walks and edits those
 * fields the way tcp-tx-buffer.cc does. Each method is proved against the
 * function of the same name in the modules above: on success the new state
 * and the value are what that function computes, and a fatal outcome is
 * reported as the same `Abort` (the state after it is left unspecified,
 * since the process stops there).
 */
module TxBuffer {
  import opened U32
  import opened TxItems
  import opened ItemLists
  import opened Status
  import opened QtcpHeader
  import opened PacketLookup
  import opened Scoreboard
  import opened BufferState
  import Enqueue
  import Transmit
  import Discard
  import Recovery

  /** What a caller of the source sees of a step: the value, or the fatal outcome. */
  function Outcome<T>(r: Step<T>): (res: Result<T>)
    ensures res.Ok? <==> r.Step?
    ensures r.Step? ==> res.value == r.value
    ensures r.Stop? ==> res.reason == r.reason
  {
    match r
    case Step(_, v) => Ok(v)
    case Stop(why) => Fatal(why)
  }

  class TcpTxBuffer {
    var maxBuffer: nat
    var size: nat
    var sentSize: nat
    var appsentSize: nat
    var stageSize: nat
    var stagesentSize: nat
    var stage: nat
    var sendQseq: nat
    var stageQseq: nat
    var esQseq: nat
    var qednum: nat
    var appnum: nat
    var qheader: nat
    var red: nat
    var first: nat
    var sent: seq<TxItem>
    var app: seq<TxItem>
    var qid: seq<TxItem>
    var hs: HighSack

    /** The fields as one value. */
    function State(): BufState
      reads this
    {
      BufState(maxBuffer, size, sentSize, appsentSize, stageSize, stagesentSize, stage,
               sendQseq, stageQseq, esQseq, qednum, appnum, qheader, red, first,
               sent, app, qid, hs)
    }

    /**
     * `TcpTxBuffer (n)` with the HEADERSIZE and REDSIZE attributes applied:
     * empty lists, the head at `n`, `m_stage` 1, every counter 0.
     */
    constructor (n: nat, headerSize: nat, redSize: nat)
      requires 16 <= headerSize < 0x1_0000 && redSize < 0x1_0000
      ensures State() == Initial(n, headerSize, redSize)
    {
      maxBuffer, size, sentSize, appsentSize := 32768, 0, 0, 0;
      stageSize, stagesentSize, stage := 0, 0, 1;
      sendQseq, stageQseq, esQseq, qednum, appnum := 0, 0, 0, 0, 0;
      qheader, red, first := headerSize, redSize, n;
      sent, app, qid := [], [], [];
      hs := NoSack([]);
    }

    /** `SetMaxBufferSize (n)`. */
    method SetMaxBufferSize(n: nat)
      modifies this
      ensures State() == BufferState.SetMaxBufferSize(old(State()), n)
    {
      maxBuffer := n;
    }

    /** `SetHeadSequence (seq)`: the head moves first, then the assertion. */
    method SetHeadSequence(sn: nat) returns (res: Result<()>)
      modifies this
      ensures res == Outcome(BufferState.SetHeadSequence(old(State()), sn))
      ensures res.Ok? ==> State() == BufferState.SetHeadSequence(old(State()), sn).st
    {
      first := sn;
      if sent != [] {
        return Fatal(HeadMoved);
      }
      hs := NoSack(sent);
      res := Ok(());
    }

    // -------------------------------------------------------------------
    // Enqueueing (tcp-tx-buffer.cc:273-492)
    // -------------------------------------------------------------------

    /** `Addapp (p)`. */
    method Addapp(p: seq<byte>) returns (ok: bool)
      requires 16 <= qheader
      modifies this
      ensures State() == Enqueue.Addapp(old(State()), p).0
      ensures ok == Enqueue.Addapp(old(State()), p).1
    {
      if U32.Add(U32.Add(|p|, qheader), red) <= Available(State()) {
        if |p| > 0 {
          var h := Header(stageQseq, sendQseq, PrimaryFlag(qheader), qheader);
          var item := NewItem(h + p + Zeros(red), false);
          app := app + [item];
          size := U32.Add(size, |item.data|);
        }
        ok := true;
      } else {
        ok := false;
      }
    }

    /** `Addqed (q)`. */
    method Addqed(q: seq<byte>) returns (ok: bool)
      requires 16 <= qheader
      modifies this
      ensures State() == Enqueue.Addqed(old(State()), q).0
      ensures ok == Enqueue.Addqed(old(State()), q).1
    {
      if U32.Add(U32.Add(|q|, qheader), red) <= Available(State()) {
        if |q| > 0 {
          var h := Header(esQseq, stageQseq, AuxiliaryFlag(qheader), qheader);
          var item := NewItem(h + q, true);
          qid := qid + [item];
          stageSize := U32.Add(stageSize, |item.data|);
        }
        ok := true;
      } else {
        ok := false;
      }
    }

    /** `Add (p)`; `seed` stands for the value `rand ()` returns on the first call. */
    method Add(p: seq<byte>, seed: nat) returns (ok: bool)
      requires 16 <= qheader
      modifies this
      ensures State() == Enqueue.Add(old(State()), p, seed).0
      ensures ok == Enqueue.Add(old(State()), p, seed).1
    {
      ghost var st := State();
      if esQseq == 0 {
        esQseq := Wrap(seed);
      }
      ghost var st0 := State();
      assert st0 == Enqueue.Seeded(st, seed);
      if U32.Mul(5, U32.Add(U32.Add(|p|, qheader), red)) <= Available(State()) {
        QueueUnits(p);
        ghost var st3 := State();
        AdvanceNumbers();
        Enqueue.AddAccepts(st, p, seed, st0, st0.(appnum := U32.Add(st0.appnum, 1)), st3);
        ok := true;
      } else {
        Enqueue.AddRefused(st, p, seed);
        ok := false;
      }
    }

    /** The end of `Add (p)`: the three header numbers advance. */
    method AdvanceNumbers()
      modifies this
      ensures State() == Enqueue.Advance(old(State()))
    {
      sendQseq := U32.Add(sendQseq, 1);
      stageQseq := U32.Add(stageQseq, 1);
      esQseq := U32.Add(esQseq, 1);
    }

    /**
     * The middle of `Add (p)`: `m_appnum` counts the packet, then the encoded
     * copy goes to `Addqed` and the packet itself to `Addapp`.
     */
    method QueueUnits(p: seq<byte>)
      requires 16 <= qheader
      modifies this
      ensures State() == Enqueue.Addapp(Enqueue.Addqed(old(State()).(appnum := U32.Add(old(appnum), 1)),
                                                       EncodeBytes(p, |p| + old(red))).0, p).0
    {
      appnum := U32.Add(appnum, 1);
      var q := EncodeBytes(p, |p| + red);
      var okQ := Addqed(q);
      var okA := Addapp(p);
    }

    /**
     * `Addqednew (item)`: a buffer of ones as long as the body, encoded, after
     * a fresh auxiliary header. (`Encode` is the method of `QtcpHeader`
     * proved equal to `EncodeBytes`; the class applies the function.)
     */
    method Addqednew(item: TxItem) returns (res: Result<TxItem>)
      requires 16 <= qheader
      modifies this
      ensures res == Outcome(Enqueue.Addqednew(old(State()), item))
      ensures res.Ok? ==> State() == Enqueue.Addqednew(old(State()), item).st
    {
      var n := |item.data|;
      if n == 0 {
        return Ok(item);
      }
      if n < qheader {
        return Fatal(HeaderOverrun);
      }
      ghost var st := State();
      var h := Header(esQseq, stageQseq, AuxiliaryFlag(qheader), qheader);
      esQseq := U32.Add(esQseq, 1);
      stageQseq := U32.Add(stageQseq, 1);
      assert State() == st.(esQseq := U32.Add(st.esQseq, 1), stageQseq := U32.Add(st.stageQseq, 1));
      var m := n - qheader;
      var body := EncodeBytes(seq(m, i => 1), m);
      res := Ok(item.(data := h + body));
    }

    // -------------------------------------------------------------------
    // The scoreboard (tcp-tx-buffer.cc:708-731, 1075-1397, 1499-1614)
    // -------------------------------------------------------------------

    /** `GetHighestSacked ()`: a forward walk that remembers the last sacked item. */
    method GetHighestSacked() returns (r: HighSack)
      ensures r == HighestSacked(sent, first)
    {
      r := NoSack(sent);
      var begin: nat := first;
      for i := 0 to |sent|
        invariant begin == StartOf(sent, first, i)
        invariant r == (if LastSacked(sent[..i]) < 0 then NoSack(sent)
                        else HighSack(LastSacked(sent[..i]), StartOf(sent, first, LastSacked(sent[..i]))))
      {
        assert sent[..i + 1][..i] == sent[..i];
        if sent[i].sacked {
          r := HighSack(i, begin);
        }
        StartOfNext(sent, first, i);
        begin := begin + |sent[i].data|;
      }
      assert sent[..|sent|] == sent;
    }

    /**
     * `IsLost (seq, segment, dupThresh, segmentSize)` for the item at index
     * `i`, whose first byte is `begin`.
     */
    method IsLostAt(i: nat, begin: nat, dup: nat, seg: nat) returns (lost: bool)
      requires i < |sent|
      ensures lost == Scoreboard.IsLostAt(sent, hs, i, begin, dup, seg)
    {
      if sent[i].lost {
        return true;
      }
      if sent[i].sacked {
        return false;
      }
      var j: nat, b: nat, count: nat, bytes: nat := i, begin, 0, 0;
      // `j < |sent|` has no counterpart in the source: it only stops the walk
      // where the iterator there would step past `end ()`.
      while j != hs.pos && j < |sent|
        invariant i <= j <= |sent|
        invariant LostScan(sent, hs, dup, seg, j, b, count, bytes) == LostScan(sent, hs, dup, seg, i, begin, 0, 0)
        decreases |sent| - j
      {
        if b >= hs.sn {
          return false;
        }
        if sent[j].sacked {
          count, bytes := U32.Add(count, 1), U32.Add(bytes, |sent[j].data|);
          if count >= dup || bytes > U32.Mul(U32.Sub(dup, 1), seg) {
            return true;
          }
        }
        b := b + |sent[j].data|;
        j := j + 1;
      }
      return false;
    }

    /** `IsLost (seq, dupThresh, segmentSize)`: find the item, then test it. */
    method IsLost(sn: nat, dup: nat, seg: nat) returns (lost: bool)
      ensures lost == Scoreboard.IsLost(sent, first, hs, sn, dup, seg)
    {
      if sn >= hs.sn {
        return false;
      }
      var b: nat := first;
      for i := 0 to |sent|
        invariant LostSearch(sent, hs, sn, dup, seg, i, b) == LostSearch(sent, hs, sn, dup, seg, 0, first)
      {
        if b >= sn {
          lost := IsLostAt(i, b, dup, seg);
          return;
        }
        b := b + |sent[i].data|;
      }
      return false;
    }

    /** `BytesInFlight (dupThresh, segmentSize)`: the pipe of RFC 6675. */
    method BytesInFlight(dup: nat, seg: nat) returns (pipe: nat)
      ensures pipe == Scoreboard.BytesInFlight(sent, first, hs, dup, seg)
    {
      pipe := 0;
      var b: nat := first;
      for i := 0 to |sent|
        invariant PipeFrom(sent, hs, dup, seg, i, b, pipe) == PipeFrom(sent, hs, dup, seg, 0, first, 0)
      {
        if !sent[i].sacked {
          var lost := IsLostAt(i, b, dup, seg);
          if !lost {
            pipe := U32.Add(pipe, |sent[i].data|);
          } else if sent[i].retrans && !sent[i].lost {
            pipe := U32.Add(pipe, |sent[i].data|);
          }
        }
        b := b + |sent[i].data|;
      }
    }

    /** `GetRetransmitsCount ()`. */
    method GetRetransmitsCount() returns (count: nat)
      ensures count == Retransmits(sent)
    {
      count := 0;
      for i := 0 to |sent|
        invariant Is32(count) && count == Retransmits(sent[..i])
      {
        assert sent[..i + 1][..i] == sent[..i];
        if sent[i].retrans {
          count := U32.Add(count, 1);
        }
      }
      assert sent[..|sent|] == sent;
    }

    /**
     * `NextSeg (seq, dupThresh, segmentSize, isRecovery)`: `found` is the
     * value returned and `sn` what is stored in `*seq` when it is true.
     */
    method NextSeg(dup: nat, seg: nat, recovery: bool) returns (found: bool, sn: nat)
      ensures found <==> Recovery.NextSeg(State(), dup, seg, recovery).Some?
      ensures found ==> sn == Recovery.NextSeg(State(), dup, seg, recovery).value
    {
      var valid, r3: nat := false, 0;
      var b: nat := first;
      for i := 0 to |sent|
        invariant Recovery.NextScan(sent, hs, dup, seg, recovery, i, b, valid, r3) ==
                  Recovery.NextScan(sent, hs, dup, seg, recovery, 0, first, false, 0)
      {
        if !sent[i].retrans && !sent[i].sacked {
          var lost := IsLostAt(i, b, dup, seg);
          if lost {
            return true, b;
          } else if r3 == 0 && recovery {
            valid, r3 := true, b;
          }
        }
        b := b + |sent[i].data|;
      }
      if SizeFromSequence(State(), first + sentSize) > 0 {
        return true, first + sentSize;
      }
      if valid {
        return true, r3;
      }
      return false, 0;
    }

    /** `IsHeadRetransmitted ()`. */
    method IsHeadRetransmitted() returns (res: Result<bool>)
      ensures res == Recovery.IsHeadRetransmitted(State())
    {
      if sentSize == 0 {
        return Ok(false);
      }
      if sent == [] {
        return Fatal(EmptySentList);
      }
      return Ok(sent[0].retrans);
    }

    /**
     * `CraftSackOption (seq, available)`: the forward walk to the first usable
     * item, then the backward fill; `None` is the null option.
     */
    method CraftSackOption(sn: nat, available: nat) returns (res: Result<Option<seq<SackBlock>>>)
      ensures res == Scoreboard.CraftSackOption(sent, first, hs, sn, available)
    {
      var i: nat, b: nat := 0, first;
      if hs.pos < |sent| {
        i, b := hs.pos, hs.sn;
      }
      while i < |sent|
        invariant i <= |sent|
        invariant CraftFrom(sent, first, sn, available, i, b) == Scoreboard.CraftSackOption(sent, first, hs, sn, available)
        decreases |sent| - i
      {
        var e: nat := b + |sent[i].data|;
        if sent[i].sacked || i == 0 {
          b := e;
        } else if sn > b {
          b := e;
        } else {
          var blocks := [SackBlock(b, e)];
          var j: nat, lo: nat := i, b;
          while SackOptionSize(|blocks|) + 8 < available
            invariant 1 <= j <= i
            invariant Fill(sent, first, available, j, lo, blocks) == Fill(sent, first, available, i, b, [SackBlock(b, e)])
            decreases j
          {
            j := j - 1;
            if j == 0 {
              return Ok(Some(blocks));
            }
            var hi := lo;
            var next: int := lo - |sent[j].data|;
            if next <= first {
              return Fatal(BlockBeforeHead);
            }
            lo := next;
            blocks := blocks + [SackBlock(lo, hi)];
          }
          return Ok(Some(blocks));
        }
        i := i + 1;
      }
      return Ok(None);
    }

    /** `ResetScoreboard ()`: every sacked flag cleared, the highest sack forgotten. */
    method ResetScoreboard()
      modifies this
      ensures State() == Recovery.ResetScoreboard(old(State()))
    {
      var l := sent;
      for i := 0 to |l|
        invariant |l| == |sent|
        invariant forall k :: 0 <= k < i ==> l[k] == sent[k].(sacked := false)
        invariant forall k :: i <= k < |l| ==> l[k] == sent[k]
      {
        l := l[i := l[i].(sacked := false)];
      }
      assert l == ClearSacked(sent);
      hs := NoSack(sent);
      sent := l;
    }

    /** `SetSentListLost ()`: every sent item flagged lost. */
    method SetSentListLost()
      modifies this
      ensures State() == Recovery.SetSentListLost(old(State()))
    {
      var l := sent;
      for i := 0 to |l|
        invariant |l| == |sent|
        invariant forall k :: 0 <= k < i ==> l[k] == sent[k].(lost := true)
        invariant forall k :: i <= k < |l| ==> l[k] == sent[k]
      {
        l := l[i := l[i].(lost := true)];
      }
      assert l == MarkAllLost(sent);
      sent := l;
    }

    /**
     * `Update (list)`: each block walks the sent list from the head. `res`
     * carries `modified`; the closing assertion on the head is fatal.
     */
    method Update(blocks: seq<SackBlock>) returns (res: Result<bool>)
      modifies this
      ensures var u := Scoreboard.Update(old(sent), old(first), blocks, old(hs));
        && (res.Ok? <==> u.Ok?)
        && (u.Fatal? ==> res.reason == u.reason)
        && (u.Ok? ==> res.value == u.value.modified &&
                      State() == old(State()).(sent := u.value.items, hs := u.value.hs))
    {
      var l, h, modified := sent, hs, false;
      for j := 0 to |blocks|
        invariant UpdateFrom(l, first, blocks, j, h, modified) == UpdateFrom(sent, first, blocks, 0, hs, false)
      {
        var blk := blocks[j];
        ghost var l0, h0, m0 := l, h, modified;
        var k: nat, begin: nat := 0, first;
        while k < |l|
          invariant k <= |l| == |l0|
          invariant MarkBlock(l, blk, h, modified, k, begin) == MarkBlock(l0, blk, h0, m0, 0, first)
          decreases |l| - k
        {
          var e: nat := begin + |l[k].data|;
          if begin >= blk.lo && e <= blk.hi {
            if !l[k].sacked {
              l := l[k := l[k].(sacked := true)];
              if h.sn <= e {
                h := HighSack(k + 1, e);
              }
            }
            modified := true;
          } else if e > blk.hi {
            break;
          }
          begin := e;
          k := k + 1;
        }
      }
      sent, hs := l, h;
      if l == [] {
        return Fatal(EmptySentList);
      }
      if l[0].sacked {
        return Fatal(HeadSacked);
      }
      return Ok(modified);
    }

    /** `ResetLastSegmentSent ()`: the last sent item back to the front of its own list. */
    method ResetLastSegmentSent()
      modifies this
      ensures State() == Recovery.ResetLastSegmentSent(old(State()))
    {
      if sent != [] {
        var n := |sent|;
        var item := sent[n - 1];
        sent, hs := sent[..n - 1], AfterResize(hs, n, n - 1);
        Unsend(item);
      }
    }

    /**
     * `item` taken back from the sent list: its bytes leave `m_sentSize` and
     * the sent counter of its stream, and it goes to the front of its own list.
     */
    method Unsend(item: TxItem)
      modifies this
      ensures !item.qided ==> State() == old(State()).(sentSize := U32.Sub(old(sentSize), |item.data|),
                                                        appsentSize := U32.Sub(old(appsentSize), |item.data|),
                                                        app := [item] + old(app))
      ensures item.qided ==> State() == old(State()).(sentSize := U32.Sub(old(sentSize), |item.data|),
                                                       stagesentSize := U32.Sub(old(stagesentSize), |item.data|),
                                                       qid := [item] + old(qid))
    {
      sentSize := U32.Sub(sentSize, |item.data|);
      if !item.qided {
        appsentSize, app := U32.Sub(appsentSize, |item.data|), [item] + app;
      } else {
        stagesentSize, qid := U32.Sub(stagesentSize, |item.data|), [item] + qid;
      }
    }

    /**
     * `ResetSentList (keepItems)`, each iteration subtracting the size of the
     * item it hands back (see `Recovery.ResetSentList`).
     */
    method ResetSentList(keep: nat)
      modifies this
      ensures State() == Recovery.ResetSentList(old(State()), keep)
    {
      while |sent| > keep
        invariant Recovery.ResetLoop(State(), keep, false) == Recovery.ResetLoop(old(State()), keep, false)
        decreases |sent|
      {
        PopTail();
      }
      hs := NoSack(sent);
    }

    /**
     * One iteration of the loop of `ResetSentList`: the tail goes back to the
     * front of its own list, and the item before it becomes a lost tail.
     */
    method PopTail()
      requires sent != []
      modifies this
      ensures State() == Recovery.Pop(old(State()), false)
    {
      var n := |sent|;
      var k := |sent[n - 1].data|;
      var item := sent[n - 1].(retrans := false, sacked := false);
      var rest := sent[..n - 1];
      if rest != [] {
        rest := rest[n - 2 := rest[n - 2].(lost := true, sacked := false, retrans := false)];
      }
      sent := rest;
      Requeue(item);
      Uncount(k, item.qided);
    }

    /**
     * `push_front` of `item` onto its own pending list; a primary item brings
     * back its unit of credit and of `m_appnum`.
     */
    method Requeue(item: TxItem)
      modifies this
      ensures item.qided ==> State() == old(State()).(qid := [item] + old(qid))
      ensures !item.qided ==> State() == old(State()).(app := [item] + old(app),
                                  appnum := U32.Add(old(appnum), 1), qednum := U32.Add(old(qednum), 1))
    {
      if item.qided {
        qid := [item] + qid;
      } else {
        app := [item] + app;
        appnum, qednum := U32.Add(appnum, 1), U32.Add(qednum, 1);
      }
    }

    /**
     * `m_sentSize` and the sent counter of the stream (`m_stagesentSize` when
     * `aux`, else `m_appsentSize`) lose `k` bytes, or become 0 when the sent
     * list is empty.
     */
    method Uncount(k: nat, aux: bool)
      modifies this
      ensures aux && sent == [] ==> State() == old(State()).(sentSize := 0, stagesentSize := 0)
      ensures aux && sent != [] ==> State() == old(State()).(sentSize := U32.Sub(old(sentSize), k),
                                                              stagesentSize := U32.Sub(old(stagesentSize), k))
      ensures !aux && sent == [] ==> State() == old(State()).(sentSize := 0, appsentSize := 0)
      ensures !aux && sent != [] ==> State() == old(State()).(sentSize := U32.Sub(old(sentSize), k),
                                                               appsentSize := U32.Sub(old(appsentSize), k))
    {
      if aux {
        if sent == [] {
          sentSize, stagesentSize := 0, 0;
        } else {
          sentSize, stagesentSize := U32.Sub(sentSize, k), U32.Sub(stagesentSize, k);
        }
      } else {
        if sent == [] {
          sentSize, appsentSize := 0, 0;
        } else {
          sentSize, appsentSize := U32.Sub(sentSize, k), U32.Sub(appsentSize, k);
        }
      }
    }

    // -------------------------------------------------------------------
    // Transmission (tcp-tx-buffer.cc:511-705)
    // -------------------------------------------------------------------

    /**
     * `GetNewSegment (numBytes)`: the head of the pending list of the current
     * stage is cut to `numBytes` and moved to the end of the sent list.
     * `res` is the position of the item in the sent list.
     */
    method GetNewSegment(n: nat) returns (res: Result<nat>)
      modifies this
      ensures res == Outcome(Transmit.GetNewSegment(old(State()), n))
      ensures res.Ok? ==> State() == Transmit.GetNewSegment(old(State()), n).st
    {
      ghost var st := State();
      var count := |sent|;
      var aux := stage == 1;
      var list := if aux then qid else app;
      var start := if aux then first + stagesentSize else first + appsentSize;
      assert list == Transmit.Source(st) && start == Transmit.SourceStart(st);
      var lk := GetPacketFromList(list, start, n, start);
      Transmit.GetNewSegmentFrom(st, n, lk);
      if lk.Failed? {
        return Fatal(lk.reason);
      }
      Move(lk.items[lk.index], Remove(lk.items, lk.index));
      res := Ok(count);
    }

    /**
     * The item taken off the pending list of the current stage, leaving
     * `rest` there, is tagged with its stream and appended to the sent list.
     */
    method Move(item: TxItem, rest: seq<TxItem>)
      modifies this
      ensures State() == Transmit.Moved(old(State()), item, rest)
    {
      if stage == 1 {
        qid := rest;
        PushSent(item.(qided := true));
        CountSent(|item.data|, true);
        stage := 0;
      } else {
        app := rest;
        PushSent(item.(qided := false));
        CountSent(|item.data|, false);
        TakeCredit();
      }
    }

    /** `m_sentList.insert (m_sentList.end (), item)`; the highest sack stays on its item. */
    method PushSent(t: TxItem)
      modifies this
      ensures State() == old(State()).(sent := old(sent) + [t], hs := AfterPush(old(hs), |old(sent)|))
    {
      sent, hs := sent + [t], AfterPush(hs, |sent|);
    }

    /** `m_sentSize` and the sent counter of the stream grow by `k`. */
    method CountSent(k: nat, aux: bool)
      modifies this
      ensures aux ==> State() == old(State()).(sentSize := U32.Add(old(sentSize), k),
                                                stagesentSize := U32.Add(old(stagesentSize), k))
      ensures !aux ==> State() == old(State()).(sentSize := U32.Add(old(sentSize), k),
                                                 appsentSize := U32.Add(old(appsentSize), k))
    {
      if aux {
        sentSize, stagesentSize := U32.Add(sentSize, k), U32.Add(stagesentSize, k);
      } else {
        sentSize, appsentSize := U32.Add(sentSize, k), U32.Add(appsentSize, k);
      }
    }

    /** A primary item sent: one unit of credit and of `m_appnum` used, the next stage auxiliary. */
    method TakeCredit()
      modifies this
      ensures State() == old(State()).(qednum := U32.Sub(old(qednum), 1), stage := 1,
                                       appnum := U32.Sub(old(appnum), 1))
    {
      qednum := U32.Sub(qednum, 1);
      stage := 1;
      appnum := U32.Sub(appnum, 1);
    }

    /**
     * `GetTransmittedSegment (numBytes, seq)`: the sent item that covers
     * `[seq, seq + numBytes)`, made by splitting and merging items; `res` is
     * its position.
     */
    method GetTransmittedSegment(n: nat, sn: nat) returns (res: Result<nat>)
      requires 16 <= qheader
      modifies this
      ensures res == Outcome(Transmit.GetTransmittedSegment(old(State()), n, sn))
      ensures res.Ok? ==> State() == Transmit.GetTransmittedSegment(old(State()), n, sn).st
    {
      if sn < first {
        return Fatal(BeforeHead);
      }
      if n > sentSize {
        return Fatal(BeyondSent);
      }
      var lk := GetPacketFromList(sent, first, n, sn);
      Transmit.GetTransmittedSegmentFrom(State(), n, sn, lk);
      if lk.Failed? {
        return Fatal(lk.reason);
      }
      Relist(lk.items, lk.edited);
      res := Regenerate(lk.index);
    }

    /**
     * The sent list after the lookup edited it: the highest sack is recomputed
     * when the list was edited and it is not behind the head, else it stays
     * on its item.
     */
    method Relist(items: seq<TxItem>, edited: bool)
      modifies this
      ensures State() == old(State()).(sent := items,
                                       hs := if edited && old(hs).sn >= old(first) then HighestSacked(items, old(first))
                                             else AfterResize(old(hs), |old(sent)|, |items|))
    {
      var count := |sent|;
      sent := items;
      if edited && hs.sn >= first {
        hs := GetHighestSacked();
      } else {
        hs := AfterResize(hs, count, |sent|);
      }
    }

    /**
     * The last step of `GetTransmittedSegment`: a lost auxiliary item that was
     * already retransmitted gets a fresh payload from `Addqednew`.
     */
    method Regenerate(i: nat) returns (res: Result<nat>)
      requires 16 <= qheader && i < |sent|
      modifies this
      ensures res == Outcome(Transmit.Regenerate(old(State()), i))
      ensures res.Ok? ==> State() == Transmit.Regenerate(old(State()), i).st
    {
      var item := sent[i];
      if item.qided && item.lost && item.retrans {
        var r := Addqednew(item);
        if r.Fatal? {
          return Fatal(r.reason);
        }
        sent := sent[i := r.value];
      }
      res := Ok(i);
    }

    /**
     * The end of `CopyFromSequence`: the item at `i` is not lost and was sent
     * at `now`; its payload is returned unless its size is not `s`.
     */
    method MarkSent(i: nat, s: nat, now: int) returns (res: Result<seq<byte>>)
      requires i < |sent|
      modifies this
      ensures res == Outcome(Transmit.Sent(old(State()), i, s, now))
      ensures res.Ok? ==> State() == Transmit.Sent(old(State()), i, s, now).st
    {
      var item := sent[i].(lost := false, lastSent := now);
      sent := sent[i := item];
      if |item.data| != s {
        return Fatal(SizeMismatch);
      }
      res := Ok(item.data);
    }

    /** The branch of `CopyFromSequence` for a range sent completely before. */
    method Retransmit(s: nat, sn: nat, now: int) returns (res: Result<seq<byte>>)
      requires 16 <= qheader
      modifies this
      ensures res == Outcome(Transmit.Retransmit(old(State()), s, sn, now))
      ensures res.Ok? ==> State() == Transmit.Retransmit(old(State()), s, sn, now).st
    {
      var g := GetTransmittedSegment(s, sn);
      if g.Fatal? {
        return Fatal(g.reason);
      }
      sent := sent[g.value := sent[g.value].(retrans := true)];
      res := MarkSent(g.value, s, now);
    }

    /** The branch of `CopyFromSequence` for new data at the end of the sent list. */
    method SendNew(s: nat, now: int) returns (res: Result<seq<byte>>)
      modifies this
      ensures res == Outcome(Transmit.SendNew(old(State()), s, now))
      ensures res.Ok? ==> State() == Transmit.SendNew(old(State()), s, now).st
    {
      var g := GetNewSegment(s);
      if g.Fatal? {
        return Fatal(g.reason);
      }
      if sent[g.value].retrans {
        return Fatal(NewDataRetransmitted);
      }
      res := MarkSent(g.value, s, now);
    }

    /**
     * `CopyFromSequence (numBytes, seq)`, with `now` for `Simulator::Now ()`:
     * the bytes of the segment `[seq, seq + numBytes)` cut to what the buffer
     * holds, taken from the sent list or moved there from a pending list.
     */
    method CopyFromSequence(n: nat, sn: nat, now: int) returns (res: Result<seq<byte>>)
      requires 16 <= qheader
      modifies this
      ensures res == Outcome(Transmit.CopyFromSequence(old(State()), n, sn, now))
      ensures res.Ok? ==> State() == Transmit.CopyFromSequence(old(State()), n, sn, now).st
      decreases Transmit.Pending(State())
    {
      ghost var st := State();
      if first > sn {
        return Ok([]);
      }
      var s := Min(n, SizeFromSequence(State(), sn));
      var s1 := Min(s, U32.Sub(stageSize, stagesentSize));
      var s3 := Min(s, U32.Sub(size, appsentSize));
      if s == 0 {
        return Ok([]);
      }
      var high := first + sentSize;
      if high >= sn + s {
        res := Retransmit(s, sn, now);
        return;
      }
      if qednum > 0 {
        stage, s := 0, s3;
      } else {
        stage, s := 1, s1;
      }
      ghost var st0 := State();
      assert st0 == Transmit.Credit(st) && s == Transmit.NewAmount(st, n, sn);
      if high < sn {
        return Fatal(Hole);
      }
      if high == sn {
        res := SendNew(s, now);
        return;
      }
      if high < sn + s {
        var g := GetNewSegment(sn + s - high);
        if g.Fatal? {
          return Fatal(g.reason);
        }
        Transmit.GetNewSegmentCounts(st0, sn + s - high);
        Transmit.GetNewSegmentKeeps(st0, sn + s - high);
        res := CopyFromSequence(n, sn, now);
        return;
      }
      return Fatal(NoItem);
    }

    // -------------------------------------------------------------------
    // Acknowledgement (tcp-tx-buffer.cc:948-1073)
    // -------------------------------------------------------------------

    /**
     * `DiscardUpTo (seq)`, with `now` for the clock of the refill and at most
     * `fuel` iterations of its loop.
     */
    method DiscardUpTo(sn: nat, now: int, fuel: nat) returns (res: Result<()>)
      requires 16 <= qheader
      modifies this
      ensures res == Outcome(Discard.DiscardUpTo(old(State()), sn, now, fuel))
      ensures res.Ok? ==> State() == Discard.DiscardUpTo(old(State()), sn, now, fuel).st
    {
      ghost var st := State();
      if first >= sn {
        return Ok(());
      }
      ghost var loop := Discard.DiscardLoop(st, sn - first, now, fuel);
      ghost var goal := Discard.DiscardUpTo(st, sn, now, fuel);
      assert goal == Discard.AfterLoop(loop, sn);
      var r := DiscardLoop(sn - first, now, fuel);
      assert r == Outcome(loop);
      if r.Fatal? {
        assert loop == Stop(r.reason);
        return r;
      }
      assert loop.Step? && loop.st == State();
      Discard.AfterLoopStep(loop, sn);
      res := Finish(sn);
    }

    /**
     * The loop of `DiscardUpTo`, for at most `fuel` iterations, over the
     * `offset` bytes to acknowledge; `left` of them remain.
     */
    method DiscardLoop(offset: nat, now: int, fuel: nat) returns (res: Result<()>)
      requires 16 <= qheader
      modifies this
      ensures res == Outcome(Discard.DiscardLoop(old(State()), offset, now, fuel))
      ensures res.Ok? ==> State() == Discard.DiscardLoop(old(State()), offset, now, fuel).st
    {
      ghost var goal := Discard.DiscardLoop(State(), offset, now, fuel);
      var left: nat, f: nat := offset, fuel;
      while size > 0 && U32.Add(size, stageSize) > 0 && left > 0
        invariant 16 <= qheader
        invariant Discard.DiscardLoop(State(), left, now, f) == goal
        decreases f
      {
        if f == 0 {
          return Fatal(OutOfFuel);
        }
        Discard.DiscardStep(State(), left, now, f);
        var ok := Refill(left, now);
        if ok.Fatal? {
          return Fatal(ok.reason);
        }
        var k := |sent[0].data|;
        if left >= k {
          DropHead();
          left, f := left - k, f - 1;
        } else {
          TrimHead(left);
          break;
        }
      }
      assert goal.Step? && goal.st == State();
      res := Ok(());
    }

    /** Refill an empty sent list with `CopyFromSequence (offset, m_firstByteSeq)`. */
    method Refill(offset: nat, now: int) returns (res: Result<()>)
      requires 16 <= qheader
      modifies this
      ensures res == Outcome(Discard.Refill(old(State()), offset, now))
      ensures res.Ok? ==> State() == Discard.Refill(old(State()), offset, now).st
    {
      if sent == [] {
        var p := CopyFromSequence(offset, first, now);
        if p.Fatal? {
          return Fatal(p.reason);
        }
        if sent == [] {
          return Fatal(RefillFailed);
        }
      }
      res := Ok(());
    }

    /** The whole head item acknowledged: it leaves the sent list and the counters. */
    method DropHead()
      requires sent != []
      modifies this
      ensures State() == Discard.DropHead(old(State()))
    {
      var item := sent[0];
      sent, hs := sent[1..], AfterPopFront(hs);
      Acknowledge(|item.data|);
      Uncredit(|item.data|, item.qided);
    }

    /** The first `offset` bytes of the head item acknowledged: a fragment of it stays. */
    method TrimHead(offset: nat)
      requires sent != [] && offset < |sent[0].data|
      modifies this
      ensures State() == Discard.TrimHead(old(State()), offset)
    {
      var item := sent[0];
      sent := sent[0 := item.(data := item.data[offset..])];
      Acknowledge(offset);
      Uncredit(offset, item.qided);
    }

    /** `k` acknowledged bytes: the head moves past them and `m_sentSize` loses them. */
    method Acknowledge(k: nat)
      modifies this
      ensures State() == old(State()).(sentSize := U32.Sub(old(sentSize), k), first := old(first) + k)
    {
      sentSize, first := U32.Sub(sentSize, k), first + k;
    }

    /**
     * `k` acknowledged bytes leave the size and sent counters of their
     * stream; auxiliary bytes give back a unit of credit.
     */
    method Uncredit(k: nat, aux: bool)
      modifies this
      ensures aux ==> State() == old(State()).(qednum := U32.Add(old(qednum), 1),
                                                stageSize := U32.Sub(old(stageSize), k),
                                                stagesentSize := U32.Sub(old(stagesentSize), k))
      ensures !aux ==> State() == old(State()).(size := U32.Sub(old(size), k),
                                                 appsentSize := U32.Sub(old(appsentSize), k))
    {
      if aux {
        qednum := U32.Add(qednum, 1);
        stageSize, stagesentSize := U32.Sub(stageSize, k), U32.Sub(stagesentSize, k);
      } else {
        size, appsentSize := U32.Sub(size, k), U32.Sub(appsentSize, k);
      }
    }

    /**
     * The end of `DiscardUpTo (seq)`: the FIN case, the sacked head, the
     * stale highest sack, and the closing assertion.
     */
    method Finish(sn: nat) returns (res: Result<()>)
      modifies this
      ensures res == Outcome(Discard.Finish(old(State()), sn))
      ensures res.Ok? ==> State() == Discard.Finish(old(State()), sn).st
    {
      if size == 0 && stageSize == 0 {
        first := sn;
      }
      if sent != [] {
        sent := sent[0 := sent[0].(sacked := false)];
      }
      if hs.sn <= first {
        hs := NoSack(sent);
      }
      if first < sn {
        return Fatal(AckNotReached);
      }
      res := Ok(());
    }
  }
}
