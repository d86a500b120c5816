/**
 * Putting application data into the buffer (tcp-tx-buffer.cc:273-492):
 * `Add` splits one application packet into a primary unit (`Addapp`) and a
 * redundant auxiliary unit (`Addqed`) built by `Encode`; `Addqednew`
 * regenerates the payload of an auxiliary unit that has to be sent again.
 */
module Enqueue {
  import opened U32
  import opened TxItems
  import opened ItemLists
  import opened Status
  import opened QtcpHeader
  import opened BufferState

  /** The primary unit of `p`: header (stage, send numbers), the packet, `m_red` zero bytes. */
  function PrimaryItem(st: BufState, p: seq<byte>): (r: TxItem)
    requires 16 <= st.qheader
    ensures |r.data| == st.qheader + |p| + st.red && !r.qided
  {
    NewItem(Header(st.stageQseq, st.sendQseq, PrimaryFlag(st.qheader), st.qheader) + p + Zeros(st.red), false)
  }

  /** The auxiliary unit of `q`: header (es, stage numbers) and `q`. */
  function AuxItem(st: BufState, q: seq<byte>): (r: TxItem)
    requires 16 <= st.qheader
    ensures |r.data| == st.qheader + |q| && r.qided
  {
    NewItem(Header(st.esQseq, st.stageQseq, AuxiliaryFlag(st.qheader), st.qheader) + q, true)
  }

  /** `p->GetSize () + m_qheader + m_red` in `uint32_t`. */
  function Room(st: BufState, n: nat): nat {
    U32.Add(U32.Add(n, st.qheader), st.red)
  }

  /**
   * `Addapp (p)`: when the room check passes, a non-empty packet becomes a
   * primary unit at the tail of the primary list; an empty one is accepted
   * and ignored.
   */
  function Addapp(st: BufState, p: seq<byte>): (BufState, bool)
    requires 16 <= st.qheader
  {
    if Room(st, |p|) <= Available(st) then
      if |p| > 0 then
        var item := PrimaryItem(st, p);
        (st.(app := st.app + [item], size := U32.Add(st.size, |item.data|)), true)
      else (st, true)
    else (st, false)
  }

  /** `Addqed (q)`: the same for an auxiliary unit on the auxiliary list. */
  function Addqed(st: BufState, q: seq<byte>): (BufState, bool)
    requires 16 <= st.qheader
  {
    if Room(st, |q|) <= Available(st) then
      if |q| > 0 then
        var item := AuxItem(st, q);
        (st.(qid := st.qid + [item], stageSize := U32.Add(st.stageSize, |item.data|)), true)
      else (st, true)
    else (st, false)
  }

  /** The first `Add` draws the first auxiliary number from `rand ()`, here `seed`. */
  function Seeded(st: BufState, seed: nat): (r: BufState)
    ensures r.(esQseq := st.esQseq) == st && Is32(r.esQseq) == (Is32(st.esQseq) || st.esQseq == 0)
  {
    if st.esQseq == 0 then st.(esQseq := Wrap(seed)) else st
  }

  /**
   * `Add (p)`: room for five times the primary unit is required; then the
   * encoded copy of `p` (with `m_red` extra bytes) goes to the auxiliary list,
   * `p` to the primary list, and the three header numbers advance.
   */
  function Add(st: BufState, p: seq<byte>, seed: nat): (BufState, bool)
    requires 16 <= st.qheader
  {
    var st0 := Seeded(st, seed);
    if Mul(5, Room(st0, |p|)) <= Available(st0) then
      var st1 := st0.(appnum := U32.Add(st0.appnum, 1));
      (Advance(Addapp(Addqed(st1, EncodeBytes(p, |p| + st0.red)).0, p).0), true)
    else (st0, false)
  }

  /** The three header numbers advance once per packet. */
  function Advance(st: BufState): BufState {
    st.(sendQseq := U32.Add(st.sendQseq, 1), stageQseq := U32.Add(st.stageQseq, 1),
        esQseq := U32.Add(st.esQseq, 1))
  }

  /**
   * `Addqednew (item)`: an auxiliary unit about to be retransmitted gets a
   * fresh header (es, stage numbers, both then advanced) and a regenerated
   * body of the same length. An item shorter than the header overruns the
   * header array in the source.
   */
  function Addqednew(st: BufState, item: TxItem): Step<TxItem>
    requires 16 <= st.qheader
  {
    var n := |item.data|;
    if n == 0 then Step(st, item)
    else if n < st.qheader then Stop(HeaderOverrun)
    else
      Step(st.(esQseq := U32.Add(st.esQseq, 1), stageQseq := U32.Add(st.stageQseq, 1)),
           item.(data := Header(st.esQseq, st.stageQseq, AuxiliaryFlag(st.qheader), st.qheader)
                         + Regenerated(n - st.qheader)))
  }

  // ---------------------------------------------------------------------
  // Unit layout
  // ---------------------------------------------------------------------

  /**
   * A primary unit is `m_qheader + |p| + m_red` bytes: the header carrying the
   * stage and send numbers and the primary flag, then `p`, then zeros.
   */
  lemma PrimaryLayout(st: BufState, p: seq<byte>)
    requires 16 <= st.qheader
    ensures var d := PrimaryItem(st, p).data;
      && |d| == st.qheader + |p| + st.red
      && d[..4] == Magic
      && (Is32(st.stageQseq) ==> DecodeBigEndian32(d[4..8]) == st.stageQseq)
      && (Is32(st.sendQseq) ==> DecodeBigEndian32(d[8..12]) == st.sendQseq)
      && d[12] == PrimaryFlag(st.qheader)
      && d[st.qheader..st.qheader + |p|] == p
      && (forall i :: st.qheader + |p| <= i < |d| ==> d[i] == 0)
      && !PrimaryItem(st, p).qided
  {
    var h := Header(st.stageQseq, st.sendQseq, PrimaryFlag(st.qheader), st.qheader);
    HeaderLayout(st.stageQseq, st.sendQseq, PrimaryFlag(st.qheader), st.qheader);
    var d := h + p + Zeros(st.red);
    assert d[..4] == h[..4];
    assert d[4..8] == h[4..8];
    assert d[8..12] == h[8..12];
    assert d[st.qheader..st.qheader + |p|] == p;
  }

  /**
   * An auxiliary unit built by `Add` is `m_qheader + |p| + m_red` bytes: the
   * header carrying the es and stage numbers and the auxiliary flag, then
   * every byte of `p` plus 49, then `m_red` bytes 49. Subtracting 49 gives `p`
   * back.
   */
  lemma AuxLayout(st: BufState, p: seq<byte>)
    requires 16 <= st.qheader
    ensures var d := AuxItem(st, EncodeBytes(p, |p| + st.red)).data;
      && |d| == st.qheader + |p| + st.red
      && d[..4] == Magic
      && (Is32(st.esQseq) ==> DecodeBigEndian32(d[4..8]) == st.esQseq)
      && (Is32(st.stageQseq) ==> DecodeBigEndian32(d[8..12]) == st.stageQseq)
      && d[12] == AuxiliaryFlag(st.qheader)
      && (forall i :: 0 <= i < |p| ==> AddByte(d[st.qheader + i], -49) == p[i])
      && (forall i :: st.qheader + |p| <= i < |d| ==> d[i] == 49)
      && AuxItem(st, EncodeBytes(p, |p| + st.red)).qided
  {
    var q := EncodeBytes(p, |p| + st.red);
    var h := Header(st.esQseq, st.stageQseq, AuxiliaryFlag(st.qheader), st.qheader);
    var d := h + q;
    assert AuxItem(st, q).data == d;
    assert d[..4] == h[..4] && d[4..8] == h[4..8] && d[8..12] == h[8..12] && d[12] == h[12] by {
      HeaderLayout(st.esQseq, st.stageQseq, AuxiliaryFlag(st.qheader), st.qheader);
    }
    HeaderLayout(st.esQseq, st.stageQseq, AuxiliaryFlag(st.qheader), st.qheader);
    assert forall i :: 0 <= i < |p| ==> AddByte(d[st.qheader + i], -49) == p[i] by {
      EncodeReversible(p, |p| + st.red);
    }
    assert forall i :: st.qheader + |p| <= i < |d| ==> d[i] == 49 by {
      forall i | st.qheader + |p| <= i < |d|
        ensures d[i] == 49
      {
        var j := i - st.qheader;
        assert d[i] == q[j];
        assert q[j] as int == (SourceByte(p, j) as int + 49) % 256;
      }
    }
  }

  // ---------------------------------------------------------------------
  // Add
  // ---------------------------------------------------------------------

  /** An accepted non-empty `Addapp` appends its unit and counts its bytes; nothing else changes. */
  lemma AddappAppends(st: BufState, p: seq<byte>)
    requires 16 <= st.qheader && Room(st, |p|) <= Available(st) && |p| > 0
    ensures Addapp(st, p).0 ==
      st.(app := st.app + [PrimaryItem(st, p)], size := U32.Add(st.size, |PrimaryItem(st, p).data|))
  {
  }

  /** An accepted non-empty `Addqed` appends its unit and counts its bytes; nothing else changes. */
  lemma AddqedAppends(st: BufState, q: seq<byte>)
    requires 16 <= st.qheader && Room(st, |q|) <= Available(st) && |q| > 0
    ensures Addqed(st, q).0 ==
      st.(qid := st.qid + [AuxItem(st, q)], stageSize := U32.Add(st.stageSize, |AuxItem(st, q).data|))
  {
  }

  /**
   * `Add` answers true exactly when five times the unit fits in the
   * available space (after the first call seeds the auxiliary number); a
   * refused packet changes nothing but that seed.
   */
  lemma AddRefused(st: BufState, p: seq<byte>, seed: nat)
    requires 16 <= st.qheader
    ensures var st0 := Seeded(st, seed);
      var r := Add(st, p, seed);
      && (r.1 <==> Mul(5, Room(st0, |p|)) <= Available(st0))
      && (!r.1 ==> r.0 == st0)
  {
  }

  /**
   * An accepted non-empty packet, when nothing wraps around, appends one
   * auxiliary unit (the encoded packet) and one primary unit of
   * `m_qheader + |p| + m_red` bytes each, grows both stream sizes by that
   * much, and advances `m_appnum` and the three header numbers; nothing
   * else changes.
   */
  lemma AddAccepted(st: BufState, p: seq<byte>, seed: nat)
    requires Wf(st)
    requires st.size + st.stageSize <= st.maxBuffer && 5 * (|p| + st.qheader + st.red) < M
    requires |p| > 0 && Add(st, p, seed).1
    ensures var st0 := Seeded(st, seed);
      var n := st.qheader + |p| + st.red;
      Add(st, p, seed).0 ==
        Advance(st0.(qid := st0.qid + [AuxItem(st0, EncodeBytes(p, |p| + st.red))],
                     app := st0.app + [PrimaryItem(st0, p)],
                     stageSize := st0.stageSize + n, size := st0.size + n,
                     appnum := U32.Add(st0.appnum, 1)))
  {
    var st0 := Seeded(st, seed);
    assert Mul(5, Room(st0, |p|)) <= Available(st0) by {
      AddRefused(st, p, seed);
    }
    AddStages(st, p, seed);
    AddAcceptedStages(st0, p);
  }

  /**
   * An accepted empty packet still counts in `m_appnum` and advances the
   * three header numbers. Its encoded copy is the `m_red` bytes of 49, so
   * when `m_red > 0` one auxiliary unit of `m_qheader + m_red` bytes is
   * queued; `Addapp` queues nothing for it.
   */
  lemma AddAcceptedEmpty(st: BufState, seed: nat)
    requires Wf(st)
    requires st.size + st.stageSize <= st.maxBuffer && 5 * (st.qheader + st.red) < M
    requires Add(st, [], seed).1
    ensures var st0 := Seeded(st, seed);
      var q := EncodeBytes([], st.red);
      var st1 := st0.(appnum := U32.Add(st0.appnum, 1));
      && |q| == st.red && (forall i :: 0 <= i < |q| ==> q[i] == 49)
      && (st.red > 0 ==>
            Add(st, [], seed).0 ==
              Advance(st1.(qid := st0.qid + [AuxItem(st0, q)], stageSize := st0.stageSize + st.qheader + st.red)))
      && (st.red == 0 ==> Add(st, [], seed).0 == Advance(st1))
  {
    var st0 := Seeded(st, seed);
    AddRefused(st, [], seed);
    var st1 := st0.(appnum := U32.Add(st0.appnum, 1));
    var q := EncodeBytes([], st0.red);
    var st3 := Addapp(Addqed(st1, q).0, []).0;
    AddAccepts(st, [], seed, st0, st1, st3);
    EmptyStages(st0, q);
  }

  /** The two list stages of an accepted empty packet. */
  lemma EmptyStages(st0: BufState, q: seq<byte>)
    requires Wf(st0)
    requires st0.size + st0.stageSize <= st0.maxBuffer && 5 * (st0.qheader + st0.red) < M
    requires Mul(5, Room(st0, 0)) <= Available(st0) && q == EncodeBytes([], st0.red)
    ensures var st1 := st0.(appnum := U32.Add(st0.appnum, 1));
      var st3 := Addapp(Addqed(st1, q).0, []).0;
      && (st0.red > 0 ==>
            st3 == st1.(qid := st0.qid + [AuxItem(st0, q)], stageSize := st0.stageSize + st0.qheader + st0.red))
      && (st0.red == 0 ==> st3 == st1)
  {
    var n := st0.qheader + st0.red;
    var free := st0.maxBuffer - st0.size - st0.stageSize;
    assert 5 * n <= free by {
      RoomExact(st0, 0);
      MulExact(5, n);
      assert Available(st0) == free;
    }
    var st1 := st0.(appnum := U32.Add(st0.appnum, 1));
    if st0.red > 0 {
      var aux := AuxItem(st1, q);
      assert aux == AuxItem(st0, q);
      var st2 := st1.(qid := st0.qid + [aux], stageSize := st0.stageSize + n);
      assert Room(st1, |q|) <= Available(st1) by {
        RoomExact(st1, |q|);
        assert Available(st1) == free;
      }
      assert Addqed(st1, q).0 == st2 by {
        AddqedAppends(st1, q);
        assert U32.Add(st0.stageSize, |aux.data|) == st0.stageSize + n;
      }
    }
  }

  /** The two list stages of an accepted `Add`, each with its exact counters. */
  lemma AddAcceptedStages(st0: BufState, p: seq<byte>)
    requires Wf(st0)
    requires st0.size + st0.stageSize <= st0.maxBuffer && 5 * (|p| + st0.qheader + st0.red) < M
    requires |p| > 0 && Mul(5, Room(st0, |p|)) <= Available(st0)
    ensures var n := st0.qheader + |p| + st0.red;
      var st1 := st0.(appnum := U32.Add(st0.appnum, 1));
      var q := EncodeBytes(p, |p| + st0.red);
      var st2 := st1.(qid := st0.qid + [AuxItem(st0, q)], stageSize := st0.stageSize + n);
      Addapp(Addqed(st1, q).0, p).0 == st2.(app := st0.app + [PrimaryItem(st0, p)], size := st0.size + n)
  {
    var n := st0.qheader + |p| + st0.red;
    var free := st0.maxBuffer - st0.size - st0.stageSize;
    assert 5 * n <= free by {
      RoomExact(st0, |p|);
      MulExact(5, n);
      assert Available(st0) == free;
    }
    var st1 := st0.(appnum := U32.Add(st0.appnum, 1));
    var q := EncodeBytes(p, |p| + st0.red);
    var aux := AuxItem(st1, q);
    assert aux == AuxItem(st0, q);
    var st2 := st1.(qid := st0.qid + [aux], stageSize := st0.stageSize + n);
    var prim := PrimaryItem(st2, p);
    assert prim == PrimaryItem(st0, p);
    var st3 := st2.(app := st0.app + [prim], size := st0.size + n);
    assert Room(st1, |q|) <= Available(st1) by {
      RoomExact(st1, |q|);
      assert Available(st1) == free;
    }
    assert Addqed(st1, q).0 == st2 by {
      AddqedAppends(st1, q);
      assert U32.Add(st0.stageSize, |aux.data|) == st0.stageSize + n;
    }
    assert Room(st2, |p|) <= Available(st2) by {
      RoomExact(st2, |p|);
      assert Available(st2) == free - n;
    }
    assert Addapp(st2, p).0 == st3 by {
      AddappAppends(st2, p);
      assert U32.Add(st0.size, |prim.data|) == st0.size + n;
    }
  }

  /** The room check computes the exact unit size when nothing wraps around. */
  lemma RoomExact(st: BufState, n: nat)
    requires n + st.qheader + st.red < M
    ensures Room(st, n) == n + st.qheader + st.red
  {
  }

  /** Appending an item to the primary list and counting its bytes keeps the invariant. */
  lemma PushAppConsistent(st: BufState, item: TxItem)
    requires Consistent(st)
    ensures Consistent(st.(app := st.app + [item], size := U32.Add(st.size, |item.data|)))
  {
    var k := |item.data|;
    var r := st.(app := st.app + [item], size := U32.Add(st.size, k));
    TotalConcat(st.app, [item]);
    assert Total([item]) == k + Total([]);
    AddCong(st.size, k);
    assert Cong(st.stageSize - st.sentSize, st.stageSize - st.sentSize);
    CongAdd(r.size, st.size + k, st.stageSize - st.sentSize, st.stageSize - st.sentSize);
    assert Cong(k, k);
    CongAdd(st.size + st.stageSize - st.sentSize, Total(st.app) + Total(st.qid), k, k);
    assert r.size + r.stageSize - r.sentSize == r.size + (st.stageSize - st.sentSize);
    CongTrans(r.size + r.stageSize - r.sentSize, st.size + k + (st.stageSize - st.sentSize),
              Total(r.app) + Total(r.qid));
  }

  /** Appending an item to the auxiliary list and counting its bytes keeps the invariant. */
  lemma PushQidConsistent(st: BufState, item: TxItem)
    requires Consistent(st)
    ensures Consistent(st.(qid := st.qid + [item], stageSize := U32.Add(st.stageSize, |item.data|)))
  {
    var k := |item.data|;
    var r := st.(qid := st.qid + [item], stageSize := U32.Add(st.stageSize, k));
    TotalConcat(st.qid, [item]);
    assert Total([item]) == k + Total([]);
    AddCong(st.stageSize, k);
    assert Cong(st.size - st.sentSize, st.size - st.sentSize);
    CongAdd(r.stageSize, st.stageSize + k, st.size - st.sentSize, st.size - st.sentSize);
    assert Cong(k, k);
    CongAdd(st.size + st.stageSize - st.sentSize, Total(st.app) + Total(st.qid), k, k);
    assert r.size + r.stageSize - r.sentSize == r.stageSize + (st.size - st.sentSize);
    CongTrans(r.size + r.stageSize - r.sentSize, st.stageSize + k + (st.size - st.sentSize),
              Total(r.app) + Total(r.qid));
  }

  /** `Addapp` keeps the counter invariant. */
  lemma AddappConsistent(st: BufState, p: seq<byte>)
    requires 16 <= st.qheader && Consistent(st)
    ensures Consistent(Addapp(st, p).0)
  {
    if Room(st, |p|) <= Available(st) && |p| > 0 {
      PushAppConsistent(st, PrimaryItem(st, p));
    }
  }

  /** `Addqed` keeps the counter invariant. */
  lemma AddqedConsistent(st: BufState, q: seq<byte>)
    requires 16 <= st.qheader && Consistent(st)
    ensures Consistent(Addqed(st, q).0)
  {
    if Room(st, |q|) <= Available(st) && |q| > 0 {
      PushQidConsistent(st, AuxItem(st, q));
    }
  }

  /** The state after `Add` when the room check passes, stage by stage. */
  lemma AddStages(st: BufState, p: seq<byte>, seed: nat)
    requires 16 <= st.qheader
    ensures var st0 := Seeded(st, seed);
      Mul(5, Room(st0, |p|)) <= Available(st0) ==>
        Add(st, p, seed) ==
          (Advance(Addapp(Addqed(st0.(appnum := U32.Add(st0.appnum, 1)),
                                 EncodeBytes(p, |p| + st0.red)).0, p).0), true)
  {
  }

  /** `Add` once the room check has passed and both units have been queued into `st3`. */
  lemma AddAccepts(st: BufState, p: seq<byte>, seed: nat, st0: BufState, st1: BufState, st3: BufState)
    requires 16 <= st.qheader
    requires st0 == Seeded(st, seed) && Mul(5, Room(st0, |p|)) <= Available(st0)
    requires st1 == st0.(appnum := U32.Add(st0.appnum, 1))
    requires st3 == Addapp(Addqed(st1, EncodeBytes(p, |p| + st0.red)).0, p).0
    ensures Add(st, p, seed).0 == Advance(st3) && Add(st, p, seed).1
  {
  }

  /** The invariant reads only the byte counters and the lists. */
  lemma SameCounters(a: BufState, b: BufState)
    requires Consistent(a)
    requires a.sent == b.sent && a.app == b.app && a.qid == b.qid
    requires a.size == b.size && a.sentSize == b.sentSize && a.stageSize == b.stageSize
    ensures Consistent(b)
  {
  }

  /** Advancing the header numbers leaves the counters alone. */
  lemma AdvanceConsistent(st: BufState)
    requires Consistent(st)
    ensures Consistent(Advance(st))
  {
  }

  /** `Add` keeps the counter invariant. */
  lemma AddConsistent(st: BufState, p: seq<byte>, seed: nat)
    requires 16 <= st.qheader && Consistent(st)
    ensures Consistent(Add(st, p, seed).0)
  {
    var st0 := Seeded(st, seed);
    SameCounters(st, st0);
    if Mul(5, Room(st0, |p|)) <= Available(st0) {
      var st1 := st0.(appnum := U32.Add(st0.appnum, 1));
      var st3 := Addapp(Addqed(st1, EncodeBytes(p, |p| + st0.red)).0, p).0;
      QueuedConsistent(st0, p, st1, st3);
      AddAccepts(st, p, seed, st0, st1, st3);
    } else {
      AddRefused(st, p, seed);
    }
  }

  /** Counting the packet and queueing both of its units keeps the invariant. */
  lemma QueuedConsistent(st0: BufState, p: seq<byte>, st1: BufState, st3: BufState)
    requires 16 <= st0.qheader && Consistent(st0)
    requires st1 == st0.(appnum := U32.Add(st0.appnum, 1))
    requires st3 == Addapp(Addqed(st1, EncodeBytes(p, |p| + st0.red)).0, p).0
    ensures Consistent(Advance(st3))
  {
    var q := EncodeBytes(p, |p| + st0.red);
    SameCounters(st0, st1);
    AddqedConsistent(st1, q);
    AddappConsistent(Addqed(st1, q).0, p);
    AdvanceConsistent(st3);
  }

  /**
   * `Addqednew` fails exactly on a non-empty item shorter than the header.
   * Otherwise the item keeps its length and its flags; a non-empty one gets a
   * header with the current es and stage numbers followed by regenerated
   * bytes (50 each), and both numbers advance; nothing else changes.
   */
  lemma AddqednewCorrect(st: BufState, item: TxItem)
    requires 16 <= st.qheader
    ensures var r := Addqednew(st, item);
      && (r.Step? <==> |item.data| == 0 || st.qheader <= |item.data|)
      && (r.Step? ==>
            && |r.value.data| == |item.data| && SameFlags(r.value, item)
            && (|item.data| == 0 ==> r == Step(st, item))
            && (|item.data| > 0 ==>
                  && r.value.data[..4] == Magic
                  && (Is32(st.esQseq) ==> DecodeBigEndian32(r.value.data[4..8]) == st.esQseq)
                  && (Is32(st.stageQseq) ==> DecodeBigEndian32(r.value.data[8..12]) == st.stageQseq)
                  && r.value.data[12] == AuxiliaryFlag(st.qheader)
                  && (forall i :: st.qheader <= i < |item.data| ==> r.value.data[i] == 50)
                  && r.st == st.(esQseq := U32.Add(st.esQseq, 1), stageQseq := U32.Add(st.stageQseq, 1))))
  {
    var n := |item.data|;
    if n >= st.qheader {
      var h := Header(st.esQseq, st.stageQseq, AuxiliaryFlag(st.qheader), st.qheader);
      HeaderLayout(st.esQseq, st.stageQseq, AuxiliaryFlag(st.qheader), st.qheader);
      var d := h + Regenerated(n - st.qheader);
      assert d[..4] == h[..4];
      assert d[4..8] == h[4..8];
      assert d[8..12] == h[8..12];
    }
  }
}
