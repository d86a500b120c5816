/**
 * The state of one `TcpTxBuffer` (tcp-tx-buffer.cc:122-125 and the class
 * fields), its accessors (tcp-tx-buffer.cc:162-241), and the counter
 * invariant the buffer asserts when it prints itself
 * (tcp-tx-buffer.cc:1663-1664).
 *
 * The buffer keeps two streams: the primary stream (`m_appList`, items with
 * `m_qided == false`) and the auxiliary, redundant stream (`m_qidList`,
 * `m_qided == true`). Both feed one sent list.
 */
module BufferState {
  import opened U32
  import opened TxItems
  import opened ItemLists
  import opened Status
  import opened Scoreboard

  /**
   * Every field of the buffer. The `uint32_t` counters are naturals reduced
   * modulo 2^32 on every update; the sequence numbers are naturals.
   *   - `size`, `appsentSize`: `m_size`, `m_appsentSize` (primary stream);
   *   - `stageSize`, `stagesentSize`: `m_stageSize`, `m_stagesentSize`
   *     (auxiliary stream);
   *   - `stage`: `m_stage`, 1 when the next new segment comes from the
   *     auxiliary stream;
   *   - `sendQseq`, `stageQseq`, `esQseq`: the numbers written into headers;
   *   - `qednum`: `m_qednum`, the credit that lets the primary stream send;
   *   - `appnum`: `m_appnum`;
   *   - `qheader`, `red`: the HEADERSIZE and REDSIZE attributes;
   *   - `first`: `m_firstByteSeq`;
   *   - `sent`, `app`, `qid`: `m_sentList`, `m_appList`, `m_qidList`;
   *   - `hs`: `m_highestSack`.
   */
  datatype BufState = BufState(
    maxBuffer: nat, size: nat, sentSize: nat, appsentSize: nat,
    stageSize: nat, stagesentSize: nat, stage: nat,
    sendQseq: nat, stageQseq: nat, esQseq: nat, qednum: nat, appnum: nat,
    qheader: nat, red: nat, first: nat,
    sent: seq<TxItem>, app: seq<TxItem>, qid: seq<TxItem>, hs: HighSack)

  /** The new state and the value of an operation, or the fatal outcome that ends the process. */
  datatype Step<T> = Step(st: BufState, value: T) | Stop(reason: Abort)

  /**
   * The constructor with its attributes applied: HEADERSIZE and REDSIZE are
   * `uint16_t`, a header needs its 16 bytes, and `m_maxBuffer` starts at 32768.
   */
  function Initial(n: nat, qheader: nat, red: nat): (st: BufState)
    requires 16 <= qheader < 0x1_0000 && red < 0x1_0000
    ensures Consistent(st) && Wf(st)
    ensures st.sent == [] && st.app == [] && st.qid == [] && st.first == n
    ensures Available(st) == 32768 && st.stage == 1 && st.qednum == 0
  {
    BufState(32768, 0, 0, 0, 0, 0, 1, 0, 0, 0, 0, 0, qheader, red, n, [], [], [], HighSack(0, 0))
  }

  /** Fields of the right width, a usable header size, and `m_highestSack` inside the list. */
  predicate Wf(st: BufState) {
    Is32(st.maxBuffer) && Is32(st.size) && Is32(st.sentSize) && Is32(st.appsentSize) &&
    Is32(st.stageSize) && Is32(st.stagesentSize) && Is32(st.stage) &&
    Is32(st.sendQseq) && Is32(st.stageQseq) && Is32(st.esQseq) &&
    Is32(st.qednum) && Is32(st.appnum) &&
    16 <= st.qheader < 0x1_0000 && st.red < 0x1_0000 && st.hs.pos <= |st.sent|
  }

  /**
   * The assertions of tcp-tx-buffer.cc:1663-1664, read modulo 2^32 as the
   * `uint32_t` arithmetic computes them: `m_sentSize` is the number of bytes
   * on the sent list, and `m_size + m_stageSize - m_sentSize` the number of
   * bytes on the two pending lists.
   */
  predicate Consistent(st: BufState) {
    Cong(st.sentSize, Total(st.sent)) &&
    Cong(st.size + st.stageSize - st.sentSize, Total(st.app) + Total(st.qid))
  }

  /** The invariant is exactly the two `uint32_t` assertions. */
  lemma ConsistentIsAsserted(st: BufState)
    requires Is32(st.sentSize)
    ensures Consistent(st) <==>
            (st.sentSize == Total(st.sent) % M &&
             Sub(Add(st.size, st.stageSize), st.sentSize) == (Total(st.app) + Total(st.qid)) % M)
  {
    AddCong(st.size, st.stageSize);
    assert Cong(st.sentSize, st.sentSize);
    CongSub(Add(st.size, st.stageSize), st.size + st.stageSize, st.sentSize, st.sentSize);
    SubCong(Add(st.size, st.stageSize), st.sentSize);
  }

  /** `HeadSequence ()`. */
  function HeadSequence(st: BufState): nat {
    st.first
  }

  /** `TailSequence ()`: one past the last byte of both streams. */
  function TailSequence(st: BufState): nat {
    st.first + st.size + st.stageSize
  }

  /** `Size ()`: bytes of both streams. */
  function Size(st: BufState): nat {
    Add(st.size, st.stageSize)
  }

  /** `Available ()`: `m_maxBuffer - m_size - m_stageSize` in `uint32_t`. */
  function Available(st: BufState): (r: nat)
    ensures Is32(r)
    ensures Is32(st.maxBuffer) && st.size + st.stageSize <= st.maxBuffer ==>
            r == st.maxBuffer - st.size - st.stageSize
  {
    Sub(Sub(st.maxBuffer, st.size), st.stageSize)
  }

  /** `SetMaxBufferSize (n)`. */
  function SetMaxBufferSize(st: BufState, n: nat): BufState {
    st.(maxBuffer := n)
  }

  /**
   * `SizeFromSequence (seq)`: bytes from `seq` to the tail, 0 beyond it.
   */
  function SizeFromSequence(st: BufState, sn: nat): (r: nat)
    ensures sn <= TailSequence(st) ==> sn + r == TailSequence(st)
    ensures sn >= TailSequence(st) ==> r == 0
  {
    var last := TailSequence(st);
    if last >= sn then last - sn else 0
  }

  /**
   * `SetHeadSequence (seq)`: moves the head and forgets the highest sack;
   * moving it with data on the sent list fails the assertion.
   */
  function SetHeadSequence(st: BufState, sn: nat): (r: Step<()>)
    ensures r.Step? <==> st.sent == []
    ensures r.Step? ==> r.st.first == sn && r.st.hs == NoSack(r.st.sent) &&
                        r.st.(first := st.first, hs := st.hs) == st
  {
    if st.sent != [] then Stop(HeadMoved) else Step(st.(first := sn, hs := NoSack(st.sent)), ())
  }

  // ---------------------------------------------------------------------
  // `m_highestSack` when the list under it changes. The iterator of the
  // source stays on its item; here it is an index, adjusted the same way.
  // ---------------------------------------------------------------------

  /** After `push_back` onto a list of `n` items: `end ()` stays `end ()`. */
  function AfterPush(hs: HighSack, n: nat): HighSack {
    if hs.pos == n then HighSack(n + 1, hs.sn) else hs
  }

  /** After erasing the front item. */
  function AfterPopFront(hs: HighSack): HighSack {
    HighSack(if hs.pos > 0 then hs.pos - 1 else 0, hs.sn)
  }

  /** After the list of `n` items became one of `m` items at its tail. */
  function AfterResize(hs: HighSack, n: nat, m: nat): HighSack {
    if hs.pos == n then HighSack(m, hs.sn) else HighSack(Min(hs.pos, m), hs.sn)
  }
}
