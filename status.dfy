/**
 * The fatal outcomes of the buffer: `NS_FATAL_ERROR`, `NS_ABORT_MSG_UNLESS`,
 * a failing `NS_ASSERT`, and the few places where the source would
 * dereference a null or end iterator or overrun an array. The process stops
 * at any of them; the model reports which one was reached.
 */
module Status {

  datatype Abort =
    | NotReachable          // tcp-tx-buffer.cc:915, the list walk ran off the list
    | DataBeforeList        // tcp-tx-buffer.cc:826, seq lies before the list
    | Hole                  // tcp-tx-buffer.cc:568-569, new data requested past the sent edge
    | NewDataRetransmitted  // tcp-tx-buffer.cc:575, a fresh segment already flagged retrans
    | NoItem                // tcp-tx-buffer.cc:598, outItem still null
    | SizeMismatch          // tcp-tx-buffer.cc:604, returned size differs from the request
    | BeyondSent            // tcp-tx-buffer.cc:690, numBytes > m_sentSize
    | HeaderOverrun         // tcp-tx-buffer.cc:441-476, item shorter than the header
    | RefillFailed          // tcp-tx-buffer.cc:973, sent list still empty after refill
    | OutOfFuel             // DiscardUpTo kept refilling without end
    | AckNotReached         // tcp-tx-buffer.cc:1072, m_firstByteSeq < seq after discard
    | EmptySentList         // tcp-tx-buffer.cc:1140 and 1522, front of an empty sent list
    | HeadSacked            // tcp-tx-buffer.cc:1140, the front of the sent list is sacked
    | BlockBeforeHead       // tcp-tx-buffer.cc:1607, a SACK block at or before the head
    | BeforeHead            // tcp-tx-buffer.cc:689, a retransmission before the head
    | HeadMoved             // tcp-tx-buffer.cc:239, the head moved with data already sent

  /** `Some (v)`, or a null `TcpTxItem *`. */
  datatype Option<T> = None | Some(value: T)

  /** A value, or the fatal outcome that stopped the process. */
  datatype Result<T> = Ok(value: T) | Fatal(reason: Abort)
}
