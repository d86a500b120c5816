# TcpTxBuffer of the QTCP transmission buffer, in Dafny

This project models `TcpTxBuffer` from `tcp-tx-buffer.cc`. It is the
transmission buffer of a TCP socket in a modified ns-3 that carries two
streams side by side:

- the **primary** stream (`m_appList`), holding the application's packets,
  each behind a 16-byte QTCP header and followed by `m_red` zero bytes;
- the **auxiliary** stream (`m_qidList`), holding one redundancy copy of
  each packet (every byte plus 49) behind a header of its own.

`m_qednum` is a credit counter (in the code, not an attribute). It decides
which list `CopyFromSequence` serves new data from. Data handed to the
network moves, item by item, to the sent list (`m_sentList`). There the
item is sacked, marked lost, retransmitted (an auxiliary item lost again is
regenerated by `Addqednew`) and finally acknowledged by `DiscardUpTo`.

The model has two layers.

- **A value layer**: a `BufState` datatype (module `BufferState`) holds
  every field of the class. Each operation is a function from one state to
  the next. Lemmas state what each operation promises.
  - Operations on the sent list that only read it (`IsLost`,
    `BytesInFlight`, `NextSeg`, `CraftSackOption`, …) are functions of the
    list, the head sequence number and the highest sack.
  - The buffer invariant `Consistent` is the pair of assertions at
    tcp-tx-buffer.cc:1663-1664, read in `uint32_t` arithmetic:
    - `m_sentSize` equals the bytes on the sent list;
    - `m_size + m_stageSize - m_sentSize` equals the bytes on the two
      pending lists.
    Every operation that changes the lists is proved to keep it, except
    `ResetSentList` as written (see "## Findings").
- **An imperative layer**: class `TxBuffer.TcpTxBuffer` has one field per
  member of the C++ class. Each of its methods runs the source's loops
  (the forward walks of `GetHighestSacked`, `IsLost`, `BytesInFlight`,
  `NextSeg`, `Update`, `CraftSackOption`, the loops of `ResetSentList` and
  `DiscardUpTo`). Each method is proved equal to the value-layer function:
  `ensures State() == F(old(State()), …)`.

Some parts of the source are modelled as follows rather than executed:

- **Fatal paths** (`NS_ASSERT`, `NS_ABORT_MSG_UNLESS`, `NS_FATAL_ERROR`,
  reads past an array or through `end ()`) are modelled as a `Fatal(reason)`
  result. No state is modelled after one.
- **The clock**: `Simulator::Now ()` is the parameter `now`.
- **Randomness**: the value `rand ()` returns on the first `Add` is the
  parameter `seed`.
- **Packets** are byte sequences (`seq<byte>`).
- **Counters**: every `uint32_t` counter is a `nat` updated through
  `U32.Add`, `U32.Sub` and `U32.Mul`, which reduce modulo 2^32.
- **Iterators into the sent list** are indices, and the index `|sent|`
  stands for `end ()`. The highest sack (`m_highestSack`) is an
  (index, sequence number) pair. It takes two forms, as in the source:
  - `GetHighestSacked` gives (index of the last sacked item, the sequence
    number of its first byte), or (`end ()`, 0) when nothing is sacked
    (tcp-tx-buffer.cc:709-730);
  - `Update` stores (index of the item after a newly sacked item, the
    sequence number just past that item's last byte)
    (tcp-tx-buffer.cc:1116-1119).

## Model

| member | source | states |
|---|---|---|
| BufferState.Initial | tcp-tx-buffer.cc:122-125 | the constructed buffer has empty lists, the head at `n`, `m_stage` 1, no credit and 32768 bytes available, and it satisfies the invariant |
| BufferState.ConsistentIsAsserted | tcp-tx-buffer.cc:1663-1664 | the invariant holds exactly when the two `uint32_t` assertions of the printer hold |
| BufferState.Available | tcp-tx-buffer.cc:228-231 | the free space is a 32-bit value, and it is exactly `m_maxBuffer - m_size - m_stageSize` when both sizes fit under the maximum |
| BufferState.SizeFromSequence | tcp-tx-buffer.cc:495-509 | the bytes from `seq` to the tail of both streams, 0 at or beyond the tail |
| BufferState.SetHeadSequence | tcp-tx-buffer.cc:234-242 | the head moves and the highest sack is forgotten; the call fails exactly when the sent list is not empty |
| TxItems.NewItem | tcp-tx-buffer.cc:34-52 | a new item carries the given bytes and stream tag, with the lost, retransmitted and sacked flags clear and no send time |
| TxItems.Split | tcp-tx-buffer.cc:734-745 | the first part holds the first `k` bytes and the second the rest, both with the original's flags; merging the two parts gives back the original item |
| TxItems.SplitMerged | tcp-tx-buffer.cc:919-946 | splitting a merged item where the two were joined gives back both payloads |
| QtcpHeader.BigEndian32 | tcp-tx-buffer.cc:327-336 | the four bytes `x>>24`, `x>>16`, `x>>8`, `x>>0` stored in `uint8_t`s are the base-256 digits of `x` |
| QtcpHeader.DecodeEncode | tcp-tx-buffer.cc:327-336 | reading the four bytes back big-endian recovers every 32-bit counter |
| QtcpHeader.Header | tcp-tx-buffer.cc:323-346 | a header is exactly `m_qheader` bytes long (its fields are stated by `HeaderLayout`) |
| QtcpHeader.HeaderLayout | tcp-tx-buffer.cc:323-346 | a receiver reads back the tag `QTCS`, both counters (big-endian, when they fit in 32 bits) and the flag byte, and the rest of the header is zeros |
| QtcpHeader.FlagsDiffer | tcp-tx-buffer.cc:338-405 | byte 12 differs between primary (`128+64+m_qheader/4`) and auxiliary (`128+m_qheader/4`) headers, so the streams are told apart |
| QtcpHeader.EncodeBytes | tcp-tx-buffer.cc:244-258 | the redundancy transform yields `n` bytes, each the source byte plus 49 modulo 256 |
| QtcpHeader.EncodeReversible | tcp-tx-buffer.cc:244-258 | subtracting 49 modulo 256 from each transformed byte recovers the source byte |
| QtcpHeader.Encode | tcp-tx-buffer.cc:244-258 | the method with the two array loops fills `q`'s size with as much of `p` as fits, zero beyond, and adds 49; the result equals `EncodeBytes` |
| QtcpHeader.Regenerated | tcp-tx-buffer.cc:477-484 | the regenerated body of `Addqednew` is `n` bytes, each 50 |
| Enqueue.PrimaryItem | tcp-tx-buffer.cc:316-353 | the primary unit is a non-auxiliary item of `m_qheader + |p| + m_red` bytes |
| Enqueue.AuxItem | tcp-tx-buffer.cc:380-416 | the auxiliary unit is an auxiliary item of `m_qheader + |q|` bytes |
| Enqueue.Seeded | tcp-tx-buffer.cc:276 | seeding changes only the auxiliary number, which is a 32-bit value afterwards when it was one before or was 0 |
| Enqueue.PrimaryLayout | tcp-tx-buffer.cc:316-353 | a primary unit carries a header with the stage and send numbers and the primary flag, then `p`, then `m_red` zeros |
| Enqueue.AuxLayout | tcp-tx-buffer.cc:274-291 | the auxiliary unit built by `Add` carries a header with the es and stage numbers and the auxiliary flag, then every byte of `p` plus 49, then `m_red` bytes of 49; subtracting 49 gives `p` back |
| Enqueue.AddappAppends | tcp-tx-buffer.cc:300-366 | a non-empty packet whose unit fits in the free space appends that unit to the primary list and counts it in `m_size`; nothing else changes |
| Enqueue.AddqedAppends | tcp-tx-buffer.cc:368-428 | a non-empty packet whose unit fits in the free space appends that unit to the auxiliary list and counts it in `m_stageSize`; nothing else changes |
| Enqueue.AddRefused | tcp-tx-buffer.cc:274-291 | `Add` answers true exactly when five times the unit fits in the free space; a refused packet changes nothing but the seed |
| Enqueue.AddAccepted | tcp-tx-buffer.cc:274-291 | when nothing wraps around, an accepted non-empty packet appends one auxiliary unit (the encoded packet) and one primary unit, grows both sizes by the unit size, and advances `m_appnum` and the three header numbers; nothing else changes (the empty packet is `AddAcceptedEmpty`) |
| Enqueue.AddAcceptedEmpty | tcp-tx-buffer.cc:274-291 | an accepted empty packet still advances `m_appnum` and the three header numbers; its encoded copy is `m_red` bytes of 49, so one auxiliary unit of `m_qheader + m_red` bytes is queued when `m_red > 0` and nothing otherwise; no primary unit is queued (the guard at tcp-tx-buffer.cc:313) |
| Enqueue.EmptyStages | tcp-tx-buffer.cc:283-286 | the list stages of an accepted empty packet: `Addqed` queues the `m_red` encoded bytes when there are any, and `Addapp` changes nothing |
| Enqueue.AddAcceptedStages | tcp-tx-buffer.cc:279-290 | the intermediate states of an accepted `Add`: after `Addqed`, after `Addapp`, after the numbers advance, each with its lists and counters |
| Enqueue.AddappConsistent | tcp-tx-buffer.cc:300-366 | `Addapp` keeps the counter invariant |
| Enqueue.AddqedConsistent | tcp-tx-buffer.cc:368-428 | `Addqed` keeps the counter invariant |
| Enqueue.AddConsistent | tcp-tx-buffer.cc:274-291 | `Add` keeps the counter invariant |
| Enqueue.QueuedConsistent | tcp-tx-buffer.cc:279-287 | counting the packet and queueing both of its units keeps the invariant |
| Enqueue.AddqednewCorrect | tcp-tx-buffer.cc:430-492 | `Addqednew` fails exactly on a non-empty item shorter than the header; otherwise the item keeps its length and flags, a non-empty one gets a fresh auxiliary header followed by regenerated bytes, and the es and stage numbers advance; nothing else changes |
| PacketLookup.FirstFrom | tcp-tx-buffer.cc:788-835 | the walk stops at the first item from `j` on whose end lies beyond `target`, or at the end of the list; no earlier item ends beyond it |
| PacketLookup.LocateCorrect | tcp-tx-buffer.cc:748-916 | the lookup succeeds exactly when `target` lies in the list; the list keeps its bytes, the item found starts at `target` and holds `numBytes` bytes (fewer if the list ends first), the items before it are untouched, and the edited flag is set whenever the list changed |
| PacketLookup.Scan | tcp-tx-buffer.cc:788-835 | the inner loop stops where the walk does and knows the sequence number of that item's first byte |
| PacketLookup.GetPacketFromList | tcp-tx-buffer.cc:748-916 | the loop (one turn per recursive call of the source) computes the recursive lookup |
| Scoreboard.LastSacked | tcp-tx-buffer.cc:709-730 | the index of the last sacked item: that item is sacked and none after it is, or -1 when none is sacked |
| Scoreboard.HighestSacked | tcp-tx-buffer.cc:709-730 | `GetHighestSacked` points at the last sacked item, no later item is sacked, and it gives the sequence number of that item's first byte; it gives the end of the list and 0 exactly when nothing is sacked |
| Scoreboard.Ahead | tcp-tx-buffer.cc:1181-1205 | the window from an item up to the highest sack holds no sacked bytes when it holds no sacked item, and at most the items that remain |
| Scoreboard.LostScanAhead | tcp-tx-buffer.cc:1181-1205 | the loss scan answers true exactly when some sacked item lies ahead and the totals up to the highest sack reach the threshold |
| Scoreboard.IsLostRule | tcp-tx-buffer.cc:1146-1208 | an item is lost exactly when it is flagged lost, or it is not sacked and at least `dupThresh` sacked items or more than `(dupThresh - 1) * segmentSize` sacked bytes lie between it and the highest sack |
| Scoreboard.NothingSackedNotLost | tcp-tx-buffer.cc:1146-1208 | with no sacked item ahead only the lost flag counts |
| Scoreboard.IsLostBySequence | tcp-tx-buffer.cc:1211-1239 | `IsLost (seq)` is false at or above the highest sack, otherwise the loss test of the first item that starts at or after `seq`, and false when there is none |
| Scoreboard.PipeBound | tcp-tx-buffer.cc:1348-1380 | the pipe never exceeds the bytes on the sent list |
| Scoreboard.BytesInFlightBound | tcp-tx-buffer.cc:1348-1380 | `BytesInFlight` never exceeds the bytes on the sent list while they fit in 32 bits |
| Scoreboard.PipeNothingSacked | tcp-tx-buffer.cc:1348-1380 | with nothing sacked the pipe is every byte not flagged lost |
| Scoreboard.BytesInFlightNothingSacked | tcp-tx-buffer.cc:1348-1380 | with nothing sacked `BytesInFlight` counts every byte not flagged lost |
| Scoreboard.PipeAllLost | tcp-tx-buffer.cc:1348-1380 | with every item flagged lost nothing is in flight |
| Scoreboard.RetransmitsCount | tcp-tx-buffer.cc:1330-1345 | `GetRetransmitsCount` is the number of retransmitted items, and zero exactly when no item is retransmitted |
| Scoreboard.RetransmitsSameFlags | tcp-tx-buffer.cc:1330-1345 | changing flags other than the retransmitted one leaves the count alone |
| Scoreboard.ClearSackedEffect | tcp-tx-buffer.cc:1383-1397 | after clearing every sacked flag the bytes are the same, the highest sack recomputed is the end of the list, the pipe is every byte not flagged lost, and the retransmission count is unchanged |
| Scoreboard.MarkAllLostEffect | tcp-tx-buffer.cc:1500-1510 | after flagging every item lost the bytes are the same, every item is lost by sequence number, nothing is in flight and the retransmission count is unchanged |
| Scoreboard.MarkBlockCorrect | tcp-tx-buffer.cc:1089-1136 | one block's walk, despite its early `break`, sacks exactly the items lying inside the block and no other, reports whether any did, and moves the highest sack only forward, past every newly sacked item; it is the old pair or (the index after, the end of) an item this block newly sacked |
| Scoreboard.UpdateFromCorrect | tcp-tx-buffer.cc:1076-1136 | processing the blocks from block `j` on, on a list that has the first `j` applied, sacks exactly the items inside some block, sets `modified` exactly when an item lies inside a remaining block (or it was set), and moves the highest sack only forward, past every newly sacked item; the highest sack is the old pair or (the index after, the end of) an item sacked by those blocks |
| Scoreboard.UpdateCorrect | tcp-tx-buffer.cc:1076-1143 | `Update` sacks exactly the items that lie wholly inside some block and reports `modified` exactly when some item lies inside some block. The highest sack is either the old pair, or (the index after a newly sacked item, that item's end), and it is at or past its old sequence number and the end of every newly sacked item, so it is the newly sacked item with the largest end |
| Scoreboard.NewHighSack | tcp-tx-buffer.cc:1116-1119 | across one more block, the highest sack stays the old pair or becomes (the index after, the end of) an item sacked since |
| Scoreboard.FillCorrect | tcp-tx-buffer.cc:1589-1610 | the backward fill yields the blocks of consecutive items walking back from the first, none of them the head, fitting the space available, and it stops only when one more block would not fit or the head is reached (as many blocks as fit) |
| Scoreboard.CraftSackOptionCorrect | tcp-tx-buffer.cc:1527-1617 | the option is null exactly when no item from the highest sack on (from the head when it is at the end) is a non-head, unsacked item starting at or after `seq`; otherwise it starts with the block of the first such item, each further block is the item just before the previous one, never the head, and an option of several blocks fits in `available` bytes; and it holds as many blocks as fit before the head |
| Recovery.NextScanFound | tcp-tx-buffer.cc:1267-1288 | the scan finds a segment exactly when some item from `i` on is lost, not sacked and not retransmitted, and it returns the first byte of the first such item |
| Recovery.NextScanKeeps | tcp-tx-buffer.cc:1267-1288 | once the rule (3) candidate is chosen the scan keeps it |
| Recovery.NextScanRule3 | tcp-tx-buffer.cc:1267-1288 | in recovery the scan remembers the first byte of the first unsacked, unretransmitted item, and has one exactly when such an item exists |
| Recovery.NextSegCorrect | tcp-tx-buffer.cc:1242-1327 | `NextSeg` applies the rules of section 4 of RFC 6675 in order: the first lost, unsacked, unretransmitted item; else the first unsent byte; else, in recovery, the first unsacked, unretransmitted item; else none |
| Recovery.IsHeadRetransmittedCorrect | tcp-tx-buffer.cc:1513-1524 | on a consistent buffer the assertion holds, the answer is whether bytes are outstanding and the head is flagged retransmitted, and a true answer implies a non-zero retransmission count |
| Recovery.ResetScoreboardCorrect | tcp-tx-buffer.cc:1383-1397 | afterwards no item is sacked, every other flag and byte stays, the stored highest sack is what `GetHighestSacked` computes, nothing else changes, and the invariant is kept |
| Recovery.SetSentListLostCorrect | tcp-tx-buffer.cc:1500-1510 | every sent item is flagged lost and found lost, the pipe is empty, nothing else changes, and the invariant is kept |
| Recovery.ResetLastSegmentSentCorrect | tcp-tx-buffer.cc:1475-1497 | the last sent item goes back, unchanged, to the front of its own stream's list; `m_sentSize` and that stream's sent counter lose its size; the other stream is untouched; and the invariant is kept |
| Recovery.Requeue | tcp-tx-buffer.cc:1407-1468 | one iteration of the loop removes exactly one item from the sent list (what it moves is stated by `RequeueSent` and `RequeuePending`) |
| Recovery.Pop | tcp-tx-buffer.cc:1407-1468 | one iteration with its counter update, as written or corrected, removes exactly one item from the sent list |
| Recovery.RequeueSent | tcp-tx-buffer.cc:1407-1468 | one iteration drops the tail: the remaining items carry the same bytes and streams, and the sent bytes lose the tail's size |
| Recovery.RequeuePending | tcp-tx-buffer.cc:1407-1468 | one iteration puts the handed-back item's bytes in front of its own stream's pending bytes and leaves the other stream's list alone |
| Recovery.ResetLoopSent | tcp-tx-buffer.cc:1407-1468 | the loop keeps the first `min (|sent|, keepItems)` items with their bytes and streams, and leaves the stream sizes and the head alone |
| Recovery.ResetLoopTotals | tcp-tx-buffer.cc:1407-1468 | the loop moves bytes between the sent and pending lists and loses none |
| Recovery.ResetLoopStream | tcp-tx-buffer.cc:1407-1468 | the items handed back reach the front of their own stream's list, in order |
| Recovery.ResetLoopConsistent | tcp-tx-buffer.cc:1407-1468 | with each iteration subtracting the size of the item it hands back, the loop keeps the invariant for every `keepItems` |
| Recovery.PopConsistent | tcp-tx-buffer.cc:1407-1468 | one corrected iteration keeps the invariant |
| Recovery.ResetSentListCorrect | tcp-tx-buffer.cc:1400-1472 | the corrected `ResetSentList` keeps the first `keepItems` items with their bytes and flags, the last of them marked lost, unsacked and not retransmitted when anything was handed back; gives the rest back to the front of their streams' lists in order, retransmitted and sacked cleared and, all but the old tail, marked lost; adds one to `m_qednum` and `m_appnum` for every primary item handed back; resets the highest sack and keeps the invariant |
| Recovery.ResetLoopKept | tcp-tx-buffer.cc:1407-1468 | the loop leaves the first `min (size, keepItems)` items unchanged but for the last kept one, which becomes lost, unsacked and not retransmitted once an item was handed back |
| Recovery.ResetLoopReturned | tcp-tx-buffer.cc:1407-1468 | each pending list gains, at its front and in order, exactly the handed-back items of its stream, with their flags as the loop leaves them |
| Recovery.ResetLoopCredit | tcp-tx-buffer.cc:1442-1443 | `m_qednum` and `m_appnum` grow, modulo 2^32, by the number of primary items handed back |
| Recovery.RequeueItems | tcp-tx-buffer.cc:1407-1468 | one iteration marks the new tail and pushes the cleared old tail in front of its own stream's list |
| Recovery.RequeueCredit | tcp-tx-buffer.cc:1440-1443 | one iteration returns a unit of credit exactly when it hands back a primary item |
| Recovery.SackResetConsistent | tcp-tx-buffer.cc:1471 | a frame fact: the invariant does not read the highest sack, so resetting it keeps the invariant |
| Recovery.ResetSentListAsWrittenAll | tcp-tx-buffer.cc:1400-1472 | as written, handing back every item still keeps the invariant, because the last iteration zeroes the sent counters |
| Recovery.ResetSentListAsWrittenBreaks | tcp-tx-buffer.cc:1416-1456 | as written, keeping one of two sent items of different sizes breaks the invariant |
| Transmit.TakeFrontCorrect | tcp-tx-buffer.cc:620-679 | taking from the front of a list succeeds exactly when it holds a byte; the item taken holds its first `min (n, total)` bytes and the list keeps the rest, in order |
| Transmit.GetNewSegment | tcp-tx-buffer.cc:610-681 | with `m_stage == 1` the auxiliary head is tagged auxiliary, appended to the sent list and counted in `m_sentSize` and `m_stagesentSize`, and the stage becomes 0; otherwise the primary head is tagged primary and counted, and one unit of credit and of `m_appnum` is spent |
| Transmit.GetNewSegmentCorrect | tcp-tx-buffer.cc:610-681 | it fails exactly when the list it draws from holds no byte; otherwise the sent item holds the first `min (numBytes, pending)` bytes of that list, which keeps the rest, and the other list is untouched |
| Transmit.GetNewSegmentCounts | tcp-tx-buffer.cc:610-681 | the item's bytes leave the pending side and join the sent side of both counters; the stream sizes stay; a non-empty request moves at least one byte |
| Transmit.GetNewSegmentConsistent | tcp-tx-buffer.cc:610-681 | `GetNewSegment` keeps the invariant |
| Transmit.GetTransmittedSegment | tcp-tx-buffer.cc:686-706 | the sent item covering `[seq, seq + numBytes)`; the highest sack is recomputed when the list was edited and the sack is not behind the head |
| Transmit.Regenerate | tcp-tx-buffer.cc:704 | only a lost, retransmitted auxiliary item is regenerated by `Addqednew` |
| Transmit.RegenerateCorrect | tcp-tx-buffer.cc:704 | a regenerated item keeps its length and flags; the other items and the byte counters stay, and only the header numbers move |
| Transmit.GetTransmittedSegmentCorrect | tcp-tx-buffer.cc:686-706 | it fails when `seq` is behind the head or beyond the sent list, or the request is longer than `m_sentSize`; the item found starts at `seq` and holds `numBytes` bytes (or those to the end of the list); the list keeps its length in bytes; only the sent list, the highest sack and the header numbers change |
| Transmit.GetTransmittedSegmentConsistent | tcp-tx-buffer.cc:686-706 | `GetTransmittedSegment` keeps the invariant |
| Transmit.Sent | tcp-tx-buffer.cc:598-606 | the item is marked not lost and sent at `now`; its bytes are returned, and a payload of the wrong size fails the final assertion |
| Transmit.CopyFromSequenceEmpty | tcp-tx-buffer.cc:516-536 | a sequence number behind the head and an empty request give no bytes and change nothing |
| Transmit.RetransmitCorrect | tcp-tx-buffer.cc:540-551 | the retransmission branch returns the bytes of the item found and marks it retransmitted, not lost and sent at `now` |
| Transmit.SendNewCorrect | tcp-tx-buffer.cc:566-579 | the new-data branch returns the bytes of the item appended, fails if that item was already retransmitted, and marks it not lost and sent at `now` |
| Transmit.CopyFromSequenceRetransmits | tcp-tx-buffer.cc:512-551 | a request whose range was sent completely returns `min (numBytes, SizeFromSequence (seq))` bytes starting at `seq`, marks the item holding them retransmitted, and leaves the pending lists and counters alone |
| Transmit.CopyFromSequenceCredit | tcp-tx-buffer.cc:553-579 | new data at the end of the sent list comes from the primary list exactly when `m_qednum > 0`, which then loses a unit of credit and of `m_appnum`; the bytes returned are the first ones of that list; `m_sentSize` and the serving stream's sent counter grow by their number, and `m_size`, `m_stageSize`, the other stream's counter and the other pending list stay |
| Transmit.CopyFromSequenceHole | tcp-tx-buffer.cc:566-569 | a non-empty request for new data beyond the end of the sent list aborts |
| Transmit.RetransmitConsistent | tcp-tx-buffer.cc:540-551 | the retransmission branch keeps the invariant |
| Transmit.SendNewConsistent | tcp-tx-buffer.cc:566-579 | the new-data branch keeps the invariant |
| Transmit.CopyFromSequenceConsistent | tcp-tx-buffer.cc:512-607 | `CopyFromSequence` keeps the invariant, through the partial case's recursion |
| Transmit.CopyFromSequenceKeeps | tcp-tx-buffer.cc:512-607 | `CopyFromSequence` moves neither the head nor the attributes |
| Discard.DropHead | tcp-tx-buffer.cc:980-1009 | dropping a head item of `k` bytes moves the head by `k` and lowers `m_sentSize` and its stream's size and sent counters by `k`; an auxiliary item gives back one unit of credit |
| Discard.TrimHead | tcp-tx-buffer.cc:1010-1038 | trimming `offset` bytes moves the counters as a drop of `offset` bytes would, and an auxiliary item gives back a unit of credit |
| Discard.Refill | tcp-tx-buffer.cc:968-974 | an empty sent list is refilled by `CopyFromSequence (offset, m_firstByteSeq)` and must hold an item afterwards |
| Discard.DiscardUpToNoop | tcp-tx-buffer.cc:949-963 | a sequence number the head has already passed changes nothing |
| Discard.FinishCorrect | tcp-tx-buffer.cc:1040-1072 | after the last step the head is at or past `seq`, the head item is not sacked, and the highest sack lies beyond the head unless it was reset; the lists keep their bytes and no counter moves |
| Discard.DiscardUpToCorrect | tcp-tx-buffer.cc:949-1073 | `DiscardUpTo` ends with the head at or past `seq`, an unsacked head item and a highest sack beyond the head or reset |
| Discard.DropHeadCorrect | tcp-tx-buffer.cc:980-1009 | dropping the head removes exactly its bytes from the front of the sent list; only its stream's counters shrink |
| Discard.TrimHeadCorrect | tcp-tx-buffer.cc:1010-1038 | trimming removes exactly `offset` bytes from the front of the sent list, and the item keeps its flags |
| Discard.DiscardLoopCovered | tcp-tx-buffer.cc:964-1039 | when the sent list already holds the bytes to acknowledge, the loop never refills and cannot fail; the head moves over a prefix of those bytes and the sent list keeps the rest |
| Discard.DiscardOnce | tcp-tx-buffer.cc:976-1038 | one iteration over a non-empty list drops or trims the head without a refill |
| Discard.DiscardStep | tcp-tx-buffer.cc:966-1038 | one iteration in any state: the refill, then a drop or a trim of the head |
| Discard.ShrinkConsistent | tcp-tx-buffer.cc:980-1038 | dropping or trimming the head keeps the invariant |
| Discard.RefillConsistent | tcp-tx-buffer.cc:968-974 | a refill keeps the invariant |
| Discard.DiscardLoopConsistent | tcp-tx-buffer.cc:964-1039 | the loop keeps the invariant, refills included |
| Discard.FinishConsistent | tcp-tx-buffer.cc:1040-1072 | the last step keeps the invariant |
| Discard.DiscardUpToConsistent | tcp-tx-buffer.cc:949-1073 | `DiscardUpTo` keeps the invariant |
| TxBuffer.Outcome | tcp-tx-buffer.cc:544 | what a caller sees of a step: its value, or the fatal outcome with its reason |
| TxBuffer.TcpTxBuffer.constructor | tcp-tx-buffer.cc:122-125 | the new object's state is the initial state |
| TxBuffer.TcpTxBuffer.SetMaxBufferSize | tcp-tx-buffer.cc:221-224 | only the maximum changes |
| TxBuffer.TcpTxBuffer.SetHeadSequence | tcp-tx-buffer.cc:234-242 | the head moves, then the assertion; the new state is the value layer's |
| TxBuffer.TcpTxBuffer.Addapp | tcp-tx-buffer.cc:300-366 | the new state and the answer are those of `Enqueue.Addapp` |
| TxBuffer.TcpTxBuffer.Addqed | tcp-tx-buffer.cc:368-428 | the new state and the answer are those of `Enqueue.Addqed` |
| TxBuffer.TcpTxBuffer.Add | tcp-tx-buffer.cc:274-291 | the new state and the answer are those of `Enqueue.Add` |
| TxBuffer.TcpTxBuffer.Addqednew | tcp-tx-buffer.cc:430-492 | the new item, fatal outcome and state are those of `Enqueue.Addqednew` |
| TxBuffer.TcpTxBuffer.GetHighestSacked | tcp-tx-buffer.cc:709-730 | the forward walk returns `HighestSacked` |
| TxBuffer.TcpTxBuffer.IsLostAt | tcp-tx-buffer.cc:1146-1208 | the scan answers the loss test of the item at `i` |
| TxBuffer.TcpTxBuffer.IsLost | tcp-tx-buffer.cc:1211-1239 | the search and test answer `IsLost` by sequence number |
| TxBuffer.TcpTxBuffer.BytesInFlight | tcp-tx-buffer.cc:1348-1380 | the loop computes the pipe |
| TxBuffer.TcpTxBuffer.GetRetransmitsCount | tcp-tx-buffer.cc:1330-1345 | the loop counts the retransmitted items |
| TxBuffer.TcpTxBuffer.NextSeg | tcp-tx-buffer.cc:1242-1327 | the answer and the stored sequence number are those of `Recovery.NextSeg` |
| TxBuffer.TcpTxBuffer.IsHeadRetransmitted | tcp-tx-buffer.cc:1513-1524 | the answer or the failed assertion of `Recovery.IsHeadRetransmitted` |
| TxBuffer.TcpTxBuffer.CraftSackOption | tcp-tx-buffer.cc:1527-1617 | the forward walk and the backward fill compute `Scoreboard.CraftSackOption` |
| TxBuffer.TcpTxBuffer.ResetScoreboard | tcp-tx-buffer.cc:1383-1397 | the new state is `Recovery.ResetScoreboard` of the old |
| TxBuffer.TcpTxBuffer.SetSentListLost | tcp-tx-buffer.cc:1500-1510 | the new state is `Recovery.SetSentListLost` of the old |
| TxBuffer.TcpTxBuffer.Update | tcp-tx-buffer.cc:1076-1143 | the block loop computes `Scoreboard.Update`: the new sent list, the highest sack and `modified`, and the closing assertion |
| TxBuffer.TcpTxBuffer.ResetLastSegmentSent | tcp-tx-buffer.cc:1475-1497 | the new state is `Recovery.ResetLastSegmentSent` of the old |
| TxBuffer.TcpTxBuffer.ResetSentList | tcp-tx-buffer.cc:1400-1472 | the loop computes the corrected `Recovery.ResetSentList` |
| TxBuffer.TcpTxBuffer.PopTail | tcp-tx-buffer.cc:1409-1467 | one corrected iteration of the loop |
| TxBuffer.TcpTxBuffer.GetNewSegment | tcp-tx-buffer.cc:610-681 | the position, fatal outcome and state are those of `Transmit.GetNewSegment` |
| TxBuffer.TcpTxBuffer.GetTransmittedSegment | tcp-tx-buffer.cc:686-706 | the position, fatal outcome and state are those of `Transmit.GetTransmittedSegment` |
| TxBuffer.TcpTxBuffer.Regenerate | tcp-tx-buffer.cc:704 | the regeneration step of `Transmit.Regenerate` |
| TxBuffer.TcpTxBuffer.MarkSent | tcp-tx-buffer.cc:598-606 | the marking and final assertion of `Transmit.Sent` |
| TxBuffer.TcpTxBuffer.Retransmit | tcp-tx-buffer.cc:540-551 | the retransmission branch of `Transmit.Retransmit` |
| TxBuffer.TcpTxBuffer.SendNew | tcp-tx-buffer.cc:566-579 | the new-data branch of `Transmit.SendNew` |
| TxBuffer.TcpTxBuffer.CopyFromSequence | tcp-tx-buffer.cc:512-607 | the bytes, fatal outcome and state are those of `Transmit.CopyFromSequence` |
| TxBuffer.TcpTxBuffer.DiscardUpTo | tcp-tx-buffer.cc:949-1073 | the outcome and state are those of `Discard.DiscardUpTo` |
| TxBuffer.TcpTxBuffer.DiscardLoop | tcp-tx-buffer.cc:964-1039 | the loop computes `Discard.DiscardLoop` |
| TxBuffer.TcpTxBuffer.Refill | tcp-tx-buffer.cc:968-974 | the refill of `Discard.Refill` |
| TxBuffer.TcpTxBuffer.DropHead | tcp-tx-buffer.cc:980-1009 | the new state is `Discard.DropHead` of the old |
| TxBuffer.TcpTxBuffer.TrimHead | tcp-tx-buffer.cc:1010-1038 | the new state is `Discard.TrimHead` of the old |
| TxBuffer.TcpTxBuffer.Finish | tcp-tx-buffer.cc:1040-1072 | the last step of `Discard.Finish` |

## Left out

- Logging, `GetTypeId` and the attribute system: the constructor takes the
  HEADERSIZE and REDSIZE attribute values as parameters and requires a
  header of at least 16 bytes, which the header writes need.
- The destructor: memory management is not modelled.
- `Decode` is commented out in the source, so there is nothing to model.
- `operator<<`: printing is left out. The two assertions it makes are the
  invariant `Consistent`.
- dumbbell.cc and p2p.cc, the simulation scripts: they are not part of this
  model.
- The trivial getters (tcp-tx-buffer.cc:180-218), such as `HeadSequence`,
  `TailSequence`, `Size`, `MaxBufferSize` and `GetSentList`, read a field.
  They are the fields of `State()`.
- `Packet` internals (tags, fragments, `Copy`): a packet is its byte
  sequence.
- SequenceNumber32 wrap-around: sequence numbers are unbounded `nat`s.
- `TcpOptionSack::GetSerializedSize` is not part of this model. It is taken
  as `2 + 8 * blocks`, the layout of RFC 2018.
- Discard.DiscardUpTo: its loop is bounded by a `fuel` parameter. An empty
  sent list that refills with nothing could loop forever in the source. The
  model fails with `OutOfFuel` when the bound is reached.
- Recovery.NextSegCorrect: rule (3) is stated only when the head's sequence
  number is not 0. The source uses 0 to mean "no candidate yet", so its
  answer differs for a candidate at sequence number 0.
- Per-stream counters (`m_stagesentSize`, `m_appsentSize`) are not part of
  the invariant. `MergeItems` keeps the first item's stream tag, so after a
  merge of a primary and an auxiliary item the counters of a stream no
  longer match the tagged items.
- ResetSentList does not regenerate the auxiliary items it hands back:
  tcp-tx-buffer.cc:1400-1472 never calls `Addqednew`, and the model follows
  the code.
- TxBuffer.TcpTxBuffer.ResetSentList: the class runs the corrected loop
  (`Recovery.ResetSentList`), not the code as written
  (`Recovery.ResetSentListAsWritten`). See "## Findings".
- TxBuffer.TcpTxBuffer.PopTail: this is one iteration of that corrected
  loop (`Recovery.Pop` with the corrected counter update), not the
  iteration as written.
- TxBuffer.TcpTxBuffer.Update, `ResetScoreboard` and `SetSentListLost`
  copy the sent list into a local sequence, edit it, and store it back.
  In-place updates through iterators and aliasing are not modelled.
- TxBuffer.TcpTxBuffer.Addqednew applies `QtcpHeader.EncodeBytes` as a
  function. `QtcpHeader.Encode`, the array method, is proved equal to it.
- Recovery.IsHeadRetransmittedCorrect: this lemma requires a consistent
  buffer. On an inconsistent one the function still models the failed
  assertion.
- The `GetPacketFromList` branch at tcp-tx-buffer.cc:854-869 merges with
  the previous item. It can never be taken, because `outItem` is always the
  current item there, so it is not modelled.

## Findings

| source | as written | input that shows it | evidently intended | confidence | as-written member | corrected member |
|---|---|---|---|---|---|---|
| tcp-tx-buffer.cc:1429-1455 | each iteration of `ResetSentList` subtracts from `m_sentSize` and the stream's sent counter the size of `item` after `item = m_sentList.back ()` has made it the new tail, not the size of the item handed back | `keepItems = 1` with two sent items of different sizes: `m_sentSize` ends as the size of the second item, while the sent list holds only the first | subtract the size of the item moved back to the pending list, so that `m_sentSize` still equals the bytes on the sent list | not executed | Recovery.ResetSentListAsWrittenBreaks | Recovery.ResetSentListCorrect |
