/**
 * `TcpTxItem` (tcp-tx-buffer.cc:34-52): one piece of the byte stream with
 * its scoreboard flags, and the segment editor (`SplitItems`, `MergeItems`)
 * that every list operation of the buffer uses.
 */
module TxItems {
  import opened U32

  /** `Time::Min ()`, the `m_lastSent` of an item never transmitted. */
  const NeverSent: int := -0x8000_0000_0000_0000

  /**
   * The payload (the `Ptr<Packet>` contents), `m_lost`, `m_retrans`,
   * `m_sacked`, `m_qided` (true for the auxiliary stream) and `m_lastSent`.
   */
  datatype TxItem = TxItem(data: seq<byte>, lost: bool, retrans: bool, sacked: bool,
                           qided: bool, lastSent: int)
  {
    function Size(): nat { |data| }
  }

  /** A freshly created item (the default constructor plus the stream tag). */
  function NewItem(data: seq<byte>, qided: bool): (t: TxItem)
    ensures t.data == data && t.qided == qided
    ensures !t.lost && !t.retrans && !t.sacked && t.lastSent == NeverSent
  {
    TxItem(data, false, false, false, qided, NeverSent)
  }

  /** Everything but the payload agrees. */
  predicate SameFlags(a: TxItem, b: TxItem) {
    a.lost == b.lost && a.retrans == b.retrans && a.sacked == b.sacked &&
    a.qided == b.qided && a.lastSent == b.lastSent
  }

  /**
   * `MergeItems (t1, t2)`: `t1` absorbs `t2`. The payloads are concatenated,
   * `sacked` survives only if both were sacked, `retrans` and `lost` if either
   * was, the later `lastSent` is kept and `t1`'s stream tag is kept.
   */
  function Merge(t1: TxItem, t2: TxItem): TxItem {
    TxItem(t1.data + t2.data,
           t1.lost || t2.lost,
           t1.retrans || t2.retrans,
           t1.sacked && t2.sacked,
           t1.qided,
           if t1.lastSent < t2.lastSent then t2.lastSent else t1.lastSent)
  }

  /**
   * `SplitItems (t1, t2, size)`: the first `k` bytes become a new item and the
   * original keeps the rest; both carry every flag of the original. Merging
   * the two parts gives the original item back.
   */
  function Split(t: TxItem, k: nat): (r: (TxItem, TxItem))
    requires k <= |t.data|
    ensures |r.0.data| == k && r.0.data + r.1.data == t.data
    ensures SameFlags(r.0, t) && SameFlags(r.1, t)
    ensures Merge(r.0, r.1) == t
  {
    (t.(data := t.data[..k]), t.(data := t.data[k..]))
  }

  /**
   * Splitting a merged item where the two were joined gives back their
   * payloads, each with the merged flags.
   */
  lemma SplitMerged(a: TxItem, b: TxItem)
    ensures |a.data| <= |Merge(a, b).data|
    ensures Split(Merge(a, b), |a.data|).0.data == a.data
    ensures Split(Merge(a, b), |a.data|).1.data == b.data
  {
    var m := Merge(a, b);
    assert m.data[..|a.data|] == a.data;
    assert m.data[|a.data|..] == b.data;
  }
}

/**
 * The three `std::list<TcpTxItem*>` queues as sequences of items, and the
 * sequence-number arithmetic the buffer does while walking them.
 */
module ItemLists {
  import opened U32
  import opened TxItems

  /** Bytes held by a list (the sum of `m_packet->GetSize ()`). */
  function Total(l: seq<TxItem>): nat {
    if l == [] then 0 else |l[0].data| + Total(l[1..])
  }

  /** The byte stream a list carries: its payloads, concatenated. */
  function Flatten(l: seq<TxItem>): (r: seq<byte>)
    ensures |r| == Total(l)
  {
    if l == [] then [] else l[0].data + Flatten(l[1..])
  }

  lemma {:induction false} TotalConcat(a: seq<TxItem>, b: seq<TxItem>)
    ensures Total(a + b) == Total(a) + Total(b)
  {
    if a != [] {
      assert (a + b)[1..] == a[1..] + b;
      TotalConcat(a[1..], b);
    } else {
      assert a + b == b;
    }
  }

  lemma {:induction false} FlattenConcat(a: seq<TxItem>, b: seq<TxItem>)
    ensures Flatten(a + b) == Flatten(a) + Flatten(b)
  {
    if a != [] {
      assert (a + b)[1..] == a[1..] + b;
      FlattenConcat(a[1..], b);
    } else {
      assert a + b == b;
    }
  }

  /** Pushing an item at the back (`push_back`) adds its bytes. */
  lemma PushTotal(l: seq<TxItem>, item: TxItem)
    ensures Total(l + [item]) == Total(l) + |item.data|
  {
    TotalConcat(l, [item]);
    assert Total([item]) == |item.data| + Total([]);
  }

  /** Sequence number of the first byte of item `i` when the list starts at `base`. */
  function StartOf(l: seq<TxItem>, base: nat, i: nat): nat
    requires i <= |l|
  {
    base + Total(l[..i])
  }

  lemma StartOfNext(l: seq<TxItem>, base: nat, i: nat)
    requires i < |l|
    ensures StartOf(l, base, i + 1) == StartOf(l, base, i) + |l[i].data|
  {
    assert l[..i + 1] == l[..i] + [l[i]];
    TotalConcat(l[..i], [l[i]]);
    assert Total([l[i]]) == |l[i].data| + Total([]);
  }

  lemma StartOfEnd(l: seq<TxItem>, base: nat)
    ensures StartOf(l, base, |l|) == base + Total(l)
  {
    assert l[..|l|] == l;
  }

  /** Later items never start earlier. */
  lemma {:induction false} StartOfMono(l: seq<TxItem>, base: nat, i: nat, j: nat)
    requires i <= j <= |l|
    ensures StartOf(l, base, i) <= StartOf(l, base, j)
    decreases j - i
  {
    if i < j {
      StartOfNext(l, base, j - 1);
      StartOfMono(l, base, i, j - 1);
    }
  }

  /** The list with item `i` replaced by `x` (`l[i := x]` in Dafny). */
  lemma TotalUpdate(l: seq<TxItem>, i: nat, x: TxItem)
    requires i < |l|
    ensures Total(l[i := x]) == Total(l) - |l[i].data| + |x.data|
  {
    assert l == l[..i] + [l[i]] + l[i + 1..];
    assert l[i := x] == l[..i] + [x] + l[i + 1..];
    TotalConcat(l[..i] + [l[i]], l[i + 1..]);
    TotalConcat(l[..i], [l[i]]);
    TotalConcat(l[..i] + [x], l[i + 1..]);
    TotalConcat(l[..i], [x]);
    assert Total([l[i]]) == |l[i].data| + Total([]);
    assert Total([x]) == |x.data| + Total([]);
  }

  lemma FlattenUpdate(l: seq<TxItem>, i: nat, x: TxItem)
    requires i < |l| && x.data == l[i].data
    ensures Flatten(l[i := x]) == Flatten(l)
  {
    assert l == l[..i] + [l[i]] + l[i + 1..];
    assert l[i := x] == l[..i] + [x] + l[i + 1..];
    FlattenConcat(l[..i] + [l[i]], l[i + 1..]);
    FlattenConcat(l[..i], [l[i]]);
    FlattenConcat(l[..i] + [x], l[i + 1..]);
    FlattenConcat(l[..i], [x]);
  }

  /** Removing item `i` (`std::list::erase`). */
  function Remove(l: seq<TxItem>, i: nat): (r: seq<TxItem>)
    requires i < |l|
    ensures |r| == |l| - 1
    ensures Total(r) == Total(l) - |l[i].data|
  {
    TotalConcat(l[..i], [l[i]] + l[i + 1..]);
    TotalConcat([l[i]], l[i + 1..]);
    TotalConcat(l[..i], l[i + 1..]);
    assert l == l[..i] + ([l[i]] + l[i + 1..]);
    assert Total([l[i]]) == |l[i].data| + Total([]);
    l[..i] + l[i + 1..]
  }

  /** The bytes of a list around its item `i`, with and without that item. */
  lemma Around(l: seq<TxItem>, i: nat)
    requires i < |l|
    ensures Flatten(l) == Flatten(l[..i]) + l[i].data + Flatten(l[i + 1..])
    ensures Flatten(Remove(l, i)) == Flatten(l[..i]) + Flatten(l[i + 1..])
  {
    FlattenAt(l, i);
    FlattenFrom(l, i);
    ConcatAssoc(Flatten(l[..i]), l[i].data, Flatten(l[i + 1..]));
    FlattenConcat(l[..i], l[i + 1..]);
  }

  /** Items carrying no bytes before item `i`: taking item `i` out takes the first bytes. */
  lemma AroundFront(l: seq<TxItem>, i: nat)
    requires i < |l| && Total(l[..i]) == 0
    ensures Flatten(l) == l[i].data + Flatten(Remove(l, i))
  {
    Around(l, i);
    var e := Flatten(l[..i]);
    EmptyConcat(e, l[i].data + Flatten(l[i + 1..]));
    EmptyConcat(e, Flatten(l[i + 1..]));
    ConcatAssoc(e, l[i].data, Flatten(l[i + 1..]));
  }

  lemma EmptyConcat(e: seq<byte>, x: seq<byte>)
    requires |e| == 0
    ensures e + x == x
  {
  }

  lemma FlattenAt(l: seq<TxItem>, i: nat)
    requires i <= |l|
    ensures Flatten(l) == Flatten(l[..i]) + Flatten(l[i..])
  {
    var a, b := l[..i], l[i..];
    assert l == a + b;
    FlattenConcat(a, b);
  }

  lemma FlattenFrom(l: seq<TxItem>, i: nat)
    requires i < |l|
    ensures Flatten(l[i..]) == l[i].data + Flatten(l[i + 1..])
  {
  }

  lemma ConcatAssoc(x: seq<byte>, y: seq<byte>, z: seq<byte>)
    ensures x + (y + z) == x + y + z
  {
  }

  /** Two lists whose items have the same payloads carry the same bytes. */
  predicate SameShape(a: seq<TxItem>, b: seq<TxItem>) {
    |a| == |b| && forall k :: 0 <= k < |a| ==> a[k].data == b[k].data
  }

  lemma {:induction false} SameShapeTotal(a: seq<TxItem>, b: seq<TxItem>)
    requires SameShape(a, b)
    ensures Total(a) == Total(b) && Flatten(a) == Flatten(b)
  {
    if a != [] {
      SameShapeTotal(a[1..], b[1..]);
    }
  }

  lemma SameShapeStart(a: seq<TxItem>, b: seq<TxItem>, base: nat, i: nat)
    requires SameShape(a, b) && i <= |a|
    ensures StartOf(a, base, i) == StartOf(b, base, i)
  {
    SameShapeTotal(a[..i], b[..i]);
  }
}
