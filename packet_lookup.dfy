/**
 * `TcpTxBuffer::GetPacketFromList` (tcp-tx-buffer.cc:747-916): find, or make
 * by splitting and merging items, the item that covers exactly
 * `[target, target + numBytes)` of a list whose first byte has sequence number
 * `listStart`.
 */
module PacketLookup {
  import opened U32
  import opened TxItems
  import opened ItemLists
  import opened Status

  /** The list after the walk, the index of the item found, and `*listEdited`. */
  datatype Lookup = Located(items: seq<TxItem>, index: nat, edited: bool) | Failed(reason: Abort)

  /**
   * The walk of tcp-tx-buffer.cc:788-835: starting at item `j`, the first
   * item whose end lies beyond `target`, or `|l|` when there is none.
   */
  function FirstFrom(l: seq<TxItem>, base: nat, target: nat, j: nat): (i: nat)
    requires j <= |l|
    ensures j <= i <= |l|
    ensures forall k :: j <= k < i ==> StartOf(l, base, k) + |l[k].data| <= target
    ensures i < |l| ==> target < StartOf(l, base, i) + |l[i].data|
    decreases |l| - j
  {
    if j == |l| then j
    else if target < StartOf(l, base, j) + |l[j].data| then j
    else FirstFrom(l, base, target, j + 1)
  }

  /** Some item of `l` starts exactly at `target` (or `target` is the end of `l`). */
  predicate Aligned(l: seq<TxItem>, base: nat, target: nat) {
    exists j :: 0 <= j <= |l| && StartOf(l, base, j) == target
  }

  /** The list with items `i` and `i + 1` merged (tcp-tx-buffer.cc:901-905). */
  function MergeAt(l: seq<TxItem>, i: nat): seq<TxItem>
    requires i + 1 < |l|
  {
    l[..i] + [Merge(l[i], l[i + 1])] + l[i + 2..]
  }

  /** The list with item `i` split after `k` bytes (tcp-tx-buffer.cc:815-819, 875-879). */
  function SplitAt(l: seq<TxItem>, i: nat, k: nat): seq<TxItem>
    requires i < |l| && k <= |l[i].data|
  {
    var p := Split(l[i], k);
    l[..i] + [p.0, p.1] + l[i + 1..]
  }

  lemma SpliceFlatten(l: seq<TxItem>, i: nat, j: nat, mid: seq<TxItem>)
    requires i <= j <= |l| && Flatten(mid) == Flatten(l[i..j])
    ensures Flatten(l[..i] + mid + l[j..]) == Flatten(l)
    ensures Total(l[..i] + mid + l[j..]) == Total(l)
  {
    assert l == l[..i] + l[i..j] + l[j..];
    FlattenConcat(l[..i] + l[i..j], l[j..]);
    FlattenConcat(l[..i], l[i..j]);
    FlattenConcat(l[..i] + mid, l[j..]);
    FlattenConcat(l[..i], mid);
  }

  lemma MergeAtFacts(l: seq<TxItem>, i: nat, base: nat)
    requires i + 1 < |l|
    ensures |MergeAt(l, i)| == |l| - 1
    ensures Flatten(MergeAt(l, i)) == Flatten(l) && Total(MergeAt(l, i)) == Total(l)
    ensures MergeAt(l, i)[..i] == l[..i]
    ensures StartOf(MergeAt(l, i), base, i) == StartOf(l, base, i)
    ensures MergeAt(l, i)[i].data == l[i].data + l[i + 1].data
  {
    var m := Merge(l[i], l[i + 1]);
    assert l[i..i + 2] == [l[i], l[i + 1]];
    assert Flatten([m]) == m.data + Flatten([]);
    assert Flatten([l[i], l[i + 1]]) == l[i].data + Flatten([l[i + 1]]);
    assert Flatten([l[i + 1]]) == l[i + 1].data + Flatten([]);
    SpliceFlatten(l, i, i + 2, [m]);
    assert MergeAt(l, i)[..i] == l[..i];
  }

  lemma SplitAtFacts(l: seq<TxItem>, i: nat, k: nat, base: nat)
    requires i < |l| && k <= |l[i].data|
    ensures |SplitAt(l, i, k)| == |l| + 1
    ensures Flatten(SplitAt(l, i, k)) == Flatten(l) && Total(SplitAt(l, i, k)) == Total(l)
    ensures SplitAt(l, i, k)[..i] == l[..i]
    ensures StartOf(SplitAt(l, i, k), base, i) == StartOf(l, base, i)
    ensures StartOf(SplitAt(l, i, k), base, i + 1) == StartOf(l, base, i) + k
    ensures SplitAt(l, i, k)[i] == Split(l[i], k).0
  {
    var p := Split(l[i], k);
    var l' := SplitAt(l, i, k);
    assert l[i..i + 1] == [l[i]];
    assert Flatten([l[i]]) == l[i].data + Flatten([]);
    assert Flatten([p.0, p.1]) == p.0.data + Flatten([p.1]);
    assert Flatten([p.1]) == p.1.data + Flatten([]);
    SpliceFlatten(l, i, i + 1, [p.0, p.1]);
    assert l'[..i] == l[..i];
    StartOfNext(l', base, i);
  }

  /** Positions strictly inside an item are not item boundaries. */
  lemma NotAligned(l: seq<TxItem>, base: nat, target: nat, i: nat)
    requires i < |l| && StartOf(l, base, i) < target < StartOf(l, base, i) + |l[i].data|
    ensures !Aligned(l, base, target)
  {
    forall j | 0 <= j <= |l| ensures StartOf(l, base, j) != target {
      if j <= i {
        StartOfMono(l, base, j, i);
      } else {
        StartOfNext(l, base, i);
        StartOfMono(l, base, i + 1, j);
      }
    }
  }

  /**
   * The recursion of the source, one call per step: a start that falls
   * inside an item splits it and recurses, an aligned start whose end falls
   * inside the item splits at the end and returns, an end beyond the item
   * merges it with its successor and recurses, and an end beyond the last
   * item returns that item. The branch of tcp-tx-buffer.cc:854-869 is not
   * modelled: `outItem` is always the current item at that point, so it is
   * never taken.
   */
  function Locate(l: seq<TxItem>, base: nat, numBytes: nat, target: nat, edited: bool): Lookup
    decreases if Aligned(l, base, target) then 0 else 1, |l|
  {
    var i := FirstFrom(l, base, target, 0);
    if i == |l| then Failed(NotReachable)
    else
      var b := StartOf(l, base, i);
      if target == b then
        if numBytes <= |l[i].data| then
          if numBytes == |l[i].data| then Located(l, i, edited)
          else Located(SplitAt(l, i, numBytes), i, true)
        else if i + 1 == |l| then Located(l, i, edited)
        else
          MergeAtFacts(l, i, base);
          assert Aligned(MergeAt(l, i), base, target);
          Locate(MergeAt(l, i), base, numBytes, target, true)
      else if target > b then
        SplitAtFacts(l, i, target - b, base);
        NotAligned(l, base, target, i);
        assert StartOf(SplitAt(l, i, target - b), base, i + 1) == target;
        Locate(SplitAt(l, i, target - b), base, numBytes, target, true)
      else Failed(DataBeforeList)
  }

  /**
   * What the walk guarantees: it succeeds exactly when `target` lies inside
   * the list; then the bytes of the list are unchanged, the item found starts
   * at `target` and holds `numBytes` bytes, or all the bytes up to the end of
   * the list if fewer remain, the items before the one that held `target` are
   * untouched, and the edited flag is set whenever the list changed.
   */
  predicate LocateSpec(l: seq<TxItem>, base: nat, numBytes: nat, target: nat, edited: bool, r: Lookup) {
    (r.Located? <==> base <= target < base + Total(l)) &&
    (r.Located? ==>
       && r.index < |r.items|
       && Flatten(r.items) == Flatten(l)
       && StartOf(r.items, base, r.index) == target
       && |r.items[r.index].data| == Min(numBytes, base + Total(l) - target)
       && FirstFrom(l, base, target, 0) <= r.index
       && r.items[..FirstFrom(l, base, target, 0)] == l[..FirstFrom(l, base, target, 0)]
       && (r.items != l ==> r.edited)
       && (edited ==> r.edited))
  }

  lemma {:induction false} LocateCorrect(l: seq<TxItem>, base: nat, numBytes: nat, target: nat, edited: bool)
    ensures LocateSpec(l, base, numBytes, target, edited, Locate(l, base, numBytes, target, edited))
    decreases if Aligned(l, base, target) then 0 else 1, |l|, 1
  {
    var i := FirstFrom(l, base, target, 0);
    StartOfEnd(l, base);
    if i == |l| {
      if |l| > 0 {
        StartOfNext(l, base, |l| - 1);
      }
    } else {
      var b := StartOf(l, base, i);
      StartOfNext(l, base, i);
      StartOfMono(l, base, i + 1, |l|);
      assert StartOf(l, base, 0) == base;
      StartOfMono(l, base, 0, i);
      if i > 0 {
        StartOfNext(l, base, i - 1);
        assert StartOf(l, base, i - 1) + |l[i - 1].data| <= target;
      }
      if target == b {
        if numBytes <= |l[i].data| {
          LocateFound(l, base, numBytes, target, edited, i);
        } else if i + 1 < |l| {
          assert Aligned(l, base, target);
          LocateMerge(l, base, numBytes, target, edited, i);
        }
      } else if target > b {
        NotAligned(l, base, target, i);
        LocateSplitStart(l, base, numBytes, target, edited, i);
      }
    }
  }

  /** The start is aligned and the end falls inside the item (or on its end). */
  lemma LocateFound(l: seq<TxItem>, base: nat, numBytes: nat, target: nat, edited: bool, i: nat)
    requires i == FirstFrom(l, base, target, 0) && i < |l|
    requires StartOf(l, base, i) == target && numBytes <= |l[i].data|
    ensures LocateSpec(l, base, numBytes, target, edited, Locate(l, base, numBytes, target, edited))
  {
    StartOfEnd(l, base);
    StartOfNext(l, base, i);
    StartOfMono(l, base, i + 1, |l|);
    assert StartOf(l, base, 0) == base;
    StartOfMono(l, base, 0, i);
    if numBytes < |l[i].data| {
      SplitAtFacts(l, i, numBytes, base);
    }
  }

  /** The end lies beyond the item: merge with the next one and recurse. */
  lemma {:induction false} LocateMerge(l: seq<TxItem>, base: nat, numBytes: nat, target: nat, edited: bool, i: nat)
    requires i == FirstFrom(l, base, target, 0) && i + 1 < |l|
    requires StartOf(l, base, i) == target && numBytes > |l[i].data|
    ensures Aligned(l, base, target)
    ensures LocateSpec(l, base, numBytes, target, edited, Locate(l, base, numBytes, target, edited))
    decreases 0, |l|, 0
  {
    var m := MergeAt(l, i);
    MergeAtFacts(l, i, base);
    assert Aligned(m, base, target);
    LocateCorrect(m, base, numBytes, target, true);
    StartOfEnd(m, base);
    StartOfEnd(l, base);
    FirstSame(l, m, base, target, i);
    MergeStep(l, base, numBytes, target, edited, i);
  }

  /** The start falls inside the item: split it there and recurse. */
  lemma {:induction false} LocateSplitStart(l: seq<TxItem>, base: nat, numBytes: nat, target: nat, edited: bool, i: nat)
    requires i == FirstFrom(l, base, target, 0) && i < |l|
    requires StartOf(l, base, i) < target
    ensures !Aligned(l, base, target)
    ensures LocateSpec(l, base, numBytes, target, edited, Locate(l, base, numBytes, target, edited))
    decreases 1, |l|, 0
  {
    var b := StartOf(l, base, i);
    var s := SplitAt(l, i, target - b);
    StartOfNext(l, base, i);
    SplitAtFacts(l, i, target - b, base);
    NotAligned(l, base, target, i);
    assert StartOf(s, base, i + 1) == target;
    assert Aligned(s, base, target);
    var r := Locate(s, base, numBytes, target, true);
    SplitStep(l, base, numBytes, target, edited, i);
    LocateCorrect(s, base, numBytes, target, true);
    StartOfEnd(s, base);
    StartOfEnd(l, base);
    FirstAfterSplit(l, s, base, target, i);
    if r.Located? {
      PrefixOfPrefix(r.items, s, i, i + 1);
      assert s[..i] == l[..i];
    }
  }

  /** Lists that agree on a prefix agree on every shorter one. */
  lemma PrefixOfPrefix(a: seq<TxItem>, b: seq<TxItem>, i: nat, f: nat)
    requires i <= f <= |a| && f <= |b| && a[..f] == b[..f]
    ensures a[..i] == b[..i]
  {
    assert a[..i] == a[..f][..i];
    assert b[..i] == b[..f][..i];
  }

  /** One merge step of the walk. */
  lemma MergeStep(l: seq<TxItem>, base: nat, numBytes: nat, target: nat, edited: bool, i: nat)
    requires i == FirstFrom(l, base, target, 0) && i + 1 < |l|
    requires StartOf(l, base, i) == target && numBytes > |l[i].data|
    ensures Locate(l, base, numBytes, target, edited) == Locate(MergeAt(l, i), base, numBytes, target, true)
  {
  }

  /** One split step of the walk. */
  lemma SplitStep(l: seq<TxItem>, base: nat, numBytes: nat, target: nat, edited: bool, i: nat)
    requires i == FirstFrom(l, base, target, 0) && i < |l|
    requires StartOf(l, base, i) < target
    ensures Locate(l, base, numBytes, target, edited) ==
            Locate(SplitAt(l, i, target - StartOf(l, base, i)), base, numBytes, target, true)
  {
  }

  /** After a merge at the item the walk found, the walk finds the same item. */
  lemma FirstSame(l: seq<TxItem>, m: seq<TxItem>, base: nat, target: nat, i: nat)
    requires i + 1 < |l| && m == MergeAt(l, i)
    requires FirstFrom(l, base, target, 0) == i && StartOf(l, base, i) == target
    ensures FirstFrom(m, base, target, 0) == i
  {
    MergeAtFacts(l, i, base);
    var f := FirstFrom(m, base, target, 0);
    forall k | 0 <= k < i ensures StartOf(m, base, k) + |m[k].data| <= target {
      assert m[..k] == l[..k];
      assert m[k] == l[k];
    }
    FirstFromIs(m, base, target, i);
  }

  /** After a split inside item `i`, the walk finds the second fragment. */
  lemma FirstAfterSplit(l: seq<TxItem>, s: seq<TxItem>, base: nat, target: nat, i: nat)
    requires i < |l| && StartOf(l, base, i) < target < StartOf(l, base, i) + |l[i].data|
    requires FirstFrom(l, base, target, 0) == i
    requires s == SplitAt(l, i, target - StartOf(l, base, i))
    ensures FirstFrom(s, base, target, 0) == i + 1
  {
    var b := StartOf(l, base, i);
    SplitAtFacts(l, i, target - b, base);
    StartOfNext(s, base, i + 1);
    forall k | 0 <= k < i + 1 ensures StartOf(s, base, k) + |s[k].data| <= target {
      if k < i {
        assert s[..k] == l[..k];
        assert s[k] == l[k];
      } else {
        StartOfNext(s, base, i);
      }
    }
    FirstFromIs(s, base, target, i + 1);
  }

  /** The walk's answer is determined by the two properties of its result. */
  lemma FirstFromIs(l: seq<TxItem>, base: nat, target: nat, i: nat)
    requires i < |l| && target < StartOf(l, base, i) + |l[i].data|
    requires forall k :: 0 <= k < i ==> StartOf(l, base, k) + |l[k].data| <= target
    ensures FirstFrom(l, base, target, 0) == i
  {
  }

  /**
   * The inner walk: the index of the first item that ends past `target`
   * (or the length of the list), and the sequence number it starts at.
   */
  method Scan(l: seq<TxItem>, listStart: nat, target: nat) returns (i: nat, begin: nat)
    ensures i <= |l| && begin == StartOf(l, listStart, i)
    ensures FirstFrom(l, listStart, target, i) == FirstFrom(l, listStart, target, 0)
    ensures i < |l| ==> target < begin + |l[i].data|
  {
    i, begin := 0, listStart;
    while i < |l| && target >= begin + |l[i].data|
      invariant i <= |l| && begin == StartOf(l, listStart, i)
      invariant FirstFrom(l, listStart, target, i) == FirstFrom(l, listStart, target, 0)
    {
      StartOfNext(l, listStart, i);
      begin := begin + |l[i].data|;
      i := i + 1;
    }
  }

  /**
   * The list walk as the source runs it: each recursive call of the source is
   * one more turn of the outer loop, and the inner loop walks the list
   * accumulating the start of the current item.
   */
  method GetPacketFromList(list: seq<TxItem>, listStart: nat, numBytes: nat, target: nat)
    returns (r: Lookup)
    ensures r == Locate(list, listStart, numBytes, target, false)
  {
    var l := list;
    var edited := false;
    var done := false;
    r := Failed(NotReachable);
    while !done
      invariant !done ==> Locate(l, listStart, numBytes, target, edited) == Locate(list, listStart, numBytes, target, false)
      invariant done ==> r == Locate(list, listStart, numBytes, target, false)
      decreases if done then 0 else 1, if Aligned(l, listStart, target) then 0 else 1, |l|
    {
      var i, begin := Scan(l, listStart, target);
      if i == |l| {
        r, done := Failed(NotReachable), true;
      } else if target == begin {
        if numBytes <= |l[i].data| {
          if numBytes == |l[i].data| {
            r := Located(l, i, edited);
          } else {
            r := Located(SplitAt(l, i, numBytes), i, true);
          }
          done := true;
        } else if i + 1 == |l| {
          r, done := Located(l, i, edited), true;
        } else {
          MergeStep(l, listStart, numBytes, target, edited, i);
          MergeAtFacts(l, i, listStart);
          assert Aligned(MergeAt(l, i), listStart, target);
          l, edited := MergeAt(l, i), true;
        }
      } else if target > begin {
        SplitStep(l, listStart, numBytes, target, edited, i);
        assert !Aligned(l, listStart, target) && Aligned(SplitAt(l, i, target - begin), listStart, target) by {
          SplitAtFacts(l, i, target - begin, listStart);
          NotAligned(l, listStart, target, i);
          assert StartOf(SplitAt(l, i, target - begin), listStart, i + 1) == target;
        }
        l, edited := SplitAt(l, i, target - begin), true;
      } else {
        r, done := Failed(DataBeforeList), true;
      }
    }
  }
}
