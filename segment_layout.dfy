/**
 * What `build` lays out: the segment records it is given, the prefix sums
 * over them, and a description of the table it must produce, entry by entry.
 *
 * A record is what the segment codec reports about one segment: whether it
 * is an anchor marker, how many bytes its serialised form takes, and its
 * logical (character) length.
 */
module SegmentLayout {
  import opened Wrappers
  import opened PackedEntry
  import opened SegmentTable

  datatype Seg = Seg(isAnchor: bool, byteLen: int, logicalLen: int)

  /** Every record takes at least one byte and has a non-negative length. */
  predicate WellFormed(segs: seq<Seg>) {
    forall i :: 0 <= i < |segs| ==> segs[i].byteLen > 0 && segs[i].logicalLen >= 0
  }

  /** The number of content (non-anchor) records among the first k. */
  function NonAnchors(segs: seq<Seg>, k: int): nat
    requires 0 <= k <= |segs|
  {
    if k == 0 then 0 else NonAnchors(segs, k - 1) + (if segs[k - 1].isAnchor then 0 else 1)
  }

  /** The byte offset at which record k is serialised: the bytes of every earlier record. */
  function BytesBefore(segs: seq<Seg>, k: int): int
    requires 0 <= k <= |segs|
  {
    if k == 0 then 0 else BytesBefore(segs, k - 1) + segs[k - 1].byteLen
  }

  /** The logical length of the content records among the first k. */
  function LogicalBefore(segs: seq<Seg>, k: int): int
    requires 0 <= k <= |segs|
  {
    if k == 0 then 0
    else LogicalBefore(segs, k - 1) + (if segs[k - 1].isAnchor then 0 else segs[k - 1].logicalLen)
  }

  /**
   * The anchor distance stored for the content record i: the byte length of
   * the anchor directly before it, or 0 when the record before it is not an
   * anchor (or there is none).
   */
  function AnchorGap(segs: seq<Seg>, i: int): int
    requires 0 <= i < |segs|
  {
    if i > 0 && segs[i - 1].isAnchor then segs[i - 1].byteLen else 0
  }

  /**
   * What build needs of its input: well-formed records, every content
   * record's offset within the 29-bit field, every anchor distance within the
   * 3-bit field, and totals that fit in a Java int.
   */
  predicate Buildable(segs: seq<Seg>) {
    WellFormed(segs) &&
    (forall i :: 0 <= i < |segs| && !segs[i].isAnchor ==>
       BytesBefore(segs, i) <= MAX_VALUE && AnchorGap(segs, i) <= 7) &&
    BytesBefore(segs, |segs|) <= INT_MAX &&
    LogicalBefore(segs, |segs|) <= INT_MAX
  }

  /**
   * The table entry of content record i sits at position NonAnchors(segs, i),
   * holds the running logical length through record i, and packs record i's
   * byte offset with its anchor distance.
   */
  predicate EntryFor(t: seq<int>, segs: seq<Seg>, i: int)
    requires 0 <= i < |segs|
  {
    var p := NonAnchors(segs, i);
    p < Size(t) &&
    AggrLength(t, p) == LogicalBefore(segs, i + 1) &&
    0 <= BytesBefore(segs, i) <= MAX_VALUE && 0 <= AnchorGap(segs, i) <= 7 &&
    ByteOffsetData(t, p) == PackWord(BytesBefore(segs, i), AnchorGap(segs, i))
  }

  /** t holds the entries of the content records among the first k records. */
  predicate EntriesBefore(t: seq<int>, segs: seq<Seg>, k: int)
    requires 0 <= k <= |segs|
  {
    forall i :: 0 <= i < k && !segs[i].isAnchor ==> EntryFor(t, segs, i)
  }

  /** t is the table built from segs: one entry per content record, each as EntryFor says. */
  predicate TableOf(t: seq<int>, segs: seq<Seg>) {
    |t| == 2 * NonAnchors(segs, |segs|) && EntriesBefore(t, segs, |segs|)
  }

  lemma {:induction false} NonAnchorsMonotone(segs: seq<Seg>, i: int, j: int)
    requires 0 <= i <= j <= |segs|
    ensures NonAnchors(segs, i) <= NonAnchors(segs, j)
    ensures i < j && !segs[i].isAnchor ==> NonAnchors(segs, i) < NonAnchors(segs, j)
    decreases j
  {
    if i < j {
      NonAnchorsMonotone(segs, i, j - 1);
    }
  }

  lemma {:induction false} BytesMonotone(segs: seq<Seg>, i: int, j: int)
    requires WellFormed(segs)
    requires 0 <= i <= j <= |segs|
    ensures 0 <= BytesBefore(segs, i) <= BytesBefore(segs, j)
    ensures i < j ==> BytesBefore(segs, i) + segs[i].byteLen <= BytesBefore(segs, j)
    decreases j, i
  {
    if i < j {
      BytesMonotone(segs, i, j - 1);
    } else if i > 0 {
      BytesMonotone(segs, 0, i);
    }
  }

  lemma {:induction false} LogicalMonotone(segs: seq<Seg>, i: int, j: int)
    requires WellFormed(segs)
    requires 0 <= i <= j <= |segs|
    ensures 0 <= LogicalBefore(segs, i) <= LogicalBefore(segs, j)
    decreases j, i
  {
    if i < j {
      LogicalMonotone(segs, i, j - 1);
    } else if i > 0 {
      LogicalMonotone(segs, 0, i);
    }
  }

  /** Every table position p below the count of content records belongs to one of them. */
  lemma {:induction false} RecordOfEntry(segs: seq<Seg>, k: int, p: int) returns (i: int)
    requires 0 <= k <= |segs|
    requires 0 <= p < NonAnchors(segs, k)
    ensures 0 <= i < k && !segs[i].isAnchor && NonAnchors(segs, i) == p
  {
    if p < NonAnchors(segs, k - 1) {
      i := RecordOfEntry(segs, k - 1, p);
    } else {
      i := k - 1;
    }
  }

  /** Entries of the first k records survive writes beyond their slots. */
  lemma EntriesKept(t0: seq<int>, t1: seq<int>, segs: seq<Seg>, k: int)
    requires 0 <= k <= |segs| && |t0| == |t1|
    requires forall j :: 0 <= j < 2 * NonAnchors(segs, k) && j < |t0| ==> t1[j] == t0[j]
    requires EntriesBefore(t0, segs, k)
    ensures EntriesBefore(t1, segs, k)
  {
    forall i | 0 <= i < k && !segs[i].isAnchor
      ensures EntryFor(t1, segs, i)
    {
      NonAnchorsMonotone(segs, i, k);
      assert EntryFor(t0, segs, i);
    }
  }

  /**
   * What build computes for content record k fits its fields: the offset is
   * a 29-bit value, the anchor distance is the byte length of a directly
   * preceding anchor (else 0) and fits in 3 bits, and the record has a slot.
   */
  lemma {:induction false} ContentRecordFits(segs: seq<Seg>, k: int)
    requires Buildable(segs)
    requires 0 <= k < |segs| && !segs[k].isAnchor
    ensures 0 <= BytesBefore(segs, k) <= MAX_VALUE && 0 <= AnchorGap(segs, k) <= 7
    ensures k > 0 && segs[k - 1].isAnchor ==> AnchorGap(segs, k) == BytesBefore(segs, k) - BytesBefore(segs, k - 1)
    ensures !(k > 0 && segs[k - 1].isAnchor) ==> AnchorGap(segs, k) == 0
    ensures k > 0 ==> 0 <= BytesBefore(segs, k - 1)
    ensures NonAnchors(segs, k) < NonAnchors(segs, |segs|)
  {
    BytesMonotone(segs, 0, k);
    if k > 0 {
      BytesMonotone(segs, 0, k - 1);
    }
    NonAnchorsMonotone(segs, k, |segs|);
  }

  /**
   * Writing content record k's entry into its slot, and nothing else, turns
   * a table holding the entries of the first k records into one holding the
   * entries of the first k + 1.
   */
  lemma EntryAppended(t0: seq<int>, t1: seq<int>, segs: seq<Seg>, k: int)
    requires 0 <= k < |segs| && !segs[k].isAnchor
    requires 0 <= BytesBefore(segs, k) <= MAX_VALUE && 0 <= AnchorGap(segs, k) <= 7
    requires NonAnchors(segs, k) < Size(t0)
    requires t1 == t0[2 * NonAnchors(segs, k) := LogicalBefore(segs, k + 1)]
                     [2 * NonAnchors(segs, k) + 1 := PackWord(BytesBefore(segs, k), AnchorGap(segs, k))]
    requires EntriesBefore(t0, segs, k)
    ensures EntriesBefore(t1, segs, k + 1)
  {
    EntriesKept(t0, t1, segs, k);
  }

  /**
   * The built table has exactly one entry per content record, in record
   * order: TableOf describes every slot, so at most one table fits it.
   */
  lemma TableOfUnique(t1: seq<int>, t2: seq<int>, segs: seq<Seg>)
    requires TableOf(t1, segs) && TableOf(t2, segs)
    ensures t1 == t2
  {
    forall k | 0 <= k < |t1|
      ensures t1[k] == t2[k]
    {
      var i := RecordOfEntry(segs, |segs|, k / 2);
      assert EntryFor(t1, segs, i) && EntryFor(t2, segs, i);
    }
  }

  /** Entry p of a built table holds a non-negative running length. */
  lemma TableOfNonNegative(t: seq<int>, segs: seq<Seg>, p: int)
    requires WellFormed(segs) && TableOf(t, segs)
    requires 0 <= p < Size(t)
    ensures 0 <= AggrLength(t, p)
  {
    var i := RecordOfEntry(segs, |segs|, p);
    assert EntryFor(t, segs, i);
    LogicalMonotone(segs, 0, i + 1);
  }

  /** Running lengths of a built table never decrease from entry p to a later entry q. */
  lemma TableOfOrdered(t: seq<int>, segs: seq<Seg>, p: int, q: int)
    requires WellFormed(segs) && TableOf(t, segs)
    requires 0 <= p <= q < Size(t)
    ensures AggrLength(t, p) <= AggrLength(t, q)
  {
    var i := RecordOfEntry(segs, |segs|, p);
    var j := RecordOfEntry(segs, |segs|, q);
    assert EntryFor(t, segs, i) && EntryFor(t, segs, j);
    if j < i {
      NonAnchorsMonotone(segs, j, i);
    }
    LogicalMonotone(segs, i + 1, j + 1);
  }

  /** The last running length of a built table is the total logical length of the records. */
  lemma TableOfTotal(t: seq<int>, segs: seq<Seg>)
    requires TableOf(t, segs) && Size(t) > 0
    ensures AggrLength(t, Size(t) - 1) == LogicalBefore(segs, |segs|)
  {
    var i := RecordOfEntry(segs, |segs|, Size(t) - 1);
    assert EntryFor(t, segs, i);
    forall j | i < j < |segs|
      ensures segs[j].isAnchor
    {
      NonAnchorsMonotone(segs, i, j);
      NonAnchorsMonotone(segs, j, |segs|);
    }
    AnchorsAddNothing(segs, i + 1, |segs|);
  }

  /**
   * The running lengths of a built table are non-negative and nondecreasing,
   * and the last one is the total logical length of the content records.
   */
  lemma TableOfMonotone(t: seq<int>, segs: seq<Seg>)
    requires WellFormed(segs) && TableOf(t, segs)
    ensures Monotone(t)
    ensures Size(t) > 0 ==> AggrLength(t, Size(t) - 1) == LogicalBefore(segs, |segs|)
  {
    forall p | 0 <= p < Size(t)
      ensures 0 <= AggrLength(t, p)
    {
      TableOfNonNegative(t, segs, p);
    }
    forall p, q | 0 <= p <= q < Size(t)
      ensures AggrLength(t, p) <= AggrLength(t, q)
    {
      TableOfOrdered(t, segs, p, q);
    }
    MonotoneUpToIntro(t, Size(t));
    if Size(t) > 0 {
      TableOfTotal(t, segs);
    }
  }

  /** Anchor records contribute no logical length. */
  lemma {:induction false} AnchorsAddNothing(segs: seq<Seg>, i: int, j: int)
    requires 0 <= i <= j <= |segs|
    requires forall k :: i <= k < j ==> segs[k].isAnchor
    ensures LogicalBefore(segs, j) == LogicalBefore(segs, i)
    decreases j
  {
    if i < j {
      AnchorsAddNothing(segs, i, j - 1);
    }
  }

  /**
   * Decoding a built entry gives back the record's byte offset (unless it is
   * the sentinel) and its anchor distance, and the word is a Java int.
   */
  lemma TableOfOffsets(t: seq<int>, segs: seq<Seg>, i: int)
    requires TableOf(t, segs)
    requires 0 <= i < |segs| && !segs[i].isAnchor
    ensures NonAnchors(segs, i) < Size(t)
    ensures IsInt(ByteOffsetData(t, NonAnchors(segs, i)))
    ensures ByteOffset(t, NonAnchors(segs, i)) ==
              if BytesBefore(segs, i) == MAX_VALUE then -1 else BytesBefore(segs, i)
    ensures GetAnchorOffset(ByteOffsetData(t, NonAnchors(segs, i))) == AnchorGap(segs, i)
  {
    assert EntryFor(t, segs, i);
    PackWordRoundTrip(BytesBefore(segs, i), AnchorGap(segs, i));
  }

  /**
   * getPrevAnchor on a built table: it finds a record exactly when an anchor
   * directly precedes the content record. The offset it yields is where that
   * anchor's record starts in the byte buffer, except when the content record
   * itself starts at the sentinel offset MAX_VALUE: its offset then reads as
   * -1 and getPrevAnchor yields -1 minus the anchor's length.
   */
  lemma TableOfPrevAnchor(t: seq<int>, segs: seq<Seg>, i: int)
    requires WellFormed(segs) && TableOf(t, segs)
    requires 0 <= i < |segs| && !segs[i].isAnchor
    ensures NonAnchors(segs, i) < Size(t) && IsInt(ByteOffsetData(t, NonAnchors(segs, i)))
    ensures GetPrevAnchor(t, NonAnchors(segs, i)) ==
              if i > 0 && segs[i - 1].isAnchor then
                Some(if BytesBefore(segs, i) == MAX_VALUE then -1 - segs[i - 1].byteLen else BytesBefore(segs, i - 1))
              else None
  {
    TableOfOffsets(t, segs, i);
    if i > 0 {
      assert BytesBefore(segs, i) == BytesBefore(segs, i - 1) + segs[i - 1].byteLen;
    }
  }

  /** Three records whose last content record starts exactly at the sentinel offset. */
  const RecordsAtSentinel: seq<Seg> := [Seg(false, MAX_VALUE - 2, 1), Seg(true, 2, 0), Seg(false, 1, 1)]

  /**
   * build's guard `byteOffset <= MAX_VALUE` admits a content record at the
   * sentinel offset: these records are buildable, yet in the built table the
   * second entry's offset reads as -1 and getPrevAnchor points at -3, where
   * the anchor actually starts at MAX_VALUE - 2.
   */
  lemma SentinelOffsetExample(t: seq<int>)
    requires TableOf(t, RecordsAtSentinel)
    ensures Buildable(RecordsAtSentinel)
    ensures BytesBefore(RecordsAtSentinel, 1) == MAX_VALUE - 2
    ensures Size(t) == 2 && IsInt(ByteOffsetData(t, 1))
    ensures ByteOffset(t, 1) == -1
    ensures GetPrevAnchor(t, 1) == Some(-3)
  {
    var segs := RecordsAtSentinel;
    assert BytesBefore(segs, 1) == MAX_VALUE - 2;
    assert BytesBefore(segs, 2) == MAX_VALUE;
    assert BytesBefore(segs, 3) == MAX_VALUE + 1;
    assert LogicalBefore(segs, 1) == 1;
    assert LogicalBefore(segs, 2) == 1;
    assert LogicalBefore(segs, 3) == 2;
    assert NonAnchors(segs, 2) == 1 && NonAnchors(segs, 3) == 2;
    assert WellFormed(segs);
    TableOfOffsets(t, segs, 2);
    TableOfPrevAnchor(t, segs, 2);
  }

  /**
   * The guard build evidently intends, `byteOffset < MAX_VALUE`: every
   * content record starts below the sentinel.
   */
  predicate BuildableBelowSentinel(segs: seq<Seg>) {
    Buildable(segs) &&
    forall i :: 0 <= i < |segs| && !segs[i].isAnchor ==> BytesBefore(segs, i) < MAX_VALUE
  }

  /**
   * Under the intended guard every entry of a built table reads back its
   * record's true byte offset, and getPrevAnchor yields the start of the
   * directly preceding anchor, or nothing when there is none.
   */
  lemma PrevAnchorBelowSentinel(t: seq<int>, segs: seq<Seg>, i: int)
    requires BuildableBelowSentinel(segs) && TableOf(t, segs)
    requires 0 <= i < |segs| && !segs[i].isAnchor
    ensures NonAnchors(segs, i) < Size(t) && IsInt(ByteOffsetData(t, NonAnchors(segs, i)))
    ensures ByteOffset(t, NonAnchors(segs, i)) == BytesBefore(segs, i)
    ensures GetPrevAnchor(t, NonAnchors(segs, i)) ==
              if i > 0 && segs[i - 1].isAnchor then Some(BytesBefore(segs, i - 1)) else None
  {
    TableOfOffsets(t, segs, i);
    TableOfPrevAnchor(t, segs, i);
  }
}
