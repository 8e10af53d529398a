/**
 * The flat table of a segment tree and the searches over it.
 *
 * The table is Java's `int[] treeData`: entry `pos` occupies slots `2*pos`
 * (aggrLength, the running total of logical lengths up to and including the
 * segment) and `2*pos+1` (the packed offset word of PackedEntry). The static
 * readers of the Java class are functions over the table's contents.
 */
module SegmentTable {
  import opened Wrappers
  import opened PackedEntry

  /** size(): the number of entries; an odd trailing slot is ignored. */
  function Size(t: seq<int>): (n: nat)
    ensures 2 * n <= |t| <= 2 * n + 1
  {
    |t| / 2
  }

  /** aggrLength(pos): the first slot of entry pos, `treeData[pos << 1]`. */
  function AggrLength(t: seq<int>, pos: int): (r: int)
    requires 0 <= pos < Size(t)
    ensures 2 * pos + 1 < |t| && r == t[2 * pos]
  {
    t[2 * pos]
  }

  /** byteOffsetData(pos): the second slot of entry pos, `treeData[(pos << 1) + 1]`. */
  function ByteOffsetData(t: seq<int>, pos: int): (r: int)
    requires 0 <= pos < Size(t)
    ensures 2 * pos + 1 < |t| && r == t[2 * pos + 1]
  {
    t[2 * pos + 1]
  }

  /** byteOffset(pos): the low 29 bits of entry pos's word, with the sentinel read as -1. */
  function ByteOffset(t: seq<int>, pos: int): (r: int)
    requires 0 <= pos < Size(t)
    ensures -1 <= r < MAX_VALUE
    ensures r == -1 <==> t[2 * pos + 1] % TWO_29 == MAX_VALUE
    ensures r != -1 ==> r == t[2 * pos + 1] % TWO_29
  {
    GetByteOffset(ByteOffsetData(t, pos))
  }

  /** hasPreviousAnchor: the entry's anchor field is set, that is, its word has a top bit set. */
  function HasPreviousAnchor(t: seq<int>, pos: int): (r: bool)
    requires 0 <= pos < Size(t) && IsInt(ByteOffsetData(t, pos))
    ensures r <==> !(0 <= t[2 * pos + 1] <= MAX_VALUE)
  {
    GetAnchorOffset(ByteOffsetData(t, pos)) > 0
  }

  /**
   * previousAnchorOffset: the byte offset the anchor field points back to,
   * at most 7 bytes before the entry's own offset, and equal to it exactly
   * when there is no previous anchor.
   */
  function PreviousAnchorOffset(t: seq<int>, pos: int): (r: int)
    requires 0 <= pos < Size(t) && IsInt(ByteOffsetData(t, pos))
    ensures ByteOffset(t, pos) - 7 <= r <= ByteOffset(t, pos)
    ensures r == ByteOffset(t, pos) <==> !HasPreviousAnchor(t, pos)
  {
    ByteOffset(t, pos) - GetAnchorOffset(ByteOffsetData(t, pos))
  }

  /**
   * getPrevAnchor, as the byte offset of the anchor record it materialises;
   * the record itself is decoded by the segment codec.
   */
  function GetPrevAnchor(t: seq<int>, pos: int): (r: Option<int>)
    requires 0 <= pos < Size(t) && IsInt(ByteOffsetData(t, pos))
    ensures r.Some? <==> HasPreviousAnchor(t, pos)
    ensures r.Some? ==> r.value == PreviousAnchorOffset(t, pos) && r.value < ByteOffset(t, pos)
  {
    var byteOffsetData := ByteOffsetData(t, pos);
    var anchorOffset := GetAnchorOffset(byteOffsetData);
    if anchorOffset > 0 then Some(GetByteOffset(byteOffsetData) - anchorOffset) else None
  }

  /** The logical index at which the segment of entry `pos` starts. */
  function StartIndex(t: seq<int>, pos: int): int
    requires 0 <= pos < Size(t)
  {
    if pos == 0 then 0 else AggrLength(t, pos - 1)
  }

  /** Entry `pos` covers logical `index`: startIndex <= index < aggrLength(pos). */
  predicate Covers(t: seq<int>, pos: int, index: int)
    requires 0 <= pos < Size(t)
  {
    StartIndex(t, pos) <= index < AggrLength(t, pos)
  }

  /** The first n running totals are non-negative and each is at least the one before. */
  predicate MonotoneUpTo(t: seq<int>, n: int)
    requires n <= Size(t)
    decreases n
  {
    n <= 0 ||
    (MonotoneUpTo(t, n - 1) &&
     if n == 1 then 0 <= AggrLength(t, 0) else AggrLength(t, n - 2) <= AggrLength(t, n - 1))
  }

  /** The running totals are non-negative and nondecreasing. */
  predicate Monotone(t: seq<int>) {
    MonotoneUpTo(t, Size(t))
  }

  /** A monotone prefix orders any two of its running totals, and they are non-negative. */
  lemma {:induction false} MonotoneUpToAt(t: seq<int>, n: int, p: int, q: int)
    requires n <= Size(t) && MonotoneUpTo(t, n)
    requires 0 <= p <= q < n
    ensures 0 <= AggrLength(t, p) <= AggrLength(t, q)
    decreases n
  {
    if q < n - 1 {
      MonotoneUpToAt(t, n - 1, p, q);
    } else if p < q {
      MonotoneUpToAt(t, n - 1, p, q - 1);
    } else if q > 0 {
      MonotoneUpToAt(t, n - 1, q - 1, q - 1);
    }
  }

  /** In a monotone table any two running totals are ordered by position. */
  lemma MonotoneAt(t: seq<int>, p: int, q: int)
    requires Monotone(t)
    requires 0 <= p <= q < Size(t)
    ensures 0 <= AggrLength(t, p) <= AggrLength(t, q)
  {
    MonotoneUpToAt(t, Size(t), p, q);
  }

  /** Non-negative totals, each at least the one before, make a monotone prefix. */
  lemma {:induction false} MonotoneUpToIntro(t: seq<int>, n: int)
    requires 0 <= n <= Size(t)
    requires forall p :: 0 <= p < n ==> 0 <= AggrLength(t, p)
    requires forall p, q :: 0 <= p <= q < n ==> AggrLength(t, p) <= AggrLength(t, q)
    ensures MonotoneUpTo(t, n)
  {
    if n > 0 {
      MonotoneUpToIntro(t, n - 1);
      if n > 1 {
        assert AggrLength(t, n - 2) <= AggrLength(t, n - 1);
      }
    }
  }

  /** A search result: the entry found and the logical index its segment starts at. */
  datatype TreePos = TreePos(pos: int, startIndex: int)

  /**
   * The reference answer: the first entry of [startPos, endPos) that covers
   * `index`, found by looking at every entry in turn.
   */
  function Scan(t: seq<int>, index: int, startPos: int, endPos: int): (r: Option<TreePos>)
    requires 0 <= startPos && endPos <= Size(t)
    ensures r.None? <==> forall p :: startPos <= p < endPos ==> !Covers(t, p, index)
    ensures r.Some? ==> startPos <= r.value.pos < endPos && Covers(t, r.value.pos, index)
    ensures r.Some? ==> r.value.startIndex == StartIndex(t, r.value.pos)
    decreases endPos - startPos
  {
    if startPos >= endPos then None
    else if Covers(t, startPos, index) then Some(TreePos(startPos, StartIndex(t, startPos)))
    else Scan(t, index, startPos + 1, endPos)
  }

  /** In a monotone table the start index of an entry is non-negative and nondecreasing. */
  lemma StartIndexMonotone(t: seq<int>, p: int, q: int)
    requires Monotone(t)
    requires 0 <= p <= q < Size(t)
    ensures 0 <= StartIndex(t, p) <= StartIndex(t, q)
  {
    if p > 0 {
      MonotoneAt(t, p - 1, q - 1);
    } else if q > 0 {
      MonotoneAt(t, q - 1, q - 1);
    }
  }

  /** No entry up to q covers an index at or past q's running total. */
  lemma NoCoverThrough(t: seq<int>, index: int, q: int)
    requires Monotone(t)
    requires 0 <= q < Size(t) && index >= AggrLength(t, q)
    ensures forall p :: 0 <= p <= q ==> !Covers(t, p, index)
  {
    forall p | 0 <= p <= q
      ensures !Covers(t, p, index)
    {
      MonotoneAt(t, p, q);
    }
  }

  /** No entry from q on covers an index below q's start index. */
  lemma NoCoverFrom(t: seq<int>, index: int, q: int)
    requires Monotone(t)
    requires 0 <= q < Size(t) && index < StartIndex(t, q)
    ensures forall p :: q <= p < Size(t) ==> !Covers(t, p, index)
  {
    forall p | q <= p < Size(t)
      ensures !Covers(t, p, index)
    {
      StartIndexMonotone(t, q, p);
    }
  }

  /** In a monotone table at most one entry covers a given index. */
  lemma CoverUnique(t: seq<int>, index: int, p: int, q: int)
    requires Monotone(t)
    requires 0 <= p < Size(t) && 0 <= q < Size(t)
    requires Covers(t, p, index) && Covers(t, q, index)
    ensures p == q
  {
    if p < q {
      MonotoneAt(t, p, q - 1);
    } else if q < p {
      MonotoneAt(t, q, p - 1);
    }
  }

  /** In a monotone table the scan finds the covering entry wherever it lies in the range. */
  lemma ScanFindsCover(t: seq<int>, index: int, startPos: int, endPos: int, p: int)
    requires Monotone(t)
    requires 0 <= startPos <= p < endPos <= Size(t)
    requires Covers(t, p, index)
    ensures Scan(t, index, startPos, endPos) == Some(TreePos(p, StartIndex(t, p)))
  {
    var r := Scan(t, index, startPos, endPos);
    CoverUnique(t, index, p, r.value.pos);
  }

  /**
   * Narrowing a search range to a sub-range that still holds every covering
   * entry does not change the answer.
   */
  lemma ScanNarrow(t: seq<int>, index: int, startPos: int, endPos: int, lo: int, hi: int)
    requires Monotone(t)
    requires 0 <= startPos <= lo && hi <= endPos <= Size(t)
    requires forall p :: startPos <= p < endPos && !(lo <= p < hi) ==> !Covers(t, p, index)
    ensures Scan(t, index, startPos, endPos) == Scan(t, index, lo, hi)
  {
    var r := Scan(t, index, startPos, endPos);
    if r.Some? {
      ScanFindsCover(t, index, lo, hi, r.value.pos);
    }
  }

  /**
   * Entries up to q cannot cover an index at or past q's running total, so
   * the search may start after q.
   */
  lemma ScanSkipThrough(t: seq<int>, index: int, lo: int, q: int, hi: int)
    requires Monotone(t)
    requires 0 <= lo <= q + 1 && 0 <= q < Size(t) && hi <= Size(t)
    requires index >= AggrLength(t, q)
    ensures Scan(t, index, lo, hi) == Scan(t, index, q + 1, hi)
  {
    NoCoverThrough(t, index, q);
    ScanNarrow(t, index, lo, hi, q + 1, hi);
  }

  /**
   * Entries from q on cannot cover an index below q's start index, so the
   * search may stop before q.
   */
  lemma ScanStopBefore(t: seq<int>, index: int, lo: int, q: int, hi: int)
    requires Monotone(t)
    requires 0 <= lo && 0 <= q <= hi <= Size(t) && q < Size(t)
    requires index < StartIndex(t, q)
    ensures Scan(t, index, lo, hi) == Scan(t, index, lo, q)
  {
    NoCoverFrom(t, index, q);
    ScanNarrow(t, index, lo, hi, lo, q);
  }

  /**
   * The first entry covers index 0 exactly when its length is positive, so
   * findSegmentPos's shortcut for index 0 agrees with the scan just then.
   */
  lemma ScanAtZero(t: seq<int>, endPos: int)
    requires Monotone(t)
    requires 1 <= endPos <= Size(t)
    ensures Scan(t, 0, 0, endPos) == Some(TreePos(0, 0)) <==> AggrLength(t, 0) > 0
  {
    if AggrLength(t, 0) > 0 {
      ScanFindsCover(t, 0, 0, endPos, 0);
    }
  }

  /**
   * Over the whole of a non-empty monotone table, some entry covers `index`
   * exactly when 0 <= index < the last running total.
   */
  lemma {:induction false} ScanCoverage(t: seq<int>, index: int, endPos: int)
    requires Monotone(t)
    requires 1 <= endPos <= Size(t)
    ensures Scan(t, index, 0, endPos).Some? <==> 0 <= index < AggrLength(t, endPos - 1)
  {
    if 0 <= index < AggrLength(t, endPos - 1) {
      if index >= StartIndex(t, endPos - 1) {
        ScanFindsCover(t, index, 0, endPos, endPos - 1);
      } else {
        ScanCoverage(t, index, endPos - 1);
        var p := Scan(t, index, 0, endPos - 1).value.pos;
        ScanFindsCover(t, index, 0, endPos, p);
      }
    } else {
      forall p | 0 <= p < endPos
        ensures !Covers(t, p, index)
      {
        StartIndexMonotone(t, 0, p);
        MonotoneAt(t, p, endPos - 1);
      }
    }
  }

  /**
   * getSegment(pos) as written: the codec is handed aggrLength(pos), the
   * index where the segment ends, in the place of its start index.
   */
  function GetSegmentAsWritten(t: seq<int>, pos: int): (r: TreePos)
    requires 0 <= pos < Size(t)
    ensures r.pos == pos && !Covers(t, pos, r.startIndex)
  {
    TreePos(pos, AggrLength(t, pos))
  }

  /**
   * For every non-empty segment the start index getSegment passes on lies
   * outside the segment, so it differs from what a lookup of any index of
   * that segment reports.
   */
  lemma GetSegmentAsWrittenMisplaced(t: seq<int>, pos: int, index: int)
    requires Monotone(t)
    requires 0 <= pos < Size(t) && Covers(t, pos, index)
    ensures !Covers(t, pos, GetSegmentAsWritten(t, pos).startIndex)
    ensures Scan(t, index, 0, Size(t)) != Some(GetSegmentAsWritten(t, pos))
  {
    ScanFindsCover(t, index, 0, Size(t), pos);
  }

  /** The smallest case: two segments of length 2; getSegment(0) claims a start of 2. */
  lemma GetSegmentAsWrittenExample()
    ensures GetSegmentAsWritten([2, 0, 4, 3], 0) == TreePos(0, 2)
    ensures Scan([2, 0, 4, 3], 0, 0, 2) == Some(TreePos(0, 0))
  {
    assert Covers([2, 0, 4, 3], 0, 0);
  }

  /** getSegment(pos) as intended: the entry with the index its segment starts at. */
  function GetSegment(t: seq<int>, pos: int): (r: TreePos)
    requires 0 <= pos < Size(t)
    ensures r.pos == pos && (pos == 0 ==> r.startIndex == 0)
  {
    TreePos(pos, StartIndex(t, pos))
  }

  /** The corrected getSegment(pos) agrees with a lookup of every index its segment covers. */
  lemma GetSegmentMatchesLookup(t: seq<int>, pos: int, index: int)
    requires Monotone(t)
    requires 0 <= pos < Size(t) && Covers(t, pos, index)
    ensures Scan(t, index, 0, Size(t)) == Some(GetSegment(t, pos))
  {
    ScanFindsCover(t, index, 0, Size(t), pos);
  }

  /**
   * setTreeData: writes the running total and the packed offset word of
   * entry `pos`, and nothing else.
   */
  method SetTreeData(pos: int, treeData: array<int>, aggrLength: int, byteOffset: int, prevAnchorOffset: int)
    requires 0 <= pos < treeData.Length / 2
    requires 0 <= byteOffset <= MAX_VALUE
    requires 0 <= prevAnchorOffset <= 7
    modifies treeData
    ensures treeData[..] == old(treeData[..])[2 * pos := aggrLength][2 * pos + 1 := PackWord(byteOffset, prevAnchorOffset)]
  {
    treeData[2 * pos] := aggrLength;
    treeData[2 * pos + 1] := byteOffset + (if prevAnchorOffset == 0 then 0 else Wrap(prevAnchorOffset * TWO_29));
  }

  /**
   * Reading back an entry that setTreeData wrote: its running total, its
   * byte offset (the sentinel reads as -1) and its anchor distance come
   * back, and every other entry reads as before.
   */
  lemma WrittenEntryReadsBack(t: seq<int>, pos: int, aggrLength: int, byteOffset: int, prevAnchorOffset: int)
    requires 0 <= pos < Size(t)
    requires 0 <= byteOffset <= MAX_VALUE && 0 <= prevAnchorOffset <= 7
    ensures var t1 := t[2 * pos := aggrLength][2 * pos + 1 := PackWord(byteOffset, prevAnchorOffset)];
            Size(t1) == Size(t) &&
            AggrLength(t1, pos) == aggrLength &&
            ByteOffset(t1, pos) == (if byteOffset == MAX_VALUE then -1 else byteOffset) &&
            GetAnchorOffset(ByteOffsetData(t1, pos)) == prevAnchorOffset &&
            (HasPreviousAnchor(t1, pos) <==> prevAnchorOffset > 0) &&
            forall q :: 0 <= q < Size(t) && q != pos ==>
              AggrLength(t1, q) == AggrLength(t, q) && ByteOffsetData(t1, q) == ByteOffsetData(t, q)
  {
    PackWordRoundTrip(byteOffset, prevAnchorOffset);
  }

  /**
   * findSegmentPos: binary search of [startPos, endPos) for the entry that
   * covers `index`, with the shortcut that index 0 searched from position 0
   * is answered (0, 0) without looking at the table.
   */
  method FindSegmentPos(index: int, treeData: array<int>, startPos: int, endPos: int) returns (r: Option<TreePos>)
    requires 0 <= startPos && endPos <= Size(treeData[..])
    ensures index == 0 && startPos == 0 ==> r == Some(TreePos(0, 0))
    ensures !(index == 0 && startPos == 0) && r.Some? ==>
              startPos <= r.value.pos < endPos &&
              r.value.startIndex == StartIndex(treeData[..], r.value.pos) &&
              Covers(treeData[..], r.value.pos, index)
    ensures !(index == 0 && startPos == 0) && Monotone(treeData[..]) ==>
              r == Scan(treeData[..], index, startPos, endPos)
  {
    ghost var t := treeData[..];
    if index == 0 && startPos == 0 {
      return Some(TreePos(0, 0));
    }
    var lo, hi := startPos, endPos;
    while lo < hi
      invariant startPos <= lo && hi <= endPos
      invariant Monotone(t) ==> Scan(t, index, startPos, endPos) == Scan(t, index, lo, hi)
      decreases hi - lo
    {
      var pos := (lo + hi) / 2;
      var endIndex := treeData[2 * pos];
      if index >= endIndex {
        if Monotone(t) {
          ScanSkipThrough(t, index, lo, pos, hi);
        }
        lo := pos + 1;
      } else {
        var startIndex := if pos == 0 then 0 else treeData[2 * (pos - 1)];
        assert Covers(t, pos, index) <==> index >= startIndex;
        if index < startIndex {
          if Monotone(t) {
            ScanStopBefore(t, index, lo, pos, hi);
          }
          hi := pos;
        } else {
          if Monotone(t) {
            ScanFindsCover(t, index, lo, hi, pos);
          }
          return Some(TreePos(pos, startIndex));
        }
      }
    }
    return None;
  }
}
