/**
 * The segment tree object: the packed table and byte buffer built once from
 * a list of segment records, and the locality-optimised lookup over them.
 */
module SegmentTrees {
  import opened Wrappers
  import opened PackedEntry
  import opened SegmentTable
  import opened SegmentLayout

  /**
   * What findSegment reads of its hint segment: the table position it came
   * from and the logical range [startIndex, endIndex) it covers.
   */
  datatype Hint = Hint(myPos: int, startIndex: int, endIndex: int)

  /**
   * The hint is the true result of an earlier lookup inside [startPos, endPos),
   * `index` lies outside it, and a forward step does not run off the range:
   * when the hint is the entry before the range's last, `index` must fall
   * inside that last entry, or findSegment reads the entry at endPos (past
   * the end of the table when the range is the whole table).
   */
  predicate HintFits(t: seq<int>, hint: Hint, index: int, startPos: int, endPos: int)
    requires 0 <= startPos && endPos <= Size(t)
  {
    startPos <= hint.myPos < endPos &&
    hint.startIndex == StartIndex(t, hint.myPos) &&
    hint.endIndex == AggrLength(t, hint.myPos) &&
    !(hint.startIndex <= index < hint.endIndex) &&
    (index >= hint.endIndex && hint.myPos + 2 == endPos ==> index < AggrLength(t, endPos - 1))
  }

  class SegmentTree {
    /** Pairs (aggrLength, packed offset word), one per content segment. */
    const treeData: array<int>
    /** The serialised records; their contents belong to the segment codec. */
    const segmentBytes: array<bv8>

    constructor (treeData: array<int>, segmentBytes: array<bv8>)
      ensures this.treeData == treeData && this.segmentBytes == segmentBytes
    {
      this.treeData := treeData;
      this.segmentBytes := segmentBytes;
    }

    /**
     * findSegment over [rangeStart, rangeEnd): try the entry next to the hint,
     * then the first and the last entry of the range, narrowing the range on
     * every miss, and finish with the binary search. The answer is always the
     * entry the plain scan of the original range finds.
     */
    method FindSegmentIn(index: int, rangeStart: int, rangeEnd: int, hint: Option<Hint>) returns (r: Option<TreePos>)
      requires Monotone(treeData[..])
      requires 0 <= rangeStart < rangeEnd <= Size(treeData[..])
      requires hint.Some? ==> HintFits(treeData[..], hint.value, index, rangeStart, rangeEnd)
      ensures r == Scan(treeData[..], index, rangeStart, rangeEnd)
    {
      ghost var t := treeData[..];
      var startPos, endPos := rangeStart, rangeEnd;
      if hint.Some? {
        var myPos := hint.value.myPos;
        var startIndex := hint.value.startIndex;
        assert HintFits(t, hint.value, index, rangeStart, rangeEnd);
        if index >= startIndex {
          var endIndex := hint.value.endIndex;
          if myPos + 1 >= endPos {
            ScanSkipThrough(t, index, rangeStart, myPos, rangeEnd);
            return None;
          }
          var nextLength := treeData[2 * (myPos + 1)];
          if index < nextLength {
            ScanFindsCover(t, index, rangeStart, rangeEnd, myPos + 1);
            return Some(TreePos(myPos + 1, endIndex));
          }
          ScanSkipThrough(t, index, rangeStart, myPos + 1, rangeEnd);
          startPos := myPos + 2;
          assert startPos < endPos;
          assert Scan(t, index, rangeStart, rangeEnd) == Scan(t, index, startPos, endPos);
        } else {
          if myPos == startPos {
            ScanStopBefore(t, index, rangeStart, myPos, rangeEnd);
            return None;
          }
          var prevPrevLength := if myPos < 2 then 0 else treeData[2 * (myPos - 2)];
          if index >= prevPrevLength {
            ScanFindsCover(t, index, rangeStart, rangeEnd, myPos - 1);
            return Some(TreePos(myPos - 1, prevPrevLength));
          }
          ScanStopBefore(t, index, rangeStart, myPos - 1, rangeEnd);
          endPos := myPos - 1;
          assert index < StartIndex(t, endPos);
          assert Scan(t, index, rangeStart, rangeEnd) == Scan(t, index, startPos, endPos);
        }
      }
      assert rangeStart <= startPos < rangeEnd && startPos <= endPos <= rangeEnd;
      assert Scan(t, index, rangeStart, rangeEnd) == Scan(t, index, startPos, endPos);
      r := FindSegmentAtEnds(index, startPos, endPos);
    }

    /**
     * The part of findSegment after the hint: try the first entry of the
     * range, then its last entry, then binary-search what is left. The first
     * entry is read even when the hint emptied the range, and then it cannot
     * cover the index.
     */
    method FindSegmentAtEnds(index: int, startPos: int, endPos: int) returns (r: Option<TreePos>)
      requires Monotone(treeData[..])
      requires 0 <= startPos < Size(treeData[..]) && startPos <= endPos <= Size(treeData[..])
      requires startPos == endPos ==> index < StartIndex(treeData[..], startPos)
      ensures r == Scan(treeData[..], index, startPos, endPos)
    {
      ghost var t := treeData[..];
      ghost var rangeStart, rangeEnd := startPos, endPos;
      var startPos, endPos := startPos, endPos;

      // most lookups start at index 0, so try the first entry of the range
      if startPos >= 0 {
        var firstLength := treeData[2 * startPos];
        if index < firstLength {
          var prevLength := if startPos == 0 then 0 else treeData[2 * (startPos - 1)];
          if index >= prevLength {
            ScanFindsCover(t, index, rangeStart, rangeEnd, startPos);
            return Some(TreePos(startPos, prevLength));
          }
          ScanStopBefore(t, index, startPos, startPos, endPos);
          endPos := startPos;
        } else {
          ScanSkipThrough(t, index, startPos, startPos, endPos);
          startPos := startPos + 1;
        }
      }
      assert Scan(t, index, rangeStart, rangeEnd) == Scan(t, index, startPos, endPos);

      // then the last entry, for a scan running backwards
      if endPos - 1 >= startPos {
        var secondToLastLength := if endPos < 2 then 0 else treeData[2 * (endPos - 2)];
        if index >= secondToLastLength {
          var lastLength := treeData[2 * (endPos - 1)];
          if index >= lastLength {
            ScanSkipThrough(t, index, startPos, endPos - 1, endPos);
            return None;
          }
          ScanFindsCover(t, index, rangeStart, rangeEnd, endPos - 1);
          return Some(TreePos(endPos - 1, secondToLastLength));
        }
        ScanStopBefore(t, index, startPos, endPos - 1, endPos);
        endPos := endPos - 1;
      }
      assert Scan(t, index, rangeStart, rangeEnd) == Scan(t, index, startPos, endPos);

      assert !(index == 0 && startPos == 0);
      r := FindSegmentPos(index, treeData, startPos, endPos);
    }

    /** findSegment(index, hint): the hinted lookup over the whole table. */
    method FindSegment(index: int, hint: Option<Hint>) returns (r: Option<TreePos>)
      requires Monotone(treeData[..]) && Size(treeData[..]) >= 1
      requires hint.Some? ==> HintFits(treeData[..], hint.value, index, 0, Size(treeData[..]))
      ensures r.Some? <==> 0 <= index < AggrLength(treeData[..], Size(treeData[..]) - 1)
      ensures r.Some? ==> 0 <= r.value.pos < Size(treeData[..]) &&
                          Covers(treeData[..], r.value.pos, index) &&
                          r.value.startIndex == StartIndex(treeData[..], r.value.pos)
    {
      r := FindSegmentIn(index, 0, treeData.Length / 2, hint);
      ScanCoverage(treeData[..], index, Size(treeData[..]));
    }

    /**
     * The hinted lookup and the plain binary search over the whole table give
     * the same position and start index. Index 0 needs the first segment to
     * be non-empty, because the binary search answers it without looking.
     */
    method FindSegmentMatchesSearch(index: int, hint: Option<Hint>) returns (viaHint: Option<TreePos>, viaSearch: Option<TreePos>)
      requires Monotone(treeData[..]) && Size(treeData[..]) >= 1
      requires index == 0 ==> AggrLength(treeData[..], 0) > 0
      requires hint.Some? ==> HintFits(treeData[..], hint.value, index, 0, Size(treeData[..]))
      ensures viaHint == viaSearch
    {
      viaHint := FindSegmentIn(index, 0, treeData.Length / 2, hint);
      viaSearch := FindSegmentPos(index, treeData, 0, treeData.Length / 2);
      if index == 0 {
        ScanAtZero(treeData[..], Size(treeData[..]));
      }
    }

    /** build's sizing pass: the total byte length and the number of content records. */
    static method MeasureRecords(segs: seq<Seg>) returns (byteLength: int, nonAnchors: int)
      ensures byteLength == BytesBefore(segs, |segs|)
      ensures nonAnchors == NonAnchors(segs, |segs|)
    {
      byteLength := 0;
      nonAnchors := 0;
      for k := 0 to |segs|
        invariant byteLength == BytesBefore(segs, k)
        invariant nonAnchors == NonAnchors(segs, k)
      {
        byteLength := byteLength + segs[k].byteLen;
        if !segs[k].isAnchor {
          nonAnchors := nonAnchors + 1;
        }
      }
    }

    /**
     * build: a sizing pass counts the content records and the bytes, a fill
     * pass writes one table entry per content record, keeping the running
     * logical length and the offset of the most recent anchor.
     */
    static method Build(segs: seq<Seg>) returns (tree: SegmentTree)
      requires Buildable(segs)
      ensures fresh(tree.treeData) && fresh(tree.segmentBytes)
      ensures TableOf(tree.treeData[..], segs)
      ensures tree.segmentBytes.Length == BytesBefore(segs, |segs|)
    {
      var byteLength, nonAnchors := MeasureRecords(segs);
      BytesMonotone(segs, 0, |segs|);

      var treeData := new int[nonAnchors * 2];
      var segmentBytes := new bv8[byteLength];

      var prevAnchorOffset := -1;
      var pos := 0;
      var offset := 0;
      var aggrLength := 0;
      var segOffset := 0;

      for k := 0 to |segs|
        invariant pos == NonAnchors(segs, k) && pos <= nonAnchors
        invariant offset == BytesBefore(segs, k)
        invariant aggrLength == LogicalBefore(segs, k)
        invariant prevAnchorOffset == if k > 0 && segs[k - 1].isAnchor then BytesBefore(segs, k - 1) else -1
        invariant EntriesBefore(treeData[..], segs, k)
      {
        NonAnchorsMonotone(segs, k, |segs|);
        segOffset := offset;
        // the codec serialises the record at segOffset and reports where it ends
        offset := offset + segs[k].byteLen;
        if segs[k].isAnchor {
          prevAnchorOffset := segOffset;
        } else {
          aggrLength := aggrLength + segs[k].logicalLen;
          ContentRecordFits(segs, k);
          assert aggrLength == LogicalBefore(segs, k + 1);
          assert (if prevAnchorOffset == -1 then 0 else segOffset - prevAnchorOffset) == AnchorGap(segs, k);
          ghost var before := treeData[..];
          SetTreeData(pos, treeData, aggrLength, segOffset, if prevAnchorOffset == -1 then 0 else segOffset - prevAnchorOffset);
          EntryAppended(before, treeData[..], segs, k);
          pos := pos + 1;
          prevAnchorOffset := -1;
        }
      }

      tree := new SegmentTree(treeData, segmentBytes);
    }
  }
}
