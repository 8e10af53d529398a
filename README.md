# SegmentTree: a verified model of flexmark's segment index

flexmark's `SegmentTree` maps a logical character index of a segmented
sequence to the stored segment that covers it. It keeps two buffers:

- `treeData` is a flat `int[]` with one pair per content segment. The first
  int is `aggrLength`, the running total of logical lengths up to and
  including the segment. The second is a packed word. Its low 29 bits hold
  the byte offset of the segment's record in `segmentBytes`; the value
  `MAX_VALUE` (2^29 - 1) stands for "no offset". Its top 3 bits hold the
  byte distance back to an anchor record that directly precedes the segment.
- `segmentBytes` holds the serialised segment records.

The model has five modules:

- `Wrappers` has the `Option` type that stands for Java's nullable results.
- `PackedEntry` models the bit fields of the packed word. Java `int` words
  are integers in [-2^31, 2^31). The masks and shifts are written out
  arithmetically: `w & MAX_VALUE` is `w % 2^29`, and `x << 29` is the
  32-bit wrap of `x * 2^29`. It holds `setTreeData`'s word (`PackWord`), the
  readers `getByteOffset` and `getAnchorOffset`, and their round trip.
- `SegmentTable` models the static side of the class over the table's
  contents (`seq<int>`):
  - the readers `aggrLength`, `byteOffset`, `hasPreviousAnchor`,
    `previousAnchorOffset` and `getPrevAnchor`;
  - `setTreeData`, as a method on the `int[]` array;
  - `findSegmentPos`, the binary search, as a method with its `while` loop.

  The reference answer is `Scan`, a linear scan that finds the entry
  covering an index. The search is proved equal to it whenever the running
  totals are nondecreasing, except for the source's shortcut for index 0.
- `SegmentLayout` describes what `build` produces:
  - a record type `Seg`, holding what the segment codec reports about one
    segment (is it an anchor, its byte length, its logical length);
  - prefix sums over the records;
  - `TableOf`, which says entry by entry what the built table holds.

  It proves that a built table is monotone, that it is unique, and that its
  offsets and anchor distances decode back to the records' layout.
- `SegmentTrees` holds the `SegmentTree` class:
  - the hinted `findSegment`. It tries the entry next to the hint, then the
    first and the last entry of the range, narrowing the range on every
    miss, and then falls back to the binary search. It is proved to return
    exactly what the scan, and so the plain binary search, returns.
  - the two-pass `build`. It is proved to produce the table `TableOf`
    describes and a byte buffer of the records' total size.

## Model

| member | source | states |
|---|---|---|
| PackedEntry.Wrap | flexmark-util/src/main/java/com/vladsch/flexmark/util/sequence/edit/SegmentTree.java:208 | Java's narrowing of `anc << 29` to an int: the result is an int, agrees with the exact product modulo 2^32, and is the product itself when that fits |
| PackedEntry.PackWord | flexmark-util/src/main/java/com/vladsch/flexmark/util/sequence/edit/SegmentTree.java:205-209 | the word setTreeData stores is an int whose low 29 bits are exactly the byte offset |
| PackedEntry.GetByteOffset | flexmark-util/src/main/java/com/vladsch/flexmark/util/sequence/edit/SegmentTree.java:48-51 | the result is in [-1, MAX_VALUE); it is -1 exactly when the low 29 bits are the all-ones sentinel, and otherwise it is those low 29 bits |
| PackedEntry.GetAnchorOffset | flexmark-util/src/main/java/com/vladsch/flexmark/util/sequence/edit/SegmentTree.java:53-56 | the result is in 0..7, and it is 0 exactly when the top three bits are clear (0 <= word <= MAX_VALUE) |
| PackedEntry.AnchorOffsetIsTopBits | flexmark-util/src/main/java/com/vladsch/flexmark/util/sequence/edit/SegmentTree.java:53-56 | getAnchorOffset, despite its sign test, is the unsigned value of bits 29-31 |
| PackedEntry.AnchorOffsetIgnoresLowBits | flexmark-util/src/main/java/com/vladsch/flexmark/util/sequence/edit/SegmentTree.java:53-56 | two words with the same high part have the same anchor field, whatever their low 29 bits |
| PackedEntry.PackWordRoundTrip | flexmark-util/src/main/java/com/vladsch/flexmark/util/sequence/edit/SegmentTree.java:48-56 | decoding a packed word gives back the offset (the sentinel reads as -1) and every anchor distance 0..7 |
| SegmentTable.Size | flexmark-util/src/main/java/com/vladsch/flexmark/util/sequence/edit/SegmentTree.java:32-34 | the number of entries is half the array length, rounded down: the pairs fit in the array and at most one slot is left over |
| SegmentTable.AggrLength | flexmark-util/src/main/java/com/vladsch/flexmark/util/sequence/edit/SegmentTree.java:193-195 | entry pos's running total is the first slot of its pair, which lies inside the array; what the slot holds is stated by SegmentTable.WrittenEntryReadsBack (it reads back what setTreeData wrote) and SegmentLayout.EntryFor (in a built table, the logical length of all records up to the entry) |
| SegmentTable.ByteOffsetData | flexmark-util/src/main/java/com/vladsch/flexmark/util/sequence/edit/SegmentTree.java:197-199 | entry pos's packed word is the second slot of its pair, which lies inside the array; what the word holds is stated by SegmentTable.WrittenEntryReadsBack (it decodes to the offset and distance setTreeData wrote) and SegmentLayout.EntryFor (in a built table, the record's offset and anchor distance) |
| SegmentTable.ByteOffset | flexmark-util/src/main/java/com/vladsch/flexmark/util/sequence/edit/SegmentTree.java:201-203 | entry pos's byte offset is in [-1, MAX_VALUE): the low 29 bits of its word, or -1 exactly when those bits are the sentinel |
| SegmentTable.HasPreviousAnchor | flexmark-util/src/main/java/com/vladsch/flexmark/util/sequence/edit/SegmentTree.java:211-213 | an entry has a previous anchor exactly when its word has one of its top three bits set |
| SegmentTable.PreviousAnchorOffset | flexmark-util/src/main/java/com/vladsch/flexmark/util/sequence/edit/SegmentTree.java:215-217 | the offset pointed back to lies at most 7 bytes before the entry's own offset, and equals it exactly when there is no previous anchor |
| SegmentTable.GetPrevAnchor | flexmark-util/src/main/java/com/vladsch/flexmark/util/sequence/edit/SegmentTree.java:294-306 | an anchor is found exactly when hasPreviousAnchor holds; its offset is previousAnchorOffset and lies before the entry's own byte offset |
| SegmentTable.Scan | flexmark-util/src/main/java/com/vladsch/flexmark/util/sequence/edit/SegmentTree.java:219-243 | the reference lookup: nothing is found exactly when no entry of the range covers the index; otherwise the found entry lies in the range, covers the index and carries its start index |
| SegmentTable.CoverUnique | flexmark-util/src/main/java/com/vladsch/flexmark/util/sequence/edit/SegmentTree.java:230-239 | with nondecreasing running totals at most one entry covers an index, so a lookup's answer is determined |
| SegmentTable.ScanFindsCover | flexmark-util/src/main/java/com/vladsch/flexmark/util/sequence/edit/SegmentTree.java:234-238 | an entry that covers the index is the answer of any range that contains it, with its start index |
| SegmentTable.ScanNarrow | flexmark-util/src/main/java/com/vladsch/flexmark/util/sequence/edit/SegmentTree.java:145-146 | narrowing the range to a sub-range that keeps every covering entry leaves the answer unchanged |
| SegmentTable.ScanSkipThrough | flexmark-util/src/main/java/com/vladsch/flexmark/util/sequence/edit/SegmentTree.java:231-232 | when the index is at or past entry q's running total, the search may start after q |
| SegmentTable.ScanStopBefore | flexmark-util/src/main/java/com/vladsch/flexmark/util/sequence/edit/SegmentTree.java:235-236 | when the index is below entry q's start index, the search may stop before q |
| SegmentTable.ScanAtZero | flexmark-util/src/main/java/com/vladsch/flexmark/util/sequence/edit/SegmentTree.java:223 | the shortcut answer (0, 0) for index 0 is the true answer exactly when the first segment is non-empty |
| SegmentTable.ScanCoverage | flexmark-util/src/main/java/com/vladsch/flexmark/util/sequence/edit/SegmentTree.java:226-242 | over a whole non-empty monotone table some entry covers the index exactly when 0 <= index < the last running total |
| SegmentTable.GetSegmentAsWritten | flexmark-util/src/main/java/com/vladsch/flexmark/util/sequence/edit/SegmentTree.java:289-292 | getSegment(pos) as written keeps the position but hands on a start index that the segment itself does not cover |
| SegmentTable.GetSegmentAsWrittenMisplaced | flexmark-util/src/main/java/com/vladsch/flexmark/util/sequence/edit/SegmentTree.java:289-292 | as written, getSegment(pos) hands on a start index that lies outside the segment, so it never matches a lookup of an index the segment covers |
| SegmentTable.GetSegmentAsWrittenExample | flexmark-util/src/main/java/com/vladsch/flexmark/util/sequence/edit/SegmentTree.java:159-161 | on the table [2, 4], getSegment(0) as written reports start 2, where a lookup of index 0 reports start 0 |
| SegmentTable.GetSegment | flexmark-util/src/main/java/com/vladsch/flexmark/util/sequence/edit/SegmentTree.java:289-292 | the corrected getSegment keeps the position and starts the first segment at 0 |
| SegmentTable.GetSegmentMatchesLookup | flexmark-util/src/main/java/com/vladsch/flexmark/util/sequence/edit/SegmentTree.java:289-292 | the corrected getSegment(pos) is exactly what a lookup of every index its segment covers returns |
| SegmentTable.SetTreeData | flexmark-util/src/main/java/com/vladsch/flexmark/util/sequence/edit/SegmentTree.java:205-209 | the array afterwards is the old contents with slot 2*pos set to the running total and slot 2*pos+1 to the packed word, and nothing else changed |
| SegmentTable.WrittenEntryReadsBack | flexmark-util/src/main/java/com/vladsch/flexmark/util/sequence/edit/SegmentTree.java:205-217 | after the write, the entry reads back its running total, its offset (sentinel as -1) and its anchor distance, and hasPreviousAnchor holds exactly when that distance is positive; every other entry reads as before |
| SegmentTable.FindSegmentPos | flexmark-util/src/main/java/com/vladsch/flexmark/util/sequence/edit/SegmentTree.java:219-243 | index 0 from position 0 gives (0, 0); any other answer lies in the range, covers the index and carries its start index, even on an unsorted table; on a monotone table the answer is the scan's (found exactly when a covering entry exists) |
| SegmentLayout.ContentRecordFits | flexmark-util/src/main/java/com/vladsch/flexmark/util/sequence/edit/SegmentTree.java:338-344 | for a content record, the offset and the anchor distance build computes fit their fields, the distance is the byte length of a directly preceding anchor (else 0), and the record has a table slot |
| SegmentLayout.EntryAppended | flexmark-util/src/main/java/com/vladsch/flexmark/util/sequence/edit/SegmentTree.java:341-343 | writing content record k's entry into its slot extends a table holding the first k records' entries to the first k + 1 |
| SegmentLayout.TableOfUnique | flexmark-util/src/main/java/com/vladsch/flexmark/util/sequence/edit/SegmentTree.java:319-345 | the table description fixes every slot: two tables that both fit it are equal |
| SegmentLayout.TableOfNonNegative | flexmark-util/src/main/java/com/vladsch/flexmark/util/sequence/edit/SegmentTree.java:341-342 | every running total of a built table is non-negative |
| SegmentLayout.TableOfOrdered | flexmark-util/src/main/java/com/vladsch/flexmark/util/sequence/edit/SegmentTree.java:341-342 | the running totals of a built table never decrease from one entry to a later one |
| SegmentLayout.TableOfTotal | flexmark-util/src/main/java/com/vladsch/flexmark/util/sequence/edit/SegmentTree.java:338-346 | the last running total of a non-empty built table is the total logical length of the records (trailing anchors add nothing) |
| SegmentLayout.TableOfMonotone | flexmark-util/src/main/java/com/vladsch/flexmark/util/sequence/edit/SegmentTree.java:329-346 | a built table satisfies the search's monotonicity premise, and its last running total is the total logical length |
| SegmentLayout.TableOfOffsets | flexmark-util/src/main/java/com/vladsch/flexmark/util/sequence/edit/SegmentTree.java:330-342 | each content record's entry decodes to the bytes of every earlier record, anchors included (the sentinel as -1), and to its anchor distance |
| SegmentLayout.TableOfPrevAnchor | flexmark-util/src/main/java/com/vladsch/flexmark/util/sequence/edit/SegmentTree.java:294-306 | on a built table getPrevAnchor finds a record exactly when an anchor directly precedes the content record; it then points at that anchor's first byte, except for a content record at the sentinel offset MAX_VALUE, where it yields -1 minus the anchor's length |
| SegmentLayout.SentinelOffsetExample | flexmark-util/src/main/java/com/vladsch/flexmark/util/sequence/edit/SegmentTree.java:205-209 | as written, build admits records whose content record starts at MAX_VALUE; in their table that entry's offset reads -1 and getPrevAnchor yields -3 while the anchor starts at MAX_VALUE - 2 |
| SegmentLayout.PrevAnchorBelowSentinel | flexmark-util/src/main/java/com/vladsch/flexmark/util/sequence/edit/SegmentTree.java:338-348 | when build keeps every content record's offset below MAX_VALUE, every entry of a built table reads back its record's offset and getPrevAnchor yields exactly the start of the directly preceding anchor, or nothing |
| SegmentTrees.SegmentTree.constructor | flexmark-util/src/main/java/com/vladsch/flexmark/util/sequence/edit/SegmentTree.java:19-22 | the tree keeps the two buffers it is given |
| SegmentTrees.SegmentTree.FindSegmentIn | flexmark-util/src/main/java/com/vladsch/flexmark/util/sequence/edit/SegmentTree.java:77-151 | the hinted lookup over [startPos, endPos) returns exactly what the scan of that range returns |
| SegmentTrees.SegmentTree.FindSegmentAtEnds | flexmark-util/src/main/java/com/vladsch/flexmark/util/sequence/edit/SegmentTree.java:110-150 | the first-entry, last-entry and binary-search tail of findSegment returns what the scan of its range returns |
| SegmentTrees.SegmentTree.FindSegment | flexmark-util/src/main/java/com/vladsch/flexmark/util/sequence/edit/SegmentTree.java:72-75 | over the whole table, a segment is found exactly when 0 <= index < the total length, and it covers the index and carries its start index |
| SegmentTrees.SegmentTree.FindSegmentMatchesSearch | flexmark-util/src/main/java/com/vladsch/flexmark/util/sequence/edit/SegmentTree.java:67-75 | the hinted findSegment and the plain binary search findSegmentPos give the same position and start index, with or without a hint |
| SegmentTrees.SegmentTree.MeasureRecords | flexmark-util/src/main/java/com/vladsch/flexmark/util/sequence/edit/SegmentTree.java:309-317 | the sizing pass yields the total byte length and the number of content records |
| SegmentTrees.SegmentTree.Build | flexmark-util/src/main/java/com/vladsch/flexmark/util/sequence/edit/SegmentTree.java:308-351 | build allocates fresh buffers: a table that is exactly the one TableOf describes (one entry per content record) and a byte buffer the size of all records |

## Left out

- The segment codec (`Segment.getSegment`, `getSegType`, `getSegByteLength`,
  `addSegBytes`, `SegType.fromTypeMask`) and `BasedSequence` are not part of
  this model. A record is the triple `Seg(isAnchor, byteLen, logicalLen)`,
  and `segmentBytes` is only sized, never filled. The type read back from
  the written bytes (line 333) is taken to be the type the sizing pass saw
  (line 312).
- Lookups return `TreePos(pos, startIndex)` where the source builds a
  `Segment` from those two values. The `iterations` counter of `SegTreePos`
  is left out, because its `equals` ignores it.
- The `System.out.println` calls on fast-path hits (lines 89, 102, 117, 137)
  are debug output and are left out.
- `toString` and `DelimitedBuilder` (lines 168-190) are diagnostic rendering
  through the codec and are left out.
- The instance readers (`size`, `aggrLength`, `byteOffsetData`, `byteOffset`,
  `hasPreviousAnchor`, `previousAnchorOffset`, `findSegmentPos(index)`,
  `getPrevAnchor(pos)`) are the same functions over the class's own
  `treeData`, so only the static forms are modelled. The static
  `findSegment(index, treeData, …)` at lines 245-252 is `findSegmentPos`
  followed by the codec.
- SegmentTable.GetPrevAnchor: returns the anchor's byte offset rather than
  the decoded record. The `assert anchor.isAnchor()` at line 301 belongs to
  the codec.
- SegmentTrees.SegmentTree.FindSegmentIn: requires a non-empty range and a
  hint that is the true answer of an earlier lookup inside it. It also
  requires that a forward hint at the second-to-last entry only be used for
  an index inside the last entry. Outside these cases the source's answer
  depends on entries outside [startPos, endPos): it throws when it reads past
  the table, may return an entry outside the range, and otherwise returns
  null. Some of the excluded inputs are answered correctly: a forward hint at
  or past the range's end returns null at line 85, and a forward hint at
  the second-to-last entry with an index past the last entry reads entry
  endPos at line 112 and then searches an empty range. Over the whole
  table with 0 <= index < the total length, the last condition always holds.
  The `assert` at line 84 becomes the requirement that the index lie outside
  the hint.
- SegmentTrees.SegmentTree.FindSegment: requires a non-empty table, because
  line 112 reads entry 0 of an empty table and throws.
- SegmentTrees.SegmentTree.FindSegmentMatchesSearch: for index 0 it
  requires the first segment to be non-empty. The binary search answers
  (0, 0) there without looking (see SegmentTable.ScanAtZero).
- SegmentTable.SetTreeData: requires 0 <= byteOffset and
  0 <= prevAnchorOffset <= 7 besides the `byteOffset <= MAX_VALUE` of the
  `assert` at line 206. The source accepts other values and then corrupts
  the anchor field through `|` and `<< 29`; build, its only caller, passes
  values in these ranges under the preconditions stated for Build below.
- SegmentTrees.SegmentTree.Build: requires well-formed records, every
  content offset at most MAX_VALUE, every anchor distance at most 7, and
  totals that fit in an int. Beyond the `assert` at line 206, the source
  does not check these. It would silently wrap the sums and `anc << 29`.
  The model states them as preconditions rather than modelling the
  corruption.
- Running totals are modelled as nondecreasing rather than strictly
  increasing. The searches need no more than that, and empty content
  segments then keep the same total.
- The anchor field is modelled over its full 3-bit range 0..7. The
  narrower 1..5 range of real anchor records comes from the codec and is
  not modelled.
- The commented-out trailing `setTreeData` call at line 348 is not code
  and is not modelled.
- For an empty table, `findSegmentPos(0, treeData, 0, 0)` answers (0, 0) as
  written, not "not found". FindSegmentPos states that behaviour, and the
  whole-table lookup requires a non-empty table.

## Findings

| source | as written | input that shows it | evidently intended | confidence | as-written member | corrected member |
|---|---|---|---|---|---|---|
| flexmark-util/src/main/java/com/vladsch/flexmark/util/sequence/edit/SegmentTree.java:289-292 | `getSegment(pos, …)` passes `aggrLength(pos)`, the index where segment `pos` ends, as the segment's start index (the instance form at lines 159-161 does the same) | table [2, 4] (two segments of length 2), `getSegment(0)`: start index 2, while `findSegmentPos(0)` reports start 0 | pass the start index, `pos == 0 ? 0 : aggrLength(pos - 1)`, as every lookup in `findSegment` does | not executed; medium: the codec's parameter list is not part of this model | SegmentTable.GetSegmentAsWrittenMisplaced | SegmentTable.GetSegmentMatchesLookup |
| flexmark-util/src/main/java/com/vladsch/flexmark/util/sequence/edit/SegmentTree.java:338-348 | build bounds a content record's offset only through `setTreeData`'s `assert byteOffset <= MAX_VALUE` (line 206), so it accepts a content record that starts at MAX_VALUE, the value reserved for "no offset" | records [content of 2^29 - 3 bytes, anchor of 2 bytes, content of 1 byte]: the second entry's offset reads -1 and getPrevAnchor yields -3, while the anchor starts at MAX_VALUE - 2 | build should keep every content record's offset below MAX_VALUE, so that every stored offset reads back; the `<=` in setTreeData's assert is deliberate, since the commented-out trailing call at line 348 passes MAX_VALUE as an end sentinel, and build has no check of its own | not executed; medium: the 2^29-byte buffer this needs may never occur in practice | SegmentLayout.SentinelOffsetExample | SegmentLayout.PrevAnchorBelowSentinel |
