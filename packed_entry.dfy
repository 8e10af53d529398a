/**
 * The packed second word of a segment-tree entry.
 *
 * A Java `int` holds two fields: the low 29 bits are the byte offset of the
 * segment's record in the byte buffer, the top 3 bits the distance back to an
 * anchor record that directly precedes it. Words are Java `int` values, so
 * they are modelled as mathematical integers in [-2^31, 2^31).
 *
 * Bit operations are written out arithmetically. For a two's-complement
 * 32-bit value `w`, Dafny's Euclidean `w % 2^k` is exactly `w & (2^k - 1)`
 * read as an unsigned number, so:
 *   w & MAX_VALUE        == w % 2^29
 *   w & F_ANCHOR_FLAGS   == w - w % 2^29          (a signed multiple of 2^29)
 *   w & F_ANCHOR_OFFSET  == w % 2^31 - w % 2^29   (bits 29 and 30)
 *   (x << 29) on an int  == Wrap(x * 2^29)
 */
module PackedEntry {

  const INT_MIN: int := -0x8000_0000
  const INT_MAX: int := 0x7fff_ffff

  /** A value a Java `int` can hold. */
  predicate IsInt(x: int) {
    INT_MIN <= x <= INT_MAX
  }

  const TWO_29: int := 0x2000_0000
  const TWO_31: int := 0x8000_0000
  const TWO_32: int := 0x1_0000_0000

  /** Integer.MAX_VALUE >> 2: the low 29 bits; as an offset it is the "no offset" sentinel. */
  const MAX_VALUE: int := INT_MAX / 4
  /** ~MAX_VALUE: the top three bits, as a signed int. */
  const F_ANCHOR_FLAGS: int := -MAX_VALUE - 1
  /** Integer.MAX_VALUE & ~MAX_VALUE: bits 29 and 30. */
  const F_ANCHOR_OFFSET: int := INT_MAX - MAX_VALUE

  /** Java's narrowing of an integer to its low 32 bits, read as a signed int. */
  function Wrap(u: int): (r: int)
    ensures IsInt(r)
    ensures (r - u) % TWO_32 == 0
    ensures IsInt(u) ==> r == u
  {
    (u - INT_MIN) % TWO_32 + INT_MIN
  }

  /**
   * setTreeData's second word: `byteOffset | (anc == 0 ? 0 : anc << 29)`.
   * The `|` is an addition because the shifted anchor has its low 29 bits
   * clear and the offset fits in them.
   */
  function PackWord(byteOffset: int, anc: int): (w: int)
    requires 0 <= byteOffset <= MAX_VALUE
    requires 0 <= anc <= 7
    ensures IsInt(w)
    ensures w % TWO_29 == byteOffset
  {
    byteOffset + (if anc == 0 then 0 else Wrap(anc * TWO_29))
  }

  /** getByteOffset: the low 29 bits, with the all-ones sentinel read as -1. */
  function GetByteOffset(byteOffsetData: int): (r: int)
    ensures -1 <= r < MAX_VALUE
    ensures r == -1 <==> byteOffsetData % TWO_29 == MAX_VALUE
    ensures r != -1 ==> r == byteOffsetData % TWO_29
  {
    var offset := byteOffsetData % (MAX_VALUE + 1);
    if offset == MAX_VALUE then -1 else offset
  }

  /**
   * getAnchorOffset: the top three bits as an unsigned number. The sign bit
   * contributes 4 (Java tests it as `anchorBits < 0`), bits 29-30 the rest.
   */
  function GetAnchorOffset(byteOffsetData: int): (r: int)
    requires IsInt(byteOffsetData)
    ensures 0 <= r <= 7
    ensures r == 0 <==> 0 <= byteOffsetData <= MAX_VALUE
  {
    // the word masked with F_ANCHOR_FLAGS: its top three bits, as a signed multiple of 2^29
    var anchorBits := byteOffsetData - byteOffsetData % (MAX_VALUE + 1);
    if anchorBits != 0 then
      // the sign bit gives 4; the word masked with F_ANCHOR_OFFSET (bits 29-30), shifted down, the rest
      (if anchorBits < 0 then 4 else 0) + (byteOffsetData % TWO_31 - byteOffsetData % TWO_29) / TWO_29
    else
      0
  }

  /** The top three bits, read as an unsigned 32-bit word would give them. */
  function TopBits(w: int): int
    requires IsInt(w)
  {
    (w + TWO_32) % TWO_32 / TWO_29
  }

  /** The unsigned top bits of a word made of a signed high part `k` and low bits `low`. */
  lemma TopBitsOfParts(k: int, low: int)
    requires -4 <= k < 4 && 0 <= low < TWO_29
    ensures IsInt(k * TWO_29 + low)
    ensures TopBits(k * TWO_29 + low) == if k < 0 then k + 8 else k
  {
    var u := (if k < 0 then k + 8 else k) * TWO_29 + low;
    assert 0 <= u < TWO_32;
    assert (k * TWO_29 + low + TWO_32) % TWO_32 == u;
  }

  /**
   * getAnchorOffset reads only the top three bits: it is the unsigned value
   * of bits 29-31, whatever the low 29 bits hold.
   */
  lemma AnchorOffsetIsTopBits(w: int)
    requires IsInt(w)
    ensures GetAnchorOffset(w) == TopBits(w)
  {
    var k := (w - w % TWO_29) / TWO_29;
    assert w == k * TWO_29 + w % TWO_29;
    assert -4 <= k < 4;
    TopBitsOfParts(k, w % TWO_29);
    if k < 0 {
      assert w % TWO_31 == (k + 4) * TWO_29 + w % TWO_29;
    } else {
      assert w % TWO_31 == k * TWO_29 + w % TWO_29;
    }
  }

  /** Two words that differ only in their low 29 bits have the same anchor field. */
  lemma AnchorOffsetIgnoresLowBits(w1: int, w2: int)
    requires IsInt(w1) && IsInt(w2)
    requires w1 / TWO_29 == w2 / TWO_29
    ensures GetAnchorOffset(w1) == GetAnchorOffset(w2)
  {
    AnchorOffsetIsTopBits(w1);
    AnchorOffsetIsTopBits(w2);
    TopBitsOfParts(w1 / TWO_29, w1 % TWO_29);
    TopBitsOfParts(w2 / TWO_29, w2 % TWO_29);
  }

  /**
   * Round trip of the packed word: the offset comes back unless it is the
   * sentinel, and the anchor distance comes back for every value 0..7.
   */
  lemma PackWordRoundTrip(byteOffset: int, anc: int)
    requires 0 <= byteOffset <= MAX_VALUE
    requires 0 <= anc <= 7
    ensures GetByteOffset(PackWord(byteOffset, anc)) == (if byteOffset == MAX_VALUE then -1 else byteOffset)
    ensures GetAnchorOffset(PackWord(byteOffset, anc)) == anc
  {
    var w := PackWord(byteOffset, anc);
    var k := if anc < 4 then anc else anc - 8;
    assert w == k * TWO_29 + byteOffset by {
      if anc == 0 {
      } else if anc < 4 {
        assert Wrap(anc * TWO_29) == anc * TWO_29;
      } else {
        assert Wrap(anc * TWO_29) == anc * TWO_29 - TWO_32;
      }
    }
    AnchorOffsetIsTopBits(w);
    TopBitsOfParts(k, byteOffset);
  }
}
