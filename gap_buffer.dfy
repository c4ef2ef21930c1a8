/**
  Gap-buffer addressing and character-boundary stepping of a buffer's text.

  The text of a buffer lives in one storage array.  Byte positions are
  1-origin; the bytes of positions BEG_BYTE .. gptByte - 1 sit at the start
  of the array, then come gapSize unused bytes (the gap), then the bytes of
  positions gptByte .. zByte - 1, and finally one guard byte.  Addresses are
  modelled as offsets from the start of the storage array.
 */
module GapBuffer {

  /** First byte position of every buffer. */
  const BEG_BYTE: int := 1

  /** The addressing fields of a buffer's text, and its modification counters. */
  datatype BufferText = BufferText(
    storage: seq<bv8>,
    gptByte: int,     // byte position of the gap start
    gapSize: int,     // number of unused bytes in the gap
    zByte: int,       // one past the last byte position of the text
    modiff: int,      // number of modifications made to the buffer
    saveModiff: int   // value of modiff when the buffer was last saved
  )

  /** The byte length a multibyte head byte announces: always at least one. */
  type ByteLength = n: int | 1 <= n witness 1

  /** The layout every text keeps: the gap inside the content, one guard byte at the end. */
  ghost predicate ValidText(t: BufferText)
  {
    && BEG_BYTE <= t.gptByte <= t.zByte
    && 0 <= t.gapSize
    && |t.storage| == t.zByte - BEG_BYTE + t.gapSize + 1
  }

  // ---------------------------------------------------------------------
  // Addresses

  /** Offset of the first byte of the gap. */
  function GapStartAddr(t: BufferText): (r: int)
    ensures r == ByteIndex(t, t.gptByte - 1) + 1
  {
    t.gptByte - BEG_BYTE
  }

  /** Offset of the first byte after the gap. */
  function GapEndAddr(t: BufferText): (r: int)
    ensures r - GapStartAddr(t) == t.gapSize
    ensures r == ByteIndex(t, t.gptByte)
  {
    t.gptByte + t.gapSize - BEG_BYTE
  }

  /** Offset of the guard byte that follows the last byte of the text. */
  function ZAddr(t: BufferText): (r: int)
    ensures t.gptByte <= t.zByte ==> r == ByteIndex(t, t.zByte)
    ensures t.gptByte <= t.zByte ==> GapEndAddr(t) <= r
    ensures ValidText(t) ==> r == |t.storage| - 1
  {
    t.gapSize + t.zByte - BEG_BYTE
  }

  /** Offset of byte position n, taken without any correction for the gap. */
  function BytePosAddr(t: BufferText, n: int): (r: int)
    ensures n < t.gptByte ==> r == ByteIndex(t, n)
    ensures n >= t.gptByte ==> r == ByteIndex(t, n) - t.gapSize
  {
    n - BEG_BYTE
  }

  /** The amount to add to an offset for byte position pos: the gap size at or past the gap. */
  function PosWithinRange(t: BufferText, pos: int): (r: int)
    ensures pos >= t.gptByte ==> r == t.gapSize
    ensures pos < t.gptByte ==> r == 0
  {
    if pos >= t.gptByte then t.gapSize else 0
  }

  /** The storage index of byte position n, skipping the gap. */
  function ByteIndex(t: BufferText, n: int): (r: int)
    ensures r < t.gptByte - BEG_BYTE || t.gptByte - BEG_BYTE + t.gapSize <= r
    ensures 0 <= t.gapSize ==> (n < t.gptByte <==> r < t.gptByte - BEG_BYTE)
  {
    n - BEG_BYTE + PosWithinRange(t, n)
  }

  /** Byte position n lies inside the storage array once the gap is skipped. */
  predicate ValidByteIndex(t: BufferText, n: int)
  {
    0 <= ByteIndex(t, n) < |t.storage|
  }

  /** Two positions in order keep their storage indices in order. */
  lemma ByteIndexMonotonic(t: BufferText, p: int, q: int)
    requires 0 <= t.gapSize && p < q
    ensures ByteIndex(t, p) < ByteIndex(t, q)
  {
  }

  /** Every position of a valid text, and the position zByte of its guard byte, has a storage index. */
  lemma ValidTextIndices(t: BufferText, n: int)
    requires ValidText(t) && BEG_BYTE <= n <= t.zByte
    ensures ValidByteIndex(t, n)
  {
  }

  // ---------------------------------------------------------------------
  // Reading bytes and characters

  /** The byte at byte position pos, read through the gap-aware index. */
  function BufByteAddress(t: BufferText, pos: int): (r: bv8)
    requires ValidByteIndex(t, pos)
    ensures r == FetchByte(t, pos)
  {
    t.storage[pos - BEG_BYTE + PosWithinRange(t, pos)]
  }

  /** The byte at byte position n. */
  function FetchByte(t: BufferText, n: int): (r: bv8)
    requires ValidByteIndex(t, n)
    ensures r == t.storage[ByteIndex(t, n)]
    ensures n < t.gptByte ==> r == t.storage[BytePosAddr(t, n)]
  {
    var offset := if n >= t.gptByte then t.gapSize else 0;
    t.storage[offset + n - BEG_BYTE]
  }

  /**
    The character code at byte position n of a multibyte buffer.  The
    decoder stringChar stands for the multibyte decoding routine, given the
    storage and the index it starts reading at.
   */
  function FetchMultibyteChar(t: BufferText, stringChar: (seq<bv8>, int) -> int, n: int): (r: int)
    ensures 0 <= t.gptByte ==> r == stringChar(t.storage, ByteIndex(t, n))
  {
    var offset := if n >= t.gptByte && n >= 0 then t.gapSize else 0;
    stringChar(t.storage, offset + n - BEG_BYTE)
  }

  // ---------------------------------------------------------------------
  // Character boundaries

  /** The next character boundary after pos: pos plus the length its head byte announces. */
  function IncPos(t: BufferText, lengthByHead: bv8 -> ByteLength, pos: int): (r: int)
    requires ValidByteIndex(t, pos)
    ensures r == pos + lengthByHead(FetchByte(t, pos))
    ensures r > pos
  {
    var chp := BufByteAddress(t, pos);
    pos + lengthByHead(chp)
  }

  /** The byte stored at the end of the gap (the byte of position gptByte) is a head byte. */
  predicate GapEndIsHead(t: BufferText, charHead: bv8 -> bool)
  {
    ValidByteIndex(t, t.gptByte) && charHead(t.storage[ByteIndex(t, t.gptByte)])
  }

  /**
    r is the previous character boundary of pos, stated over positions: the
    byte at r is a head byte and no byte strictly between r and pos is one.
   */
  ghost predicate PrevBoundary(t: BufferText, charHead: bv8 -> bool, pos: int, r: int)
  {
    && r < pos
    && ValidByteIndex(t, r)
    && charHead(FetchByte(t, r))
    && forall q :: r < q < pos ==> ValidByteIndex(t, q) && !charHead(FetchByte(t, q))
  }

  /**
    Step back from posByte to the previous character boundary.  The scan
    starts at the gap-aware index of posByte - 1 and then walks the raw
    storage downwards one byte at a time, without skipping the gap again,
    until it meets a head byte.
   */
  method DecPos(t: BufferText, charHead: bv8 -> bool, posByte: int) returns (newPos: int)
    requires ValidByteIndex(t, posByte - 1)
    requires exists k :: 0 <= k <= ByteIndex(t, posByte - 1) && charHead(t.storage[k])
    ensures newPos <= posByte - 1
    ensures 0 <= ByteIndex(t, posByte - 1) - (posByte - 1 - newPos)
    ensures charHead(t.storage[ByteIndex(t, posByte - 1) - (posByte - 1 - newPos)])
    ensures forall j :: ByteIndex(t, posByte - 1) - (posByte - 1 - newPos) < j <= ByteIndex(t, posByte - 1)
                        ==> !charHead(t.storage[j])
    ensures charHead(t.storage[ByteIndex(t, posByte - 1)]) ==> newPos == posByte - 1
    ensures posByte - 1 < t.gptByte || GapEndIsHead(t, charHead) ==> PrevBoundary(t, charHead, posByte, newPos)
  {
    newPos := posByte - 1;
    var offset := newPos - BEG_BYTE;
    offset := offset + PosWithinRange(t, newPos);
    var chp := offset;
    ghost var start := chp;
    ghost var k :| 0 <= k <= start && charHead(t.storage[k]);
    while !charHead(t.storage[chp])
      invariant k <= chp <= start
      invariant newPos == posByte - 1 - (start - chp)
      invariant forall j :: chp < j <= start ==> !charHead(t.storage[j])
      invariant posByte - 1 >= t.gptByte && GapEndIsHead(t, charHead) ==> newPos >= t.gptByte
      decreases chp
    {
      chp := chp - 1;
      newPos := newPos - 1;
    }
    if posByte - 1 < t.gptByte || GapEndIsHead(t, charHead) {
      forall q | newPos <= q <= posByte - 1
        ensures ByteIndex(t, q) == chp + (q - newPos)
      {
      }
    }
  }

  /** The previous boundary of a position is unique. */
  lemma PrevBoundaryUnique(t: BufferText, charHead: bv8 -> bool, pos: int, r1: int, r2: int)
    requires PrevBoundary(t, charHead, pos, r1) && PrevBoundary(t, charHead, pos, r2)
    ensures r1 == r2
  {
  }

  // ---------------------------------------------------------------------
  // Well-formed multibyte text

  /**
    The character whose head byte is at position q spans the bytes that its
    head announces: it ends inside the text, its other bytes are not head
    bytes, and the next character (if any) starts with a head byte.
   */
  ghost predicate CharStartsAt(t: BufferText, charHead: bv8 -> bool, lengthByHead: bv8 -> ByteLength, q: int)
    requires ValidText(t) && BEG_BYTE <= q < t.zByte
  {
    var n := lengthByHead(FetchByte(t, q));
    && q + n <= t.zByte
    && (forall j :: q < j < q + n ==> !charHead(FetchByte(t, j)))
    && (q + n < t.zByte ==> charHead(FetchByte(t, q + n)))
  }

  /** Text made of whole characters, with the gap at a character boundary. */
  ghost predicate WellFormed(t: BufferText, charHead: bv8 -> bool, lengthByHead: bv8 -> ByteLength)
  {
    && ValidText(t)
    && (BEG_BYTE < t.zByte ==> charHead(FetchByte(t, BEG_BYTE)))
    && (t.gptByte < t.zByte ==> charHead(FetchByte(t, t.gptByte)))
    && forall q :: BEG_BYTE <= q < t.zByte && charHead(FetchByte(t, q)) ==> CharStartsAt(t, charHead, lengthByHead, q)
  }

  /** b is a character boundary: the end of the text or a head byte inside it. */
  ghost predicate IsBoundary(t: BufferText, charHead: bv8 -> bool, b: int)
    requires ValidText(t)
  {
    b == t.zByte || (BEG_BYTE <= b < t.zByte && charHead(FetchByte(t, b)))
  }

  /** In well-formed text the gap sits at a character boundary, so a backward scan never enters it. */
  lemma WellFormedGapEndIsHead(t: BufferText, charHead: bv8 -> bool, lengthByHead: bv8 -> ByteLength, pos: int)
    requires WellFormed(t, charHead, lengthByHead)
    requires pos <= t.zByte
    ensures pos - 1 < t.gptByte || GapEndIsHead(t, charHead)
  {
    if t.gptByte <= pos - 1 {
      assert t.gptByte < t.zByte;
      assert FetchByte(t, t.gptByte) == t.storage[ByteIndex(t, t.gptByte)];
    }
  }

  /** A boundary after the start has a head byte before it, as the backward scan needs. */
  lemma WellFormedHasHeadBelow(t: BufferText, charHead: bv8 -> bool, lengthByHead: bv8 -> ByteLength, pos: int)
    requires WellFormed(t, charHead, lengthByHead)
    requires BEG_BYTE < pos <= t.zByte
    ensures ValidByteIndex(t, pos - 1)
    ensures exists k :: 0 <= k <= ByteIndex(t, pos - 1) && charHead(t.storage[k])
  {
    assert FetchByte(t, BEG_BYTE) == t.storage[ByteIndex(t, BEG_BYTE)];
    assert 0 <= ByteIndex(t, BEG_BYTE) <= ByteIndex(t, pos - 1) by {
      if BEG_BYTE < pos - 1 { ByteIndexMonotonic(t, BEG_BYTE, pos - 1); }
    }
  }

  /** Stepping forward from the previous boundary of b comes back to b. */
  lemma IncPosAfterPrevBoundary(t: BufferText, charHead: bv8 -> bool, lengthByHead: bv8 -> ByteLength, b: int, r: int)
    requires WellFormed(t, charHead, lengthByHead)
    requires BEG_BYTE < b <= t.zByte && IsBoundary(t, charHead, b)
    requires PrevBoundary(t, charHead, b, r)
    ensures IncPos(t, lengthByHead, r) == b
  {
    assert BEG_BYTE <= r;
    assert CharStartsAt(t, charHead, lengthByHead, r);
  }

  /** The character that starts at r ends at the boundary whose previous boundary is r. */
  lemma PrevBoundaryOfIncPos(t: BufferText, charHead: bv8 -> bool, lengthByHead: bv8 -> ByteLength, r: int)
    requires WellFormed(t, charHead, lengthByHead)
    requires BEG_BYTE <= r < t.zByte && charHead(FetchByte(t, r))
    ensures IncPos(t, lengthByHead, r) <= t.zByte
    ensures IsBoundary(t, charHead, IncPos(t, lengthByHead, r))
    ensures PrevBoundary(t, charHead, IncPos(t, lengthByHead, r), r)
  {
    assert CharStartsAt(t, charHead, lengthByHead, r);
  }
}
