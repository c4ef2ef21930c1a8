/** Small concrete buffers on which the boundary operations are worked out. */
module Scenarios {
  import opened GapBuffer

  /** Every byte is a head byte and announces a one-byte character: unibyte text. */
  function SingleByteHead(b: bv8): bool { true }
  function SingleByteLength(b: bv8): ByteLength { 1 }

  /** A head byte is any byte that is not of the form 10xxxxxx; 1110xxxx announces three bytes. */
  function HeadByte(b: bv8): bool { b & 0xC0 != 0x80 }
  function LengthByHead(b: bv8): ByteLength
  {
    if b & 0x80 == 0 then 1 else if b & 0x20 == 0 then 2 else if b & 0x10 == 0 then 3 else 4
  }

  /** "abc" with the gap at its end: byte positions 1 .. 4, storage of three bytes and the guard byte. */
  lemma SingleByteAbc()
    ensures var t := BufferText([97, 98, 99, 0], 4, 0, 4, 0, 0);
            && WellFormed(t, SingleByteHead, SingleByteLength)
            && IncPos(t, SingleByteLength, 1) == 2
            && PrevBoundary(t, SingleByteHead, 2, 1)
  {
    var t := BufferText([97, 98, 99, 0], 4, 0, 4, 0, 0);
    PrevBoundaryOfIncPos(t, SingleByteHead, SingleByteLength, 1);
  }

  /**
    "abcd" followed by a three-byte character at byte position 5, with a
    two-byte gap after "ab": stepping over the character moves from 5 to 8,
    and stepping back from 8 returns to 5.
   */
  lemma ThreeByteCharacter()
    ensures var t := BufferText([97, 98, 0, 0, 99, 100, 0xE3, 0x81, 0x82, 0], 3, 2, 8, 0, 0);
            && IncPos(t, LengthByHead, 5) == 8
            && PrevBoundary(t, HeadByte, 8, 5)
  {
    var t := BufferText([97, 98, 0, 0, 99, 100, 0xE3, 0x81, 0x82, 0], 3, 2, 8, 0, 0);
    assert FetchByte(t, 5) == 0xE3;
    assert FetchByte(t, 6) == 0x81 && FetchByte(t, 7) == 0x82;
  }

  /** Stepping back from byte position 2 of "abc" with DecPos lands on position 1. */
  method StepBackInAbc() returns (r: int)
    ensures r == 1
  {
    var t := BufferText([97, 98, 99, 0], 4, 0, 4, 0, 0);
    assert SingleByteHead(t.storage[0]);
    r := DecPos(t, SingleByteHead, 2);
    SingleByteAbc();
    PrevBoundaryUnique(t, SingleByteHead, 2, r, 1);
  }

  /** Stepping back from byte position 8 with DecPos skips the three-byte character and lands on position 5. */
  method StepBackOverThreeByteCharacter() returns (r: int)
    ensures r == 5
  {
    var t := BufferText([97, 98, 0, 0, 99, 100, 0xE3, 0x81, 0x82, 0], 3, 2, 8, 0, 0);
    assert HeadByte(t.storage[6]);
    assert GapEndIsHead(t, HeadByte);
    r := DecPos(t, HeadByte, 8);
    ThreeByteCharacter();
    PrevBoundaryUnique(t, HeadByte, 8, r, 5);
  }
}
