/**
  The buffer object: its point and narrowing fields, its per-buffer
  local-variable flags, the heads of its two overlay chains, and the free
  functions that read them.
 */
module Buffers {
  import opened Wrappers
  import opened GapBuffer
  import opened Overlays

  /** A C `char`. */
  newtype int8 = x: int | -128 <= x < 128

  /** Why an access to the local-flag vector panics. */
  datatype FlagPanic =
    | InvalidIndex          // the explicit check against last_per_buffer_idx
    | IndexOutOfBounds      // the bounds check on the fixed-size flag array itself

  /** The outcome of validate_region's range check. */
  datatype RegionCheck = InRange | ArgsOutOfRange(start: int, stop: int)

  class Buffer {
    var text: BufferText
    var enableMultibyteCharacters: bool
    var pt: int
    var ptByte: int
    var begv: int
    var begvByte: int
    var zv: int
    var zvByte: int
    /** Nonzero at slot idx when the per-buffer variable of that slot has a local value here. */
    const localFlags: array<int8>
    var overlaysBefore: Option<OverlayId>
    var overlaysAfter: Option<OverlayId>

    /**
      A fixture for the operations below, not a model of buffer creation: a
      buffer over text with flagSlots local-flag slots, all clear, no
      narrowing and no overlays.
     */
    constructor (text: BufferText, multibyte: bool, flagSlots: nat)
      ensures this.text == text && enableMultibyteCharacters == multibyte
      ensures localFlags.Length == flagSlots && fresh(localFlags)
      ensures forall i :: 0 <= i < flagSlots ==> localFlags[i] == 0
      ensures overlaysBefore == None && overlaysAfter == None
    {
      this.text := text;
      enableMultibyteCharacters := multibyte;
      pt, ptByte := BEG_BYTE, BEG_BYTE;
      begv, begvByte := BEG_BYTE, BEG_BYTE;
      zv, zvByte := text.zByte, text.zByte;
      localFlags := new int8[flagSlots](_ => 0);
      overlaysBefore, overlaysAfter := None, None;
    }

    /** The character at byte position n: decoded when multibyte characters are enabled, otherwise the byte widened. */
    function FetchChar(stringChar: (seq<bv8>, int) -> int, n: int): (r: int)
      reads this
      requires ValidByteIndex(text, n)
      ensures !enableMultibyteCharacters ==> r == FetchByte(text, n) as int && 0 <= r < 256
      ensures enableMultibyteCharacters && 0 <= text.gptByte ==> r == stringChar(text.storage, ByteIndex(text, n))
    {
      if enableMultibyteCharacters then FetchMultibyteChar(text, stringChar, n) else FetchByte(text, n) as int
    }

    method SetPtBoth(charpos: int, byte: int)
      modifies this`pt, this`ptByte
      ensures pt == charpos && ptByte == byte
    {
      pt := charpos;
      ptByte := byte;
    }

    method SetBegvBoth(charpos: int, byte: int)
      modifies this`begv, this`begvByte
      ensures begv == charpos && begvByte == byte
    {
      begv := charpos;
      begvByte := byte;
    }

    method SetZvBoth(charpos: int, byte: int)
      modifies this`zv, this`zvByte
      ensures zv == charpos && zvByte == byte
    {
      zv := charpos;
      zvByte := byte;
    }

    /**
      Whether the per-buffer variable of slot idx has a local value in this
      buffer; lastPerBufferIdx is the number of registered slots.
     */
    function ValueP(idx: int, lastPerBufferIdx: nat): (r: Result<bool, FlagPanic>)
      reads localFlags
      ensures r == Failure(InvalidIndex) <==> idx < 0 || idx >= lastPerBufferIdx
      ensures r == Failure(IndexOutOfBounds) <==> 0 <= idx < lastPerBufferIdx && idx >= localFlags.Length
      ensures r.Success? ==> 0 <= idx < localFlags.Length && (r.value <==> localFlags[idx] != 0)
    {
      if idx < 0 || idx >= lastPerBufferIdx then Failure(InvalidIndex)
      else if idx >= localFlags.Length then Failure(IndexOutOfBounds)
      else Success(localFlags[idx] != 0)
    }

    /** Record in slot idx whether the per-buffer variable has a local value (val nonzero) here. */
    method SetPerBufferValueP(idx: nat, val: int8, lastPerBufferIdx: nat) returns (r: Result<(), FlagPanic>)
      modifies localFlags
      ensures r == Failure(InvalidIndex) <==> idx >= lastPerBufferIdx
      ensures r == Failure(IndexOutOfBounds) <==> idx < lastPerBufferIdx && idx >= localFlags.Length
      ensures r.Failure? ==> localFlags[..] == old(localFlags[..])
      ensures r.Success? ==> localFlags[..] == old(localFlags[..])[idx := val]
      ensures r.Success? ==> ValueP(idx, lastPerBufferIdx) == Success(val != 0)
    {
      if idx >= lastPerBufferIdx {
        return Failure(InvalidIndex);
      }
      if idx >= localFlags.Length {
        return Failure(IndexOutOfBounds);
      }
      localFlags[idx] := val;
      r := Success(());
    }
  }

  /** The text was modified since it was last read or saved: its save tick is behind its modification tick. */
  predicate BufferModifiedP(t: BufferText)
  {
    t.saveModiff < t.modiff
  }

  /**
    Recording the current tick as the save tick makes text unmodified, and
    one modification after a save makes it modified again.
   */
  lemma BufferModifiedTicks(t: BufferText)
    ensures !BufferModifiedP(t.(saveModiff := t.modiff))
    ensures t.saveModiff <= t.modiff ==> BufferModifiedP(t.(modiff := t.modiff + 1))
    ensures BufferModifiedP(t.(saveModiff := t.modiff).(modiff := t.modiff + 1))
  {
  }

  /**
    Order the region b .. e and check it against the accessible part
    begv .. zv of buf.  The ordered values are written back even when the
    range check fails; the failure reports the arguments as they came.
   */
  method ValidateRegion(buf: Buffer, b: int, e: int) returns (b': int, e': int, check: RegionCheck)
    ensures b' <= e' && multiset{b', e'} == multiset{b, e}
    ensures b <= e ==> b' == b && e' == e
    ensures check == InRange <==> buf.begv <= b' && e' <= buf.zv
    ensures check != InRange ==> check == ArgsOutOfRange(b, e)
  {
    var start, stop := b, e;
    var beg, end := start, stop;
    if beg > end {
      beg, end := end, beg;
    }
    b', e' := beg, end;
    var begv, zv := buf.begv, buf.zv;
    if !(begv <= beg && end <= zv) {
      return b', e', ArgsOutOfRange(start, stop);
    }
    check := InRange;
  }

  /**
    Copies of buf's two overlay chains, before and after the overlay
    centre: each is folded into a reversed list and then reversed back.
   */
  method OverlayLists(buf: Buffer, arena: seq<Overlay>, ghost beforeChain: seq<OverlayId>, ghost afterChain: seq<OverlayId>)
    returns (before: seq<OverlayId>, after: seq<OverlayId>)
    requires IsChain(arena, buf.overlaysBefore, beforeChain)
    requires IsChain(arena, buf.overlaysAfter, afterChain)
    ensures before == beforeChain && after == afterChain
  {
    var foldedBefore: seq<OverlayId> := [];
    if buf.overlaysBefore.Some? {
      foldedBefore := ListOverlays(arena, buf.overlaysBefore.value, beforeChain);
    }
    var foldedAfter: seq<OverlayId> := [];
    if buf.overlaysAfter.Some? {
      foldedAfter := ListOverlays(arena, buf.overlaysAfter.value, afterChain);
    }
    ReverseReverse(beforeChain);
    ReverseReverse(afterChain);
    before := Reverse(foldedBefore);
    after := Reverse(foldedAfter);
  }
}
