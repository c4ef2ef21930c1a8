# Gap-buffer text addressing, character stepping and overlay chains of an editor buffer

This project models the core of `rust_src/src/buffers.rs` of remacs, the Rust
port of Emacs, and proves properties of that model in Dafny.

A buffer keeps its text in one storage array that contains a movable gap.
Byte positions start at 1 (`BEG_BYTE`). Positions before `gptByte` sit at the
start of the array. Positions at or after `gptByte` sit `gapSize` bytes further
on. One guard byte follows the last position `zByte - 1`.

- `GapBuffer` (gap_buffer.dfy) holds the addressing fields as a value
  `BufferText`. It maps positions to storage offsets and reads bytes and
  characters.
  - `IncPos` steps forward by the length its head byte announces.
  - `DecPos` is a loop that steps back to the previous head byte. Like the
    source, it walks the raw storage once it has taken the first gap-aware
    step. It reaches the position-level previous boundary whenever the scan
    starts below the gap or the byte after the gap is a head byte; it can
    miss that boundary only when it walks past the gap end without meeting a
    head byte. Well-formed text always meets the condition.
  - The head-byte predicate and the length-by-head table are parameters of
    these operations.
  - On well-formed multibyte text, `IncPos` undoes `DecPos` and `DecPos`
    undoes `IncPos`.
- `Overlays` (overlays.dfy) keeps overlays in an arena: a sequence of records
  addressed by index, each with an optional `next` index.
  - `IsChain` says which sequence of overlays a head reaches before the end
    of its chain.
  - The iterator class `OverlayIter` yields exactly that chain, in link order.
  - `ListOverlays` folds a chain by consing, which reverses it.
  - `OverlayArena.BuildOverlay` allocates an unlinked overlay.
  - `DeleteOverlay` models the control flow of `delete_overlay`.
- `Buffers` (buffers.dfy) holds the class `Buffer` with the point and
  narrowing fields and a fixed-size local-flag array. It also holds
  `validate_region`, `buffer_modified_p` and `overlay_lists`.
- `Scenarios` (scenarios.dfy) works the boundary operations out on two small
  concrete texts.

The deletion condition groups as the source writes it:
`(windows_or_buffers_changed != 0 && before-string) || after-string`. So an
after-string alone turns off the redisplay optimisations. A before-string
does so only while `windows_or_buffers_changed` is nonzero, although the
comment above the test speaks of overlays "with before or after strings";
see "## Findings".

Two details of the code that the model keeps:

- `dec_pos` reads only its first byte through the gap-aware index
  (`pos_within_range`). After that its pointer moves back through raw
  storage, one byte at a time, without correcting for the gap.
- `set_per_buffer_value_p` takes an unsigned index, so it checks only the
  upper bound against `last_per_buffer_idx`; `value_p` takes a
  signed one and checks both bounds. Both accessors also inherit Rust's own
  bounds check on the flag array, which the model keeps as a second kind of
  panic.

Inputs the model takes as parameters:

- The globals `last_per_buffer_idx` and `windows_or_buffers_changed`.
- Whether `Foverlay_get` finds a before-string and an after-string.
- The multibyte decoder `string_char`, as a function of the storage and a
  start index.

## Model

| member | source | states |
|---|---|---|
| `GapBuffer.GapStartAddr` | rust_src/src/buffers.rs:112-114 | the gap starts at the offset just after the storage index of position gptByte - 1 |
| `GapBuffer.GapEndAddr` | rust_src/src/buffers.rs:116-122 | gap end minus gap start is gapSize, and the gap end is the storage index of position gptByte |
| `GapBuffer.ZAddr` | rust_src/src/buffers.rs:124-130 | when zByte >= gptByte the z address is the gap-aware index of zByte and lies at or after the gap end; it is the last storage slot (the guard byte) of a valid text |
| `GapBuffer.BytePosAddr` | rust_src/src/buffers.rs:225-228 | the uncorrected address equals the gap-aware index before the gap and is gapSize short of it at or after the gap |
| `GapBuffer.PosWithinRange` | rust_src/src/buffers.rs:280-286 | the correction is gapSize at or past gptByte and 0 before it |
| `GapBuffer.ByteIndex` | rust_src/src/buffers.rs:230-234 | the gap-aware index of a position never falls inside the gap, and lies before the gap exactly when the position is before gptByte |
| `GapBuffer.ByteIndexMonotonic` | rust_src/src/buffers.rs:280-286 | with a non-negative gap, positions in order have their storage indices in the same order |
| `GapBuffer.ValidTextIndices` | rust_src/src/buffers.rs:288-292 | in a valid text every position from BEG_BYTE to zByte (the guard byte) has a storage index |
| `GapBuffer.BufByteAddress` | rust_src/src/buffers.rs:230-234 | buf_byte_address reads the same byte as fetch_byte |
| `GapBuffer.FetchByte` | rust_src/src/buffers.rs:236-245 | the byte read is storage[p - BEG_BYTE + pos_within_range(p)], which is the uncorrected address before the gap |
| `GapBuffer.FetchMultibyteChar` | rust_src/src/buffers.rs:257-274 | the decoder starts at the gap-aware index whenever gptByte >= 0 (the extra n >= 0 test then changes nothing) |
| `Buffers.Buffer.FetchChar` | rust_src/src/buffers.rs:247-255 | when the buffer's enableMultibyteCharacters is off the character is the byte at the position widened to 0..255; when it is on, it is the decoder's result at the gap-aware index |
| `GapBuffer.IncPos` | rust_src/src/buffers.rs:288-296 | the result is the position plus the length announced by the byte read through the gap-aware index, so it is strictly greater than the position |
| `GapBuffer.DecPos` | rust_src/src/buffers.rs:298-314 | the result r is at most pos - 1; the storage byte the scan stops at is a head byte and every byte it passed is not; if the byte at pos - 1 is a head byte, r = pos - 1 and the loop runs zero times; when the scan starts below the gap or the gap ends on a head byte, r is the previous boundary of pos over positions |
| `GapBuffer.PrevBoundaryUnique` | rust_src/src/buffers.rs:298-314 | a position has at most one previous boundary |
| `GapBuffer.WellFormedGapEndIsHead` | rust_src/src/buffers.rs:298-314 | in well-formed text a backward scan from a position up to zByte never needs to enter the gap |
| `GapBuffer.WellFormedHasHeadBelow` | rust_src/src/buffers.rs:298-314 | in well-formed text every position after the start has a head byte at or below the scan's start, as the loop needs to stop |
| `GapBuffer.IncPosAfterPrevBoundary` | rust_src/src/buffers.rs:288-314 | in well-formed text, stepping forward from the previous boundary of a boundary b returns to b |
| `GapBuffer.PrevBoundaryOfIncPos` | rust_src/src/buffers.rs:288-314 | in well-formed text, the step forward from a head byte r lands on a boundary within the text whose previous boundary is r |
| `Scenarios.StepBackInAbc` | rust_src/src/buffers.rs:298-314 | on the unibyte text "abc", dec_pos from byte position 2 returns 1 |
| `Scenarios.StepBackOverThreeByteCharacter` | rust_src/src/buffers.rs:298-314 | with a gap after "ab", dec_pos from byte position 8 skips the three-byte character and returns 5 |
| `Overlays.OverlayIter.constructor` | rust_src/src/buffers.rs:468-473 | an iteration starts with the given overlay current and its whole chain still to yield |
| `Overlays.OverlayIter.Next` | rust_src/src/buffers.rs:475-492 | each call yields the current overlay and moves to its `next` link; the yields are exactly the chain, in link order, followed by None |
| `Overlays.ChainUnique` | rust_src/src/buffers.rs:479-492 | a head determines the chain that iteration yields |
| `Overlays.ChainSuffix` | rust_src/src/buffers.rs:479-492 | iteration from any overlay of a chain yields the rest of that chain |
| `Overlays.ChainsOfDifferentLengthsDiffer` | rust_src/src/buffers.rs:479-492 | chains of different lengths start at different overlays |
| `Overlays.ChainHasNoDuplicates` | rust_src/src/buffers.rs:479-492 | a chain that reaches a null link visits no overlay twice |
| `Overlays.UnlinkedOverlayChain` | rust_src/src/buffers.rs:962-979 | an overlay whose `next` is null iterates as the singleton of itself, and as nothing else |
| `Overlays.OverlayArena.BuildOverlay` | rust_src/src/buffers.rs:962-979 | a new overlay is appended with the given start, end and plist and a null `next`, and iterates as a singleton |
| `Overlays.Reverse` | rust_src/src/buffers.rs:830 | reversal keeps the length |
| `Overlays.ReverseSnoc` | rust_src/src/buffers.rs:822-825 | consing an element onto the reversed prefix gives the reversal of the prefix extended by that element |
| `Overlays.ReverseReverse` | rust_src/src/buffers.rs:828-830 | reversing twice restores the order |
| `Overlays.ListOverlays` | rust_src/src/buffers.rs:822-825 | folding a chain by consing yields the chain reversed |
| `Overlays.PreventsRedisplay` | rust_src/src/buffers.rs:1000-1001 | the condition under which deleting an overlay sets prevent_redisplay_optimizations_p, grouped as the code groups it; its consequences are the lemma below |
| `Overlays.PreventsRedisplayGrouping` | rust_src/src/buffers.rs:996-1004 | an after-string alone sets the flag; without one, the flag is set exactly when windows_or_buffers_changed is nonzero and there is a before-string; with windows_or_buffers_changed zero, only the after-string decides |
| `Overlays.PreventsRedisplayAsCommented` | rust_src/src/buffers.rs:996-999 | the commented condition: any before-string or after-string turns the optimisations off, whatever the counter |
| `Overlays.RedisplayConditionsDiffer` | rust_src/src/buffers.rs:996-1001 | the written condition implies the commented one, and they differ exactly when the counter is zero, there is a before-string and there is no after-string |
| `Overlays.BeforeStringIgnoredWhenUnchanged` | rust_src/src/buffers.rs:1000-1001 | with counter zero and only a before-string, the written condition is false and the commented one true |
| `Overlays.DeleteOverlay` | rust_src/src/buffers.rs:981-1008 | nothing happens exactly when the start marker has no buffer; otherwise the overlay is detached from that buffer, whose prevent-redisplay flag is set exactly under the condition above |
| `Buffers.Buffer.SetPtBoth` | rust_src/src/buffers.rs:182-185 | point becomes the given character and byte position; no other field changes |
| `Buffers.Buffer.SetBegvBoth` | rust_src/src/buffers.rs:187-190 | the start of the accessible region becomes the given positions; no other field changes |
| `Buffers.Buffer.SetZvBoth` | rust_src/src/buffers.rs:192-195 | the end of the accessible region becomes the given positions; no other field changes |
| `Buffers.Buffer.ValueP` | rust_src/src/buffers.rs:201-206 | it panics with an invalid index exactly when idx < 0 or idx >= last_per_buffer_idx, panics on the array bound when idx passes that check but not the array's length, and otherwise answers whether the flag at idx is nonzero |
| `Buffers.Buffer.SetPerBufferValueP` | rust_src/src/buffers.rs:208-221 | it panics exactly when idx >= last_per_buffer_idx or idx is past the array, changing nothing; otherwise it changes only the flag at idx, and value_p(idx) then answers val != 0 |
| `Buffers.BufferModifiedP` | rust_src/src/buffers.rs:682-685 | the buffer is modified when its save tick is behind its modification tick; its behaviour under save and modify is the lemma below |
| `Buffers.BufferModifiedTicks` | rust_src/src/buffers.rs:679-685 | right after a save the buffer is unmodified; one modification after a save, or after any state whose save tick is not ahead, makes it modified |
| `Buffers.ValidateRegion` | rust_src/src/buffers.rs:747-769 | afterwards beg <= end with the two values swapped only if they arrived reversed; it signals out of range, with the original arguments, exactly unless begv <= beg and end <= zv |
| `Buffers.OverlayLists` | rust_src/src/buffers.rs:812-831 | the two lists returned are the before-centre and after-centre chains of the buffer, in chain order |

## Findings

| source | as written | input that shows it | evidently intended | confidence | as-written member | corrected member |
|---|---|---|---|---|---|---|
| rust_src/src/buffers.rs:996-1001 | `windows_or_buffers_changed != 0 && before-string \|\| after-string`: a before-string counts only while the counter is nonzero | `windows_or_buffers_changed == 0`, a before-string and no after-string: the flag is not set | the comment's reading, any before-string or after-string sets the flag | medium, not executed; the comment does not say what role the counter should play | `Overlays.PreventsRedisplay`, `Overlays.BeforeStringIgnoredWhenUnchanged` | `Overlays.PreventsRedisplayAsCommented`, `Overlays.RedisplayConditionsDiffer` |

`DeleteOverlay` keeps the condition as written, since it models what the code
does; `RedisplayConditionsDiffer` says exactly which deletions the commented
condition would treat differently.

## Left out

- `unchain_both`, `drop_overlay` and `delete_all_overlays` are foreign C routines whose bodies are not part of this model. `DeleteOverlay` returns the buffer from which the overlay is detached and does not rewrite the chains. So removing an overlay and then iterating is not modelled, and neither is deleting all overlays of a buffer.
- `Foverlay_get`, `marker_buffer`, `set_marker_both` and `allocate_misc` are external. Whether an overlay has a before-string or after-string is an input. The marker's buffer is a field of the modelled marker. Allocation appends to the arena.
- `string_char`, `char_head_p` and `multibyte_length_by_head` belong to the character and multibyte modules, which are not part of this model. They are parameters, with the length taken to be at least one.
- The `specbind`/`unbind_to` around deletion and `ThreadState::current_buffer` are left out; the current buffer is an argument.
- `validate_region`'s coercion of markers to integers, and its wrong-type error, are left out; its arguments are integers.
- Lisp-object plumbing is left out: type tags, the `From` conversions, `LispBufferOrName`, `buffer_list`, `get_buffer`, `get_file_buffer`, `get_truename_buffer_1` and `assoc_ignore_text_properties`.
- Redisplay and editing commands are left out: `force_mode_line_update`, `barf_if_buffer_read_only`, `set_buffer`, `erase_buffer`.
- `per_buffer_idx` and `set_value` write raw byte offsets into a C struct whose layout is not part of this model.
- `buf_bytes_max` is a compile-time constant and is not used by the modelled operations.
- `record_buffer_markers` and `fetch_buffer_markers` only sync with the external marker system.
- Buffers.BufferModifiedTicks: the modification and save counters are unbounded integers, so the wrap-around of the tick counter that the docstring at rust_src/src/buffers.rs:696-698 documents is not modelled. With a 64-bit `EmacsInt` counter at its maximum, one more modification would wrap it negative and `buffer_modified_p` would answer "unmodified", while the lemma promises "modified" for every counter value.
- Positions and offsets are unbounded integers. The 64-bit `ptrdiff_t` range is not modelled, because the buffer size limit keeps every computed offset far inside it. `last_per_buffer_idx` is a non-negative count, so the casts of it to `isize` and `usize` lose nothing.
- Raw pointers are modelled as offsets into the storage sequence. Reading outside the storage is excluded by `requires`, since the source does no range checking and such a read is undefined behaviour.
- The text's own bytes are read-only here: gap movement, insertion and deletion are external and are not modelled.
- `overlay_lists` returns the overlay indices in order. The fresh cons cells of the Lisp lists are not modelled.
