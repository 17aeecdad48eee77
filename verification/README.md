# GIF and MP4 box decoders, modelled in Dafny

This project models two recursive-descent decoders written in C++.

- `src/gif_parser.cc` reads a GIF89a data stream. It reads a header and a logical screen, then a loop of
  blocks chosen by a two-byte lookahead, then the trailer or one stray byte.
- `src/mp4_parser.cc` reads the box tree of an ISO base media file (section 4.2 of ISO/IEC 14496-12).
  Each box has an 8-byte header holding a big-endian size and a four-character type. Five container
  types hold child boxes; every other box has its payload skipped.

Each decoder is a pure function over an immutable `seq<bv8>` and a position. It returns
`Result<Parsed<T>>`, where `Parsed(value, next)` carries the position after the record. A read that
runs past the end of input is `Failure(TruncatedInput)`.

Modules:

| module | file | contents |
|---|---|---|
| `Bytes` | bytes.dfy | input, `peek`/`get` with EOF, fixed reads, little-endian `uint16_t` |
| `GifPacked` | gif_packed.dfy | the three packed-field bytes and the colour-table size rule |
| `GifRecords` | gif_records.dfy | Header, Logical Screen Descriptor, colours, Image Descriptor, Graphic Control Extension |
| `SubBlocks` | sub_blocks.dfy | data sub-blocks and the chain loop shared by three records |
| `GifBlocks` | gif_blocks.dfy | Table-Based Image, Graphic-Rendering Block, Graphic Block, Application and Comment Extensions |
| `GifStream` | gif_stream.dfy | the data-stream loop, what it stores, the trailer, the whole stream |
| `Boxes` | boxes.dfy | `swap_endian`, `BoxHeader`, `Box` with the source's guard and integer conversions, the top-level loop |
| `BoundedBoxes` | bounded_boxes.dfy | the corrected box decoder that the Findings rows compare against |

Modelling decisions:

- `input.peek()` is an `int` with EOF = -1.
- `uint8_t x = input.get()` is the byte at the position, or 0xFF at end of input, because EOF is truncated to
  `uint8_t`. A lookahead never moves the position.
- The colour-table size is a parameter, `TableRule`:
  - `AsWritten` reproduces the source's `(1 >> n) - 1` stored in a `uint8_t`, plus one. That gives 1 or
    256 entries.
  - `Intended` is the 2^(n+1) entries of section 18 of GIF89a.
  - The packed-field records always hold the values the source stores.
- The box decoder keeps the source's integer behaviour:
  - `beginPosition + h.size - 1` is computed in `uint32_t` and stored in an `int`.
  - The guard converts `endPosition - beginPosition` to `uint32_t`.
  - `input.ignore(h.size - 8)` wraps in `uint32_t` and stops at end of input.
- Each decoder's loop is a recursive function, and its stream order is part of its contract:
  - The GIF loop appears twice. `ParseData` mirrors the source's fused read-and-store loop. `ParseBlocks`
    only lists the blocks. `ParseDataFold` proves that `ParseData` equals `ParseBlocks` folded into the
    stored state.
  - `Boxes.ParseSiblings` serves both as the container loop and as the loop in `main`.
  - Each loop also has a declarative partner: `BlocksAt` for the GIF loop and `BoxesAt` for the box loop.
    Each describes a run of positions where every record is the one decoded where the previous one
    ended, and a characterization lemma proves that the loop returns exactly such runs.

Behaviour of the code that the model keeps, where it departs from the formats it reads:

- GIF89a ends a stream with the 0x3B trailer. On any other byte after the block loop the code reads and
  discards that one byte, and `ParseEnding` does the same.
- ISO/IEC 14496-12 defines more container boxes than the five the code recurses into (`moov`, `trak`,
  `mdia`, `minf`, `stbl`). `IsContainer` has exactly those five.
- ISO/IEC 14496-12 bounds a container's children by the container's size. The code does not, and it
  accepts a declared size below the 8 header bytes. `Boxes` models the code. `BoundedBoxes` models the
  bounded reading, and the Findings rows tie the two together.
- The code validates no signature and has no error values. A short read inside a record is
  `TruncatedInput`, including a sub-block chain that runs out before its terminator. Two reads at end of
  input are not failures. A lookahead `get()` there gives 0xFF. The one-byte read after the loop reads
  nothing, which `ParseEnding` records as `Unterminated(None)`.
- The Application Extension has 14 fixed bytes: the introducer, the label, the block size, then 8 + 3
  bytes. `ApplicationTwoSubBlocks` decodes one such extension.

## Model

| member | source | states |
|---|---|---|
| Bytes.ReadU16 | src/gif_parser.cc:36-39 | reads exactly two bytes, and the value's little-endian bytes are those two bytes; fails exactly when fewer than two remain |
| GifPacked.OneShiftedMinusOneValues | src/gif_parser.cc:52-54 | `(1 >> n) - 1` stored in a `uint8_t` is 0 for n = 0 and 255 for every other 3-bit n |
| GifPacked.ScreenPackedFields | src/gif_parser.cc:50-55 | the global-table flag is bit 7 and the sort flag bit 3; colour resolution and table size are 0 when their field is 0, else 255 |
| GifPacked.ImagePackedFields | src/gif_parser.cc:218-224 | local-table, interlace and sort flags are bits 7, 6, 5; reserved is bits 4..3; the table size is 0 or 255 as above |
| GifPacked.ImagePackedRecombine | src/gif_parser.cc:218-224 | the decoded flags, the reserved field and the raw size bits rebuild the packed byte, so only the size field is lost |
| GifPacked.ControlPackedFields | src/gif_parser.cc:418-423 | reserved is bits 7..5, disposal bits 4..2, user-input bit 1, transparent bit 0 |
| GifPacked.ControlPackedRoundTrip | src/gif_parser.cc:418-423 | packing the decoded control fields gives back the packed byte |
| GifPacked.ControlPackedInverse | src/gif_parser.cc:418-423 | decoding a packed byte built from in-range fields gives back those fields |
| GifPacked.TableEntries | src/gif_parser.cc:139-141 | as written, the entry count is the stored table-size field plus one, for the screen and the image layout alike |
| GifPacked.AsWrittenEntries | src/gif_parser.cc:54 | as written, a table has 1 entry (3 bytes) when the size field is 0, else 256 entries (768 bytes) |
| GifPacked.IntendedEntries | src/gif_parser.cc:54 | with the corrected rule, a table has 2^(n+1) entries, one of 2, 4, ..., 256 |
| GifPacked.RulesAgreeOnlyAtSeven | src/gif_parser.cc:54 | the two rules give the same count if and only if the size field is 7 |
| GifPacked.AsWrittenTableMismatch | src/gif_parser.cc:50-55 | packed byte 0x81 sets the flag and makes the code read 256 entries where the corrected rule reads 4 |
| GifRecords.ParseHeader | src/gif_parser.cc:9-13 | reads 3 + 3 bytes that re-encode to the 6 bytes consumed; fails exactly when fewer remain |
| GifRecords.ParseScreenDescriptor | src/gif_parser.cc:35-48 | consumes 7 bytes that re-encode exactly; the derived fields are those of the packed byte |
| GifRecords.ParseColor | src/gif_parser.cc:80-85 | a colour is the next three bytes as red, green, blue |
| GifRecords.ParseColorTable | src/gif_parser.cc:90-96 | `size` colours occupying 3 * size bytes that re-encode exactly; fails exactly when fewer remain |
| GifRecords.ParseLogicScreen | src/gif_parser.cc:137-144 | the descriptor is the one `ParseScreenDescriptor` decodes, so its flag is bit 7 of the packed byte; a global table follows only when that flag is set, sized by the rule; gives the success condition and the bytes consumed |
| GifRecords.LogicScreenLength | src/gif_parser.cc:137-144 | as written, the logical screen takes 7, 10 or 775 bytes depending on the flag and size field |
| GifRecords.ParseImageDescriptor | src/gif_parser.cc:202-216 | consumes 10 bytes that re-encode exactly, the separator included and not checked |
| GifRecords.ParseGraphicControlExtension | src/gif_parser.cc:401-416 | consumes 8 bytes that re-encode exactly, whatever the Block Size byte says; the derived fields repack to the packed byte |
| SubBlocks.ReadSubBlock | src/gif_parser.cc:109-117 | a size byte and that many payload bytes, or just the size byte when it is 0; fails exactly when the payload is cut short |
| SubBlocks.ReadChain | src/gif_parser.cc:170-177 | a successful chain is terminated by exactly one size-0 block, at the end, and consumes its chain length |
| SubBlocks.ReadChainCharacterization | src/gif_parser.cc:170-177 | the loop returns chain `bs` ending at `e` if and only if `bs` lies at the position as a terminated chain and `e` is its end |
| SubBlocks.ReadChainSound | src/gif_parser.cc:170-177 | every chain the loop returns lies in the input at the positions its sizes imply |
| SubBlocks.ReadChainComplete | src/gif_parser.cc:170-177 | every terminated chain lying in the input is what the loop returns |
| SubBlocks.ReadChainTerminator | src/gif_parser.cc:174-176 | a size-0 byte ends the chain after one block |
| SubBlocks.ReadChainCons | src/gif_parser.cc:170-177 | a non-zero size byte is followed by the rest of the chain after its payload |
| GifBlocks.ParseTableBasedImageData | src/gif_parser.cc:167-179 | the LZW code-size byte, then a sub-block chain at the next byte; succeeds exactly when the chain does |
| GifBlocks.ParseLocalTable | src/gif_parser.cc:260-263 | the local table is read only when the descriptor's flag is set, with the rule's entry count, 3 bytes each; it fails exactly when those bytes run past the end |
| GifBlocks.ParseImageRest | src/gif_parser.cc:260-264 | after the descriptor: succeeds exactly when the optional local table and the image data both decode; the image data starts where the table's bytes end |
| GifBlocks.ParseTableBasedImage | src/gif_parser.cc:258-266 | succeeds exactly when the 10-byte descriptor decodes and what it announces after it does; the image keeps that descriptor |
| GifBlocks.NoLocalTableImage | src/gif_parser.cc:258-266 | with bit 7 of the packed byte clear there is no local table, and the image succeeds exactly when its data decodes right after the descriptor |
| GifBlocks.PlainTextAhead | src/gif_parser.cc:287-291 | the two-byte lookahead sees a Plain Text Extension exactly when two bytes remain and they are 0x21 then 0x01; end of input never matches |
| GifBlocks.ParseGraphicRenderingBlock | src/gif_parser.cc:286-299 | introducer 0x21 with label 0x01 gives a Plain Text Extension consuming nothing; anything else is a Table-Based Image read from the same byte |
| GifBlocks.SeparatorNotChecked | src/gif_parser.cc:294-297 | a first byte of 0x00 instead of 0x2C still decodes as a Table-Based Image |
| GifBlocks.ParseGraphicBlock | src/gif_parser.cc:451-455 | the control extension is the one `ParseGraphicControlExtension` decodes, with its derived fields; a rendering block follows right after its 8 bytes; fails exactly when either does |
| GifBlocks.ParseApplicationExtension | src/gif_parser.cc:324-343 | 14 fixed bytes that re-encode exactly, then a chain appended after the sub-blocks the object already held |
| GifBlocks.ApplicationAppends | src/gif_parser.cc:334-341 | parsing into an object holding earlier sub-blocks is parsing into a fresh one with those sub-blocks in front |
| GifBlocks.ApplicationTwoSubBlocks | src/gif_parser.cc:324-343 | a NETSCAPE2.0 extension with one 3-byte sub-block yields two sub-blocks and consumes all 19 bytes |
| GifBlocks.ParseCommentExtension | src/gif_parser.cc:364-378 | introducer and label, then a chain; succeeds exactly when the chain does |
| GifStream.LoopContinuesBytes | src/gif_parser.cc:506-528 | the loop body runs exactly on a 0x21 byte followed by label 0xFF, 0xFE or 0xF9, or on a 0x21 as the last byte, since the label read at end of input is 0xFF |
| GifStream.ParseDataBlock | src/gif_parser.cc:506-526 | one iteration: label 0xFF, 0xFE or 0xF9 picks the record parser, which runs from the introducer; the iteration fails exactly when that parser fails, and otherwise gives its record, carrying the peeked bytes |
| GifStream.ParseData | src/gif_parser.cc:506-530 | the loop stops only where the lookahead fails, and returns the state untouched when it fails at once |
| GifStream.ParseBlocks | src/gif_parser.cc:506-530 | the list ends at a position where the lookahead fails, and is empty only when it fails at once |
| GifStream.ParseBlocksCharacterization | src/gif_parser.cc:506-530 | the loop yields records `bs` ending at `e` exactly when there are positions from `pos` to `e` such that the lookahead holds at position i, record i is the iteration decoded there and ends at position i + 1, and the lookahead fails at `e` |
| GifStream.ParseBlocksComplete | src/gif_parser.cc:506-530 | any such run of iterations is what the loop returns |
| GifStream.ParseDataFold | src/gif_parser.cc:506-530 | the fused loop equals the stream-order list folded into the stored state, failing on the same inputs |
| GifStream.Absorb | src/gif_parser.cc:512-525 | storing one record: a comment or graphic block is appended to its own list, an application extension replaces the member's fixed fields and appends its sub-blocks to the earlier ones; nothing else changes |
| GifStream.AbsorbAllComments | src/gif_parser.cc:515-519 | the stored comments are the earlier ones followed by the stream's comments in order |
| GifStream.AbsorbAllGraphics | src/gif_parser.cc:520-525 | the stored graphic blocks are the earlier ones followed by the stream's graphic blocks in order |
| GifStream.AbsorbAllApplication | src/gif_parser.cc:512-513 | the single application member keeps the last extension's fixed fields and the sub-blocks of all of them, in order |
| GifStream.ParseEnding | src/gif_parser.cc:532-542 | a trailer if and only if the next byte is 0x3B; otherwise the next byte, if any, is read and discarded |
| GifStream.ParseGifDataStream | src/gif_parser.cc:497-543 | succeeds exactly when the header, logical screen and block loop do; the header is `ParseHeader`'s 3 + 3 split, and the result is the folded loop state plus the ending after it |
| GifStream.FrameCount | src/gif_parser.cc:520-525 | the stored graphic blocks are exactly the stream's graphic blocks in order |
| GifStream.MinimalStream | src/gif_parser.cc:497-543 | "GIF89a", a 1x1 screen and 0x3B decode to an empty data state ended by the trailer |
| GifStream.UnknownLabelStopsLoop | src/gif_parser.cc:527-540 | an unknown label stops the loop, and the introducer is then discarded as a non-trailer byte |
| GifStream.ImageWithoutControlStops | src/gif_parser.cc:506-540 | an image separator 0x2C right after the logical screen stops the loop and is discarded, so a GIF whose image has no Graphic Control Extension stores no graphic block |
| GifStream.TrailingIntroducerFails | src/gif_parser.cc:506-513 | a lone final 0x21 reads its label at EOF as 0xFF, and the Application Extension then fails |
| GifStream.GraphicStep | src/gif_parser.cc:520-525 | a 0xF9 iteration appends one graphic block and continues after it |
| GifStream.SingleGraphicStream | src/gif_parser.cc:497-543 | a logical screen, one Graphic Block and the trailer decode to one stored graphic block, ending after the trailer |
| GifStream.OneFrameStream | src/gif_parser.cc:497-543 | a 37-byte single-frame GIF decodes to one graphic block ended by the trailer |
| Boxes.SwapEndian | src/mp4_parser.cc:6-9 | the result holds the word's four bytes in reverse order |
| Boxes.SwapEndianInvolution | src/mp4_parser.cc:6-9 | swapping twice restores the word |
| Boxes.SwapGivesBigEndian | src/mp4_parser.cc:6-9 | swapping a little-endian host load gives the bytes read most significant first |
| Boxes.BigEndianWordValue | src/mp4_parser.cc:19-20 | that word's numeric value is the big-endian number of the four bytes |
| Boxes.TagString | src/mp4_parser.cc:22-24 | the type string is the tag bytes up to the first NUL, as characters |
| Boxes.ParseBoxHeader | src/mp4_parser.cc:16-27 | 8 bytes: a big-endian size and the tag string; begin is the offset plus one, end the offset after the header |
| Boxes.ToInt32 | src/mp4_parser.cc:50 | a `uint32_t` stored into an `int` lands in the int range and agrees modulo 2^32 |
| Boxes.DeclaredEnd | src/mp4_parser.cc:50 | the box end is a 32-bit int equal to begin + size - 1 modulo 2^32 |
| Boxes.DeclaredEndNoWrap | src/mp4_parser.cc:50 | without wrap-around, the box end is begin + size - 1 |
| Boxes.ContainerGuard | src/mp4_parser.cc:53 | without wrap-around the guard is the plain comparison size > end - begin; an end one below begin (size 0) converts to 2^32 - 1 and fails the guard |
| Boxes.ContainerGuardIffNonZero | src/mp4_parser.cc:53 | the loop guard, with its unsigned conversion, holds exactly when the declared size is non-zero |
| Boxes.IsContainer | src/mp4_parser.cc:51-52 | the five container types; each is a full four-character tag, so a tag cut short at a NUL is never a container |
| Boxes.LeafSkip | src/mp4_parser.cc:60 | the skip is size - 8 for sizes of 8 or more, and wraps past 2^32 - 9 below that |
| Boxes.WrappingSubEight | src/mp4_parser.cc:60 | `n - 8` in uint32: below 2^32 and equal to n - 8 modulo 2^32 |
| Boxes.ParseBox | src/mp4_parser.cc:48-62 | header, recorded begin and declared end; levels grow by one per nesting; children only in containers, which then read to end of input |
| Boxes.ParseSiblings | src/mp4_parser.cc:97-102 | at least one box, ending at end of input, in stream order, all at the given level, at least 8 bytes per box |
| Boxes.ParseSiblingsCharacterization | src/mp4_parser.cc:53-58 | the loop yields boxes `bs` ending at `e` exactly when `e` is the end of input and there are positions from `pos` on such that box i is what `ParseBox` decodes at position i, ending at position i + 1, input remains after every box but the last, and the last ends the input |
| Boxes.ParseSiblingsComplete | src/mp4_parser.cc:53-58 | any such run of boxes is what the loop returns |
| Boxes.ParseFile | src/mp4_parser.cc:97-102 | at least one root box, all at level 0, in stream order, ending at end of input, at least 8 bytes per box; under 8 bytes is a truncated read |
| Boxes.ParseFileCharacterization | src/mp4_parser.cc:97-102 | the file decodes to `bs` exactly when `bs` is a run of level-0 boxes, each decoded where the previous one ended, from offset 0 to the end of input |
| Boxes.DeclaredSpan | src/mp4_parser.cc:49-50 | without wrap-around, a box's recorded span is its declared size, not the bytes it consumed |
| Boxes.ContainerReadsToEnd | src/mp4_parser.cc:53-58 | a container of non-zero size reads children until the input ends, whatever its declared size |
| Boxes.EmptyContainer | src/mp4_parser.cc:53 | a container of size 0 gets no children and consumes only its header |
| Boxes.LeafSpan | src/mp4_parser.cc:59-61 | a leaf whose size fits consumes exactly its declared size |
| Boxes.SmallLeafSkipsToEnd | src/mp4_parser.cc:60 | a leaf declaring fewer than 8 bytes skips to the end of the input |
| Boxes.LastLeaf | src/mp4_parser.cc:97-102 | a leaf reaching exactly to the end of input is the last box of its list |
| Boxes.LoneLeaf | src/mp4_parser.cc:97-102 | a lone leaf as long as the input is the only root box |
| Boxes.FtypOnly | src/mp4_parser.cc:97-102 | `00 00 00 08 "ftyp"` decodes to one root leaf of size 8 spanning positions 1..8 |
| Boxes.EmptyContainerSwallowsNext | src/mp4_parser.cc:53-58 | a container of size 8 followed by a leaf gets that leaf as its child, leaving one root box |
| BoundedBoxes.ParseBoxBounded | src/mp4_parser.cc:48-62 | corrected: a box spans exactly its declared size of at least 8, inside its parent; a container's children fill its payload exactly |
| BoundedBoxes.ParseChildrenBounded | src/mp4_parser.cc:53-58 | corrected: children in stream order, all one level down, filling exactly their parent's payload |
| BoundedBoxes.ParseFileBounded | src/mp4_parser.cc:97-102 | corrected: root boxes at level 0 in stream order, the first at position 1, whose sizes sum to the input length |
| BoundedBoxes.SmallSizeRejected | src/mp4_parser.cc:60 | corrected: a declared size below 8 is a StructuralError |
| BoundedBoxes.EmptyContainerKeepsSibling | src/mp4_parser.cc:53 | corrected: a container of size 8 followed by a leaf gives two root boxes, the first without children |
| BoundedBoxes.AgreeOnFittingLeaf | src/mp4_parser.cc:59-61 | on a leaf whose size fits, the corrected and the as-written decoder give the same box and position |
| BoundedBoxes.MoovThenFreeDecoders | src/mp4_parser.cc:53 | on an empty `moov` then a `free`, the as-written decoder nests `free` and the corrected one keeps two roots |

## Left out

- Printing, `main`'s argument and file handling, and the `/tmp/big.gif` path are not modelled. The
  decoders take the whole input as a byte sequence.
- Stream failure state: after a failed read the source keeps going on a failed stream and prints
  partially filled records. The model stops at the first short read inside a record with `TruncatedInput` and returns no
  partial record or tree.
- Sub-block chains that reach end of input: the failed `read` in `SubBlock::parse` (src/gif_parser.cc:106-110)
  leaves `size` uninitialised, so the `while (true)` chain loops (lines 170-177, 334-341, 369-376) stop
  only if that leftover value happens to be 0, and may never stop. The model returns `TruncatedInput`
  there instead.
- Sub-block payloads are not kept. The source reserves capacity but never resizes its vector, so the
  payload bytes are consumed and not retained, and `SubBlock` holds only its size.
- LZW decompression and pixel data are not modelled. The source does neither.
- `tellg()` is not modelled as failing or wrapping. Header positions are unbounded integers (offset + 1 and
  offset + 8). Only the box end `beginPosition + size - 1` is wrapped, as the source computes it in
  `uint32_t`.
- 64-bit `largesize` boxes, and size 0 meaning "to end of file", are not modelled. The source reads
  neither, and `Boxes` follows it.
- Boxes.SmallLeafSkipsToEnd: stated only for inputs of at most 2^32 bytes, because a longer input would let
  the wrapped skip stop before the end.
- Boxes.DeclaredSpan: stated only where `begin + size - 1` stays below 2^31, because past that the recorded
  end wraps to a negative `int`.
- BoundedBoxes.AgreeOnFittingLeaf: stated for leaves only, and for inputs below 2^31 bytes. Containers
  differ between the two decoders by design: that is the second Findings row.
- Header and trailer values are not validated (the signature, the version, the 0x2C separator, the Block
  Size bytes), as in the source. `SeparatorNotChecked` shows one case.

## Findings

| source | as written | input that shows it | evidently intended | confidence | as-written member | corrected member |
|---|---|---|---|---|---|---|
| src/gif_parser.cc:54 | the table size is `(1 >> n) - 1` in a `uint8_t`, so a table has 1 or 256 entries (also line 223 for the local table, and line 52 for the colour resolution) | packed byte 0x81: global table flagged, size field 1 | 2^(n+1) entries, so 4 here, as section 18 of GIF89a defines | not executed | GifPacked.AsWrittenTableMismatch | GifPacked.IntendedEntries |
| src/mp4_parser.cc:53 | the guard `h.size > endPosition - beginPosition` compares two values the loop never changes, so a non-empty container reads boxes until the input ends | `00 00 00 08 "moov" 00 00 00 08 "free"`: the `free` box becomes a child of the empty `moov` | read children only while they lie inside the container's declared size | not executed | Boxes.EmptyContainerSwallowsNext | BoundedBoxes.EmptyContainerKeepsSibling |
| src/mp4_parser.cc:60 | `input.ignore(h.size - 8)` wraps for a declared size below 8 and skips to the end of input | a non-container box declaring size 4 followed by further boxes | reject a size below the 8 header bytes | not executed | Boxes.SmallLeafSkipsToEnd | BoundedBoxes.SmallSizeRejected |
