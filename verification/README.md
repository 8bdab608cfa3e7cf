# easy-buffer: cursor-based byte buffer reader and writer, in Dafny

This project models the core of `easy-buffer`, a TypeScript library for reading
typed values out of a byte buffer (`BufferReader`) and writing them into a
growable one (`BufferWriter`), each through an explicitly movable cursor.

The model follows the revision of `lib/reader.ts` and `lib/writer.ts` whose
`switch` statements handle four value kinds:

- `UInt8`, `UInt16LE` and `UInt32LE`: unsigned little-endian integers of 1, 2 and 4 bytes;
- `String`: when `nullTerminated` is set, the bytes up to a `0x00` sentinel;
  otherwise, on read, every byte that remains and, on write, exactly the value's bytes.

Both objects are modelled as immutable states. Every operation is a pure function.

- A `Reader` is a byte sequence plus an integer cursor. `Read` returns the value
  or the error, together with the reader after the call. A failed read returns
  the reader unchanged.
- A `Writer` is a byte sequence plus a cursor. `Write` and `Offset` return the new writer.
- A byte is an integer in `[0, 256)`. Text is kept as its raw bytes, so the
  text encoding is the identity.

Modules:

- `Results`: the `Option` and `Result` types.
- `Bytes`: the byte type; little-endian `FromLE`/`ToLE` and their two inverse laws; `Zeros`; the forward scan for `0x00`.
- `Bufferable`: value kinds, values, `Writable`, kind widths, and the `Fits` predicate for the values the writer accepts.
- `BufferReader`: `Create`, `Remaining`, `DecodeNumber`, `DecodeString`, `Decode`, `Read`, `Offset`, `ReadMap`, and the characterisation of `readMap` by runs of its loop, both those that end the buffer and those cut short by a failing call.
- `BufferWriter`: `Create`, `Encode`, `Overwrite`, `Write`, `Offset`, `WriteMap`, and the writer invariant `Valid` (cursor at most the buffer length).
- `RoundTrip`: what the writer writes, the reader reads back. This covers a single value at any cursor of a valid writer, when a null-terminated string contains no `0x00` and a plain string reaches the end of the buffer. It also covers whole framed lists written with `writeMap` and read with `readMap`: every value fits, null-terminated strings contain no `0x00`, and a plain string comes only last and is non-empty. Outside these conditions the source itself does not read back what it wrote: a plain string reads to the end of the buffer, and a null-terminated string stops at its first `0x00`.
- `Scenarios`: the test file's assertions that apply to this revision, stated as lemmas.

Other files of the repository describe more than this revision of the code does.
`lib/bufferable.ts:9-65` declares more kinds, and the test file exercises behaviour
the reader and writer here do not have. The model follows the code:

- `lib/bufferable.ts:9-65` also lists `Int8`, `Int16LE`, the big-endian kinds, `StringNT`, `Buffer`,
  and a `length` field on strings and buffers. Neither `switch` handles any of these.
  The test writes and reads `Buffer` and `StringNT` values and reads with `length`
  (`test/easy-buffer.test.ts:13-18`, `28-34`, `164-183`).
- The test expects the reader's `offset` to throw "Offset out of bounds." for the targets
  10 and -10, relative and absolute (`test/easy-buffer.test.ts:96-100`). It also expects an absolute
  offset of -1 to count from the end (`test/easy-buffer.test.ts:83`). The reader's
  `offset` here only assigns the cursor, with no check and no counting from the end.
- The writer's `offset` does nothing special for a negative target; the source marks this as an open TODO.
  The test expects padding at the front instead (`test/easy-buffer.test.ts:164-174`).
- A fixed-width read past the end fails through Node's own range check inside `readUInt*`.
  The model reports it as `OutOfBounds`. A missing terminator is reported as `NullTerminatorNotFound`.

## Model

| member | source | states |
|---|---|---|
| BufferReader.Create | lib/reader.ts:7-10 | a new reader wraps the given buffer with the cursor at 0 |
| BufferReader.Remaining | lib/reader.ts:81-83 | the remaining bytes are empty once the cursor is at or past the end; otherwise they are the suffix from the cursor, which together with the bytes before the cursor make up the whole buffer |
| Bytes.FirstZero | lib/reader.ts:37-51 | the forward scan for the terminator returns a position holding `0x00` with no `0x00` before it, or none when no byte from the start position on is `0x00` |
| BufferReader.DecodeNumber | lib/reader.ts:17-34 | a fixed-width kind succeeds exactly when at least its width in bytes remains. It then consumes exactly that many bytes and returns the number below 256^width whose little-endian encoding is those bytes. Otherwise it fails with `OutOfBounds` |
| BufferReader.DecodeString | lib/reader.ts:35-58 | a null-terminated string succeeds exactly when a `0x00` remains. Its text contains no `0x00`, and the text followed by one `0x00` is a prefix of the remaining bytes. The bytes consumed are the text plus the terminator. Otherwise it fails with `NullTerminatorNotFound`. A plain string always succeeds with all remaining bytes |
| BufferReader.Decode | lib/reader.ts:15-60 | a decode never consumes more bytes than remain; when it fails, the error is `OutOfBounds` exactly for the fixed-width kinds |
| BufferReader.Read | lib/reader.ts:12-65 | the buffer never changes and the cursor never moves back. A failed read returns the reader unchanged. A successful one advances the cursor by exactly the bytes decoded, and the new remaining bytes are the old ones minus those. Fixed-width kinds succeed iff `cursor + width <= length`, advance by the width and read the little-endian value of the `width` bytes at the cursor. A plain string read always succeeds and moves the cursor to the end of the buffer, or leaves it where it is when already past the end |
| BufferReader.Offset | lib/reader.ts:76-79 | the buffer is never modified. An absolute offset becomes the cursor and a relative one is added to it, with no bounds check |
| BufferReader.OffsetLaws | lib/reader.ts:76-83 | moving back by the distance just moved restores the reader; an absolute move discards earlier moves; moving absolutely to the current cursor changes nothing; after an absolute move to a position inside the buffer, the remaining bytes are the buffer's suffix from there |
| BufferReader.ReadMap | lib/reader.ts:67-74 | the loop ends only with nothing remaining and the buffer unchanged. It returns no items and the same reader when nothing remains. A failure of the first call is the result, and the first item is the first call's. It never returns more items than there were remaining bytes |
| BufferReader.ReadMapRun | lib/reader.ts:67-74 | for any run of the loop (call `k` made with index `index + k` while bytes remain, each call starting from the reader the previous one returned, and no bytes remaining after the last), `readMap` returns exactly that run's items in call order and its final reader |
| BufferReader.ReadMapRunFails | lib/reader.ts:67-74 | after any number of successful calls made while bytes remain, a call that fails while bytes still remain makes the whole `readMap` fail with that call's error, and no items are returned |
| Bytes.FromLE | lib/reader.ts:17-34 | the little-endian value that Node's `readUInt16LE`/`readUInt32LE` (and `readUInt8` for one byte) return: it is below 256^length, and its lowest base-256 digit is the first byte. `Bytes.FromLEToLE` and `Bytes.ToLEFromLE` make it the inverse of `ToLE` |
| Bytes.ToLE | lib/writer.ts:15-29 | the bytes `writeUInt8`/`writeUInt16LE`/`writeUInt32LE` produce: exactly `width` of them. The two inverse lemmas below pin down their contents |
| Bytes.FromLEToLE | lib/writer.ts:20-28 | encoding a number that fits in `width` little-endian bytes and decoding the bytes gives the number back |
| Bytes.ToLEFromLE | lib/reader.ts:23-34 | decoding little-endian bytes and re-encoding the number at the same width gives the bytes back |
| Bufferable.Width | lib/reader.ts:17-34 | a `UInt8` is 1 byte wide, a `UInt16LE` 2 and a `UInt32LE` 4, and no two fixed-width kinds share a width, as `bytesRead` at lines 20, 26 and 32 and `Buffer.alloc` at `lib/writer.ts` lines 16, 21 and 26 fix it |
| Bufferable.FitsBounds | lib/writer.ts:15-28 | the writer accepts a `UInt8` up to 0xFF, a `UInt16LE` up to 0xFFFF and a `UInt32LE` up to 0xFFFFFFFF |
| BufferWriter.Create | lib/writer.ts:7-10 | a new writer has an empty buffer, its cursor at 0, and satisfies the writer invariant |
| BufferWriter.Encode | lib/writer.ts:13-37 | numbers encode to exactly their kind's width of little-endian bytes, which decode back to the number. A null-terminated string encodes to its bytes followed by exactly one `0x00`. A plain string encodes to exactly its bytes |
| BufferWriter.Overwrite | lib/writer.ts:39-43 | splicing at a position inside the buffer overwrites: the length becomes the larger of the old length and the end of the new bytes; inside the span the bytes are the new ones; everywhere else they are the old ones. At a position past the end, the clamped slices append the bytes |
| BufferWriter.Write | lib/writer.ts:12-47 | the cursor advances by exactly the encoded length. On a writer with `cursor <= length`: the invariant is kept, and the new length is the larger of the old length and the new cursor. The bytes before the cursor followed by the encoding form a prefix of the new buffer. When the encoding ends inside the old buffer, the length is unchanged, and so are the bytes after the encoding |
| BufferWriter.Offset | lib/writer.ts:60-71 | the cursor becomes the absolute target or moves by the relative amount. The result always satisfies the writer invariant. The new length is the larger of the old length and the target. The old contents remain a prefix, and every byte added is zero |
| Bytes.Zeros | lib/writer.ts:64-68 | `Buffer.alloc(n)`, used as the padding in the writer's `offset`: exactly `n` bytes, every one of them zero |
| BufferWriter.WriteMap | lib/writer.ts:49-58 | an empty list leaves the writer unchanged, and a one-item list applies the step once with the given index |
| BufferWriter.WriteMapAppend | lib/writer.ts:53-55 | `writeMap` walks the list in order: mapping over `a + b` equals mapping over `a`, then over `b` with the indices continuing after `a` |
| BufferWriter.WriteMapValid | lib/writer.ts:49-58 | a step that keeps `cursor <= length` keeps it across the whole of `writeMap` |
| RoundTrip.DecodeEncode | lib/reader.ts:15-60 | decoding an encoded value under its own kind returns the value and consumes exactly the encoding. The bytes after it may be anything, except that a null-terminated string must contain no `0x00` and a plain string must have nothing after it |
| RoundTrip.WriteSplices | lib/writer.ts:39-44 | after a write into a valid writer, the new buffer is its bytes before the old cursor, then the encoding, then its bytes from the new cursor on |
| RoundTrip.WriteThenRead | lib/writer.ts:39-44 | after writing a fitting value at the cursor of a valid writer, when a null-terminated string contains no `0x00` and a plain string reaches the end of the buffer, reading that kind at the old cursor of the new buffer returns the value and ends at the writer's new cursor |
| RoundTrip.WriteMapAppends | lib/writer.ts:53-57 | writing a list with `writeMap` at the end of a buffer appends the items' encodings in list order and leaves the cursor at the new end |
| RoundTrip.ReadItemAt | lib/reader.ts:62 | in the encoding of a framed list (every value fits, null-terminated strings contain no `0x00`, a plain string only last and non-empty), item `k` starts where the items before it end, occupies at least one byte, and reads back as its value |
| RoundTrip.ReadListIsRun | lib/reader.ts:67-74 | on a framed list's encoding (every value fits, null-terminated strings contain no `0x00`, a plain string only last and non-empty) with the matching kinds, the reader before item k sits where the encodings of the items before it end. The mapper call with index k returns item k's value and the reader before item k + 1, while bytes remain |
| RoundTrip.ReadListRun | lib/reader.ts:67-74 | reading a framed list's encoding (every value fits, null-terminated strings contain no `0x00`, a plain string only last and non-empty) with `readMap` and the matching kinds returns the list's values in order and ends at the end of the buffer |
| RoundTrip.WriteMapThenReadMap | lib/writer.ts:49-58 | a framed list (every value fits, null-terminated strings contain no `0x00`, a plain string only last and non-empty) written by `writeMap` into a new writer is read back by `readMap` as the same values in the same order, with nothing left over |
| Scenarios.EncodeNumbers | lib/writer.ts:15-28 | 13, 215 and 1782 encode as `[13]`, `[215, 0]` and `[246, 6, 0, 0]` |
| Scenarios.WriteByte13 | test/easy-buffer.test.ts:5-8 | a new writer's buffer is empty, and writing a `UInt8` makes it 1 byte long |
| Scenarios.WriteShort215 | test/easy-buffer.test.ts:9-10 | a `UInt16LE` then makes it 3 bytes long |
| Scenarios.WriteWord1782 | test/easy-buffer.test.ts:11-12 | a `UInt32LE` then makes it 7 bytes long |
| Scenarios.ReadByte13 | test/easy-buffer.test.ts:20-23 | over the 7 bytes of the numbers followed by any 14 bytes, 21 bytes remain; reading the `UInt8` gives 13 and leaves 20 |
| Scenarios.ReadShort215 | test/easy-buffer.test.ts:24-25 | reading the `UInt16LE` then gives 215 and leaves 18 bytes |
| Scenarios.ReadWord1782 | test/easy-buffer.test.ts:26-27 | reading the `UInt32LE` then gives 1782 and leaves exactly the 14 bytes after the numbers |
| Scenarios.ShortReadScenario | test/easy-buffer.test.ts:40-49 | a `UInt8` from 0 bytes, a `UInt16LE` from 1 byte and a `UInt32LE` from 3 bytes all fail, leaving the reader unchanged |
| Scenarios.OverwriteSteps | test/easy-buffer.test.ts:107-122 | "hello world!" then a relative move of 0 and "?" appends, giving "hello world!?"; a move of -9 puts the cursor at 4, where "y" overwrites one byte, giving "helly world!?" |
| Scenarios.OverwriteScenario | test/easy-buffer.test.ts:107-122 | a plain-string read over the writer's buffer after each of those writes returns "hello world!", "hello world!?" and "helly world!?" |
| Scenarios.PaddingScenario | test/easy-buffer.test.ts:152-162 | "cool" gives 4 bytes; a relative move of 3 pads to 7 with zeros; "wow" gives 10; a move of -3 leaves 10 |

## Left out

- Text encodings (`BufferEncoding`, `Buffer.from`, `toString`) are Node calls. Strings are their raw bytes, and the encoding is the identity.
- Values and offsets are modelled as integers: a number is a `nat`, and cursors and offsets are `int` or `nat`. A JavaScript `number` can also be fractional or `NaN`. Node's writers truncate such a value and write it without error. `subarray` truncates a fractional cursor toward zero, so reads and writes happen at the truncated position while the stored cursor keeps its fraction. Neither case is modelled.
- Negative cursors are left out. On the reader they reach Node's negative-index `subarray`, so `Remaining`, `Read` and `ReadMap` require `cursor >= 0`. On the writer they are an unresolved TODO in the source, so `BufferWriter.Offset` requires a non-negative target and the writer's cursor is a natural number.
- BufferWriter.Write: requires `Fits(v)`. Node's `writeUInt8`/`writeUInt16LE`/`writeUInt32LE` throw a range error for a number that is negative or too large for the kind. That error path is a precondition here, not an error result.
- BufferWriter.WriteMap: the step is a pure function from writer, item and index to writer. Callbacks that mutate other state or throw are not modelled.
- BufferReader.ReadMap: the mapper is a pure function returning an item and a reader, or an error. It must advance the cursor while bytes remain, since the source's loop terminates only under that caller obligation. On an error the result is the error alone; the position the source's mutable reader was left at is not modelled.
- RoundTrip.WriteItem and RoundTrip.ReadItem: a value whose type does not match its kind, and a call index past the list of kinds, have no counterpart in the source. The TypeScript types rule these out; the model leaves the writer as it is or returns `OutOfBounds`.
- The writer's public `buffer` field, which callers could reassign, is not modelled.
- `lib/bufferable.ts` is left out. It declares a wider union of kinds (`Int8`, big-endian kinds, `StringNT`, `Buffer`, a `length` field) with no implementation in this revision's reader or writer.
- `lib/util.ts` is a type-level helper with no runtime behaviour.
- Test assertions that target a newer revision are left out: the `length` parameter, the `StringNT` and `Buffer` kinds, the "Offset out of bounds" errors, front padding and negative absolute offsets on the writer.
- Error message texts are not modelled, only which error occurs.
