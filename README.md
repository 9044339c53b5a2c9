# Cetera in Dafny

A model of the core of Cetera, a C# library that reads the file formats of
Nintendo 3DS games. The core covers four parts:

- **Compression.** The run-length codec (`RLE`), the LZ77 variants `LZ10` and
  `LZ11`, and CriWare's container. The container exists twice: the
  `Cetera.Compression.CriWare` dispatcher and the older
  `CriWareCompression`, with its LZSS and Huffman decoders.
- **Byte streams.** `BinaryReaderX` and `BinaryWriterX`: little-endian
  reads, nibble reads and writes, sections, C strings.
- **Textures.** `Common.GetColorsFromTexture`, the per-format colour
  decoders, and `Common.Load` with its swizzled point order. The legacy
  `Image/ImageCommon.cs` is modelled too. The ETC1 codec `Etc1.cs` is
  modelled except as listed under "Left out": block layout, decoder,
  encoder, optimizer, solid-colour packing and the 3DS block order.
- **Containers.** The `XI` texture, the `DARC` and `SARC` archives, `MSBT`
  text, and the `BCFNT` font in both versions. `Cetera/Font/BCFNT.cs` decodes
  its sheet through `Common`. The root `BCFNT.cs` paints the sheet with its
  own pixel loop.

How the model is built:

- A stream is its bytes and a position.
- An exception is the `Fail` case of `Result`, with the .NET exception it
  stands for (`EndOfStream`, `IndexOutOfRange`, `NotSupported`, ...).
- Two loops of the source can run for ever: the method-0 `char` counter of a
  BCFNT CMAP block at `code_end` 0xFFFF, and the XI padding loop at the end
  of a stream. The operations (`Xi.Open`, `Bcfnt.Mapping` and through it
  both BCFNT parsers) run corrected loops that end. Only the members that
  exhibit the loops as written (`Xi.PaddingEnd`, `Bcfnt.CharCodes`) answer
  `Fail(Diverges)` for them, as "Findings" records. (Fuel-bounded section
  chains also answer `Diverges`; see "Left out".)
- `int` and `uint` arithmetic that wraps is written out with `Int32` and
  `ToUInt32`.
- C#'s `/` and `%`, which truncate, are `CsDiv` and `CsRem`.
- Classes that the source updates in place are Dafny classes: the reader and
  writer, the ETC1 `Decoder`, `Encoder` and `Optimizer`, and the legacy
  nibble closure.
- Each loop is a method proved equal to a recursive specification function.
  The lemmas about that function state what the source promises: round
  trips, layouts, bounds, and which error is thrown where.

Each module sits in one file, and each file models one source file. The
exceptions are `primitives.dfy` (shared integer and result helpers),
`lz77.dfy` (the back-reference copy that LZ10 and LZ11 share), the Etc1
modules, which split `Etc1.cs` by concern, and `texture_reader.dfy`, the
reader-level loop of `GetColorsFromTexture`.

## Model

| member | source | states |
|---|---|---|
| BinaryReaderX.Take | Cetera/IO/BinaryReaderX.cs:46 | `ReadBytes(n)` returns the `n` bytes at the position, or all that remain at the end of the stream, and nothing past it |
| BinaryReaderX.ReadFixed | Cetera/IO/BinaryReaderX.cs:46 | a fixed-width read succeeds exactly when all `n` bytes are present, and returns them |
| BinaryReaderX.NibbleRunAdvances | Cetera/IO/BinaryReaderX.cs:25-38 | `n` `ReadNibble` calls from a valid state return `n` values in 0..15, stay inside the stream, and either read a byte or empty a pending slot; the only failure is end of stream |
| BinaryReaderX.NibbleRunFromEmpty | Cetera/IO/BinaryReaderX.cs:25-38 | from the empty slot, `N` calls consume ⌈N/2⌉ bytes and return the nibbles low nibble first; after an odd `N` the slot holds the last byte |
| BinaryReaderX.CString | Cetera/IO/BinaryReaderX.cs:20-21 | `ReadCStringA`/`ReadCStringW` return at most 999 code units |
| BinaryReaderX.CStringUnits | Cetera/IO/BinaryReaderX.cs:20-21 | every returned unit is the non-zero byte (or 16-bit unit) at its offset |
| BinaryReaderX.CStringEnd | Cetera/IO/BinaryReaderX.cs:20-21 | unless the 999-unit budget runs out, the string ends at a zero unit, which is consumed |
| BinaryReaderX.String4IsCString | Cetera/IO/BinaryReaderX.cs:45 | a 4-byte magic read as `String4` is the NUL-free C string of its bytes, at most four characters |
| BinaryReaderX.BodySizeWraps | Cetera/IO/BinaryReaderX.cs:46 | `ReadInt32() - 8` is computed with C#'s 32-bit wrap-around |
| BinaryReaderX.SectionAt | Cetera/IO/BinaryReaderX.cs:45-47 | one section is a 4-byte magic, a 32-bit size and `size - 8` body bytes, and the read ends right after them; a read that starts at or past the end of the stream throws NullReferenceException (`ToStruct` over the empty array `ReadBytes` returns) and a partial one is undefined |
| BinaryReaderX.SectionsFrom | Cetera/IO/BinaryReaderX.cs:44-48 | exactly `count` sections are returned |
| BinaryReaderX.SectionsFootprint | Cetera/IO/BinaryReaderX.cs:44-48 | the read ends right after the bytes the returned sections occupy |
| BinaryReaderX.Sections | Cetera/IO/BinaryReaderX.cs:40-58 | `ReadSections` reads the 20-byte header and returns exactly `section_count` sections, ending right after them; a read that starts at or past the end of the stream throws NullReferenceException (`ToStruct` over the empty array `ReadBytes` returns) and a partial one is undefined |
| BinaryReaderX.ReadMultiple | Cetera/IO/BinaryReaderX.cs:23 | `ReadMultiple(count, f)` returns `f(0) .. f(count - 1)` in index order; a negative count throws |
| BinaryReaderX.StructAt | Cetera/IO/BinaryReaderX.cs:22 | a struct read succeeds exactly when the whole struct is present and yields its bytes; at or past the end of the stream it throws NullReferenceException (`ToStruct` over the empty array `ReadBytes` returns), and a partial struct is an unchecked read past its buffer |
| BinaryReaderX.Reader.constructor | Cetera/IO/BinaryReaderX.cs:13-17 | a new reader is at position 0 with an empty nibble slot |
| BinaryReaderX.Reader.Seek | Cetera/IO/BinaryReaderX.cs:42 | setting the position; a negative position throws and changes nothing |
| BinaryReaderX.Reader.ReadByte | Cetera/IO/BinaryReaderX.cs:29 | returns the byte at the position and advances by one, or fails at the end of the stream without moving |
| BinaryReaderX.Reader.ReadExact | Cetera/IO/BinaryReaderX.cs:45 | a read of `n` bytes that must all be present, advancing by `n` only when it succeeds |
| BinaryReaderX.Reader.ReadStruct | Cetera/IO/BinaryReaderX.cs:22 | `ReadStruct<T>()` reads the struct's bytes and advances past them, failing as `StructAt` says |
| BinaryReaderX.Reader.ReadBytes | Cetera/IO/BinaryReaderX.cs:46 | `ReadBytes(count)` returns what `Take` returns and advances by its length; a negative count throws |
| BinaryReaderX.Reader.ReadUInt16 | Cetera/IO/BinaryReaderX.cs:15 | the little-endian 16-bit value at the position, or end of stream |
| BinaryReaderX.Reader.ReadInt32 | Cetera/IO/BinaryReaderX.cs:46 | the little-endian signed 32-bit value at the position, or end of stream |
| BinaryReaderX.Reader.ReadUInt64 | Cetera/IO/BinaryReaderX.cs:15 | the little-endian 64-bit value at the position, or end of stream |
| BinaryReaderX.Reader.ReadNibble | Cetera/IO/BinaryReaderX.cs:25-38 | from the empty slot it reads a byte, keeps it and returns its low nibble; otherwise it returns the kept byte's high nibble and empties the slot without reading; the value is always in 0..15 |
| BinaryReaderX.Reader.ReadUnit | Cetera/IO/BinaryReaderX.cs:20-21 | one `ReadByte` or `ReadInt16` cast to `char` |
| BinaryReaderX.Reader.ReadCString | Cetera/IO/BinaryReaderX.cs:20-21 | the loop returns what `CString` specifies and leaves the position after the terminator |
| BinaryReaderX.Reader.ReadSection | Cetera/IO/BinaryReaderX.cs:45-47 | one section read as `SectionAt` specifies, including its NullReferenceException at the end of the stream |
| BinaryReaderX.Reader.ReadSectionList | Cetera/IO/BinaryReaderX.cs:44-48 | the section loop returns what `SectionsFrom` specifies |
| BinaryReaderX.Reader.ReadSections | Cetera/IO/BinaryReaderX.cs:40-58 | `ReadSections` returns the header's magic and the sections that `Sections` specifies, including its NullReferenceException at the end of the stream |
| BinaryWriterX.NibbleWrites | Cetera/IO/BinaryWriterX.cs:36-48 | successive `WriteNibble` calls always leave the pending slot empty or holding a 4-bit value |
| BinaryWriterX.NibbleWritesPair | Cetera/IO/BinaryWriterX.cs:39-47 | from the empty slot, a pair of calls writes the single byte `first + 16 * second` (both masked) and empties the slot |
| BinaryWriterX.NibbleWritesFromEmpty | Cetera/IO/BinaryWriterX.cs:13-48 | from the empty slot, the calls write exactly the packed pairs; an odd last value stays pending and is never written |
| BinaryWriterX.PackedNibble | Cetera/IO/BinaryWriterX.cs:38-45 | nibble `k` of the packed bytes, low nibble first, is value `k` masked to 4 bits |
| BinaryWriterX.NibbleRoundTrip | Cetera/IO/BinaryWriterX.cs:36-48 | writing an even number of nibbles and reading them back with `ReadNibble` returns every value masked to 4 bits, in order, whatever follows |
| BinaryWriterX.LengthPrefixed | Cetera/IO/BinaryWriterX.cs:19-24 | `WriteString` writes one more byte than the encoded string, and the encoded bytes follow the first one |
| BinaryWriterX.LengthPrefixedRoundTrip | Cetera/IO/BinaryWriterX.cs:22 | a written string reads back intact, whatever follows it, exactly when it is shorter than 256 bytes, because the length is cast to a byte |
| BinaryWriterX.Writer.constructor | Cetera/IO/BinaryWriterX.cs:13-17 | a new writer has written nothing and has an empty nibble slot |
| BinaryWriterX.Writer.WriteNibble | Cetera/IO/BinaryWriterX.cs:36-48 | appends what `NibbleWrite` specifies and updates the slot |
| BinaryWriterX.Writer.WriteString | Cetera/IO/BinaryWriterX.cs:19-24 | appends the length byte and the encoded bytes |
| Rle.Block | Cetera/Compression/RLE.cs:21-25 | one block always consumes its flag byte and stays inside the stream |
| Rle.DecodeFrom | Cetera/Compression/RLE.cs:19-35 | a successful decode returns exactly `decompressedLength` bytes and stops inside the stream |
| Rle.BlockKinds | Cetera/Compression/RLE.cs:21-25 | a flag of 128 or more gives `flag - 125` (3..130) copies of the next byte; a smaller flag gives the next `flag + 1` (1..128) bytes as they are, fewer only at the end of the stream |
| Rle.UnreadTail | Cetera/Compression/RLE.cs:27-30 | the decoder returns as soon as the length is reached: the bytes after where it stops are never read and do not change the result |
| Rle.EncodeRoundTrip | Cetera/Compression/RLE.cs:19-35 | decoding what a reference literal-block encoder writes gives the bytes back and stops right after them, whatever follows |
| Rle.ShiftDecode | Cetera/Compression/RLE.cs:19-35 | decoding depends only on the bytes from the stream's position on |
| Rle.Example | Cetera/Compression/RLE.cs:21-30 | `02 AA BB CC 81 FF` with length 7 decodes to `AA BB CC FF FF FF FF` |
| Rle.Decompress | Cetera/Compression/RLE.cs:13-37 | `RLE.Decompress(instream, decompressedLength)`: the blocks decoded from the start of the stream until the length is reached; a result holds exactly `decompressedLength` bytes |
| Rle.DecompressBytes | Cetera/Compression/RLE.cs:13-37 | the method returns what `Decompress` specifies |
| Rle.DecodeBytes | Cetera/Compression/RLE.cs:19-35 | the `while (true)` loop returns what `DecodeFrom` specifies, and where reading stopped |
| Lz77.CopyBack | Cetera/Compression/LZ10.cs:108-117 | a back-reference appends exactly `length` bytes and leaves what was written before it unchanged |
| Lz77.CopyBackRepeats | Cetera/Compression/LZ10.cs:108-116 | every copied byte equals the byte `disp` places before it, so an overlapping copy repeats a pattern |
| Lz77.CopyBackAt | Cetera/Compression/LZ10.cs:111-113 | the same fact at one position of the copy |
| Lz10.Header | Cetera/Compression/LZ10.cs:37-42 | the declared size is the 24-bit little-endian value in bytes 1 to 3; the type byte is not checked |
| Lz10.NextMask | Cetera/Compression/LZ10.cs:59-71 | when the mask has run out a new flag byte is read (or the decode fails), otherwise the mask moves one bit right; no output is written |
| Lz10.BlockAt | Cetera/Compression/LZ10.cs:75-131 | each block consumes input, stays inside the stream and appends at least one byte after what was written |
| Lz10.Step | Cetera/Compression/LZ10.cs:53-133 | one pass of the `while` loop consumes input and only appends to the output |
| Lz10.Loop | Cetera/Compression/LZ10.cs:53-133 | the loop ends with at least the declared number of bytes, extending what it started with |
| Lz10.DispIsOr | Cetera/Compression/LZ10.cs:95-100 | a back-reference copies 3 to 18 bytes from 1 to 4096 bytes back, and the sum the model uses is the OR the source computes |
| Lz10.DecompressSize | Cetera/Compression/LZ10.cs:53-143 | a successful result has exactly the declared size, even when the last back-reference wrote past it |
| Lz10.TooMuchInputRule | Cetera/Compression/LZ10.cs:135-140 | a finished decode is accepted exactly when no more than the next 4-byte boundary plus 4 bytes of input remain |
| Lz10.FirstBlockLiteral | Cetera/Compression/LZ10.cs:102-105 | a back-reference before anything is written throws |
| Lz10.Example | Cetera/Compression/LZ10.cs:53-143 | a literal `A` and a reference one byte back for three bytes decode to four `A`s |
| Lz10.RingPush | Cetera/Compression/LZ10.cs:113-130 | writing the next byte at `written % 4096` keeps the ring holding the last 4096 output bytes |
| Lz10.RingRead | Cetera/Compression/LZ10.cs:108-111 | the byte the copy reads from the ring is the one `disp` places behind the end of the output |
| Lz10.LoopOk | Cetera/Compression/LZ10.cs:53-133 | a block that succeeds hands the loop on to the state after it |
| Lz10.LoopFail | Cetera/Compression/LZ10.cs:53-133 | a block that fails ends the loop with its exception |
| Lz10.Decompress | Cetera/Compression/LZ10.cs:32-143 | `LZ10.Decompress`: the block loop run to the header's size, then the too-much-input test; a result holds exactly the header's 24-bit size |
| Lz10.Decompress10 | Cetera/Compression/LZ10.cs:32-143 | the method with its 4096-byte ring buffer returns what `Decompress` specifies |
| Lz10.ReadBlock | Cetera/Compression/LZ10.cs:75-131 | one block written to the output and to the ring, as `BlockAt` specifies, keeping the ring current |
| Lz10.Emit | Cetera/Compression/LZ10.cs:113-130 | one output byte, also stored in the ring at the write offset |
| Lz10.CopyFromRing | Cetera/Compression/LZ10.cs:108-116 | the copy loop through the ring appends exactly what `CopyBack` specifies |
| Lz10.CopyOne | Cetera/Compression/LZ10.cs:111-115 | one byte of the copy is the byte `disp` places behind the end of the output |
| Lz11.Reference | Cetera/Compression/LZ11.cs:29-52 | a back-reference consumes input inside the stream and carries a length of 3 to 65808 and an offset of 1 to 4096 |
| Lz11.BlockAt | Cetera/Compression/LZ11.cs:26-58 | a block consumes input and writes at least one byte after what was written, never past the declared length |
| Lz11.Groups | Cetera/Compression/LZ11.cs:21-64 | the `while (true)` loop ends with exactly the declared length, extending what was already written |
| Lz11.Blocks | Cetera/Compression/LZ11.cs:24-63 | the same for the inner `for` loop from block `i` of a group |
| Lz11.ReferenceForms | Cetera/Compression/LZ11.cs:32-52 | top nibble 0 gives lengths 17 to 272 in three bytes, top nibble 1 lengths 273 to 65808 in four bytes, any other top nibble lengths 3 to 16 in two bytes |
| Lz11.RefRoundTrip | Cetera/Compression/LZ11.cs:29-52 | every length and offset a reference can carry is read back from its shortest encoding, whatever follows |
| Lz11.ShortRoundTrip | Cetera/Compression/LZ11.cs:47-52 | the two-byte encoding reads back its length and offset |
| Lz11.MediumRoundTrip | Cetera/Compression/LZ11.cs:32-38 | the three-byte encoding reads back its length and offset |
| Lz11.LongRoundTrip | Cetera/Compression/LZ11.cs:39-46 | the four-byte encoding reads back its length and offset |
| Lz11.FlagOrder | Cetera/Compression/LZ11.cs:26-62 | after `i` shifts, `header & 0x80` tests bit `7 - i`: the flags are read most significant bit first |
| Lz11.DecompressLength | Cetera/Compression/LZ11.cs:17-61 | a successful decode fills exactly the length in the header's upper 24 bits |
| Lz11.EmptyOutputFails | Cetera/Compression/LZ11.cs:18-61 | a declared length of zero always throws, because the first block has nowhere to write |
| Lz11.Example | Cetera/Compression/LZ11.cs:21-64 | a literal `A` and a two-byte reference of length 3 and distance 1 decode to four `A`s |
| Lz11.Overshoot | Cetera/Compression/LZ11.cs:54-58 | the same stream declaring three bytes throws an index error, because the copy writes past the end of the array |
| Lz11.Decompress | Cetera/Compression/LZ11.cs:13-66 | `LZ11.Decompress`: a stream shorter than its 4-byte header throws end of stream; a result holds exactly the header's length |
| Lz11.Decompress11 | Cetera/Compression/LZ11.cs:13-66 | the method over the preallocated result array returns what `Decompress` specifies |
| Lz11.ReadBlock | Cetera/Compression/LZ11.cs:26-58 | one block written into the array, as `BlockAt` specifies |
| Lz11.CopyWithin | Cetera/Compression/LZ11.cs:54-58 | the byte-by-byte copy fails with an index error exactly when it starts before the array or runs past its end; otherwise it appends what `CopyBack` specifies |
| CriWare.HeaderSplit | Cetera/Compression/CriWare.cs:24-26 | the header is `8 * size + method` with C#'s truncating `/` and `%`: a non-negative header gives the method in 0..7, a negative one a method in -7..0 and a size of at most 0 |
| CriWare.Stored | Cetera/Compression/CriWare.cs:30-31 | method 0 returns the `size` bytes after the header (fewer at the end of the stream) and throws on a negative size |
| CriWare.GetDecompressedBytes | Cetera/Compression/CriWare.cs:20-44 | a stream shorter than the 4-byte header throws end of stream |
| CriWare.HeaderRoundTrip | Cetera/Compression/CriWare.cs:24-26 | a header written as `8 * size + method` reads back as that size and method |
| CriWare.Routes | Cetera/Compression/CriWare.cs:28-42 | every header hands the rest of the stream and the size to the decoder its method names (4 bits for method 2, 8 for method 3); methods 5 to 7 are not supported |
| CriWare.StoredRoundTrip | Cetera/Compression/CriWare.cs:30-31 | stored data reads back unchanged, whatever follows it |
| CriWare.NegativeHeaderFails | Cetera/Compression/CriWare.cs:24-41 | a header with the sign bit set never decodes |
| CriWare.ZeroHeader | Cetera/Compression/CriWare.cs:24-31 | a zero header yields an empty array |
| CriWareLegacy.LzssRef | Compression/CriWareCompression.cs:39-41 | a reference is a big-endian 16-bit value: distance 1 to 4096 from its low 12 bits, length 3 to 18 from its high 4; a short read throws |
| CriWareLegacy.RefRoundTrip | Compression/CriWareCompression.cs:39-41 | every distance and length a reference can carry reads back from its two bytes |
| CriWareLegacy.LzssBlock | Compression/CriWareCompression.cs:36-44 | a block consumes input and appends at least one byte |
| CriWareLegacy.Lzss | Compression/CriWareCompression.cs:33-54 | the LZSS loop returns exactly `size` bytes whenever it returns |
| CriWareLegacy.LzssExample | Compression/CriWareCompression.cs:33-54 | flag byte 0x40, a literal `A` and the reference `00 00` decode to four `A`s |
| CriWareLegacy.LzssOvershoot | Compression/CriWareCompression.cs:49-52 | the same stream for a size of 3 runs past it and throws |
| CriWareLegacy.Direction | Compression/CriWareCompression.cs:66 | the direction is 1 or 2 |
| CriWareLegacy.DirectionBit | Compression/CriWareCompression.cs:63-66 | the direction of iteration `i` is bit `31 - i % 32` of the little-endian code word: 1 (second child) when it is set, 2 (first child) when it is clear |
| CriWareLegacy.LeafBit | Compression/CriWareCompression.cs:67 | `(pos >> 5 >> direction) % 2` reads bit 7 of the node for the first child and bit 6 for the second |
| CriWareLegacy.HuffLoop | Compression/CriWareCompression.cs:62-80 | the Huffman loop returns exactly `size * 8 / num_bits` symbols whenever it returns |
| CriWareLegacy.Walk | Compression/CriWareCompression.cs:64-73 | the reference walk of one symbol uses at least one bit, leaves the bits after the ones it used, and fails only at the end of the code words or on a child outside the tree |
| CriWareLegacy.Symbols | Compression/CriWareCompression.cs:69-79 | the reference decoder returns exactly `target` symbols, extending what was decoded before |
| CriWareLegacy.PendingHead | Compression/CriWareCompression.cs:63 | each iteration takes the next bit of the current code word, and a new word is read every 32 bits |
| CriWareLegacy.HuffLoopWalks | Compression/CriWareCompression.cs:62-80 | from any state that has not just finished, the bit-serial loop returns what the reference decoder returns on the bits still to come, symbol by symbol and with the same exceptions |
| CriWareLegacy.HuffLoopSymbols | Compression/CriWareCompression.cs:57-80 | from the start of the code words, the loop is the reference decoder over their bits whenever it has a symbol to produce |
| CriWareLegacy.Pack | Compression/CriWareCompression.cs:78 | 4-bit mode returns `size` bytes |
| CriWareLegacy.PackNibbles | Compression/CriWareCompression.cs:78 | each packed byte holds the even symbol in its low nibble and the odd one in its high nibble |
| CriWareLegacy.Huffman | Compression/CriWareCompression.cs:55-80 | a successful Huffman decode returns exactly `size` bytes |
| CriWareLegacy.StrictRle | Compression/CriWareCompression.cs:81-100 | a successful RLE decode returns exactly `size` bytes |
| CriWareLegacy.DecompressedSize | Compression/CriWareCompression.cs:24-102 | every compressed method yields exactly the size in the header |
| CriWareLegacy.StrictRleAgrees | Compression/CriWareCompression.cs:91-95 | on RLE data this decoder agrees with `RLE.Decompress` whenever it succeeds, and rejects exactly the streams with bytes left after the last block |
| CriWareLegacy.AgreesWithCriWare | Compression/CriWareCompression.cs:24-102 | this dispatcher agrees with `CriWare.GetDecompressedBytes` on stored data and unknown methods, and wherever it decodes RLE data |
| CriWareLegacy.HuffmanExample | Compression/CriWareCompression.cs:55-80 | a one-node tree with leaves `A` and `B` and a code word starting with bits 0 and 1 decodes to `AB` |
| CriWareLegacy.GetDecompressedBytes | Compression/CriWareCompression.cs:20-106 | the method returns what `Decompressed` specifies |
| CriWareLegacy.LzssLoop | Compression/CriWareCompression.cs:33-54 | the LZSS `for` loop returns what `Lzss` specifies |
| CriWareLegacy.LzssBlockOf | Compression/CriWareCompression.cs:36-44 | one block, as `LzssBlock` specifies |
| CriWareLegacy.CopyWithin | Compression/CriWareCompression.cs:42-43 | the copy throws when the distance reaches before the output, and otherwise appends what `CopyBack` specifies |
| CriWareLegacy.HuffmanBytes | Compression/CriWareCompression.cs:55-80 | the Huffman arm returns what `Huffman` specifies |
| CriWareLegacy.HuffmanLoop | Compression/CriWareCompression.cs:62-80 | the Huffman `for` loop returns what `HuffLoop` specifies |
| CriWareLegacy.HuffBit | Compression/CriWareCompression.cs:64-68 | one bit of the tree walk, as `HuffStep` specifies |
| Etc1.MakeRGB | Cetera/Image/Etc1.cs:54-60 | `new RGB(r, g, b)` stores channels that are already bytes unchanged |
| Etc1.Clamp | Cetera/Image/Etc1.cs:122 | `Clamp` keeps 0..255, takes anything below to 0 and anything above to 255 |
| Etc1.Sign3RoundTrip | Cetera/Image/Etc1.cs:108-123 | every difference from -4 to 3 survives the three-bit field `(d + 8) % 8` and `Sign3` (the packing is at lines 484-486) |
| Etc1.Sign3Range | Cetera/Image/Etc1.cs:123 | every three-bit field reads as a difference in -4..3 that writes back to the same field |
| Etc1.Extend5to8Sum | Cetera/Image/Etc1.cs:124 | `(n << 3) \| (n >> 2)` on five bits is `8n + n / 4`, at most 255, and 31 widens to 255 (`RGB.Scale` uses it at line 65) |
| Etc1.SquareIsProduct | Cetera/Image/Etc1.cs:125 | `Square(n)` is `n * n` |
| Etc1.ErrorRGB | Cetera/Image/Etc1.cs:127 | the weighted error is never negative, and it is zero exactly when all three differences are zero |
| Etc1.Diff | Cetera/Image/Etc1.cs:63 | `c1 - c2` lies between 0 and `9 * 255^2`, and it is zero exactly when the colours are equal |
| Etc1.UnscaleScale | Cetera/Image/Etc1.cs:65-66 | `Unscale(limit)` undoes `Scale(limit)` for every colour with channels below the limit, at 16 and at 32 levels |
| Etc1.FlipBitSetter | Cetera/Image/Etc1.cs:79-83 | the `FlipBit` setter changes only bit 0 of the flags, and the getter then returns the value set |
| Etc1.DiffBitSetter | Cetera/Image/Etc1.cs:84-88 | the `DiffBit` setter changes only bit 1, and the getter then returns the value set |
| Etc1.Table0Setter | Cetera/Image/Etc1.cs:90-94 | the `Table0` setter of a value below 8 changes only bits 5-7, and the getter then returns the value |
| Etc1.Table1Setter | Cetera/Image/Etc1.cs:95-99 | the `Table1` setter of a value below 8 changes only bits 2-4, and the getter then returns the value |
| Etc1.FlagFieldsIndependent | Cetera/Image/Etc1.cs:79-99 | after the four setters run in `FromSet`'s order, each getter returns the value it was given (the setters are used at lines 457-463) |
| Etc1.PlaneBitHalves | Cetera/Image/Etc1.cs:100 | for `i < 16`, bit `i` of a selector plane is a bit of its low or of its high byte |
| Etc1.IndividualPacking | Cetera/Image/Etc1.cs:491-496 | in individual mode, `c0 * 16 + c1` reads back as `Color0 == c0` and `Color1 == c1` for four-bit colours (read back by `Color0`/`Color1` at lines 102-106) |
| Etc1.DifferentialPacking | Cetera/Image/Etc1.cs:480-489 | in differential mode, `c0 * 8 + (c1 - c0 + 8) % 8` reads back as `c0` and `c1` whenever `c0` has five-bit channels and `c1` lies within -4..3 of it (read back by `Color0`/`Color1` at lines 102-112) |
| Etc1.Pixel | Cetera/Image/Etc1.cs:141-148 | pixel `i` has alpha `((Alpha >> 4i) % 16) * 17` and the RGB of its sub-block's base colour plus the modifier its selector picks |
| Etc1.DecodeBlock | Cetera/Image/Etc1.cs:133-150 | `Decoder.Get` queues sixteen colours, the `n`-th being pixel `order3ds[n]` |
| Etc1.Order3dsFourth | Cetera/Image/Etc1.cs:35 | `order3ds` maps 0..15 into 0..15 and applying it four times is the identity, so three times inverts it (line 163 applies it) |
| Etc1.SplitAgrees | Cetera/Image/Etc1.cs:143-145 | the decoder's sub-block test `i & mask` is the encoder's split `(j / mask) % 2` (the encoder splits at lines 362 and 366) |
| Etc1Codec.Inverse3ds | Cetera/Image/Etc1.cs:163 | `order3ds[order3ds[order3ds[j]]]` is the pixel that `order3ds` sends to `j` |
| Etc1Codec.Reorder | Cetera/Image/Etc1.cs:163 | the reordered list has sixteen colours, colour `j` being `queue[order3ds^3[j]]` |
| Etc1Codec.ReorderVisit | Cetera/Image/Etc1.cs:35 | the `n`-th colour set lands at pixel `order3ds[n]` of the reordered list (line 163 applies it) |
| Etc1Codec.Order3dsInjective | Cetera/Image/Etc1.cs:35 | `order3ds` sends distinct positions to distinct pixels |
| Etc1Codec.Rgbs | Cetera/Image/Etc1.cs:165 | the RGB list keeps the length and the channels of every colour |
| Etc1Codec.AlphaNibbles | Cetera/Image/Etc1.cs:164 | the alpha fold stays below `2^(4n)` (sixteen colours fit the `ulong`) and its nibble `j` is colour `j`'s alpha divided by 16 |
| Etc1Codec.Requantized | Cetera/Image/Etc1.cs:148-164 | what the codec keeps of a colour: its RGB, and an alpha that is a multiple of 17 within 15 of the original |
| Etc1Codec.AlphaRoundTrip | Cetera/Image/Etc1.cs:133-168 | whatever block the encoder picks, decoding what it emits returns the alpha of the `n`-th colour set, four bits deep, as colour `n` |
| Etc1Codec.RoundTrip | Cetera/Image/Etc1.cs:133-168 | when `Check` finds a block, decoding what the encoder emits returns the sixteen colours in the order they were set, alpha four bits deep (`Encode` is called at lines 503-506) |
| Etc1Codec.PixelSplit | Cetera/Image/Etc1.cs:137-148 | pixel `i` is computed from the two scaled base colours and the tables the decoder reads once per block |
| Etc1Codec.Decoder.Get | Cetera/Image/Etc1.cs:133-151 | the supplier is called exactly when the queue is empty; the colour returned is the head of the queue, refilled with the decoded block when it was empty, and the rest stays queued |
| Etc1Codec.Encoder.Set | Cetera/Image/Etc1.cs:158-170 | fewer than sixteen colours are only queued; the sixteenth emits the alpha word and block of the queued colours and clears the queue |
| Etc1Check.Distinct | Cetera/Image/Etc1.cs:363-367 | LINQ `Distinct` keeps exactly the values of its input, each once, and is no longer |
| Etc1Check.ReachValues | Cetera/Image/Etc1.cs:345-353 | `lookupbig[t][a]` holds exactly the clamped sums of the base level and a modifier of table `t`, each once |
| Etc1Check.ReachedSome | Cetera/Image/Etc1.cs:337-354 | `lookup[t][k]` is set exactly when some base value below the limit reaches `k` with table `t` |
| Etc1Check.Tables | Cetera/Image/Etc1.cs:374-408 | `tables0`/`tables1` hold exactly the tables below 8 that fit every distinct colour of the sub-block |
| Etc1Check.Candidates | Cetera/Image/Etc1.cs:383-417 | `rs`, `gs`, `bs` hold exactly the base values that reach that channel of every distinct colour |
| Etc1Check.Product | Cetera/Image/Etc1.cs:386 | the candidate colours are exactly the triples of candidate channels (and its differential twin at line 418) |
| Etc1Check.NearBy | Cetera/Image/Etc1.cs:433-441 | the `where` filters keep exactly the values within -4..3 of the first solution's channel |
| Etc1Check.NearProduct | Cetera/Image/Etc1.cs:432-443 | every colour of the differential query is a candidate and lies within -4..3 of the first solution |
| Etc1Check.FirstMatch | Cetera/Image/Etc1.cs:380-389 | the first solution found reproduces the sub-block exactly and fits the colour depth |
| Etc1Check.Individual | Cetera/Image/Etc1.cs:372-402 | the individual-mode branch returns only a solution pair that `FromSet` can pack and that reproduces both sub-blocks |
| Etc1Check.AllMatches | Cetera/Image/Etc1.cs:410-419 | every solution gathered for the first sub-block is exact and fits five bits |
| Etc1Check.NearMatch | Cetera/Image/Etc1.cs:421-449 | a pair found for the second sub-block pairs a gathered solution with an exact one within -4..3 of it |
| Etc1Check.Differential | Cetera/Image/Etc1.cs:404-451 | the differential branch returns only a solution pair that `FromSet` can pack and that reproduces both sub-blocks |
| Etc1Check.Check | Cetera/Image/Etc1.cs:358-453 | a block returned decodes to the sixteen colours, and its flip splits them into sub-blocks of at most four distinct colours |
| Etc1Optimizer.Errors | Cetera/Image/Etc1.cs:285-288 | each entry's error is below `MAX_ERROR` and zero exactly when the entry is the pixel |
| Etc1Optimizer.ErrorsAt | Cetera/Image/Etc1.cs:288 | the error of entry `k` is `pixel - newTable[k]` |
| Etc1Optimizer.MinFromFirstMinimum | Cetera/Image/Etc1.cs:285-294 | the inner loop ends on the least error, at the first index that holds it |
| Etc1Optimizer.BestIsFirstMinimum | Cetera/Image/Etc1.cs:283-294 | each pixel picks the first of the entries nearest to it |
| Etc1Optimizer.BestExact | Cetera/Image/Etc1.cs:285-294 | the picked entry has no error exactly when the pixel is one of the entries, and then it is the pixel |
| Etc1Optimizer.ErrorSumGrows | Cetera/Image/Etc1.cs:295 | the running error never falls as pixels are added |
| Etc1Optimizer.ErrorSumZero | Cetera/Image/Etc1.cs:295 | no error over a prefix means no error at any of its pixels |
| Etc1Optimizer.SetBit | Cetera/Image/Etc1.cs:297-298 | `\|= (byte)(bit << i)` sets bit `i` when the bit is 1 and leaves every other bit alone |
| Etc1Optimizer.PlaneBits | Cetera/Image/Etc1.cs:297-298 | after `n` pixels, bit `p` of a selector plane holds pixel `p`'s selector bit for `p < n` and 0 beyond |
| Etc1Optimizer.RunStep | Cetera/Image/Etc1.cs:283-299 | one more pixel adds its error, then gives up when the bound is reached or ORs in its selector bits |
| Etc1Optimizer.RunOutcome | Cetera/Image/Etc1.cs:283-301 | stopping early loses nothing: the loop's answer is the solution of all eight pixels unless their total error reaches the bound |
| Etc1Optimizer.RunStops | Cetera/Image/Etc1.cs:296 | a loop that has given up stays given up |
| Etc1Optimizer.EvaluateSelectors | Cetera/Image/Etc1.cs:275-302 | an accepted solution gives every pixel the first of its nearest entries, and its error is below the bound |
| Etc1Optimizer.EvaluateExact | Cetera/Image/Etc1.cs:275-302 | against a best error of 1, only a solution that reproduces every pixel exactly is accepted |
| Etc1Optimizer.NoCostExact | Cetera/Image/Etc1.cs:285-295 | a pixel with no picked error is its picked entry |
| Etc1Optimizer.ExactMatchesExact | Cetera/Image/Etc1.cs:248-256 | every match reproduces the pixels exactly, with the given table and one of the candidate colours |
| Etc1Optimizer.ExactMatchesStep | Cetera/Image/Etc1.cs:250-255 | a candidate's match, if any, comes before those of the later candidates |
| Etc1Optimizer.FirstOf | Cetera/Image/Etc1.cs:388-400 | `FirstOrDefault` is empty exactly for no matches, and otherwise the first |
| Etc1Optimizer.Optimizer.EvaluateSolution | Cetera/Image/Etc1.cs:275-302 | the method answers whether the solution beats the best error and installs it exactly then, as `Evaluate` specifies |
| Etc1Optimizer.Optimizer.FindExactMatches | Cetera/Image/Etc1.cs:248-256 | the matches are those `ExactMatches` specifies, in candidate order |
| Etc1Optimizer.Optimizer.FirstExactMatch | Cetera/Image/Etc1.cs:248-256 | the lazy enumeration's first element is the first of all the matches (as `Check` uses it at line 388) |
| Etc1Optimizer.NewTable | Cetera/Image/Etc1.cs:278-281 | the first loop fills `newTable` with the four entries of the base colour and table |
| Etc1Optimizer.EvaluatePixels | Cetera/Image/Etc1.cs:283-299 | the second loop computes what `Evaluate` specifies |
| Etc1Optimizer.BestEntry | Cetera/Image/Etc1.cs:285-294 | the inner loop returns the entry `Best` picks and its error |
| Etc1Packing.Pos | Cetera/Image/Etc1.cs:465-479 | the position of bit `p` of sub-block `s` in the block's planes is one of the sixteen pixels |
| Etc1Packing.StackPlaneBit | Cetera/Image/Etc1.cs:476-478 | unflipped, bit `p` of sub-block `s`'s plane is bit `8s + p` of `m0 + 256 * m1` |
| Etc1Packing.FlipPlaneBit | Cetera/Image/Etc1.cs:465-474 | flipped, the spreading `(m & 0xC0) * 64 + (m & 0x30) * 16 + (m & 0xC) * 4 + (m & 3)` and `m0 + 4 * m1` put bit `p` of sub-block `s`'s plane at the pixel the decoder reads it from |
| Etc1Packing.BitAtMask | Cetera/Image/Etc1.cs:297-298 | reading a plane bit by shifting, as the decoder does, agrees with reading the bit the optimizer set by `1 << i` (the decoder reads the bits at line 100) |
| Etc1Packing.FromSetFlags | Cetera/Image/Etc1.cs:457-463 | the packed block's flip bit, mode bit and both tables read back as the chosen ones |
| Etc1Packing.PackDifferentialExact | Cetera/Image/Etc1.cs:483-489 | a differential channel `(byte)(c0 * 8 + (c1 - c0 + 8) % 8)` loses nothing to the byte cast when `c0` has five bits and `c1` lies within -4..3 of it |
| Etc1Packing.PackIndividualExact | Cetera/Image/Etc1.cs:493-495 | an individual channel `(byte)(c0 * 16 + c1)` of two nibbles loses nothing to the byte cast |
| Etc1Packing.FromSetColours | Cetera/Image/Etc1.cs:481-496 | the packed block's base colours read back as the two solutions' colours, at 32 levels in differential mode and 16 otherwise |
| Etc1Packing.FromSetSelectors | Cetera/Image/Etc1.cs:465-479 | the selector of pixel `Pos(flip, s, p)` of the packed block is the one sub-block `s`'s solution chose for its pixel `p` |
| Etc1Packing.Where | Cetera/Image/Etc1.cs:362-366 | `colors.Where((c, j) => (j / m) % 2 == s)` over `n` colours keeps at most `n` |
| Etc1Packing.WhereStack | Cetera/Image/Etc1.cs:362-366 | unflipped, sub-block 0 is the first eight colours and sub-block 1 the last eight, in order |
| Etc1Packing.WhereFlip | Cetera/Image/Etc1.cs:362-366 | flipped, each run of four colours gives its first two to sub-block 0 and its last two to sub-block 1 |
| Etc1Packing.SubBlockPixels | Cetera/Image/Etc1.cs:362-366 | each sub-block has eight pixels, pixel `p` of sub-block `s` being pixel `Pos(flip, s, p)` of the block |
| Etc1Packing.PosCovers | Cetera/Image/Etc1.cs:141-145 | every pixel of the block is a pixel of exactly the sub-block the decoder assigns it to (the encoder splits at lines 362 and 366) |
| Etc1Packing.FromSetDecodes | Cetera/Image/Etc1.cs:455-501 | a block packed from two solutions that reproduce their sub-blocks exactly decodes to the sixteen colours |
| Etc1Solid.FirstZero | Cetera/Image/Etc1.cs:12-30 | the first item whose key is 0, or none |
| Etc1Solid.LeastIndex | Cetera/Image/Etc1.cs:12-30 | the first item whose key is no larger than any other's |
| Etc1Solid.MinBy | Cetera/Image/Etc1.cs:12-30 | the loop returns the first item whose key is 0, and otherwise the first item of least key if that key is below `int.MaxValue`, and otherwise `default(T)` |
| Etc1Solid.MinByOfLeast | Cetera/Image/Etc1.cs:12-30 | on a non-empty input whose keys are all in 0..`int.MaxValue - 1`, `MinBy` returns an item of least key |
| Etc1Solid.Distance | Cetera/Image/Etc1.cs:182-183 | the distance between the clamped colour and the wanted channel is below 256 |
| Etc1Solid.KeyParts | Cetera/Image/Etc1.cs:183 | `(distance << 8) \| packed_c` holds the distance above its low byte and `packed_c` in it |
| Etc1Solid.MinKeyNearest | Cetera/Image/Etc1.cs:180-184 | the least key names, in its low byte, the first packed value of least distance, and holds that distance above it |
| Etc1Solid.InverseLookupNearest | Cetera/Image/Etc1.cs:176-184 | `inverseLookup[i * 256 + color]` is the first packed value of candidate `i`'s depth whose solid channel lies nearest `color`, with that distance in its high bits (the table is read at lines 307-309) |
| Etc1Solid.EntryIsMinKey | Cetera/Image/Etc1.cs:176-184 | entry `i * 256 + color` of the table is the least key of the depth, table and selector that `i` enumerates |
| Etc1Solid.Candidates | Cetera/Image/Etc1.cs:306-313 | the query enumerates the 64 candidates in order |
| Etc1Solid.CandidateNearest | Cetera/Image/Etc1.cs:306-313 | candidate `i`'s colour is below its depth, its error is the weighted error of its solid colour, and no colour of that depth, table and selector comes nearer |
| Etc1Solid.CandidatesFound | Cetera/Image/Etc1.cs:306-314 | every candidate error is below `int.MaxValue`, so `MinBy` picks a candidate of least error |
| Etc1Solid.SelectorByte | Cetera/Image/Etc1.cs:316-324 | for `i < 64`, bit 5 of `(byte)i` is the depth, bits 2-4 the table, and bits 1 and 0 the selector |
| Etc1Solid.SolidFlags | Cetera/Image/Etc1.cs:319-321 | the solid block is not flipped and has the chosen mode and table in both halves |
| Etc1Solid.SolidBlockDecodes | Cetera/Image/Etc1.cs:316-328 | the block of candidate `i` shows its solid colour at all sixteen pixels |
| Etc1Solid.PackSolidColorNearest | Cetera/Image/Etc1.cs:304-329 | `PackSolidColor(c)` shows one colour at all sixteen pixels, and no solid colour of any depth, table, selector and base colour is nearer `c` |
| Etc1Solid.PackSolidColorExact | Cetera/Image/Etc1.cs:304-329 | a colour that some solid block shows exactly is what `PackSolidColor` shows |
| Etc1Solid.WhiteBlock | Cetera/Image/Etc1.cs:506 | `PackSolidColor(new RGB(255, 255, 255))` shows white at all sixteen pixels |
| Etc1Solid.Encode | Cetera/Image/Etc1.cs:503-506 | `Encode` returns a block that decodes to the sixteen colours, or else the solid white block |
| ImageCommon.NextPowerOf2 | Cetera/Image/Common.cs:16 | `2 << (int)Math.Log(n - 1, 2)` as the doubling of 2 until it reaches `n`; `NextPowerOf2Least` states that this is the least power of two from 2 at least `n` |
| ImageCommon.NextPowerOf2Least | Cetera/Image/Common.cs:16 | `NextPowerOf2(n)` is a power of two, at least `n`, and the least such power from 2 upwards |
| ImageCommon.StrideFacts | Cetera/Image/Common.cs:137-139 | the stride is the width for swizzle values below 4 and the height otherwise; without padding it is that side or 8, with padding the least power of two at least that side (8 at least) |
| ImageCommon.InTile | Cetera/Image/Common.cs:145-146 | `x_in` and `y_in` lie in 0..7 and depend only on `i % 64` |
| ImageCommon.MortonIndex | Cetera/Image/Common.cs:145-146 | the index within a tile of an in-tile offset lies below 64 |
| ImageCommon.MortonOnto | Cetera/Image/Common.cs:145-146 | every offset of the 8 x 8 tile is the (`x_in`, `y_in`) of some index below 64 |
| ImageCommon.MortonOneToOne | Cetera/Image/Common.cs:145-146 | distinct indices below 64 have distinct in-tile offsets |
| ImageCommon.PointAt | Cetera/Image/Common.cs:140-164 | point `i` of `GetPointSequence` for a stride: tile `i / 64` along rows of `stride / 8` tiles, the Morton offset inside it, placed as each named swizzle says; an unnamed swizzle throws `NotSupportedException` (the lemmas below state each case) |
| ImageCommon.DefaultPoint | Cetera/Image/Common.cs:143-151 | `Default` puts index `i` at (`x_out + x_in`, `y_out + y_in`) |
| ImageCommon.TransposeTilePoint | Cetera/Image/Common.cs:143-155 | `TransposeTile` swaps the in-tile offsets and keeps the tile |
| ImageCommon.Rotate90Turns | Cetera/Image/Common.cs:156-158 | `Rotate90` takes the `Default` point (x, y) to (y, stride - 1 - x) |
| ImageCommon.TransposeSwaps | Cetera/Image/Common.cs:159-161 | `Transpose` is the `Default` point with its coordinates swapped |
| ImageCommon.UnknownSwizzleThrows | Cetera/Image/Common.cs:162-163 | a swizzle value without a name throws `NotSupportedException` at the first point |
| ImageCommon.PointInjective | Cetera/Image/Common.cs:141-165 | under every named swizzle, distinct indices give distinct points, so no pixel is written twice |
| ImageCommon.DefaultBounds | Cetera/Image/Common.cs:141-151 | with a stride that is a multiple of 8, the first `stride * stride` `Default` points lie in the `stride` x `stride` square |
| ImageCommon.DefaultOnto | Cetera/Image/Common.cs:141-151 | with a stride that is a multiple of 8, every point of the square is the `Default` point of an index below `stride * stride` |
| ImageCommon.Expand5Replicates | Cetera/Image/Common.cs:84-98 | `v * 33 / 4` is the bit replication `(v << 3) \| (v >> 2)`, taking 0 to 0 and 31 to 255 |
| ImageCommon.Expand6Replicates | Cetera/Image/Common.cs:85 | `g * 65 / 16` is the bit replication `(g << 2) \| (g >> 4)`, taking 0 to 0 and 63 to 255 |
| ImageCommon.Expand4Replicates | Cetera/Image/Common.cs:71-125 | `n * 17` is the bit replication `(n << 4) \| n`, taking 0 to 0 and 15 to 255 |
| ImageCommon.Rgb565Fields | Cetera/Image/Common.cs:82-87 | the `RGB565` word with red `r`, green `g` and blue `b` decodes to those channels widened, fully opaque |
| ImageCommon.Rgba5551Fields | Cetera/Image/Common.cs:93-99 | the `RGBA5551` word decodes to its three channels widened and alpha 0 or 255 from bit 0 |
| ImageCommon.LowFirst | Cetera/Image/Common.cs:71-104 | the nibbles of `n` bytes are `2n` values in 0..15, low nibble first |
| ImageCommon.ByteColor | Cetera/Image/Common.cs:64-111 | a byte-aligned colour moves forward within the data, or throws end of stream |
| ImageCommon.NibbleColor | Cetera/Image/Common.cs:70-126 | a nibble colour moves forward or empties the nibble slot, or throws end of stream |
| ImageCommon.EtcColor | Cetera/Image/Common.cs:112-120 | an ETC1 colour takes one off the queue or reads a block, and throws only end of stream or, on an empty block, `InvalidOperationException` |
| ImageCommon.BlockColor | Cetera/Image/Common.cs:116-119 | reading a block moves the position forward and hands out its first colour, queueing the rest; an empty block throws |
| ImageCommon.NextColor | Cetera/Image/Common.cs:59-131 | one turn of the loop makes progress, and throws only end of stream, `InvalidOperationException` or, for an unknown format, `NotSupportedException` |
| ImageCommon.Decode | Cetera/Image/Common.cs:59-131 | the sequence is empty with no exception exactly when the position starts at the end, and only those three exceptions end it |
| ImageCommon.AlignedStep | Cetera/Image/Common.cs:64-111 | a byte-aligned format decodes the next `Width` bytes as one colour, or throws when fewer remain |
| ImageCommon.PackedStep | Cetera/Image/Common.cs:70-105 | `LA44` and `RGBA4444` from an empty slot read whole bytes, low nibble first, and end with an empty slot |
| ImageCommon.AlignedDecode | Cetera/Image/Common.cs:59-111 | a byte-aligned format yields one colour per whole group of `Width` bytes, in order, and throws end of stream on a partial group at the end |
| ImageCommon.DecodeStep | Cetera/Image/Common.cs:59-131 | the decoding is the colour of one turn followed by the decoding from the state after it |
| ImageCommon.NibbleDecode | Cetera/Image/Common.cs:59-126 | `L4` and `A4` turn `n` bytes into `2n - 1` colours, one per nibble, low nibble first; the high nibble of the last byte is never decoded |
| ImageCommon.AllNibblesAt | Cetera/Image/Common.cs:121-126 | the intended nibble decoding has two colours per byte, colour `k` that of nibble `k` |
| ImageCommon.NibbleDecodeDropsLast | Cetera/Image/Common.cs:59-126 | the decoder as written hands out every intended colour but the last |
| ImageCommon.EtcDecode | Cetera/Image/Common.cs:59-120 | the ETC1 formats decode block by block: each block's colours in order, except that the last block hands out only its first colour |
| ImageCommon.Drain | Cetera/Image/Common.cs:114-119 | queued colours are all handed out before anything more is read, as long as the position is not at the end |
| ImageCommon.EtcLastBlock | Cetera/Image/Common.cs:59-120 | with 16 colours per block, `ETC1` data holds `ceil(n / 8)` blocks; the intended decoder hands out 16 colours for each, the decoder as written 15 fewer |
| ImageCommon.BlocksPrefix | Cetera/Image/Common.cs:59-120 | the decoder as written hands out a prefix of what the intended one does, and fails alike |
| ImageCommon.EtcLast | Cetera/Image/Common.cs:59-119 | on the last block only its first colour is handed out |
| ImageCommon.EtcEmpty | Cetera/Image/Common.cs:117-119 | an empty block makes `Dequeue` throw `InvalidOperationException` |
| ImageCommon.EtcCut | Cetera/Image/Common.cs:116 | `ETC1A4` throws end of stream when its alpha word is cut short |
| TextureReader.RunStep | Cetera/IO/BinaryReaderX.cs:25-38 | a run of `ReadNibble` calls is its first call followed by the rest |
| TextureReader.RunStops | Cetera/IO/BinaryReaderX.cs:25-38 | a run of `ReadNibble` calls fails as soon as its first call does |
| TextureReader.NextNibble | Cetera/IO/BinaryReaderX.cs:25-38 | one `ReadNibble` call returns a value in 0..15 and moves the reader as the first step of the run it begins |
| TextureReader.ReadNibbleColor | Cetera/Image/Common.cs:70-126 | `LA44`, `L4` and `A4` read through the reader give the colour and state `NibbleColor` specifies |
| TextureReader.ReadRgba4444 | Cetera/Image/Common.cs:100-105 | `RGBA4444` reads alpha, blue, green and red nibbles in that order, as `NibbleColor` specifies |
| TextureReader.ReadByteColor | Cetera/Image/Common.cs:64-111 | the byte-aligned formats, read field by field, give the colour and position `ByteColor` specifies |
| TextureReader.ReadEtcColor | Cetera/Image/Common.cs:112-120 | the ETC1 arm gives the colour, queue and position `EtcColor` specifies |
| TextureReader.ReadColor | Cetera/Image/Common.cs:61-130 | one turn of the loop gives the colour and state `NextColor` specifies, including `NotSupportedException` for an unknown format |
| TextureReader.GetColorsFromTexture | Cetera/Image/Common.cs:34-133 | the loop yields the colours `Decode` specifies from the start of `tex`, and ends with the same exception |
| ImageLoad.InsideIndex | Cetera/Image/Common.cs:179-181 | the pixel at column `x`, row `y` of the bitmap lies within its buffer |
| ImageLoad.TargetUnique | Cetera/Image/Common.cs:179-181 | two inside points with the same buffer index are the same point |
| ImageLoad.Targets | Cetera/Image/Common.cs:170-176 | one buffer index for each of the first `n` points of the sequence |
| ImageLoad.Load | Cetera/Image/Common.cs:168-187 | `Load` throws `ArgumentException` for a non-positive size and `NotSupportedException` for an unnamed swizzle with colours to place; otherwise it returns a fresh `width * height` bitmap in which every pixel shows the last colour placed at it, or is blank |
| ImageLoad.Place | Cetera/Image/Common.cs:178-182 | one turn of the loop writes colour `k` at its point when that point is inside the bitmap and changes nothing else |
| ImageLoad.ShownLast | Cetera/Image/Common.cs:176-183 | a colour placed at an index shows there unless a later colour is placed at the same index |
| ImageLoad.ShownBlank | Cetera/Image/Common.cs:171-183 | a pixel no colour is placed at stays blank |
| ImageLoad.TargetsDistinct | Cetera/Image/Common.cs:141-181 | under a named swizzle no two colours are placed at the same pixel |
| ImageLoad.LoadShows | Cetera/Image/Common.cs:168-187 | under a named swizzle, colour `k` shows at the pixel of its point whenever that point is inside the bitmap |
| ImageLoad.SquarePoint | Cetera/Image/Common.cs:135-187 | in a square bitmap whose side is a multiple of 8, loaded under `Default` without padding, every pixel is the point of an index below side * side |
| ImageCommonLegacy.ClosureIsReadNibble | Image/ImageCommon.cs:34-50 | one call of the `ReadNibble` closure returns the value and position of one `BinaryReaderX.ReadNibble`, with the pending nibble where the reader keeps the byte |
| ImageCommonLegacy.ClosureRunIsNibbleRun | Image/ImageCommon.cs:34-50 | any number of closure calls read the same nibbles as as many `ReadNibble` calls |
| ImageCommonLegacy.Closure.constructor | Image/ImageCommon.cs:34-35 | the closure starts with no pending nibble |
| ImageCommonLegacy.Closure.Call | Image/ImageCommon.cs:35-50 | a call reads a byte and keeps its high nibble when none is pending, and otherwise returns the pending one and clears it, as `ClosureStep` specifies; the value is in 0..15 |
| ImageCommonLegacy.NextColor | Image/ImageCommon.cs:54-126 | one turn of the loop moves forward, empties the pending nibble, or takes a colour off the queue |
| ImageCommonLegacy.Decode | Image/ImageCommon.cs:54-126 | the sequence is empty with no exception exactly when the position starts at the end |
| ImageCommonLegacy.SlotIgnored | Image/ImageCommon.cs:59-115 | the arms other than `L4` and `A4` never touch the pending nibble |
| ImageCommonLegacy.NextColorMatches | Image/ImageCommon.cs:54-126 | from matching states, a turn of this loop yields the colour of a turn of `Cetera.Image.Common`'s loop for the format of the same name, or throws the same exception, and leaves matching states |
| ImageCommonLegacy.DecodeMatches | Image/ImageCommon.cs:54-126 | from matching states, this decoder yields the colours of `Cetera.Image.Common`'s and ends with the same exception |
| ImageCommonLegacy.DecodesAsCommon | Image/ImageCommon.cs:30-128 | `GetColorsFromTexture(tex, format)` decodes every format as `Cetera.Image.Common` decodes the format of the same name |
| ImageCommonLegacy.TileOr | Image/ImageCommon.cs:145-146 | `tile * 8 + hi \| mid \| lo`, which parses as `((tile * 8 + hi) \| mid) \| lo`, adds up when the three are single bits at positions 2, 1 and 0 |
| ImageCommonLegacy.LegacyPointAgrees | Image/ImageCommon.cs:141-163 | `LoadImage` puts colour `i` where `GetPointSequence` in `Cetera.Image.Common` puts point `i`, for every orientation: `XiSwizzle` is `TransposeTile`, and an unknown value throws in both |
| ImageCommonLegacy.LegacyCorners | Image/ImageCommon.cs:144-160 | `Default`, `Rotate90` and `Transpose` place colour `i` at its tile corner plus (`x_in`, `y_in`) as each orientation arranges them |
| ImageCommonLegacy.XiCorner | Image/ImageCommon.cs:148-151 | `XiSwizzle` places colour `i` at its tile corner plus the in-tile offsets swapped |
| ImageCommonLegacy.StrideOf | Image/ImageCommon.cs:134-136 | the stride of `LoadImage` is the stride of `GetPointSequence` |
| ImageCommonLegacy.LoadImage | Image/ImageCommon.cs:130-172 | a non-positive size throws, an unknown swizzle with colours to place throws, and otherwise every pixel shows the last colour placed at it (or is blank), exactly as `Cetera.Image.Common.Load` places them |
| Xi.Tile | Cetera/Image/XI.cs:77-78 | writing the tile of entry `i` succeeds exactly when the entry names a tile inside the tile buffer |
| Xi.Reassembled | Cetera/Image/XI.cs:72-80 | the memory stream once the first `n` table entries are written, each the `bytesPerTile` bytes of the tile it names, or the first exception of `ms.Write`; its properties are `ReassembledOk`, `ReassembledLength` and `ReassembledTiles` |
| Xi.Reassemble | Cetera/Image/XI.cs:72-80 | the tile-table loop returns the stream `Reassembled` specifies for every whole 16-bit entry |
| Xi.FailureStays | Cetera/Image/XI.cs:75-79 | once a write has thrown, the rest of the loop does not run |
| Xi.ReassembledOk | Cetera/Image/XI.cs:75-79 | the reassembly succeeds exactly when every entry names a tile inside the buffer |
| Xi.ReassembledLength | Cetera/Image/XI.cs:75-79 | the output holds one tile per entry, `n * bytesPerTile` bytes |
| Xi.ReassembledTiles | Cetera/Image/XI.cs:75-79 | tile slot `k` of the output is the tile that entry `k` of the table names |
| Xi.ReassembledPrefix | Cetera/Image/XI.cs:75-77 | only the table's first `2n` bytes matter to the first `n` tiles |
| Xi.OddByteIgnored | Cetera/Image/XI.cs:75 | a trailing odd byte of the tile table is ignored |
| Xi.GapFacts | Cetera/Image/XI.cs:69 | the padding is fewer than 4 bytes and ends at the first multiple of 4 |
| Xi.PaddingEnd | Cetera/Image/XI.cs:69 | as written, the padding loop ends at the next multiple of 4 within 4 bytes, and never ends when the stream stops before it |
| Xi.PaddingSpins | Cetera/Image/XI.cs:69 | a 6-byte stream positioned at 5 never gets past the padding, while an 8-byte one stops at 8 |
| Xi.SkipPadding | Cetera/Image/XI.cs:69 | the corrected padding loop stops at the next multiple of 4 or at the end of the stream, whichever comes first, and agrees with the loop as written wherever that one ends |
| Xi.Padded | Cetera/Image/XI.cs:69 | the corrected padding skip ends at the next multiple of 4 or at the end of the stream, passes only positions that are not multiples of 4 and lie inside the stream, and agrees with the loop as written wherever that one ends |
| Xi.SwizzleOf | Cetera/Image/XI.cs:61 | the header's swizzle byte becomes the swizzle whose value it is |
| Xi.FormatOf | Cetera/Image/XI.cs:62 | the `XI.Format` byte names a texture format by name, or by number when it has no XI name; it names none exactly for 16 to 25 and 30 upwards |
| Xi.Image | Cetera/Image/XI.cs:82 | `Common.Load(texels, Settings)`: a non-positive size throws `ArgumentException`; otherwise the load succeeds exactly when the decoder throws nothing and the swizzle is named or no colour needs a point, and the bitmap has `width * height` pixels |
| Xi.ImageShows | Cetera/Image/XI.cs:82 | decoded colour `k` shows at the pixel of point `k` of the settings' swizzle whenever that point is on the bitmap |
| Xi.Opened | Cetera/Image/XI.cs:56-84 | the constructor's outcome: a combine format other than 1 throws "Unknown combine format"; a result carries the header's settings, combine format 1 and a `width * height` bitmap |
| Xi.OpenedOk | Cetera/Image/XI.cs:56-84 | the constructor succeeds exactly when the combine format is 1, both CriWare reads succeed, the tiles reassemble and the bitmap loads; the texels are then the reassembled tiles and the image their bitmap |
| Xi.Open | Cetera/Image/XI.cs:56-84 | returns `Opened`: the tile table and tile buffer are read with the corrected padding skip (`SkipPadding`, not the as-written `PaddingEnd`) between them, the tiles laid out in table order, and the texels loaded as the bitmap by `Common.Load` (line 82) |
| Xi.CriWareRead | Cetera/Compression/CriWare.cs:20-44 | the reader `Open` takes, built on `CriWare.GetDecompressedBytes`: it succeeds exactly when that does, with its bytes; a stored buffer leaves the stream after its bytes, and any other method reads `BaseStream.Length - 4` bytes, that is to the end |
| Xi.CompressedTableFails | Cetera/Image/XI.cs:68-70 | on the CriWare reader a tile table compressed by any method but 0 reads to the end of the stream, so the tile buffer's read throws end of stream and so does the constructor |
| Darc.EntryWord | DARC.cs:38-43 | the entry word is a folder flag in its top byte over a 24-bit name offset: a word built from a flag and an offset gives both back, and it is a folder exactly when the flag is 1 |
| Darc.FolderWords | DARC.cs:42 | only the words from 0x1000000 to 0x1FFFFFF are folders |
| Darc.EntryAt | DARC.cs:53-55 | a struct read succeeds exactly when its 12 bytes are present, and ends after them; a read that starts at or past the end of the stream throws NullReferenceException (`ToStruct` over the empty array `ReadBytes` returns) and a partial one is undefined |
| Darc.TableCount | DARC.cs:52-62 | the table holds the root entry and `lst[0].size - 1` more (one when the size is below 2), and the names start right after it |
| Darc.RepeatAdvances | DARC.cs:54-55 | `count` entries end `12 * count` bytes further on |
| Darc.Infos | DARC.cs:64-83 | a successful loop produces one name per entry |
| Darc.KeptMembers | DARC.cs:85 | the items `RemoveAll` keeps are exactly those whose path does not end in `/` |
| Darc.ItemsAfter | DARC.cs:57-83 | the loop keeps one item per entry |
| Darc.EntryInfo | DARC.cs:66-82 | one turn of the main loop: the entry's C-string name; a folder has no data and throws when its end index is past the list; a file with a negative offset or size throws, and otherwise takes the `size` bytes at `fileOffset` |
| Darc.Resolve | DARC.cs:57-83 | the items once every entry is processed, one per entry, or the first exception |
| Darc.RemoveAll | DARC.cs:85 | `RemoveAll(item => item.Path.Last() == '/')` succeeds exactly when no path is empty (`Last()` throws `InvalidOperationException` on one) and keeps the items whose path does not end in `/` |
| Darc.Archive | DARC.cs:46-87 | `new DARC(input)`: the table, the resolved items, then `RemoveAll` (see `NoFolderSurvives`, `ChildPath`); an empty stream throws NullReferenceException at the header read and a stream shorter than the header is undefined |
| Darc.Open | DARC.cs:46-87 | `new DARC(input)` returns what `Archive` specifies: the table, the resolved items, then `RemoveAll` |
| Darc.ReadTable | DARC.cs:50-55 | the table loop returns the entries and position `Table` specifies; `Table` throws NullReferenceException when the header or the root entry starts at the end of the stream, and is undefined when either is cut short |
| Darc.Table | DARC.cs:50-55 | the header and root entry reads throw NullReferenceException when either starts at the end of the stream, and are undefined when either is cut short |
| Darc.ResolveItems | DARC.cs:57-83 | the main loop returns the items `Resolve` specifies, or its first exception |
| Darc.Turn | DARC.cs:66-82 | turn `i` reads the entry's name and extends the items by one entry as `ItemsAfter` specifies, or throws as `Infos` does |
| Darc.AddFolder | DARC.cs:69-76 | a folder appends its name and `/` to items `i` up to its end index, and throws `ArgumentOutOfRangeException` when the end index is past the list |
| Darc.AddFile | DARC.cs:77-82 | a file appends its name to its own item and takes the `size` bytes at `fileOffset` as its data; a negative offset or size throws |
| Darc.InfosFailureStays | DARC.cs:64-83 | once a turn has thrown, the rest of the loop does not run |
| Darc.RemoveFolders | DARC.cs:85 | `RemoveAll` returns what `RemoveAll` specifies, throwing on an empty path |
| Darc.NoFolderSurvives | DARC.cs:85 | the items of the archive are exactly the resolved items whose path does not end in `/` |
| Darc.FileItem | DARC.cs:77-82 | a file entry's item carries the `size` bytes at its `fileOffset`, and its path ends with its own name |
| Darc.LaterFilesSilent | DARC.cs:64-83 | entries after a file add nothing to its path |
| Darc.FolderPath | DARC.cs:69-85 | a folder that covers itself ends with its own name and `/`, so `RemoveAll` drops it |
| Darc.ChildPath | DARC.cs:64-83 | in a well-nested table, a file's path is its innermost folder's path followed by its own name |
| Sarc.HashFrom | Cetera/Archive/SARC.cs:94-97 | every step of the hash loop leaves a 32-bit unsigned value |
| Sarc.HashSnoc | Cetera/Archive/SARC.cs:90-100 | the hash of the empty name is 0, and appending a unit `c` gives `c + hash * multiplier` modulo 2^32 |
| Sarc.Hash | Cetera/Archive/SARC.cs:90-100 | the node hash of a name is a 32-bit unsigned value |
| Sarc.CalcNodeHash | Cetera/Archive/SARC.cs:90-100 | the loop returns the hash `Hash` specifies |
| Sarc.Ascii | Cetera/Archive/SARC.cs:102-116 | `readASCII` returns the bytes before the first zero, each decoded as ASCII (`?` above 0x7F), and leaves the position on that zero; with no zero before the end it throws `IndexOutOfRangeException` |
| Sarc.NextNonZero | Cetera/Archive/SARC.cs:149-154 | the skip after a name stops on the first non-zero byte, every byte before it being zero, and throws end of stream when none is left |
| Sarc.NameFraming | Cetera/Archive/SARC.cs:145-155 | each name read ends on the next non-zero byte: the name's bytes are non-zero and decoded in order, its terminator and every byte skipped after it are zero |
| Sarc.SfatNodeAt | Cetera/Archive/SARC.cs:140 | an SFAT node read succeeds exactly when its 16 bytes are present, and ends after them; a read that starts at or past the end of the stream throws NullReferenceException (`ToStruct` over the empty array `ReadBytes` returns) and a partial one is undefined |
| Sarc.SimplerNodeAt | Cetera/Archive/SARC.cs:176 | a simpler node read succeeds exactly when its 16 bytes are present, and ends after them; a read that starts at or past the end of the stream throws NullReferenceException (`ToStruct` over the empty array `ReadBytes` returns) and a partial one is undefined |
| Sarc.NodeDatas | Cetera/Archive/SARC.cs:157-161 | a successful data loop gives one byte array per node |
| Sarc.SimplerDatas | Cetera/Archive/SARC.cs:179-184 | a successful simpler data loop gives one byte array per node |
| Sarc.Names | Cetera/Archive/SARC.cs:143-155 | a successful name loop gives one name per node; an SFNT header read at or past the end of the stream throws NullReferenceException and a partial one is undefined |
| Sarc.Dispatch | Cetera/Archive/SARC.cs:122-131 | without a byte-order mark at offset 6 the archive is read as the simpler layout, with one as the normal layout |
| Sarc.NormalNode | Cetera/Archive/SARC.cs:133-161 | node `i` of a normal archive has the `i`-th table entry and the `dataEnd - dataStart` bytes at `dataOffset + dataStart` |
| Sarc.SimplerFile | Cetera/Archive/SARC.cs:166-186 | node `i` of a simpler archive is named `File` followed by `i` in decimal, has the `i`-th table entry, and the `dataLength` bytes at `dataStart` |
| Sarc.NodeDatasFail | Cetera/Archive/SARC.cs:157-161 | once a data read has thrown, the rest of the loop does not run |
| Sarc.SimplerDatasFail | Cetera/Archive/SARC.cs:179-184 | once a simpler data read has thrown, the rest of the loop does not run |
| Sarc.Archive | Cetera/Archive/SARC.cs:118-164 | `new SARC(input)`: a stream shorter than 8 bytes throws end of stream; the `ushort` at offset 6 picks the normal or the simpler layout (`Dispatch`) |
| Sarc.Open | Cetera/Archive/SARC.cs:118-164 | `new SARC(input)` returns what `Archive` specifies |
| Sarc.ReadNormal | Cetera/Archive/SARC.cs:131-161 | the normal layout read through the reader is `NormalArchive` |
| Sarc.ReadSimpler | Cetera/Archive/SARC.cs:166-186 | `SimplerSARC` read through the reader is `SimplerArchive` |
| Sarc.NormalArchive | Cetera/Archive/SARC.cs:133-134 | the SARC and SFAT header reads throw NullReferenceException when a header starts at the end of the stream, and are undefined when one is cut short |
| Sarc.SimplerArchive | Cetera/Archive/SARC.cs:170 | the simpler header read throws NullReferenceException on an empty stream and is undefined on a shorter one |
| Sarc.ReadSfatNodes | Cetera/Archive/SARC.cs:136-141 | the node loop reads one struct per node, as `Repeat` specifies |
| Sarc.ReadSimplerNodes | Cetera/Archive/SARC.cs:172-177 | the simpler node loop reads one struct per node, as `Repeat` specifies |
| Sarc.ReadAscii | Cetera/Archive/SARC.cs:102-116 | the `readASCII` loop returns what `Ascii` specifies and leaves the position on the zero |
| Sarc.SkipZeros | Cetera/Archive/SARC.cs:149-154 | the `do`/`while` skip ends where `NextNonZero` specifies |
| Sarc.ReadNames | Cetera/Archive/SARC.cs:145-155 | the name loop returns the names and position that `Repeat` of `NameAt` specifies |
| Sarc.ReadNodeData | Cetera/Archive/SARC.cs:157-161 | the data loop returns what `NodeDatas` specifies |
| Sarc.ReadSimplerData | Cetera/Archive/SARC.cs:179-184 | the simpler data loop returns what `SimplerDatas` specifies |
| Msbt.HashFold | Cetera/Text/MSBT.cs:19 | every step of `Aggregate(0u, (n, c) => 1170 * n + c)` leaves a 32-bit unsigned value |
| Msbt.Hash | Cetera/Text/MSBT.cs:19 | `Item.Hash` lies in 0..100 |
| Msbt.HashFoldSnoc | Cetera/Text/MSBT.cs:19 | the fold takes one more code unit as `1170 * n + c`, wrapping to 32 bits |
| Msbt.HashIsPoly | Cetera/Text/MSBT.cs:19 | the wrap-around inside the fold equals one reduction modulo 2^32 at the end: `Hash` is the label read in base 1170, mod 2^32, mod 101 |
| Msbt.Int32At | Cetera/Text/MSBT.cs:72-84 | `ReadInt32` succeeds exactly when four bytes remain, and advances by four |
| Msbt.SlotAt | Cetera/Text/MSBT.cs:73 | `(int)ReadInt64()` succeeds exactly when eight bytes remain, and gives an `int` |
| Msbt.LengthPrefix | Cetera/Text/MSBT.cs:74 | the 7-bit length prefix of `ReadString` consumes at least one byte and stays inside the data |
| Msbt.StringAt | Cetera/Text/MSBT.cs:74 | `ReadString` consumes its prefix and then the string's bytes, which it returns |
| Msbt.CheckedSum | Cetera/Text/MSBT.cs:73 | `Sum()` returns the sum of the slots when every running total fits in an `int`, and throws `OverflowException` otherwise |
| Msbt.Lbl1 | Cetera/Text/MSBT.cs:71-75 | a slot count other than 101 throws `InvalidDataException` |
| Msbt.LabelsAfter | Cetera/Text/MSBT.cs:74 | a successful label read gives exactly `labelCount` labels |
| Msbt.Texts | Cetera/Text/MSBT.cs:84-85 | a successful text read gives one text per pair of consecutive offsets |
| Msbt.Txt2 | Cetera/Text/MSBT.cs:82-86 | TXT2 gives exactly `textCount` texts |
| Msbt.SectionBody | Cetera/Text/MSBT.cs:69-89 | a magic other than `LBL1`, `ATR1`, `TSY1` and `TXT2` throws "Unknown section", and no section changes the list of magics |
| Msbt.AlignStops | Cetera/Text/MSBT.cs:91-94 | the skip after a section stops at the first position that is a multiple of 16 or the end of the stream, within 15 bytes |
| Msbt.SectionAt | Cetera/Text/MSBT.cs:66-67 | each turn consumes its 16-byte header and records its magic; a read that starts at or past the end of the stream throws NullReferenceException (`ToStruct` over the empty array `ReadBytes` returns) and a partial one is undefined |
| Msbt.SortBy | Cetera/Text/MSBT.cs:99-105 | `OrderBy` returns the same elements ordered by their keys |
| Msbt.InsertBy | Cetera/Text/MSBT.cs:99-105 | insertion into an ordered list keeps it ordered and adds the one element |
| Msbt.HashTest | Cetera/Text/MSBT.cs:105 | `HashTest` returns the same items ordered by label hash |
| Msbt.Zip | Cetera/Text/MSBT.cs:100 | `Zip` pairs label `i` with text `i`, up to the shorter list |
| Msbt.Pair | Cetera/Text/MSBT.cs:97-100 | a table without TXT2 throws |
| Msbt.Finish | Cetera/Text/MSBT.cs:97-100 | the table keeps the section state and the encoding flag |
| Msbt.Parse | Cetera/Text/MSBT.cs:54-102 | a header whose magic is not `MsgStdBn` throws "Not MSBT"; an empty stream throws NullReferenceException at the header read, and a stream shorter than the header is undefined |
| Msbt.TextSlices | Cetera/Text/MSBT.cs:84-85 | with offsets in `int` range that do not decrease, and enough bytes, text `i` is the slice between offsets `i` and `i + 1`, measured from the first offset |
| Msbt.DefaultLabelIndex | Cetera/Text/MSBT.cs:98 | the digits of `Label_i` read back as `i`, so no two default labels are equal |
| Msbt.Open | Cetera/Text/MSBT.cs:54-102 | `new MSBT(input)` returns what `Parse` specifies |
| Msbt.Sections | Cetera/Text/MSBT.cs:64-95 | `count` turns of the section loop, each recording its magic in `sections`, so a result holds `count` more magics |
| Msbt.ReadSections | Cetera/Text/MSBT.cs:64-95 | the section loop returns what `Sections` specifies |
| Msbt.ReadSection | Cetera/Text/MSBT.cs:66-94 | one turn returns what `SectionAt` specifies |
| Msbt.ReadSectionBody | Cetera/Text/MSBT.cs:69-89 | the `switch` returns what `SectionBody` specifies |
| Msbt.ReadLbl1 | Cetera/Text/MSBT.cs:71-75 | LBL1 returns what `Lbl1` specifies |
| Msbt.ReadTxt2 | Cetera/Text/MSBT.cs:82-86 | TXT2 returns what `Txt2` specifies |
| Msbt.ReadTexts | Cetera/Text/MSBT.cs:85 | the text loop returns what `Texts` specifies |
| Msbt.ReadSlots | Cetera/Text/MSBT.cs:73 | the slot loop reads one `(int)ReadInt64()` per slot, as `Repeat` specifies |
| Msbt.ReadSlot | Cetera/Text/MSBT.cs:73 | one `(int)ReadInt64()` through the reader returns and advances as `SlotAt` specifies |
| Msbt.ReadInt32s | Cetera/Text/MSBT.cs:80-84 | the `int` loop reads one `ReadInt32` per element, as `Repeat` specifies |
| Msbt.ReadLabels | Cetera/Text/MSBT.cs:74 | the label loop reads one label per element, as `Repeat` specifies |
| Msbt.ReadLabel | Cetera/Text/MSBT.cs:74 | one `Tuple.Create(ReadString(), ReadInt32())` through the reader returns and advances as `LabelAt` specifies |
| Msbt.ReadString | Cetera/Text/MSBT.cs:74 | `ReadString` returns what `StringAt` specifies |
| Msbt.Read7BitEncodedInt | Cetera/Text/MSBT.cs:74 | the prefix loop returns what `LengthPrefix` specifies |
| Msbt.PrefixTurn | Cetera/Text/MSBT.cs:74 | one byte of the prefix: a sixth byte throws, the end of the stream throws, a byte below 128 ends the read, any other continues it |
| Msbt.SkipPadding | Cetera/Text/MSBT.cs:91-94 | the skip loop ends where `Align` specifies |
| Bcfnt.SByte | Cetera/Font/BCFNT.cs:22 | the `sbyte left` of a width entry is the byte read as two's complement, in -128..127 |
| Bcfnt.WidthAt | Cetera/Font/BCFNT.cs:173 | `ReadStruct<CharWidthInfo>()` succeeds exactly when three bytes remain, advances by three, and `glyph_width` is a byte (the struct is declared at lines 20-25); at or past the end of the stream it throws NullReferenceException and a partial entry is undefined |
| Bcfnt.GetIndex | Cetera/Font/BCFNT.cs:108-113 | the glyph of `c` if mapped, else the glyph of '?', else 0 (the `out` value of a failed `TryGetValue`) |
| Bcfnt.GetIndexMapped | Cetera/Font/BCFNT.cs:108-113 | `GetIndex` only answers an index the map holds, or 0 |
| Bcfnt.GetWidthInfo | Cetera/Font/BCFNT.cs:105 | succeeds exactly when `GetIndex(c)` indexes `lstCWDH`, answering that entry; otherwise the list indexer throws |
| Bcfnt.Draw | Cetera/Font/BCFNT.cs:127-146 | the rectangle `Draw` copies succeeds exactly when `GetWidthInfo` does and the sheet grid has cells, and carries `GetWidthInfo`'s exception otherwise |
| Bcfnt.DrawCell | Cetera/Font/BCFNT.cs:127-146 | glyph `(sheet * rows + row) * columns + col` is copied from the rectangle one pixel inside cell (`col`, `row`) of sheet `sheet`, `glyph_width` by `cell_height` |
| Bcfnt.CellDigits | Cetera/Font/BCFNT.cs:132-135 | sheet, row and column computed with `/` and `%` are the mixed-radix digits of the glyph index |
| Bcfnt.CellOffsets | Cetera/Font/BCFNT.cs:136-143 | the offsets of a cell on a sheet below 2^31 pixels never wrap in `int` arithmetic |
| Bcfnt.FormatOf | Cetera/Font/BCFNT.cs:164 | the `short` format names an image format exactly when it is a byte; values 14 and up are undefined formats (the field is declared at line 68) |
| Bcfnt.Bitmap | Cetera/Font/BCFNT.cs:165 | `Load(colors, width, height, Swizzle.Default, true)` gives one colour per pixel of the sheet |
| Bcfnt.Sheet | Cetera/Font/BCFNT.cs:161-165 | a non-positive sheet side throws `ArgumentException`; otherwise the sheet has `width * height` pixels |
| Bcfnt.SheetShows | Cetera/Font/BCFNT.cs:164-165 | decoded colour `k` of the sheet bytes lands on point `k` of the default orientation |
| Bcfnt.Headers | Cetera/Font/BCFNT.cs:152-157 | a stream shorter than the CFNT and FINF headers fails before any section is read: with NullReferenceException when it is empty or ends right after CFNT, and undefined when a header is cut short |
| Bcfnt.Span | Cetera/Font/BCFNT.cs:172-190 | `for (i = start; i <= end; i++)` turns `end - start + 1` times, or not at all when `end < start` |
| Bcfnt.Chain | Cetera/Font/BCFNT.cs:168-178 | an offset of 0 ends the section chain with the state so far |
| Bcfnt.ChainFuel | Cetera/Font/BCFNT.cs:168-202 | following the chain for more blocks never changes an answer reached within fewer |
| Bcfnt.ChainStep | Cetera/Font/BCFNT.cs:168-202 | one turn reads the block at the current offset and continues from its `next_offset`, or stops at its exception |
| Bcfnt.WidthTurnOk | Cetera/Font/BCFNT.cs:172-174 | a CWDH turn appends the block's entries to `lstCWDH` and moves to the next offset |
| Bcfnt.Widths | Cetera/Font/BCFNT.cs:168-175 | the CWDH chain from its first offset: `lstCWDH`, built block by block (`WidthsConcat`, `ChainFuel`) |
| Bcfnt.WidthsConcat | Cetera/Font/BCFNT.cs:168-175 | `lstCWDH` is the concatenation of the blocks' entries in chain order |
| Bcfnt.DirectGrow | Cetera/Font/BCFNT.cs:184-188 | method 0 maps each code `i` of the range to `i - code_begin + charOffset` |
| Bcfnt.TableGrow | Cetera/Font/BCFNT.cs:189-192 | method 1 maps code `begin + k` of the range to the k-th `ushort` after the header |
| Bcfnt.PairAt | Cetera/Font/BCFNT.cs:196 | a method-2 pair is a `char` and a `ushort`: it reads when four bytes remain, otherwise end of stream |
| Bcfnt.ApplyLastWins | Cetera/Font/BCFNT.cs:193-197 | with repeated codes in method 2, the last pair naming a code decides its glyph |
| Bcfnt.ApplyUntouched | Cetera/Font/BCFNT.cs:193-197 | a code no pair names keeps its earlier entry, or stays absent |
| Bcfnt.Mapping | Cetera/Font/BCFNT.cs:182-200 | a mapping method other than 0, 1 or 2 throws "Unsupported mapping method" |
| Bcfnt.CharCodes | Cetera/Font/BCFNT.cs:186-187 | the codes the method-0 loop `for (char i = code_begin; i <= code_end; i++)` visits as written, with the `char` wrapping from 0xFFFF to 0; still going after `fuel` turns is `Diverges` (see `CharCodesSpin`, `CharCodesRange`) |
| Bcfnt.CharCodesSpin | Cetera/Font/BCFNT.cs:186-187 | with `code_end == 0xFFFF` the method-0 `char` counter loop never ends |
| Bcfnt.CharCodesRange | Cetera/Font/BCFNT.cs:186-187 | below 0xFFFF the `char` counter loop visits exactly `code_begin .. code_end` |
| Bcfnt.TableCharRunsOut | Cetera/Font/BCFNT.cs:190-191 | with `code_end == 0xFFFF` the method-1 loop as written does not spin: it reads a `ushort` every turn, so after its counter wraps it throws end of stream on any stream |
| Bcfnt.TableCharRange | Cetera/Font/BCFNT.cs:190-191 | below 0xFFFF the method-1 loop as written reads one `ushort` per code and ends where `Mapping`'s table ends, or throws end of stream exactly when `Mapping` does |
| Bcfnt.Parse | Cetera/Font/BCFNT.cs:148-204 | a failing header read is the constructor's exception |
| Bcfnt.Open | Cetera/Font/BCFNT.cs:148-204 | the constructor over a `BinaryReaderX` yields `Parse` of the stream's bytes |
| Bcfnt.ReadHeaders | Cetera/Font/BCFNT.cs:152-157 | the header reads with the stream position moves yield `Headers` |
| Bcfnt.ReadSheet | Cetera/Font/BCFNT.cs:160-165 | seeking to `sheet_data_offset`, reading `sheet_size * num_sheets` bytes and decoding yields the sheet of `SheetOf` |
| Bcfnt.ReadWidths | Cetera/Font/BCFNT.cs:168-175 | the CWDH loop yields `Widths`, the chain's entries in order |
| Bcfnt.ReadCwdh | Cetera/Font/BCFNT.cs:170-174 | one CWDH block read at `offset - 8` yields `CwdhBlock` |
| Bcfnt.ReadWidthEntries | Cetera/Font/BCFNT.cs:172-173 | the inner loop reads `count` width entries in a row, or stops at the first short read |
| Bcfnt.Cmaps | Cetera/Font/BCFNT.cs:178-202 | the CMAP chain from its first offset, each block's `Mapping` applied to `dicCMAP` in chain order |
| Bcfnt.ReadCmaps | Cetera/Font/BCFNT.cs:178-202 | the CMAP loop from an empty dictionary yields `Cmaps` |
| Bcfnt.ReadCmap | Cetera/Font/BCFNT.cs:180-201 | one CMAP block read at `offset - 8` yields `CmapBlock` |
| Bcfnt.ReadMapping | Cetera/Font/BCFNT.cs:182-200 | the `switch` on `mapping_method` yields `Mapping` from the position after the header |
| Bcfnt.ReadDirect | Cetera/Font/BCFNT.cs:184-188 | after method 0 each code of the range maps to `i - code_begin + charOffset` and every other code keeps its entry |
| Bcfnt.ReadTable | Cetera/Font/BCFNT.cs:189-192 | method 1 fails at end of stream when the range needs more `ushort`s than remain, and otherwise adds `TableMap` over the earlier entries |
| Bcfnt.ReadPairs | Cetera/Font/BCFNT.cs:193-197 | method 2 reads `n` pairs in a row, or stops at the first short read |
| BcfntLegacy.PixelColor | BCFNT.cs:185-203 | `A8`, `A4` and `LA4` give a colour exactly when the pixel's byte is present (index out of range otherwise); any other format throws `NotSupportedException` |
| BcfntLegacy.LA4IsLA44 | BCFNT.cs:196-201 | an `LA4` pixel is the colour the texture decoder gives format `LA44` |
| BcfntLegacy.A4Nibble | BCFNT.cs:191-195 | an `A4` pixel's alpha is the decoder's nibble `i` (low first) times 17, on black |
| BcfntLegacy.A8Alpha | BCFNT.cs:186-190 | an `A8` pixel's alpha is byte `i`, on black |
| BcfntLegacy.PixelPoint | BCFNT.cs:183-184 | the point computation throws `DivideByZeroException` exactly when the width is below 8 |
| BcfntLegacy.PixelPointDefault | BCFNT.cs:183-184 | the loop's `x` and `y` are the point `GetPointSequence` of `Cetera.Image.Common` gives without a swizzle |
| BcfntLegacy.Paint | BCFNT.cs:181-205 | a turn of the pixel loop keeps the buffer's size |
| BcfntLegacy.TurnsStuck | BCFNT.cs:181-205 | once a pixel throws, the loop has thrown whatever the remaining pixels are |
| BcfntLegacy.TurnsWrite | BCFNT.cs:181-205 | a loop writing each colour at its own index inside the buffer leaves every colour at its index |
| BcfntLegacy.Loops | BCFNT.cs:181 | the loop runs `width * height` turns when that product fits in an `int` |
| BcfntLegacy.Painted | BCFNT.cs:176-207 | the pixel buffer after the first `n` turns of the paint loop from a new bitmap, or the first exception (`PaintedSize`, `PaintedWrites`, `PaintedNarrow`, `PaintedUnsupported`) |
| BcfntLegacy.PaintedSize | BCFNT.cs:176-205 | the buffer holds one colour per pixel of the bitmap |
| BcfntLegacy.PaintedNarrow | BCFNT.cs:183 | a sheet narrower than 8 throws `DivideByZeroException` on its first pixel |
| BcfntLegacy.PaintedUnsupported | BCFNT.cs:202-203 | any format but `A8`, `A4` and `LA4` throws `NotSupportedException` on the first pixel |
| BcfntLegacy.EnoughBytes | BCFNT.cs:188-198 | with a byte per pixel (half a byte for `A4`) every pixel has its colour |
| BcfntLegacy.TileBelow | BCFNT.cs:183-184 | the tile of pixel `i` lies inside the grid of `width / 8` by `height / 8` tiles |
| BcfntLegacy.Tiles | BCFNT.cs:181-184 | a sheet with sides multiple of 8 is exactly `width / 8` by `height / 8` tiles of 64 pixels |
| BcfntLegacy.InRectangle | BCFNT.cs:183-184 | every point of such a sheet lies inside the bitmap |
| BcfntLegacy.IndexInside | BCFNT.cs:189-200 | the unchecked write `ptr[width * y + x]` stays inside the buffer |
| BcfntLegacy.IndexUnique | BCFNT.cs:183-184 | distinct pixels are written at distinct buffer indices |
| BcfntLegacy.PaintOk | BCFNT.cs:181-205 | one turn writes pixel `i`'s colour at its index and nothing else |
| BcfntLegacy.PaintedWrites | BCFNT.cs:176-207 | with enough bytes, the whole loop succeeds and each pixel holds its own colour at its own index |
| BcfntLegacy.ShortSheet | BCFNT.cs:186-201 | an `A8` or `LA4` sheet with fewer bytes than pixels throws `IndexOutOfRangeException` |
| BcfntLegacy.Parse | BCFNT.cs:160-246 | a failing header read is the constructor's exception |
| BcfntLegacy.Open | BCFNT.cs:160-246 | the constructor yields `Parse` of the stream's bytes |
| BcfntLegacy.ReadSheet | BCFNT.cs:172-207 | reading the sheet bytes and painting a new bitmap yields `SheetOf` |
| BcfntLegacy.PaintSheet | BCFNT.cs:176-207 | the pixel loop over a fresh buffer leaves the buffer `Painted` describes, or its exception |
| BcfntLegacy.PaintPixel | BCFNT.cs:183-203 | one turn changes the buffer as `Paint` says, or throws as it says |

## Left out

- TextureReader.GetColorsFromTexture: takes a `Format` value. The source converts its type parameter with `Enum.Parse(typeof(Format), originalFormat.ToString())` (Cetera/Image/Common.cs:36). That conversion, and the `ArgumentException` it throws for a name `Format` lacks, are not modelled. The same holds for the legacy decoder's `Format` (ImageCommonLegacy.DecodesAsCommon).
- ImageCommon.NextPowerOf2: for `n` above 2^30, `2 << 30` overflows in C# to `int.MinValue`, which gives a negative stride. The model answers 2^31 there.
- ImageCommon.NextPowerOf2: the logarithm is floating point. The model uses the smallest power of two from 2 upwards that is at least `n`. For `n < 2` the conversion of minus infinity or NaN to `int` is taken as `int.MinValue`, whose masked shift count is 0.
- ImageLoad.Load: the bitmap is an array of `Color` records. The 32-bit `ToArgb` packing of each pixel (Cetera/Image/Common.cs:181) is not modelled.
- ImageLoad.Load: the source enumerates the colours lazily, so decoding and placing interleave. The model takes the colours decoded up to the first exception as a sequence, together with that exception. It keeps which pixels were placed before the exception and that the exception ends `Load`, but not the interleaving itself.
- `RgEtc1.Unpack` is a call into a native library. It is a function parameter (`ImageCommon.Unpacker`) with no contract. Only `ImageCommon.EtcLastBlock` assumes it yields 16 colours per block (`Sixteen`).
- The `LZSS` and `Huffman` classes that `Cetera/Compression/CriWare.cs` calls are not part of this model. `CriWare.GetDecompressedBytes` takes them as function parameters with no contract.
- CriWareLegacy.HuffLoopSymbols: does not cover a target of zero symbols. The loop then returns after one bit.
- Msbt.SortBy: the stability of `OrderBy` is not stated. Items with equal keys may come out in either order. This also governs Msbt.HashTest, whose keys are hashes in 0..100, so ties are common.
- Xi.Open: the exception for a combine format other than 1 carries the text "Unknown combine format" without the number the source formats into it.
- Xi.Open: the overload `Common.Load(byte[], Settings)` and `Settings.SetFormat` that XI.cs:61-62 and 82 call are not part of this model's source files. `Xi.Image` takes them to decode the texels with `GetColorsFromTexture` in the format the header names and to place them with `Load(colors, width, height, swizzle, padToPowerOf2)`, converting the `XI.Format` by name as `GetColorsFromTexture` converts its type parameter (`Xi.FormatOf`).
- Xi.Open: runs the corrected padding skip (`Xi.SkipPadding`), which ends at the end of the stream; the source's loop spins there (see "Findings").
- Xi.Open: takes its CriWare reader as a parameter. `Xi.CriWareRead` is that reader on the CriWare model, and `Xi.CompressedTableFails` instantiates the constructor with it; the LZSS and Huffman decoders stay parameters.
- Bcfnt.Mapping: walks the code range of methods 0 and 1 with an `int` counter. With `code_end` 0xFFFF the source's method-0 loop spins and its method-1 loop throws `EndOfStreamException`, while the model maps the range (see "Findings"). Bcfnt.Parse and BcfntLegacy.Parse use it, so the same holds for them.
- The CWDH and CMAP chains of both BCFNT versions are followed for at most `fuel` blocks. A chain that is still going after that answers `Diverges`. A cyclic chain never ends in the source.
- Struct marshalling (`ReadStruct`) is modelled only for the structs the core reads, as fixed-size little-endian fields. Header fields that the core never uses are skipped. A struct overlaid on fewer bytes than its size reads past the managed array; the model answers `Undefined` for it and does not guess what memory holds.
- Text encodings are code-unit sequences. UTF-8 and UTF-16 decoding, surrogate handling in `ReadChar`, and `Encoding.Default` are not modelled.
- `SARC.Save` does nothing in the source and has no counterpart.
- `ToTexture` (both copies) throws at its first statement. Its dead body is not modelled.
- `Etc1.Encode`: the code after the `return` (Cetera/Image/Etc1.cs:509-569) is unreachable and is not modelled. That includes the `MessageBox` and the `WorstErrorEver` counter.
- The lookup tables of the `Etc1` static constructor are defined by their formulas.
- `RGB.Average` averages in `double`. The model uses integer division, which truncates the same way for these non-negative sums.
- Floating-point drawing is not modelled: `BCFNT.Draw`'s scaled destination points, `SetColor`'s colour matrix, `Graphics`, and the GDI limits on bitmap sizes. `Bcfnt.Draw` models only the source rectangle.
- `BCFNT.FromGZipStream` and `GZip.cs` wrap `System.IO.Compression` and are not modelled.
- The RgEtc1 P/Invoke wrappers, the thin header readers (BXLIM, JTEX, BCLIM, BFLIM, BCLYT) and the test-application forms are not part of this model.

## Findings

| source | as written | input that shows it | evidently intended | confidence | as-written member | corrected member |
|---|---|---|---|---|---|---|
| Cetera/Image/XI.cs:69 | `while (input.Position % 4 != 0) input.ReadByte();` loops for ever once the stream ends before a multiple of 4, because `ReadByte` at the end returns -1 without moving | a stream of 6 bytes positioned at 5 after the first buffer | skip to the next multiple of 4 or to the end of the stream | not executed | Xi.PaddingSpins | Xi.SkipPadding |
| Cetera/Image/Common.cs:59, 121-126 and Image/ImageCommon.cs:54, 116-121 | end of input is checked before every colour, so for `L4` and `A4` the high nibble of the last byte is never handed out: `n` bytes give `2n - 1` colours | one byte 0x21 in `L4`: one colour (nibble 1), not two | two colours per byte, the last high nibble included | not executed | ImageCommon.NibbleDecodeDropsLast | ImageCommon.AllNibblesAt |
| Cetera/Image/Common.cs:59, 112-120 and Image/ImageCommon.cs:54, 107-115 | after the last ETC1 block is read the position is at the end, so only the block's first colour is handed out | eight bytes of `ETC1`: one colour instead of 16 | all 16 colours of every block | not executed | ImageCommon.EtcLastBlock | ImageCommon.BlocksPrefix |
| Cetera/Font/BCFNT.cs:186 and BCFNT.cs:228 | method 0's `for (char i = code_begin; i <= code_end; i++)` never ends when `code_end` is 0xFFFF, since a `char` wraps to 0 | a CMAP block with method 0 and `code_end` 0xFFFF | map every code from `code_begin` to `code_end` | not executed | Bcfnt.CharCodesSpin | Bcfnt.CharCodesRange |
| Cetera/Font/BCFNT.cs:190 and BCFNT.cs:232 | method 1's `char` loop wraps the same way at `code_end` 0xFFFF, but it reads a `ushort` every turn, so it reads past the table until the stream ends and throws `EndOfStreamException` | a CMAP block with method 1 and `code_end` 0xFFFF, on any stream | read one `ushort` per code from `code_begin` to `code_end` | not executed | Bcfnt.TableCharRunsOut | Bcfnt.TableCharRange |
