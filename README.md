# svg-converter icon encoders, modelled in Dafny

This project models the byte- and string-level core of the svg-converter
package:

- **ICO encoder** (`ICOConverter`). It builds a Windows icon file from a list of sizes. The file is a 6-byte header, then one 16-byte directory entry per size, then the PNG payloads in the same order. Each entry holds the image's width and height bytes (256 is written as 0), its length and its offset.
- **ICNS encoder** (`ICNSConverter`). It builds a macOS icon file from a list of sizes and a retina flag.
  - Each size is looked up in the fixed type-code table. A size that is not in the table is skipped.
  - A size that is in the table gives a 1x block and, when retina is on, a 2x block rasterized at twice the size.
  - A block is a four-letter type, a big-endian 32-bit length (which counts the block's own 8 header bytes) and the payload.
  - The file starts with `icns` and the big-endian total length.
- **SVG attribute helpers** (`SVGProcessor._getAttribute` and `_setAttribute`). They read and write one attribute of the first `<svg … >` tag using `indexOf` and `substring` with JavaScript's clamping rules.

How the model is organised:

- **`Bytes`**: bytes as a subset type of `int`, and the 16- and 32-bit little- and big-endian codecs.
- **`NodeBuffer`**: the Node `Buffer` calls the encoders make (`alloc`, `writeUInt8/16LE/32LE/32BE`, `write`, `copy`). They are imperative methods on a Dafny `array`.
- **`JsString`**: `indexOf`, `includes` and `substring`.
- **`IcoConverter` and `IcnsConverter`**: each has the source's methods as imperative Dafny (`Buffer`-writing helpers and loops), proved against a pure specification function of the whole conversion.
- **`IcoReader` and `IcnsReader`**: small parsers for the two formats. The round-trip and layout properties of the encoders are stated through them.
- **`SvgProcessor`**: the attribute helpers as pure functions, with lemmas about them.

Design choices:

- **The rasterizer** is a parameter: a total function from (width, height) to the PNG bytes, or to `None` when rendering fails. Its first failure aborts a conversion with `RasterizationError`, as the awaited promise's rejection would.
- **Out-of-range writes.** A Node `Buffer` write given a value that does not fit its field throws a `RangeError`. Each write method requires the value to fit. The conversions check beforehand and return `Err(RangeError)`, so every input has a modelled outcome.
- **Options.** `options.sizes` is an `Option` of a list. An absent list picks the default, and a given list is used as it is, even an empty one, because `[]` is truthy in JavaScript. `options.includeRetina` is an `Option<bool>`; retina is on unless it is exactly `false`.
- **Sizes are not validated.** The model follows the code (lib/ico-converter.js:35-36 and 61-79), which:
  - does not reject, in either encoder, a zero or non-integer size before rasterizing;
  - fails on an ICO size above 256 only when its width byte is written (a `RangeError`);
  - writes an ICO size of 0 as width byte 0, which readers take to mean 256.
- **Plain-text searches.** Both attribute helpers search the whole tag as text, and the model keeps that, as two example lemmas show:
  - the quote searches start at `name=` and are not bounded by the attribute, so an unquoted value is skipped and the next quoted value, which belongs to another attribute, is read and written in its place (UnquotedValueUsesNextAttribute);
  - `name=` is also found at the end of a longer name, so `a=` matches inside `data=` (NameMatchesLongerName).

## Model

| member | source | states |
|---|---|---|
| Bytes.U16LE | lib/ico-converter.js:16-18 | the two bytes writeUInt16LE stores, least significant first; its meaning is stated by U16LERoundTrip and U16LEOfDecode |
| Bytes.U32LE | lib/ico-converter.js:41-42 | the four bytes writeUInt32LE stores, least significant first; its meaning is stated by U32LERoundTrip and U32LEOfDecode |
| Bytes.U32BE | lib/icns-converter.js:26 | the four bytes writeUInt32BE stores, most significant first; its meaning is stated by U32BERoundTrip and U32BEOfDecode |
| Bytes.Flatten | lib/ico-converter.js:85 | Buffer.concat: the buffers one after another in list order; its meaning is stated by FlattenLength, FlattenAppend and FlattenAt |
| Bytes.U16LERoundTrip | lib/ico-converter.js:16-18 | decoding the two little-endian bytes written for a value below 2^16 gives the value back |
| Bytes.U16LEOfDecode | lib/ico-converter.js:39-40 | every two-byte field is the encoding of the value it decodes to, so the codec is a bijection |
| Bytes.U32LERoundTrip | lib/ico-converter.js:41-42 | decoding the four little-endian bytes written for a value below 2^32 gives the value back |
| Bytes.U32LEOfDecode | lib/ico-converter.js:41-42 | every four-byte little-endian field is the encoding of its decoded value |
| Bytes.U32BERoundTrip | lib/icns-converter.js:26 | decoding the four big-endian bytes written for a value below 2^32 gives the value back |
| Bytes.U32BEOfDecode | lib/icns-converter.js:41 | every four-byte big-endian field is the encoding of its decoded value |
| Bytes.FlattenLength | lib/ico-converter.js:85 | the concatenation of a list of buffers is as long as the sum of their lengths |
| Bytes.FlattenAppend | lib/icns-converter.js:85 | concatenating two lists of buffers concatenates their contents and adds their total lengths |
| Bytes.TotalLengthSnoc | lib/icns-converter.js:79 | the running sum of block lengths grows by the length of each block appended |
| Bytes.TotalLengthPrefix | lib/ico-converter.js:78 | the lengths of the buffers before i and of those from i to j add up to the lengths before j |
| Bytes.FlattenAt | lib/ico-converter.js:85 | buffer i of a list sits in the concatenation right after the bytes of the buffers before it |
| Bytes.TotalLengthUniform | lib/ico-converter.js:69 | N buffers of width bytes each total width times N bytes, as the directory size 16 * N assumes |
| Bytes.ConcatMapAppend | lib/icns-converter.js:61-76 | the items produced for two lists one after the other are those of the first list followed by those of the second |
| NodeBuffer.Alloc | lib/ico-converter.js:15 | Buffer.alloc gives a fresh buffer of the requested number of zero bytes |
| NodeBuffer.WriteUInt8 | lib/ico-converter.js:35-38 | writeUInt8 requires a value below 256 and an offset inside the buffer, stores the value at the offset and changes no other byte |
| NodeBuffer.WriteUInt16LE | lib/ico-converter.js:16-18 | writeUInt16LE stores the two little-endian bytes of the value at the offset and keeps every other byte |
| NodeBuffer.WriteUInt32LE | lib/ico-converter.js:41-42 | writeUInt32LE stores the four little-endian bytes of the value at the offset and keeps every other byte |
| NodeBuffer.WriteUInt32BE | lib/icns-converter.js:26 | writeUInt32BE stores the four big-endian bytes of the value at the offset and keeps every other byte |
| NodeBuffer.WriteAscii | lib/icns-converter.js:25 | write(string, offset) of an ASCII string stores one byte per character at the offset and keeps every other byte |
| NodeBuffer.CopyInto | lib/icns-converter.js:42 | data.copy(buffer, offset) stores the data at the offset and keeps every other byte |
| NodeBuffer.AsciiRoundTrip | lib/icns-converter.js:40 | the bytes written for an ASCII type code read back as that code |
| JsString.IndexOf | lib/svg-processor.js:9-10 | s.indexOf(pat, from), searching from `from` clamped into the string; the result is -1 or a position at or after the start where the whole pattern fits, and IndexOfMeaning states that it is the first occurrence |
| JsString.Includes | lib/svg-processor.js:54 | s.includes(pat), true when indexOf finds the pattern; IncludesMeaning states it holds exactly when the pattern occurs |
| JsString.Substring | lib/svg-processor.js:11 | s.substring(a, b): both ends clamped into the string and swapped when the first is larger; SubstringFrom and GetTagUnclosed state its one-argument and swapped cases |
| JsString.IndexFromMeaning | lib/svg-processor.js:13 | the search from i returns the first occurrence at or after i, and returns -1 exactly when there is none |
| JsString.IndexOfMeaning | lib/svg-processor.js:9-10 | indexOf starts from the position clamped into the string, returns the first occurrence from there, and returns -1 exactly when there is none |
| JsString.IncludesMeaning | lib/svg-processor.js:54 | includes holds exactly when the pattern occurs somewhere in the string |
| JsString.MatchFromMeaning | lib/svg-processor.js:13 | the character-by-character comparison succeeds exactly when every remaining character agrees |
| JsString.MatchOccurs | lib/svg-processor.js:13 | the full comparison at a candidate position is an occurrence there |
| JsString.SubstringFrom | lib/svg-processor.js:76 | substring(a) is the suffix from a, clamped into the string |
| JsString.IndexOfCharAt | lib/svg-processor.js:18-19 | a character's search from a position returns its first occurrence at or after that position |
| JsString.IndexOfCharNone | lib/svg-processor.js:19 | a character absent from a position on is not found from there |
| JsString.IndexOfSamePrefix | lib/svg-processor.js:56-58 | two strings that agree up to the end of a match found in the first give the same search result |
| JsString.OccursAtPrefix | lib/svg-processor.js:56 | strings agreeing on a prefix have the same matches within that prefix |
| IcoConverter.ResolveSizes | lib/ico-converter.js:56 | the sizes option or its default 16, 24, 32, 48, 64, 128 and 256: the default list when the option is absent, the given list, even an empty one, otherwise |
| IcoConverter.SizeByte | lib/ico-converter.js:35-36 | the width or height byte, 0 for 256 and the size itself below; SizeByteRoundTrip and SizeByteMod state its meaning |
| IcoConverter.CreateFileHeader | lib/ico-converter.js:14-20 | the header is the 6 bytes of reserved 0, type 1 and the image count, each 16-bit little-endian, and it decodes to those three fields |
| IcoConverter.CreateDirEntry | lib/ico-converter.js:31-45 | the entry is 16 bytes: the width and height bytes (256 written as 0), the color count, reserved 0, one plane, 32 bits per pixel, the data length and the offset, and it decodes to exactly those fields |
| IcoConverter.SizeByteRoundTrip | lib/ico-converter.js:34-36 | a reader maps the width or height byte back to the size for every size from 1 to 256, 256 included |
| IcoConverter.SizeByteMod | lib/ico-converter.js:35-36 | the width or height byte is the size modulo 256 |
| IcoConverter.IconDirRoundTrip | lib/ico-converter.js:14-20 | decoding the encoded header gives back its three fields |
| IcoConverter.IconDirOfDecode | lib/ico-converter.js:14-20 | every 6-byte header is the encoding of its decoded fields |
| IcoConverter.DirEntryRoundTrip | lib/ico-converter.js:31-45 | decoding the encoded directory entry gives back all eight fields |
| IcoConverter.DirEntryOfDecode | lib/ico-converter.js:31-45 | every 16-byte entry is the encoding of its decoded fields |
| IcoConverter.Rasterize | lib/ico-converter.js:61-65 | the specification of the rasterizing loop: on success one image per size; RasterizeMeaning states which image and which error |
| IcoConverter.RasterizeSizes | lib/ico-converter.js:61-65 | the loop's result is the specification `Rasterize`: one call per list element, in order, with the first failure aborting |
| IcoConverter.RasterizeMeaning | lib/ico-converter.js:61-65 | the images are produced exactly when every element rasterizes; image i is the rasterizer's output at (size i, size i); otherwise the error names the first element that fails |
| IcoConverter.RasterizeFailurePersists | lib/ico-converter.js:63 | once a prefix of the list fails, the whole conversion fails with the same error |
| IcoConverter.EntryFor | lib/ico-converter.js:73-79 | the directory entry of image i: size bytes, color count 0, reserved 0, one plane, 32 bits per pixel, its length and its running offset; every field fits its width |
| IcoConverter.DirEntries | lib/ico-converter.js:73-79 | the encoded entries, one per size; IcoEntryAt and EntryInDirectory state where each sits and what it decodes to |
| IcoConverter.IcoFile | lib/ico-converter.js:82-85 | the header, the entries and the images concatenated; IcoFileLayout, IcoFileLength and IcoPayloadAt state its layout |
| IcoConverter.IcoConvert | lib/ico-converter.js:55-85 | the whole conversion as a function: the first rasterization error, a RangeError when a field does not fit, or the file; IcoConvertSucceeds, IcoConvertFailure and IcoConvertOutput state its meaning |
| IcoConverter.Layout | lib/ico-converter.js:67-85 | the loop's result is the specification file of header, entries and images when every field fits, and a RangeError when any does not |
| IcoConverter.IcoFileLayout | lib/ico-converter.js:82-85 | the file is Buffer.concat of the header for N images, the N entry buffers and the N images |
| IcoConverter.Convert | lib/ico-converter.js:55-85 | the imperative conversion returns the specification conversion's bytes or error; default sizes when none is given |
| IcoReader.IcoFileLength | lib/ico-converter.js:68-70 | the file is 6 + 16 N + the sum of the image lengths bytes long, and the directory is 16 N bytes |
| IcoReader.IcoHeaderAt | lib/ico-converter.js:82 | the first six bytes decode to reserved 0, type 1 and count N, the number of sizes |
| IcoReader.ImageOffsetChain | lib/ico-converter.js:70-78 | the first image starts at 6 + 16 N, and image i + 1 starts at image i's offset plus its length |
| IcoReader.IcoEntryAt | lib/ico-converter.js:73-79 | the 16 bytes of entry i decode to the entry for size i: its size bytes, the constants, its image length and its running offset |
| IcoReader.EntryInDirectory | lib/ico-converter.js:77 | entry i occupies bytes 16 i to 16 i + 16 of the directory |
| IcoReader.IcoPayloadAt | lib/ico-converter.js:85 | image i occupies exactly bytes offset_i to offset_i + length_i of the file |
| IcoReader.PayloadsDisjoint | lib/ico-converter.js:78 | every image starts after the directory, and an earlier image ends before a later one starts |
| IcoReader.ParseIcoOf | lib/ico-converter.js:55-85 | the reader returns exactly the images that the file's entries describe |
| IcoReader.IcoRoundTrip | lib/ico-converter.js:55-85 | reading the encoder's output back gives, in list order, the entry for each size and exactly the bytes that were encoded |
| IcoReader.IcoParsedFields | lib/ico-converter.js:73-85 | the file read back has one image per size, holding that image's bytes, with width and height bytes equal to the size modulo 256 |
| IcoReader.ThreeSizesExample | lib/ico-converter.js:68-78 | sizes 16, 32 and 64 rasterized to M bytes each give a file of 54 + 3M bytes whose third image starts at 54 + 2M |
| IcoReader.Size256Entry | lib/ico-converter.js:35-36 | a size of 256 gets width and height bytes 0, which a reader takes to mean 256 |
| IcoReader.IcoConvertSucceeds | lib/ico-converter.js:55-85 | the conversion succeeds exactly when every size rasterizes and every field fits |
| IcoReader.IcoConvertFailure | lib/ico-converter.js:61-82 | a failed conversion reports the first size that fails to rasterize, or a RangeError when every size rasterized but some field does not fit |
| IcoReader.SecondOfThreeFails | lib/ico-converter.js:61-65 | when the second of three sizes fails to rasterize, the conversion fails with that size and produces no output |
| IcoReader.IcoConvertOutput | lib/ico-converter.js:55-85 | a successful conversion reads back as the rasterizer's images, one per list element in list order, each with width and height bytes equal to its size modulo 256 |
| IcnsConverter.ResolveSizes | lib/icns-converter.js:56 | the sizes option or its default 16, 32, 64, 128, 256 and 512; OptionDefaults states it |
| IcnsConverter.RetinaEnabled | lib/icns-converter.js:57 | `options.includeRetina !== false`; OptionDefaults states it |
| IcnsConverter.EncodeBlock | lib/icns-converter.js:36-45 | the type code, the big-endian length 8 plus the data length, then the data, 8 bytes longer than the data; EncodeBlockFields states that it reads back |
| IcnsConverter.CreateFileHeader | lib/icns-converter.js:23-28 | the header is the ASCII magic `icns` then the big-endian file size, and it reads back as both |
| IcnsConverter.CreateIconBlock | lib/icns-converter.js:36-45 | the block is the type code, the big-endian block size 8 + the data length, and the data; it is exactly that long, its length field equals its own length, and its type and data read back |
| IcnsConverter.EncodeBlockFields | lib/icns-converter.js:36-45 | an encoded block reads back as its type code, a length field equal to its own length, and its data |
| IcnsConverter.MakeBlocksMeaning | lib/icns-converter.js:61-76 | blocks are made exactly when every request rasterizes and fits; block k then carries request k's type code and image; otherwise the error is the first failing request's |
| IcnsConverter.MakeBlocksEncodable | lib/icns-converter.js:37-41 | every block made fits its 32-bit length field |
| IcnsConverter.MakeBlocksAppend | lib/icns-converter.js:61-76 | making the blocks of two request lists one after the other: the first failure wins, otherwise the first list's blocks come first |
| IcnsConverter.MakeBlocksSingle | lib/icns-converter.js:64-66 | one request gives a rasterization error, a RangeError for an oversized image, or one block with its type code and image |
| IcnsConverter.SizeRequests | lib/icns-converter.js:62-74 | the images one list element asks for: none outside the table, else the 1x code at the size and, with retina on, the 2x code at twice the size; SupportedRequests and UnsupportedSkipped state it |
| IcnsConverter.Requests | lib/icns-converter.js:61-76 | the requests of every element in list order; RequestsOrder, RequestsCount and RequestsAppend state it |
| IcnsConverter.MakeBlocks | lib/icns-converter.js:61-76 | the specification of the rasterizing loop over the requests, first failure aborting; MakeBlocksMeaning states its meaning |
| IcnsConverter.RequestsAppend | lib/icns-converter.js:61 | the requests of two lists one after the other are those of the first list, then those of the second |
| IcnsConverter.RequestsSnoc | lib/icns-converter.js:61 | the requests of a list end with the requests of its last element |
| IcnsConverter.RequestsStep | lib/icns-converter.js:61-76 | the requests up to element i + 1 extend those up to element i by element i's requests |
| IcnsConverter.EncodeBlocksAppend | lib/icns-converter.js:66-73 | encoding two block lists one after the other concatenates their encodings |
| IcnsConverter.SizeBlocks | lib/icns-converter.js:62-75 | one list element's loop body returns the encoded blocks of that element's requests, or the error of the first request that fails |
| IcnsConverter.ConvertAborts | lib/icns-converter.js:64-71 | a failing element aborts the whole conversion with its error |
| IcnsConverter.ConvertStep | lib/icns-converter.js:66-73 | a succeeding element appends its blocks to those made so far |
| IcnsConverter.CollectBlocks | lib/icns-converter.js:61-76 | the loop's result is the encoded blocks of every request in list order, or the first failure |
| IcnsConverter.TotalSize | lib/icns-converter.js:79 | 8 plus the lengths of the encoded blocks; TotalSizeRendered and IcnsFileLength state it |
| IcnsConverter.IcnsFile | lib/icns-converter.js:82-85 | the header declaring the total size, then the blocks; IcnsFileLayout and IcnsBlockAt state its layout |
| IcnsConverter.IcnsConvert | lib/icns-converter.js:55-85 | the whole conversion as a function: the first failing request's error, a RangeError for a total that does not fit, or the file; IcnsConvertSucceeds, IcnsConvertFailure and IcnsConvertOutput state its meaning |
| IcnsConverter.ConvertFinish | lib/icns-converter.js:79-85 | once the blocks are made, the output is the header followed by the block buffers when the total length fits |
| IcnsConverter.ConvertFails | lib/icns-converter.js:61-76 | a request that fails fails the conversion with its error |
| IcnsConverter.ConvertTooLarge | lib/icns-converter.js:79-82 | a total length that does not fit 32 bits fails the conversion with a RangeError |
| IcnsConverter.IcnsFileLayout | lib/icns-converter.js:82-85 | the file is Buffer.concat of the header and the block buffers |
| IcnsConverter.Convert | lib/icns-converter.js:55-85 | the imperative conversion returns the specification conversion's bytes or error |
| IcnsReader.IcnsFileLength | lib/icns-converter.js:79-85 | the file's header declares the file's own length, 8 plus every block, and starts with `icns` |
| IcnsReader.IcnsBlockAt | lib/icns-converter.js:85 | block i sits after the header and the blocks before it, and reads back as its type code, its own length and its data |
| IcnsReader.ParseBlocksRoundTrip | lib/icns-converter.js:36-45 | the concatenated block encodings parse back to exactly the blocks |
| IcnsReader.IcnsRoundTrip | lib/icns-converter.js:79-85 | reading the encoder's output back gives exactly the blocks, in order |
| IcnsReader.IconTypesTable | lib/icns-converter.js:8-15 | the table has exactly the sizes 16, 32, 64, 128, 256 and 512, with their 1x and 2x type codes ic04/ic11 through ic10/ic16 |
| IcnsReader.RequestsCount | lib/icns-converter.js:61-76 | the block count is the number of list elements found in the table, duplicates included, times 2 with retina on or 1 with it off |
| IcnsReader.UnsupportedSkipped | lib/icns-converter.js:62 | an element outside the table adds no block and no error: removing it leaves the requests unchanged |
| IcnsReader.RequestsOrder | lib/icns-converter.js:64-74 | the requests of a supported element follow those of the earlier elements: its 1x request at its size first, then, with retina on, its 2x request at twice the size |
| IcnsReader.SupportedRequests | lib/icns-converter.js:62-74 | a size in the table gives its 1x request, then its 2x request when retina is on |
| IcnsReader.OptionDefaults | lib/icns-converter.js:56-57 | retina is on unless the option is exactly false; the default sizes are 16 through 512; a given list is used as it is |
| IcnsReader.ScenarioRequests | lib/icns-converter.js:61-76 | sizes 16, 32 and 64 give six requests in order with retina on, three without, and size 1024 alone gives none |
| IcnsReader.ScenarioRequestsWith | lib/icns-converter.js:61-76 | the requests of sizes 16, 32 and 64 with retina on or off |
| IcnsReader.RequestsOfThree | lib/icns-converter.js:61 | the requests of a three-element list are those of each element in turn |
| IcnsReader.RequestsSingle | lib/icns-converter.js:61 | the requests of a one-element list are that element's requests |
| IcnsReader.TotalSizeRendered | lib/icns-converter.js:79 | once every request is made into a block, the file length is 8 plus, per request, 8 and the image length |
| IcnsReader.IcnsConvertSucceeds | lib/icns-converter.js:55-85 | the conversion succeeds exactly when every request rasterizes and the total length fits 32 bits |
| IcnsReader.IcnsConvertFailure | lib/icns-converter.js:55-85 | a failed conversion reports the first request that does not render, or a RangeError for a total length that does not fit |
| IcnsReader.IcnsConvertOutput | lib/icns-converter.js:55-85 | a successful conversion declares its own length and reads back as one block per request, in order, with the request's type code and the rasterizer's image at the request's dimension |
| SvgProcessor.GetTag | lib/svg-processor.js:9-11 | the tag _getAttribute searches: from the first `<svg` through the next `>`, with substring's clamping; GetTagFirst, GetTagUnclosed and GetTagNoSvg state its cases |
| SvgProcessor.ValueIn | lib/svg-processor.js:13-32 | the value of `name` in the tag: between the double quotes after `name=`, else between the single quotes, else null; ValueInNone, ValueInDoubleQuoted and ValueInSingleQuoted state its meaning |
| SvgProcessor.GetAttribute | lib/svg-processor.js:8-33 | _getAttribute: ValueIn applied to GetTag |
| SvgProcessor.TagFacts | lib/svg-processor.js:44-51 | with a `<svg` and a later `>`, the tag runs from the first `<svg` through the first `>` after it, holds no other `>` and is well-shaped |
| SvgProcessor.TagBounds | lib/svg-processor.js:44-51 | the delimited tag starts with `<svg`, ends at the `>` and is well-shaped |
| SvgProcessor.TagIsShaped | lib/svg-processor.js:51 | the delimited tag is well-shaped |
| SvgProcessor.GetTagFirst | lib/svg-processor.js:9-11 | with a `<svg` and a later `>`, the tag read is exactly the text from the first `<svg` through the first `>` after it |
| SvgProcessor.GetTagUnclosed | lib/svg-processor.js:9-11 | with a `<svg` but no `>` after it, the clamped and swapped substring is the text before the `<svg` |
| SvgProcessor.GetTagNoSvg | lib/svg-processor.js:9-11 | without a `<svg` the search starts at 0: the tag read is everything through the first `>`, or empty when there is none |
| SvgProcessor.PairIff | lib/svg-processor.js:18-21 | the opening and closing quote searches both succeed exactly when two such quotes follow the attribute |
| SvgProcessor.PairFound | lib/svg-processor.js:18-19 | two quotes found by the searches are a pair after the attribute |
| SvgProcessor.PairSearched | lib/svg-processor.js:18-19 | a pair of quotes after the attribute is found by the searches |
| SvgProcessor.BetweenQuotes | lib/svg-processor.js:19 | the text between two quotes found by the search holds no such quote |
| SvgProcessor.ValueInNeedsName | lib/svg-processor.js:13-16 | _getAttribute returns null unless `name=` occurs in the tag |
| SvgProcessor.ValueInDoubleQuoted | lib/svg-processor.js:18-19 | with a pair of double quotes after `name=`, the value is the text between the first two of them and holds no double quote |
| SvgProcessor.ValueInSingleQuoted | lib/svg-processor.js:21-29 | with no pair of double quotes but a pair of single quotes after `name=`, the value is the text between them and holds no single quote |
| SvgProcessor.ValueInNone | lib/svg-processor.js:13-28 | the result is null exactly when `name=` is missing, or is followed by neither a pair of double nor a pair of single quotes |
| SvgProcessor.ValueInAtDouble | lib/svg-processor.js:18-32 | once the searches land at known positions, the value read is the text between the double quotes |
| SvgProcessor.ValueInAtSingle | lib/svg-processor.js:21-29 | once the double-quote search fails and the single-quote searches land at known positions, the value read is the text between the single quotes |
| SvgProcessor.ReplaceValue | lib/svg-processor.js:56-72 | the tag with the double-quoted value after `name=` replaced, else the single-quoted one, else nothing; NewTagReplacesDoubleQuoted and NewTagReplacesSingleQuoted state its cases |
| SvgProcessor.InsertAttribute | lib/svg-processor.js:76 | `<svg name="value"` followed by the tag from its fifth character; InsertAt and InsertedValue state its meaning |
| SvgProcessor.NewTag | lib/svg-processor.js:52-76 | the replaced tag when `name=` is present with a quoted value, the inserted one otherwise; NotReplacedWhenUnquoted and NewTagReadBack state it |
| SvgProcessor.SetAttributeWith | lib/svg-processor.js:42-78 | _setAttribute with its quote test as a parameter: the content unchanged without a tag, else the content with its tag rewritten; SetAttributeNoTag and SetAttributeFrame state it |
| SvgProcessor.SetAttribute | lib/svg-processor.js:42-78 | _setAttribute as written, with the strict quote test at lines 60 and 68 |
| SvgProcessor.SetAttributeCorrected | lib/svg-processor.js:60 | _setAttribute with the corrected test that also replaces an empty quoted value; ReadAfterWrite states its read-after-write property |
| SvgProcessor.SetAttributeNoTag | lib/svg-processor.js:44-49 | without a `<svg`, or without a `>` after it, the content is returned unchanged |
| SvgProcessor.SetAttributeFrame | lib/svg-processor.js:62 | the write never alters the text before and including the first `<svg`, nor the text after the first `>` that follows it |
| SvgProcessor.SpliceFrame | lib/svg-processor.js:70 | replacing the tag by one that starts the same way keeps the text before and after it |
| SvgProcessor.NewTagStart | lib/svg-processor.js:61-76 | the rewritten tag still starts with `<svg` |
| SvgProcessor.QuoteAfterSvg | lib/svg-processor.js:57-58 | a quote found in a well-shaped tag lies after its `<svg` and before its closing `>` |
| SvgProcessor.NameAfterSvg | lib/svg-processor.js:56 | `name=` found in a well-shaped tag lies after the `<svg`, with the `=` at its end |
| SvgProcessor.QuoteAfterName | lib/svg-processor.js:57 | a quote found after `name=`, for a name with no such quote, lies after the `=` |
| SvgProcessor.QuotesAfterName | lib/svg-processor.js:57-58 | the quotes found after `name=` lie between its `=` and the closing `>`, in order |
| SvgProcessor.SetAttributeInsertsWhenAbsent | lib/svg-processor.js:75-77 | when `name=` is not in the tag, the result is the text before the tag, `<svg name="value"`, and the rest of the content from the fifth character of the tag on |
| SvgProcessor.SetAttributeInsertsWhenUnquoted | lib/svg-processor.js:63-77 | when `name=` is followed by neither a pair of double nor a pair of single quotes, the attribute is inserted after `<svg` the same way |
| SvgProcessor.NotReplacedWhenUnquoted | lib/svg-processor.js:54-76 | without a pair of either quote after `name=`, the tag is rewritten by insertion |
| SvgProcessor.NotReplacedWhenEmpty | lib/svg-processor.js:60-76 | as written, an empty double-quoted value is not replaced; unless a non-empty single-quoted value follows, the attribute is inserted |
| SvgProcessor.InsertedTail | lib/svg-processor.js:76-77 | the inserted tag rejoined with the content is the content with `<svg` followed by the attribute in place of its `<svg` |
| SvgProcessor.NewTagReplacesDoubleQuoted | lib/svg-processor.js:56-62 | when the double-quote test passes, exactly the text between the first two double quotes after `name=` is replaced |
| SvgProcessor.NewTagReplacesSingleQuoted | lib/svg-processor.js:63-70 | when the double-quote test fails and the single-quote test passes, exactly the text between the single quotes is replaced |
| SvgProcessor.NewTagAtSingle | lib/svg-processor.js:65-69 | with the quote tests decided, the single-quoted value is the one replaced |
| SvgProcessor.InsertAt | lib/svg-processor.js:76 | where each character of the inserted tag comes from: `<svg `, the name, `="`, the value, `"`, then the old tag from its fifth character |
| SvgProcessor.InsertedShape | lib/svg-processor.js:76 | inserting a safe name and value keeps the tag well-shaped |
| SvgProcessor.InsertedValue | lib/svg-processor.js:76 | the inserted attribute reads back as the value |
| SvgProcessor.SpliceAt | lib/svg-processor.js:61 | where each character of a tag with a replaced value comes from |
| SvgProcessor.SpliceShape | lib/svg-processor.js:61-69 | replacing a value by text without `>` keeps the tag well-shaped |
| SvgProcessor.SplicePositions | lib/svg-processor.js:61-69 | after the replacement, `name=` and the opening quote are found where they were, and the closing quote right after the value |
| SvgProcessor.SplicedValue | lib/svg-processor.js:61-69 | replacing the quoted value keeps the tag's shape and the search positions, with the closing quote right after the new value |
| SvgProcessor.NoPairAfterSplice | lib/svg-processor.js:69 | replacing a value by text without a given quote creates no new pair of that quote |
| SvgProcessor.PairBeforeSplice | lib/svg-processor.js:69 | a pair of quotes in the rewritten tag comes from a pair in the original one |
| SvgProcessor.SplicedNoDoublePair | lib/svg-processor.js:69 | after a single-quoted value is replaced by a value without double quotes, the double-quote searches still fail |
| SvgProcessor.DoubleSpliceRead | lib/svg-processor.js:61 | a value written between the double quotes reads back as that value |
| SvgProcessor.SingleSpliceRead | lib/svg-processor.js:69 | a value written between the single quotes, with no pair of double quotes after `name=`, reads back as that value |
| SvgProcessor.SingleSpliceValue | lib/svg-processor.js:69 | the single-quoted value read back from the rewritten tag at known positions is the value written |
| SvgProcessor.DoubleQuotedReadBack | lib/svg-processor.js:56-62 | after replacing a double-quoted value, the tag is well-shaped and reads back as the value |
| SvgProcessor.SingleQuotedReadBack | lib/svg-processor.js:63-71 | after replacing a single-quoted value, the tag is well-shaped and reads back as the value |
| SvgProcessor.NewTagReadBack | lib/svg-processor.js:51-77 | with the corrected quote test, the rewritten tag is well-shaped and holds the written value however it was written |
| SvgProcessor.ReadBack | lib/svg-processor.js:9-11 | reading a content whose tag was replaced by a well-shaped tag reads that tag |
| SvgProcessor.ReadAfterWrite | lib/svg-processor.js:8-78 | for content with a `<svg` and a later `>`, a name without quotes, `>` or `=`, and a value without quotes or `>`, reading the attribute after the corrected write gives the value |
| SvgProcessor.SetAttributeEmptyValueCounterexample | lib/svg-processor.js:60 | as written, writing `v` to `n` in `<svg n="" x='a'>` rewrites the value of `x`, and reading `n` afterwards still gives the empty string |
| SvgProcessor.EmptyValueWrite | lib/svg-processor.js:60-70 | the write as written, in the counterexample, replaces the single-quoted value |
| SvgProcessor.EmptyValueRead | lib/svg-processor.js:18-32 | reading `n` in the counterexample's result finds the empty double-quoted value |
| SvgProcessor.EmptyValueReplace | lib/svg-processor.js:60-69 | at the tag level, the corrected test replaces the empty value, and the test as written replaces the value of `x` |
| SvgProcessor.EmptyValueReadTag | lib/svg-processor.js:18-32 | at the tag level, reading `n` in the rewritten counterexample tag gives the empty string |
| SvgProcessor.WholeTag | lib/svg-processor.js:44-51 | content that is a single tag is read and written as that tag |
| SvgProcessor.EmptyValueFacts | lib/svg-processor.js:56-66 | where each search lands in the counterexample's tags |
| SvgProcessor.EmptyValueTagFacts | lib/svg-processor.js:44-45 | where the searches for the tag land in the counterexample |
| SvgProcessor.EmptyValueNameFacts | lib/svg-processor.js:56 | where the search for `n=` lands in the counterexample |
| SvgProcessor.SetAttributeCorrectedEmptyValue | lib/svg-processor.js:60 | with the corrected test, the empty value is replaced in place |
| SvgProcessor.UnquotedValueUsesNextAttribute | lib/svg-processor.js:18-19 | the quote searches are not bounded by the attribute: in `<svg n=1 x="a">`, reading `n` gives `a`, and writing `v` to `n` gives `<svg n=1 x="v">` (lines 56-62) |
| SvgProcessor.UnquotedValueFacts | lib/svg-processor.js:56-58 | where the searches land in `<svg n=1 x="a">` |
| SvgProcessor.NameMatchesLongerName | lib/svg-processor.js:13 | `name=` is matched as plain text: in `<svg data="1">`, reading `a` gives `1`, and writing `2` to `a` gives `<svg data="2">` (line 56) |
| SvgProcessor.LongerNameFacts | lib/svg-processor.js:56-58 | where the searches land in `<svg data="1">` |

## Left out

- `_generatePNGBuffer` (lib/ico-converter.js:97-111, lib/icns-converter.js:97-106) is replaced by the `Rasterizer` parameter. Its temporary file, `Date.now()` name and filesystem reads are I/O.
- The `fs.writeFileSync` call at the end of each `convert` is left out. The model's `Convert` returns the bytes that would be written.
- Other parts of the repository are not part of this model:
  - lib/png-converter.js, a wrapper over the external `sharp` library;
  - index.js, index.cjs and index.d.ts, which are glue and type declarations;
  - test/test.js, which drives end-to-end file conversion, although its sizes 16, 32 and 64 are reused in the example lemmas.
- `SVGProcessor.process` and `getDimensions` rely on `parseFloat`, `Number` and float-to-string conversion, which is floating point.
- `async`/`await`: each loop awaits one rasterization at a time, so it is modelled as an ordinary sequential loop with no concurrency.
- The conversions are split in the model. `IcoConverter.Convert` is `RasterizeSizes` (lines 61-65) followed by `Layout` (lines 67-85). `IcnsConverter.Convert` runs `CollectBlocks` (lines 61-76), within which `SizeBlocks` is one iteration's body. The split keeps each proof small, and the calls and their order are those of the source.
- Sizes are natural numbers. A negative, fractional or non-numeric size, and an `options.sizes` that is truthy but not an array, are not modelled.
- The ICNS table is indexed by numbers. The JavaScript object lookup would also accept numeric strings.
- String positions count Dafny characters, whereas JavaScript counts UTF-16 code units. Contents outside the Basic Multilingual Plane are not modelled exactly.
- `value.toString()` (lib/svg-processor.js:43): the value is already a string in the model.
- Node's maximum Buffer length is not modelled; buffers may be of any length.
- SvgProcessor.ReadAfterWrite: read-after-write is proved for the corrected write only, because as written it fails for an empty double-quoted value (see Findings).

## Findings

| source | as written | input that shows it | evidently intended | confidence | as-written member | corrected member |
|---|---|---|---|---|---|---|
| lib/svg-processor.js:60 (and 68) | `_setAttribute` replaces a quoted value only when the closing quote lies strictly after the opening one (`quoteEnd > quoteStart`). An empty value `""` is therefore skipped, and the write falls through to the single-quote search or to insertion, while `_getAttribute` reads the empty value first. | `_setAttribute('<svg n="" x=\'a\'>', 'n', 'v')` gives `<svg n="" x='v'>`: it overwrites attribute `x`, and `_getAttribute` of `n` then still returns the empty string | an empty quoted value is replaced in place (`quoteEnd >= quoteStart`), so that reading the attribute after writing it gives the value written | high (not executed) | SvgProcessor.SetAttributeEmptyValueCounterexample | SvgProcessor.ReadAfterWrite |
