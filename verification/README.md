# PoDoFo core logic in Dafny

This project models four self-contained parts of the PoDoFo PDF library and
proves what their code promises.

- **Stream devices** (`src/podofo/auxiliary/StreamDevice.cpp`):
  - the seek calculator shared by all devices;
  - the null device, which only counts a length and a position;
  - the span device, which reads and overwrites a fixed-length byte buffer in place and never grows it;
  - the table that turns a file mode, an access and whether the file exists into an `fopen` mode string, or an error.
- **Encoding maps** (`src/podofo/main/PdfEncodingMap.cpp`):
  - decoding character codes from a byte string by the code-space matching rule of section 9.7.6.2 of ISO 32000-1:2008;
  - reading CIDs;
  - encoding UTF-8 text code point by code point;
  - the built-in 256-entry encodings and their reverse table;
  - the Unicode-to-GID map of a built-in encoding;
  - the writers that emit the `<hex>` literals and the `bfchar`, `bfrange`, `cidchar`, `cidrange` and `codespacerange` blocks of a CMap.
- **Annotation collection** (`src/podofo/main/PdfAnnotationCollection.cpp`):
  - the list of annotation slots of a page;
  - the page's `/Annots` array;
  - the map from reference to index;
  - keeping these three consistent under lazy initialisation, append and removal.
- **Signer identity** (`src/podofo/main/PdfSigningContext.h`):
  - `PdfSignerId`, with its equality and hash;
  - the shape of the signing results;
  - the defaults of the per-signature records.

The files:

- `common.dfy` (module `Common`):
  - machine integer ranges;
  - the errors raised;
  - `Result`, `Outcome` and `Option`;
  - removal at an index;
  - the "last index of each element" map, which both the annotation map and the built-in reverse table are.
- `text.dfy` (module `Text`):
  - big-endian integers;
  - hexadecimal and decimal text;
  - UTF-8 and UTF-16BE;
  - space-separated lists.

  These stand in for the library's text helpers.
- `stream_device.dfy` (module `StreamDevice`).
- `encoding_map.dfy` (module `Encoding`):
  - an encoding map is a value whose four virtual lookups are function-valued fields;
  - an output stream is a class whose `written` text the writers extend.
- `builtin_encoding.dfy` (module `BuiltInEncoding`): `PdfBuiltInEncoding` as a class whose reverse table is filled on first use.
- `annotations.dfy` (module `Annotations`): the collection as a class with the three parts as fields.
- `signing_context.dfy` (module `SigningContext`).

## Model

| member | source | states |
|---|---|---|
| Common.RemoveAt | src/podofo/main/PdfAnnotationCollection.cpp:58-59 | erasing position i leaves one element fewer, keeps the elements before i and shifts the later ones down by one |
| Common.LastIndexMapSpec | src/podofo/main/PdfAnnotationCollection.cpp:159-188 | assigning `m[s[i]] := i` for each i in order yields a map whose keys are exactly the elements of s, each mapped to an index holding it with no later index holding it |
| StreamDevice.SeekPosition | src/podofo/auxiliary/StreamDevice.cpp:96-143 | Current with offset 0 returns curpos; whenever curpos ≤ devlen the result equals SeekReference: IOError for a negative offset from Begin or a positive one from End, ValueOutOfRange when the target leaves [0, devlen], otherwise the target; a successful seek stays within devlen |
| StreamDevice.NullStreamDevice.constructor | src/podofo/auxiliary/StreamDevice.cpp:556-559 | length and position start at 0 |
| StreamDevice.NullStreamDevice.Write | src/podofo/auxiliary/StreamDevice.cpp:582-588 | the position advances by size with size_t wrap-around, and the length becomes the larger of the old length and the new position |
| StreamDevice.NullStreamDevice.Read | src/podofo/auxiliary/StreamDevice.cpp:590-597 | when position + size fits in size_t, the position moves towards the length by at most size and the count is the distance moved; when it wraps, the position becomes position + size − 2^64 and the count is size, as the source's unchecked addition gives; eof holds iff the position reaches the length |
| StreamDevice.NullStreamDevice.ReadChar | src/podofo/auxiliary/StreamDevice.cpp:599-607 | always reports failure with character 0, yet advances the position by one unless it is at the end |
| StreamDevice.NullStreamDevice.Peek | src/podofo/auxiliary/StreamDevice.cpp:561-565 | succeeds iff the position is not at the length, with character 0 |
| StreamDevice.NullStreamDevice.Seek | src/podofo/auxiliary/StreamDevice.cpp:609-612 | moves to SeekPosition's result, or raises its error and stays |
| StreamDevice.SpanStreamDevice.constructor | src/podofo/auxiliary/StreamDevice.cpp:644-647 | the device wraps the given buffer with the position at 0 |
| StreamDevice.SpanStreamDevice.Write | src/podofo/auxiliary/StreamDevice.cpp:674-681 | a write past the end raises ValueOutOfRange and leaves buffer and position unchanged; otherwise it overwrites exactly the bytes under the cursor with the data, keeps all other bytes and the length, and advances the position by the data's size |
| StreamDevice.Overwrite | src/podofo/auxiliary/StreamDevice.cpp:674-681 | the buffer afterwards is its old prefix before pos, then the data, then its old suffix after pos + size |
| StreamDevice.SpanStreamDevice.Read | src/podofo/auxiliary/StreamDevice.cpp:683-690 | returns min(size, length − position) bytes equal to the buffer from the position on, advances past them, and sets eof iff the position reaches the length |
| StreamDevice.SpanStreamDevice.ReadChar | src/podofo/auxiliary/StreamDevice.cpp:692-703 | succeeds iff the position is before the end, returning the byte there and advancing by one; at the end returns 0 and stays |
| StreamDevice.SpanStreamDevice.Peek | src/podofo/auxiliary/StreamDevice.cpp:705-715 | like ReadChar, without moving the position |
| StreamDevice.SpanStreamDevice.Seek | src/podofo/auxiliary/StreamDevice.cpp:717-720 | moves to SeekPosition's result over the buffer length, or raises its error and stays |
| StreamDevice.CreateFileMode | src/podofo/auxiliary/StreamDevice.cpp:722-850 | errors are IOError; an accepted mode string is one of "r", "r+", "w", "w+", "a", "a+", and it is an append-only "a" mode iff the mode is Append, so every other mode writes at the position; it reads iff the access reads and writes iff the access writes; read access is accepted only for Open; CreateNew needs a missing file, Truncate an existing one, a writing Open an existing one; OpenOrCreate with ReadWrite gives "r+" or "w+" by existence; Append gives "a" or "a+" |
| StreamDevice.CreateFileTruncation | src/podofo/auxiliary/StreamDevice.cpp:722-850 | on an existing file the chosen mode discards the content exactly for Create, Truncate and a write-only Open or OpenOrCreate |
| StreamDevice.CreateFileOnMissing | src/podofo/auxiliary/StreamDevice.cpp:722-850 | on a missing file every accepted mode creates it, except a read-only Open |
| Text.BigEndianRoundTrip | src/podofo/main/PdfEncodingMap.cpp:218-254 | the n big-endian bytes of a value below 256^n read back as that value |
| Text.BigEndianBytesOfValue | src/podofo/main/PdfEncodingMap.cpp:218-254 | reading bytes big-endian and writing the value back in as many bytes gives the same bytes |
| Text.HexRoundTrip | src/podofo/main/PdfEncodingMap.cpp:641-649 | the two-hex-digits-per-byte text of a byte string parses back to it |
| Text.DecimalRoundTrip | src/podofo/main/PdfEncodingMap.cpp:641-649 | the decimal text of a number parses back to it |
| Text.Utf16RoundTrip | src/podofo/main/PdfEncodingMap.cpp:261-287 | the UTF-16BE bytes of a code point decode back to it |
| Text.Utf8DecodeEncode | src/podofo/main/PdfEncodingMap.cpp:58-66 | decoding the UTF-8 encoding of a non-surrogate code point, followed by anything, yields that code point and its encoded length |
| Text.Utf8EncodeDecode | src/podofo/main/PdfEncodingMap.cpp:58-66 | a successful UTF-8 decode consumed exactly the encoding of the code point it returned |
| Text.SplitJoin | src/podofo/main/PdfEncodingMap.cpp:261-287 | pieces without spaces, joined with single spaces, split back into the same pieces |
| Encoding.GetWModeSafe | src/podofo/main/PdfEncodingMap.cpp:212-215 | vertical iff the raw writing mode is 1, horizontal for any other value |
| Encoding.FirstMatchSpec | src/podofo/main/PdfEncodingMap.cpp:218-254 | the reference match of section 9.7.6.2 of ISO 32000-1:2008 is a length within the limits whose code the map knows, no shorter length matches, and there is no match only when no length matches |
| Encoding.TryGetNextCodePoints | src/podofo/main/PdfEncodingMap.cpp:218-254 | succeeds iff the reference match exists; on success advances by exactly the matched length and returns the big-endian code of those bytes, of that size, and its code points; on failure the index is unchanged |
| Encoding.TryGetNextCID | src/podofo/main/PdfEncodingMap.cpp:113-162 | CMap: no code means failure, no move and a cleared CID; a code found moves past it and succeeds iff it maps to exactly one code point, which becomes the CID id; any other map: with MaxCodeSize bytes left it consumes exactly that many and the CID id and code are their big-endian value, otherwise it fails, stays and clears the CID |
| Encoding.TryGetNextCharCode | src/podofo/main/PdfEncodingMap.cpp:42-67 | at the end it fails with a cleared code; any failure clears the code; with ligatures it never raises, succeeds iff the map's tryGetNextCharCode finds a code, and then returns that code and its end index, and otherwise stays; without, it raises iff the UTF-8 is malformed, always consumes exactly the encoding of one code point, and succeeds iff tryGetCharCode finds that code point |
| Encoding.TryGetCharCode | src/podofo/main/PdfEncodingMap.cpp:89-104 | one code point is a tryGetCharCode lookup; a ligature-capable map looks up several code points with tryGetCharCodeSpan; any other length fails |
| Encoding.NextCharCodeAgreesWithCharCode | src/podofo/main/PdfEncodingMap.cpp:42-104 | without ligatures, scanning an encoded code point consumes its encoding and finds the same code as TryGetCharCode on it |
| Encoding.CharCodeHexRoundTrip | src/podofo/main/PdfEncodingMap.cpp:641-649 | the `<hex>` text of a char code (codeSpaceSize bytes, big-endian) parses back to that code |
| Encoding.Utf16LiteralRoundTrip | src/podofo/main/PdfEncodingMap.cpp:261-287 | the `<…>` literal of code points (UTF-16BE hex per code point, single spaces between code points) parses back to the code points |
| Encoding.Utf16HexIsJoined | src/podofo/main/PdfEncodingMap.cpp:261-287 | the literal's body is the hex pieces of the code points joined with single spaces |
| Encoding.AppendUtf16CodeTo | src/podofo/main/PdfEncodingMap.cpp:256-287 | appends exactly the `<…>` literal of the code points |
| Encoding.SortedCodes | src/podofo/main/PdfEncodingMap.cpp:368-414 | the keys of a mapping, each exactly once, in strictly ascending code order |
| Encoding.BfCharBlockSpec | src/podofo/main/PdfEncodingMap.cpp:368-414 | the bfchar block has as many newlines as mappings, so the count that opens it is its number of lines (ordering and keys are SortedCodes' contract) |
| Encoding.BfRangeBlockSpec | src/podofo/main/PdfEncodingMap.cpp:368-414 | the bfrange block has one line per range |
| Encoding.CidBlocksSpec | src/podofo/main/PdfEncodingMap.cpp:305-342 | the cidchar block has one line per mapping and the cidrange block one per range |
| Encoding.AppendToUnicodeEntries | src/podofo/main/PdfEncodingMap.cpp:368-414 | appends the bfchar block and then the bfrange block, each omitted when empty and otherwise opened by its line count |
| Encoding.AppendCidMappingEntries | src/podofo/main/PdfEncodingMap.cpp:305-342 | appends the cidchar block and then the cidrange block, each omitted when empty and otherwise opened by its line count |
| Encoding.AppendLimitsCodeSpaceRange | src/podofo/main/PdfEncodingMap.cpp:289-298 | appends one codespacerange with the first and last char codes of the limits |
| Encoding.CodeSpaceBodyLines | src/podofo/main/PdfEncodingMap.cpp:344-366 | the code-space body has one line per range |
| Encoding.AppendCodeSpaceRange | src/podofo/main/PdfEncodingMap.cpp:344-366 | appends the count, the ranges one per line, and the end keyword |
| Encoding.CharCodeOf | src/podofo/main/PdfEncodingMap.cpp:453-527 | the char code built from an unsigned value has that value, at most 4 bytes, and enough bytes to hold it |
| Encoding.UnicodeArrayEntriesCount | src/podofo/main/PdfEncodingMap.cpp:453-482 | the bfrange array has at most one entry per code, and one per code exactly when every code is found |
| Encoding.UnicodeArrayEntriesAligned | src/podofo/main/PdfEncodingMap.cpp:453-482 | when every code is found, entry k holds the code points of code first + k |
| Encoding.UnicodeArrayShiftsOnMissingCode | src/podofo/main/PdfEncodingMap.cpp:468-479 | on a map over codes 0 to 2 without code 1, the array lists code 2's code points in the second slot, so a reader assigns them to code 1 |
| Encoding.WriteUnicodeArray | src/podofo/main/PdfEncodingMap.cpp:468-479 | appends one literal line per code from first to last whose code points are found, in code order |
| Encoding.OneByteAppendToUnicodeEntries | src/podofo/main/PdfEncodingMap.cpp:453-482 | appends one bfrange from the first to the last char code whose array is the found code points |
| Encoding.CidMappingsSpec | src/podofo/main/PdfEncodingMap.cpp:484-519 | the collected mappings are exactly the codes from first to last whose code points are found and whose first code point has a GID, each paired with that GID, in strictly ascending code order |
| Encoding.CidMappingLinesCount | src/podofo/main/PdfEncodingMap.cpp:520-526 | the count that opens the cidchar block equals its number of lines |
| Encoding.OneByteAppendCidMappingEntries | src/podofo/main/PdfEncodingMap.cpp:484-527 | appends the count, one cidchar line per collected mapping, and the end keyword, even when there are none |
| BuiltInEncoding.CodeOfCodePointSpec | src/podofo/main/PdfEncodingMap.cpp:602-628 | a code point has a code iff it is in the table; the code is one byte wide, indexes that code point, and no later index holds it |
| BuiltInEncoding.EncodeDecode | src/podofo/main/PdfEncodingMap.cpp:602-639 | the code of a code point in the table decodes back to exactly that code point |
| BuiltInEncoding.DecodeEncode | src/podofo/main/PdfEncodingMap.cpp:602-639 | a code below 256 decodes to its table entry; encoding that entry gives a code at or after it, the same code iff no later code has the same entry |
| BuiltInEncoding.BuiltInLimitsAreOneByte | src/podofo/main/PdfEncodingMap.cpp:575-578 | the built-in limits are one byte, from code 0 to 0xFF |
| BuiltInEncoding.BuiltInArrayIsComplete | src/podofo/main/PdfEncodingMap.cpp:630-639 | every code of a built-in encoding is found, so its bfrange array lists table[i] at slot i for every code, and every span has a first code point |
| BuiltInEncoding.UnicodeToGidKeys | src/podofo/main/PdfEncodingMap.cpp:582-600 | the resulting map's keys are the old keys plus the non-zero code points whose code has a GID |
| BuiltInEncoding.UnicodeToGidLastWins | src/podofo/main/PdfEncodingMap.cpp:582-600 | such a code point maps to the GID of the last code that has it and a GID |
| BuiltInEncoding.UnicodeToGidKeepsOthers | src/podofo/main/PdfEncodingMap.cpp:582-600 | any other key keeps its old GID |
| BuiltInEncoding.BuiltInEncodingMap.constructor | src/podofo/main/PdfEncodingMap.cpp:575-578 | the reverse table starts empty |
| BuiltInEncoding.BuiltInEncodingMap.InitEncodingTable | src/podofo/main/PdfEncodingMap.cpp:602-614 | whether or not it was filled before, afterwards the reverse table maps each table entry to its last index |
| BuiltInEncoding.BuiltInEncodingMap.TryGetCharCode | src/podofo/main/PdfEncodingMap.cpp:616-628 | fills the reverse table, then succeeds iff the code point has a code and returns that code, or the cleared code |
| BuiltInEncoding.BuiltInEncodingMap.CreateUnicodeToGidMap | src/podofo/main/PdfEncodingMap.cpp:582-600 | returns the map UnicodeToGid describes after all 256 codes |
| Annotations.Decremented | src/podofo/main/PdfAnnotationCollection.cpp:190-198 | same keys; indices above the removed one move down by one, the others stay |
| Annotations.RemovalKeepsMapConsistent | src/podofo/main/PdfAnnotationCollection.cpp:46-81 | removing a position, its reference's entry and shifting later indices keeps every entry pointing at its own reference |
| Annotations.RemovalKeepsSlotsConsistent | src/podofo/main/PdfAnnotationCollection.cpp:46-81 | removing the same position from the slots and the array keeps them the same length and aligned |
| Annotations.RemoveAnnotAtAsWritten | src/podofo/main/PdfAnnotationCollection.cpp:46-64 | the slot and array lose the position; for a null slot the map is only shifted, with no entry dropped |
| Annotations.StaleEntryAfterRemovingInvalidSlot | src/podofo/main/PdfAnnotationCollection.cpp:52-56 | on a consistent collection whose first entry is invalid, removing index 0 as written leaves that reference mapped to index 0, which now holds another annotation |
| Annotations.AnnotationCollection.constructor | src/podofo/main/PdfAnnotationCollection.cpp:15-18 | the collection starts uninitialised |
| Annotations.AnnotationCollection.SlotsOf | src/podofo/main/PdfAnnotationCollection.cpp:159-188 | one slot per /Annots entry, aligned with it, null exactly for the invalid ones |
| Annotations.AnnotationCollection.InitAnnotations | src/podofo/main/PdfAnnotationCollection.cpp:159-188 | idempotent: the first call builds one slot per entry and maps each reference to its last index; later calls change nothing |
| Annotations.AnnotationCollection.GetCount | src/podofo/main/PdfAnnotationCollection.cpp:83-87 | the number of slots, which equals the length of /Annots |
| Annotations.AnnotationCollection.AddAnnotation | src/podofo/main/PdfAnnotationCollection.cpp:113-124 | the reference is mapped to the old array size and appended to the array, which is created if absent, and to the slots |
| Annotations.AnnotationCollection.FixIndices | src/podofo/main/PdfAnnotationCollection.cpp:190-198 | the map becomes Decremented of the old map; nothing else changes |
| Annotations.AnnotationCollection.RemoveAnnotAt | src/podofo/main/PdfAnnotationCollection.cpp:46-64 | the corrected removal of "## Findings" (the source as written, which drops the entry only for a non-null slot, is RemoveAnnotAtAsWritten): an index at or past the count raises ValueOutOfRange and changes nothing; otherwise the position leaves slots and array, its reference's entry is dropped whether or not the slot is null, and later indices shift down, keeping the collection consistent |
| Annotations.AnnotationCollection.RemoveAnnot | src/podofo/main/PdfAnnotationCollection.cpp:66-81 | an unknown reference changes nothing; otherwise its slot, array entry and map entry go and later indices shift down |
| Annotations.AnnotationCollection.GetAnnotAt | src/podofo/main/PdfAnnotationCollection.cpp:135-146 | out of range raises ValueOutOfRange, a null slot InvalidHandle, otherwise the annotation at that position |
| Annotations.AnnotationCollection.GetAnnot | src/podofo/main/PdfAnnotationCollection.cpp:148-157 | an unknown reference is a lookup error, a null slot InvalidHandle, otherwise the annotation with that reference |
| SigningContext.Equal | src/podofo/main/PdfSigningContext.h:23-26 | equal iff both the signature reference and the signer index are equal |
| SigningContext.NotEqual | src/podofo/main/PdfSigningContext.h:28-31 | exactly the negation of equality |
| SigningContext.Hash | src/podofo/main/PdfSigningContext.h:46-50 | the low 16 bits of the hash are those of the object number alone |
| SigningContext.HashHighBits | src/podofo/main/PdfSigningContext.h:46-50 | the top 32 bits of the hash are the signer index shifted right by 8 |
| SigningContext.HashMiddleBits | src/podofo/main/PdfSigningContext.h:46-50 | bits 16 to 31 of the hash are the object number's high half xor the generation number xor the signer index's low byte placed in bits 24 to 31; with Hash and HashHighBits this pins every bit |
| SigningContext.HashCollision | src/podofo/main/PdfSigningContext.h:46-50 | two different ids (generation 0x100 against signer index 1) share a hash, so the results map tells keys apart by equality |
| SigningContext.DefaultSignatureAttrs | src/podofo/main/PdfSigningContext.h:95-100 | the page index defaults to the all-ones unsigned value and there are no signers |
| SigningContext.DefaultSignatureCtx | src/podofo/main/PdfSigningContext.h:102-108 | the beacon size defaults to 0, with nothing reserved yet |

## Left out

- StandardStreamDevice, FileStreamDevice and the iostream and `FILE*` helpers are not part of this model. They are C library and iostream plumbing.
- `createFile`:
  - `fs::exists` is a boolean parameter.
  - The model returns the mode string instead of calling `utls::fopen`, so a failing `fopen` is not modelled.
  - The Windows `b` suffix is left out.
  - The `InvalidEnumValue` default branches cannot be reached with the modelled enumerations.
- StreamDevice.SpanStreamDevice.Write: requires that the position plus the data size fit in size_t, since the data lies in memory beside the buffer. The device's access mode, and the read-only buffer constructors it checks, are not modelled.
- `size_t` is taken to be 64 bits wide (Common.SIZE_LIMIT is 2^64): the wrap-around of NullStreamDevice's cursor and SigningContext.HashHighBits, where the shifted signer index keeps all its bits, hold for a 64-bit build; on a 32-bit build `(size_t)signerIndex << 24` would lose the index's high bits.
- StreamDevice.SeekPosition: its properties are stated for a cursor within the device (curpos ≤ devlen), which every device keeps. The size_t wrap-around of the Current branch is computed but not characterised beyond that.
- The UTF-8 decoder (`utf8::next`), UTF-16BE encoder (`utls::WriteUtf16BETo`), `PdfCharCode::WriteHexTo` and `utls::FormatTo` are not part of this model. They are modelled as:
  - standard UTF-8 and UTF-16BE;
  - uppercase hex of `codeSpaceSize` big-endian bytes;
  - plain decimal.
- Encoding maps:
  - An encoding map's lookups (`tryGetCodePoints`, `tryGetCharCode`, `tryGetCharCodeSpan`, `tryGetNextCharCode`) are function parameters. A failed lookup is `None`, which stands for the cleared code.
  - The `NotImplemented` defaults of `tryGetNextCharCode` and `tryGetCharCodeSpan` are not modelled. They are only reached on maps with ligature support.
  - `PdfNullEncodingMap`, which raises on every call, is not modelled.
- Code sizes are limited to 1 to 4 bytes (MaxCodeSize ≤ 4), so the 32-bit `unsigned` code never wraps during accumulation.
- `PdfCharCode`:
  - its ordering is assumed to be by code, then by size;
  - `PdfCharCode(unsigned)` is assumed to take the fewest bytes that hold the code.

  The class is not part of this model.
- PdfCharCodeMap:
  - The internals are not part of this model. A map is its mappings plus its list of code ranges, each range with its high code given.
  - `GetCodeSpaceRanges` is an input of `AppendCodeSpaceRange`.
  - The CID writers require every mapped span to be non-empty, as the source dereferences its first element.
- The one-byte writers:
  - they require the last char code to be below `UINT_MAX`, since the source's `code <= lastCode` loop would not end at `UINT_MAX`;
  - they take `PODOFO_ASSERT(limits.MaxCodeSize == 1)` as a precondition;
  - `PdfFont::TryGetGID` is a function parameter.
- `TryGetCharCode(unsigned cid)`, `TryGetCIDId`, `TryGetCodePoints(PdfCID)`, `TryGetNextCodePoints`, `TryGetExportObject` and `GetPredefinedEncodingType` are not modelled. They are one-line forwards to the modelled lookups, or object export.
- The single-code-point `AppendUTF16CodeTo` overload is the one-element case of the modelled one.
- Built-in encodings:
  - The concrete 256-entry tables (WinAnsi, MacRoman and others) are not part of this model; the table is a parameter.
  - `PdfBuiltInEncoding`'s name and export are carried, not modelled.
- Annotations:
  - `PdfAnnotation::Create`/`TryCreateFromObject` is a "valid or not" function parameter.
  - `CreateAnnot`, `TransformRectPage`, the iterators and the object ownership are not modelled.
  - An annotation is identified by its reference.
- Annotations.AnnotationCollection.RemoveAnnotAt: when `/Annots` lists the same reference twice, the map keeps only its last index, and once one copy is removed the other has no entry; removing that one makes the source call `erase` on `find`'s end iterator, which is undefined behaviour, while the model treats dropping a missing entry as doing nothing. The same holds for Annotations.RemoveAnnotAtAsWritten.
- Annotations.AnnotationCollection.GetCount: the `unsigned` conversions of the count and of the `index` parameters are not modelled; counts and indices are unbounded naturals, so a collection of more than 2^32 − 1 annotations does not wrap.
- Signing:
  - The orchestration (preparing, saving, digesting and patching signatures) is not part of this model; only its declarations are available.
  - The signer objects behind the per-signature records are opaque handles.

## Findings

| source | as written | input that shows it | evidently intended | confidence | as-written member | corrected member |
|---|---|---|---|---|---|---|
| src/podofo/main/PdfAnnotationCollection.cpp:52-56 | `RemoveAnnotAt` erases the map entry of the removed position only when its slot holds a valid annotation | a page whose `/Annots` is `[r0, r1]` with r0 not a valid annotation; `RemoveAnnotAt(0)` leaves `r0 ↦ 0` while index 0 now holds r1, so `GetAnnot(r0)` returns r1's annotation and `RemoveAnnot(r0)` removes r1 | drop the entry of the reference stored at that position in `/Annots` whether or not its slot is null | not executed | Annotations.RemoveAnnotAtAsWritten, Annotations.StaleEntryAfterRemovingInvalidSlot | Annotations.AnnotationCollection.RemoveAnnotAt, Annotations.RemovalKeepsMapConsistent |
