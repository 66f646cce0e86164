# ess-parser: a Dafny model of the save-file header decoder

This project models the core of `ess-parser`, a Rust decoder for Elder
Scrolls IV (Oblivion) save files (`.ess`). It covers the following pieces:

- **Primitive reads.** The `Scanner` and the older `BytesLE` reads:
  little-endian `u8`, `u16` and `u32`, an opaque four-byte `f32`, a lenient
  `bool`, the eight-word Windows `SYSTEMTIME`, two length-prefixed string
  conventions, and the `FormID`/`IRef` wrappers.
- **`parse`.** The entry point decodes the file header: the 12-byte
  identifier (`TES4SAVEGAME`) and the refused Xbox container marker. Then it
  reads the two version bytes and the executable timestamp, which is present
  only when the minor version is 82 or more.
- **Record flags.** The 32-bit `RecordFlag` bit layout and the `Record`
  pair.
- **Helpers.** The adapters `replace`, `replace_err` and `or_err`.

The byte iterator is modelled by the bytes it has yet to yield. Every read is
a pure function from that stream to `Ok(Parsed(value, rest))` or to an error.
Rust's `?` becomes Dafny's `:-`. Each read has an independent partner:

- Every fixed-width read has an encoder (`ToLeBytes`, of which `Le16` and
  `Le32` are the two- and four-byte cases, `EncodeSysTime`,
  `EncodeFileHeader`), and the round-trip lemmas show that the read inverts
  it; the one-byte reads invert `ToLeBytes(v, 1)`, which is `[v]`.
- The string reads are paired with their length-prefixed encodings.
- The cursor primitives (`next`, `next_array`, `take`, `take_while`) are
  characterised by their contracts alone: each says the yielded bytes
  followed by the remainder are the stream.
- `RecordFlag::from_bits` is paired with `ToBits`, and the bit-field
  declaration is checked against the positions the decoder reads.

Modules, one per file:

| file | module | models |
|---|---|---|
| prelude.dfy | `Prelude` | byte types, `Option`, `Result` (with `:-` support) |
| cursor.dfy | `Cursor` | `next`, `next_array`, `take`, `take_while`, `from_le_bytes` |
| errors.dfy | `Errors` | `ParseError` |
| model.dfy | `Model` | `SysTime`, `FormID`, `IRef`, `FileHeader`, `ESS` |
| option_helper.dfy | `OptionHelper` | `or_err` |
| result_helper.dfy | `ResultHelper` | `replace`, `replace_err` |
| scanner.dfy | `Scanner` | the `Scanner` reads |
| bytes_le.dfy | `BytesLE` | `next_u8`, `next_u16`, `next_u32` |
| ess_parser.dfy | `EssParser` | `read_systime`, `parse` |
| record.dfy | `Record` | `RecordFlag`, `Record` |

## Behaviour to note

- **`bzstring` leaves padding unread** (src/scanner.rs:101-107). The
  length byte declares an N-byte field, but `take(len).take_while(..)` stops
  pulling at the first zero, so any padding after the zero stays in the
  stream for the next read (see Findings).
- **Short strings are not an error** (src/scanner.rs:96, 104). `take(len)`
  simply ends when the stream does: a body cut short gives a shorter string
  and `Ok`. Only a missing length byte is an error.
- **The identifier error has two names.** `parse` builds
  `BadFileHeader(file_id)` (src/lib.rs:60) while `ParseError` declares
  `BadFileID([u8; 12])` (src/error.rs:13). Both mean one variant carrying
  the 12 bytes, modelled as `BadFileId(id)`.
- **The timestamp gate is 82.** The field comment on `exe_time` says
  "version>=0.81" (src/ess.rs:28), but the code reads the timestamp when
  `minor_version >= 82` (src/lib.rs:69). The model follows the code.

## Model

| member | source | states |
|---|---|---|
| OptionHelper.OrErr | src/option_helper.rs:8-13 | succeeds exactly on `Some`, with its value; on `None` the error is the given one |
| OptionHelper.OrErrIsOkOr | src/option_helper.rs:8-13 | `or_err` is the standard `ok_or` |
| OptionHelper.OrErrThenOk | src/option_helper.rs:8-13 | `or_err` followed by `.ok()` gives back the original option |
| OptionHelper.OrErrIgnoresErrorOnSome | src/option_helper.rs:8-13 | on `Some` the supplied error never matters |
| ResultHelper.Replace | src/result_helper.rs:11-16 | keeps success or failure; a success carries the new value; an error is passed on unchanged |
| ResultHelper.ReplaceErr | src/result_helper.rs:19-24 | keeps success or failure; a success value is untouched; any error becomes the given one |
| ResultHelper.ReplaceErrTwice | src/result_helper.rs:19-24 | only the last substituted error is seen |
| ResultHelper.ReplaceCommutesWithReplaceErr | src/result_helper.rs:11-24 | substituting the value and substituting the error commute |
| ResultHelper.ReplaceErrIsOkThenOrErr | src/result_helper.rs:19-24 | `replace_err(e)` equals `.ok().or_err(e)` |
| Cursor.Next | src/scanner.rs:31-33 | yields a byte exactly when the stream is non-empty; that byte followed by the rest is the stream |
| Cursor.NextArray | src/lib.rs:52 | succeeds exactly when n bytes remain; the chunk followed by the rest is the stream; a failure holds everything that was left |
| Cursor.Take | src/scanner.rs:96 | yields min(n, remaining) bytes; those bytes followed by the rest are the stream |
| Cursor.TakeWhileNonZero | src/scanner.rs:104 | yields a zero-free prefix of the window, stopped by a zero when it stops early; pulls one byte more than it yields when a zero stopped it |
| Cursor.TakeWhileNonZeroWithoutZero | src/scanner.rs:104 | with no zero, the whole window passes through |
| Cursor.TakeWhileNonZeroStopsAtZero | src/scanner.rs:104 | a zero-free run followed by a zero yields the run and pulls exactly one byte past it |
| Cursor.FromLeBytes | src/scanner.rs:40-52 | `from_le_bytes` of n bytes, least significant byte first, is a value below 256^n |
| Cursor.FromLeBytesOfToLeBytes | src/scanner.rs:40-52 | decoding the little-endian encoding of an n-byte value gives the value back |
| Cursor.ToLeBytesOfFromLeBytes | src/scanner.rs:40-52 | encoding the decoded value of any byte string gives the bytes back |
| Cursor.FromLeBytesWord | src/scanner.rs:36-43 | two bytes decode to low + 256 × high |
| Cursor.FromLeBytesDword | src/scanner.rs:45-52 | four bytes decode to the little-endian weighted sum |
| Scanner.ReadLe | src/scanner.rs:40-52 | succeeds exactly when n bytes remain; the stream is the value's n-byte encoding followed by the rest; otherwise `UnexpectedEOF` |
| Scanner.ReadU8 | src/scanner.rs:31-33 | succeeds exactly on a non-empty stream, with its first byte and the remaining bytes |
| Scanner.ReadU16 | src/scanner.rs:36-43 | succeeds exactly when 2 bytes remain; the stream is the value's little-endian encoding followed by the rest; otherwise `UnexpectedEOF` |
| Scanner.ReadU32 | src/scanner.rs:45-52 | as `u16`, with 4 bytes |
| Scanner.ReadU16Formula | src/scanner.rs:36-43 | the value is byte0 + 256 × byte1, and exactly two bytes are consumed |
| Scanner.ReadU32Formula | src/scanner.rs:45-52 | the value is the little-endian sum of four bytes, and exactly four bytes are consumed |
| Scanner.ReadF32 | src/scanner.rs:54-61 | succeeds exactly when 4 bytes remain; the stream is the bit pattern's little-endian encoding followed by the rest |
| Scanner.ReadBool | src/scanner.rs:63-67 | succeeds exactly on a non-empty stream; true exactly when the byte is nonzero, so any byte is accepted |
| Scanner.ReadSysTime | src/scanner.rs:72-91 | succeeds exactly when 16 bytes remain; the stream is the record's encoding followed by the rest; otherwise `UnexpectedEOF` |
| Scanner.ReadBString | src/scanner.rs:94-99 | succeeds exactly when the length byte is there; the text is the whole window of up to `len` bytes and the stream resumes right after it |
| Scanner.ReadBZString | src/scanner.rs:102-107 | the text is the zero-free prefix of the window, stopped by a zero if it ends early; the stream resumes one byte past that zero, or after the window if there is none |
| Scanner.ReadBZStringFixed | src/scanner.rs:102-107 | the same text, but the stream resumes after the whole window |
| Scanner.ReadFormId | src/scanner.rs:109-112 | succeeds exactly when 4 bytes remain; the identifier's little-endian encoding followed by the rest is the stream |
| Scanner.ReadIRef | src/scanner.rs:114-117 | as `form_id`, with the `IRef` wrapper |
| Scanner.ReadU8RoundTrip | src/scanner.rs:31-33 | `u8` reads back any byte (its one-byte little-endian encoding) and leaves what follows |
| Scanner.ReadU16RoundTrip | src/scanner.rs:36-43 | `u16` reads back any encoded 16-bit value and leaves what follows |
| Scanner.ReadU32RoundTrip | src/scanner.rs:45-52 | `u32` reads back any encoded 32-bit value and leaves what follows |
| Scanner.ReadF32RoundTrip | src/scanner.rs:54-61 | `f32` reads back any encoded 32-bit pattern unchanged and leaves what follows |
| Scanner.ReadFormIdAndIRefRoundTrip | src/scanner.rs:109-117 | `form_id` and `iref` read back any encoded identifier and leave what follows |
| Scanner.ReadBoolRoundTrip | src/scanner.rs:63-67 | the canonical bytes 0 and 1 read back as false and true |
| Scanner.ReadSysTimeRoundTrip | src/scanner.rs:72-91 | `systime` reads back any encoded record and leaves what follows |
| Scanner.ReadBStringRoundTrip | src/scanner.rs:94-99 | a length byte and that many bytes read back as exactly those bytes |
| Scanner.ReadBZStringRoundTrip | src/scanner.rs:102-107 | a padded zero-terminated field yields its text, but the padding stays in the stream |
| Scanner.ReadBZStringFixedRoundTrip | src/scanner.rs:102-107 | the corrected read yields the text and consumes the padding |
| Scanner.ReadBZStringWithoutZero | src/scanner.rs:94-107 | with no zero in the window, `bzstring` and `bstring` give the same result |
| Scanner.ReadBZStringLeavesPadding | src/scanner.rs:102-107 | on `[3, 'A', 0, 'B']` `bzstring` leaves `'B'` unread, while `bstring` and the corrected read consume all three bytes |
| Scanner.ReadBZStringFixedConsumesLikeBString | src/scanner.rs:94-107 | the corrected read always leaves the stream where `bstring` does |
| Scanner.ReadFormIdAndIRefWrapU32 | src/scanner.rs:109-117 | `form_id` and `iref` are the `u32` read under two distinct wrappers |
| BytesLE.NextU8 | src/bytes.rs:5-7 | yields the first byte and the rest exactly when the stream is non-empty |
| BytesLE.NextU16 | src/bytes.rs:10-15 | yields a value exactly when 2 bytes remain; the stream is its little-endian encoding followed by the rest |
| BytesLE.NextU32 | src/bytes.rs:17-22 | as `next_u16`, with 4 bytes |
| BytesLE.NextU16Formula | src/bytes.rs:10-15 | the value is byte0 + 256 × byte1, and two bytes are consumed |
| BytesLE.NextU32Formula | src/bytes.rs:17-22 | the value is the little-endian sum of four bytes, and four bytes are consumed |
| BytesLE.NextU8RoundTrip | src/bytes.rs:5-7 | reads back any encoded byte |
| BytesLE.NextU16RoundTrip | src/bytes.rs:10-15 | reads back any encoded 16-bit value |
| BytesLE.NextU32RoundTrip | src/bytes.rs:17-22 | reads back any encoded 32-bit value |
| Model.EncodeSysTime | src/model/system_time.rs:5-14 | a SYSTEMTIME occupies 16 bytes, its eight words in declaration order |
| EssParser.MagicSpellsFileId | src/lib.rs:54-56 | the 12 magic bytes are the ASCII codes of `TES4SAVEGAME` |
| EssParser.ReadSysTime | src/lib.rs:27-46 | succeeds exactly when 16 bytes remain; the stream is the record's encoding followed by the rest; otherwise `UnexpectedEOF` |
| EssParser.CheckFileId | src/lib.rs:54-61 | accepts exactly the magic, yielding `TES4SAVEGAME`; refuses a non-magic identifier starting with `CON ` as an Xbox container; reports any other identifier with its 12 bytes |
| EssParser.ReadExeTime | src/lib.rs:69-73 | a timestamp is read exactly when minor ≥ 82, and then needs 16 bytes; below 82 nothing is consumed and the field is absent |
| EssParser.Parse | src/lib.rs:48-78 | fails with `NoHeader` exactly when fewer than 12 bytes are given; a success is well formed and is exactly the header's encoding followed by the rest |
| EssParser.ParseAcceptsMagic | src/lib.rs:52-56 | after the magic, the identifier is accepted, and the only possible failure is `UnexpectedEOF` |
| EssParser.ParseRejectsXboxContainer | src/lib.rs:57-58 | an identifier starting with `CON ` is refused as an Xbox container, whatever follows |
| EssParser.ParseRejectsBadFileId | src/lib.rs:59-60 | any other identifier is refused with its exact 12 bytes |
| EssParser.ParseSucceedsExactly | src/lib.rs:48-78 | `parse` succeeds if and only if the magic, both version bytes and, when minor ≥ 82, 16 timestamp bytes are present |
| EssParser.ParseVersionsAndExeTime | src/lib.rs:63-73 | the version bytes are taken unchecked; below 82 the header ends after them; from 82 a short timestamp is `UnexpectedEOF` and a full one is read from the next 16 bytes |
| EssParser.ParseMissingVersion | src/lib.rs:63-64 | a file cut off inside the version bytes fails with `UnexpectedEOF` |
| EssParser.ParseRoundTrip | src/lib.rs:48-78 | every well-formed header, encoded and followed by anything, parses back to itself and leaves what follows |
| EssParser.ReadSysTimeRoundTrip | src/lib.rs:27-46 | `read_systime` reads back any encoded record |
| EssParser.BytesLEAgreesWithScanner | src/bytes.rs:5-22 | with `None` mapped to `UnexpectedEOF`, `next_u8`/`next_u16`/`next_u32` equal the scanner's `u8`/`u16`/`u32` |
| EssParser.ReadSysTimeAgreesWithScanner | src/lib.rs:27-46 | `read_systime` and the scanner's `systime` are the same function |
| Record.Position | src/model/record.rs:8-25 | each flag's position lies inside the 32-bit word, and the flag's mask is the single bit at that position |
| Record.FromBits | src/model/record.rs:5-28 | `from_bits` is total and each accessor reads one bit of the word: esm_file bit 0, deleted 5, casts_shadows 9, persistent_reference 10, initially_disabled 11, ignored 12, visible_when_distant 15, dangerous 17, compressed 18, cant_wait 19 |
| Record.LayoutFillsWord | src/model/record.rs:5-28 | the declared fields, packed least significant first, fill exactly 32 bits, so every word decodes |
| Record.LayoutPlacesFlags | src/model/record.rs:5-28 | each named field starts at the bit the decoder reads for it: esm_file 0, deleted 5, casts_shadows 9 … cant_wait 19 |
| Record.LayoutNamesEveryFlag | src/model/record.rs:7-27 | every accessor has a field in the declaration |
| Record.FromBitsReadsMask | src/model/record.rs:5-28 | each accessor is set exactly when its flag's bit is set in the word |
| Record.FromBitsExample | src/tests.rs:26-32 | `from_bits(0x21)` has esm_file and deleted set and casts_shadows clear |
| Record.FromBitsSeesOnlyNamedBits | src/model/record.rs:5-28 | two words decode alike if and only if they agree on the ten named bits; reserved bits are never exposed |
| Record.FromBitsOfToBits | src/model/record.rs:5-28 | packing any flag set and decoding it gives it back |
| Record.ToBitsOfFromBits | src/model/record.rs:5-28 | decoding a word and packing it again keeps exactly the named bits |
| Record.FromPair | src/model/record.rs:30-34 | a record built from a (tag, flags) pair holds exactly that pair |
| Record.FromPairIsBijective | src/model/record.rs:30-34 | records and (tag, flags) pairs correspond one to one |

## Left out

- Windows-1252 decoding (`encoding_rs`, including its byte-order-mark sniffing) is a foreign library. A decoded string is modelled symbolically as `Windows1252(raw)`, "what decoding `raw` yields"; `decode_iter` (src/scanner.rs:26-29: collect the pulled bytes, then decode) is that constructor applied to the bytes the string reads pull. No property of the decoded characters is stated.
- `f32` arithmetic: `f32::from_le_bytes` keeps the bit pattern, so the model keeps the 32-bit pattern (`F32(bits)`) and never interprets it as a number.
- The iterator's position after a failed read is not modelled: a failure carries no remainder. Every caller aborts on failure, so that position is never observed.
- The `debug_assert!`s (major version 0, minor version ≤ 126, canonical booleans) are debug-build diagnostics that do not change release behaviour. They are not modelled, and the lemmas show those values are accepted.
- `RecordFlag::into_bits` and the reserved bits the crate stores are not modelled. `Record.ToBits` is an independent packing that clears the reserved bits. It is used as the partner of `from_bits`.
- The rest of the save file is not part of this model: the save-game header, the screenshot, the plugin list and the global section in `src/model/mod.rs`.
- The `read_save_325` fixture test depends on a binary save file and on a `parse_ess` entry point that are not part of this model.
- Derived traits (`Debug`, `Clone`, `From`, `Deref`) add no behaviour, apart from the `From` pair conversion, which is modelled.

## Findings

| source | as written | input that shows it | evidently intended | confidence | as-written member | corrected member |
|---|---|---|---|---|---|---|
| src/scanner.rs:102-107 | `take(len).take_while(nonzero)` stops pulling bytes one past the first zero, so padding behind the zero is left in the stream | `[3, 0x41, 0, 0x42]`: the text is "A", and the stream then still starts with `0x42` | a zero-terminated field of declared length N consumes all N bytes (as `bstring` does), so the next field starts after the padding | medium, not executed | Scanner.ReadBZString (shown by Scanner.ReadBZStringLeavesPadding) | Scanner.ReadBZStringFixed (Scanner.ReadBZStringFixedRoundTrip, Scanner.ReadBZStringFixedConsumesLikeBString) |
