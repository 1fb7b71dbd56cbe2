# shortcuts.vdf decoder of the Steam non-Steam-games importer

The importer plugin reads Steam's binary `shortcuts.vdf` file, which lists the
non-Steam games a user has added to Steam. The file is a tree of tagged items:

- `0x00` opens an object;
- `0x01` is a string;
- `0x02` is a 32-bit integer;
- `0x08` closes an object.

Every item other than `0x08` carries a name terminated by `0x00`. The plugin
decodes the file by hand into a dictionary. It maps each shortcut index to that
shortcut's properties (`AppName`, `Exe`, `appid`, ...), and stores integers as
their decimal rendering. Every failure makes the decoder return `null`.

This project models that decoder and proves what it computes.

- **`VdfTypes`**: the byte type, strings as byte sequences, the two
  dictionaries, the tag constants, the ASCII case-insensitive comparison of the
  root key, and the `At` predicate ("the buffer holds these bytes at this
  offset").
- **`Numbers`**: little-endian decoding of four bytes, its inverse, the decimal
  rendering of an unsigned integer and its inverse, and the 64-bit
  `steam://rungameid/` value built from a 32-bit app id.
- **`VdfSpec`**: a reference decoder made of functions over the buffer and a
  read position. It has one function per loop of the plugin:
  - `ReadCString` for the string reader;
  - `Skip` for the nested-object skipper;
  - `PropertyStep`/`ParseProps` for the property loop;
  - `ParseEntries` for the shortcut loop;
  - `ParseShortcuts` for the header checks and the whole file.

  Beside them are lemmas on header rejection, tag dispatch and the bounds of a
  skip.
- **`VdfReader`**: the decoder in the plugin's own imperative form. A
  `ByteReader` class holds the immutable file contents and a mutable position.
  `ReadByte`, `ReadBytes` and `Seek(-1)` update that position, and the decoding
  methods drive it with the same `while` loops as the plugin. Each method is
  proved to compute exactly what the matching `VdfSpec` function computes.
- **`VdfEncoding`**: well-formed files as data (shortcuts made of string,
  integer and nested-object properties) and their byte layout. Properties
  proved about `VdfSpec` on such files:
  - every well-formed file decodes to the shortcuts it encodes, whatever bytes
    follow its final `0x08`;
  - the last write wins for repeated property names and repeated indices;
  - names of nested objects never appear in a shortcut;
  - a file that ends right after a shortcut, between two properties, after an
    empty index or inside a string value keeps what was read, the cut string
    holding the bytes before the end;
  - an unknown tag, or a truncated integer, makes the whole parse return
    `null`.

## Model

| member | source | states |
|---|---|---|
| Numbers.RunGameId | SteamNonSteamImporter.cs:137 | the high 32 bits of the launch id are the app id, and the low 32 bits are 0x02000000 |
| Numbers.LeUint32Bytes | SteamNonSteamImporter.cs:317-318 | the four bytes read as an unsigned integer are b0 + b1·2^8 + b2·2^16 + b3·2^24 (little-endian) |
| Numbers.LeUint32 | SteamNonSteamImporter.cs:317-318 | the integer read from four bytes is the one whose four little-endian bytes they are; `LeUint32Bytes` gives its closed form |
| Numbers.LeValueOfBytes | SteamNonSteamImporter.cs:317-318 | writing a value as k little-endian bytes and reading them back gives the value |
| Numbers.LeBytesOfValue | SteamNonSteamImporter.cs:317-318 | reading k bytes as a little-endian value and writing it back gives the same bytes, so every four-byte pattern is one distinct integer |
| Numbers.DecimalString | SteamNonSteamImporter.cs:318 | the invariant-culture rendering of a stored integer is never empty; `DecimalStringCanonical`, `DecimalRoundTrip` and `DecimalUnique` say it is the canonical decimal numeral of the value |
| Numbers.DecimalStringCanonical | SteamNonSteamImporter.cs:318 | the invariant-culture rendering of a stored integer is ASCII digits only, with no sign and no leading zero |
| Numbers.DecimalRoundTrip | SteamNonSteamImporter.cs:318 | reading the rendered digits back as a decimal number gives the integer |
| Numbers.DecimalUnique | SteamNonSteamImporter.cs:318 | every canonical digit string is the rendering of its own value, so the rendering loses nothing |
| VdfSpec.NulFromFirst | SteamNonSteamImporter.cs:390 | the string reader stops at the first 0x00 after the start: no earlier byte is 0x00, and the stop is a 0x00 unless it is the end of the buffer |
| VdfSpec.ReadCStringMeaning | SteamNonSteamImporter.cs:384-397 | the string read is the run of bytes at the position, contains no 0x00, and the cursor ends just after the terminating 0x00, or at the end of the buffer when there is none |
| VdfSpec.CStringAt | SteamNonSteamImporter.cs:384-397 | a 0x00-free string followed by 0x00 in the buffer is exactly what is read, and reading goes on right after the 0x00 |
| VdfSpec.ReadCString | SteamNonSteamImporter.cs:384-397 | the string reader, as a function of the buffer and the start: the cursor never moves back and never passes the end, and it moves whenever a byte remains; `ReadCStringMeaning` and `CStringAt` say what is read |
| VdfSpec.SkipItem | SteamNonSteamImporter.cs:353-370 | one item inside a skipped object is stepped over without passing the end, and at least its tag byte is consumed (four bytes for 0x02 are cut short at the end of the buffer) |
| VdfSpec.Skip | SteamNonSteamImporter.cs:350-382 | the skip loop, as a function: its stop lies between the start and the end of the buffer; `SkipStops` and `SkipsWellFormedObject` say where it stops |
| VdfSpec.PropertyStep | SteamNonSteamImporter.cs:287-330 | one property that does not abort consumes at least one byte and stays within the buffer; `PropertyDecoded`, `TextDecodedAt`, `NumberDecodedAt`, `UnknownTagAborts` and `ShortIntAborts` say what it stores or why it aborts |
| VdfSpec.ParseProps | SteamNonSteamImporter.cs:285-331 | the property loop, as a function: a shortcut it returns ends within the buffer; `PropsDecoded` and `CutInsideShortcut` say what it holds |
| VdfSpec.ParseEntries | SteamNonSteamImporter.cs:242-334 | the shortcut loop, as a function: a shortcut once stored is never removed; `ShortcutsDecoded`, `CollectLastWins` and `EmptyIndexBetween` say what the result holds |
| VdfSpec.ParseShortcuts | SteamNonSteamImporter.cs:193-345 | the whole decoder, as a function: a file is only accepted when its header is right; `HeaderDecides` gives the converse and `RoundTrip` the result |
| VdfSpec.SkipStops | SteamNonSteamImporter.cs:350-382 | skipping never fails and never goes past the end; it stops at the end of the buffer or just after the 0x08 that closes the outermost object, and it does not move when no object is open |
| VdfSpec.HeaderDecides | SteamNonSteamImporter.cs:205-238 | a file is rejected unless it starts with 0x00, "shortcuts" in any ASCII letter case, 0x00, 0x00; when it does, the result is the shortcut loop run from offset 12 |
| VdfReader.ByteReader.constructor | SteamNonSteamImporter.cs:200-201 | a reader over the file's bytes starts at position 0 |
| VdfReader.ByteReader.ReadByte | SteamNonSteamImporter.cs:211 | returns the byte at the position and advances the position by one |
| VdfReader.ByteReader.SeekBack | SteamNonSteamImporter.cs:255 | moves the position back by one byte |
| VdfReader.ByteReader.ReadBytes | SteamNonSteamImporter.cs:317 | returns the next `count` bytes, or fewer at the end of the buffer, and advances past them |
| VdfReader.ReadNullTerminatedString | SteamNonSteamImporter.cs:384-397 | the string returned and the position left are those of `ReadCString` from the starting position |
| VdfReader.SkipObject | SteamNonSteamImporter.cs:347-382 | leaves the position where `Skip` with one object open stops |
| VdfReader.ReadProperties | SteamNonSteamImporter.cs:281-331 | aborts exactly when `ParseProps` does; otherwise returns the shortcut `ParseProps` builds, and leaves the position where `ParseProps` ends |
| VdfReader.ParseShortcutsVdf | SteamNonSteamImporter.cs:193-345 | the result, null or the dictionary of shortcuts, is exactly `ParseShortcuts` of the file's bytes |
| VdfEncoding.StoreAllLastWins | SteamNonSteamImporter.cs:326-330 | a name is in a shortcut exactly when some string or integer property stores it (nested objects never add one), and it holds the value of the last such property |
| VdfEncoding.CollectLastWins | SteamNonSteamImporter.cs:332 | an index is in the result exactly when some shortcut has it, and it holds the properties of the last shortcut with that index |
| VdfEncoding.SkipEncodedProps | SteamNonSteamImporter.cs:351-376 | skipping steps over the encoding of well-formed properties, at any depth, without changing the depth |
| VdfEncoding.SkipsWellFormedObject | SteamNonSteamImporter.cs:350-382 | on a well-formed nested object, the skip ends just after its closing 0x08, with depth 0 |
| VdfEncoding.TextDecodedAt | SteamNonSteamImporter.cs:307-310 | an encoded string property is stored under its name with its text |
| VdfEncoding.NumberDecodedAt | SteamNonSteamImporter.cs:311-320 | an encoded integer property is stored under its name as the decimal rendering of its value |
| VdfEncoding.PropertyDecoded | SteamNonSteamImporter.cs:296-330 | one encoded well-formed property updates the shortcut as `Store` says, and reading goes on right after it |
| VdfEncoding.PropsDecoded | SteamNonSteamImporter.cs:285-331 | the property loop over encoded well-formed properties ends with every one of them stored in order |
| VdfEncoding.ShortcutDecoded | SteamNonSteamImporter.cs:258-332 | one encoded well-formed shortcut is stored under its index |
| VdfEncoding.ShortcutsDecoded | SteamNonSteamImporter.cs:242-334 | the shortcut loop over encoded well-formed shortcuts stores each of them in order |
| VdfEncoding.HeaderAt | SteamNonSteamImporter.cs:205-238 | after the exact header, decoding is the shortcut loop from offset 12 |
| VdfEncoding.RoundTrip | SteamNonSteamImporter.cs:193-345 | a buffer that starts with the encoding of a well-formed file decodes to exactly the shortcuts it encodes, whatever bytes follow its final 0x08 |
| VdfEncoding.EmptyCollection | SteamNonSteamImporter.cs:246-253 | 0x00 "shortcuts" 0x00 0x00 0x08, followed by anything, decodes to an empty dictionary |
| VdfEncoding.EmptyIndexBetween | SteamNonSteamImporter.cs:261-279 | an empty index between shortcuts adds no shortcut and loses no byte: the byte after it is read again as the next index, so the shortcuts on both sides are all decoded in order, and a 0x08 right after it ends the collection |
| VdfEncoding.EmptyIndexAtEnd | SteamNonSteamImporter.cs:261-264 | an empty index that is the last thing in the file ends the collection with the shortcuts read before it |
| VdfEncoding.MissingFinalEnd | SteamNonSteamImporter.cs:242 | a file that ends after its last shortcut, without the final 0x08, still decodes to all its shortcuts |
| VdfEncoding.CutInsideShortcut | SteamNonSteamImporter.cs:285-332 | a file that ends in the middle of a shortcut, between properties, keeps the earlier shortcuts and stores the partial one with what was read |
| VdfEncoding.CutInsideText | SteamNonSteamImporter.cs:307-308 | a file that ends inside a string value, before its 0x00, keeps the earlier shortcuts and stores the partial one with that property holding the bytes read so far (the string reader at lines 390-393 stops at the end of the buffer without error) |
| VdfEncoding.UnknownTagAborts | SteamNonSteamImporter.cs:296-323 | an unknown tag after well-formed shortcuts and properties makes the whole parse return null, with no partial dictionary |
| VdfEncoding.ShortIntAborts | SteamNonSteamImporter.cs:311-316 | an integer property whose name is followed by fewer than four bytes makes the whole parse return null |

## Left out

- File access: opening the `FileStream`/`BinaryReader` is I/O. The model takes the file's bytes as its input.
- The `catch` block and its logging: every read of the decoder is guarded by a position check, except `ReadBytes(4)` inside `SkipObject`, which returns a short array instead of throwing at the end of the stream (`SkipItem` models that with `Min`). Within the sizes modelled (see the two lines below), no exception is left to catch.
- VdfSpec.Skip: the depth counter is an unbounded `nat`, not the source's 32-bit `int`. After 2^31 nested opening tags (a file of several gigabytes) the source's counter wraps negative and its skip loop stops, while the model keeps counting.
- VdfSpec.ReadCString: .NET's array size limit is not modelled. A string of more than about 2 GiB would make the source's byte list throw, and the `catch` would turn that into `null`, while the model returns the string.
- Logging: the debug, warning and error messages have no effect on the result. This includes the depth warning at the end of `SkipObject`.
- The `shortcutCount` counter: it is only logged.
- UTF-8 decoding of strings: names, indices and values are kept as raw bytes. Two different byte strings that .NET decodes to the same text (at least one of them invalid UTF-8, such as `EF BF BD` and `FF`) are one key in the source but two keys here.
- `VdfSpec.ParseShortcuts`: the root-key comparison is ASCII case-insensitive over bytes. The non-ASCII case folding of .NET's `OrdinalIgnoreCase` after UTF-8 decoding is not modelled.
- `Numbers.LeUint32`: assumes a little-endian machine, which `BitConverter` follows. `Numbers.DecimalString` models invariant-culture rendering only.
- `VdfReader.ByteReader.ReadByte`: requires that a byte remains, instead of modelling the end-of-stream exception. Every call site in the decoder checks the position first.
- The model follows the code in its lenient cases:
  - after an empty index, the following byte is pushed back and re-read as the start of the next index, not discarded;
  - a nested object that is still open at the end of the buffer is only logged, never fatal;
  - every failure is the same `null`, with no distinct error kinds.
- The rest of the plugin is not part of this model:
  - Steam install-path discovery (the Windows registry and the filesystem);
  - the settings view-model and its persistence;
  - building Playnite game records, including `File.Exists` on the executable, the `appid` parsing and the decimal text of the launch id.
