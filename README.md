# The icon generator's ZIP writer, in Dafny

The browser extension's popup turns one picture into PNG icons of the configured sizes
(128, 48, 32 and 16 pixels) and offers them for download as a single ZIP archive. The
archive is written by hand in the `IconGenerator` class of `popup.js`:

- a table-driven CRC-32 whose 256-entry table is built on first use and then cached;
- builders for the three ZIP records of a "stored" (uncompressed) archive, as defined in
  sections 4.3.7, 4.3.12 and 4.3.16 of PKWARE's APPNOTE.TXT. Each builder writes
  little-endian fields into a fresh `ArrayBuffer` through a `DataView`. The records are:
  - the local file header, followed by the name and the content;
  - the central directory header;
  - the end of central directory record;
- the buffer concatenation;
- the loop that walks the configured sizes, keeps a running offset, and assembles the
  local records, the central directory and the end record.

This project models that code and proves what it promises. It has five modules:

- `Bytes` models byte buffers. It defines the little-endian 16- and 32-bit field encodings
  (`Le16`, `Le32`) with their wrap-around, the readers `ReadLe16`/`ReadLe32`, and the
  concatenation `Concat` of a list of buffers with its `TotalLength`.
- `Text` models `TextEncoder.encode` (`Utf8`) and the decimal text a template literal gives
  for a size (`DecimalString`).
- `Crc32` is the specification of the checksum:
  - the division step and `TableEntry(i)`, which is `i` after eight steps;
  - the table-driven byte `Update`, and `Register`, which feeds bytes into the register;
  - `Checksum`;
  - `Unsigned`, the final `>>> 0`.
- `ZipFormat` is the specification of the archive:
  - the records as byte sequences (`LocalHeader`, `LocalRecord`, `CentralRecord`,
    `EndRecord`), with lemmas that read every field back;
  - the entries emitted for the configured sizes (`Emitted`, `FileName`);
  - a stored entry with its checksum (`Member`, `Store`);
  - the lists of local and central records (`Locals`, `Centrals`);
  - the whole archive (`Assemble`, `Archive`).
- `Popup` is the imperative code:
  - the `DataView`/`Uint8Array` writes (`SetUint16`, `SetUint32`, `Set`);
  - the class `IconGenerator`, with its `sizes`, `generatedIcons` and cached `crc32Table`
    fields and one method per source method. Each method is proved against the `Crc32`
    and `ZipFormat` specifications.

The main result is `Popup.IconGenerator.CreateZipFile`: the bytes it produces are exactly
`Archive(StoreAll(Emitted(sizes, generatedIcons)))`. The `ZipFormat` lemmas then say what
those bytes are:

- which icons are in the archive, in which order and under which names;
- the content of every header field;
- where each record sits in the archive;
- the offsets the central directory and the end record point to.

## Model

| member | source | states |
|---|---|---|
| Bytes.Le16RoundTrip | popup.js:337-341 | reading back a 16-bit little-endian field gives the value written, modulo 2^16 (the silent wrap of `setUint16`) |
| Bytes.Le32RoundTrip | popup.js:342-344 | reading back a 32-bit little-endian field gives the value written, modulo 2^32 |
| Bytes.ConcatPlacesPart | popup.js:409-420 | in the concatenation of buffers, buffer k appears unchanged starting at the sum of the lengths of buffers 0..k-1, and the result is as long as all buffers together |
| Text.Utf8Append | popup.js:329 | the UTF-8 encoding of a concatenation is the concatenation of the encodings |
| Text.AsciiEncoding | popup.js:329 | an ASCII string encodes to one byte per character, each byte the character's code |
| Text.DecimalRoundTrip | popup.js:297 | the decimal text of a size reads back as that size |
| Crc32.RegisterAppend | popup.js:426-428 | the loop's register after `a + b` is the register after `a`, fed `b`: the checksum can be computed incrementally |
| Crc32.ChecksumOfEmpty | popup.js:424-430 | the checksum of no bytes is 0: the preset 0xFFFFFFFF is undone by the final XOR |
| Crc32.ChecksumAppend | popup.js:424-430 | the checksum of `a + b` continues from the complemented checksum of `a` |
| Crc32.KnownTableEntries | popup.js:436-441 | table entry 1 is 0x77073096 and entry 128 is the polynomial 0xEDB88320 |
| Crc32.CheckValue | popup.js:422-445 | the CRC-32 of the ASCII digits "123456789" is the standard check value 0xCBF43926 |
| Popup.SetUint16 | popup.js:337-341 | `setUint16(pos, v, true)` stores `v` modulo 2^16 at `pos`, low byte first, and leaves every byte before and after those two as it was |
| Popup.SetUint32 | popup.js:342-344 | `setUint32(pos, v, true)` stores `v` modulo 2^32 at `pos`, low byte first, and leaves every byte before and after those four as it was |
| Popup.Set | popup.js:349 | `Uint8Array.set(source, offset)` copies `source` in at `offset` and keeps the bytes before and after the copy as they were |
| Popup.TableStep | popup.js:426-428 | one loop step, a lookup in a correct table, is one byte update of the specified register |
| Popup.IconGenerator.constructor | popup.js:2-7 | a new generator has the sizes [128, 48, 32, 16], no icons and no table yet |
| Popup.IconGenerator.GetCrc32Table | popup.js:433-445 | the first call builds a fresh 256-entry table whose entry i is i after eight division steps; every later call returns that same cached table |
| Popup.IconGenerator.CalculateCrc32 | popup.js:422-431 | the result is the unsigned 32-bit CRC-32 of exactly the bytes given; the cached table, once built, stays the same |
| Popup.IconGenerator.CreateZipFileEntry | popup.js:328-360 | the local record is the local header of the encoded name, the content length and the content's checksum, followed by the content unchanged; the central header carries the same name, size and checksum and the given offset |
| Popup.IconGenerator.CreateLocalFileHeader | popup.js:333-349 | the 30 + name-length bytes are exactly the local header fields in order, then the name |
| Popup.IconGenerator.CreateCentralDirectoryEntry | popup.js:362-391 | the 46 + name-length bytes are exactly the central header fields in order, then the name |
| Popup.IconGenerator.SetCentralFront | popup.js:369-378 | the first 28 bytes of the header become: the central signature, versions 20 and 10, zero flags, method, time and date, then the checksum and the size twice, each modulo its field width; the bytes from 28 on stay as they were |
| Popup.IconGenerator.CreateEndOfCentralDirectory | popup.js:393-407 | the 22 bytes are exactly the end record fields in order |
| Popup.IconGenerator.ConcatenateArrayBuffers | popup.js:409-420 | the fresh result holds the buffers' bytes one after another |
| Popup.IconGenerator.BlobToArrayBuffer | popup.js:298 | the fresh buffer holds the icon's bytes |
| Popup.IconGenerator.AddIcon | popup.js:296-304 | one turn of the loop extends the local records and central headers from the sizes before `k` to the sizes up to `k`, with the offset still their total length; a CRC table already built stays the same |
| Popup.IconGenerator.AddEntry | popup.js:297-303 | pushing one file appends its local record and a central header whose offset is the total length of the local records before it, and advances the offset by the record's length; a CRC table already built stays the same |
| Popup.IconGenerator.CreateZipEntries | popup.js:291-305 | after the loop, `files` are the local records and `centralDirectory` the central headers of the emitted icons, in order, and `offset` is the total length of the local records; a CRC table already built stays the same through the loop |
| Popup.IconGenerator.CreateZipFile | popup.js:289-318 | the archive bytes are the local records of the emitted icons, then their central directory, then the end record that counts them and points at the central directory; a CRC table already built is reused, not rebuilt |
| ZipFormat.LocalHeaderLayout | popup.js:333-349 | the local header is 30 + name-length bytes and holds: signature 0x04034b50 at 0; version 10 at 4; flags 0 at 6; method 0 (stored) at 8; time and date 0 at 10 and 12; the checksum at 14; the size modulo 2^32 at 18 and at 22; the name length modulo 2^16 at 26; extra length 0 at 28; the name from 30 on |
| ZipFormat.LocalRecordLayout | popup.js:328-354 | the local record is 30 + name + content bytes long. It has the signature at 0 and the member's checksum at 14. Both size fields hold the content length (mod 2^32), and the name length is at 26. The name sits at 30, and the content follows it unchanged |
| ZipFormat.CentralRecordLayout | popup.js:362-391 | the central header is 46 + name-length bytes and holds: signature 0x02014b50; versions 20 and 10; flags 0 at 8; method 0 (stored) at 10; time and date 0 at 12 and 14; the checksum at 16; the size modulo 2^32 at 20 and 24; the name length modulo 2^16 at 28; extra length, comment length, disk and internal attributes 0 at 30-37; external attributes 0 at 38; the offset modulo 2^32 at 42; the name from 46 on |
| ZipFormat.EndRecordLayout | popup.js:393-407 | the end record holds: signature 0x06054b50; disks 0; the count modulo 2^16 at 8 and at 10; the central directory size at 12 and offset at 16 (both modulo 2^32); comment length 0 |
| ZipFormat.FileNameInjective | popup.js:297 | different sizes get different names `icon{size}.png` |
| ZipFormat.FileNameEncoding | popup.js:329 | an icon's name is ASCII, so its encoding (and the name length field) is 8 plus the number of digits of the size |
| ZipFormat.EmittedMembers | popup.js:295-305 | an entry is emitted exactly when it is named `icon{size}.png` and holds the icon of a configured size that has a generated icon |
| ZipFormat.EmittedAppend | popup.js:295-305 | emitting for two runs of sizes emits the entries of the first run, then those of the second, so the order follows `this.sizes` |
| ZipFormat.EmittedEveryIcon | popup.js:295-305 | when every configured size has an icon, entry k is the icon of the k-th size and there are as many entries as sizes |
| ZipFormat.AssembledSnoc | popup.js:299-303 | pushing a member's local record and its central header made at the running offset keeps the local records, central headers and offset in step with the members, and the offset grows by exactly the local record's length |
| ZipFormat.StoredStep | popup.js:295-304 | a size with an icon appends exactly its stored entry; a size without one appends nothing |
| ZipFormat.StoreAllAt | popup.js:298-299 | member k is entry k stored: encoded name, same content, checksum of the content |
| ZipFormat.LocalsAt | popup.js:301 | local record k is the local record of member k |
| ZipFormat.CentralsAt | popup.js:299-303 | central header k describes member k with offset the total length of the local records before it |
| ZipFormat.CentralDescribesMember | popup.js:299-303 | central header k carries member k's checksum, its size modulo 2^32 at 20 and 24, its name length modulo 2^16 at 28 and its name, and at 42 the offset of its local record modulo 2^32 |
| ZipFormat.ArchiveLocalPlaced | popup.js:313-315 | local record k sits in the archive, unchanged, at `LocalOffset(ms, k)`: the total length of the local records before it, which is the running `offset` when entry k is created |
| ZipFormat.CentralLocatesLocal | popup.js:299-303 | when local record k starts below 4 GiB, the offset central header k stores at 42 equals `LocalOffset(ms, k)`, and local record k sits there in the archive, unchanged. Above that, the field holds the offset modulo 2^32 (`CentralDescribesMember`) |
| ZipFormat.AssemblePlacesCentral | popup.js:308-315 | central header k sits in the archive, unchanged, after all local records and the central headers before it |
| ZipFormat.AssembleLayout | popup.js:308-315 | the archive is the local records, then the central directory, then the end record. The end record counts the entries in both count fields (mod 2^16), gives the central directory's size, and gives its offset as the total length of the local records |
| ZipFormat.ArchiveOfParts | popup.js:314-315 | concatenating the local records, one part holding the central directory and one holding the end record gives the archive |

## Left out

- Image loading, canvas rasterisation and PNG encoding (popup.js:144-216) are browser APIs.
  The model takes the icons' PNG bytes as given: `generatedIcons` maps each size to its
  bytes.
- The `FileReader` and `Blob` plumbing (popup.js:317-326) is asynchronous browser I/O.
  `BlobToArrayBuffer` only copies the icon's bytes into a fresh buffer, and `CreateZipFile`
  returns the archive buffer that the source wraps in a `Blob`. `async`/`await` is modelled
  as straight-line code.
- Downloads, progress display, previews, `reset`, configuration loading, event binding, the
  modals and the clipboard (popup.js:9-123, 218-287, 447-1064) are DOM, network and
  clipboard I/O with no archive logic.
- `createZipFile` tests `this.generatedIcons[size]` for truthiness. The model tests
  `size in icons`, because the source only ever stores objects there, and an object is
  truthy.
- Sizes, lengths and offsets are unbounded naturals. JavaScript numbers lose precision above
  2^53; that is not modelled. The 16- and 32-bit field writes do wrap, and the model
  spells out that wrap (`Le16`, `Le32`).
- The buffers that `createZipFile` pushes onto `files` and `centralDirectory` are modelled by
  their contents (`seq<seq<byte>>`), not as shared `ArrayBuffer` objects. Aliasing between
  them is not captured, and `ConcatenateArrayBuffers` takes byte sequences.
- The source performs several steps inline that the model gives their own methods; the
  steps and their order are the same:
  - the loop of `createZipFile` is `CreateZipEntries`;
  - one turn of that loop is `AddIcon`;
  - the push into the two lists is `AddEntry`;
  - the local header part of `createZipFileEntry` is `CreateLocalFileHeader`;
  - the fixed fields at the start of a central header (the writes up to the sizes in
    `createCentralDirectoryEntry`) are `SetCentralFront`.
- `TextEncoder` replaces a lone UTF-16 surrogate with U+FFFD. Dafny characters are Unicode
  scalar values, so lone surrogates do not arise in the model. The names written are ASCII
  in any case.
- The JavaScript CRC table holds signed 32-bit numbers, and `crc` stays signed until the
  final `>>> 0`. The model keeps the same bit patterns as `bv32` values and makes the final
  conversion with `Unsigned`.
