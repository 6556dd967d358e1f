# MRVL firmware container tools, modelled in Dafny

This project models the core of `mrvl-88mw30x-firmware-tools`. The tools convert between a 32-bit ARM ELF executable and the flat "MRVL" firmware container that the Marvell 88MW30x bootloader loads. The model covers four pieces:

- **The container records and the reader** (`marvel-88mw30x-firmware.h/.c`). It covers:
  - the 20-byte file header and the 20-byte segment-header records, as little-endian field codecs over byte sequences;
  - `new_mrvl_firmware`;
  - `read_marvel_header`;
  - `read_marvel_firmware`, modelled as a method over the input bytes that returns the firmware value or the error at which the program would stop.
- **The packer** (`axf2firmware.c`, `main`). It covers:
  - counting the loadable program headers;
  - the 1..9 bound;
  - the padding computation and the padded buffers;
  - the checksums and the `ftell` offsets;
  - the rewrite of the header table.

  The output file is a class holding the written bytes and a cursor.
- **The section-name list** (`firmware2elf.c`, `struct stringlist`). It is a class whose byte buffer only ever grows, with `strlist_init`, `strlist_add`, `strlist_ndx` and `strlist_get`.
- **The reverse converter** (`firmware2elf.c`, `main`). It covers:
  - the positional segment-to-section mapping;
  - the entry-point rule;
  - the `.ARM.attributes` blob;
  - the self-naming `.shstrtab` section.

  The ELF writer library is replaced by the list of section descriptors the program asks it to create.

Modules:

| module | file | what it holds |
|---|---|---|
| `Bytes` | `bytes.dfy` | `uint8`/`uint32`, `Option`/`Result`, the little-endian 32-bit codec |
| `MarvellFormat` | `marvell_format.dfy` | header, segment-header and table records; both round trips |
| `MarvellReader` | `marvell_reader.dfy` | the magics, `NewFirmware`, `ReadMarvelHeader`, the spec function `DecodeFirmware` and the method `ReadFirmware` |
| `StringTable` | `string_table.dfy` | the specification functions `Lookup`/`GetOrAdd` and the class `StringList` |
| `AxfToFirmware` | `axf_to_firmware.dfy` | the packer: padding, buffers, records, the file image, the class `OutputFile` and the method `Pack` |
| `FirmwareToElf` | `firmware_to_elf.dfy` | section mapping, entry point, attributes, and the methods `BuildElf`/`ConvertFirmware` |
| `EndToEnd` | `end_to_end.dfy` | a two-segment example, packed, read back and converted |

Some outside inputs become parameters:

- The CRC-32 routine (`crc32_byte`; `crc32.h` is not part of this model) is the parameter `crc: seq<uint8> -> uint32`.
- The clock value is the parameter `ctime`.
- The bytes `malloc` returns are `uninit: (nat, nat) -> uint8`: segment number and byte index to byte.

In these places the code does something other than what it seems to do at first sight, and the model follows the code:

- **Padding bytes.** `memset(buf, 0xFF, padding)` (`src/axf2firmware.c:127`) suggests `0xFF` padding, but it fills the *first* `padding` bytes. The `fread` at line 130 then overwrites them, so the tail keeps whatever `malloc` returned. The model says exactly that:
  - `SegmentBuffer` defines the buffer this way.
  - `PaddingKeepsAllocatedBytes` and `PaddingNotAlwaysFF` state the consequence.
  - `OneByteSegmentPadding` covers the one case where fill survives.
  - In a two-segment example, bytes 6 and 7 of the second segment are the allocator's bytes (`ExampleContents`).
- **Entry point.** The entry rule adds 1 to `vaddr` instead of setting bit 0 (`src/firmware2elf.c:219`), and stores the sum in 32 bits. `EntryPoint` wraps modulo 2^32. `EntryIsNotThumbBitSet` shows that an odd address comes out even.
- **Empty segments.** A record with `size` 0 makes the reader fail: `fread` with an element size of 0 returns 0, and the assert on it fails. `Readable` therefore demands `0 < size`.
- **Name lookup.** `strlist_ndx` is a raw byte search. It can find a name as the tail of a longer one, and `strlist_get("")` appends every time (`EmptyNameAlwaysAppends`).
- **Name-table index.** `e_shstrndx = elf_ndxscn(scn)` (`src/firmware2elf.c:267`) stores the section count, n + 2, in a 16-bit field, and the reader puts no bound on n. `ElfBuilt` therefore states `(n + 2) mod 2^16`. `ShstrndxIsTableIndex` shows that the index is right exactly below 2^16 sections, and lands in ELF's reserved range from `SHN_LORESERVE` on. `ShstrndxWrapsToUndef` shows that 65534 segments give `SHN_UNDEF`.

## Model

| member | source | states |
|---|---|---|
| Bytes.EncodeU32ByteIsShiftedField | src/marvel-88mw30x-firmware.h:21-37 | byte k of an encoded `uint32_t` field is `(v >> 8k) & 0xFF` (little-endian scalar storage order) |
| Bytes.DecodeEncodeU32 | src/marvel-88mw30x-firmware.h:21-37 | decoding the four bytes of an encoded field gives the value back |
| Bytes.EncodeDecodeU32 | src/marvel-88mw30x-firmware.h:21-37 | any four bytes are the encoding of the value they decode to |
| Bytes.EncodeU32Injective | src/marvel-88mw30x-firmware.h:21-37 | distinct field values never share an encoding |
| MarvellFormat.EncodeHeader | src/marvel-88mw30x-firmware.h:21-28 | the header is exactly 20 bytes: the tag at 0..4, then `unknown1`, `ctime`, `num_segments`, `elf_version` as LE words at 4, 8, 12, 16, with no padding |
| MarvellFormat.DecodeEncodeHeader | src/marvel-88mw30x-firmware.h:21-28 | decode(encode(h)) == h |
| MarvellFormat.EncodeDecodeHeader | src/marvel-88mw30x-firmware.h:21-28 | encode(decode(b)) == b for every 20-byte b |
| MarvellFormat.EncodeSegmentHeader | src/marvel-88mw30x-firmware.h:30-37 | a record is exactly 20 bytes: `type`, `offset`, `size`, `vaddr`, `checksum` as LE words in that order |
| MarvellFormat.DecodeEncodeSegmentHeader | src/marvel-88mw30x-firmware.h:30-37 | decode(encode(sh)) == sh |
| MarvellFormat.EncodeDecodeSegmentHeader | src/marvel-88mw30x-firmware.h:30-37 | encode(decode(b)) == b for every 20-byte b |
| MarvellFormat.EncodeTableRecord | src/marvel-88mw30x-firmware.c:77-79 | record i of a table of `num_segments` records occupies bytes [20i, 20i+20) |
| MarvellFormat.DecodeEncodeTable | src/marvel-88mw30x-firmware.c:77-79 | a table of records decodes back to the same records |
| MarvellFormat.EncodeDecodeTable | src/marvel-88mw30x-firmware.c:77-79 | any 20n bytes re-encode from their n decoded records |
| MarvellReader.NewFirmware | src/marvel-88mw30x-firmware.c:25-43 | tag "MRVL", `unknown1 == 0x2E9CF17B`, `ctime`, `num_segments` and `elf_version` zero, no records and no buffers |
| MarvellReader.ReadMarvelHeader | src/marvel-88mw30x-firmware.c:59-66 | fails short iff fewer than 20 bytes; fails on magic1 iff the first four bytes are not "MRVL"; succeeds iff both magics match, returning the header those 20 bytes encode |
| MarvellReader.CheckSegmentTypes | src/marvel-88mw30x-firmware.c:81-85 | the loop answers true iff every record's type is 2 |
| MarvellReader.LoadSegments | src/marvel-88mw30x-firmware.c:87-93 | the loop succeeds iff every record is readable (non-zero size, inside the file); buffer i is then the `size` bytes at `offset` |
| MarvellReader.ReadFirmware | src/marvel-88mw30x-firmware.c:68-96 | the reader's result, success or the error it stops at, is `DecodeFirmware(input)` |
| MarvellReader.DecodeFirmwareAccepts | src/marvel-88mw30x-firmware.c:68-96 | a file whose header and table read back, whose types are all 2 and whose segments all lie in the file is accepted, with exactly those buffers |
| MarvellReader.DecodeFirmwareOk | src/marvel-88mw30x-firmware.c:68-96 | on success: header and table re-encode to the bytes read, the aggregate holds `num_segments` records and buffers, every type is 2, and buffer i is `input[offset..offset+size]`; nothing else is checked |
| MarvellReader.ShortTableRejected | src/marvel-88mw30x-firmware.c:77-79 | past the magics, the read fails as short iff fewer than `num_segments` records follow the header |
| MarvellReader.MagicCheckedFirst | src/marvel-88mw30x-firmware.c:59-75 | a magic failure depends only on the first eight bytes: two such files fail alike, whatever `num_segments` says, so nothing sized by it happens first |
| MarvellReader.TableTypeField | src/marvel-88mw30x-firmware.c:77-83 | the type of decoded record k is the LE word at byte 20 + 20k of the file |
| MarvellReader.TypesCheckedBeforeData | src/marvel-88mw30x-firmware.c:81-93 | one record with a type other than 2 rejects the file as a type error, even when segment data is unreadable |
| StringTable.StringList.Init | src/firmware2elf.c:39-43 | the buffer is `[0]`, length 1 |
| StringTable.StringList.Add | src/firmware2elf.c:51-59 | the buffer becomes old + name + NUL, every old byte kept; the result is the old length, where the name now stands |
| StringTable.StringList.Ndx | src/firmware2elf.c:61-70 | the scan returns `Lookup(buf, name)` |
| StringTable.StringList.Get | src/firmware2elf.c:72-78 | buffer and result are `GetOrAdd(old buf, name)`; the result points at the name followed by a NUL; the buffer only grows |
| StringTable.FirstFromSpec | src/firmware2elf.c:65-69 | the scan from position p returns the least hit at or after p, or 0 when there is none |
| StringTable.LookupIsFirstOccurrence | src/firmware2elf.c:61-70 | `strlist_ndx` returns the least offset where name + NUL occurs, or 0 if it occurs nowhere |
| StringTable.LookupZeroIffAbsent | src/firmware2elf.c:61-70 | for a non-empty name in a well-formed list, 0 is returned iff the name is absent |
| StringTable.EmptyNameAlwaysAppends | src/firmware2elf.c:72-78 | `strlist_get("")` always appends a NUL and returns the old length |
| StringTable.NameAtStable | src/firmware2elf.c:51-59 | appending never moves a name already present |
| StringTable.GetOrAddResult | src/firmware2elf.c:72-78 | the list stays well formed, the result holds the name, and the buffer is unchanged or grew by exactly name + NUL at the old end |
| StringTable.LookupAfterAppend | src/firmware2elf.c:51-78 | a name just appended is found at the offset it was appended at, not straddling the old end |
| StringTable.GetOrAddIdempotent | src/firmware2elf.c:72-78 | a second `strlist_get` of the same non-empty name returns the same offset and leaves the buffer alone |
| StringTable.LookupStableAfterAppend | src/firmware2elf.c:51-70 | once a name is found, appending anything leaves its lookup result unchanged |
| StringTable.Join | src/firmware2elf.c:39-59 | a list built by `strlist_init` and `strlist_add` of C strings is well formed (starts with the empty name, ends in NUL) |
| StringTable.AbsentFromJoin | src/firmware2elf.c:61-70 | in such a list, the raw search finds a non-empty name nowhere when no entry ends with it |
| StringTable.NameAtJoin | src/firmware2elf.c:51-59 | entry j stands, NUL-terminated, at the length of the list built from the entries before it |
| StringTable.NameAtJoinLastTwo | src/firmware2elf.c:51-59 | the last two entries stand right after the entries before each of them |
| StringTable.GetOrAddNew | src/firmware2elf.c:72-78 | `strlist_get` of a name no entry ends with appends it as the next entry and returns the old length |
| StringTable.GetOrAddPresent | src/firmware2elf.c:72-78 | `strlist_get` of a name that is already an entry leaves the list unchanged |
| FirmwareToElf.SectionNamesDistinct | src/firmware2elf.c:195-245 | `.init`, `.text` and `.data` are distinct and 5 bytes long, `.ARM.attributes` 15 and `.shstrtab` 9; none holds a NUL; `.ARM.attributes` does not end in `.shstrtab` |
| FirmwareToElf.SegmentSection | src/firmware2elf.c:178-214 | index 0 is `.init` (align 8, ALLOC+EXEC), 1 is `.text` (align 16, ALLOC+EXEC), 2 is `.data` (align 1, ALLOC+WRITE+EXEC), and 3 on is `.text` (align 1, ALLOC only), each iff |
| FirmwareToElf.SegmentFlagsKnown | src/firmware2elf.c:189-214 | no segment section carries a flag other than ALLOC, WRITE and EXECINSTR |
| FirmwareToElf.EntryPoint | src/firmware2elf.c:217-220 | the entry is set iff there are at least 2 segments, to segment 1's vaddr + 1, wrapping to 0 at 2^32 - 1 |
| FirmwareToElf.EntryIsNotThumbBitSet | src/firmware2elf.c:218-220 | an even vaddr gets an odd entry, but an odd vaddr gets an even one |
| FirmwareToElf.ArmAttributesLayout | src/firmware2elf.c:99-105 | 53 bytes: 'A', the LE subsection length 52, "aeabi" + NUL, then Tag_File with a length reaching the end |
| FirmwareToElf.SegmentSectionBuiltStable | src/firmware2elf.c:170-215 | a built section stays correctly named as the name list grows |
| FirmwareToElf.CopyStep | src/firmware2elf.c:170-215 | one loop round keeps the sections-built invariant, including `.text` sharing section 1's name offset |
| FirmwareToElf.CopySegment | src/firmware2elf.c:170-214 | one round: the list is `strlist_get` of segment i's name applied to it, and one more section is built |
| FirmwareToElf.CopySegments | src/firmware2elf.c:166-215 | one PROGBITS section per segment with its vaddr, its bytes (`size` long), its index's flags and alignment and a name offset into the list; every section from 3 on shares section 1's `.text` offset; the list is the old list after `strlist_get` of each segment's name in order |
| FirmwareToElf.NextNameNew | src/firmware2elf.c:195-210 | for segments 0, 1 and 2 the name is new, so `strlist_get` appends it |
| FirmwareToElf.NextNameShared | src/firmware2elf.c:211-213 | from segment 3 on, `.text` is already in the list, which stays as it is |
| FirmwareToElf.NamesAfterIsJoin | src/firmware2elf.c:166-215 | from a fresh list, the loop leaves the empty name followed by `.init`, `.text`, `.data` as far as there are segments, each once |
| FirmwareToElf.NameTableLayout | src/firmware2elf.c:166-262 | the `.shstrtab` payload byte for byte: NUL, the segment names present, `.ARM.attributes`, `.shstrtab`, each NUL-terminated; 27, 33, 39 or 45 bytes for 0, 1, 2 or 3 and more segments |
| FirmwareToElf.AttributesAppended | src/firmware2elf.c:239 | `.ARM.attributes` ends no segment name, so `strlist_get` appends it at the list's old length |
| FirmwareToElf.SelfNameAppended | src/firmware2elf.c:245-262 | after `.shstrtab` is appended the list is the whole name table, and the lookup finds `.shstrtab` where it was appended |
| FirmwareToElf.NamesAssembled | src/firmware2elf.c:166-262 | the list `main` ends with is `NameTable(n)`; `.ARM.attributes` and `.shstrtab` get the offsets they were appended at |
| FirmwareToElf.AddSelfName | src/firmware2elf.c:244-262 | `.shstrtab` + NUL is appended unconditionally, then looked up; the result is that lookup and points at the name |
| FirmwareToElf.BuildElf | src/firmware2elf.c:157-267 | LSB, ARM, EXEC, EABI5 + soft-float; entry per `EntryPoint`; n + 2 sections: each segment's PROGBITS section named in the final table, `.ARM.attributes` named at the offset after the segment names, and `.shstrtab` whose payload is exactly `NameTable(n)`; `e_shstrndx` is n + 2 kept to 16 bits, (n + 2) mod 2^16 |
| FirmwareToElf.ElfBuiltNamesResolve | src/firmware2elf.c:239-262 | in a built image, the two fixed sections' name offsets point at `.ARM.attributes` and `.shstrtab` in the table |
| FirmwareToElf.AssembleElf | src/firmware2elf.c:217-267 | from the loop's sections and the two fixed names, the header fields and section list `ElfBuilt` describes, with `e_shstrndx` the last section's index in 16 bits |
| FirmwareToElf.ShstrndxIsTableIndex | src/firmware2elf.c:267 | `e_shstrndx` equals the name table's index iff there are fewer than 2^16 sections; from `SHN_LORESERVE` (0xFF00) up it falls in the reserved range |
| FirmwareToElf.ShstrndxWrapsToUndef | src/firmware2elf.c:267 | with 65534 segments there are 2^16 sections and `e_shstrndx` is `SHN_UNDEF` |
| FirmwareToElf.ConvertFirmware | src/firmware2elf.c:130-267 | apart from the ELF writer's own failures, which are not modelled, it fails exactly when the reader fails, with its error; otherwise the image is what `BuildElf` states for the decoded firmware: header fields, sections and the exact name table |
| AxfToFirmware.Loadable | src/axf2firmware.c:87-94 | every kept header is PT_LOAD with non-zero size |
| AxfToFirmware.LoadableKeepsOrder | src/axf2firmware.c:116-141 | the segments are exactly the loadable program headers, at strictly increasing indices, none skipped |
| AxfToFirmware.CountLoadable | src/axf2firmware.c:86-94 | the counting loop yields the number of loadable headers |
| AxfToFirmware.MaskClearsLowBits | src/axf2firmware.c:124 | `x & 0xfffffffc` on a 32-bit x is x minus x mod 4 |
| AxfToFirmware.Padding | src/axf2firmware.c:124 | the padding is at most 3 and brings `p_filesz` to a multiple of 4 |
| AxfToFirmware.PaddedSizeIsLeast | src/axf2firmware.c:124-125 | `size` is the least multiple of 4 not below `p_filesz` |
| AxfToFirmware.SegmentBuffer | src/axf2firmware.c:124-131 | the buffer is `size` bytes, a multiple of 4, starting with the ELF bytes at `[p_offset, p_offset + p_filesz)` |
| AxfToFirmware.OneByteSegmentPadding | src/axf2firmware.c:126-131 | for a 1-byte segment, bytes 1 and 2 are 0xFF and byte 3 is as allocated |
| AxfToFirmware.PaddingKeepsAllocatedBytes | src/axf2firmware.c:126-131 | from 2 data bytes on, every padding byte is as allocated |
| AxfToFirmware.PaddingNotAlwaysFF | src/axf2firmware.c:126-131 | a 3-byte segment over zeroed memory ends in 0, not 0xFF |
| AxfToFirmware.Fill | src/axf2firmware.c:127 | the first `count` bytes become the value, the rest are unchanged |
| AxfToFirmware.CopyInto | src/axf2firmware.c:130 | the first bytes become the source, the rest are unchanged |
| AxfToFirmware.FillSegment | src/axf2firmware.c:124-131 | the read fails iff the segment overruns the ELF file; otherwise the buffer is `SegmentBuffer` |
| AxfToFirmware.OverwriteKeepsOthers | src/axf2firmware.c:146 | a write changes no byte outside the range it covers |
| AxfToFirmware.OverwriteAtEnd | src/axf2firmware.c:134 | a write at the end of the file appends |
| AxfToFirmware.OutputFile.Open | src/axf2firmware.c:106-108 | an empty file at position 0 |
| AxfToFirmware.OutputFile.Write | src/axf2firmware.c:109-112 | the bytes land at the cursor, which advances by their length |
| AxfToFirmware.OutputFile.Seek | src/axf2firmware.c:144 | moves the cursor, contents unchanged |
| AxfToFirmware.ConcatSlice | src/axf2firmware.c:133-134 | each buffer lies in the data region right after the buffers before it |
| AxfToFirmware.ImageLength | src/axf2firmware.c:109-141 | the file is 20 + 20 * count bytes plus the sum of the recorded sizes |
| AxfToFirmware.RecordsConsecutive | src/axf2firmware.c:133-134 | `offset[i+1] == offset[i] + size[i]` (modulo 2^32, the field width) |
| AxfToFirmware.RecordFields | src/axf2firmware.c:121-137 | each record has type 2, the program header's vaddr, the buffer's length as size and the CRC of the whole padded buffer |
| AxfToFirmware.RecordOffsetExact | src/axf2firmware.c:133 | below 4 GiB, a record's offset is 20 + 20 * count plus the sizes before it |
| AxfToFirmware.PackedFirmwareParts | src/axf2firmware.c:81-141 | the packed header is MRVL, magic2, `ctime`, count, `e_version`; buffers and records are those of the loadable headers |
| AxfToFirmware.PackedFirmwareLayout | src/axf2firmware.c:81-149 | record 0 starts right after the table (20 + 20 * count); each record holds type 2, the vaddr, the padded size, the CRC of the buffer; each buffer starts with the ELF bytes; each offset is the previous offset plus size, modulo 2^32 |
| AxfToFirmware.PackResultOk | src/axf2firmware.c:95-131 | a run succeeds iff 1..9 loadable segments all lie in the ELF file; the file is then 20 + 20 * count + sum of sizes long |
| AxfToFirmware.PackedHeader | src/axf2firmware.c:81-84 | the header written is MRVL, magic2, `ctime`, the count and `e_version` |
| AxfToFirmware.FirstMissing | src/axf2firmware.c:116-131 | the first loadable header the ELF file does not hold: all before it are held, and it is the count only when every one is |
| AxfToFirmware.FirstMissingIs | src/axf2firmware.c:116-131 | a header that cannot be read, after headers that all can, is that first one |
| AxfToFirmware.BuffersBefore | src/axf2firmware.c:116-134 | the buffers written before a stop: one per header in front of the first missing one, each that header's buffer |
| AxfToFirmware.BlankTable | src/axf2firmware.c:100-112 | the table as allocated and zeroed is written as 20 * count zero bytes |
| AxfToFirmware.FailedRunFileLayout | src/axf2firmware.c:109-134 | the file a stopped run leaves: the header with the count, a zero table, then the buffers before the failing segment, and nothing else |
| AxfToFirmware.FailedRunFileRejected | src/axf2firmware.c:109-131 | the reader rejects that file as a type error: its first record's type is 0 |
| AxfToFirmware.FailedRunLayout | src/axf2firmware.c:95-131 | with 1..9 segments and one outside the ELF file, the run reports the read failure with that file, stopping at the first such segment |
| AxfToFirmware.HeaderReadsBack | src/axf2firmware.c:109-110 | a file starting with a header that carries both magics passes the checks and yields that header |
| AxfToFirmware.ZeroTypeRejected | src/marvel-88mw30x-firmware.c:81-85 | a file whose first record's type field is zero is rejected as a type error |
| AxfToFirmware.ImageHeaderReadsBack | src/axf2firmware.c:109-110 | the written header passes both magic checks and reads back as written |
| AxfToFirmware.ImageTableReadsBack | src/axf2firmware.c:144-148 | the rewritten table decodes to the records |
| AxfToFirmware.ImageSegmentReadsBack | src/axf2firmware.c:133-134 | the bytes at a record's offset and size are its buffer |
| AxfToFirmware.ImageReadsBack | src/axf2firmware.c:109-148 | a container with the magics, type-2 non-empty records and consecutive offsets reads back as the same firmware value |
| AxfToFirmware.PackedImageReadsBack | src/axf2firmware.c:81-149 | below 4 GiB, reading the packed file yields exactly the firmware value that was packed |
| AxfToFirmware.EmitSegment | src/axf2firmware.c:121-137 | for an in-file segment: appends its buffer and returns its record with the pre-write position as offset; otherwise the file is unchanged |
| AxfToFirmware.WriteStep | src/axf2firmware.c:116-141 | emitting the next segment at the file's end extends the emitted-so-far state by its buffer and record |
| AxfToFirmware.StoreSegment | src/axf2firmware.c:120-139 | fills `seghdrs[si]` and `segments[si]` in place, leaves later slots alone and keeps the emitted-so-far state; fails only when the segment overruns the ELF file, and then changes neither the file nor the arrays |
| AxfToFirmware.WriteSegments | src/axf2firmware.c:114-141 | succeeds iff every segment lies in the ELF file; the arrays then hold the buffers and records and the file has grown by the buffers; otherwise it stops at the first missing segment k: the file has grown by the buffers before k, slots before k hold their buffers and records, and slots from k on are untouched |
| AxfToFirmware.StartFile | src/axf2firmware.c:100-112 | the file after `fopen` and the first two writes: the header then 20 * count zero bytes, cursor at the end |
| AxfToFirmware.PackedImageIs | src/axf2firmware.c:143-149 | after a complete run, header, rewritten table and buffers are the packed image, and record 0's offset is the end of the table |
| AxfToFirmware.RewriteStep | src/axf2firmware.c:145-148 | writing record i over the zeroed table extends the rewritten prefix by one record |
| AxfToFirmware.RewriteTable | src/axf2firmware.c:143-148 | only bytes [20, 20 + 20 * count) change, becoming the encoded records; the cursor ends after the table |
| AxfToFirmware.Pack | src/axf2firmware.c:81-149 | the run's result is `PackResult`: the errors in the program's order, a read failure carrying the file as the exit leaves it, or the file; the closing assert that the cursor stands at record 0's offset is proved inside the method |
| EndToEnd.ExampleOffsets | src/axf2firmware.c:116-141 | a two-segment example's segments get offsets 60 and 64 and sizes 4 and 8 |
| EndToEnd.ExampleContents | src/axf2firmware.c:124-131 | the example's buffers start with the ELF bytes; the second segment's padding bytes are the allocator's |
| EndToEnd.ExampleLength | src/axf2firmware.c:109-141 | the example packs to a 72-byte file |
| EndToEnd.TwoSegmentExample | src/firmware2elf.c:217-220 | the packed example reads back as packed, and its entry point is 0x1F000101 |

## Left out

- The ELF library. Reading goes through `elf_begin`, `gelf_getehdr`, the 32-bit class check, `elf_getphdrnum` and `gelf_getphdr`; the model instead takes the list of program headers `(p_type, p_offset, p_vaddr, p_filesz)` and the file's bytes, so the library's failures are not modelled. Writing goes through `elf_begin`, `elf32_newehdr`, `elf_newscn`, `elf_newdata`, `elf32_getshdr`, `elf_update` and `elf_end`; the model instead produces the section descriptors and header fields, so the ELF file layout the library computes and the library's failures are not modelled.
- `crc32_byte` is a parameter: `crc32.h` is not part of this model.
- `time(NULL)` (`src/axf2firmware.c:82`) is the parameter `ctime`.
- File I/O is replaced by byte sequences: the input file is a sequence, and the output file is `OutputFile`. `fopen` failures and `fwrite` failures ("cannot write ...") are not modelled: every write succeeds.
- Memory management is not modelled: `malloc`/`realloc`/`free`, `free_mrvl_firmware`, `strlist_free` and the `assert` on each allocation. Freshly allocated bytes are the parameter `uninit`.
- Printing is not modelled: `print_phdr`, the dump of the container in `firmware2elf.c`, the warning for segments past index 2, and `src/fwinfo.c`, which only prints fields and is not part of this model.
- Command-line checks and the `err`/`errx` messages are not modelled: each fatal exit is an error value.
- FillSegment: the `fseek` at `src/axf2firmware.c:128` is taken to succeed. A segment outside the ELF file fails at the `fread` instead, which ends the run the same way.
- Pack: requires `p_filesz + 3 < 2^32` for every loadable header, because the mask at `src/axf2firmware.c:124` works on 32 bits. The wrapped padding of a segment within 3 bytes of 4 GiB is not modelled.
- PackedImageReadsBack: requires a file shorter than 4 GiB. Beyond that, `ftell` stored in the 32-bit `offset` field wraps. The records model that wrap (`FileOffset`), but reading the file back is only proved below it.
- ReadFirmware: a `malloc` sized by `num_segments` that fails ends the program on an `assert`. The model assumes every allocation succeeds, so a huge count with too few bytes fails only as a short table.
