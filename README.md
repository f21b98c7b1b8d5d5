# XP3 archive codec — a Dafny model

XP3 is the archive format of the KiriKiri visual-novel engine. An archive is laid out as
follows:

- the 11-byte signature `XP3\r\n \n\x1a\x8bg\x01`;
- an 8-byte little-endian offset of the file index;
- the stored file data;
- the index itself.

The index is a run of `File` entries. Each entry holds these chunks:

- `time`: the timestamp;
- `adlr`: the Adler-32 of the plain data;
- `segm`: the segments (flag, offset, sizes);
- `info`: the encrypted flag, the sizes and the path.

An encrypted entry is preceded by an encryption chunk tagged `eliF` or `neko`. That chunk
carries the real path, and `info` then holds an MD5 hash of the path. Encryption is a
byte-wise XOR derived from the checksum and one of five key profiles.

This project models the codec on in-memory byte sequences:

- the chunk structs and their `read_from`/`to_bytes` pair;
- the index reader and writer, including the redirect through a 0x80 flag byte;
- `XP3File.read` and the XOR cipher;
- the `XP3Writer` and `XP3Reader` classes;
- the older single-script packer/extractor `xp3.py`, which writes and reads the same layout
  with its own code.

Every parser returns the unread rest of its input. The cursor position the source asks
`tell()` for is the input length minus the rest length.

The modules follow the source files:

| module | file | models |
|---|---|---|
| `Bytes` | — | bytes, little-endian integers, `struct` formats, UTF-16 code units, the exceptions as an `Error` datatype |
| `Adler32` | — | the checksum, per section 2.2 of RFC 1950 |
| `EncryptionParameters` | structs/encryption_parameters.py | the five key profiles |
| `FileEntry` | structs/file_entry.py | the chunks and the entry |
| `FileIndex` | structs/file_index.py | the index |
| `XP3File` | structs/file.py | reading a file and the XOR |
| `Writer` | xp3writer.py | `XP3Writer`, a class whose methods update the buffer and entry list in place |
| `Reader` | xp3reader.py | `XP3Reader` |
| `LegacyPack`, `LegacyExtract`, `LegacyIndex` | xp3.py | the legacy packer and extractor |

zlib and MD5 enter as function parameters:

- `compress : Bytes -> Bytes` and `decompress : Bytes -> Option<Bytes>`. Round-trip theorems
  assume `Inverts(compress, decompress)`, meaning decompression undoes compression.
- `pathHash : Path -> Path` for the hex MD5 of the lower-cased path.

Notes on the source:

- **Segment flag name.** The segment record's flag is declared as `is_compressed`
  (structs/file_entry.py:64). The writer constructs it as `compressed=` (xp3writer.py:131),
  and `XP3File.read` reads `segment.compressed` (structs/file.py:39). As written, the first
  raises `TypeError` and the second `AttributeError`. The model gives a segment one boolean
  field, `isCompressed`, used by both sides.
- **Encryption and compression order.** The writer compresses and then XORs
  (xp3writer.py:101-117). `XP3File.read` decompresses and then XORs (structs/file.py:36-48).
  An entry that is both compressed and encrypted therefore does not read back, and which
  side is meant to change is not evident. The write-then-read theorems are stated for
  entries that are uncompressed or unencrypted. `Writer.CompressedEncryptedDoesNotReadBack`
  gives a concrete counterexample for the other case.
- **Legacy chunk sizes.**
  - The legacy packer's encryption chunk counts its size without the two-byte terminator it
    writes (xp3.py:84-88).
  - Its `info` chunk has no terminator at all (xp3.py:106-112).
  - The struct readers check both sizes, so they refuse these chunks, while the legacy
    extractor skips the one and reads the other.
  - `LegacyPack.StructsRejectLegacyEncryption` and `LegacyPack.StructsRejectLegacyInfo`
    state this.
- **Constant values.** structs/constants.py is not part of this model. Its values are taken
  from their uses:
  - the encrypted flag is 0x80000000;
  - the index flags are 0x80 (continue), 0x01 (compressed) and 0x00 (raw).
  - The legacy packer writes the encrypted flag as `0x0080000000`, which is the same number.

## Model

| member | source | states |
|---|---|---|
| `Bytes.UnpackPack` | structs/file_entry.py:106 | unpacking a little-endian struct format gives back every field that was packed into it, when each field fits its width |
| `Bytes.ReadStructOf` | structs/file_entry.py:117-118 | reading a format from packed bytes followed by anything yields the fields and exactly the bytes after the record |
| `Bytes.FromUtf16OfUtf16` | structs/file_entry.py:122-124 | decoding the UTF-16LE bytes of a path gives the path back |
| `Adler32.SumsAreRfcSums` | structs/file_entry.py:158-159 | the two running sums are 1 plus the byte sum and the sum of those prefix sums, both mod 65521, as section 2.2 of RFC 1950 defines Adler-32 |
| `Adler32.ChecksumEmpty` | xp3.py:159 | the checksum of empty data is 1, never 0 |
| `EncryptionParameters.Lookup` | structs/file.py:78 | a profile name is accepted exactly when it is a key of the table, and yields that row; any other name, or none, is an unknown-profile error |
| `EncryptionParameters.ProfileNames` | structs/encryption_parameters.py:1-8 | the table has exactly the five profiles `none`, `neko_vol1`, `neko_vol1_steam`, `neko_vol0`, `neko_vol0_steam` |
| `EncryptionParameters.NoneProfile` | structs/encryption_parameters.py:3 | `none` has zero keys and does not XOR the first byte |
| `EncryptionParameters.ProfileFamilies` | structs/encryption_parameters.py:3-7 | the `vol0` profiles alone XOR the first byte and alone are tagged `neko` (the rest `eliF`); the steam profiles share master key 0x44528B87 and secondary 0x23, the others 0x1548E29C and 0xD7; no tag is `File` |
| `FileEntry.MakeEntry` | structs/file_entry.py:171-181 | an entry is built exactly when there is no encryption chunk or its checksum equals the `adlr` value, otherwise a checksum-mismatch error |
| `FileEntry.SizesAppend` | structs/file_entry.py:80-86 | the total uncompressed and compressed sizes of two segment lists joined are the sums of their totals |
| `FileEntry.ParseEncryption` | structs/file_entry.py:22-33 | on success the chunk consumed exactly 8 bytes plus its size field, keeps the given tag as its name, and its fields fit their widths |
| `FileEntry.EncryptionRoundTrip` | structs/file_entry.py:35-39 | reading the bytes `to_bytes` writes after the tag returns the same checksum, path and name, and leaves exactly what follows |
| `FileEntry.EncryptionSizeChecked` | structs/file_entry.py:30-32 | a size field that differs from the bytes actually present fails with the position assertion |
| `FileEntry.TimeSizeChecked` | structs/file_entry.py:53-56 | a time chunk whose size field is not 8 fails with the assertion, whatever timestamp follows |
| `FileEntry.TimeRoundTrip` | structs/file_entry.py:52-60 | reading back a written time chunk gives the timestamp divided by 1000: milliseconds are written, seconds are read |
| `FileEntry.AdlerSizeChecked` | structs/file_entry.py:151-154 | an `adlr` chunk whose size field is not 4 fails with the assertion, whatever checksum follows |
| `FileEntry.AdlerRoundTrip` | structs/file_entry.py:150-162 | reading back a written `adlr` chunk gives the same checksum and the rest |
| `FileEntry.ParseSegmentRecords` | structs/file_entry.py:74-76 | `n` records are read exactly when `28·n` bytes are present; the result has `n` segments and leaves the bytes after them |
| `FileEntry.SegmentOfFields` | structs/file_entry.py:66 | a segment packed as `<?xxxQQQ` and unpacked is the same segment (flag, offset, both sizes) |
| `FileEntry.SegmentsRoundTrip` | structs/file_entry.py:71-92 | reading back a written `segm` chunk gives the same list of segments and the rest |
| `FileEntry.InfoHead` | structs/file_entry.py:131-133 | the flags word has the encrypted bit set exactly when the info says encrypted |
| `FileEntry.ParseInfo` | structs/file_entry.py:114-129 | on success the chunk consumed exactly 8 bytes plus its size field, and the fields fit their widths |
| `FileEntry.InfoRoundTrip` | structs/file_entry.py:114-137 | reading back a written `info` chunk gives the same encrypted flag, sizes and path, and the rest |
| `FileEntry.InfoSizeChecked` | structs/file_entry.py:126-128 | an `info` size field that differs from the bytes actually present fails with the position assertion |
| `FileEntry.ChunkStep` | structs/file_entry.py:199-208 | one pass of the chunk loop consumes at least one byte of a non-empty input |
| `FileEntry.ChunkStepStallsAtEnd` | structs/file_entry.py:199-200 | on an exhausted input one pass of the loop consumes nothing and changes nothing |
| `FileEntry.ParseChunks` | structs/file_entry.py:199-208 | on success no more than `stop` bytes are left and the rest is no longer than the input; when `stop` is negative (the input is shorter than the entry) it can only fail, instead of spinning when the input ends first |
| `FileEntry.ReadChunks` | structs/file_entry.py:199-208 | the `while` loop over the chunks computes `ParseChunks` |
| `FileEntry.Finish` | structs/file_entry.py:210-215 | an entry results exactly when `adlr`, `segm` and `info` were all read and the checksums agree; a missing `time` becomes timestamp 0; every chunk read is kept |
| `FileEntry.ParseHead` | structs/file_entry.py:191-195 | on success the tag, and any encryption chunk, consumed at least four bytes |
| `FileEntry.HeadNeedsFileTag` | structs/file_entry.py:191-195 | an encryption chunk followed by a four-byte tag other than `File` fails with the assertion |
| `FileEntry.HeadRoundTrip` | structs/file_entry.py:191-195 | reading back a written encryption chunk and `File` tag (or the tag alone) gives the same encryption and the bytes after the tag |
| `FileEntry.ChunksRoundTrip` | structs/file_entry.py:196-208 | the loop over written `time`, `adlr`, `segm`, `info` chunks collects all four, with the timestamp in seconds, and stops after `info` |
| `FileEntry.BodyRoundTrip` | structs/file_entry.py:196-215 | reading a length field and the chunks it covers gives back the written entry, normalised to seconds |
| `FileEntry.EntryRoundTrip` | structs/file_entry.py:183-240 | `read_from(to_bytes(e))` is `e` with its timestamp in seconds, and leaves exactly the bytes that followed |
| `FileEntry.ReadEntry` | structs/file_entry.py:183-215 | the imperative reader computes `ParseEntry` |
| `FileEntry.ReadBody` | structs/file_entry.py:196-215 | the imperative reader of the length and chunks computes `ParseBody` |
| `FileIndex.IndexBody` | structs/file_index.py:82-92 | a raw index is the stated number of bytes, or fewer at the end of the buffer; a compressed index is what decompressing the stated bytes gives; any other flag is an unexpected-flag error |
| `FileIndex.IndexAt` | structs/file_index.py:76-92 | an empty input is truncated, and a second 0x80 flag is an unexpected flag |
| `FileIndex.OffsetMissing` | structs/file_index.py:71-73 | a zero index offset is the missing-offset error |
| `FileIndex.DirectIndex` | structs/file_index.py:71-76 | a non-zero offset whose flag is not 0x80 reads the index at that offset |
| `FileIndex.RedirectedIndex` | structs/file_index.py:77-80 | a 0x80 flag skips 8 bytes and reads the index at the absolute offset that follows; a second 0x80 there is an unexpected flag |
| `FileIndex.IndexBytes` | structs/file_index.py:96-104 | the compressed form is written exactly when its 17-byte record is shorter than the 9-byte raw record; the output is never longer than the raw index plus 9 |
| `FileIndex.IndexRoundTrip` | structs/file_index.py:82-104 | reading back what `to_bytes` writes, whichever form it chose, gives the raw index |
| `FileIndex.ParseEntries` | structs/file_index.py:46-49 | the entries read extend the ones already read |
| `FileIndex.EntriesStep` | structs/file_index.py:48-49 | one pass of the loop reads one entry and continues after it |
| `FileIndex.EntriesRoundTrip` | structs/file_index.py:46-49 | reading the concatenated entries back gives every entry in order, each with its timestamp in seconds |
| `FileIndex.ReadEntries` | structs/file_index.py:46-49 | the `while` loop over the index computes `ParseEntries` |
| `FileIndex.PathIndexLast` | structs/file_index.py:35 | a path is in the path map exactly when some entry has it, and it maps to the last such position |
| `FileIndex.ReadFrom` | structs/file_index.py:42-51 | the index read keeps the buffer it was read from |
| `FileIndex.GetItem` | structs/file_index.py:109-116 | an integer key succeeds exactly for `-n ≤ i < n`, with Python's negative indexing; a path succeeds exactly when some entry has it; any other key is a type error |
| `FileIndex.GetItemLast` | structs/file_index.py:114 | a path finds the last entry that has it |
| `XP3File.XorKey` | structs/file.py:107-110 | the key byte is 0 only when the profile's secondary key is 0 |
| `XP3File.FirstByteKey` | structs/file.py:115-117 | the first-byte key is 0 only when the master key's low byte is 0 |
| `XP3File.XorAll` | structs/file.py:121-122 | every byte is XORed with the key |
| `XP3File.XorBytes` | structs/file.py:106-122 | the XOR fails exactly on empty data with a first-byte profile; otherwise every byte after the first is XORed with the key, and the first also with the first-byte key when the profile asks |
| `XP3File.XorTwice` | structs/file.py:106-122 | applying the XOR twice with the same checksum and profile gives the data back |
| `XP3File.XorData` | structs/file.py:76-78 | an unknown profile fails before anything is XORed |
| `XP3File.XorInPlace` | structs/file.py:76-126 | the array loop leaves the buffer equal to `XorData` of its old contents, or unchanged with that error |
| `XP3File.SegmentData` | structs/file.py:36-42 | a decoded segment has its stated uncompressed size; an uncompressed in-range segment is the stored bytes |
| `XP3File.SegmentsLength` | structs/file.py:36-43 | the joined segments are as long as the uncompressed sizes add up to |
| `XP3File.SegmentsStep` | structs/file.py:36-43 | the segments from `i` on are segment `i` followed by the rest, and the first failure is the result |
| `XP3File.ReadSegments` | structs/file.py:36-43 | the loop over the segments computes `Segments` |
| `XP3File.Read` | structs/file.py:32-50 | the method computes `ReadSpec` |
| `XP3File.ReadLength` | structs/file.py:32-50 | a successful read is as long as the segments' uncompressed sizes add up to |
| `XP3File.ReadNeedsProfile` | structs/file.py:45-47 | an encrypted entry read with no profile, or `none`, is refused with the decryption error |
| `XP3File.ReadDecrypts` | structs/file.py:45-50 | an encrypted entry whose stored bytes are the XOR of `plain` reads back as `plain` with the same profile |
| `Writer.Packed` | xp3writer.py:100-110 | the stored bytes are the compressed form exactly when it is shorter, otherwise the data; never longer than the data |
| `Writer.CreateFileEntry` | xp3writer.py:88-140 | fails exactly for an unknown profile or empty data under a first-byte profile; otherwise one segment at `offset` with both sizes, the Adler-32 of the plain data, the timestamp, the path, the hashed path in `info` when encrypted, and the stored bytes XORed when encrypted |
| `Writer.CreatedWellFormed` | xp3writer.py:112-138 | the created entry passes the constructor's checksum check |
| `Writer.CreatedReadsBack` | xp3writer.py:100-140 | reading the created entry from a buffer holding its bytes at `offset` gives the file back |
| `Writer.CompressedEncryptedDoesNotReadBack` | xp3writer.py:101-117 | there is an archive whose compressed and encrypted file does not read back |
| `Writer.Overwrite` | xp3writer.py:78-79 | writing over a buffer changes exactly the written range |
| `Writer.PatchedIndexed` | xp3writer.py:73-79 | after the index is appended and its offset patched at byte 11, the header points at the index and the signature is untouched |
| `Writer.XP3Writer.constructor` | xp3writer.py:16-26 | a new writer holds the signature and a zero offset placeholder, no entries and no names |
| `Writer.XP3Writer.Add` | xp3writer.py:36-61 | after packing up: an error, nothing changes; a name already added: an error, nothing changes; otherwise the name is recorded (even if creation then fails), and on success the entry is appended and its bytes go to the end of the buffer |
| `Writer.XP3Writer.AddEntry` | xp3writer.py:49-61 | the new name is recorded, and the created entry and its bytes are appended, or on error only the name changes |
| `Writer.XP3Writer.AppendEntry` | xp3writer.py:56-61 | appends one entry and its bytes, keeping every earlier file readable at its offset |
| `Writer.XP3Writer.PackUp` | xp3writer.py:63-86 | a second call returns the archive unchanged; otherwise the index is appended and its offset patched into the header, and the archive is returned |
| `Writer.XP3Writer.WriteIndex` | xp3writer.py:73-86 | the buffer becomes the old buffer and the index, with the old length patched in at byte 11; a length that does not fit eight bytes leaves the index appended, the writer unpacked and an error returned |
| `Writer.IndexAppended` | xp3writer.py:73-75 | appending the index without touching the header keeps every file readable at its offset and the placeholder zero |
| `Writer.IndexPatched` | xp3writer.py:73-82 | appending the index and patching its offset at byte 11 keeps every file readable and leaves the header pointing at the index of the writer's entries |
| `Reader.Open` | xp3reader.py:7-19 | a buffer not starting with the signature is refused; otherwise the reader is exactly the index read from offset 11, or that read's error |
| `Reader.GetFile` | xp3reader.py:41-46 | a file is handed out exactly when the index finds the key, bound to the archive buffer |
| `Reader.IsEncrypted` | xp3reader.py:32-37 | true exactly when some file of the archive is encrypted |
| `Reader.IndexedArchiveOpens` | xp3reader.py:14-19 | an archive whose header points at the index of well-formed entries opens to those entries, timestamps in seconds |
| `Reader.WrittenArchiveOpens` | xp3reader.py:14-19 | what a packed-up writer holds opens to the entries it added |
| `Reader.WrittenFileReadsBack` | xp3reader.py:41-46 | each added file, read with the profile it was added under, gives the data that was added |
| `Reader.PathFindsPosition` | xp3reader.py:41-43 | with distinct paths, asking by path finds the same entry as asking by position |
| `Reader.WriteThenRead` | tests.py:90-101 | a packed-up archive opens, and each file, by path or by position, reads back as the data given to `add` |
| `LegacyPack.DefineEncryptionParameters` | xp3.py:44-49 | a known profile name gives its keys; any other name falls back to `none` |
| `LegacyPack.DefinedKeysAgree` | xp3.py:22-29 | the script's table has the same five names and the same keys as the package's |
| `LegacyPack.CipherIgnoresTag` | xp3.py:52-75 | the chunk tag of a profile plays no part in the XOR |
| `LegacyPack.SameCipher` | xp3.py:52-75 | the script's XOR with a known profile is the package's XOR |
| `LegacyPack.XorBuffer` | xp3.py:52-75 | the array loop leaves the buffer equal to the XOR of its old contents, or unchanged with the index error on empty data under a first-byte profile |
| `LegacyPack.EncryptionChunk` | xp3.py:81-88 | the chunk is the tag, a size field 2 less than the bytes after it, and a null-terminated path |
| `LegacyPack.InfoChunk` | xp3.py:106-112 | the `info` chunk's size field counts exactly the bytes after it |
| `LegacyPack.FileChunkData` | xp3.py:92-112 | the `File` length field counts exactly the bytes after it: `time`, `adlr`, `segm`, `info` |
| `LegacyPack.WriteFileEntry` | xp3.py:80-112 | the entry is the encryption chunk when encrypted, the `File` tag, then the sized chunk data |
| `LegacyPack.StructsRejectLegacyEncryption` | xp3.py:84-88 | the package's encryption-chunk reader refuses what the script writes |
| `LegacyPack.StructsRejectLegacyInfo` | xp3.py:106-112 | the package's `info` reader refuses what the script writes |
| `LegacyPack.Enciphered` | xp3.py:159-180 | the data in the clear for `none`, otherwise the XOR with the checksum of the plain data under the keys the name defines; it fails exactly for empty data under a first-byte profile and keeps the length otherwise |
| `LegacyPack.PackFile` | xp3.py:154-194 | fails exactly for empty data under a first-byte profile; otherwise the checksum of the plain data, the `neko`/`eliF` tag and the path hash exactly when the name is not `none`, one segment at `offset`, and the stored bytes are the compressed XORed data exactly when that is under 95% of it, else the XORed data |
| `LegacyPack.PackFileRecovers` | xp3.py:159-191 | inflating the stored bytes when the segment is compressed, then XORing with the dict's checksum when encrypted, gives the file back |
| `LegacyPack.PackedFits` | xp3.py:154-194 | a packed file's entry fits every field width the writer uses |
| `LegacyExtract.UIntAt` | xp3.py:32-37 | a little-endian read succeeds exactly when the bytes are present, and fits its width |
| `LegacyExtract.ReadSegmentsAt` | xp3.py:238-246 | `n` segment records are read exactly when present |
| `LegacyExtract.ReadCharsAt` | xp3.py:253-256 | succeeds exactly when the low byte of every one of the `n` code units is present (the last high byte may be missing, as seeking past the end does not fail); character `i` is the byte at `pos + 2i` |
| `LegacyExtract.ChunkOf` | xp3.py:231-257 | a known chunk advances the cursor; an unknown tag leaves state and cursor as they were |
| `LegacyExtract.ChunkStep` | xp3.py:229-257 | one pass advances the cursor unless it is already at the end of the decompressed index |
| `LegacyExtract.ChunkStepStallsAtEnd` | xp3.py:229-230 | at the end of the decompressed index a pass changes nothing |
| `LegacyExtract.Chunks` | xp3.py:229-257 | the loop ends at or past the entry's end, and fails instead of spinning at the end of the decompressed index |
| `LegacyExtract.FinishAsWritten` | xp3.py:260-261 | the closing assert admits only a non-zero checksum and a non-zero compressed size |
| `LegacyExtract.Finish` | xp3.py:260-261 | an entry results exactly when the adler, segment and info chunks were read, keeping what they held |
| `LegacyExtract.ReadFileEntry` | xp3.py:221-262 | the imperative reader computes `FileEntryAt` |
| `LegacyExtract.FileEntryRoundTrip` | xp3.py:221-262 | reading back what `write_file_entry` writes gives the checksum, the path's low bytes, the segments shifted by the header offset, the flag and sizes |
| `LegacyExtract.EmptyFileRejected` | xp3.py:261 | the as-written assert refuses the entry the packer writes for an empty file, which the corrected check reads |
| `LegacyExtract.ZeroSizeRejected` | xp3.py:261 | the as-written assert refuses any written entry with compressed size 0 |
| `LegacyIndex.SizesAt` | xp3.py:289-295 | a flag other than 0x01 is an assertion error unless silent; otherwise the two sizes are read when present |
| `LegacyIndex.ReadIndexHead` | xp3.py:270-295 | a negative header offset fails; a missing signature fails; on success the sizes are present |
| `LegacyIndex.FollowOffset` | xp3.py:278-295 | the seek before the index fails when negative; on success the sizes are present |
| `LegacyIndex.InflateIndex` | xp3.py:298-301 | the inflated index has the stated size, or a decompression or size error |
| `LegacyIndex.LocateIndex` | xp3.py:264-301 | on success the index record ends the archive and the index has its stated size |
| `LegacyIndex.IndexRecord` | xp3.py:205-212 | the record is 17 bytes plus the compressed index |
| `LegacyIndex.NoRedirect` | xp3.py:278-289 | without the 0x80 flag the sizes are read where the header points |
| `LegacyIndex.Redirect` | xp3.py:280-288 | with the 0x80 flag the sizes are read at the header offset plus the redirect |
| `LegacyIndex.ChecksAgreeWhenAbsolute` | xp3.py:296 | the size check as written and as meant agree when the offset in hand is absolute |
| `LegacyIndex.LocateAtHeader` | xp3.py:264-301 | an archive the packer wrote is found after any prefix, and its index comes back; the check as written accepts it only with no prefix |

## Left out

- zlib, MD5 and `str.lower` are parameters, not implementations. The model does not know
  which inputs zlib shrinks. Round trips assume only that decompression undoes compression.
- Paths are sequences of UTF-16 code units. UTF-16 decoding errors, surrogates, and
  `str.lower` on the path before hashing are not modelled.
- The numpy branch of `XP3File.xor` (structs/file.py:84-105) is left out; the model follows
  the scalar branch. The two differ on empty data under a first-byte profile: the scalar
  branch raises `IndexError` at structs/file.py:114, while the numpy branch XORs an empty
  slice and succeeds. `use_numpy` defaults to true, so with numpy installed
  `XP3Writer.add` accepts such a file, where `Writer.CreateFileEntry` and `XP3File.XorBytes`
  report an error.
- Every `print` and the `silent` flags are left out, except where `silent` changes control
  flow in the legacy extractor.
- `close`, `__enter__`, `__exit__` and file I/O are left out: `XP3File.extract`,
  `XP3FileIndex.extract`, `XP3FileIndex.from_entries` and the `peek` helper.
- The legacy script's directory walk, `flatten`, `lower`, command-line parsing, and the
  extraction loop that decrypts and writes each file are left out. The pack step is modelled
  per file (`PackFile`, `WriteFileEntry`). The index record and header patch are modelled by
  `PackedArchive`.
- The legacy extractor's search for the signature in the first 4096 bytes is left out. The
  header offset is a parameter of `LegacyIndex.ReadIndexHead`.
- `XP3Writer.pack_up` on a buffer without `getvalue`, which returns `None`, is left out. The
  writer's buffer is always in memory.
- The `buffer` argument of `XP3Writer.__init__` (xp3writer.py:10, 16-18) is left out: only a
  fresh, empty buffer is modelled. With a caller-supplied non-empty buffer the source
  overwrites its first 19 bytes, places the first file at `tell()` (19), and keeps any older
  bytes past what it writes in `getvalue()`; the model captures none of that.
- The writer is a class whose buffer is a `seq` that the methods reassign.
  `XP3Reader`, `XP3FileIndex` and `XP3File` are values, because the source never updates
  them after construction.
- Writer.XP3Writer.Add: the `timestamp` is stored unbounded. A timestamp outside the 64-bit
  range only fails later, at `PackUp`, as a value-range error, where `struct.pack` would
  raise.
- Reader.WriteThenRead: proved only for files that are unencrypted or stored uncompressed.
  The writer XORs after compressing while the reader decompresses before XORing, so a
  compressed and encrypted file does not read back (`Writer.CompressedEncryptedDoesNotReadBack`).
- Reader.WrittenFileReadsBack: same restriction as `Reader.WriteThenRead`.
- Writer.CreatedReadsBack: same restriction as `Reader.WriteThenRead`.

## Findings

| source | as written | input that shows it | evidently intended | confidence | as-written member | corrected member |
|---|---|---|---|---|---|---|
| structs/file_entry.py:199-208 | the chunk loop reads a four-byte tag while the position is before `end`; at the end of the buffer `read(4)` returns nothing, nothing matches, and the position never moves, so the loop never ends | an index whose `File` length field is larger than the bytes left in the index (a truncated or corrupted index) | stop with an error when the input runs out before `end` | high, not executed | `FileEntry.ChunkStepStallsAtEnd` | `FileEntry.ParseChunks` |
| xp3.py:229-257 | the legacy extractor's chunk loop, which runs on the decompressed index (xp3.py:313, 330), has the same shape: at the end of the index the tag read is empty and the position never moves | an index whose last `File` entry's length field exceeds the bytes left in the decompressed index | stop with an error when the index runs out before the entry's end | high, not executed | `LegacyExtract.ChunkStepStallsAtEnd` | `LegacyExtract.Chunks` |
| xp3.py:260-261 | the closing assert requires the checksum and the compressed size to be truthy, not merely read | an empty file packed with profile `none`: nothing shrinks it below 95% of 0 bytes, so its compressed size is 0 and extraction fails the assert | require only that the adler, segment and info chunks were read, as the comment on line 260 says | high, not executed | `LegacyExtract.EmptyFileRejected` | `LegacyExtract.Finish` |
| xp3.py:296 | the size check adds the index offset read from the header, which counts from the header, to the compressed size and 17, and compares with the file size | an archive preceded by other bytes, such as one appended to an executable, whose header the extractor finds at a non-zero offset | compare the end of the index record (the header offset plus the index offset, 17 and the compressed size) with the file size | medium, not executed | `LegacyIndex.LocateAtHeader` | `LegacyIndex.LocateIndex` |
