/** The packing half of the legacy `xp3.py` script: its own table of encryption keys, its
    in-place XOR, the dictionary it builds for each packed file and the index entry that
    `write_file_entry` serialises from that dictionary. */
module LegacyPack {
  import opened Bytes
  import opened EncryptionParameters
  import opened XP3File
  import opened Adler32
  import FileEntry

  // ------------------------------------------------------------- profiles

  /** A row of the legacy table: master key, secondary key, and whether the first byte gets
      the extra XOR. The legacy table has no chunk tags. */
  datatype Keys = Keys(masterKey: nat, secondaryKey: byte, xorFirstByte: bool)

  const LegacyTable: map<string, Keys> := map[
    "none"            := Keys(0x00000000, 0x00, false),
    "neko_vol1"       := Keys(NonSteamMaster, 0xD7, false),
    "neko_vol1_steam" := Keys(SteamMaster, 0x23, false),
    "neko_vol0"       := Keys(NonSteamMaster, 0xD7, true),
    "neko_vol0_steam" := Keys(SteamMaster, 0x23, true)
  ]

  /** `define_encryption_parameters`: the keys of a known profile, and those of `none` for
      any other name. */
  function DefineEncryptionParameters(encryption: string): (r: Keys)
    ensures encryption in LegacyTable ==> r == LegacyTable[encryption]
    ensures encryption !in LegacyTable ==> r == Keys(0, 0, false)
  {
    if encryption in LegacyTable then LegacyTable[encryption] else LegacyTable["none"]
  }

  /** The keys as the cipher of `XP3File` takes them (the cipher never reads the tag). */
  function AsParams(k: Keys): (r: Params) {
    Params(k.masterKey, k.secondaryKey, k.xorFirstByte, [])
  }

  /** The legacy table names the same profiles as the table of the package, with the same
      keys; every other name gets the keys of `none`. */
  lemma {:induction false} DefinedKeysAgree(name: string)
    ensures name in LegacyTable <==> name in Table
    ensures var k := DefineEncryptionParameters(name);
            var p := Table[if name in Table then name else "none"];
            k.masterKey == p.masterKey && k.secondaryKey == p.secondaryKey && k.xorFirstByte == p.xorFirstByte
  {
    ProfileNames();
    assert LegacyTable.Keys == Table.Keys;
  }

  /** The cipher does not depend on the tag of the profile. */
  lemma CipherIgnoresTag(data: Bytes, adler32: nat, p: Params, tag: Bytes)
    ensures XorBytes(data, adler32, p.(tag := tag)) == XorBytes(data, adler32, p)
  {
    assert XorKey(adler32, p.(tag := tag)) == XorKey(adler32, p);
    assert FirstByteKey(adler32, p.(tag := tag)) == FirstByteKey(adler32, p);
  }

  /** For a known profile the legacy cipher is the cipher of `XP3File.xor`. */
  lemma SameCipher(name: string, data: Bytes, adler32: nat)
    requires name in Table
    ensures XorBytes(data, adler32, AsParams(DefineEncryptionParameters(name))) == XorData(data, adler32, Some(name))
  {
    DefinedKeysAgree(name);
    assert AsParams(DefineEncryptionParameters(name)) == Table[name].(tag := []);
    CipherIgnoresTag(data, adler32, Table[name], []);
  }

  // ---------------------------------------------------------------- cipher

  /** `xor` on the buffer's bytes as an array: the first byte alone with the first-byte key
      when the profile asks for it (an `IndexError` on no data), then every index with the
      XOR key. Nothing changes when it fails. */
  method XorBuffer(data: array<byte>, keys: Keys, adler32: nat) returns (r: Result<()>)
    modifies data
    ensures r.Ok? <==> XorBytes(old(data[..]), adler32, AsParams(keys)).Ok?
    ensures r.Ok? ==> data[..] == XorBytes(old(data[..]), adler32, AsParams(keys)).value
    ensures r.Err? ==> r.error == IndexOutOfRange && data[..] == old(data[..])
  {
    var p := AsParams(keys);
    var key := XorKey(adler32, p);
    if keys.xorFirstByte {
      if data.Length == 0 {
        return Err(IndexOutOfRange);
      }
      data[0] := XorByte(data[0], FirstByteKey(adler32, p));
    }
    ghost var start := data[..];
    assert keys.xorFirstByte ==> start == [XorByte(old(data[..])[0], FirstByteKey(adler32, p))] + old(data[..])[1..];
    assert !keys.xorFirstByte ==> start == old(data[..]);
    var index := 0;
    while index < data.Length
      invariant 0 <= index <= data.Length
      invariant forall i :: 0 <= i < index ==> data[i] == XorByte(start[i], key)
      invariant forall i :: index <= i < data.Length ==> data[i] == start[i]
    {
      data[index] := XorByte(data[index], key);
      index := index + 1;
    }
    assert data[..] == XorAll(start, key);
    return Ok(());
  }

  // ---------------------------------------------------------- entry dict

  /** A segment dict: `compressed` is the integer 1 or 0 the packer stores. */
  datatype LegacySegment = LegacySegment(compressed: nat, offset: nat, decompressedSize: nat, compressedSize: nat)

  /** The dict the packer builds for one file. `encryptionName` and `pathHash` stand for
      keys the dict only has when `encrypted` is not 0; they are empty otherwise. */
  datatype LegacyEntry = LegacyEntry(path: Path, adler32: nat, decompressedSize: nat, encryptionName: Bytes,
                                     encrypted: nat, pathHash: Path, compressedSize: nat,
                                     segments: seq<LegacySegment>)

  /** The value `0x0080000000` the packer stores in `encrypted`: bit 31. */
  const LegacyEncrypted: nat := 0x00_8000_0000

  /** The path the `File` entry stores: the hash once an encryption chunk has been written. */
  function StoredPath(e: LegacyEntry): (r: Path) {
    if e.encrypted != 0 then e.pathHash else e.path
  }

  predicate SegmentFits(s: LegacySegment) {
    s.compressed < TWO32 && s.offset < TWO64 && s.decompressedSize < TWO64 && s.compressedSize < TWO64
  }

  predicate SegmentsFit(segs: seq<LegacySegment>) {
    forall i :: 0 <= i < |segs| ==> SegmentFits(segs[i])
  }

  /** Every value `write_file_entry` packs fits its field (otherwise `struct.pack` raises). */
  predicate EntryFits(e: LegacyEntry) {
    && e.adler32 < TWO32 && e.encrypted < TWO32
    && e.decompressedSize < TWO64 && e.compressedSize < TWO64
    && (e.encrypted != 0 ==> |e.path| < TWO16)
    && |StoredPath(e)| < TWO16
    && SegmentsFit(e.segments)
    && 2 * |StoredPath(e)| + 28 * |e.segments| + 82 < TWO64
  }

  // ------------------------------------------------------- write_file_entry

  /** One segment record: the flag as a u32, then offset, decompressed and compressed size. */
  function SegmentRecord(s: LegacySegment): (r: Bytes)
    requires SegmentFits(s)
    ensures |r| == 28
  {
    U32(s.compressed) + U64(s.offset) + U64(s.decompressedSize) + U64(s.compressedSize)
  }

  function SegmentRecords(segs: seq<LegacySegment>): (r: Bytes)
    requires SegmentsFit(segs)
    ensures |r| == 28 * |segs|
  {
    if |segs| == 0 then [] else SegmentRecord(segs[0]) + SegmentRecords(segs[1..])
  }

  /** The encryption chunk: the name, a size of 6 plus the path's byte length, the checksum,
      the path length in code units, the UTF-16LE path and a two-byte terminator that the
      size does not count. */
  function EncryptionChunk(e: LegacyEntry): (r: Bytes)
    requires e.adler32 < TWO32 && |e.path| < TWO16
    ensures |r| == |e.encryptionName| + 16 + 2 * |e.path|
    ensures r[..|e.encryptionName|] == e.encryptionName
    ensures r[|e.encryptionName|..|e.encryptionName| + 8] == U64(|r| - |e.encryptionName| - 8 - 2)
    ensures r[|r| - 2..] == [0, 0]
  {
    var size := 4 + 2 + 2 * |e.path|;
    var tail := U32(e.adler32) + U16(|e.path|) + Utf16(e.path) + U16(0);
    assert U16(0) == [0, 0] by { Pow256Values(); }
    var r := e.encryptionName + (U64(size) + tail);
    assert r[|e.encryptionName|..|e.encryptionName| + 8] == U64(size);
    r
  }

  /** What precedes 'File': the encryption chunk when the entry is encrypted. */
  function EncryptionPart(e: LegacyEntry): (r: Bytes)
    requires EntryFits(e)
  {
    if e.encrypted != 0 then EncryptionChunk(e) else []
  }

  /** The time chunk: size 8 and a zero timestamp. */
  function TimeChunk(): (r: Bytes)
    ensures |r| == 20
  {
    FileEntry.TagTime + U64(8) + U64(0)
  }

  function AdlerChunk(adler32: nat): (r: Bytes)
    requires adler32 < TWO32
    ensures |r| == 16
  {
    FileEntry.TagAdlr + U64(4) + U32(adler32)
  }

  function SegmentsChunk(segs: seq<LegacySegment>): (r: Bytes)
    requires SegmentsFit(segs) && 28 * |segs| < TWO64
    ensures |r| == 12 + 28 * |segs|
  {
    FileEntry.TagSegm + U64(28 * |segs|) + SegmentRecords(segs)
  }

  /** The fixed fields of the info chunk after its size: flags and the two sizes. */
  function InfoFields(e: LegacyEntry): (r: Bytes)
    requires EntryFits(e)
    ensures |r| == 20
  {
    U32(e.encrypted) + U64(e.decompressedSize) + U64(e.compressedSize)
  }

  /** The info chunk: a size of 22 plus the path's byte length, which counts everything
      after the size field, because no terminator follows the path. */
  function InfoChunk(e: LegacyEntry): (r: Bytes)
    requires EntryFits(e)
    ensures |r| == 34 + 2 * |StoredPath(e)|
    ensures r[..4] == FileEntry.TagInfo && r[4..12] == U64(|r| - 12)
  {
    var p := StoredPath(e);
    var r := FileEntry.TagInfo + (U64(2 * |p| + 22) + (InfoFields(e) + U16(|p|) + Utf16(p)));
    assert r[..4] == FileEntry.TagInfo;
    assert r[4..12] == U64(2 * |p| + 22);
    r
  }

  /** Everything after the `File` size field. */
  function FileBody(e: LegacyEntry): (r: Bytes)
    requires EntryFits(e)
    ensures |r| == 82 + 28 * |e.segments| + 2 * |StoredPath(e)|
  {
    TimeChunk() + AdlerChunk(e.adler32) + SegmentsChunk(e.segments) + InfoChunk(e)
  }

  /** What follows 'File': a size of `len(path) + 20 + 28·n + 62`, then the chunks. The
      size is the number of bytes after the field. */
  function FileChunkData(e: LegacyEntry): (r: Bytes)
    requires EntryFits(e)
    ensures |r| == 8 + |FileBody(e)| && r[..8] == U64(|r| - 8) && r[8..] == FileBody(e)
  {
    var size := 2 * |StoredPath(e)| + 20 + |e.segments| * 28 + 62;
    U64(size) + FileBody(e)
  }

  /** `write_file_entry`: the optional encryption chunk, then 'File' and its data. */
  function WriteFileEntry(e: LegacyEntry): (r: Bytes)
    requires EntryFits(e)
    ensures var h := |EncryptionPart(e)|;
            && |r| == h + 12 + 82 + 28 * |e.segments| + 2 * |StoredPath(e)|
            && r[..h] == EncryptionPart(e) && r[h..h + 4] == FileEntry.TagFile
            && r[h + 4..h + 12] == U64(|r| - (h + 12)) && r[h + 4..] == FileChunkData(e)
  {
    var c, d := EncryptionPart(e), FileChunkData(e);
    FramedFile(c, d);
    c + (FileEntry.TagFile + d)
  }

  /** Where the parts of `c + ('File' + d)` lie when `d` opens with its own size field. */
  lemma FramedFile(c: Bytes, d: Bytes)
    requires |d| >= 8 && |d| - 8 < TWO64 && d[..8] == U64(|d| - 8)
    ensures var r, h := c + (FileEntry.TagFile + d), |c|;
            && |r| == h + 4 + |d| && r[..h] == c && r[h..h + 4] == FileEntry.TagFile
            && r[h + 4..h + 12] == U64(|r| - (h + 12)) && r[h + 4..] == d
  {
    var r := c + (FileEntry.TagFile + d);
    assert r[|c|..] == FileEntry.TagFile + d;
    assert r[|c| + 4..] == d;
  }

  // ------------------------------------------- the other format's parsers

  lemma PackEncryptionFields(size: nat, adler32: nat, length: nat)
    requires size < TWO64 && adler32 < TWO32 && length < TWO16
    ensures Fits([size, adler32, length], FileEntry.EncryptionFormat)
    ensures Pack([size, adler32, length], FileEntry.EncryptionFormat) == U64(size) + U32(adler32) + U16(length)
  {
    Pow256Values();
    var v, f := [size, adler32, length], FileEntry.EncryptionFormat;
    assert v[1..] == [adler32, length] && f[1..] == [4, 2];
    assert v[2..] == [length] && f[2..] == [2];
    assert Pack(v[2..], f[2..]) == LE(length, 2) + Pack([], []);
    assert Pack(v[1..], f[1..]) == LE(adler32, 4) + Pack(v[2..], f[2..]);
  }

  /** Packing one more leading field puts its bytes in front. */
  lemma PackCons(x: nat, w: nat, v: seq<nat>, f: Format)
    requires x < Pow256(w) && Fits(v, f)
    ensures Fits([x] + v, [w] + f)
    ensures Pack([x] + v, [w] + f) == LE(x, w) + Pack(v, f)
  {
    assert ([x] + v)[1..] == v && ([w] + f)[1..] == f;
  }

  lemma PackU64(x: nat, v: seq<nat>, f: Format)
    requires x < TWO64 && Fits(v, f)
    ensures Fits([x] + v, [8] + f) && Pack([x] + v, [8] + f) == U64(x) + Pack(v, f)
  {
    Pow256Values();
    PackCons(x, 8, v, f);
  }

  lemma PackU32(x: nat, v: seq<nat>, f: Format)
    requires x < TWO32 && Fits(v, f)
    ensures Fits([x] + v, [4] + f) && Pack([x] + v, [4] + f) == U32(x) + Pack(v, f)
  {
    Pow256Values();
    PackCons(x, 4, v, f);
  }

  lemma PackU16(x: nat, v: seq<nat>, f: Format)
    requires x < TWO16 && Fits(v, f)
    ensures Fits([x] + v, [2] + f) && Pack([x] + v, [2] + f) == U16(x) + Pack(v, f)
  {
    Pow256Values();
    PackCons(x, 2, v, f);
  }

  lemma PackInfoFields(size: nat, flags: nat, ds: nat, cs: nat, length: nat)
    requires size < TWO64 && flags < TWO32 && ds < TWO64 && cs < TWO64 && length < TWO16
    ensures Fits([size, flags, ds, cs, length], FileEntry.InfoFormat)
    ensures Pack([size, flags, ds, cs, length], FileEntry.InfoFormat)
            == U64(size) + (U32(flags) + U64(ds) + U64(cs)) + U16(length)
  {
    assert Fits([], []);
    PackU16(length, [], []);
    PackU64(cs, [length], [2]);
    PackU64(ds, [cs, length], [8, 2]);
    PackU32(flags, [ds, cs, length], [8, 8, 2]);
    PackU64(size, [flags, ds, cs, length], [4, 8, 8, 2]);
    assert [size, flags, ds, cs, length] == [size] + [flags, ds, cs, length];
    assert FileEntry.InfoFormat == [8] + [4, 8, 8, 2];
    Regroup(U64(size), U32(flags), U64(ds), U64(cs), U16(length));
  }

  /** Concatenation regrouped from the nesting of `Pack` to the grouping of the info chunk. */
  lemma Regroup(a: Bytes, b: Bytes, c: Bytes, d: Bytes, e: Bytes)
    ensures a + (b + (c + (d + (e + [])))) == a + (b + c + d) + e
  {
  }

  /** The parser of the package's encryption chunk rejects the legacy one: its size field
      does not count the terminator. */
  lemma StructsRejectLegacyEncryption(e: LegacyEntry, rest: Bytes)
    requires e.adler32 < TWO32 && |e.path| < TWO16
    ensures FileEntry.ParseEncryption(EncryptionChunk(e)[|e.encryptionName|..] + rest, e.encryptionName)
            == Err(ChunkSizeMismatch)
  {
    Pow256Values();
    var values := [6 + 2 * |e.path|, e.adler32, |e.path|];
    var tail := Utf16(e.path) + U16(0);
    assert EncryptionChunk(e)[|e.encryptionName|..] == U64(values[0]) + U32(e.adler32) + U16(|e.path|) + tail;
    PackEncryptionFields(values[0], e.adler32, |e.path|);
    assert EncryptionChunk(e)[|e.encryptionName|..] + rest
           == Pack(values, FileEntry.EncryptionFormat) + (tail + rest);
    ReadStructOf(values, FileEntry.EncryptionFormat, tail + rest);
    ReadExactOf(tail, rest);
  }

  /** The parser of the package's info chunk rejects the legacy one, which lacks the
      terminator that parser reads and counts. */
  lemma StructsRejectLegacyInfo(e: LegacyEntry, rest: Bytes)
    requires EntryFits(e)
    ensures FileEntry.ParseInfo(InfoChunk(e)[4..] + rest).Err?
  {
    Pow256Values();
    var p := StoredPath(e);
    var values := [2 * |p| + 22, e.encrypted, e.decompressedSize, e.compressedSize, |p|];
    assert InfoChunk(e)[4..] == U64(values[0]) + InfoFields(e) + U16(|p|) + Utf16(p);
    PackInfoFields(values[0], e.encrypted, e.decompressedSize, e.compressedSize, |p|);
    assert InfoChunk(e)[4..] + rest == Pack(values, FileEntry.InfoFormat) + (Utf16(p) + rest);
    ReadStructOf(values, FileEntry.InfoFormat, Utf16(p) + rest);
  }

  // ------------------------------------------------------- the pack step

  /** Whether the packer keeps the compressed form: `len(c) < 0.95 * len(d)`. */
  predicate Shrinks(c: Bytes, d: Bytes) {
    20 * |c| < 19 * |d|
  }

  /** The vol0 profiles write 'neko', every other encrypting name 'eliF'. */
  function EncryptionName(encryption: string): (r: Bytes) {
    if encryption in {"neko_vol0", "neko_vol0_steam"} then TagNeko else TagEliF
  }

  /** The data as it goes to the compressor: XORed with the checksum of the plain data
      when the name is not `none`, unchanged otherwise. */
  function Enciphered(data: Bytes, encryption: string): (r: Result<Bytes>)
    ensures encryption == "none" ==> r == Ok(data)
    ensures encryption != "none" ==> r == XorBytes(data, Checksum(data), AsParams(DefineEncryptionParameters(encryption)))
    ensures r.Err? <==> encryption != "none" && DefineEncryptionParameters(encryption).xorFirstByte && |data| == 0
    ensures r.Ok? ==> |r.value| == |data|
  {
    if encryption == "none" then Ok(data)
    else XorBytes(data, Checksum(data), AsParams(DefineEncryptionParameters(encryption)))
  }

  /** The loop body of `pack_folder` for one file, without the file system: the checksum of
      the plain data, the XOR when the name is not `none` (with the keys the name defines,
      so an unknown name still sets the flag and XORs with the keys of `none`), then the
      compressed form when it shrinks the XORed data enough. The file's bytes go to
      `offset`; the result is the dict and the bytes written to the archive. */
  function PackFile(path: Path, data: Bytes, encryption: string, offset: nat,
                    compress: Bytes -> Bytes, pathHash: Path -> Path): (r: Result<(LegacyEntry, Bytes)>)
    ensures r.Err? <==> encryption != "none" && DefineEncryptionParameters(encryption).xorFirstByte && |data| == 0
    ensures r.Err? ==> r.error == IndexOutOfRange
    ensures r.Ok? ==>
              var (e, stored) := r.value;
              var plain := Enciphered(data, encryption).value;
              && e.path == path && e.adler32 == Checksum(data)
              && (e.encrypted != 0 <==> encryption != "none")
              && (e.encrypted != 0 ==> e.encrypted == LegacyEncrypted)
              && e.encryptionName == (if encryption == "none" then [] else EncryptionName(encryption))
              && e.pathHash == (if encryption == "none" then [] else pathHash(path))
              && e.decompressedSize == |data| && e.compressedSize == |stored| <= |data|
              && |e.segments| == 1 && e.segments[0].offset == offset
              && e.segments[0].decompressedSize == |data| && e.segments[0].compressedSize == |stored|
              && |plain| == |data|
              && (e.segments[0].compressed == 1 <==> Shrinks(compress(plain), plain))
              && (e.segments[0].compressed == 1 ==> stored == compress(plain) && 20 * |stored| < 19 * |data|)
              && (e.segments[0].compressed == 0 ==> stored == plain)
  {
    var adler := Checksum(data);
    var prepared := Enciphered(data, encryption);
    if prepared.Err? then Err(prepared.error)
    else
      var encrypted := encryption != "none";
      var plain := prepared.value;
      var c := compress(plain);
      var stored := if Shrinks(c, plain) then c else plain;
      var segment := LegacySegment(if Shrinks(c, plain) then 1 else 0, offset, |data|, |stored|);
      Ok((LegacyEntry(path, adler, |data|,
                      if encrypted then EncryptionName(encryption) else [],
                      if encrypted then LegacyEncrypted else 0,
                      if encrypted then pathHash(path) else [],
                      |stored|, [segment]), stored))
  }

  /** What the packer stores gives the file back: inflate when the segment is compressed,
      then XOR again with the keys of the name and the checksum kept in the dict when the
      file is encrypted. Compressing after the XOR is what makes this order work. */
  lemma PackFileRecovers(path: Path, data: Bytes, encryption: string, offset: nat,
                         compress: Bytes -> Bytes, decompress: Bytes -> Option<Bytes>, pathHash: Path -> Path)
    requires Inverts(compress, decompress)
    requires PackFile(path, data, encryption, offset, compress, pathHash).Ok?
    ensures var (e, stored) := PackFile(path, data, encryption, offset, compress, pathHash).value;
            var inflated := if e.segments[0].compressed == 1 then decompress(stored) else Some(stored);
            && inflated.Some?
            && (e.encrypted == 0 ==> inflated.value == data)
            && (e.encrypted != 0 ==>
                  XorBytes(inflated.value, e.adler32, AsParams(DefineEncryptionParameters(encryption))) == Ok(data))
  {
    var (e, stored) := PackFile(path, data, encryption, offset, compress, pathHash).value;
    var plain := Enciphered(data, encryption).value;
    if e.segments[0].compressed == 1 {
      assert decompress(compress(plain)) == Some(plain);
    }
    if encryption != "none" {
      XorTwice(data, Checksum(data), AsParams(DefineEncryptionParameters(encryption)));
    }
  }

  /** The dict of a packed file can be written when its path and offset fit. */
  lemma PackedFits(path: Path, data: Bytes, encryption: string, offset: nat,
                   compress: Bytes -> Bytes, pathHash: Path -> Path)
    requires PackFile(path, data, encryption, offset, compress, pathHash).Ok?
    requires |data| < TWO64 && offset < TWO64 && |path| < TWO16
    requires encryption != "none" ==> |pathHash(path)| < TWO16
    ensures EntryFits(PackFile(path, data, encryption, offset, compress, pathHash).value.0)
  {
    var e := PackFile(path, data, encryption, offset, compress, pathHash).value.0;
    assert SegmentFits(e.segments[0]);
  }
}
