/** `XP3Writer`: files are appended to the buffer one after the other behind the signature
    and an 8-byte placeholder; packing appends the index and patches the placeholder with
    the offset where the index starts. */
module Writer {
  import opened Bytes
  import opened FileEntry
  import opened FileIndex
  import opened XP3File
  import opened EncryptionParameters
  import Adler32

  // ------------------------------------------------------------ one entry

  /** `encryption_type in ('none', None)`: the file is stored in the clear. */
  predicate NoEncryption(t: Option<string>) { t == None || t == Some("none") }

  /** Whether the compressed form is kept: only when it is strictly shorter. */
  predicate KeepsCompressed(file: Bytes, compress: Bytes -> Bytes) { |compress(file)| < |file| }

  /** The bytes chosen for storage before any encryption. */
  function Packed(file: Bytes, compress: Bytes -> Bytes): (d: Bytes)
    ensures |d| <= |file|
    ensures KeepsCompressed(file, compress) ==> d == compress(file)
    ensures !KeepsCompressed(file, compress) ==> d == file
  {
    if KeepsCompressed(file, compress) then compress(file) else file
  }

  /** `_create_file_entry`: the entry describing `file` stored at `offset`, and the bytes to
      write there. An encrypted entry keeps its real path in the encryption chunk and a
      hash of it in the info chunk; the XOR is applied to the stored, possibly compressed,
      bytes. */
  function CreateFileEntry(path: Path, file: Bytes, offset: nat, encryptionType: Option<string>,
                           timestamp: int, compress: Bytes -> Bytes, pathHash: Path -> Path)
    : (r: Result<(Entry, Bytes)>)
    ensures r.Err? <==> !NoEncryption(encryptionType) &&
                        (Lookup(encryptionType).Err? ||
                         (Lookup(encryptionType).value.xorFirstByte && |Packed(file, compress)| == 0))
    ensures r.Err? ==> r.error == UnknownProfile || r.error == IndexOutOfRange
    ensures r.Ok? ==>
              var (e, d) := r.value;
              && |d| == |Packed(file, compress)| <= |file|
              && e.segm == [Segment(KeepsCompressed(file, compress), offset, |file|, |d|)]
              && e.adlr == Adler(Adler32.Checksum(file))
              && e.time == Time(timestamp)
              && e.FilePath() == path
              && (e.IsEncrypted() <==> !NoEncryption(encryptionType))
              && e.info == Info(e.IsEncrypted(), |file|, |d|, if e.IsEncrypted() then pathHash(path) else path)
              && (e.IsEncrypted() ==>
                    && e.encryption.value == Encryption(Adler32.Checksum(file), path, Lookup(encryptionType).value.tag)
                    && Ok(d) == XorData(Packed(file, compress), Adler32.Checksum(file), encryptionType))
              && (!e.IsEncrypted() ==> d == Packed(file, compress))
  {
    var data := Packed(file, compress);
    var adler := Adler32.Checksum(file);
    var seg := Segment(KeepsCompressed(file, compress), offset, |file|, |data|);
    if NoEncryption(encryptionType) then
      Ok((Entry(Time(timestamp), Adler(adler), [seg], Info(false, |file|, |data|, path), None), data))
    else
      var xored := XorData(data, adler, encryptionType);
      if xored.Err? then Err(xored.error)
      else
        var tag := Lookup(encryptionType).value.tag;
        Ok((Entry(Time(timestamp), Adler(adler), [seg], Info(true, |file|, |data|, pathHash(path)),
                  Some(Encryption(adler, path, tag))), xored.value))
  }

  /** Every entry the writer creates passes the checksum check of `XP3FileEntry`, and it
      encodes and parses back when its timestamp and paths fit their fields. */
  lemma CreatedWellFormed(path: Path, file: Bytes, offset: nat, encryptionType: Option<string>,
                          timestamp: int, compress: Bytes -> Bytes, pathHash: Path -> Path)
    requires CreateFileEntry(path, file, offset, encryptionType, timestamp, compress, pathHash).Ok?
    ensures var e := CreateFileEntry(path, file, offset, encryptionType, timestamp, compress, pathHash).value.0;
            && MakeEntry(e.time, e.adlr, e.segm, e.info, e.encryption) == Ok(e)
            && (Encodable(e) ==> WellFormed(e))
  {
    var e := CreateFileEntry(path, file, offset, encryptionType, timestamp, compress, pathHash).value.0;
    if e.IsEncrypted() {
      ProfileFamilies(encryptionType.value);
    }
  }

  /** Reading a created entry back from a buffer that holds its bytes at its offset gives
      the file, when the entry is in the clear or its data is not compressed. */
  lemma CreatedReadsBack(path: Path, file: Bytes, offset: nat, encryptionType: Option<string>,
                         timestamp: int, compress: Bytes -> Bytes, pathHash: Path -> Path,
                         buffer: Bytes, decompress: Bytes -> Option<Bytes>, raw: bool)
    requires Inverts(compress, decompress)
    requires CreateFileEntry(path, file, offset, encryptionType, timestamp, compress, pathHash).Ok?
    requires var (e, d) := CreateFileEntry(path, file, offset, encryptionType, timestamp, compress, pathHash).value;
             offset + |d| <= |buffer| && buffer[offset..offset + |d|] == d
    requires NoEncryption(encryptionType) || !KeepsCompressed(file, compress)
    ensures var e := CreateFileEntry(path, file, offset, encryptionType, timestamp, compress, pathHash).value.0;
            ReadSpec(BoundFile(e, buffer), encryptionType, raw, decompress) == Ok(file)
  {
    var (e, d) := CreateFileEntry(path, file, offset, encryptionType, timestamp, compress, pathHash).value;
    var s := e.segm[0];
    assert Seek(buffer, offset)[..|d|] == d;
    assert SegmentData(buffer, s, decompress) == (if KeepsCompressed(file, compress) then Ok(file) else Ok(d));
    assert e.segm[1..] == [];
    JoinedEmpty(SegmentData(buffer, s, decompress).value, Segments(buffer, e.segm[1..], decompress));
    if e.IsEncrypted() {
      ReadDecrypts(BoundFile(e, buffer), file, encryptionType.value, raw, decompress);
    }
  }

  /** A toy zlib pair: `[0, 0]` shrinks to `[7]`, anything else grows by a leading `1`. */
  function ToyCompress(x: Bytes): (r: Bytes) {
    if x == [0, 0] then [7] else [1] + x
  }

  function ToyDecompress(y: Bytes): (r: Option<Bytes>) {
    if y == [7] then Some([0, 0]) else if |y| > 0 && y[0] == 1 then Some(y[1..]) else None
  }

  lemma ToyInverts()
    ensures Inverts(ToyCompress, ToyDecompress)
  {
    forall x ensures ToyDecompress(ToyCompress(x)) == Some(x) {
      if x != [0, 0] {
        assert ToyCompress(x)[1..] == x;
      }
    }
  }

  function SamePath(p: Path): (r: Path) { p }

  /** The entry for `[0, 0]` under `neko_vol1`: encrypted, kept compressed, and its one
      stored byte is `7` XOR the key. */
  lemma ToyEntry()
    ensures var c := CreateFileEntry([], [0, 0], 19, Some("neko_vol1"), 0, ToyCompress, SamePath);
            && c.Ok? && c.value.0.IsEncrypted() && c.value.0.segm[0].isCompressed
            && c.value.1 == [XorByte(7, XorKey(Adler32.Checksum([0, 0]), Table["neko_vol1"]))]
  {
    var c := CreateFileEntry([], [0, 0], 19, Some("neko_vol1"), 0, ToyCompress, SamePath);
    assert Packed([0, 0], ToyCompress) == [7];
    assert c.value.1 == XorBytes([7], Adler32.Checksum([0, 0]), Table["neko_vol1"]).value;
  }

  /** The order of the two steps shows: when the data of an encrypted entry is kept
      compressed, the XOR is applied to the compressed bytes, while a read inflates before
      it decrypts. With a compressor that shrinks `[0, 0]` to `[7]`, the stored byte is
      `7` XOR a nonzero key, which does not inflate to the file. */
  lemma CompressedEncryptedDoesNotReadBack(buffer: Bytes)
    requires |buffer| >= 20
    ensures Inverts(ToyCompress, ToyDecompress)
    ensures var c := CreateFileEntry([], [0, 0], 19, Some("neko_vol1"), 0, ToyCompress, SamePath);
            && c.Ok? && c.value.0.IsEncrypted() && c.value.0.segm[0].isCompressed
            && (buffer[19..20] == c.value.1 ==>
                  ReadSpec(BoundFile(c.value.0, buffer), Some("neko_vol1"), false, ToyDecompress) != Ok([0, 0]))
  {
    ToyInverts();
    ToyEntry();
    var c := CreateFileEntry([], [0, 0], 19, Some("neko_vol1"), 0, ToyCompress, SamePath);
    if buffer[19..20] == c.value.1 {
      var e := c.value.0;
      var stored := XorByte(7, XorKey(Adler32.Checksum([0, 0]), Table["neko_vol1"]));
      assert Seek(buffer, 19)[..1] == [stored];
      if stored == 7 {
        XorByteFixed(7, XorKey(Adler32.Checksum([0, 0]), Table["neko_vol1"]));
      }
      assert SegmentData(buffer, e.segm[0], ToyDecompress).Err?;
    }
  }

  // ------------------------------------------------------------ the buffer

  /** `seek(pos)` followed by `write(data)` inside the buffer. */
  function Overwrite(buf: Bytes, pos: nat, data: Bytes): (r: Bytes)
    requires pos + |data| <= |buf|
    ensures |r| == |buf| && r[pos..pos + |data|] == data
    ensures r[..pos] == buf[..pos] && r[pos + |data|..] == buf[pos + |data|..]
  {
    buf[..pos] + data + buf[pos + |data|..]
  }

  predicate Distinct(names: seq<Path>) {
    forall i, j :: 0 <= i < j < |names| ==> names[i] != names[j]
  }

  /** Every entry's path is among the taken names. */
  predicate PathsTaken(es: seq<Entry>, names: seq<Path>) {
    forall i :: 0 <= i < |es| ==> es[i].FilePath() in names
  }

  lemma PathsTakenAppend(es: seq<Entry>, names: seq<Path>, e: Entry, more: seq<Path>)
    requires PathsTaken(es, names) && e.FilePath() in names + more
    ensures PathsTaken(es + [e], names + more)
  {
    forall i | 0 <= i < |es| + 1 ensures (es + [e])[i].FilePath() in names + more {
      if i < |es| {
        assert (es + [e])[i] == es[i];
      }
    }
  }

  lemma PathsTakenMore(es: seq<Entry>, names: seq<Path>, more: seq<Path>)
    requires PathsTaken(es, names)
    ensures PathsTaken(es, names + more)
  {
    forall i | 0 <= i < |es| ensures es[i].FilePath() in names + more {
      assert es[i].FilePath() in names;
    }
  }

  /** No two entries carry the same path. */
  predicate DistinctPaths(es: seq<Entry>) {
    forall i, j :: 0 <= i < j < |es| ==> es[i].FilePath() != es[j].FilePath()
  }

  /** A name not taken yet is the path of no entry. */
  lemma NotTakenIsNew(es: seq<Entry>, names: seq<Path>, p: Path)
    requires PathsTaken(es, names) && p !in names
    ensures forall j :: 0 <= j < |es| ==> es[j].FilePath() != p
  {
  }

  lemma DistinctPathsAppend(es: seq<Entry>, e: Entry)
    requires DistinctPaths(es)
    requires forall j :: 0 <= j < |es| ==> es[j].FilePath() != e.FilePath()
    ensures DistinctPaths(es + [e])
  {
    var es' := es + [e];
    forall i, j | 0 <= i < j < |es'| ensures es'[i].FilePath() != es'[j].FilePath() {
      assert es'[i] == es[i];
      if j < |es| {
        assert es'[j] == es[j];
      }
    }
  }

  lemma DistinctAppend(names: seq<Path>, p: Path)
    requires Distinct(names) && p !in names
    ensures Distinct(names + [p])
  {
  }

  /** `_create_file_entry` returns `e` and `d`. */
  predicate Creates(path: Path, file: Bytes, offset: nat, t: Option<string>, timestamp: int,
                    compress: Bytes -> Bytes, pathHash: Path -> Path, e: Entry, d: Bytes)
  {
    CreateFileEntry(path, file, offset, t, timestamp, compress, pathHash) == Ok((e, d))
  }

  /** Entry `e` was created from `file` with profile `t` at its offset, and the bytes `d`
      written for it sit there in `buffer`, past the header. */
  predicate Written(e: Entry, file: Bytes, t: Option<string>, d: Bytes, buffer: Bytes,
                    compress: Bytes -> Bytes, pathHash: Path -> Path)
  {
    && |e.segm| == 1
    && Creates(e.FilePath(), file, e.segm[0].offset, t, e.time.timestamp, compress, pathHash, e, d)
    && 19 <= e.segm[0].offset && e.segm[0].offset + |d| <= |buffer|
    && buffer[e.segm[0].offset..e.segm[0].offset + |d|] == d
  }

  /** Every entry was written, with its file, profile and bytes at the same position. */
  predicate AllWritten(es: seq<Entry>, files: seq<Bytes>, profiles: seq<Option<string>>, stored: seq<Bytes>,
                       buffer: Bytes, compress: Bytes -> Bytes, pathHash: Path -> Path)
  {
    && |files| == |es| && |profiles| == |es| && |stored| == |es|
    && forall i :: 0 <= i < |es| ==> Written(es[i], files[i], profiles[i], stored[i], buffer, compress, pathHash)
  }

  lemma AllWrittenKept(es: seq<Entry>, files: seq<Bytes>, profiles: seq<Option<string>>, stored: seq<Bytes>,
                       buffer: Bytes, tail: Bytes, header: Bytes, compress: Bytes -> Bytes, pathHash: Path -> Path)
    requires AllWritten(es, files, profiles, stored, buffer, compress, pathHash)
    requires 19 <= |buffer| && |header| == 8
    ensures AllWritten(es, files, profiles, stored, buffer + tail, compress, pathHash)
    ensures AllWritten(es, files, profiles, stored, Overwrite(buffer + tail, 11, header), compress, pathHash)
  {
    forall i | 0 <= i < |es|
      ensures Written(es[i], files[i], profiles[i], stored[i], buffer + tail, compress, pathHash)
      ensures Written(es[i], files[i], profiles[i], stored[i], Overwrite(buffer + tail, 11, header), compress, pathHash)
    {
      WrittenKept(es[i], files[i], profiles[i], stored[i], buffer, tail, header, compress, pathHash);
    }
  }

  /** One more entry, written at the end of the buffer. */
  lemma AllWrittenAppend(es: seq<Entry>, files: seq<Bytes>, profiles: seq<Option<string>>, stored: seq<Bytes>,
                         buffer: Bytes, e: Entry, file: Bytes, t: Option<string>, d: Bytes,
                         compress: Bytes -> Bytes, pathHash: Path -> Path)
    requires AllWritten(es, files, profiles, stored, buffer, compress, pathHash)
    requires 19 <= |buffer|
    requires Creates(e.FilePath(), file, |buffer|, t, e.time.timestamp, compress, pathHash, e, d)
    ensures AllWritten(es + [e], files + [file], profiles + [t], stored + [d], buffer + d, compress, pathHash)
  {
    AllWrittenKept(es, files, profiles, stored, buffer, d, U64(0), compress, pathHash);
    assert (buffer + d)[|buffer|..|buffer| + |d|] == d;
    var es', files', profiles', stored' := es + [e], files + [file], profiles + [t], stored + [d];
    forall i | 0 <= i < |es'|
      ensures Written(es'[i], files'[i], profiles'[i], stored'[i], buffer + d, compress, pathHash)
    {
      if i < |es| {
        assert es'[i] == es[i] && files'[i] == files[i] && profiles'[i] == profiles[i] && stored'[i] == stored[i];
      }
    }
  }

  /** The entries of a writer are well formed once they fit their fields. */
  lemma AllWrittenWellFormed(es: seq<Entry>, files: seq<Bytes>, profiles: seq<Option<string>>, stored: seq<Bytes>,
                             buffer: Bytes, compress: Bytes -> Bytes, pathHash: Path -> Path)
    requires AllWritten(es, files, profiles, stored, buffer, compress, pathHash)
    requires AllEncodable(es)
    ensures AllWellFormed(es)
  {
    forall i | 0 <= i < |es| ensures WellFormed(es[i]) {
      var e := es[i];
      assert Written(e, files[i], profiles[i], stored[i], buffer, compress, pathHash);
      assert Encodable(e);
      CreatedWellFormed(e.FilePath(), files[i], e.segm[0].offset, profiles[i], e.time.timestamp, compress, pathHash);
    }
  }

  /** A written entry reads back from the buffer, timestamp normalised or not, when it is in
      the clear or its data was not compressed. */
  lemma WrittenReadsBack(e: Entry, file: Bytes, t: Option<string>, d: Bytes, buffer: Bytes,
                         compress: Bytes -> Bytes, pathHash: Path -> Path,
                         decompress: Bytes -> Option<Bytes>, raw: bool)
    requires Written(e, file, t, d, buffer, compress, pathHash) && Inverts(compress, decompress)
    requires NoEncryption(t) || !e.segm[0].isCompressed
    ensures ReadSpec(BoundFile(Normalized(e), buffer), t, raw, decompress) == Ok(file)
  {
    CreatedReadsBack(e.FilePath(), file, e.segm[0].offset, t, e.time.timestamp, compress, pathHash,
                     buffer, decompress, raw);
    assert Normalized(e).segm == e.segm && Normalized(e).encryption == e.encryption && Normalized(e).adlr == e.adlr;
  }

  /** Appending to the buffer, or overwriting its header, keeps every entry's bytes. */
  lemma WrittenKept(e: Entry, file: Bytes, t: Option<string>, d: Bytes, buffer: Bytes, tail: Bytes,
                    header: Bytes, compress: Bytes -> Bytes, pathHash: Path -> Path)
    requires Written(e, file, t, d, buffer, compress, pathHash)
    requires |header| == 8
    ensures Written(e, file, t, d, buffer + tail, compress, pathHash)
    ensures Written(e, file, t, d, Overwrite(buffer + tail, 11, header), compress, pathHash)
  {
    var o := e.segm[0].offset;
    assert (buffer + tail)[o..o + |d|] == buffer[o..o + |d|];
    var patched := Overwrite(buffer + tail, 11, header);
    assert patched[o..o + |d|] == patched[19..][o - 19..o - 19 + |d|];
  }

  /** Appending the index without patching the header keeps an unpacked writer valid. */
  lemma IndexAppended(buffer: Bytes, filenames: seq<Path>, es: seq<Entry>, files: seq<Bytes>,
                      profiles: seq<Option<string>>, stored: seq<Bytes>, indexOffset: nat, index: Bytes,
                      compress: Bytes -> Bytes, pathHash: Path -> Path)
    requires WriterState(buffer, filenames, es, files, profiles, stored, false, indexOffset, compress, pathHash)
    ensures WriterState(buffer + index, filenames, es, files, profiles, stored, false, indexOffset,
                        compress, pathHash)
  {
    AllWrittenKept(es, files, profiles, stored, buffer, index, U64(0), compress, pathHash);
    assert (buffer + index)[..11] == buffer[..11] && (buffer + index)[11..19] == buffer[11..19];
  }

  /** Appending the index and writing its offset into the header packs the writer. */
  lemma IndexPatched(buffer: Bytes, filenames: seq<Path>, es: seq<Entry>, files: seq<Bytes>,
                     profiles: seq<Option<string>>, stored: seq<Bytes>, indexOffset: nat, index: Bytes,
                     compress: Bytes -> Bytes, pathHash: Path -> Path)
    requires WriterState(buffer, filenames, es, files, profiles, stored, false, indexOffset, compress, pathHash)
    requires IndexOf(es, compress, index) && |buffer| < TWO64
    ensures WriterState(Overwrite(buffer + index, 11, U64(|buffer|)), filenames, es, files, profiles, stored,
                        true, |buffer|, compress, pathHash)
  {
    AllWrittenKept(es, files, profiles, stored, buffer, index, U64(|buffer|), compress, pathHash);
    PatchedIndexed(es, buffer, index, compress);
  }

  /** `index` is what `XP3FileIndex.to_bytes` writes for `es`. */
  predicate IndexOf(es: seq<Entry>, compress: Bytes -> Bytes, index: Bytes) {
    AllEncodable(es) && IndexBytes(EntriesBytes(es), compress) == Ok(index)
  }

  /** The header holds `offset`, and the index of `es` runs from there to the end. */
  predicate IndexedAt(es: seq<Entry>, buffer: Bytes, offset: nat, compress: Bytes -> Bytes) {
    && 19 <= offset < TWO64 && offset <= |buffer|
    && buffer[11..19] == U64(offset)
    && IndexOf(es, compress, buffer[offset..])
  }

  /** Appending the index and patching the header with where it starts. */
  lemma PatchedIndexed(es: seq<Entry>, buffer: Bytes, index: Bytes, compress: Bytes -> Bytes)
    requires IndexOf(es, compress, index)
    requires 19 <= |buffer| < TWO64
    ensures IndexedAt(es, Overwrite(buffer + index, 11, U64(|buffer|)), |buffer|, compress)
    ensures Overwrite(buffer + index, 11, U64(|buffer|))[..11] == buffer[..11]
  {
    var patched := Overwrite(buffer + index, 11, U64(|buffer|));
    assert patched[|buffer|..] == patched[19..][|buffer| - 19..] == (buffer + index)[|buffer|..] == index;
  }

  /** The archive a writer holds: the signature, the placeholder (or, once packed, the
      index offset), every entry's bytes at its offset, and, once packed, the index at the
      end; the accepted names are distinct and cover every entry's path. */
  predicate WriterState(buffer: Bytes, filenames: seq<Path>, fileEntries: seq<Entry>, files: seq<Bytes>,
                        profiles: seq<Option<string>>, stored: seq<Bytes>, packedUp: bool, indexOffset: nat,
                        compress: Bytes -> Bytes, pathHash: Path -> Path)
  {
    && 19 <= |buffer| && buffer[..11] == XP3Signature
    && Distinct(filenames)
    && PathsTaken(fileEntries, filenames)
    && DistinctPaths(fileEntries)
    && AllWritten(fileEntries, files, profiles, stored, buffer, compress, pathHash)
    && (!packedUp ==> buffer[11..19] == U64(0))
    && (packedUp ==> IndexedAt(fileEntries, buffer, indexOffset, compress))
  }

  class XP3Writer {
    var buffer: Bytes
    var fileEntries: seq<Entry>
    /** Every path `add` accepted, including those whose entry could not be created. */
    var filenames: seq<Path>
    var packedUp: bool
    /** `zlib.compress(_, level=9)`. */
    const compress: Bytes -> Bytes
    /** The MD5 hex digest of the lower-cased path in UTF-16LE. */
    const pathHash: Path -> Path

    /** For each entry: the file as it was added, its profile and the bytes written. */
    ghost var files: seq<Bytes>
    ghost var profiles: seq<Option<string>>
    ghost var stored: seq<Bytes>
    /** Where the index starts, once packed. */
    ghost var indexOffset: nat

    /** The archive so far: the signature, the placeholder (or, once packed, the index
        offset), every entry's bytes at its offset, and, once packed, the index at the end. */
    ghost predicate Valid()
      reads this
    {
      WriterState(buffer, filenames, fileEntries, files, profiles, stored, packedUp, indexOffset,
                  compress, pathHash)
    }

    /** `XP3Writer()` on a fresh buffer: the signature and a zero placeholder. */
    constructor(compress: Bytes -> Bytes, pathHash: Path -> Path)
      ensures Valid()
      ensures buffer == XP3Signature + U64(0)
      ensures fileEntries == [] && filenames == [] && !packedUp
      ensures this.compress == compress && this.pathHash == pathHash
    {
      buffer := XP3Signature + U64(0);
      fileEntries := [];
      filenames := [];
      packedUp := false;
      this.compress := compress;
      this.pathHash := pathHash;
      files, profiles, stored := [], [], [];
      indexOffset := 0;
    }

    /** `add`: a packed archive and a path already taken are refused; otherwise the path
        is taken even when creating the entry then fails, and on success the entry joins
        the list and its bytes are appended at the end of the buffer. */
    method Add(path: Path, file: Bytes, encryptionType: Option<string>, timestamp: int)
      returns (r: Result<()>)
      requires Valid()
      modifies this
      ensures Valid()
      ensures old(packedUp) ==> r == Err(AlreadyPackedUp) && unchanged(this)
      ensures !old(packedUp) && path in old(filenames) ==> r == Err(FileExists) && unchanged(this)
      ensures !old(packedUp) && path !in old(filenames) ==>
                var c := CreateFileEntry(path, file, old(|buffer|), encryptionType, timestamp, compress, pathHash);
                && filenames == old(filenames) + [path] && !packedUp
                && (c.Err? ==> r == Err(c.error) && buffer == old(buffer) && fileEntries == old(fileEntries))
                && (c.Ok? ==> r == Ok(()) && fileEntries == old(fileEntries) + [c.value.0]
                              && buffer == old(buffer) + c.value.1)
    {
      if packedUp {
        return Err(AlreadyPackedUp);
      }
      if path in filenames {
        return Err(FileExists);
      }
      r := AddEntry(path, file, encryptionType, timestamp);
    }

    /** The part of `add` past its two checks. */
    method AddEntry(path: Path, file: Bytes, encryptionType: Option<string>, timestamp: int)
      returns (r: Result<()>)
      requires Valid() && !packedUp && path !in filenames
      modifies this
      ensures Valid()
      ensures var c := CreateFileEntry(path, file, old(|buffer|), encryptionType, timestamp, compress, pathHash);
              && filenames == old(filenames) + [path] && !packedUp
              && (c.Err? ==> r == Err(c.error) && buffer == old(buffer) && fileEntries == old(fileEntries))
              && (c.Ok? ==> r == Ok(()) && fileEntries == old(fileEntries) + [c.value.0]
                            && buffer == old(buffer) + c.value.1)
    {
      NotTakenIsNew(fileEntries, filenames, path);
      PathsTakenMore(fileEntries, filenames, [path]);
      DistinctAppend(filenames, path);
      filenames := filenames + [path];
      var c := CreateFileEntry(path, file, |buffer|, encryptionType, timestamp, compress, pathHash);
      if c.Err? {
        return Err(c.error);
      }
      var (e, d) := c.value;
      AppendEntry(e, d, file, encryptionType);
      return Ok(());
    }

    /** The successful end of `add`: the entry joins the list, its bytes the buffer. */
    method AppendEntry(e: Entry, d: Bytes, ghost file: Bytes, ghost t: Option<string>)
      requires Valid() && !packedUp && e.FilePath() in filenames
      requires forall j :: 0 <= j < |fileEntries| ==> fileEntries[j].FilePath() != e.FilePath()
      requires Creates(e.FilePath(), file, |buffer|, t, e.time.timestamp, compress, pathHash, e, d)
      modifies this
      ensures Valid()
      ensures fileEntries == old(fileEntries) + [e] && buffer == old(buffer) + d
      ensures filenames == old(filenames) && !packedUp
    {
      AllWrittenAppend(fileEntries, files, profiles, stored, buffer, e, file, t, d, compress, pathHash);
      PathsTakenAppend(fileEntries, filenames, e, []);
      DistinctPathsAppend(fileEntries, e);
      assert filenames + [] == filenames;
      assert (buffer + d)[..11] == buffer[..11] && (buffer + d)[11..19] == buffer[11..19];
      fileEntries := fileEntries + [e];
      files, profiles, stored := files + [file], profiles + [t], stored + [d];
      buffer := buffer + d;
    }

    /** `pack_up`: a packed archive is returned as it is; otherwise the index of all entries
        is appended and its offset written into the placeholder. An entry or an index that
        does not fit its fields fails before anything is written; an offset that does not
        fit fails after the index was appended. */
    method PackUp() returns (r: Result<Bytes>)
      requires Valid()
      modifies this
      ensures Valid()
      ensures fileEntries == old(fileEntries) && filenames == old(filenames)
      ensures old(packedUp) ==> r == Ok(buffer) && unchanged(this)
      ensures !old(packedUp) && !AllEncodable(fileEntries) ==> r == Err(ValueOutOfRange) && unchanged(this)
      ensures !old(packedUp) && AllEncodable(fileEntries) ==>
                var index := IndexBytes(EntriesBytes(fileEntries), compress);
                && (index.Err? ==> r == Err(index.error) && unchanged(this))
                && (index.Ok? && old(|buffer|) >= TWO64 ==>
                      r == Err(ValueOutOfRange) && buffer == old(buffer) + index.value && !packedUp)
                && (index.Ok? && old(|buffer|) < TWO64 ==>
                      && r == Ok(buffer) && packedUp
                      && buffer == Overwrite(old(buffer) + index.value, 11, U64(old(|buffer|))))
    {
      if packedUp {
        return Ok(buffer);
      }
      if !AllEncodable(fileEntries) {
        return Err(ValueOutOfRange);
      }
      var index := IndexBytes(EntriesBytes(fileEntries), compress);
      if index.Err? {
        return Err(index.error);
      }
      r := WriteIndex(index.value);
    }

    /** The write of `pack_up`: the index at the end, then its offset in the header. */
    method WriteIndex(index: Bytes) returns (r: Result<Bytes>)
      requires Valid() && !packedUp
      requires IndexOf(fileEntries, compress, index)
      modifies this
      ensures Valid()
      ensures fileEntries == old(fileEntries) && filenames == old(filenames)
      ensures old(|buffer|) >= TWO64 ==> r == Err(ValueOutOfRange) && buffer == old(buffer) + index && !packedUp
      ensures old(|buffer|) < TWO64 ==>
                && r == Ok(buffer) && packedUp
                && buffer == Overwrite(old(buffer) + index, 11, U64(old(|buffer|)))
    {
      var offset := |buffer|;
      if offset >= TWO64 {
        IndexAppended(buffer, filenames, fileEntries, files, profiles, stored, indexOffset, index, compress,
                      pathHash);
        SetBuffer(buffer + index, packedUp, indexOffset);
        return Err(ValueOutOfRange);
      }
      IndexPatched(buffer, filenames, fileEntries, files, profiles, stored, indexOffset, index, compress, pathHash);
      SetBuffer(Overwrite(buffer + index, 11, U64(offset)), true, offset);
      return Ok(buffer);
    }

    /** Replaces the buffer and the packing state; nothing else changes. */
    method SetBuffer(b: Bytes, p: bool, ghost o: nat)
      modifies this
      ensures buffer == b && packedUp == p && indexOffset == o
      ensures fileEntries == old(fileEntries) && filenames == old(filenames)
      ensures files == old(files) && profiles == old(profiles) && stored == old(stored)
    {
      buffer, packedUp, indexOffset := b, p, o;
    }
  }
}
