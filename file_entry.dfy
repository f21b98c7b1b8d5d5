/** One file entry of the archive index and the chunks it is made of.
    Every chunk is a four-byte tag, an eight-byte little-endian length and a
    payload; each has a serialiser (`...Bytes`) and a parser (`Parse...`) that
    starts just after the tag (the caller has matched it) and returns the
    value together with the unread rest of the input. Fixed-size parts are read
    at once and unpacked, as `struct.Struct.unpack(buffer.read(n))` does. */
module FileEntry {
  import opened Bytes

  const TagFile: Bytes := [0x46, 0x69, 0x6C, 0x65]  // 'File'
  const TagTime: Bytes := [0x74, 0x69, 0x6D, 0x65]  // 'time'
  const TagAdlr: Bytes := [0x61, 0x64, 0x6C, 0x72]  // 'adlr'
  const TagSegm: Bytes := [0x73, 0x65, 0x67, 0x6D]  // 'segm'
  const TagInfo: Bytes := [0x69, 0x6E, 0x66, 0x6F]  // 'info'

  /** Bit 31 of the info flag word marks an encrypted entry. */
  const FileIsEncrypted: nat := 0x8000_0000

  /** `flags & FileIsEncrypted`, for the single-bit constant. */
  predicate HasEncryptedFlag(flags: nat) { (flags / FileIsEncrypted) % 2 == 1 }

  datatype Encryption = Encryption(adler32: nat, filePath: Path, name: Bytes)
  datatype Time = Time(timestamp: int)
  datatype Segment = Segment(isCompressed: bool, offset: nat, uncompressedSize: nat, compressedSize: nat)
  datatype Info = Info(isEncrypted: bool, uncompressedSize: nat, compressedSize: nat, filePath: Path)
  datatype Adler = Adler(value: nat)

  datatype Entry = Entry(time: Time, adlr: Adler, segm: seq<Segment>, info: Info,
                         encryption: Option<Encryption>)
  {
    function Adler32(): (r: nat) { adlr.value }

    /** An entry is encrypted when it carries an encryption chunk. */
    predicate IsEncrypted() { encryption.Some? }

    /** The real path: the encryption chunk's when there is one, else the info chunk's. */
    function FilePath(): (r: Path) { if encryption.Some? then encryption.value.filePath else info.filePath }
  }

  /** `XP3FileSegments.uncompressed_size` and `compressed_size`. */
  function UncompressedSize(segs: seq<Segment>): (r: nat) {
    if |segs| == 0 then 0 else UncompressedSize(segs[..|segs| - 1]) + segs[|segs| - 1].uncompressedSize
  }

  function CompressedSize(segs: seq<Segment>): (r: nat) {
    if |segs| == 0 then 0 else CompressedSize(segs[..|segs| - 1]) + segs[|segs| - 1].compressedSize
  }

  lemma {:induction false} SizesAppend(a: seq<Segment>, b: seq<Segment>)
    ensures UncompressedSize(a + b) == UncompressedSize(a) + UncompressedSize(b)
    ensures CompressedSize(a + b) == CompressedSize(a) + CompressedSize(b)
  {
    if |b| > 0 {
      assert (a + b)[..|a + b| - 1] == a + b[..|b| - 1];
      SizesAppend(a, b[..|b| - 1]);
    } else {
      assert a + b == a;
    }
  }

  /** The construction check of `XP3FileEntry`: the two checksums must agree. */
  function MakeEntry(time: Time, adlr: Adler, segm: seq<Segment>, info: Info, enc: Option<Encryption>)
    : (r: Result<Entry>)
    ensures r.Ok? <==> (enc.Some? ==> enc.value.adler32 == adlr.value)
    ensures r.Err? ==> r.error == ChecksumMismatch
    ensures r.Ok? ==> r.value == Entry(time, adlr, segm, info, enc)
  {
    if enc.Some? && adlr.value != enc.value.adler32 then Err(ChecksumMismatch)
    else Ok(Entry(time, adlr, segm, info, enc))
  }


  // --------------------------------------------------------------- structs

  /** '<QIH': chunk size, checksum, path length. */
  const EncryptionFormat: Format := [8, 4, 2]

  /** '<QQ': chunk size, timestamp. */
  const TimeFormat: Format := [8, 8]

  /** '<QI': chunk size, checksum. */
  const AdlerFormat: Format := [8, 4]

  /** '<?xxxQQQ': compressed flag, three pad bytes, offset, uncompressed size, compressed size. */
  const SegmentFormat: Format := [1, 3, 8, 8, 8]

  /** '<QIQQH': chunk size, flags, uncompressed size, compressed size, path length. */
  const InfoFormat: Format := [8, 4, 8, 8, 2]

  // ------------------------------------------------------------ encryption

  predicate EncryptionEncodable(e: Encryption) {
    e.adler32 < TWO32 && |e.filePath| < TWO16
  }

  /** The '<QIH' fields; the size counts everything after itself. */
  function EncryptionHead(e: Encryption): (r: seq<nat>)
    requires EncryptionEncodable(e)
    ensures Fits(r, EncryptionFormat)
  {
    Pow256Values();
    [8 + 2 * |e.filePath|, e.adler32, |e.filePath|]
  }

  /** What follows the name: the '<QIH' fields, the UTF-16LE path, a two-byte terminator. */
  function EncryptionData(e: Encryption): (r: Bytes)
    requires EncryptionEncodable(e)
    ensures |r| == 16 + 2 * |e.filePath|
  {
    Pack(EncryptionHead(e), EncryptionFormat) + (Utf16(e.filePath) + [0, 0])
  }

  function EncryptionBytes(e: Encryption): (r: Bytes)
    requires EncryptionEncodable(e)
    ensures |r| == |e.name| + 16 + 2 * |e.filePath|
  {
    e.name + EncryptionData(e)
  }

  /** Reads the chunk after its name; the cursor must then stand `8 + size` bytes after the
      start of the size field. */
  function ParseEncryption(input: Bytes, name: Bytes): (r: Result<(Encryption, Bytes)>)
    ensures r.Ok? ==> |r.value.1| + 16 <= |input|
    ensures r.Ok? ==> r.value.0.name == name && EncryptionEncodable(r.value.0)
    ensures r.Ok? ==> 8 <= |input| && |input| - |r.value.1| == 8 + FromLE(input[..8])
  {
    var head := ReadStruct(input, EncryptionFormat);
    if head.Err? then Err(head.error)
    else
      var size, adler32, length := head.value.0[0], head.value.0[1], head.value.0[2];
      var path := ReadExact(head.value.1, 2 * length + 2);
      if path.Err? then Err(path.error)
      else if 16 + 2 * length != 8 + size then Err(ChunkSizeMismatch)
      else
        Pow256Values();
        Ok((Encryption(adler32, FromUtf16(path.value.0[..2 * length]), name), path.value.1))
  }

  lemma EncryptionRoundTrip(e: Encryption, rest: Bytes)
    requires EncryptionEncodable(e)
    ensures ParseEncryption(EncryptionData(e) + rest, e.name) == Ok((e, rest))
  {
    var tail := Utf16(e.filePath) + [0, 0];
    assert EncryptionData(e) + rest == Pack(EncryptionHead(e), EncryptionFormat) + (tail + rest);
    ReadStructOf(EncryptionHead(e), EncryptionFormat, tail + rest);
    ReadExactOf(tail, rest);
    assert tail[..2 * |e.filePath|] == Utf16(e.filePath);
    FromUtf16OfUtf16(e.filePath);
  }

  /** An encryption chunk whose size field is not 8 + 2·len(path) is refused, whatever
      else it holds. */
  lemma EncryptionSizeChecked(e: Encryption, size: nat, rest: Bytes)
    requires EncryptionEncodable(e) && size < TWO64 && size != 8 + 2 * |e.filePath|
    ensures ParseEncryption(Pack([size, e.adler32, |e.filePath|], EncryptionFormat)
                            + (Utf16(e.filePath) + [0, 0]) + rest, e.name) == Err(ChunkSizeMismatch)
  {
    Pow256Values();
    var head := [size, e.adler32, |e.filePath|];
    var tail := Utf16(e.filePath) + [0, 0];
    assert Fits(head, EncryptionFormat);
    assert Pack(head, EncryptionFormat) + tail + rest == Pack(head, EncryptionFormat) + (tail + rest);
    ReadStructOf(head, EncryptionFormat, tail + rest);
    ReadExactOf(tail, rest);
  }

  // ------------------------------------------------------------------ time

  predicate TimeEncodable(t: Time) { 0 <= t.timestamp < TWO64 }

  /** The '<QQ' fields: size 8 and the timestamp exactly as given (milliseconds). */
  function TimeData(t: Time): (r: Bytes)
    requires TimeEncodable(t)
    ensures |r| == 16
  {
    Pow256Values();
    Pack([8, t.timestamp as nat], TimeFormat)
  }

  function TimeBytes(t: Time): (r: Bytes)
    requires TimeEncodable(t)
    ensures |r| == 20
  {
    TagTime + TimeData(t)
  }

  /** Reads a time chunk; the stored value is divided by 1000 (seconds). */
  function ParseTime(input: Bytes): (r: Result<(Time, Bytes)>)
    ensures r.Ok? ==> |r.value.1| + 16 == |input|
  {
    var raw := ReadStruct(input, TimeFormat);
    if raw.Err? then Err(raw.error)
    else if raw.value.0[0] != 8 then Err(BadChunkSize)
    else Ok((Time(raw.value.0[1] / 1000), raw.value.1))
  }

  lemma TimeRoundTrip(t: Time, rest: Bytes)
    requires TimeEncodable(t)
    ensures ParseTime(TimeData(t) + rest) == Ok((Time(t.timestamp / 1000), rest))
  {
    Pow256Values();
    ReadStructOf([8, t.timestamp as nat], TimeFormat, rest);
  }

  /** A time chunk whose size field is not 8 is refused. */
  lemma TimeSizeChecked(size: nat, timestamp: nat, rest: Bytes)
    requires size < TWO64 && timestamp < TWO64 && size != 8
    ensures ParseTime(Pack([size, timestamp], TimeFormat) + rest) == Err(BadChunkSize)
  {
    Pow256Values();
    assert Fits([size, timestamp], TimeFormat);
    ReadStructOf([size, timestamp], TimeFormat, rest);
  }

  // ------------------------------------------------------------------ adlr

  /** The '<QI' fields: size 4 and the checksum. */
  function AdlerData(a: Adler): (r: Bytes)
    requires a.value < TWO32
    ensures |r| == 12
  {
    Pow256Values();
    Pack([4, a.value], AdlerFormat)
  }

  function AdlerBytes(a: Adler): (r: Bytes)
    requires a.value < TWO32
    ensures |r| == 16
  {
    TagAdlr + AdlerData(a)
  }

  function ParseAdler(input: Bytes): (r: Result<(Adler, Bytes)>)
    ensures r.Ok? ==> |r.value.1| + 12 == |input| && r.value.0.value < TWO32
  {
    var raw := ReadStruct(input, AdlerFormat);
    if raw.Err? then Err(raw.error)
    else if raw.value.0[0] != 4 then Err(BadChunkSize)
    else
      Pow256Values();
      Ok((Adler(raw.value.0[1]), raw.value.1))
  }

  lemma AdlerRoundTrip(a: Adler, rest: Bytes)
    requires a.value < TWO32
    ensures ParseAdler(AdlerData(a) + rest) == Ok((a, rest))
  {
    Pow256Values();
    ReadStructOf([4, a.value], AdlerFormat, rest);
  }

  /** An adlr chunk whose size field is not 4 is refused. */
  lemma AdlerSizeChecked(size: nat, value: nat, rest: Bytes)
    requires size < TWO64 && value < TWO32 && size != 4
    ensures ParseAdler(Pack([size, value], AdlerFormat) + rest) == Err(BadChunkSize)
  {
    Pow256Values();
    assert Fits([size, value], AdlerFormat);
    ReadStructOf([size, value], AdlerFormat, rest);
  }

  // -------------------------------------------------------------- segments

  predicate SegmentEncodable(s: Segment) {
    s.offset < TWO64 && s.uncompressedSize < TWO64 && s.compressedSize < TWO64
  }

  predicate SegmentsEncodable(segs: seq<Segment>) {
    28 * |segs| < TWO64 && forall i :: 0 <= i < |segs| ==> SegmentEncodable(segs[i])
  }

  /** The '<?xxxQQQ' fields of a segment: the flag as 1 or 0, zero padding. */
  function SegmentFields(s: Segment): (r: seq<nat>)
    requires SegmentEncodable(s)
    ensures Fits(r, SegmentFormat)
  {
    Pow256Values();
    [if s.isCompressed then 1 else 0, 0, s.offset, s.uncompressedSize, s.compressedSize]
  }

  /** `Segment(*struct.unpack('<?xxxQQQ', raw))`: any non-zero flag byte is `True`, the
      padding is ignored. */
  function SegmentOf(f: seq<nat>): (r: Segment)
    requires Fits(f, SegmentFormat)
    ensures SegmentEncodable(r)
  {
    Pow256Values();
    Segment(f[0] != 0, f[2], f[3], f[4])
  }

  lemma SegmentOfFields(s: Segment)
    requires SegmentEncodable(s)
    ensures SegmentOf(SegmentFields(s)) == s
  {
  }

  function SegmentRecords(segs: seq<Segment>): (r: Bytes)
    requires forall i :: 0 <= i < |segs| ==> SegmentEncodable(segs[i])
    ensures |r| == 28 * |segs|
  {
    if |segs| == 0 then [] else Pack(SegmentFields(segs[0]), SegmentFormat) + SegmentRecords(segs[1..])
  }

  /** What follows 'segm': size = 28 · number of segments, then the records. */
  function SegmentsData(segs: seq<Segment>): (r: Bytes)
    requires SegmentsEncodable(segs)
    ensures |r| == 8 + 28 * |segs|
  {
    U64(28 * |segs|) + SegmentRecords(segs)
  }

  function SegmentsBytes(segs: seq<Segment>): (r: Bytes)
    requires SegmentsEncodable(segs)
    ensures |r| == 12 + 28 * |segs|
  {
    TagSegm + SegmentsData(segs)
  }

  function ParseSegmentRecords(input: Bytes, n: nat): (r: Result<(seq<Segment>, Bytes)>)
    ensures r.Ok? <==> 28 * n <= |input|
    ensures r.Ok? ==> |r.value.0| == n && |r.value.1| == |input| - 28 * n
    ensures r.Ok? ==> forall i :: 0 <= i < n ==> SegmentEncodable(r.value.0[i])
    decreases n
  {
    if n == 0 then Ok(([], input))
    else
      var raw := ReadStruct(input, SegmentFormat);
      if raw.Err? then Err(raw.error)
      else
        var rest := ParseSegmentRecords(raw.value.1, n - 1);
        if rest.Err? then Err(rest.error)
        else Ok(([SegmentOf(raw.value.0)] + rest.value.0, rest.value.1))
  }

  /** Reads size // 28 records; a size that is not a multiple of 28 leaves the
      remainder unread and is not reported. */
  function ParseSegments(input: Bytes): (r: Result<(seq<Segment>, Bytes)>)
    ensures r.Ok? ==> |r.value.1| + 8 + 28 * |r.value.0| == |input|
    ensures r.Ok? ==> SegmentsEncodable(r.value.0)
  {
    var size := ReadU64(input);
    if size.Err? then Err(size.error) else ParseSegmentRecords(size.value.1, size.value.0 / 28)
  }

  lemma {:induction false} SegmentRecordsRoundTrip(segs: seq<Segment>, rest: Bytes)
    requires forall i :: 0 <= i < |segs| ==> SegmentEncodable(segs[i])
    ensures ParseSegmentRecords(SegmentRecords(segs) + rest, |segs|) == Ok((segs, rest))
    decreases |segs|
  {
    if |segs| == 0 {
      assert SegmentRecords(segs) + rest == rest;
    } else {
      var tail := SegmentRecords(segs[1..]) + rest;
      assert SegmentRecords(segs) + rest == Pack(SegmentFields(segs[0]), SegmentFormat) + tail;
      ReadStructOf(SegmentFields(segs[0]), SegmentFormat, tail);
      SegmentOfFields(segs[0]);
      SegmentRecordsRoundTrip(segs[1..], rest);
      assert [segs[0]] + segs[1..] == segs;
    }
  }

  lemma SegmentsRoundTrip(segs: seq<Segment>, rest: Bytes)
    requires SegmentsEncodable(segs)
    ensures ParseSegments(SegmentsData(segs) + rest) == Ok((segs, rest))
  {
    assert SegmentsData(segs) + rest == U64(28 * |segs|) + (SegmentRecords(segs) + rest);
    ReadU64Of(28 * |segs|, SegmentRecords(segs) + rest);
    assert 28 * |segs| / 28 == |segs|;
    SegmentRecordsRoundTrip(segs, rest);
  }

  // ------------------------------------------------------------------ info

  predicate InfoEncodable(i: Info) {
    i.uncompressedSize < TWO64 && i.compressedSize < TWO64 && |i.filePath| < TWO16
  }

  /** The '<QIQQH' fields: the size counts everything after itself, the flag word is
      `FileIsEncrypted` or 0. */
  function InfoHead(i: Info): (r: seq<nat>)
    requires InfoEncodable(i)
    ensures Fits(r, InfoFormat)
    ensures HasEncryptedFlag(r[1]) == i.isEncrypted
  {
    Pow256Values();
    [24 + 2 * |i.filePath|, if i.isEncrypted then FileIsEncrypted else 0,
     i.uncompressedSize, i.compressedSize, |i.filePath|]
  }

  /** What follows 'info': the '<QIQQH' fields, the UTF-16LE path, a two-byte terminator. */
  function InfoData(i: Info): (r: Bytes)
    requires InfoEncodable(i)
    ensures |r| == 32 + 2 * |i.filePath|
  {
    Pack(InfoHead(i), InfoFormat) + (Utf16(i.filePath) + [0, 0])
  }

  function InfoBytes(i: Info): (r: Bytes)
    requires InfoEncodable(i)
    ensures |r| == 36 + 2 * |i.filePath|
  {
    TagInfo + InfoData(i)
  }

  /** Reads the chunk after its tag; the cursor must then stand `8 + size` bytes after the
      start of the size field. */
  function ParseInfo(input: Bytes): (r: Result<(Info, Bytes)>)
    ensures r.Ok? ==> |r.value.1| + 32 <= |input|
    ensures r.Ok? ==> InfoEncodable(r.value.0)
    ensures r.Ok? ==> 8 <= |input| && |input| - |r.value.1| == 8 + FromLE(input[..8])
  {
    var head := ReadStruct(input, InfoFormat);
    if head.Err? then Err(head.error)
    else
      var f := head.value.0;
      var path := ReadExact(head.value.1, 2 * f[4] + 2);
      if path.Err? then Err(path.error)
      else if 32 + 2 * f[4] != 8 + f[0] then Err(ChunkSizeMismatch)
      else
        Pow256Values();
        Ok((Info(HasEncryptedFlag(f[1]), f[2], f[3], FromUtf16(path.value.0[..2 * f[4]])), path.value.1))
  }

  lemma InfoRoundTrip(i: Info, rest: Bytes)
    requires InfoEncodable(i)
    ensures ParseInfo(InfoData(i) + rest) == Ok((i, rest))
  {
    var tail := Utf16(i.filePath) + [0, 0];
    assert InfoData(i) + rest == Pack(InfoHead(i), InfoFormat) + (tail + rest);
    ReadStructOf(InfoHead(i), InfoFormat, tail + rest);
    ReadExactOf(tail, rest);
    assert tail[..2 * |i.filePath|] == Utf16(i.filePath);
    FromUtf16OfUtf16(i.filePath);
  }

  /** An info chunk whose size field is not 24 + 2·len(path) is refused. */
  lemma InfoSizeChecked(i: Info, size: nat, rest: Bytes)
    requires InfoEncodable(i) && size < TWO64 && size != 24 + 2 * |i.filePath|
    ensures ParseInfo(Pack([size] + InfoHead(i)[1..], InfoFormat) + (Utf16(i.filePath) + [0, 0]) + rest)
            == Err(ChunkSizeMismatch)
  {
    Pow256Values();
    var head := [size] + InfoHead(i)[1..];
    var tail := Utf16(i.filePath) + [0, 0];
    assert Fits(head, InfoFormat);
    assert Pack(head, InfoFormat) + tail + rest == Pack(head, InfoFormat) + (tail + rest);
    ReadStructOf(head, InfoFormat, tail + rest);
    ReadExactOf(tail, rest);
  }

  // ----------------------------------------------------------------- entry

  predicate Encodable(e: Entry) {
    && TimeEncodable(e.time)
    && e.adlr.value < TWO32
    && SegmentsEncodable(e.segm)
    && InfoEncodable(e.info)
    && (e.encryption.Some? ==> EncryptionEncodable(e.encryption.value))
    && 84 + 28 * |e.segm| + 2 * |e.info.filePath| < TWO64
  }

  /** An entry whose bytes parse back: encodable, built through `MakeEntry`, and with an
      encryption tag that is four bytes long and is not 'File'. */
  predicate WellFormed(e: Entry) {
    && Encodable(e)
    && (e.encryption.Some? ==>
          && e.encryption.value.adler32 == e.adlr.value
          && |e.encryption.value.name| == 4 && e.encryption.value.name != TagFile)
  }

  /** The chunks inside 'File': time, adlr, segm, info. */
  function BodyBytes(e: Entry): (r: Bytes)
    requires Encodable(e)
    ensures |r| == 84 + 28 * |e.segm| + 2 * |e.info.filePath|
  {
    TimeBytes(e.time) + (AdlerBytes(e.adlr) + (SegmentsBytes(e.segm) + InfoBytes(e.info)))
  }

  /** [encryption chunk], 'File'. */
  function HeadBytes(enc: Option<Encryption>): (r: Bytes)
    requires enc.Some? ==> EncryptionEncodable(enc.value)
    ensures |r| >= 4
  {
    if enc.Some? then EncryptionBytes(enc.value) + TagFile else TagFile
  }

  /** [encryption chunk], 'File', the body length, the body. */
  function EntryBytes(e: Entry): (r: Bytes)
    requires Encodable(e)
    ensures |r| >= 12 + |BodyBytes(e)|
  {
    HeadBytes(e.encryption) + (U64(|BodyBytes(e)|) + BodyBytes(e))
  }

  /** What a parse of `EntryBytes(e)` returns: the time chunk comes back in seconds. */
  function Normalized(e: Entry): (r: Entry) {
    e.(time := Time(e.time.timestamp / 1000))
  }

  /** The chunks found so far by the loop of `XP3FileEntry.read_from`. */
  datatype Found = Found(time: Option<Time>, adlr: Option<Adler>, segm: Option<seq<Segment>>,
                         info: Option<Info>)

  const NothingFound := Found(None, None, None, None)

  /** One iteration of the chunk loop, as the source writes it: read a tag (fewer than
      four bytes at the end of the input), parse the chunk it names, and skip
      nothing but the tag when it names none. */
  function ChunkStep(input: Bytes, acc: Found): (r: Result<(Found, Bytes)>)
    ensures r.Ok? ==> |r.value.1| <= |input| && (|input| > 0 ==> |r.value.1| < |input|)
  {
    var (name, rest) := ReadUpTo(input, 4);
    if name == TagTime then
      var c := ParseTime(rest);
      if c.Err? then Err(c.error) else Ok((acc.(time := Some(c.value.0)), c.value.1))
    else if name == TagAdlr then
      var c := ParseAdler(rest);
      if c.Err? then Err(c.error) else Ok((acc.(adlr := Some(c.value.0)), c.value.1))
    else if name == TagSegm then
      var c := ParseSegments(rest);
      if c.Err? then Err(c.error) else Ok((acc.(segm := Some(c.value.0)), c.value.1))
    else if name == TagInfo then
      var c := ParseInfo(rest);
      if c.Err? then Err(c.error) else Ok((acc.(info := Some(c.value.0)), c.value.1))
    else Ok((acc, rest))
  }

  /** At the end of the input a loop iteration reads no tag and consumes nothing: the
      source's `while buffer.tell() < end` then never exits when `end` lies beyond it. */
  lemma ChunkStepStallsAtEnd(acc: Found)
    ensures ChunkStep([], acc) == Ok((acc, []))
  {
  }

  /** The chunk loop. It runs while the cursor is before `end`, that is while more than
      `stop` bytes are left, and ends with Truncated where the source would spin forever. */
  function ParseChunks(input: Bytes, stop: int, acc: Found): (r: Result<(Found, Bytes)>)
    ensures r.Ok? ==> |r.value.1| <= |input| && (|input| > stop ==> |r.value.1| <= stop)
    ensures stop < 0 ==> r.Err?
    decreases |input|
  {
    if |input| <= stop then Ok((acc, input))
    else
      var step := ChunkStep(input, acc);
      if step.Err? then Err(step.error)
      else if |step.value.1| == |input| then Err(Truncated)
      else ParseChunks(step.value.1, stop, step.value.0)
  }

  /** The checks after the loop: adlr, segm and info are mandatory, a missing time
      chunk becomes timestamp 0, and the checksums must agree. */
  function Finish(found: Found, enc: Option<Encryption>): (r: Result<Entry>)
    ensures r.Ok? <==> found.adlr.Some? && found.segm.Some? && found.info.Some?
                       && (enc.Some? ==> enc.value.adler32 == found.adlr.value.value)
    ensures r.Ok? ==> r.value.time == (if found.time.Some? then found.time.value else Time(0))
    ensures r.Ok? ==> r.value.encryption == enc && r.value.segm == found.segm.value
                      && r.value.info == found.info.value && r.value.adlr == found.adlr.value
  {
    if found.adlr.None? || found.segm.None? || found.info.None? then Err(MissingChunk)
    else
      var time := if found.time.Some? then found.time.value else Time(0);
      MakeEntry(time, found.adlr.value, found.segm.value, found.info.value, enc)
  }

  /** The tag (or encryption chunk and tag) in front of the 'File' length: a first tag
      other than 'File', however short, is taken as an encryption chunk's name. */
  function ParseHead(input: Bytes): (r: Result<(Option<Encryption>, Bytes)>)
    ensures r.Ok? ==> |r.value.1| + 4 <= |input|
  {
    var (name, rest) := ReadUpTo(input, 4);
    if name == TagFile then Ok((None, rest))
    else
      var enc := ParseEncryption(rest, name);
      if enc.Err? then Err(enc.error)
      else
        var (tag, after) := ReadUpTo(enc.value.1, 4);
        if tag != TagFile then Err(MissingFileTag) else Ok((Some(enc.value.0), after))
  }

  /** `XP3FileEntry.read_from`: the head, then the sized run of chunks. */
  function ParseEntry(input: Bytes): (r: Result<(Entry, Bytes)>)
    ensures r.Ok? ==> |r.value.1| < |input|
  {
    var head := ParseHead(input);
    if head.Err? then Err(head.error) else ParseBody(head.value.1, head.value.0)
  }

  /** The length field and the chunks it covers. `end` is the position of the length field
      plus the length, 8 bytes short of the end of the chunks: the loop stops once no more
      than `|input| - size` bytes are left. */
  function ParseBody(input: Bytes, enc: Option<Encryption>): (r: Result<(Entry, Bytes)>)
    ensures r.Ok? ==> |r.value.1| + 8 <= |input|
  {
    var size := ReadU64(input);
    if size.Err? then Err(size.error)
    else
      var chunks := ParseChunks(size.value.1, |input| - size.value.0, NothingFound);
      if chunks.Err? then Err(chunks.error)
      else
        var e := Finish(chunks.value.0, enc);
        if e.Err? then Err(e.error) else Ok((e.value, chunks.value.1))
  }

  /** The chunk loop of `XP3FileEntry.read_from` as the source's `while` loop. */
  method ReadChunks(input: Bytes, stop: int) returns (r: Result<(Found, Bytes)>)
    ensures r == ParseChunks(input, stop, NothingFound)
  {
    var found := NothingFound;
    var cursor := input;
    while |cursor| > stop
      invariant ParseChunks(input, stop, NothingFound) == ParseChunks(cursor, stop, found)
      decreases |cursor|
    {
      // one pass of the dispatch on the tag
      var step := ChunkStep(cursor, found);
      if step.Err? {
        return Err(step.error);
      }
      if |step.value.1| == |cursor| {
        // the source re-reads an empty tag here forever
        return Err(Truncated);
      }
      found, cursor := step.value.0, step.value.1;
    }
    return Ok((found, cursor));
  }

  /** `XP3FileEntry.read_from` with the loop above. */
  method ReadEntry(input: Bytes) returns (r: Result<(Entry, Bytes)>)
    ensures r == ParseEntry(input)
  {
    var head := ParseHead(input);
    if head.Err? {
      return Err(head.error);
    }
    r := ReadBody(head.value.1, head.value.0);
  }

  method ReadBody(input: Bytes, enc: Option<Encryption>) returns (r: Result<(Entry, Bytes)>)
    ensures r == ParseBody(input, enc)
  {
    var size := ReadU64(input);
    if size.Err? {
      return Err(size.error);
    }
    var chunks := ReadChunks(size.value.1, |input| - size.value.0);
    if chunks.Err? {
      return Err(chunks.error);
    }
    var e := Finish(chunks.value.0, enc);
    if e.Err? {
      return Err(e.error);
    }
    return Ok((e.value, chunks.value.1));
  }

  // ------------------------------------------------------------ round trip

  /** One pass of the chunk loop over each kind of chunk `BodyBytes` writes. */
  lemma StepTime(t: Time, rest: Bytes, acc: Found)
    requires TimeEncodable(t)
    ensures ChunkStep(TimeBytes(t) + rest, acc) == Ok((acc.(time := Some(Time(t.timestamp / 1000))), rest))
  {
    assert TimeBytes(t) + rest == TagTime + (TimeData(t) + rest);
    ReadUpToOf(TagTime, TimeData(t) + rest);
    TimeRoundTrip(t, rest);
  }

  lemma StepAdler(a: Adler, rest: Bytes, acc: Found)
    requires a.value < TWO32
    ensures ChunkStep(AdlerBytes(a) + rest, acc) == Ok((acc.(adlr := Some(a)), rest))
  {
    assert AdlerBytes(a) + rest == TagAdlr + (AdlerData(a) + rest);
    ReadUpToOf(TagAdlr, AdlerData(a) + rest);
    AdlerRoundTrip(a, rest);
  }

  lemma StepSegments(segs: seq<Segment>, rest: Bytes, acc: Found)
    requires SegmentsEncodable(segs)
    ensures ChunkStep(SegmentsBytes(segs) + rest, acc) == Ok((acc.(segm := Some(segs)), rest))
  {
    assert SegmentsBytes(segs) + rest == TagSegm + (SegmentsData(segs) + rest);
    ReadUpToOf(TagSegm, SegmentsData(segs) + rest);
    SegmentsRoundTrip(segs, rest);
  }

  lemma StepInfo(i: Info, rest: Bytes, acc: Found)
    requires InfoEncodable(i)
    ensures ChunkStep(InfoBytes(i) + rest, acc) == Ok((acc.(info := Some(i)), rest))
  {
    assert InfoBytes(i) + rest == TagInfo + (InfoData(i) + rest);
    ReadUpToOf(TagInfo, InfoData(i) + rest);
    InfoRoundTrip(i, rest);
  }

  /** Four passes of the chunk loop that each consume something, the last one reaching `stop`. */
  lemma ChunksOfSteps(i0: Bytes, i1: Bytes, i2: Bytes, i3: Bytes, i4: Bytes, stop: int,
                      f0: Found, f1: Found, f2: Found, f3: Found, f4: Found)
    requires |i4| <= stop < |i3| < |i2| < |i1| < |i0|
    requires ChunkStep(i0, f0) == Ok((f1, i1)) && ChunkStep(i1, f1) == Ok((f2, i2))
    requires ChunkStep(i2, f2) == Ok((f3, i3)) && ChunkStep(i3, f3) == Ok((f4, i4))
    ensures ParseChunks(i0, stop, f0) == Ok((f4, i4))
  {
    assert ParseChunks(i3, stop, f3) == Ok((f4, i4));
    assert ParseChunks(i2, stop, f2) == Ok((f4, i4));
    assert ParseChunks(i1, stop, f1) == Ok((f4, i4));
  }

  /** The chunk loop reads back the four chunks of `BodyBytes` when it stops right after them. */
  lemma ChunksRoundTrip(e: Entry, rest: Bytes, stop: int)
    requires Encodable(e) && |rest| <= stop < |InfoBytes(e.info)| + |rest|
    ensures ParseChunks(BodyBytes(e) + rest, stop, NothingFound)
         == Ok((Found(Some(Time(e.time.timestamp / 1000)), Some(e.adlr), Some(e.segm), Some(e.info)), rest))
  {
    var i3 := InfoBytes(e.info) + rest;
    var i2 := SegmentsBytes(e.segm) + i3;
    var i1 := AdlerBytes(e.adlr) + i2;
    assert BodyBytes(e) + rest == TimeBytes(e.time) + i1;
    var f1 := NothingFound.(time := Some(Time(e.time.timestamp / 1000)));
    var f2 := f1.(adlr := Some(e.adlr));
    var f3 := f2.(segm := Some(e.segm));
    StepTime(e.time, i1, NothingFound);
    StepAdler(e.adlr, i2, f1);
    StepSegments(e.segm, i3, f2);
    StepInfo(e.info, rest, f3);
    ChunksOfSteps(TimeBytes(e.time) + i1, i1, i2, i3, rest, stop, NothingFound, f1, f2, f3,
                  f3.(info := Some(e.info)));
  }

  /** An encryption chunk whose name is four bytes and not 'File' reads back, as does 'File'
      alone. */
  lemma HeadRoundTrip(enc: Option<Encryption>, after: Bytes)
    requires enc.Some? ==> EncryptionEncodable(enc.value)
    requires enc.Some? ==> |enc.value.name| == 4 && enc.value.name != TagFile
    ensures ParseHead(HeadBytes(enc) + after) == Ok((enc, after))
  {
    if enc.Some? {
      var e := enc.value;
      assert HeadBytes(enc) + after == e.name + (EncryptionData(e) + (TagFile + after));
      ReadUpToOf(e.name, EncryptionData(e) + (TagFile + after));
      EncryptionRoundTrip(e, TagFile + after);
    }
    ReadUpToOf(TagFile, after);
  }

  /** An encryption chunk followed by a four-byte tag other than 'File' is refused. */
  lemma HeadNeedsFileTag(e: Encryption, tag: Bytes, after: Bytes)
    requires EncryptionEncodable(e) && |e.name| == 4 && e.name != TagFile
    requires |tag| == 4 && tag != TagFile
    ensures ParseHead(e.name + EncryptionData(e) + tag + after) == Err(MissingFileTag)
  {
    var input := e.name + EncryptionData(e) + tag + after;
    assert input == e.name + (EncryptionData(e) + (tag + after));
    ReadUpToOf(e.name, EncryptionData(e) + (tag + after));
    EncryptionRoundTrip(e, tag + after);
    ReadUpToOf(tag, after);
    assert ReadUpTo(input, 4) == (e.name, EncryptionData(e) + (tag + after));
    assert ParseEncryption(EncryptionData(e) + (tag + after), e.name) == Ok((e, tag + after));
    assert ReadUpTo(tag + after, 4) == (tag, after);
  }

  /** The length field and the chunks of `BodyBytes` read back. */
  lemma BodyRoundTrip(e: Entry, rest: Bytes)
    requires WellFormed(e)
    ensures ParseBody(U64(|BodyBytes(e)|) + (BodyBytes(e) + rest), e.encryption) == Ok((Normalized(e), rest))
  {
    ReadU64Of(|BodyBytes(e)|, BodyBytes(e) + rest);
    ChunksRoundTrip(e, rest, 8 + |rest|);
  }

  /** Parsing what `EntryBytes` wrote gives the entry back, the timestamp in seconds,
      and leaves the rest of the input unread. */
  lemma EntryRoundTrip(e: Entry, rest: Bytes)
    requires WellFormed(e)
    ensures ParseEntry(EntryBytes(e) + rest) == Ok((Normalized(e), rest))
  {
    var tail := U64(|BodyBytes(e)|) + (BodyBytes(e) + rest);
    assert EntryBytes(e) + rest == HeadBytes(e.encryption) + tail;
    HeadRoundTrip(e.encryption, tail);
    BodyRoundTrip(e, rest);
  }
}
