/** The entry parser of the legacy `xp3.py` extractor: the loop of `read_file_entry` over
    the chunks of a `File` entry and its closing check, connected to what the packing half
    writes. The steps of `extract` that locate the index are in `LegacyIndex`. */
module LegacyExtract {
  import opened Bytes
  import opened XP3File
  import opened LegacyPack
  import FileEntry
  import Writer

  // --------------------------------------------------- reads at a position

  // `extract` works on a file and on a `BytesIO` by seeking to absolute positions, so the
  // reads here take the buffer and a position; a position past the end is allowed and
  // reads nothing there.

  /** `read(n)` at `pos`: up to `n` bytes. */
  function ReadAt(buf: Bytes, pos: nat, n: nat): (r: Bytes)
    ensures |r| <= n
  {
    if pos + n <= |buf| then buf[pos..pos + n] else if pos >= |buf| then [] else buf[pos..]
  }

  /** `struct.unpack` of an unsigned little-endian field of `n` bytes read at `pos`. */
  function UIntAt(buf: Bytes, pos: nat, n: nat): (r: Result<nat>)
    ensures r.Ok? <==> pos + n <= |buf|
    ensures r.Ok? ==> r.value < Pow256(n)
    ensures r.Err? ==> r.error == Truncated
  {
    if pos + n <= |buf| then Ok(FromLE(buf[pos..pos + n])) else Err(Truncated)
  }

  lemma UIntAtOf(buf: Bytes, pos: nat, x: nat, n: nat)
    requires x < Pow256(n) && pos + n <= |buf| && buf[pos..pos + n] == LE(x, n)
    ensures UIntAt(buf, pos, n) == Ok(x)
  {
    FromLEOfLE(x, n);
  }

  /** Part of a slice that matches `s` matches the same part of `s`. */
  lemma SliceOf(buf: Bytes, pos: nat, s: Bytes, i: nat, j: nat)
    requires pos + |s| <= |buf| && buf[pos..pos + |s|] == s && i <= j <= |s|
    ensures buf[pos + i..pos + j] == s[i..j]
  {
    var a, b := buf[pos + i..pos + j], buf[pos..pos + |s|];
    forall k | 0 <= k < |a| ensures a[k] == s[i..j][k] {
      assert a[k] == b[i + k];
    }
  }

  /** A slice that holds `x + y` holds `x` and then `y`. */
  lemma AppendAt(buf: Bytes, q: nat, m: nat, r: nat, x: Bytes, y: Bytes)
    requires m == q + |x| && r == m + |y| && r <= |buf| && buf[q..r] == x + y
    ensures buf[q..m] == x && buf[m..r] == y
  {
    SliceOf(buf, q, x + y, 0, |x|);
    SliceOf(buf, q, x + y, |x|, |x| + |y|);
    assert (x + y)[..|x|] == x;
    assert (x + y)[|x|..] == y;
  }

  // ------------------------------------------------------- the entry dict

  /** A segment dict as `read_file_entry` builds it: the flag made a `bool`, the offset
      moved by the header offset. */
  datatype ReadSegment = ReadSegment(compressed: bool, offset: nat, decompressedSize: nat, compressedSize: nat)

  /** The keys the info chunk sets. */
  datatype InfoRead = InfoRead(encrypted: bool, decompressedSize: nat, compressedSize: nat)

  /** The dict while the loop runs: `adler32` is `None` while it still holds `False`,
      `info` is `None` while the info keys are absent. The path only ever grows. */
  datatype Found = Found(adler32: Option<nat>, path: Path, segments: seq<ReadSegment>, info: Option<InfoRead>)

  const Start: Found := Found(None, [], [], None)

  /** `found['adler32'] = …` */
  function WithAdler(acc: Found, adler32: nat): (r: Found) {
    Found(Some(adler32), acc.path, acc.segments, acc.info)
  }

  /** `found['segments'].extend(…)` */
  function WithSegments(acc: Found, segments: seq<ReadSegment>): (r: Found) {
    Found(acc.adler32, acc.path, acc.segments + segments, acc.info)
  }

  /** The info keys set and the path characters appended. */
  function WithInfoRead(acc: Found, info: InfoRead, chars: Path): (r: Found) {
    Found(acc.adler32, acc.path + chars, acc.segments, Some(info))
  }

  /** The dict `read_file_entry` returns. */
  datatype ReadEntry = ReadEntry(adler32: nat, path: Path, segments: seq<ReadSegment>, encrypted: bool,
                                 decompressedSize: nat, compressedSize: nat)

  // ------------------------------------------------------ one chunk

  function ReadSegmentAt(buf: Bytes, pos: nat, headerOffset: nat): (r: Result<ReadSegment>)
    ensures r.Ok? <==> pos + 28 <= |buf|
  {
    var compressed :- UIntAt(buf, pos, 4);
    var offset :- UIntAt(buf, pos + 4, 8);
    var decompressedSize :- UIntAt(buf, pos + 12, 8);
    var compressedSize :- UIntAt(buf, pos + 20, 8);
    Ok(ReadSegment(compressed != 0, offset + headerOffset, decompressedSize, compressedSize))
  }

  /** `number_of_segments` records, 28 bytes apart. */
  function ReadSegmentsAt(buf: Bytes, pos: nat, n: nat, headerOffset: nat): (r: Result<seq<ReadSegment>>)
    ensures r.Ok? <==> n == 0 || pos + 28 * n <= |buf|
    ensures r.Ok? ==> |r.value| == n
    decreases n
  {
    if n == 0 then Ok([])
    else
      var s :- ReadSegmentAt(buf, pos, headerOffset);
      var rest :- ReadSegmentsAt(buf, pos + 28, n - 1, headerOffset);
      assert 28 * n == 28 + 28 * (n - 1);
      Ok([s] + rest)
  }

  /** `chr(read_u8le(archive))` then `seek(1, 1)`, `n` times: the low byte of each code unit.
      Only the last character's high byte may be missing, since a seek past the end does not fail. */
  function ReadCharsAt(buf: Bytes, pos: nat, n: nat): (r: Result<Path>)
    ensures r.Ok? <==> n == 0 || pos + 2 * n - 1 <= |buf|
    ensures r.Ok? ==> |r.value| == n && forall i :: 0 <= i < n ==> r.value[i] < 0x100
    ensures r.Ok? ==> forall i :: 0 <= i < n ==> r.value[i] as int == buf[pos + 2 * i] as int
    decreases n
  {
    if n == 0 then Ok([])
    else
      var c :- UIntAt(buf, pos, 1);
      Pow256Values();
      assert c == buf[pos] as nat by {
        assert buf[pos..pos + 1] == [buf[pos]];
        assert FromLE([buf[pos]]) == buf[pos] as nat;
      }
      var rest :- ReadCharsAt(buf, pos + 2, n - 1);
      Ok([c as CodeUnit] + rest)
  }

  /** The 'adlr' branch with the cursor after the name: the size must be 4. */
  function AdlerAt(buf: Bytes, p: nat, acc: Found): (r: Result<(Found, nat)>)
    ensures r.Ok? ==> r.value.1 == p + 12
  {
    var size :- UIntAt(buf, p, 8);
    if size != 4 then Err(AssertionFailed)
    else
      var adler32 :- UIntAt(buf, p + 8, 4);
      Ok((WithAdler(acc, adler32), p + 12))
  }

  /** The 'segm' branch: size // 28 records are appended. */
  function SegmentsAt(buf: Bytes, p: nat, headerOffset: nat, acc: Found): (r: Result<(Found, nat)>)
    ensures r.Ok? ==> r.value.1 >= p + 8
  {
    var size :- UIntAt(buf, p, 8);
    var segments :- ReadSegmentsAt(buf, p + 8, size / 28, headerOffset);
    Ok((WithSegments(acc, segments), p + 8 + 28 * (size / 28)))
  }

  /** The 'info' branch: the keys are set, the low bytes of the path's code units are
      appended (`range` of a negative `i16` is empty), and the cursor moves to the end the
      size gives. */
  function InfoAt(buf: Bytes, p: nat, acc: Found): (r: Result<(Found, nat)>)
    ensures r.Ok? ==> r.value.1 >= p + 8
  {
    var size :- UIntAt(buf, p, 8);
    var cursor := p + 8;
    var flags :- UIntAt(buf, cursor, 4);
    var decompressedSize :- UIntAt(buf, cursor + 4, 8);
    var compressedSize :- UIntAt(buf, cursor + 12, 8);
    var length :- UIntAt(buf, cursor + 20, 2);
    Pow256Values();
    var signed := SignedOf16(length);
    var chars :- ReadCharsAt(buf, cursor + 22, if signed < 0 then 0 else signed);
    Ok((WithInfoRead(acc, InfoRead(flags != 0, decompressedSize, compressedSize), chars),
        cursor + size))
  }

  /** The body of the `while` loop of `read_file_entry` once it has read `name` and the
      cursor is at `p`: 'time' is skipped and any other name is passed over. The result is
      the dict and the new position. */
  function ChunkOf(buf: Bytes, p: nat, name: Bytes, headerOffset: nat, acc: Found): (r: Result<(Found, nat)>)
    ensures r.Ok? ==> r.value.1 > p || (name != FileEntry.TagTime && name != FileEntry.TagAdlr
                                        && name != FileEntry.TagSegm && name != FileEntry.TagInfo
                                        && r.value == (acc, p))
  {
    if name == FileEntry.TagTime then Ok((acc, p + 16))
    else if name == FileEntry.TagAdlr then AdlerAt(buf, p, acc)
    else if name == FileEntry.TagSegm then SegmentsAt(buf, p, headerOffset, acc)
    else if name == FileEntry.TagInfo then InfoAt(buf, p, acc)
    else Ok((acc, p))
  }

  /** One pass of the loop at `pos`: read a name of up to four bytes and act on it. */
  function ChunkStep(buf: Bytes, pos: nat, headerOffset: nat, acc: Found): (r: Result<(Found, nat)>)
    ensures r.Ok? ==> r.value.1 > pos || (pos >= |buf| && r.value == (acc, pos))
  {
    var name := ReadAt(buf, pos, 4);
    ChunkOf(buf, pos + |name|, name, headerOffset, acc)
  }

  /** At or past the end of the buffer a pass reads no name and moves nowhere, so the
      source's `while archive.tell() < initial_position + entry_size` never ends when the
      entry's size reaches past the buffer. */
  lemma ChunkStepStallsAtEnd(buf: Bytes, pos: nat, headerOffset: nat, acc: Found)
    requires pos >= |buf|
    ensures ChunkStep(buf, pos, headerOffset, acc) == Ok((acc, pos))
  {
    assert ReadAt(buf, pos, 4) == [];
  }

  /** The loop up to `end`, reporting a pass that does not move (the as-written loop hangs
      there) as a short read. */
  function Chunks(buf: Bytes, pos: nat, end: nat, headerOffset: nat, acc: Found): (r: Result<(Found, nat)>)
    ensures r.Ok? ==> r.value.1 >= end && r.value.1 >= pos
    decreases end - pos, 2
  {
    if pos >= end then Ok((acc, pos)) else Pass(buf, pos, end, headerOffset, acc)
  }

  /** A pass before `end` reads the name, ... */
  function Pass(buf: Bytes, pos: nat, end: nat, headerOffset: nat, acc: Found): (r: Result<(Found, nat)>)
    requires pos < end
    ensures r.Ok? ==> r.value.1 >= end && r.value.1 > pos
    decreases end - pos, 1
  {
    Advance(buf, pos, end, headerOffset, acc, ReadAt(buf, pos, 4))
  }

  /** ... acts on it and, when it moved forward, the loop goes on. */
  function Advance(buf: Bytes, pos: nat, end: nat, headerOffset: nat, acc: Found, name: Bytes): (r: Result<(Found, nat)>)
    requires pos < end
    ensures r.Ok? ==> r.value.1 >= end && r.value.1 > pos
    decreases end - pos, 0
  {
    var step :- ChunkOf(buf, pos + |name|, name, headerOffset, acc);
    if step.1 <= pos then Err(Truncated)
    else Chunks(buf, step.1, end, headerOffset, step.0)
  }

  /** One unfolding of the loop. */
  lemma ChunksStep(buf: Bytes, pos: nat, end: nat, headerOffset: nat, acc: Found)
    requires pos < end
    ensures var step := ChunkStep(buf, pos, headerOffset, acc);
            Chunks(buf, pos, end, headerOffset, acc)
            == if step.Err? then Err(step.error)
               else if step.value.1 <= pos then Err(Truncated)
               else Chunks(buf, step.value.1, end, headerOffset, step.value.0)
  {
    assert Pass(buf, pos, end, headerOffset, acc) == Advance(buf, pos, end, headerOffset, acc, ReadAt(buf, pos, 4));
  }

  /** The closing `assert` as written: the checksum and the compressed size have to be
      non-zero, not only present, and a missing info chunk is a KeyError. */
  function FinishAsWritten(f: Found): (r: Result<ReadEntry>)
    ensures r.Ok? ==> r.value.adler32 != 0 && r.value.compressedSize != 0 && |r.value.segments| > 0
  {
    if f.adler32.None? || f.adler32.value == 0 || |f.segments| == 0 then Err(AssertionFailed)
    else if f.info.None? then Err(MissingChunk)
    else if f.info.value.compressedSize == 0 then Err(AssertionFailed)
    else Ok(ReadEntry(f.adler32.value, f.path, f.segments, f.info.value.encrypted,
                      f.info.value.decompressedSize, f.info.value.compressedSize))
  }

  /** The closing check as its comment states it: the adler, segment and info chunks were
      processed. */
  function Finish(f: Found): (r: Result<ReadEntry>)
    ensures r.Ok? <==> f.adler32.Some? && |f.segments| > 0 && f.info.Some?
    ensures r.Err? ==> r.error == AssertionFailed
    ensures r.Ok? ==> r.value.path == f.path && r.value.segments == f.segments && Some(r.value.adler32) == f.adler32
  {
    if f.adler32.None? || |f.segments| == 0 || f.info.None? then Err(AssertionFailed)
    else Ok(ReadEntry(f.adler32.value, f.path, f.segments, f.info.value.encrypted,
                      f.info.value.decompressedSize, f.info.value.compressedSize))
  }

  /** `read_file_entry` with the cursor on the `File` size field: the chunks up to the
      size field's position plus the size, then the closing check. The result is the dict
      and the position the loop stopped at. */
  function FileEntryAt(buf: Bytes, pos: nat, headerOffset: nat): (r: Result<(ReadEntry, nat)>)
    ensures r.Ok? ==> pos + 8 <= |buf| && r.value.1 >= pos + 8
  {
    var size :- UIntAt(buf, pos, 8);
    var found :- Chunks(buf, pos + 8, pos + size, headerOffset, Start);
    var entry :- Finish(found.0);
    Ok((entry, found.1))
  }

  /** The same with the closing `assert` as written. */
  function FileEntryAtAsWritten(buf: Bytes, pos: nat, headerOffset: nat): (r: Result<(ReadEntry, nat)>)
  {
    var size :- UIntAt(buf, pos, 8);
    var found :- Chunks(buf, pos + 8, pos + size, headerOffset, Start);
    var entry :- FinishAsWritten(found.0);
    Ok((entry, found.1))
  }

  /** `read_file_entry`: the `while` loop over the chunks, updating the dict in `found`. */
  method ReadFileEntry(buf: Bytes, pos: nat, headerOffset: nat) returns (r: Result<(ReadEntry, nat)>)
    ensures r == FileEntryAt(buf, pos, headerOffset)
  {
    var size := UIntAt(buf, pos, 8);
    if size.Err? {
      return Err(size.error);
    }
    var end := pos + size.value;
    var found := Start;
    var cursor := pos + 8;
    while cursor < end
      invariant Chunks(buf, cursor, end, headerOffset, found) == Chunks(buf, pos + 8, end, headerOffset, Start)
      decreases end - cursor
    {
      ChunksStep(buf, cursor, end, headerOffset, found);
      var step := ChunkStep(buf, cursor, headerOffset, found);
      if step.Err? {
        return Err(step.error);
      }
      if step.value.1 <= cursor {
        return Err(Truncated);
      }
      found, cursor := step.value.0, step.value.1;
    }
    var entry := Finish(found);
    if entry.Err? {
      return Err(entry.error);
    }
    return Ok((entry.value, cursor));
  }

  // --------------------------------------------- write_file_entry, then read

  /** Each code unit's low byte, as `chr(read_u8le(archive))` sees it. */
  function LowBytes(p: Path): (r: Path)
    ensures |r| == |p| && forall i :: 0 <= i < |p| ==> r[i] == p[i] % 0x100
  {
    seq(|p|, i requires 0 <= i < |p| => p[i] % 0x100)
  }

  /** A written segment as the reader returns it, moved by the header offset. */
  function DecodedSegment(s: LegacySegment, headerOffset: nat): (r: ReadSegment) {
    ReadSegment(s.compressed != 0, s.offset + headerOffset, s.decompressedSize, s.compressedSize)
  }

  function DecodedSegments(segs: seq<LegacySegment>, headerOffset: nat): (r: seq<ReadSegment>)
    ensures |r| == |segs| && forall i :: 0 <= i < |segs| ==> r[i] == DecodedSegment(segs[i], headerOffset)
  {
    seq(|segs|, i requires 0 <= i < |segs| => DecodedSegment(segs[i], headerOffset))
  }

  /** The dict after the loop has read the chunks `write_file_entry` wrote. */
  function FoundOf(e: LegacyEntry, headerOffset: nat): (r: Found) {
    Found(Some(e.adler32), LowBytes(StoredPath(e)), DecodedSegments(e.segments, headerOffset),
          Some(InfoRead(e.encrypted != 0, e.decompressedSize, e.compressedSize)))
  }

  /** The dict `read_file_entry` returns for what `write_file_entry` wrote. */
  function Decoded(e: LegacyEntry, headerOffset: nat): (r: ReadEntry) {
    ReadEntry(e.adler32, LowBytes(StoredPath(e)), DecodedSegments(e.segments, headerOffset), e.encrypted != 0,
              e.decompressedSize, e.compressedSize)
  }

  lemma SegmentAtOf(buf: Bytes, pos: nat, s: LegacySegment, headerOffset: nat)
    requires SegmentFits(s) && pos + 28 <= |buf| && buf[pos..pos + 28] == SegmentRecord(s)
    ensures ReadSegmentAt(buf, pos, headerOffset) == Ok(DecodedSegment(s, headerOffset))
  {
    Pow256Values();
    AppendAt(buf, pos, pos + 20, pos + 28, U32(s.compressed) + U64(s.offset) + U64(s.decompressedSize),
             U64(s.compressedSize));
    AppendAt(buf, pos, pos + 12, pos + 20, U32(s.compressed) + U64(s.offset), U64(s.decompressedSize));
    AppendAt(buf, pos, pos + 4, pos + 12, U32(s.compressed), U64(s.offset));
    UIntAtOf(buf, pos, s.compressed, 4);
    UIntAtOf(buf, pos + 4, s.offset, 8);
    UIntAtOf(buf, pos + 12, s.decompressedSize, 8);
    UIntAtOf(buf, pos + 20, s.compressedSize, 8);
  }

  lemma {:induction false} SegmentsAtOf(buf: Bytes, pos: nat, segs: seq<LegacySegment>, headerOffset: nat)
    requires SegmentsFit(segs) && pos + 28 * |segs| <= |buf| && buf[pos..pos + 28 * |segs|] == SegmentRecords(segs)
    ensures ReadSegmentsAt(buf, pos, |segs|, headerOffset) == Ok(DecodedSegments(segs, headerOffset))
    decreases |segs|
  {
    if |segs| > 0 {
      assert SegmentsFit(segs[1..]) by {
        forall i | 0 <= i < |segs| - 1 ensures SegmentFits(segs[1..][i]) {
          assert segs[1..][i] == segs[i + 1];
        }
      }
      assert SegmentRecords(segs) == SegmentRecord(segs[0]) + SegmentRecords(segs[1..]);
      assert pos + 28 * |segs| == pos + 28 + 28 * |segs[1..]|;
      AppendAt(buf, pos, pos + 28, pos + 28 * |segs|, SegmentRecord(segs[0]), SegmentRecords(segs[1..]));
      SegmentAtOf(buf, pos, segs[0], headerOffset);
      SegmentsAtOf(buf, pos + 28, segs[1..], headerOffset);
      assert DecodedSegments(segs, headerOffset)
             == [DecodedSegment(segs[0], headerOffset)] + DecodedSegments(segs[1..], headerOffset);
    }
  }

  lemma {:induction false} CharsAtOf(buf: Bytes, pos: nat, p: Path)
    requires pos + 2 * |p| <= |buf| && buf[pos..pos + 2 * |p|] == Utf16(p)
    ensures ReadCharsAt(buf, pos, |p|) == Ok(LowBytes(p))
    decreases |p|
  {
    if |p| > 0 {
      Pow256Values();
      var u := Utf16(p);
      assert u == U16(p[0]) + Utf16(p[1..]);
      assert u[0] as int == p[0] % 0x100;
      SliceOf(buf, pos, u, 0, 1);
      assert buf[pos..pos + 1] == LE(p[0] % 0x100, 1);
      UIntAtOf(buf, pos, p[0] % 0x100, 1);
      SliceOf(buf, pos, u, 2, |u|);
      assert u[2..] == Utf16(p[1..]);
      CharsAtOf(buf, pos + 2, p[1..]);
      assert LowBytes(p) == [(p[0] % 0x100) as CodeUnit] + LowBytes(p[1..]);
    }
  }

  lemma TimeStepAt(buf: Bytes, q: nat, end: nat, headerOffset: nat, acc: Found)
    requires q < end && q + 20 <= |buf| && buf[q..q + 20] == TimeChunk()
    ensures Chunks(buf, q, end, headerOffset, acc) == Chunks(buf, q + 20, end, headerOffset, acc)
  {
    SliceOf(buf, q, TimeChunk(), 0, 4);
    assert TimeChunk()[..4] == FileEntry.TagTime;
    ChunksThrough(buf, q, end, headerOffset, acc, acc, q + 20);
  }

  lemma AdlerStepAt(buf: Bytes, q: nat, end: nat, headerOffset: nat, acc: Found, adler32: nat)
    requires q < end && adler32 < TWO32 && q + 16 <= |buf| && buf[q..q + 16] == AdlerChunk(adler32)
    ensures Chunks(buf, q, end, headerOffset, acc) == Chunks(buf, q + 16, end, headerOffset, WithAdler(acc, adler32))
  {
    var c := AdlerChunk(adler32);
    SliceOf(buf, q, c, 0, 4);
    assert c[..4] == FileEntry.TagAdlr;
    AdlerAtOf(buf, q, acc, adler32);
    ChunksThrough(buf, q, end, headerOffset, acc, WithAdler(acc, adler32), q + 16);
  }

  lemma AdlerAtOf(buf: Bytes, q: nat, acc: Found, adler32: nat)
    requires adler32 < TWO32 && q + 16 <= |buf| && buf[q..q + 16] == AdlerChunk(adler32)
    ensures AdlerAt(buf, q + 4, acc) == Ok((WithAdler(acc, adler32), q + 16))
  {
    Pow256Values();
    var c := AdlerChunk(adler32);
    SliceOf(buf, q, c, 4, 12);
    SliceOf(buf, q, c, 12, 16);
    assert c[4..12] == LE(4, 8) && c[12..16] == LE(adler32, 4);
    UIntAtOf(buf, q + 4, 4, 8);
    UIntAtOf(buf, q + 12, adler32, 4);
  }

  lemma SegmStepAt(buf: Bytes, q: nat, r: nat, end: nat, headerOffset: nat, acc: Found, segs: seq<LegacySegment>)
    requires q < end && SegmentsFit(segs) && 28 * |segs| < TWO64
    requires r == q + 12 + 28 * |segs| && r <= |buf| && buf[q..r] == SegmentsChunk(segs)
    ensures Chunks(buf, q, end, headerOffset, acc)
            == Chunks(buf, r, end, headerOffset, WithSegments(acc, DecodedSegments(segs, headerOffset)))
  {
    var c := SegmentsChunk(segs);
    SliceOf(buf, q, c, 0, 4);
    assert c[..4] == FileEntry.TagSegm;
    SegmentsChunkAtOf(buf, q, headerOffset, acc, segs);
    ChunksThrough(buf, q, end, headerOffset, acc, WithSegments(acc, DecodedSegments(segs, headerOffset)), r);
  }

  lemma SegmentsChunkAtOf(buf: Bytes, q: nat, headerOffset: nat, acc: Found, segs: seq<LegacySegment>)
    requires SegmentsFit(segs) && 28 * |segs| < TWO64
    requires q + 12 + 28 * |segs| <= |buf| && buf[q..q + 12 + 28 * |segs|] == SegmentsChunk(segs)
    ensures SegmentsAt(buf, q + 4, headerOffset, acc)
            == Ok((WithSegments(acc, DecodedSegments(segs, headerOffset)), q + 12 + 28 * |segs|))
  {
    Pow256Values();
    var c := SegmentsChunk(segs);
    SliceOf(buf, q, c, 4, 12);
    assert c[4..12] == LE(28 * |segs|, 8);
    UIntAtOf(buf, q + 4, 28 * |segs|, 8);
    SliceOf(buf, q, c, 12, |c|);
    assert c[12..] == SegmentRecords(segs);
    SegmentsAtOf(buf, q + 12, segs, headerOffset);
    RecordCount(|segs|);
  }

  lemma RecordCount(n: nat)
    ensures 28 * n / 28 == n
  {
  }

  lemma InfoStepAt(buf: Bytes, q: nat, r: nat, end: nat, headerOffset: nat, acc: Found, e: LegacyEntry)
    requires q < end && EntryFits(e) && |StoredPath(e)| < TWO16 / 2
    requires r == q + 34 + 2 * |StoredPath(e)| && r <= |buf| && buf[q..r] == InfoChunk(e)
    ensures Chunks(buf, q, end, headerOffset, acc) == Chunks(buf, r, end, headerOffset, WithInfo(acc, e))
  {
    var c := InfoChunk(e);
    SliceOf(buf, q, c, 0, 4);
    assert c[..4] == FileEntry.TagInfo;
    InfoAtOf(buf, q, acc, e);
    ChunksThrough(buf, q, end, headerOffset, acc, WithInfo(acc, e), r);
  }

  lemma InfoAtOf(buf: Bytes, q: nat, acc: Found, e: LegacyEntry)
    requires EntryFits(e) && |StoredPath(e)| < TWO16 / 2
    requires q + 34 + 2 * |StoredPath(e)| <= |buf| && buf[q..q + 34 + 2 * |StoredPath(e)|] == InfoChunk(e)
    ensures InfoAt(buf, q + 4, acc)
            == Ok((WithInfo(acc, e), q + 34 + 2 * |StoredPath(e)|))
  {
    InfoFieldsAt(buf, q, e);
    assert SignedOf16(|StoredPath(e)|) == |StoredPath(e)|;
  }

  lemma InfoFieldsAt(buf: Bytes, q: nat, e: LegacyEntry)
    requires EntryFits(e) && |StoredPath(e)| < TWO16 / 2
    requires q + 34 + 2 * |StoredPath(e)| <= |buf| && buf[q..q + 34 + 2 * |StoredPath(e)|] == InfoChunk(e)
    ensures UIntAt(buf, q + 4, 8) == Ok(2 * |StoredPath(e)| + 22)
    ensures UIntAt(buf, q + 12, 4) == Ok(e.encrypted)
    ensures UIntAt(buf, q + 16, 8) == Ok(e.decompressedSize)
    ensures UIntAt(buf, q + 24, 8) == Ok(e.compressedSize)
    ensures UIntAt(buf, q + 32, 2) == Ok(|StoredPath(e)|)
    ensures ReadCharsAt(buf, q + 34, |StoredPath(e)|) == Ok(LowBytes(StoredPath(e)))
  {
    Pow256Values();
    var p := StoredPath(e);
    var end := q + 34 + 2 * |p|;
    AppendAt(buf, q, q + 4, end, FileEntry.TagInfo, U64(2 * |p| + 22) + (InfoFields(e) + U16(|p|) + Utf16(p)));
    AppendAt(buf, q + 4, q + 12, end, U64(2 * |p| + 22), InfoFields(e) + U16(|p|) + Utf16(p));
    AppendAt(buf, q + 12, q + 34, end, InfoFields(e) + U16(|p|), Utf16(p));
    AppendAt(buf, q + 12, q + 32, q + 34, InfoFields(e), U16(|p|));
    AppendAt(buf, q + 12, q + 24, q + 32, U32(e.encrypted) + U64(e.decompressedSize), U64(e.compressedSize));
    AppendAt(buf, q + 12, q + 16, q + 24, U32(e.encrypted), U64(e.decompressedSize));
    UIntAtOf(buf, q + 4, 2 * |p| + 22, 8);
    UIntAtOf(buf, q + 12, e.encrypted, 4);
    UIntAtOf(buf, q + 16, e.decompressedSize, 8);
    UIntAtOf(buf, q + 24, e.compressedSize, 8);
    UIntAtOf(buf, q + 32, |p|, 2);
    CharsAtOf(buf, q + 34, p);
  }

  /** A pass that moves forward hands the rest of the loop the new dict and position. */
  lemma ChunksThrough(buf: Bytes, pos: nat, end: nat, headerOffset: nat, acc: Found, f: Found, q: nat)
    requires pos < end && pos < q && ChunkStep(buf, pos, headerOffset, acc) == Ok((f, q))
    ensures Chunks(buf, pos, end, headerOffset, acc) == Chunks(buf, q, end, headerOffset, f)
  {
    ChunksStep(buf, pos, end, headerOffset, acc);
  }

  /** The dict after the info chunk of `e`. */
  function WithInfo(acc: Found, e: LegacyEntry): (r: Found)
  {
    WithInfoRead(acc, InfoRead(e.encrypted != 0, e.decompressedSize, e.compressedSize), LowBytes(StoredPath(e)))
  }

  /** Four passes, the last one reaching `end`, are the whole loop. */
  lemma FourPasses(buf: Bytes, p0: nat, p1: nat, p2: nat, p3: nat, p4: nat, end: nat, headerOffset: nat,
                   a0: Found, a1: Found, a2: Found, a3: Found, a4: Found)
    requires end <= p4
    requires Chunks(buf, p0, end, headerOffset, a0) == Chunks(buf, p1, end, headerOffset, a1)
    requires Chunks(buf, p1, end, headerOffset, a1) == Chunks(buf, p2, end, headerOffset, a2)
    requires Chunks(buf, p2, end, headerOffset, a2) == Chunks(buf, p3, end, headerOffset, a3)
    requires Chunks(buf, p3, end, headerOffset, a3) == Chunks(buf, p4, end, headerOffset, a4)
    ensures Chunks(buf, p0, end, headerOffset, a0) == Ok((a4, p4))
  {
  }

  /** Where four pieces after an 8-byte field lie in the buffer that holds them. */
  lemma PiecesAt(buf: Bytes, pos: nat, w: Bytes, t: Bytes, a: Bytes, sg: Bytes, inf: Bytes, r: nat, s: nat)
    requires |w| >= 8 && w[8..] == t + a + sg + inf && |t| == 20 && |a| == 16
    requires pos + |w| <= |buf| && buf[pos..pos + |w|] == w
    requires r == pos + 44 + |sg| && s == pos + |w|
    ensures s == r + |inf|
    ensures buf[pos + 8..pos + 8 + 20] == t
    ensures buf[pos + 8 + 20..pos + 8 + 20 + 16] == a
    ensures buf[pos + 8 + 20 + 16..r] == sg
    ensures buf[r..s] == inf
  {
    var body := w[8..];
    assert body[..20] == t;
    assert body[20..36] == a;
    assert body[36..36 + |sg|] == sg;
    assert body[36 + |sg|..] == inf;
    SliceOf(buf, pos, w, 8, 28);
    SliceOf(buf, pos, w, 28, 44);
    SliceOf(buf, pos, w, 44, 44 + |sg|);
    SliceOf(buf, pos, w, 44 + |sg|, |w|);
  }

  /** Where the four chunks of a written entry lie in the buffer. */
  lemma BodyLayout(e: LegacyEntry, buf: Bytes, pos: nat, r: nat, s: nat)
    requires EntryFits(e) && |StoredPath(e)| < TWO16 / 2
    requires pos + |FileChunkData(e)| <= |buf| && buf[pos..pos + |FileChunkData(e)|] == FileChunkData(e)
    requires r == pos + 56 + 28 * |e.segments| && s == pos + |FileChunkData(e)|
    ensures s == r + 34 + 2 * |StoredPath(e)|
    ensures buf[pos + 8..pos + 8 + 20] == TimeChunk()
    ensures buf[pos + 8 + 20..pos + 8 + 20 + 16] == AdlerChunk(e.adler32)
    ensures buf[pos + 8 + 20 + 16..r] == SegmentsChunk(e.segments)
    ensures buf[r..s] == InfoChunk(e)
  {
    PiecesAt(buf, pos, FileChunkData(e), TimeChunk(), AdlerChunk(e.adler32), SegmentsChunk(e.segments), InfoChunk(e),
             r, s);
  }

  /** The loop reads the four chunks of a written entry and stops at its end. */
  lemma BodyChunks(e: LegacyEntry, buf: Bytes, pos: nat, r: nat, s: nat, end: nat, headerOffset: nat, acc: Found)
    requires EntryFits(e) && |StoredPath(e)| < TWO16 / 2
    requires r == pos + 56 + 28 * |e.segments| && s == r + 34 + 2 * |StoredPath(e)| && s <= |buf| && end == s - 8
    requires buf[pos + 8..pos + 8 + 20] == TimeChunk()
    requires buf[pos + 8 + 20..pos + 8 + 20 + 16] == AdlerChunk(e.adler32)
    requires buf[pos + 8 + 20 + 16..r] == SegmentsChunk(e.segments)
    requires buf[r..s] == InfoChunk(e)
    ensures Chunks(buf, pos + 8, end, headerOffset, acc) == Ok((AfterInfo(e, headerOffset, acc), s))
  {
    var a := WithAdler(acc, e.adler32);
    var b := WithSegments(a, DecodedSegments(e.segments, headerOffset));
    var p0, p1, p2 := pos + 8, pos + 8 + 20, pos + 8 + 20 + 16;
    assert p0 < p1 < p2 <= r < end < s;
    assert Chunks(buf, p0, end, headerOffset, acc) == Chunks(buf, p1, end, headerOffset, acc) by {
      TimeStepAt(buf, p0, end, headerOffset, acc);
    }
    assert Chunks(buf, p1, end, headerOffset, acc) == Chunks(buf, p2, end, headerOffset, a) by {
      AdlerStepAt(buf, p1, end, headerOffset, acc, e.adler32);
    }
    assert Chunks(buf, p2, end, headerOffset, a) == Chunks(buf, r, end, headerOffset, b) by {
      SegmStepAt(buf, p2, r, end, headerOffset, a, e.segments);
    }
    assert Chunks(buf, r, end, headerOffset, b) == Chunks(buf, s, end, headerOffset, WithInfo(b, e)) by {
      InfoStepAt(buf, r, s, end, headerOffset, b, e);
    }
    FourPasses(buf, p0, p1, p2, r, s, end, headerOffset, acc, acc, a, b, WithInfo(b, e));
  }

  /** The dict after the adler, segment and info chunks of `e`. */
  function AfterInfo(e: LegacyEntry, headerOffset: nat, acc: Found): (r: Found)
  {
    WithInfo(WithSegments(WithAdler(acc, e.adler32), DecodedSegments(e.segments, headerOffset)), e)
  }

  /** The three updates applied to the empty dict give the dict of `e`. */
  lemma FoundFromStart(e: LegacyEntry, headerOffset: nat)
    ensures AfterInfo(e, headerOffset, Start) == FoundOf(e, headerOffset)
  {
    assert [] + LowBytes(StoredPath(e)) == LowBytes(StoredPath(e));
    assert [] + DecodedSegments(e.segments, headerOffset) == DecodedSegments(e.segments, headerOffset);
  }

  /** `read_file_entry` reads back what `write_file_entry` wrote: the checksum, the
      segments with the header offset added, the flag and sizes of the info chunk, and the
      low bytes of the stored path (the hash when encrypted), leaving the cursor at the
      end of the entry. */
  lemma FileEntryRoundTrip(e: LegacyEntry, buf: Bytes, pos: nat, headerOffset: nat)
    requires EntryFits(e) && |StoredPath(e)| < TWO16 / 2 && |e.segments| > 0
    requires pos + |FileChunkData(e)| <= |buf| && buf[pos..pos + |FileChunkData(e)|] == FileChunkData(e)
    ensures FileEntryAt(buf, pos, headerOffset) == Ok((Decoded(e, headerOffset), pos + |FileChunkData(e)|))
  {
    EntryReadsChunks(e, buf, pos, headerOffset);
    FinishFoundOf(e, headerOffset);
    EntryAtOf(buf, pos, headerOffset, |FileChunkData(e)| - 8, FoundOf(e, headerOffset), pos + |FileChunkData(e)|,
              Decoded(e, headerOffset));
  }

  /** The size field and the chunks of a written entry, as the reader sees them. */
  lemma EntryReadsChunks(e: LegacyEntry, buf: Bytes, pos: nat, headerOffset: nat)
    requires EntryFits(e) && |StoredPath(e)| < TWO16 / 2
    requires pos + |FileChunkData(e)| <= |buf| && buf[pos..pos + |FileChunkData(e)|] == FileChunkData(e)
    ensures UIntAt(buf, pos, 8) == Ok(|FileChunkData(e)| - 8)
    ensures Chunks(buf, pos + 8, pos + (|FileChunkData(e)| - 8), headerOffset, Start)
            == Ok((FoundOf(e, headerOffset), pos + |FileChunkData(e)|))
  {
    EntryLayout(e, buf, pos, pos + 56 + 28 * |e.segments|, pos + |FileChunkData(e)|);
    BodyChunks(e, buf, pos, pos + 56 + 28 * |e.segments|, pos + |FileChunkData(e)|,
               pos + (|FileChunkData(e)| - 8), headerOffset, Start);
    FoundFromStart(e, headerOffset);
  }

  /** The size field and the four chunks of a written entry in the buffer. */
  lemma EntryLayout(e: LegacyEntry, buf: Bytes, pos: nat, r: nat, s: nat)
    requires EntryFits(e) && |StoredPath(e)| < TWO16 / 2
    requires pos + |FileChunkData(e)| <= |buf| && buf[pos..pos + |FileChunkData(e)|] == FileChunkData(e)
    requires r == pos + 56 + 28 * |e.segments| && s == pos + |FileChunkData(e)|
    ensures UIntAt(buf, pos, 8) == Ok(|FileChunkData(e)| - 8)
    ensures s == r + 34 + 2 * |StoredPath(e)| && s <= |buf| && pos + (|FileChunkData(e)| - 8) == s - 8
    ensures buf[pos + 8..pos + 8 + 20] == TimeChunk()
    ensures buf[pos + 8 + 20..pos + 8 + 20 + 16] == AdlerChunk(e.adler32)
    ensures buf[pos + 8 + 20 + 16..r] == SegmentsChunk(e.segments)
    ensures buf[r..s] == InfoChunk(e)
  {
    var w := FileChunkData(e);
    Pow256Values();
    SliceOf(buf, pos, w, 0, 8);
    UIntAtOf(buf, pos, |w| - 8, 8);
    BodyLayout(e, buf, pos, r, s);
  }

  /** `read_file_entry` once the size field, the loop and the closing check are known. */
  lemma EntryAtOf(buf: Bytes, pos: nat, headerOffset: nat, size: nat, found: Found, q: nat, entry: ReadEntry)
    requires UIntAt(buf, pos, 8) == Ok(size)
    requires Chunks(buf, pos + 8, pos + size, headerOffset, Start) == Ok((found, q))
    requires Finish(found) == Ok(entry)
    ensures FileEntryAt(buf, pos, headerOffset).Ok?
    ensures FileEntryAt(buf, pos, headerOffset).value.0 == entry
    ensures FileEntryAt(buf, pos, headerOffset).value.1 == q
  {
  }

  /** The same with the closing `assert` as written, when that fails. */
  lemma EntryAtAsWrittenFails(buf: Bytes, pos: nat, headerOffset: nat, size: nat, found: Found, q: nat)
    requires UIntAt(buf, pos, 8) == Ok(size)
    requires Chunks(buf, pos + 8, pos + size, headerOffset, Start) == Ok((found, q))
    requires FinishAsWritten(found).Err?
    ensures FileEntryAtAsWritten(buf, pos, headerOffset).Err?
    ensures FileEntryAtAsWritten(buf, pos, headerOffset).error == FinishAsWritten(found).error
  {
  }

  /** The closing check accepts the dict of a written entry with a segment. */
  lemma FinishFoundOf(e: LegacyEntry, headerOffset: nat)
    requires |e.segments| > 0
    ensures Finish(FoundOf(e, headerOffset)) == Ok(Decoded(e, headerOffset))
  {
  }

  /** The closing `assert` as written rejects the entry the packer writes for an empty
      file: its compressed size is 0. The check as its comment states it accepts it. */
  lemma EmptyFileRejected(path: Path, encryption: string, offset: nat, compress: Bytes -> Bytes,
                          pathHash: Path -> Path, buf: Bytes, pos: nat, headerOffset: nat)
    requires PackFile(path, [], encryption, offset, compress, pathHash).Ok?
    requires var e := PackFile(path, [], encryption, offset, compress, pathHash).value.0;
             && EntryFits(e) && |StoredPath(e)| < TWO16 / 2
             && pos + |FileChunkData(e)| <= |buf| && buf[pos..pos + |FileChunkData(e)|] == FileChunkData(e)
    ensures FileEntryAtAsWritten(buf, pos, headerOffset) == Err(AssertionFailed)
    ensures FileEntryAt(buf, pos, headerOffset).Ok?
  {
    var e := PackFile(path, [], encryption, offset, compress, pathHash).value.0;
    Adler32.ChecksumEmpty();
    ZeroSizeRejected(e, buf, pos, headerOffset);
  }

  /** An entry with a non-zero checksum, a segment and a compressed size of 0 fails the
      closing `assert` as written and passes the check as its comment states it. */
  lemma ZeroSizeRejected(e: LegacyEntry, buf: Bytes, pos: nat, headerOffset: nat)
    requires EntryFits(e) && |StoredPath(e)| < TWO16 / 2 && |e.segments| > 0
    requires e.adler32 != 0 && e.compressedSize == 0
    requires pos + |FileChunkData(e)| <= |buf| && buf[pos..pos + |FileChunkData(e)|] == FileChunkData(e)
    ensures FileEntryAtAsWritten(buf, pos, headerOffset) == Err(AssertionFailed)
    ensures FileEntryAt(buf, pos, headerOffset).Ok?
  {
    EntryReadsChunks(e, buf, pos, headerOffset);
    FinishAsWrittenZero(e, headerOffset);
    EntryAtAsWrittenFails(buf, pos, headerOffset, |FileChunkData(e)| - 8, FoundOf(e, headerOffset),
                          pos + |FileChunkData(e)|);
    FileEntryRoundTrip(e, buf, pos, headerOffset);
  }

  /** The closing `assert` as written on the dict of such an entry. */
  lemma FinishAsWrittenZero(e: LegacyEntry, headerOffset: nat)
    requires e.adler32 != 0 && e.compressedSize == 0 && |e.segments| > 0
    ensures FinishAsWritten(FoundOf(e, headerOffset)) == Err(AssertionFailed)
  {
  }
}
