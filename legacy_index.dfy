/** The steps of the legacy `extract` that find the index: the signature at the header
    offset, the index offset after it, the 0x80 redirect of older archives, the flag and
    sizes of the index record, the size check against the archive's length, and the
    inflation of the index. They are connected to the header and index record that the
    legacy `pack_folder` writes. */
module LegacyIndex {
  import opened Bytes
  import opened LegacyExtract
  import Writer

  /** What the steps up to the size check have read: the offset the size check uses (as
      read when there was no redirect, absolute after one), the position of the flag byte
      that was read last, and the two sizes after it. */
  datatype IndexHead = IndexHead(indexOffset: int, start: nat, compressedSize: nat, decompressedSize: nat)

  const LegacyIndexFlag: byte := 0x80
  const CompressedIndexFlag: byte := 0x01

  /** The flag byte at `start`, then the two sizes; an unknown flag is an error unless
      `silent`, and the sizes are read after it either way. */
  function SizesAt(archive: Bytes, indexOffset: int, start: nat, silent: bool): (r: Result<IndexHead>)
    ensures r.Ok? && !silent ==> ReadAt(archive, start, 1) == [CompressedIndexFlag]
    ensures var flag := ReadAt(archive, start, 1);
            && (flag != [CompressedIndexFlag] && !silent ==> r == Err(AssertionFailed))
            && (flag == [CompressedIndexFlag] || silent ==>
                  && (r.Ok? <==> start + |flag| + 16 <= |archive|)
                  && (r.Err? ==> r.error == Truncated)
                  && (r.Ok? ==> r.value.indexOffset == indexOffset && r.value.start == start))
  {
    var flag := ReadAt(archive, start, 1);
    if flag != [CompressedIndexFlag] && !silent then Err(AssertionFailed)
    else
      var compressedSize :- UIntAt(archive, start + |flag|, 8);
      var decompressedSize :- UIntAt(archive, start + |flag| + 8, 8);
      Ok(IndexHead(indexOffset, start, compressedSize, decompressedSize))
  }

  /** From `archive.seek(header_offset, 0)` to the two index sizes. A negative header
      offset (the signature search found nothing) or a negative seek target is a
      ValueError; a flag of 0x80 skips 8 bytes and moves to the header offset plus the
      offset stored there, once. */
  function ReadIndexHead(archive: Bytes, headerOffset: int, silent: bool): (r: Result<IndexHead>)
    ensures headerOffset < 0 ==> r == Err(NegativeSeek)
    ensures headerOffset >= 0 && ReadAt(archive, headerOffset, 11) != XP3Signature ==> r == Err(AssertionFailed)
    ensures r.Ok? && !silent ==> ReadAt(archive, r.value.start, 1) == [CompressedIndexFlag]
    ensures r.Ok? ==> r.value.start + |ReadAt(archive, r.value.start, 1)| + 16 <= |archive|
  {
    if headerOffset < 0 then Err(NegativeSeek)
    else if ReadAt(archive, headerOffset, 11) != XP3Signature then Err(AssertionFailed)
    else
      var stored :- UIntAt(archive, headerOffset + 11, 8);
      FollowOffset(archive, headerOffset, SignedOf64(stored), silent)
  }

  /** The seek to the header offset plus the stored offset, and the redirect of a 0x80
      flag, which skips 8 bytes and moves to the header offset plus the offset stored
      after them. */
  function FollowOffset(archive: Bytes, headerOffset: nat, indexOffset: int, silent: bool): (r: Result<IndexHead>)
    ensures headerOffset + indexOffset < 0 ==> r == Err(NegativeSeek)
    ensures r.Ok? && !silent ==> ReadAt(archive, r.value.start, 1) == [CompressedIndexFlag]
    ensures r.Ok? ==> r.value.start + |ReadAt(archive, r.value.start, 1)| + 16 <= |archive|
  {
    if headerOffset + indexOffset < 0 then Err(NegativeSeek)
    else
      var p: nat := headerOffset + indexOffset;
      if ReadAt(archive, p, 1) == [LegacyIndexFlag] then
        var redirect :- UIntAt(archive, p + 1 + 8, 8);
        var absolute := headerOffset + SignedOf64(redirect);
        if absolute < 0 then Err(NegativeSeek)
        else SizesAt(archive, absolute, absolute, silent)
      else SizesAt(archive, indexOffset, p, silent)
  }

  /** `zlib.decompress` of the compressed bytes after the sizes, and the length check. */
  function InflateIndex(archive: Bytes, head: IndexHead, decompress: Bytes -> Option<Bytes>): (r: Result<Bytes>)
    ensures r.Ok? ==> |r.value| == head.decompressedSize
    ensures r.Err? ==> r.error == DecompressFailed || r.error == AssertionFailed
  {
    var data := ReadAt(archive, head.start + |ReadAt(archive, head.start, 1)| + 16, head.compressedSize);
    var index := decompress(data);
    if index.None? then Err(DecompressFailed)
    else if |index.value| != head.decompressedSize then Err(AssertionFailed)
    else Ok(index.value)
  }

  /** The index as the script locates it: the size check adds the compressed size and 17
      to the offset read from the header, which is relative to the header offset unless a
      redirect was followed. */
  function LocateIndexAsWritten(archive: Bytes, headerOffset: int, silent: bool,
                                decompress: Bytes -> Option<Bytes>): (r: Result<Bytes>)
  {
    var head :- ReadIndexHead(archive, headerOffset, silent);
    if head.indexOffset + head.compressedSize + 17 != |archive| then Err(AssertionFailed)
    else InflateIndex(archive, head, decompress)
  }

  /** The size check as the layout means it: the record that starts at the flag byte
      (1 + 8 + 8 bytes and the compressed index) ends the archive. */
  function LocateIndex(archive: Bytes, headerOffset: int, silent: bool,
                       decompress: Bytes -> Option<Bytes>): (r: Result<Bytes>)
    ensures r.Ok? ==> ReadIndexHead(archive, headerOffset, silent).Ok?
    ensures r.Ok? ==> var head := ReadIndexHead(archive, headerOffset, silent).value;
                      head.start + head.compressedSize + 17 == |archive| && |r.value| == head.decompressedSize
  {
    var head :- ReadIndexHead(archive, headerOffset, silent);
    if head.start + head.compressedSize + 17 != |archive| then Err(AssertionFailed)
    else InflateIndex(archive, head, decompress)
  }

  // ------------------------------------------------------ what the packer writes

  /** The index record `pack_folder` appends: flag 0x01, the compressed and the raw
      length, the compressed index. */
  function IndexRecord(index: Bytes, compress: Bytes -> Bytes): (r: Bytes)
    requires |index| < TWO64 && |compress(index)| < TWO64
    ensures |r| == 17 + |compress(index)|
  {
    [CompressedIndexFlag] + U64(|compress(index)|) + U64(|index|) + compress(index)
  }

  /** `pack_folder`'s output for the bytes `files` written after the header: the
      signature with `write_string`'s terminator, a zero u64, the files and the index
      record, and then the index offset written over bytes 11 to 18. One zero byte of
      the header survives, so the files start at 20. */
  function PackedArchive(files: Bytes, index: Bytes, compress: Bytes -> Bytes): (r: Bytes)
    requires 20 + |files| < TWO64 && |index| < TWO64 && |compress(index)| < TWO64
    ensures r == XP3Signature + U64(20 + |files|) + [0] + files + IndexRecord(index, compress)
  {
    var tail := [0] + files + IndexRecord(index, compress);
    U64Zero();
    assert XP3Signature + [0] + U64(0) + files + IndexRecord(index, compress) == XP3Signature + U64(0) + tail;
    OverwriteMiddle(XP3Signature, U64(0), tail, U64(20 + |files|));
    Writer.Overwrite(XP3Signature + [0] + U64(0) + files + IndexRecord(index, compress), 11, U64(20 + |files|))
  }

  /** Writing over the middle part of a three-part buffer replaces that part. */
  lemma OverwriteMiddle(a: Bytes, b: Bytes, c: Bytes, d: Bytes)
    requires |b| == |d|
    ensures Writer.Overwrite(a + b + c, |a|, d) == a + d + c
  {
    var r := Writer.Overwrite(a + b + c, |a|, d);
    assert (a + b + c)[..|a|] == a;
    assert (a + b + c)[|a| + |b|..] == c;
    assert r == r[..|a|] + r[|a|..|a| + |d|] + r[|a| + |d|..];
  }

  // ------------------------------------------------------------ lemmas

  /** Where the header fields and the index record of a packed archive lie once `pre`
      precedes it. */
  lemma PartsAt(pre: Bytes, sig: Bytes, offset: Bytes, zero: Bytes, files: Bytes, record: Bytes, a: nat, b: nat, q: nat)
    requires a == |pre| + |sig| && b == a + |offset| && q == b + |zero| + |files|
    ensures var x := pre + (sig + offset + zero + files + record);
            && x[|pre|..a] == sig && x[a..b] == offset && q + |record| == |x| && x[q..] == record
  {
    var x := pre + (sig + offset + zero + files + record);
    assert x[q..] == record by {
      assert forall k :: 0 <= k < |record| ==> x[q..][k] == record[k];
    }
  }

  /** The signature and the offset field at the header offset. */
  lemma HeaderAt(archive: Bytes, h: nat, offset: nat)
    requires offset < TWO64 / 2 && h + 19 <= |archive|
    requires archive[h..h + 11] == XP3Signature && archive[h + 11..h + 11 + 8] == U64(offset)
    ensures ReadAt(archive, h, 11) == XP3Signature
    ensures UIntAt(archive, h + 11, 8) == Ok(offset) && SignedOf64(offset) == offset
  {
    Pow256Values();
    UIntAtOf(archive, h + 11, offset, 8);
  }

  /** An index record that ends the archive at `p`, read by the size and inflate steps. */
  lemma RecordAt(archive: Bytes, p: nat, index: Bytes, compress: Bytes -> Bytes, decompress: Bytes -> Option<Bytes>,
                 indexOffset: int, silent: bool)
    requires |index| < TWO64 && |compress(index)| < TWO64 && Inverts(compress, decompress)
    requires p + 17 + |compress(index)| == |archive| && archive[p..] == IndexRecord(index, compress)
    ensures SizesAt(archive, indexOffset, p, silent).Ok?
    ensures SizesAt(archive, indexOffset, p, silent).value == IndexHead(indexOffset, p, |compress(index)|, |index|)
    ensures InflateIndex(archive, IndexHead(indexOffset, p, |compress(index)|, |index|), decompress).Ok?
    ensures InflateIndex(archive, IndexHead(indexOffset, p, |compress(index)|, |index|), decompress).value == index
    ensures ReadAt(archive, p, 1) == [CompressedIndexFlag]
  {
    Pow256Values();
    var c := compress(index);
    var rec := IndexRecord(index, compress);
    SliceOf(archive, p, rec, 0, 1);
    SliceOf(archive, p, rec, 1, 9);
    SliceOf(archive, p, rec, 9, 17);
    SliceOf(archive, p, rec, 17, |rec|);
    assert rec[1..9] == LE(|c|, 8) && rec[9..17] == LE(|index|, 8) && rec[17..] == c;
    UIntAtOf(archive, p + 1, |c|, 8);
    UIntAtOf(archive, p + 1 + 8, |index|, 8);
    assert ReadAt(archive, p + 1 + 16, |c|) == c;
  }

  /** The steps up to the stored offset. */
  lemma HeadOf(archive: Bytes, h: nat, stored: nat, silent: bool)
    requires ReadAt(archive, h, 11) == XP3Signature && UIntAt(archive, h + 11, 8) == Ok(stored)
    ensures ReadIndexHead(archive, h, silent) == FollowOffset(archive, h, SignedOf64(stored), silent)
  {
  }

  /** An offset that leads to a flag other than 0x80 is where the sizes are read. */
  lemma NoRedirect(archive: Bytes, h: nat, o: int, p: nat, silent: bool)
    requires p == h + o && ReadAt(archive, p, 1) != [LegacyIndexFlag]
    ensures FollowOffset(archive, h, o, silent) == SizesAt(archive, o, p, silent)
  {
  }

  /** A 0x80 flag at the offset is followed once: the sizes are read at the header offset
      plus the offset stored 9 bytes after the flag, and the size check then uses that
      absolute position. */
  lemma Redirect(archive: Bytes, h: nat, o: int, p: nat, redirect: nat, absolute: nat, silent: bool)
    requires p == h + o && ReadAt(archive, p, 1) == [LegacyIndexFlag]
    requires UIntAt(archive, p + 1 + 8, 8) == Ok(redirect) && redirect < TWO64
    requires absolute == h + SignedOf64(redirect)
    ensures FollowOffset(archive, h, o, silent) == SizesAt(archive, absolute, absolute, silent)
  {
  }

  /** Where the offset the size check uses is the flag's position, as after a redirect,
      the size check as written and the corrected one agree. */
  lemma ChecksAgreeWhenAbsolute(archive: Bytes, h: int, silent: bool, decompress: Bytes -> Option<Bytes>)
    requires ReadIndexHead(archive, h, silent).Ok?
    requires ReadIndexHead(archive, h, silent).value.indexOffset == ReadIndexHead(archive, h, silent).value.start
    ensures LocateIndexAsWritten(archive, h, silent, decompress) == LocateIndex(archive, h, silent, decompress)
  {
  }

  /** A header at `h` whose offset field leads to an index record that ends the
      archive. */
  lemma HeadAt(archive: Bytes, h: nat, o: nat, index: Bytes, compress: Bytes -> Bytes,
               decompress: Bytes -> Option<Bytes>, silent: bool)
    requires o < TWO64 / 2 && |index| < TWO64 && |compress(index)| < TWO64 && Inverts(compress, decompress)
    requires h + 19 <= |archive| && archive[h..h + 11] == XP3Signature && archive[h + 11..h + 11 + 8] == U64(o)
    requires h + o + 17 + |compress(index)| == |archive| && archive[h + o..] == IndexRecord(index, compress)
    ensures ReadIndexHead(archive, h, silent).Ok?
    ensures ReadIndexHead(archive, h, silent).value == IndexHead(o, h + o, |compress(index)|, |index|)
    ensures InflateIndex(archive, IndexHead(o, h + o, |compress(index)|, |index|), decompress).Ok?
    ensures InflateIndex(archive, IndexHead(o, h + o, |compress(index)|, |index|), decompress).value == index
  {
    HeaderAt(archive, h, o);
    RecordAt(archive, h + o, index, compress, decompress, o, silent);
    HeadOf(archive, h, o, silent);
    NoRedirect(archive, h, o, h + o, silent);
  }

  /** The two size checks once the head and the inflated index are known. */
  lemma LocateOf(archive: Bytes, h: nat, silent: bool, decompress: Bytes -> Option<Bytes>, head: IndexHead, index: Bytes)
    requires ReadIndexHead(archive, h, silent).Ok? && ReadIndexHead(archive, h, silent).value == head
    requires InflateIndex(archive, head, decompress).Ok? && InflateIndex(archive, head, decompress).value == index
    ensures head.start + head.compressedSize + 17 == |archive| ==>
              LocateIndex(archive, h, silent, decompress).Ok? && LocateIndex(archive, h, silent, decompress).value == index
    ensures head.indexOffset + head.compressedSize + 17 == |archive| ==>
              LocateIndexAsWritten(archive, h, silent, decompress).Ok?
              && LocateIndexAsWritten(archive, h, silent, decompress).value == index
    ensures head.indexOffset + head.compressedSize + 17 != |archive| ==>
              LocateIndexAsWritten(archive, h, silent, decompress) == Err(AssertionFailed)
  {
  }

  /** The legacy packer's archive, after any `prefix`, is found at the header offset
      `|prefix|`: the index comes back. The size check as written adds the offset stored in
      the header, which counts from the header, so it holds only when nothing precedes
      the header. */
  lemma LocateAtHeader(prefix: Bytes, files: Bytes, index: Bytes, compress: Bytes -> Bytes,
                       decompress: Bytes -> Option<Bytes>, silent: bool)
    requires 20 + |files| < TWO64 / 2 && |index| < TWO64 && |compress(index)| < TWO64
    requires Inverts(compress, decompress)
    ensures var archive := prefix + PackedArchive(files, index, compress);
            && LocateIndex(archive, |prefix|, silent, decompress).Ok?
            && LocateIndex(archive, |prefix|, silent, decompress).value == index
            && (|prefix| == 0 ==> LocateIndexAsWritten(archive, |prefix|, silent, decompress) == Ok(index))
            && (|prefix| > 0 ==> LocateIndexAsWritten(archive, |prefix|, silent, decompress) == Err(AssertionFailed))
  {
    var archive := prefix + PackedArchive(files, index, compress);
    var h, o := |prefix|, 20 + |files|;
    PartsAt(prefix, XP3Signature, U64(o), [0], files, IndexRecord(index, compress), h + 11, h + 11 + 8, h + o);
    HeadAt(archive, h, o, index, compress, decompress, silent);
    LocateOf(archive, h, silent, decompress, IndexHead(o, h + o, |compress(index)|, |index|), index);
  }
}
