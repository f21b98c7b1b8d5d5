/** `XP3Reader`: an archive checked for its signature, its index read from the offset in
    the header, and its files handed out by position or by path. The write-then-read
    theorems at the end connect it to the writer. */
module Reader {
  import opened Bytes
  import opened FileEntry
  import opened FileIndex
  import opened XP3File
  import opened Writer

  /** An opened archive: its index (which holds the buffer). */
  datatype XP3Reader = XP3Reader(index: Index)

  /** `XP3Reader(buffer)`: the first 11 bytes must be the signature, and the index is then
      read with the cursor just past it. */
  function Open(buffer: Bytes, decompress: Bytes -> Option<Bytes>): (r: Result<XP3Reader>)
    ensures (|buffer| < 11 || buffer[..11] != XP3Signature) ==> r == Err(NotXP3)
    ensures 11 <= |buffer| && buffer[..11] == XP3Signature ==>
              && (r.Ok? <==> ReadFrom(buffer, 11, decompress).Ok?)
              && (r.Ok? ==> r.value.index == ReadFrom(buffer, 11, decompress).value)
              && (r.Err? ==> r.error == ReadFrom(buffer, 11, decompress).error)
    ensures r.Ok? ==> r.value.index.buffer == buffer
  {
    // `buffer.read(11)` returns fewer bytes from a shorter archive
    if ReadUpTo(buffer, 11).0 != XP3Signature then Err(NotXP3)
    else
      var index := ReadFrom(buffer, 11, decompress);
      if index.Err? then Err(index.error) else Ok(XP3Reader(index.value))
  }

  /** `XP3Reader.__getitem__`: the index entry for the key, bound to the archive. */
  function GetFile(reader: XP3Reader, key: Key): (r: Result<BoundFile>)
    ensures r.Ok? <==> GetItem(reader.index, key).Ok?
    ensures r.Ok? ==> r.value == BoundFile(GetItem(reader.index, key).value, reader.index.buffer)
    ensures r.Err? ==> r.error == GetItem(reader.index, key).error
  {
    var e := GetItem(reader.index, key);
    if e.Err? then Err(e.error) else Ok(BoundFile(e.value, reader.index.buffer))
  }

  /** `XP3Reader.is_encrypted`: iterating over the reader asks for positions 0, 1, … until
      one is out of range, and the first encrypted file ends the search. */
  method IsEncrypted(reader: XP3Reader) returns (r: bool)
    ensures r <==> exists i :: 0 <= i < |reader.index.entries| && reader.index.entries[i].IsEncrypted()
  {
    var i := 0;
    while true
      invariant 0 <= i <= |reader.index.entries|
      invariant forall j :: 0 <= j < i ==> !reader.index.entries[j].IsEncrypted()
      decreases |reader.index.entries| - i
    {
      var file := GetFile(reader, Position(i));
      if file.Err? {
        return false;
      }
      if file.value.entry.IsEncrypted() {
        return true;
      }
      i := i + 1;
    }
  }

  // ------------------------------------------------------ write, then read

  /** An archive with the signature, an index of well-formed entries at the offset in its
      header, and nothing after the index opens to those entries. */
  lemma IndexedArchiveOpens(es: seq<Entry>, buf: Bytes, offset: nat, compress: Bytes -> Bytes,
                            decompress: Bytes -> Option<Bytes>)
    requires 19 <= |buf| && buf[..11] == XP3Signature
    requires IndexedAt(es, buf, offset, compress) && AllWellFormed(es) && Inverts(compress, decompress)
    ensures Open(buf, decompress) == Ok(XP3Reader(Index(NormalizedAll(es), buf)))
  {
    assert IndexOf(es, compress, buf[offset..]);
    var raw := EntriesBytes(es);
    assert buf[offset..][0] == buf[offset];
    DirectIndex(buf, 11, offset, decompress);
    IndexRoundTrip(raw, compress, decompress, []);
    assert buf[offset..] + [] == buf[offset..];
    EntriesRoundTrip(es, []);
    assert [] + NormalizedAll(es) == NormalizedAll(es);
    assert buf[..11] == ReadUpTo(buf, 11).0;
  }

  /** A packed archive opens, and its index lists the written entries in order, with the
      timestamps in seconds. */
  lemma WrittenArchiveOpens(w: XP3Writer, decompress: Bytes -> Option<Bytes>)
    requires w.Valid() && w.packedUp && Inverts(w.compress, decompress)
    ensures Open(w.buffer, decompress) == Ok(XP3Reader(Index(NormalizedAll(w.fileEntries), w.buffer)))
  {
    AllWrittenWellFormed(w.fileEntries, w.files, w.profiles, w.stored, w.buffer, w.compress, w.pathHash);
    IndexedArchiveOpens(w.fileEntries, w.buffer, w.indexOffset, w.compress, decompress);
  }

  /** Each written file reads back as it was added, with the profile it was added with,
      unless the profile encrypts and the data was kept compressed. */
  lemma WrittenFileReadsBack(w: XP3Writer, i: nat, decompress: Bytes -> Option<Bytes>, raw: bool)
    requires w.Valid() && Inverts(w.compress, decompress) && i < |w.fileEntries|
    requires NoEncryption(w.profiles[i]) || !w.fileEntries[i].segm[0].isCompressed
    ensures ReadSpec(BoundFile(Normalized(w.fileEntries[i]), w.buffer), w.profiles[i], raw, decompress)
            == Ok(w.files[i])
  {
    assert AllWritten(w.fileEntries, w.files, w.profiles, w.stored, w.buffer, w.compress, w.pathHash);
    WrittenReadsBack(w.fileEntries[i], w.files[i], w.profiles[i], w.stored[i], w.buffer, w.compress, w.pathHash,
                     decompress, raw);
  }

  /** With distinct paths, looking an entry up by its path finds it at its own position. */
  lemma PathFindsPosition(es: seq<Entry>, buf: Bytes, i: nat)
    requires DistinctPaths(es) && i < |es|
    ensures GetItem(Index(NormalizedAll(es), buf), PathKey(es[i].FilePath()))
            == GetItem(Index(NormalizedAll(es), buf), Position(i))
            == Ok(Normalized(es[i]))
  {
    var idx := Index(NormalizedAll(es), buf);
    var p := es[i].FilePath();
    forall k | i < k < |idx.entries| ensures idx.entries[k].FilePath() != p {
      assert idx.entries[k].FilePath() == es[k].FilePath();
    }
    GetItemLast(idx, p, i);
  }

  /** Open the packed archive, look a written file up by its path, and read it: the bytes
      that were added come back. */
  lemma WriteThenRead(w: XP3Writer, i: nat, decompress: Bytes -> Option<Bytes>, raw: bool)
    requires w.Valid() && w.packedUp && Inverts(w.compress, decompress) && i < |w.fileEntries|
    requires NoEncryption(w.profiles[i]) || !w.fileEntries[i].segm[0].isCompressed
    ensures Open(w.buffer, decompress).Ok?
    ensures var file := GetFile(Open(w.buffer, decompress).value, PathKey(w.fileEntries[i].FilePath()));
            && file == GetFile(Open(w.buffer, decompress).value, Position(i))
            && file.Ok? && ReadSpec(file.value, w.profiles[i], raw, decompress) == Ok(w.files[i])
  {
    WrittenArchiveOpens(w, decompress);
    PathFindsPosition(w.fileEntries, w.buffer, i);
    WrittenFileReadsBack(w, i, decompress, raw);
  }
}
