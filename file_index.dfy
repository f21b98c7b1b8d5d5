/** The archive-wide file index: locating it from the header offset (with at most
    one legacy redirect), decoding its compressed or raw body, splitting it into
    file entries, serialising it with the compress-or-store size rule, and looking
    entries up by position or by path. zlib is a pair of function parameters. */
module FileIndex {
  import opened Bytes
  import opened FileEntry

  /** The flag byte in front of the index body. */
  const IndexContinue: nat := 0x80
  const IndexCompressed: nat := 0x01
  const IndexRaw: nat := 0x00

  // ---------------------------------------------------------- read_index

  /** The body after the flag byte: for a compressed index the two sizes and the
      deflated bytes (a short read passes them on as they are), for a raw one the
      size and as many bytes as there are, up to that size. */
  function IndexBody(flag: nat, input: Bytes, decompress: Bytes -> Option<Bytes>): (r: Result<Bytes>)
    requires flag < 0x100
    ensures flag != IndexCompressed && flag != IndexRaw ==> r == Err(UnexpectedIndexFlag(flag as byte))
    ensures flag == IndexRaw ==> (r.Ok? <==> 8 <= |input|)
    ensures flag == IndexRaw && r.Ok? ==>
              r.value <= input[8..] && |r.value| == Min(FromLE(input[..8]), |input| - 8)
    ensures flag == IndexCompressed && r.Ok? ==>
              16 <= |input| && |r.value| == FromLE(input[8..16])
              && decompress(ReadUpTo(input[16..], FromLE(input[..8])).0) == Some(r.value)
  {
    if flag == IndexCompressed then
      // '<2Q': compressed size, uncompressed size
      var compressedSize := ReadU64(input);
      if compressedSize.Err? then Err(compressedSize.error)
      else
        var uncompressedSize := ReadU64(compressedSize.value.1);
        if uncompressedSize.Err? then Err(uncompressedSize.error)
        else
          var index := decompress(ReadUpTo(uncompressedSize.value.1, compressedSize.value.0).0);
          if index.None? then Err(DecompressFailed)
          else if |index.value| != uncompressedSize.value.0 then Err(IndexSizeMismatch)
          else
            assert input[8..][..8] == input[8..16] && input[8..][8..] == input[16..];
            Ok(index.value)
    else if flag == IndexRaw then
      var size := ReadU64(input);
      if size.Err? then Err(size.error) else Ok(ReadUpTo(size.value.1, size.value.0).0)
    else Err(UnexpectedIndexFlag(flag as byte))
  }

  function Min(a: int, b: int): (m: int) { if a <= b then a else b }

  /** A flag byte and the body it announces, without following a redirect. */
  function IndexAt(input: Bytes, decompress: Bytes -> Option<Bytes>): (r: Result<Bytes>)
    ensures |input| == 0 ==> r == Err(Truncated)
    ensures 0 < |input| && input[0] as nat == IndexContinue ==> r == Err(UnexpectedIndexFlag(0x80))
  {
    var flag := ReadU8(input);
    if flag.Err? then Err(flag.error) else IndexBody(flag.value.0, flag.value.1, decompress)
  }

  /** `XP3FileIndex.read_index` with the cursor at `pos`: the header offset (zero is an
      error), the flag byte there, at most one continue redirect, then the body. */
  function ReadIndex(buf: Bytes, pos: nat, decompress: Bytes -> Option<Bytes>): (r: Result<Bytes>)
  {
    var header := ReadU64(Seek(buf, pos));
    if header.Err? then Err(header.error)
    else if header.value.0 == 0 then Err(IndexOffsetMissing)
    else
      var at := Seek(buf, header.value.0);
      var flag := ReadU8(at);
      if flag.Err? then Err(flag.error)
      else if flag.value.0 == IndexContinue then
        // '<8x1Q': eight skipped bytes, then the offset
        var skipped := ReadExact(flag.value.1, 8);
        if skipped.Err? then Err(skipped.error)
        else
          var target := ReadU64(skipped.value.1);
          if target.Err? then Err(target.error) else IndexAt(Seek(buf, target.value.0), decompress)
      else IndexAt(at, decompress)
  }

  /** A zero header offset is refused. */
  lemma OffsetMissing(buf: Bytes, pos: nat, decompress: Bytes -> Option<Bytes>)
    requires pos + 8 <= |buf| && buf[pos..pos + 8] == U64(0)
    ensures ReadIndex(buf, pos, decompress) == Err(IndexOffsetMissing)
  {
    HeaderOffsetAt(buf, pos, 0);
  }

  /** Without a continue flag the index is read where the header points. */
  lemma DirectIndex(buf: Bytes, pos: nat, offset: nat, decompress: Bytes -> Option<Bytes>)
    requires 0 < offset < TWO64 && pos + 8 <= |buf| && buf[pos..pos + 8] == U64(offset)
    requires offset < |buf| && buf[offset] as nat != IndexContinue
    ensures ReadIndex(buf, pos, decompress) == IndexAt(buf[offset..], decompress)
  {
    HeaderOffsetAt(buf, pos, offset);
  }

  /** A continue flag, eight skipped bytes and an offset send the read to that offset,
      where a second continue flag is refused. */
  lemma RedirectedIndex(buf: Bytes, pos: nat, offset: nat, skipped: Bytes, target: nat,
                        decompress: Bytes -> Option<Bytes>)
    requires 0 < offset < TWO64 && pos + 8 <= |buf| && buf[pos..pos + 8] == U64(offset)
    requires offset + 17 <= |buf| && buf[offset] as nat == IndexContinue
    requires |skipped| == 8 && target < TWO64 && buf[offset + 1..offset + 17] == skipped + U64(target)
    ensures ReadIndex(buf, pos, decompress) == IndexAt(Seek(buf, target), decompress)
    ensures target < |buf| && buf[target] as nat == IndexContinue ==>
              ReadIndex(buf, pos, decompress) == Err(UnexpectedIndexFlag(0x80))
  {
    HeaderOffsetAt(buf, pos, offset);
    var at := buf[offset..];
    assert at[1..17] == buf[offset + 1..offset + 17];
    RedirectAt(at, skipped, target);
  }

  /** The header field at `pos` holds `offset`. */
  lemma HeaderOffsetAt(buf: Bytes, pos: nat, offset: nat)
    requires offset < TWO64 && pos + 8 <= |buf| && buf[pos..pos + 8] == U64(offset)
    ensures ReadU64(Seek(buf, pos)) == Ok((offset, buf[pos + 8..]))
  {
    assert Seek(buf, pos) == U64(offset) + buf[pos + 8..];
    ReadU64Of(offset, buf[pos + 8..]);
  }

  /** After a continue flag: eight skipped bytes, then the target offset. */
  lemma RedirectAt(at: Bytes, skipped: Bytes, target: nat)
    requires 17 <= |at| && |skipped| == 8 && target < TWO64 && at[1..17] == skipped + U64(target)
    ensures ReadExact(at[1..], 8) == Ok((skipped, U64(target) + at[17..]))
    ensures ReadU64(U64(target) + at[17..]) == Ok((target, at[17..]))
  {
    assert at[1..] == at[1..17] + at[17..];
    assert at[1..] == skipped + (U64(target) + at[17..]);
    ReadExactOf(skipped, U64(target) + at[17..]);
    ReadU64Of(target, at[17..]);
  }

  // ------------------------------------------------------------ to_bytes

  /** `XP3FileIndex.to_bytes` once the entries are joined: the compressed form iff it is
      shorter counting its 17-byte header against the raw form's 9; a length that does not
      fit the u64 size field is refused. */
  function IndexBytes(raw: Bytes, compress: Bytes -> Bytes): (r: Result<Bytes>)
    ensures r.Ok? <==> |raw| < TWO64
    ensures r.Ok? ==> 9 <= |r.value| <= |raw| + 9
    ensures r.Ok? ==> (r.value[0] as nat == IndexCompressed <==> |compress(raw)| + 17 < |raw| + 9)
    ensures r.Ok? ==> r.value[0] as nat == IndexCompressed || r.value[0] as nat == IndexRaw
  {
    var compressed := compress(raw);
    if TWO64 <= |raw| then Err(ValueOutOfRange)
    else if |compressed| + 1 + 8 + 8 < |raw| + 1 + 8 then
      Ok([1] + (U64(|compressed|) + (U64(|raw|) + compressed)))
    else Ok([0] + (U64(|raw|) + raw))
  }

  /** Reading back what `IndexBytes` wrote gives the joined entries back, whichever form
      was chosen, and reads nothing after it. */
  lemma IndexRoundTrip(raw: Bytes, compress: Bytes -> Bytes, decompress: Bytes -> Option<Bytes>,
                       rest: Bytes)
    requires Inverts(compress, decompress) && |raw| < TWO64
    ensures IndexAt(IndexBytes(raw, compress).value + rest, decompress) == Ok(raw)
  {
    var compressed := compress(raw);
    assert decompress(compressed) == Some(raw);
    if |compressed| + 17 < |raw| + 9 {
      var tail := compressed + rest;
      assert IndexBytes(raw, compress).value + rest == [1] + (U64(|compressed|) + (U64(|raw|) + tail));
      ReadU64Of(|compressed|, U64(|raw|) + tail);
      ReadU64Of(|raw|, tail);
      ReadUpToOf(compressed, rest);
    } else {
      assert IndexBytes(raw, compress).value + rest == [0] + (U64(|raw|) + (raw + rest));
      ReadU64Of(|raw|, raw + rest);
      ReadUpToOf(raw, rest);
    }
  }

  // ------------------------------------------------------------- entries

  predicate AllEncodable(es: seq<Entry>) {
    forall i :: 0 <= i < |es| ==> Encodable(es[i])
  }

  predicate AllWellFormed(es: seq<Entry>) {
    forall i :: 0 <= i < |es| ==> WellFormed(es[i])
  }

  /** `b''.join(entry.to_bytes() for entry in entries)`. */
  function EntriesBytes(es: seq<Entry>): (r: Bytes)
    requires AllEncodable(es)
  {
    if |es| == 0 then [] else EntryBytes(es[0]) + EntriesBytes(es[1..])
  }

  /** The entry loop of `XP3FileIndex.read_from`: entries back to back until the index is
      used up; each one read is appended to `acc`. */
  function ParseEntries(input: Bytes, acc: seq<Entry>): (r: Result<seq<Entry>>)
    ensures r.Ok? ==> |acc| <= |r.value| && r.value[..|acc|] == acc
    decreases |input|
  {
    if |input| == 0 then Ok(acc)
    else
      var e := ParseEntry(input);
      if e.Err? then Err(e.error)
      else
        var r := ParseEntries(e.value.1, acc + [e.value.0]);
        assert r.Ok? ==> r.value[..|acc|] == (acc + [e.value.0])[..|acc|];
        r
  }

  function NormalizedAll(es: seq<Entry>): (r: seq<Entry>)
    ensures |r| == |es|
  {
    seq(|es|, i requires 0 <= i < |es| => Normalized(es[i]))
  }

  lemma NormalizedAllCons(es: seq<Entry>, acc: seq<Entry>)
    requires 0 < |es|
    ensures acc + [Normalized(es[0])] + NormalizedAll(es[1..]) == acc + NormalizedAll(es)
  {
  }

  /** One pass of the entry loop. */
  lemma EntriesStep(input: Bytes, acc: seq<Entry>, e: Entry, rest: Bytes)
    requires ParseEntry(input) == Ok((e, rest))
    ensures ParseEntries(input, acc) == ParseEntries(rest, acc + [e])
  {
  }

  /** Reading the joined entries gives each of them back, timestamps in seconds. */
  lemma {:induction false} EntriesRoundTrip(es: seq<Entry>, acc: seq<Entry>)
    requires AllWellFormed(es)
    ensures ParseEntries(EntriesBytes(es), acc) == Ok(acc + NormalizedAll(es))
    decreases |es|
  {
    if |es| == 0 {
      assert acc + NormalizedAll(es) == acc;
    } else {
      EntryRoundTrip(es[0], EntriesBytes(es[1..]));
      EntriesStep(EntriesBytes(es), acc, Normalized(es[0]), EntriesBytes(es[1..]));
      EntriesRoundTrip(es[1..], acc + [Normalized(es[0])]);
      NormalizedAllCons(es, acc);
    }
  }

  /** The entry loop of `XP3FileIndex.read_from` as the source's `while` loop. */
  method ReadEntries(index: Bytes) returns (r: Result<seq<Entry>>)
    ensures r == ParseEntries(index, [])
  {
    var entries: seq<Entry> := [];
    var cursor := index;
    while |cursor| > 0
      invariant ParseEntries(index, []) == ParseEntries(cursor, entries)
      decreases |cursor|
    {
      var e := ReadEntry(cursor);
      if e.Err? {
        return Err(e.error);
      }
      entries := entries + [e.value.0];
      cursor := e.value.1;
    }
    return Ok(entries);
  }

  // --------------------------------------------------------------- index

  /** An `XP3FileIndex`: its entries, in index order, and the archive they point into. */
  datatype Index = Index(entries: seq<Entry>, buffer: Bytes)

  /** `{entry.file_path: index for index, entry in enumerate(entries)}`: each path maps to
      the position of its last entry. */
  function PathIndex(es: seq<Entry>): (m: map<Path, nat>)
  {
    if |es| == 0 then map[] else PathIndex(es[..|es| - 1])[es[|es| - 1].FilePath() := |es| - 1]
  }

  lemma {:induction false} PathIndexLast(es: seq<Entry>, p: Path)
    ensures p in PathIndex(es) <==> exists i :: 0 <= i < |es| && es[i].FilePath() == p
    ensures p in PathIndex(es) ==>
              && PathIndex(es)[p] < |es| && es[PathIndex(es)[p]].FilePath() == p
              && forall j :: PathIndex(es)[p] < j < |es| ==> es[j].FilePath() != p
    decreases |es|
  {
    if |es| > 0 {
      var init := es[..|es| - 1];
      PathIndexLast(init, p);
      if es[|es| - 1].FilePath() != p {
        assert forall i :: 0 <= i < |init| ==> init[i] == es[i];
        if p in PathIndex(es) {
          assert PathIndex(es)[p] == PathIndex(init)[p];
        } else {
          forall i | 0 <= i < |es| ensures es[i].FilePath() != p {
            if i < |init| {
              assert init[i] == es[i];
            }
          }
        }
      }
    }
  }

  /** `XP3FileIndex.read_from` with the cursor at `pos`. */
  function ReadFrom(buf: Bytes, pos: nat, decompress: Bytes -> Option<Bytes>): (r: Result<Index>)
    ensures r.Ok? ==> r.value.buffer == buf
  {
    var index := ReadIndex(buf, pos, decompress);
    if index.Err? then Err(index.error)
    else
      var es := ParseEntries(index.value, []);
      if es.Err? then Err(es.error) else Ok(Index(es.value, buf))
  }

  /** `XP3FileIndex.to_bytes`. */
  function ToBytes(idx: Index, compress: Bytes -> Bytes): (r: Result<Bytes>)
    requires AllEncodable(idx.entries)
  {
    IndexBytes(EntriesBytes(idx.entries), compress)
  }

  /** The key of `XP3FileIndex.__getitem__`: an `int`, a `str`, or anything else. */
  datatype Key = Position(i: int) | PathKey(path: Path) | OtherKey

  /** `XP3FileIndex.__getitem__`: a position counts from the end when negative, a path
      goes through `PathIndex`. */
  function GetItem(idx: Index, key: Key): (r: Result<Entry>)
    ensures key.Position? ==> (r.Ok? <==> -|idx.entries| <= key.i < |idx.entries|)
    ensures key.Position? && 0 <= key.i < |idx.entries| ==> r == Ok(idx.entries[key.i])
    ensures key.Position? && -|idx.entries| <= key.i < 0 ==> r == Ok(idx.entries[|idx.entries| + key.i])
    ensures key.Position? && r.Err? ==> r.error == IndexOutOfRange
    ensures key.PathKey? ==> (r.Ok? <==> exists i :: 0 <= i < |idx.entries| && idx.entries[i].FilePath() == key.path)
    ensures key.PathKey? && r.Ok? ==> r.value.FilePath() == key.path
    ensures key.PathKey? && r.Err? ==> r.error == KeyNotFound
    ensures key.OtherKey? ==> r == Err(TypeError)
  {
    match key
    case Position(i) =>
      if 0 <= i < |idx.entries| then Ok(idx.entries[i])
      else if -|idx.entries| <= i < 0 then Ok(idx.entries[|idx.entries| + i])
      else Err(IndexOutOfRange)
    case PathKey(p) =>
      PathIndexLast(idx.entries, p);
      var m := PathIndex(idx.entries);
      if p in m then Ok(idx.entries[m[p]]) else Err(KeyNotFound)
    case OtherKey => Err(TypeError)
  }

  /** A path lookup returns the last entry carrying that path. */
  lemma GetItemLast(idx: Index, p: Path, j: nat)
    requires j < |idx.entries| && idx.entries[j].FilePath() == p
    requires forall k :: j < k < |idx.entries| ==> idx.entries[k].FilePath() != p
    ensures GetItem(idx, PathKey(p)) == Ok(idx.entries[j])
  {
    PathIndexLast(idx.entries, p);
  }
}
