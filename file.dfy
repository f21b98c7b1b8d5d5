/** An index entry bound to the archive it came from: reassembling its segments,
    and the checksum-keyed XOR cipher that encrypts and decrypts file data. */
module XP3File {
  import opened Bytes
  import opened FileEntry
  import opened EncryptionParameters

  // ---------------------------------------------------------------- cipher

  /** `adler_key = adler32 ^ master_key`. */
  function AdlerKey(adler32: nat, p: Params): (k: nat) {
    Xor(adler32, p.masterKey)
  }

  /** `(adler_key >> 24 ^ adler_key >> 16 ^ adler_key >> 8 ^ adler_key) & 0xFF`, or the
      secondary key when that is 0. */
  function XorKey(adler32: nat, p: Params): (k: byte)
    ensures k == 0 ==> p.secondaryKey == 0
  {
    var a := AdlerKey(adler32, p);
    var folded := Xor(Xor(Xor(a / 0x100_0000, a / 0x1_0000), a / 0x100), a) % 0x100;
    if folded == 0 then p.secondaryKey else folded as byte
  }

  /** `adler_key & 0xFF`, or `master_key & 0xFF` when that is 0. */
  function FirstByteKey(adler32: nat, p: Params): (k: byte)
    ensures k == 0 ==> p.masterKey % 0x100 == 0
  {
    var low := AdlerKey(adler32, p) % 0x100;
    if low == 0 then (p.masterKey % 0x100) as byte else low as byte
  }

  /** Every byte XORed with `k`. */
  function XorAll(data: Bytes, k: byte): (r: Bytes)
    ensures |r| == |data| && forall i :: 0 <= i < |data| ==> r[i] == XorByte(data[i], k)
  {
    seq(|data|, i requires 0 <= i < |data| => XorByte(data[i], k))
  }

  /** The scalar branch of `XP3File.xor` for a known profile: the first byte alone with the
      first-byte key when the profile asks for it (an `IndexError` on empty data), then
      every byte with the XOR key. */
  function XorBytes(data: Bytes, adler32: nat, p: Params): (r: Result<Bytes>)
    ensures r.Err? <==> p.xorFirstByte && |data| == 0
    ensures r.Err? ==> r.error == IndexOutOfRange
    ensures r.Ok? ==> |r.value| == |data|
    ensures r.Ok? ==> forall i :: 1 <= i < |data| ==> r.value[i] == XorByte(data[i], XorKey(adler32, p))
    ensures r.Ok? && 0 < |data| ==>
              r.value[0] == XorByte(if p.xorFirstByte then XorByte(data[0], FirstByteKey(adler32, p)) else data[0],
                                    XorKey(adler32, p))
  {
    var key := XorKey(adler32, p);
    if p.xorFirstByte then
      if |data| == 0 then Err(IndexOutOfRange)
      else Ok(XorAll([XorByte(data[0], FirstByteKey(adler32, p))] + data[1..], key))
    else Ok(XorAll(data, key))
  }

  /** XORing twice with the same checksum and profile gives the data back. */
  lemma XorTwice(data: Bytes, adler32: nat, p: Params)
    requires XorBytes(data, adler32, p).Ok?
    ensures XorBytes(XorBytes(data, adler32, p).value, adler32, p) == Ok(data)
  {
    var once := XorBytes(data, adler32, p).value;
    var twice := XorBytes(once, adler32, p).value;
    var key, first := XorKey(adler32, p), FirstByteKey(adler32, p);
    forall i | 0 <= i < |data| ensures twice[i] == data[i] {
      if i == 0 && p.xorFirstByte {
        var b := XorByte(data[0], first);
        XorByteSwap(b, key, first);
        XorByteTwice(data[0], first);
        XorByteTwice(data[0], key);
      } else {
        XorByteTwice(data[i], key);
      }
    }
    assert twice == data;
  }

  /** `XP3File.xor` for a profile name: an unknown name (or `None`) is a KeyError. */
  function XorData(data: Bytes, adler32: nat, encryptionType: Option<string>): (r: Result<Bytes>)
    ensures Lookup(encryptionType).Err? ==> r == Err(UnknownProfile)
    ensures Lookup(encryptionType).Ok? ==> r == XorBytes(data, adler32, Lookup(encryptionType).value)
  {
    var p := Lookup(encryptionType);
    if p.Err? then Err(p.error) else XorBytes(data, adler32, p.value)
  }

  /** The scalar branch of `XP3File.xor` on the buffer: the first-byte step, then the loop
      over every index. Nothing changes when it fails. */
  method XorInPlace(data: array<byte>, adler32: nat, encryptionType: Option<string>) returns (r: Result<()>)
    modifies data
    ensures XorData(old(data[..]), adler32, encryptionType).Ok? ==>
              r.Ok? && data[..] == XorData(old(data[..]), adler32, encryptionType).value
    ensures XorData(old(data[..]), adler32, encryptionType).Err? ==>
              r == Err(XorData(old(data[..]), adler32, encryptionType).error) && data[..] == old(data[..])
  {
    var lookup := Lookup(encryptionType);
    if lookup.Err? {
      return Err(lookup.error);
    }
    var p := lookup.value;
    var key := XorKey(adler32, p);
    if p.xorFirstByte {
      if data.Length == 0 {
        return Err(IndexOutOfRange);
      }
      data[0] := XorByte(data[0], FirstByteKey(adler32, p));
    }
    ghost var start := data[..];
    assert p.xorFirstByte ==> start == [XorByte(old(data[..])[0], FirstByteKey(adler32, p))] + old(data[..])[1..];
    assert !p.xorFirstByte ==> start == old(data[..]);
    for index := 0 to data.Length
      invariant forall i :: 0 <= i < index ==> data[i] == XorByte(start[i], key)
      invariant forall i :: index <= i < data.Length ==> data[i] == start[i]
    {
      data[index] := XorByte(data[index], key);
    }
    assert data[..] == XorAll(start, key);
    return Ok(());
  }

  // ---------------------------------------------------------------- read

  /** An `XP3File`: an index entry and the archive buffer its segments point into. */
  datatype BoundFile = BoundFile(entry: Entry, buffer: Bytes)

  /** One segment: `compressed_size` bytes at its offset (fewer at the end of the buffer),
      inflated when it is compressed, and then exactly `uncompressed_size` bytes long. */
  function SegmentData(buffer: Bytes, s: Segment, decompress: Bytes -> Option<Bytes>): (r: Result<Bytes>)
    ensures r.Ok? ==> |r.value| == s.uncompressedSize
    ensures (!s.isCompressed && s.offset + s.compressedSize <= |buffer| && s.compressedSize == s.uncompressedSize)
              ==> r == Ok(buffer[s.offset..s.offset + s.compressedSize])
  {
    var data := ReadUpTo(Seek(buffer, s.offset), s.compressedSize).0;
    var decoded := if s.isCompressed then decompress(data) else Some(data);
    if decoded.None? then Err(DecompressFailed)
    else if |decoded.value| != s.uncompressedSize then Err(SegmentSizeMismatch)
    else
      assert s.offset + s.compressedSize <= |buffer| ==>
        Seek(buffer, s.offset)[..s.compressedSize] == buffer[s.offset..s.offset + s.compressedSize];
      Ok(decoded.value)
  }

  /** The segments in list order, the first failure ending the read. */
  function Segments(buffer: Bytes, segs: seq<Segment>, decompress: Bytes -> Option<Bytes>): (r: Result<Bytes>)
  {
    if |segs| == 0 then Ok([])
    else
      var head := SegmentData(buffer, segs[0], decompress);
      if head.Err? then Err(head.error) else Joined(head.value, Segments(buffer, segs[1..], decompress))
  }

  /** The joined segments are as long as their uncompressed sizes add up to. */
  lemma {:induction false} SegmentsLength(buffer: Bytes, segs: seq<Segment>, decompress: Bytes -> Option<Bytes>)
    requires Segments(buffer, segs, decompress).Ok?
    ensures |Segments(buffer, segs, decompress).value| == UncompressedSize(segs)
  {
    if |segs| > 0 {
      SegmentsLength(buffer, segs[1..], decompress);
      SizesAppend([segs[0]], segs[1..]);
      assert [segs[0]] + segs[1..] == segs;
      assert UncompressedSize([segs[0]]) == segs[0].uncompressedSize;
    }
  }

  /** One segment more of the loop. */
  lemma SegmentsStep(buffer: Bytes, segs: seq<Segment>, i: nat, decompress: Bytes -> Option<Bytes>)
    requires i < |segs|
    ensures SegmentData(buffer, segs[i], decompress).Err? ==>
              Segments(buffer, segs[i..], decompress) == Err(SegmentData(buffer, segs[i], decompress).error)
    ensures SegmentData(buffer, segs[i], decompress).Ok? ==>
              Segments(buffer, segs[i..], decompress)
              == Joined(SegmentData(buffer, segs[i], decompress).value, Segments(buffer, segs[i + 1..], decompress))
  {
    assert segs[i..][1..] == segs[i + 1..];
  }

  /** `XP3File.read`: the segments joined, then, for an encrypted entry, the XOR with the
      stored checksum; asking for no profile is refused unless the raw bytes are wanted,
      and even then the given profile is applied. */
  function ReadSpec(f: BoundFile, encryptionType: Option<string>, raw: bool,
                    decompress: Bytes -> Option<Bytes>): (r: Result<Bytes>)
  {
    var data := Segments(f.buffer, f.entry.segm, decompress);
    if data.Err? then Err(data.error)
    else if !f.entry.IsEncrypted() then Ok(data.value)
    else if encryptionType in {None, Some("none")} && !raw then Err(DecryptionRequired)
    else XorData(data.value, f.entry.Adler32(), encryptionType)
  }

  /** What a successful read returns is as long as the segments' uncompressed sizes add up to. */
  lemma ReadLength(f: BoundFile, encryptionType: Option<string>, raw: bool,
                   decompress: Bytes -> Option<Bytes>)
    requires ReadSpec(f, encryptionType, raw, decompress).Ok?
    ensures |ReadSpec(f, encryptionType, raw, decompress).value| == UncompressedSize(f.entry.segm)
  {
    SegmentsLength(f.buffer, f.entry.segm, decompress);
  }

  /** An encrypted entry read without a profile fails, unless the raw bytes are asked for. */
  lemma ReadNeedsProfile(f: BoundFile, encryptionType: Option<string>, raw: bool,
                         decompress: Bytes -> Option<Bytes>)
    requires f.entry.IsEncrypted()
    requires Segments(f.buffer, f.entry.segm, decompress).Ok?
    ensures ReadSpec(f, encryptionType, raw, decompress) == Err(DecryptionRequired)
            <==> encryptionType in {None, Some("none")} && !raw
  {
  }

  /** Decrypting with the profile that encrypted gives the plaintext back. */
  lemma ReadDecrypts(f: BoundFile, plain: Bytes, encryptionType: string, raw: bool,
                     decompress: Bytes -> Option<Bytes>)
    requires f.entry.IsEncrypted() && encryptionType != "none"
    requires XorData(plain, f.entry.Adler32(), Some(encryptionType)).Ok?
    requires Segments(f.buffer, f.entry.segm, decompress)
             == XorData(plain, f.entry.Adler32(), Some(encryptionType))
    ensures ReadSpec(f, Some(encryptionType), raw, decompress) == Ok(plain)
  {
    XorTwice(plain, f.entry.Adler32(), Lookup(Some(encryptionType)).value);
  }

  /** The loop of `XP3File.read` that writes the segments one after the other. */
  method ReadSegments(buffer: Bytes, segs: seq<Segment>, decompress: Bytes -> Option<Bytes>)
    returns (r: Result<Bytes>)
    ensures r == Segments(buffer, segs, decompress)
  {
    var output: Bytes := [];
    assert segs[0..] == segs;
    JoinedEmpty([], Segments(buffer, segs, decompress));
    for i := 0 to |segs|
      invariant Segments(buffer, segs, decompress) == Joined(output, Segments(buffer, segs[i..], decompress))
    {
      SegmentsStep(buffer, segs, i, decompress);
      var data := SegmentData(buffer, segs[i], decompress);
      if data.Err? {
        return Err(data.error);
      }
      JoinedAppend(output, data.value, Segments(buffer, segs[i + 1..], decompress));
      output := output + data.value;
    }
    assert segs[|segs|..] == [];
    JoinedEmpty(output, Segments(buffer, segs[|segs|..], decompress));
    return Ok(output);
  }

  /** `XP3File.read`: the segments, then the checks and the in-place XOR. */
  method Read(f: BoundFile, encryptionType: Option<string>, raw: bool,
              decompress: Bytes -> Option<Bytes>) returns (r: Result<Bytes>)
    ensures r == ReadSpec(f, encryptionType, raw, decompress)
  {
    var data := ReadSegments(f.buffer, f.entry.segm, decompress);
    if data.Err? {
      return Err(data.error);
    }
    var output := data.value;
    if f.entry.IsEncrypted() {
      if encryptionType in {None, Some("none")} && !raw {
        return Err(DecryptionRequired);
      }
      var buffer := new byte[|output|](i requires 0 <= i < |output| => output[i]);
      assert buffer[..] == output;
      var x := XorInPlace(buffer, f.entry.Adler32(), encryptionType);
      if x.Err? {
        return Err(x.error);
      }
      output := buffer[..];
    }
    return Ok(output);
  }

  lemma JoinedEmpty(done: Bytes, rest: Result<Bytes>)
    ensures Joined([], rest) == rest
    ensures rest == Ok([]) ==> Joined(done, rest) == Ok(done)
  {
    if rest.Ok? {
      assert [] + rest.value == rest.value;
      assert done + [] == done;
    }
  }

  lemma JoinedAppend(done: Bytes, d: Bytes, rest: Result<Bytes>)
    ensures Joined(done, Joined(d, rest)) == Joined(done + d, rest)
  {
    if rest.Ok? {
      assert done + (d + rest.value) == done + d + rest.value;
    }
  }

  /** `done` followed by what is still to be read, failing as that does. */
  function Joined(done: Bytes, rest: Result<Bytes>): (r: Result<Bytes>) {
    if rest.Err? then rest else Ok(done + rest.value)
  }
}
