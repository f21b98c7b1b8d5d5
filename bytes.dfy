/** Byte-level vocabulary shared by every part of the codec: the byte type,
    fixed-width little-endian integers, a cursor-based reader over an
    in-memory buffer (the behaviour of `BytesIO.read` followed by
    `struct.unpack`), the error taxonomy and a failure-compatible Result. */
module Bytes {

  newtype byte = x: int | 0 <= x < 0x100
  type Bytes = seq<byte>

  const TWO16: int := 0x1_0000
  const TWO32: int := 0x1_0000_0000
  const TWO64: int := 0x1_0000_0000_0000_0000

  /** A UTF-16 code unit; paths are sequences of them (the UTF-16LE view of a `str`). */
  type CodeUnit = x: int | 0 <= x < 0x1_0000
  type Path = seq<CodeUnit>

  /** The 11-byte archive signature 'XP3\r\n \n\x1a\x8bg\x01'. */
  const XP3Signature: Bytes := [0x58, 0x50, 0x33, 0x0D, 0x0A, 0x20, 0x0A, 0x1A, 0x8B, 0x67, 0x01]

  datatype Option<+T> = None | Some(value: T)

  /** One constructor per exception the source raises. */
  datatype Error =
    | Truncated               // struct.error: `read` returned fewer bytes than the format needs
    | ChunkSizeMismatch       // AssertionError 'Buffer position …, expected …'
    | BadChunkSize            // time chunk size != 8, adlr chunk size != 4
    | MissingFileTag          // encryption chunk not followed by 'File'
    | MissingChunk            // adlr, segm or info chunk absent
    | ChecksumMismatch        // adlr and encryption chunk disagree
    | IndexOffsetMissing      // header index offset is zero
    | IndexSizeMismatch       // inflated index has the wrong length
    | UnexpectedIndexFlag(flag: byte)
    | DecompressFailed        // zlib.error
    | SegmentSizeMismatch     // decoded segment has the wrong length
    | DecryptionRequired      // XP3DecryptionError
    | UnknownProfile          // KeyError on the encryption profile table
    | KeyNotFound             // KeyError on the path index
    | IndexOutOfRange         // IndexError
    | TypeError               // TypeError on a key that is neither int nor str
    | AlreadyPackedUp         // add after pack_up
    | FileExists              // FileExistsError
    | NotXP3                  // 'Is not an XP3 file'
    | ValueOutOfRange         // struct.error when packing a value that does not fit its field
    | NegativeSeek            // ValueError from seeking to a negative position
    | AssertionFailed         // a bare `assert` of the legacy script

  datatype Result<+T> = Ok(value: T) | Err(error: Error) {
    predicate IsFailure() { Err? }
    function PropagateFailure<U>(): Result<U> requires Err? { Err(error) }
    function Extract(): T requires Ok? { value }
  }

  // ---------------------------------------------------------------- integers

  function Pow256(n: nat): (r: nat)
    ensures r > 0
  {
    if n == 0 then 1 else 256 * Pow256(n - 1)
  }

  lemma Pow256Values()
    ensures Pow256(1) == 0x100 && Pow256(2) == TWO16
    ensures Pow256(4) == TWO32 && Pow256(8) == TWO64
  {
    assert Pow256(2) == 256 * Pow256(1);
    assert Pow256(3) == 256 * Pow256(2);
    assert Pow256(4) == 256 * Pow256(3);
    assert Pow256(5) == 256 * Pow256(4);
    assert Pow256(6) == 256 * Pow256(5);
    assert Pow256(7) == 256 * Pow256(6);
    assert Pow256(8) == 256 * Pow256(7);
  }

  /** `x` as `n` little-endian bytes (`struct.pack('<B'/'<H'/'<I'/'<Q')`). */
  function LE(x: nat, n: nat): (r: Bytes)
    requires x < Pow256(n)
    ensures |r| == n
  {
    if n == 0 then [] else [(x % 256) as byte] + LE(x / 256, n - 1)
  }

  /** The unsigned little-endian value of `s` (`struct.unpack`). */
  function FromLE(s: Bytes): (r: nat)
    ensures r < Pow256(|s|)
  {
    if |s| == 0 then 0
    else
      var rest := FromLE(s[1..]);
      assert (s[0] as int) + 256 * rest <= 255 + 256 * (Pow256(|s| - 1) - 1);
      (s[0] as int) + 256 * rest
  }

  lemma {:induction false} FromLEOfLE(x: nat, n: nat)
    requires x < Pow256(n)
    ensures FromLE(LE(x, n)) == x
  {
    if n > 0 {
      var s := LE(x, n);
      assert s[1..] == LE(x / 256, n - 1);
      assert s[0] as int == x % 256;
      FromLEOfLE(x / 256, n - 1);
      assert FromLE(s) == x % 256 + 256 * (x / 256);
    }
  }

  function U16(x: nat): (r: Bytes) requires x < TWO16 ensures |r| == 2 { Pow256Values(); LE(x, 2) }
  function U32(x: nat): (r: Bytes) requires x < TWO32 ensures |r| == 4 { Pow256Values(); LE(x, 4) }
  function U64(x: nat): (r: Bytes) requires x < TWO64 ensures |r| == 8 { Pow256Values(); LE(x, 8) }

  /** Eight zero bytes: the header's index-offset placeholder. */
  lemma U64Zero()
    ensures U64(0) == [0, 0, 0, 0, 0, 0, 0, 0]
  {
    Pow256Values();
  }

  /** The signed value of eight little-endian bytes (`struct.unpack('<q')`). */
  function SignedOf64(v: nat): (r: int)
    requires v < TWO64
    ensures -TWO64 / 2 <= r < TWO64 / 2
    ensures r >= 0 <==> v < TWO64 / 2
  {
    if v < TWO64 / 2 then v else v - TWO64
  }

  /** The signed value of two little-endian bytes (`struct.unpack('<h')`). */
  function SignedOf16(v: nat): (r: int)
    requires v < TWO16
    ensures -TWO16 / 2 <= r < TWO16 / 2
    ensures r >= 0 <==> v < TWO16 / 2
  {
    if v < TWO16 / 2 then v else v - TWO16
  }

  // ------------------------------------------------------------ bitwise xor

  function Pow2(n: nat): (r: nat)
    ensures r > 0
  {
    if n == 0 then 1 else 2 * Pow2(n - 1)
  }

  /** Python's `^` on non-negative integers, one bit at a time from the lowest. */
  function Xor(a: nat, b: nat): (r: nat)
    decreases a + b
  {
    if a == 0 && b == 0 then 0 else (if a % 2 == b % 2 then 0 else 1) + 2 * Xor(a / 2, b / 2)
  }

  /** The lowest bit of `a ^ b` and the rest of it. */
  lemma XorBits(a: nat, b: nat)
    ensures Xor(a, b) % 2 == (if a % 2 == b % 2 then 0 else 1)
    ensures Xor(a, b) / 2 == Xor(a / 2, b / 2)
  {
  }

  lemma {:induction false} XorBelow(a: nat, b: nat, n: nat)
    requires a < Pow2(n) && b < Pow2(n)
    ensures Xor(a, b) < Pow2(n)
  {
    if n > 0 {
      XorBelow(a / 2, b / 2, n - 1);
      XorBits(a, b);
    } else {
      assert a == 0 && b == 0;
    }
  }

  lemma {:induction false} XorCancel(a: nat, k: nat)
    ensures Xor(Xor(a, k), k) == a
    decreases a + k
  {
    if a != 0 || k != 0 {
      XorCancel(a / 2, k / 2);
      XorBits(a, k);
      XorBits(Xor(a, k), k);
    }
  }

  lemma {:induction false} XorSwap(x: nat, k: nat, f: nat)
    ensures Xor(Xor(x, k), f) == Xor(Xor(x, f), k)
    decreases x + k + f
  {
    if x != 0 || k != 0 || f != 0 {
      XorSwap(x / 2, k / 2, f / 2);
      XorBits(x, k);
      XorBits(x, f);
      XorBits(Xor(x, k), f);
      XorBits(Xor(x, f), k);
    }
  }

  lemma {:induction false} XorZeroOnlyIfSame(a: nat, k: nat)
    requires Xor(a, k) == a
    ensures k == 0
    decreases a + k
  {
    if a != 0 || k != 0 {
      XorBits(a, k);
      XorZeroOnlyIfSame(a / 2, k / 2);
    }
  }

  /** `b ^ k` for two bytes. */
  function XorByte(b: byte, k: byte): (r: byte)
  {
    XorBelow(b as nat, k as nat, 8);
    Xor(b as nat, k as nat) as byte
  }

  lemma XorByteTwice(b: byte, k: byte)
    ensures XorByte(XorByte(b, k), k) == b
  {
    XorCancel(b as nat, k as nat);
  }

  /** Only the zero key leaves a byte as it is. */
  lemma XorByteFixed(b: byte, k: byte)
    requires XorByte(b, k) == b
    ensures k == 0
  {
    XorZeroOnlyIfSame(b as nat, k as nat);
  }

  lemma XorByteSwap(b: byte, k: byte, f: byte)
    ensures XorByte(XorByte(b, k), f) == XorByte(XorByte(b, f), k)
  {
    XorSwap(b as nat, k as nat, f as nat);
  }

  // ------------------------------------------------------------ the stream

  // A reader is modelled by the bytes it has not consumed yet: every read returns what it
  // read together with the rest, and `buffer.tell()` is the length of the whole input less
  // the length of the rest.

  /** `buffer.read(n)`: up to `n` bytes, fewer at the end of the input. */
  function ReadUpTo(input: Bytes, n: nat): (r: (Bytes, Bytes))
    ensures r.0 + r.1 == input
    ensures |r.0| == if n <= |input| then n else |input|
  {
    if n <= |input| then (input[..n], input[n..]) else (input, [])
  }

  /** Exactly `n` bytes, as a `struct.unpack` of `buffer.read(n)` needs them, with the
      struct.error of a short read. */
  function ReadExact(input: Bytes, n: nat): (r: Result<(Bytes, Bytes)>)
    ensures r.Ok? <==> n <= |input|
    ensures r.Ok? ==> r.value.0 + r.value.1 == input && |r.value.0| == n
  {
    if n <= |input| then Ok((input[..n], input[n..])) else Err(Truncated)
  }

  /** `struct.unpack('<B', buffer.read(1))`. */
  function ReadU8(input: Bytes): (r: Result<(nat, Bytes)>)
    ensures r.Ok? <==> 0 < |input|
    ensures r.Ok? ==> r.value.0 == input[0] as nat && r.value.1 == input[1..]
  {
    if 0 < |input| then Ok((input[0] as nat, input[1..])) else Err(Truncated)
  }

  /** `struct.unpack('<Q', buffer.read(8))`. */
  function ReadU64(input: Bytes): (r: Result<(nat, Bytes)>)
    ensures r.Ok? <==> 8 <= |input|
    ensures r.Ok? ==> r.value.0 < TWO64 && r.value.1 == input[8..]
  {
    Pow256Values();
    if 8 <= |input| then Ok((FromLE(input[..8]), input[8..])) else Err(Truncated)
  }

  /** `BytesIO.seek(offset)` followed by reads: a position past the end is allowed and
      every read there returns nothing. */
  function Seek(buf: Bytes, offset: nat): (r: Bytes)
    ensures offset <= |buf| ==> r == buf[offset..]
    ensures offset > |buf| ==> r == []
  {
    if offset <= |buf| then buf[offset..] else []
  }

  lemma ReadUpToOf(s: Bytes, rest: Bytes)
    ensures ReadUpTo(s + rest, |s|) == (s, rest)
  {
    assert (s + rest)[..|s|] == s;
    assert (s + rest)[|s|..] == rest;
  }

  lemma ReadExactOf(s: Bytes, rest: Bytes)
    ensures ReadExact(s + rest, |s|) == Ok((s, rest))
  {
    assert (s + rest)[..|s|] == s;
    assert (s + rest)[|s|..] == rest;
  }

  lemma ReadU64Of(x: nat, rest: Bytes)
    requires x < TWO64
    ensures ReadU64(U64(x) + rest) == Ok((x, rest))
  {
    Pow256Values();
    assert (U64(x) + rest)[..8] == U64(x);
    assert (U64(x) + rest)[8..] == rest;
    FromLEOfLE(x, 8);
  }

  // ---------------------------------------------------------------- structs

  /** A `struct` format made of unsigned little-endian fields: the width of each field in
      bytes. A pad field (`x`) is a field whose value is written as zero and ignored. */
  type Format = seq<nat>

  /** `struct.calcsize`. */
  function Size(fmt: Format): (r: nat) {
    if |fmt| == 0 then 0 else fmt[0] + Size(fmt[1..])
  }

  /** Every value fits its field. */
  predicate Fits(values: seq<nat>, fmt: Format) {
    |values| == |fmt| && forall i :: 0 <= i < |fmt| ==> values[i] < Pow256(fmt[i])
  }

  /** `struct.pack`. */
  function Pack(values: seq<nat>, fmt: Format): (r: Bytes)
    requires Fits(values, fmt)
    ensures |r| == Size(fmt)
  {
    if |fmt| == 0 then [] else LE(values[0], fmt[0]) + Pack(values[1..], fmt[1..])
  }

  /** `struct.unpack` of exactly `calcsize` bytes. */
  function Unpack(raw: Bytes, fmt: Format): (r: seq<nat>)
    requires |raw| == Size(fmt)
    ensures Fits(r, fmt)
  {
    if |fmt| == 0 then []
    else
      var rest := Unpack(raw[fmt[0]..], fmt[1..]);
      assert forall i :: 1 <= i <= |rest| ==> ([FromLE(raw[..fmt[0]])] + rest)[i] == rest[i - 1];
      [FromLE(raw[..fmt[0]])] + rest
  }

  lemma {:induction false} UnpackPack(values: seq<nat>, fmt: Format)
    requires Fits(values, fmt)
    ensures Unpack(Pack(values, fmt), fmt) == values
  {
    if |fmt| > 0 {
      var s := Pack(values, fmt);
      assert s[..fmt[0]] == LE(values[0], fmt[0]);
      assert s[fmt[0]..] == Pack(values[1..], fmt[1..]);
      FromLEOfLE(values[0], fmt[0]);
      assert Fits(values[1..], fmt[1..]) by {
        forall i | 0 <= i < |fmt| - 1 ensures values[1..][i] < Pow256(fmt[1..][i]) {
          assert values[1..][i] == values[i + 1];
        }
      }
      UnpackPack(values[1..], fmt[1..]);
    }
  }

  /** `struct.unpack(fmt, buffer.read(calcsize(fmt)))`, with the struct.error of a short read. */
  function ReadStruct(input: Bytes, fmt: Format): (r: Result<(seq<nat>, Bytes)>)
    ensures r.Ok? <==> Size(fmt) <= |input|
    ensures r.Ok? ==> Fits(r.value.0, fmt) && |r.value.1| == |input| - Size(fmt)
    ensures r.Ok? && |fmt| > 0 ==> fmt[0] <= |input| && r.value.0[0] == FromLE(input[..fmt[0]])
  {
    var raw := ReadExact(input, Size(fmt));
    if raw.Err? then Err(raw.error)
    else
      assert |fmt| > 0 ==> raw.value.0[..fmt[0]] == input[..fmt[0]];
      Ok((Unpack(raw.value.0, fmt), raw.value.1))
  }

  lemma ReadStructOf(values: seq<nat>, fmt: Format, rest: Bytes)
    requires Fits(values, fmt)
    ensures ReadStruct(Pack(values, fmt) + rest, fmt) == Ok((values, rest))
  {
    ReadExactOf(Pack(values, fmt), rest);
    UnpackPack(values, fmt);
  }

  // ------------------------------------------------------- UTF-16LE paths

  /** `str.encode('utf-16le')` on a path of code units. */
  function Utf16(p: Path): (r: Bytes)
    ensures |r| == 2 * |p|
  {
    if |p| == 0 then [] else U16(p[0]) + Utf16(p[1..])
  }

  /** `bytes.decode('utf-16le')` on an even number of bytes, one code unit per pair. */
  function FromUtf16(b: Bytes): (r: Path)
    requires |b| % 2 == 0
    ensures |r| == |b| / 2
  {
    if |b| == 0 then []
    else
      Pow256Values();
      [FromLE(b[..2]) as CodeUnit] + FromUtf16(b[2..])
  }

  lemma {:induction false} FromUtf16OfUtf16(p: Path)
    ensures FromUtf16(Utf16(p)) == p
  {
    if |p| > 0 {
      var b := Utf16(p);
      Pow256Values();
      assert b[..2] == LE(p[0], 2);
      assert b[2..] == Utf16(p[1..]);
      FromLEOfLE(p[0], 2);
      FromUtf16OfUtf16(p[1..]);
    }
  }

  /** The zlib codec at the interfaces the archive uses: decompress undoes compress. */
  ghost predicate Inverts(compress: Bytes -> Bytes, decompress: Bytes -> Option<Bytes>) {
    forall x :: decompress(compress(x)) == Some(x)
  }
}
