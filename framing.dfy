// The compression layer shared by Socket and TcpConnection: compressIfNeeded and
// decompressIfNeeded, and the VarInt length prefix of a sent frame. zlib is a
// parameter: deflate stands for compress2 and inflate for uncompress.
module Framing {
  import opened Wrappers
  import opened Ints
  import VarInts

  /** zlib as compression_util calls it, on non-empty input only. */
  datatype Zlib = Zlib(deflate: seq<byte> -> seq<byte>, inflate: seq<byte> -> Result<seq<byte>>)

  /** zlib inverts itself on data: a non-empty input deflates to a non-empty
      stream that inflates back to it, and to at most eight times the stream's
      size, which is what decompress makes room for. */
  predicate Inverts(z: Zlib, data: seq<byte>)
  {
    data != [] ==> z.deflate(data) != [] && z.inflate(z.deflate(data)) == Ok(data)
                   && |data| <= 8 * |z.deflate(data)|
  }

  /** mc::compression::compress: empty input gives empty output. */
  function Compress(z: Zlib, data: seq<byte>): (r: seq<byte>)
    ensures data == [] ==> r == []
  {
    if data == [] then [] else z.deflate(data)
  }

  /** mc::compression::decompress: empty input gives empty output; otherwise
      uncompress into a buffer of four times the input's size, and once more into
      eight times when that is too small, so a larger output throws. */
  function Decompress(z: Zlib, data: seq<byte>): (r: Result<seq<byte>>)
    ensures data == [] ==> r == Ok([])
    ensures data != [] && r.Ok? ==> z.inflate(data) == r && |r.value| <= 8 * |data|
    ensures data != [] && z.inflate(data).Ok? && |z.inflate(data).value| > 8 * |data| ==> r == Err(ZlibFailed)
  {
    if data == [] then Ok([])
    else
      match z.inflate(data)
      case Err(e) => Err(e)
      case Ok(out) => if |out| > 8 * |data| then Err(ZlibFailed) else Ok(out)
  }

  /** Data zlib deflates more than 8:1 does not come back through decompress,
      although it inflates to it; Inverts leaves such data out. */
  lemma OverEightToOne(z: Zlib, data: seq<byte>)
    requires data != [] && z.deflate(data) != [] && z.inflate(z.deflate(data)) == Ok(data)
    requires |data| > 8 * |z.deflate(data)|
    ensures Decompress(z, Compress(z, data)) == Err(ZlibFailed) && !Inverts(z, data)
  {
  }

  /** compressIfNeeded: nothing below a negative threshold; otherwise a VarInt
      marker in front, the uncompressed size followed by the deflated bytes at or
      above the threshold, and 0 followed by the bytes themselves below it. */
  function CompressIfNeeded(threshold: int32, z: Zlib, data: seq<byte>): seq<byte>
  {
    if threshold < 0 then data
    else if Count32(|data|) >= threshold then VarInts.Encode(Count32(|data|)) + Compress(z, data)
    else VarInts.Encode(0) + data
  }

  /** decompressIfNeeded: the marker read with ReadBuffer::readVarInt, then either
      the rest verbatim (marker 0) or the rest inflated, which must have exactly
      the announced size. */
  function DecompressIfNeeded(threshold: int32, z: Zlib, data: seq<byte>): Result<seq<byte>>
  {
    if threshold < 0 then Ok(data)
    else
      var l := VarInts.At(data, 0);
      VarInts.ReadLoopNext(data, 0, 0, 0);
      match l.result
      case Err(e) => Err(e)
      case Ok(len) =>
        var rest := data[l.next..];
        if len == 0 then Ok(rest)
        else
          match Decompress(z, rest)
          case Err(e) => Err(e)
          case Ok(d) => if Count32(|d|) != len then Err(SizeMismatch) else Ok(d)
  }

  /** The frame sendPacket writes: the VarInt length of c, then c. */
  function Frame(c: seq<byte>): seq<byte>
  {
    VarInts.Encode(Count32(|c|)) + c
  }

  /** With a negative threshold both directions leave the bytes alone. */
  lemma PassThrough(threshold: int32, z: Zlib, data: seq<byte>)
    requires threshold < 0
    ensures CompressIfNeeded(threshold, z, data) == data
    ensures DecompressIfNeeded(threshold, z, data) == Ok(data)
  {
  }

  /** The prefix v of a sequence reads back as v, leaving the rest. */
  lemma MarkerRead(v: int32, rest: seq<byte>)
    ensures VarInts.At(VarInts.Encode(v) + rest, 0) == Read(Ok(v), |VarInts.Encode(v)|)
    ensures (VarInts.Encode(v) + rest)[|VarInts.Encode(v)|..] == rest
  {
    var d := VarInts.Encode(v) + rest;
    assert d[0..|VarInts.Encode(v)|] == VarInts.Encode(v);
    VarInts.RoundTrip(v, d, 0);
  }

  /** Below the threshold the output reads as marker 0 (one byte) and the data
      verbatim. */
  lemma BelowThreshold(threshold: int32, z: Zlib, data: seq<byte>)
    requires 0 <= threshold && Count32(|data|) < threshold
    ensures var out := CompressIfNeeded(threshold, z, data);
            VarInts.At(out, 0) == Read(Ok(0), 1) && out[1..] == data
  {
    MarkerRead(0, data);
    assert VarInts.Encode(0) == [0];
  }

  /** At or above the threshold the output reads as the size and the deflated data. */
  lemma AtThreshold(threshold: int32, z: Zlib, data: seq<byte>)
    requires 0 <= threshold <= Count32(|data|) && |data| < 0x8000_0000
    ensures var out := CompressIfNeeded(threshold, z, data);
            var k := |VarInts.Encode(|data|)|;
            VarInts.At(out, 0) == Read(Ok(|data|), k) && out[k..] == Compress(z, data)
  {
    MarkerRead(|data|, Compress(z, data));
  }

  /** Marker 0 hands back whatever follows it, for any threshold that is not negative. */
  lemma MarkerZero(threshold: int32, z: Zlib, rest: seq<byte>)
    requires threshold >= 0
    ensures DecompressIfNeeded(threshold, z, VarInts.Encode(0) + rest) == Ok(rest)
  {
    MarkerRead(0, rest);
  }

  /** A non-zero marker n succeeds exactly when the rest inflates to n bytes, and
      then yields the inflated bytes; an inflated size other than n is a
      SizeMismatch. */
  lemma MarkerSize(threshold: int32, z: Zlib, n: int32, c: seq<byte>)
    requires threshold >= 0 && n != 0
    ensures var r := DecompressIfNeeded(threshold, z, VarInts.Encode(n) + c);
            var d := Decompress(z, c);
            (r.Ok? <==> d.Ok? && Count32(|d.value|) == n)
            && (r.Ok? ==> r.value == d.value)
            && (d.Ok? && Count32(|d.value|) != n ==> r == Err(SizeMismatch))
  {
    MarkerRead(n, c);
  }

  /** decompressIfNeeded undoes compressIfNeeded under the same threshold, whenever
      zlib inverts itself on the data and its size fits an int32. */
  lemma RoundTrip(threshold: int32, z: Zlib, data: seq<byte>)
    requires |data| < 0x8000_0000 && Inverts(z, data)
    ensures DecompressIfNeeded(threshold, z, CompressIfNeeded(threshold, z, data)) == Ok(data)
  {
    if threshold >= 0 {
      if |data| >= threshold {
        MarkerRead(|data|, Compress(z, data));
      } else {
        MarkerZero(threshold, z, data);
      }
    }
  }
}
