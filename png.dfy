/** `png_dimensions`: the pixel size of a PNG image, read from its IHDR chunk (PNG
    specification, W3C / ISO/IEC 15948, sections 5.2, 5.3 and 11.2.2). All three copies
    of the inset extension share this code. */
module Png {
  import opened Wrappers
  import opened Strings

  /** The eight-byte PNG signature `\x89PNG\r\n\x1a\n`. */
  const SIGNATURE: seq<byte> := [0x89, 0x50, 0x4E, 0x47, 0x0D, 0x0A, 0x1A, 0x0A]

  /** The chunk type `IHDR`. */
  const IHDR: seq<byte> := [0x49, 0x48, 0x44, 0x52]

  const TWO_32: nat := 0x1_0000_0000

  /** Which `assert` of `png_dimensions` fails. */
  datatype HeaderError = TooShort | BadSignature | NotIhdr

  /** `struct.unpack(">L", b)`: a big-endian unsigned 32-bit integer. */
  function Be32(b: seq<byte>): (r: nat)
    requires |b| == 4
    ensures r < TWO_32
  {
    ((b[0] as int * 256 + b[1]) * 256 + b[2]) * 256 + b[3]
  }

  /** `struct.pack(">L", n)`. */
  function Be32Bytes(n: nat): (r: seq<byte>)
    requires n < TWO_32
    ensures |r| == 4
  {
    [n / 0x100_0000, n / 0x1_0000 % 256, n / 256 % 256, n % 256]
  }

  lemma Be32RoundTrip(n: nat)
    requires n < TWO_32
    ensures Be32(Be32Bytes(n)) == n
  {
    var b := Be32Bytes(n);
    assert b[0] as int * 256 + b[1] == n / 0x1_0000;
    assert (b[0] as int * 256 + b[1]) * 256 + b[2] == n / 256;
  }

  /** `png_dimensions(png_data)`: `(width, height)`, or the assertion that stops it. */
  function PngDimensions(data: seq<byte>): (r: Result<(nat, nat), HeaderError>)
    ensures r == Failure(TooShort) <==> |data| < 24
    ensures r == Failure(BadSignature) <==> |data| >= 24 && data[..8] != SIGNATURE
    ensures r == Failure(NotIhdr) <==> |data| >= 24 && data[..8] == SIGNATURE && data[12..16] != IHDR
    ensures r.Success? ==> r.value.0 < TWO_32 && r.value.1 < TWO_32
  {
    if |data| < 24 then Failure(TooShort)
    else if data[..8] != SIGNATURE then Failure(BadSignature)
    else if data[12..16] != IHDR then Failure(NotIhdr)
    else Success((Be32(data[16..20]), Be32(data[20..24])))
  }

  /** The first 24 bytes of a PNG file: signature, IHDR length, IHDR type, width, height. */
  function Header(length: seq<byte>, w: nat, h: nat): (r: seq<byte>)
    requires |length| == 4 && w < TWO_32 && h < TWO_32
    ensures |r| == 24
  {
    SIGNATURE + length + IHDR + Be32Bytes(w) + Be32Bytes(h)
  }

  /** Any file that starts with a PNG header decodes to the width and height written there. */
  lemma PngDimensionsOfHeader(length: seq<byte>, w: nat, h: nat, rest: seq<byte>)
    requires |length| == 4 && w < TWO_32 && h < TWO_32
    ensures PngDimensions(Header(length, w, h) + rest) == Success((w, h))
  {
    var data := Header(length, w, h) + rest;
    assert data[..8] == SIGNATURE;
    assert data[12..16] == IHDR;
    assert data[16..20] == Be32Bytes(w);
    assert data[20..24] == Be32Bytes(h);
    Be32RoundTrip(w);
    Be32RoundTrip(h);
  }

  /** A decoded header is the header of those dimensions: nothing else is read. */
  lemma PngDimensionsOnlyHeader(data: seq<byte>)
    requires PngDimensions(data).Success?
    ensures var (w, h) := PngDimensions(data).value;
      data == Header(data[8..12], w, h) + data[24..]
  {
    var (w, h) := PngDimensions(data).value;
    Be32Bytes32(data[16..20]);
    Be32Bytes32(data[20..24]);
    assert data == data[..8] + data[8..12] + data[12..16] + data[16..20] + data[20..24] + data[24..];
  }

  lemma Be32Bytes32(b: seq<byte>)
    requires |b| == 4
    ensures Be32Bytes(Be32(b)) == b
  {
    var n := Be32(b);
    assert n / 0x100_0000 == b[0];
    assert n / 0x1_0000 % 256 == b[1];
    assert n / 256 % 256 == b[2];
  }
}
