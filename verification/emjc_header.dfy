/** The fixed 16-byte EMJC header and the layout of the decompressed payload.

    Header layout (all fields little-endian u16):
      0..3 magic "emj1", 4 version, 6 reserved, 8 width, 10 height,
      12 appendix length, 14 padding; the compressed payload starts at 16. */
module EmjcHeader {
  import opened CArith
  import opened Wrappers

  const HeaderSize: nat := 16

  /** The ASCII bytes 'e', 'm', 'j', '1'. */
  const Magic: seq<Byte> := [0x65, 0x6D, 0x6A, 0x31]

  predicate HasMagic(src: seq<Byte>)
    requires |src| >= 4
  {
    src[0] == Magic[0] && src[1] == Magic[1] && src[2] == Magic[2] && src[3] == Magic[3]
  }

  /** A little-endian unsigned 16-bit field. */
  function LeU16(lo: Byte, hi: Byte): nat {
    lo + 256 * hi
  }

  function Width(src: seq<Byte>): nat
    requires |src| >= HeaderSize
  {
    LeU16(src[8], src[9])
  }

  function Height(src: seq<Byte>): nat
    requires |src| >= HeaderSize
  {
    LeU16(src[10], src[11])
  }

  function AppendixLength(src: seq<Byte>): nat
    requires |src| >= HeaderSize
  {
    LeU16(src[12], src[13])
  }

  datatype Header = Header(width: nat, height: nat, appendixLength: nat)
  {
    predicate Valid() {
      width < 0x1_0000 && height < 0x1_0000 && appendixLength < 0x1_0000
    }
  }

  /** The header fields the decoder uses, or None when the magic is wrong. */
  function ParseHeader(src: seq<Byte>): (r: Option<Header>)
    requires |src| >= HeaderSize
    ensures r.Some? <==> HasMagic(src)
    ensures r.Some? ==> r.value.Valid()
  {
    if HasMagic(src) then Some(Header(Width(src), Height(src), AppendixLength(src)))
    else None
  }

  /** The two bytes of a u16, low byte first. */
  function U16Bytes(v: nat): seq<Byte>
    requires v < 0x1_0000
  {
    [v % 256, v / 256]
  }

  lemma U16RoundTrip(lo: Byte, hi: Byte)
    ensures U16Bytes(LeU16(lo, hi)) == [lo, hi]
  {
  }

  /** A header as an encoder would write it; version, reserved word and
      padding are not read by the decoder and are written as zero. */
  function EncodeHeader(hdr: Header): (s: seq<Byte>)
    requires hdr.Valid()
    ensures |s| == HeaderSize
  {
    Magic + [0, 0, 0, 0] + U16Bytes(hdr.width) + U16Bytes(hdr.height)
      + U16Bytes(hdr.appendixLength) + [0, 0]
  }

  /** Parsing what the encoder wrote gives the header back. */
  lemma ParseEncodeHeader(hdr: Header)
    requires hdr.Valid()
    ensures ParseHeader(EncodeHeader(hdr)) == Some(hdr)
  {
    var s := EncodeHeader(hdr);
    assert s[8..10] == U16Bytes(hdr.width);
    assert s[10..12] == U16Bytes(hdr.height);
    assert s[12..14] == U16Bytes(hdr.appendixLength);
  }

  /** Conversely, re-encoding a parsed header reproduces every byte the
      decoder reads (magic, width, height, appendix length). */
  lemma EncodeParseHeader(src: seq<Byte>)
    requires |src| >= HeaderSize && HasMagic(src)
    ensures var s := EncodeHeader(ParseHeader(src).value);
      s[..4] == src[..4] && s[8..14] == src[8..14]
  {
    var hdr := ParseHeader(src).value;
    var s := EncodeHeader(hdr);
    U16RoundTrip(src[8], src[9]);
    U16RoundTrip(src[10], src[11]);
    U16RoundTrip(src[12], src[13]);
    forall k | 0 <= k < 14 && !(4 <= k < 8)
      ensures s[k] == src[k]
    {
    }
  }

  /** Size of the decompressed payload: alpha plane (h*w), one filter byte per
      row (h), interleaved colour-difference triples (3*h*w), appendix. */
  function ExpectedLength(hdr: Header): nat {
    hdr.height * hdr.width + hdr.height + hdr.height * hdr.width * 3 + hdr.appendixLength
  }

  /** The four consecutive regions of the decompressed payload. */
  datatype Planes = Planes(alpha: seq<Byte>, filters: seq<Byte>, rgb: seq<Byte>, appendix: seq<Byte>)

  function SplitPlanes(plane: seq<Byte>, hdr: Header): (p: Planes)
    requires |plane| == ExpectedLength(hdr)
    ensures |p.alpha| == hdr.width * hdr.height
    ensures |p.filters| == hdr.height
    ensures |p.rgb| == 3 * (hdr.width * hdr.height)
    ensures |p.appendix| == hdr.appendixLength
    ensures p.alpha + p.filters + p.rgb + p.appendix == plane
  {
    var n := hdr.width * hdr.height;
    assert hdr.height * hdr.width * 3 == 3 * n;
    var filtersAt := n;
    var rgbAt := n + hdr.height;
    var appendixAt := rgbAt + 3 * n;
    var p := Planes(plane[..filtersAt], plane[filtersAt..rgbAt], plane[rgbAt..appendixAt], plane[appendixAt..]);
    assert p.alpha + p.filters + p.rgb + p.appendix == plane by {
      assert plane == plane[..filtersAt] + plane[filtersAt..rgbAt] + plane[rgbAt..appendixAt] + plane[appendixAt..];
    }
    p
  }
}
