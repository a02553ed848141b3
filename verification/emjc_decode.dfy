/** The whole decode path: header and size checks, the appendix pass, the
    raster walk, and the BGRA store; then the glyph-bitmap geometry the
    loader gives the decoder to write into.

    The LZFSE decompressor is outside the model: its output is the
    parameter `plane`, and the length it reports is `|plane|`. */
module EmjcDecode {
  import opened CArith
  import opened Wrappers
  import opened EmjcHeader
  import opened EmjcPixel
  import opened EmjcAppendix
  import opened EmjcReconstruct

  /** The raster walk's inputs for a header and a payload of the right size:
      the planes of the payload, and the accumulator the appendix seeds
      over all 3 * w * h interleaved slots. */
  function ImageOf(hdr: Header, plane: seq<Byte>): (img: Image)
    requires |plane| == ExpectedLength(hdr)
    ensures img.Valid() && img.width == hdr.width && img.height == hdr.height
    ensures img.alpha + img.filters + img.rgb == plane[..|plane| - hdr.appendixLength]
    ensures img.seed == Seeded(plane[|plane| - hdr.appendixLength..], 3 * (hdr.width * hdr.height))
  {
    var p := SplitPlanes(plane, hdr);
    FrontOfConcat(p.alpha + p.filters + p.rgb, p.appendix, plane);
    Image(hdr.width, hdr.height, p.alpha, p.filters, p.rgb, Seeded(p.appendix, 3 * (hdr.width * hdr.height)))
  }

  lemma FrontOfConcat<T>(front: seq<T>, back: seq<T>, s: seq<T>)
    requires front + back == s
    ensures |back| <= |s| && front == s[..|s| - |back|] && back == s[|s| - |back|..]
  {
  }

  /** For every header the size check admits, the appendix leaves only the
      corrections 0, 128, 256, 384 in the accumulator, so every accumulator
      triple and every colour before the wrap fits the decoder's `int32_t`. */
  lemma DecodedFitsInt32(hdr: Header, plane: seq<Byte>, i: nat)
    requires hdr.Valid() && |plane| == ExpectedLength(hdr) && i < hdr.width * hdr.height
    ensures var t := Reconstructed(ImageOf(hdr, plane), i);
      IsInt32(t.c0) && IsInt32(t.c1) && IsInt32(t.c2)
    ensures var c := InverseColourTransform(Reconstructed(ImageOf(hdr, plane), i));
      IsInt32(c.b) && IsInt32(c.g) && IsInt32(c.r)
  {
    var img := ImageOf(hdr, plane);
    var appendix := plane[|plane| - hdr.appendixLength..];
    SeededValues(appendix, 3 * (hdr.width * hdr.height), |appendix|);
    ReconstructedFitsInt32(img, i);
  }

  /** The output bytes of pixels 0 .. n-1: byte k is byte k % 4 of pixel k / 4. */
  function BitmapPrefix(img: Image, n: nat): (bmp: seq<Byte>)
    requires img.Valid() && n <= img.Pixels()
    ensures |bmp| == 4 * n
  {
    seq(4 * n, k requires 0 <= k < 4 * n => PixelBytes(Reconstructed(img, k / 4), img.alpha[k / 4])[k % 4])
  }

  /** The decoded BGRA bitmap: every pixel, in raster order. */
  function Bitmap(img: Image): (bmp: seq<Byte>)
    requires img.Valid()
    ensures |bmp| == 4 * img.Pixels()
  {
    BitmapPrefix(img, img.Pixels())
  }

  /** Pixel i occupies bytes 4i .. 4i+3 of the bitmap: B, G, R of its
      reconstructed triple after the colour transform and the 257 wrap,
      then its alpha byte verbatim. */
  lemma BitmapPrefixPixel(img: Image, n: nat, i: nat)
    requires img.Valid() && i < n <= img.Pixels()
    ensures BitmapPrefix(img, n)[4 * i..4 * i + 4] == PixelBytes(Reconstructed(img, i), img.alpha[i])
  {
    var bmp, px := BitmapPrefix(img, n), PixelBytes(Reconstructed(img, i), img.alpha[i]);
    forall k | 0 <= k < 4
      ensures bmp[4 * i + k] == px[k]
    {
      assert (4 * i + k) / 4 == i && (4 * i + k) % 4 == k;
    }
  }

  lemma BitmapPixel(img: Image, i: nat)
    requires img.Valid() && i < img.Pixels()
    ensures var c := InverseColourTransform(Reconstructed(img, i));
      Bitmap(img)[4 * i..4 * i + 4] == [StoreColour(c.b), StoreColour(c.g), StoreColour(c.r), img.alpha[i]]
  {
    BitmapPrefixPixel(img, img.Pixels(), i);
  }

  /** The result of decoding `src` whose compressed payload decompresses to
      `plane`: none when the magic is not "emj1" or the payload size is not
      the one the header implies; otherwise 4 * w * h bytes of BGRA. */
  function Decode(src: seq<Byte>, plane: seq<Byte>): (r: Option<seq<Byte>>)
    requires |src| >= HeaderSize
    ensures r.Some? <==> HasMagic(src) && |plane| == ExpectedLength(Header(Width(src), Height(src), AppendixLength(src)))
    ensures r.Some? ==> |r.value| == 4 * (Width(src) * Height(src))
  {
    match ParseHeader(src)
    case None => None
    case Some(hdr) =>
      if |plane| != ExpectedLength(hdr) then None
      else Some(Bitmap(ImageOf(hdr, plane)))
  }

  /** Pixel i of a successful decode: B, G, R of its reconstructed triple,
      then byte i of the decompressed payload (the alpha plane) verbatim. */
  lemma DecodedPixel(src: seq<Byte>, plane: seq<Byte>, i: nat)
    requires |src| >= HeaderSize && Decode(src, plane).Some? && i < Width(src) * Height(src)
    ensures var img := ImageOf(Header(Width(src), Height(src), AppendixLength(src)), plane);
      var c := InverseColourTransform(Reconstructed(img, i));
      Decode(src, plane).value[4 * i..4 * i + 4] == [StoreColour(c.b), StoreColour(c.g), StoreColour(c.r), plane[i]]
  {
    var img := ImageOf(Header(Width(src), Height(src), AppendixLength(src)), plane);
    BitmapPixel(img, i);
    assert img.alpha[i] == (img.alpha + img.filters + img.rgb)[i];
  }

  /** `emjc_decode_buffer`: 0 and the decoded bitmap in the first 4 * w * h
      bytes of `dst`, or -1 with `dst` untouched. */
  method DecodeBuffer(dst: array<Byte>, src: seq<Byte>, plane: seq<Byte>) returns (status: int)
    requires |src| >= HeaderSize && dst.Length >= 4 * (Width(src) * Height(src))
    modifies dst
    ensures status == 0 || status == -1
    ensures status == 0 <==> Decode(src, plane).Some?
    ensures status == -1 ==> dst[..] == old(dst[..])
    ensures status == 0 ==> dst[..4 * (Width(src) * Height(src))] == Decode(src, plane).value
    ensures forall k :: 4 * (Width(src) * Height(src)) <= k < dst.Length ==> dst[k] == old(dst[k])
  {
    if src[0] != Magic[0] || src[1] != Magic[1] || src[2] != Magic[2] || src[3] != Magic[3] {
      return -1;
    }
    var width := LeU16(src[8], src[9]);
    var height := LeU16(src[10], src[11]);
    var appendixLength := LeU16(src[12], src[13]);
    var filterLength := height;
    var dstLength := height * width + filterLength + height * width * 3 + appendixLength;
    if |plane| != dstLength {
      return -1;
    }
    var hdr := Header(width, height, appendixLength);
    var pixels := height * width;
    var colors := pixels * 3;
    var alpha := plane[..pixels];
    var filters := plane[pixels..pixels + filterLength];
    var rgb := plane[pixels + filterLength..pixels + filterLength + colors];
    var appendix := plane[pixels + filterLength + colors..];
    ghost var img := ImageOf(hdr, plane);
    assert alpha == img.alpha && filters == img.filters && rgb == img.rgb by {
      var front := plane[..|plane| - appendixLength];
      assert img.alpha + img.filters + img.rgb == front;
      assert alpha == front[..pixels] && filters == front[pixels..pixels + filterLength];
      assert rgb == front[pixels + filterLength..];
    }

    RasterWalk(dst, img, width, height, alpha, filters, rgb, appendix);
    return 0;
  }

  /** Everything after the checks: the zeroed accumulator, the appendix pass,
      then the nested y / x loops over the rows, storing every pixel. */
  method RasterWalk(dst: array<Byte>, ghost img: Image, width: nat, height: nat, alpha: seq<Byte>,
                    filters: seq<Byte>, rgb: seq<Byte>, appendix: seq<Byte>)
    requires img.Valid() && width == img.width && height == img.height
    requires alpha == img.alpha && filters == img.filters && rgb == img.rgb
    requires img.seed == Seeded(appendix, 3 * img.Pixels())
    requires 4 * img.Pixels() <= dst.Length
    modifies dst
    ensures dst[..4 * img.Pixels()] == Bitmap(img)
    ensures forall k :: 4 * img.Pixels() <= k < dst.Length ==> dst[k] == old(dst[k])
  {
    var colors := height * width * 3;
    PlaneSizes(width, height);
    var buffer := new int[colors](_ => 0);
    SeedAppendix(buffer, appendix);
    WalkRows(dst, buffer, img, alpha, filters, rgb, width, height);
  }

  /** The nested loops proper, over the seeded accumulator. */
  method WalkRows(dst: array<Byte>, buffer: array<int>, ghost img: Image, alpha: seq<Byte>,
                  filters: seq<Byte>, rgb: seq<Byte>, width: nat, height: nat)
    requires img.Valid() && width == img.width && height == img.height
    requires alpha == img.alpha && filters == img.filters && rgb == img.rgb
    requires buffer.Length == 3 * img.Pixels() && 4 * img.Pixels() <= dst.Length
    requires buffer[..] == img.seed
    modifies buffer, dst
    ensures dst[..4 * img.Pixels()] == Bitmap(img)
    ensures forall k :: 4 * img.Pixels() <= k < dst.Length ==> dst[k] == old(dst[k])
  {
    var y, i := 0, 0;
    while y < height
      invariant 0 <= y <= height && i == RowStart(y, width) && i <= img.Pixels()
      invariant 4 * i <= dst.Length
      invariant forall j :: 0 <= j < i ==> TripleAt(buffer, j) == Reconstructed(img, j)
      invariant forall k :: 3 * i <= k < buffer.Length ==> buffer[k] == img.seed[k]
      invariant dst[..4 * i] == BitmapPrefix(img, i)
      invariant forall k :: 4 * i <= k < dst.Length ==> dst[k] == old(dst[k])
    {
      RowStartInImage(width, height, y);
      i := DecodeRow(dst, buffer, img, alpha, filters, rgb, width, y, i);
      y := y + 1;
    }
    ImageRows(width, height);
    WholeBitmap(dst[..], img, i);
  }

  /** Storing pixel i extends the bitmap of pixels 0 .. i-1 by its four bytes. */
  lemma BitmapStep(img: Image, i: nat, next: nat, t: Triple)
    requires img.Valid() && i < img.Pixels() && next == i + 1 && t == Reconstructed(img, i)
    ensures BitmapPrefix(img, next) == BitmapPrefix(img, i) + PixelBytes(t, img.alpha[i])
  {
    var longer, shorter, px := BitmapPrefix(img, next), BitmapPrefix(img, i), PixelBytes(t, img.alpha[i]);
    forall k | 0 <= k < 4 * next
      ensures longer[k] == (shorter + px)[k]
    {
      if k >= 4 * i {
        assert k / 4 == i && k % 4 == k - 4 * i;
      }
    }
  }

  lemma WholeBitmap(s: seq<Byte>, img: Image, n: nat)
    requires img.Valid() && n == img.Pixels() && 4 * n <= |s| && s[..4 * n] == BitmapPrefix(img, n)
    ensures s[..4 * img.Pixels()] == Bitmap(img)
  {
  }

  /** One pass of the outer loop: row y, whose first pixel has raster index
      i, reconstructed and stored pixel by pixel. */
  method DecodeRow(dst: array<Byte>, buffer: array<int>, ghost img: Image, alpha: seq<Byte>,
                   filters: seq<Byte>, rgb: seq<Byte>, width: nat, y: nat, i: nat) returns (next: nat)
    requires img.Valid() && alpha == img.alpha && filters == img.filters && rgb == img.rgb
    requires width == img.width && y < img.height && i + width <= img.Pixels()
    requires width > 0 ==> Row(i, width) == y && Column(i, width) == 0
    requires buffer.Length == 3 * img.Pixels() && 4 * img.Pixels() <= dst.Length
    requires forall j :: 0 <= j < i ==> TripleAt(buffer, j) == Reconstructed(img, j)
    requires forall k :: 3 * i <= k < buffer.Length ==> buffer[k] == img.seed[k]
    requires dst[..4 * i] == BitmapPrefix(img, i)
    modifies buffer, dst
    ensures next == i + width
    ensures forall j :: 0 <= j < next ==> TripleAt(buffer, j) == Reconstructed(img, j)
    ensures forall k :: 3 * next <= k < buffer.Length ==> buffer[k] == img.seed[k]
    ensures dst[..4 * next] == BitmapPrefix(img, next)
    ensures forall k :: 4 * next <= k < dst.Length ==> dst[k] == old(dst[k])
  {
    var x := 0;
    next := i;
    while x < width
      invariant 0 <= x <= width && next == i + x
      invariant forall j :: 0 <= j < next ==> TripleAt(buffer, j) == Reconstructed(img, j)
      invariant forall k :: 3 * next <= k < buffer.Length ==> buffer[k] == img.seed[k]
      invariant dst[..4 * next] == BitmapPrefix(img, next)
      invariant forall k :: 4 * next <= k < dst.Length ==> dst[k] == old(dst[k])
    {
      RowWalk(i, width, x, next);
      next := DecodePixel(dst, buffer, img, alpha, rgb, filters[y], width, next, x, y);
      x := x + 1;
    }
  }

  /** One pass of the inner loop: pixel (x, y), raster index i, reconstructed
      in the accumulator and stored into the output. */
  method DecodePixel(dst: array<Byte>, buffer: array<int>, ghost img: Image, alpha: seq<Byte>,
                     rgb: seq<Byte>, mode: Byte, w: nat, i: nat, x: nat, y: nat) returns (next: nat)
    requires img.Valid() && alpha == img.alpha && rgb == img.rgb
    requires w == img.width && y < img.height && mode == img.filters[y]
    requires i < img.Pixels() && Row(i, w) == y && Column(i, w) == x
    requires buffer.Length == 3 * img.Pixels() && 4 * img.Pixels() <= dst.Length
    requires forall j :: 0 <= j < i ==> TripleAt(buffer, j) == Reconstructed(img, j)
    requires forall k :: 3 * i <= k < buffer.Length ==> buffer[k] == img.seed[k]
    requires dst[..4 * i] == BitmapPrefix(img, i)
    modifies buffer, dst
    ensures next == i + 1
    ensures forall j :: 0 <= j < next ==> TripleAt(buffer, j) == Reconstructed(img, j)
    ensures forall k :: 3 * next <= k < buffer.Length ==> buffer[k] == img.seed[k]
    ensures dst[..4 * next] == BitmapPrefix(img, next)
    ensures forall k :: 4 * next <= k < dst.Length ==> dst[k] == old(dst[k])
  {
    next := i + 1;
    ghost var before := dst[..4 * i];
    ReconstructPixel(buffer, img, rgb, mode, w, i, x, y);
    assert dst[..4 * i] == before;
    var base, p, q := buffer[i * 3 + 0], buffer[i * 3 + 1], buffer[i * 3 + 2];
    ghost var t := Triple(base, p, q);
    assert t == TripleAt(buffer, i) == Reconstructed(img, i);
    BitmapStep(img, i, next, t);
    StorePixel(dst, base, p, q, alpha[i], i, next);
  }

  /** The colour transform of pixel i's triple (base, p, q) and the store
      of B, G, R, A at 4i .. 4i+3. */
  method StorePixel(dst: array<Byte>, base: int, p: int, q: int, alpha: Byte, i: nat, ghost next: nat)
    requires next == i + 1 && 4 * next <= dst.Length
    modifies dst
    ensures dst[..4 * next] == old(dst[..4 * i]) + PixelBytes(Triple(base, p, q), alpha)
    ensures forall k :: 4 * next <= k < dst.Length ==> dst[k] == old(dst[k])
  {
    var c := InverseColourTransform(Triple(base, p, q));
    dst[i * 4 + 0] := StoreColour(c.b);
    dst[i * 4 + 1] := StoreColour(c.g);
    dst[i * 4 + 2] := StoreColour(c.r);
    dst[i * 4 + 3] := alpha;
    assert dst[..4 * next] == dst[..4 * i] + dst[4 * i..4 * i + 4];
  }

  // ---------------------------------------------------------------------
  // The glyph loader's geometry

  datatype Metrics = Metrics(width: nat, height: nat)

  /** A BGRA glyph bitmap: `rows` rows of `pitch` bytes each. */
  datatype GlyphBitmap = GlyphBitmap(width: nat, rows: nat, pitch: nat, buffer: seq<Byte>)

  datatype LoadError = InvalidFileFormat

  lemma PitchSize(width: nat, rows: nat)
    ensures rows * (width * 4) == 4 * (width * rows)
  {
  }

  /** `Load_SBit_EMJC`: the metrics are the header's width and height; the
      bitmap is `height` rows of `width * 4` bytes, zero-filled and then
      filled by the decoder; a decoder failure is an invalid file format. */
  method LoadSBitEmjc(data: seq<Byte>, plane: seq<Byte>) returns (metrics: Metrics, result: Result<GlyphBitmap, LoadError>)
    requires |data| >= HeaderSize
    ensures metrics == Metrics(Width(data), Height(data))
    ensures result.Failure? <==> Decode(data, plane).None?
    ensures result.Success? ==>
      && result.value.width == metrics.width && result.value.rows == metrics.height
      && result.value.pitch == 4 * metrics.width
      && |result.value.buffer| == result.value.rows * result.value.pitch
      && result.value.buffer == Decode(data, plane).value
  {
    metrics := Metrics(Width(data), Height(data));
    var width, rows := metrics.width, metrics.height;
    var pitch := width * 4;
    var size := rows * pitch;
    var buffer := new Byte[size](_ => 0);
    var status := DecodeBuffer(buffer, data, plane);
    if status != 0 {
      return metrics, Failure(InvalidFileFormat);
    }
    PitchSize(width, rows);
    assert buffer[..] == buffer[..size];
    result := Success(GlyphBitmap(width, rows, pitch, buffer[..]));
  }
}
