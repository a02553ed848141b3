# EMJC colour-emoji bitmap decoder, modelled in Dafny

This project models the EMJC decoder of FreeType's `sfnt` module
(`src/sfnt/emjc.c`). An EMJC glyph is a 16-byte header followed by an
LZFSE-compressed payload. The decoder works in these steps:

- It checks the magic `"emj1"` and reads the width, height and appendix
  length, each a little-endian u16.
- It requires the decompressed payload to be exactly
  `h*w + h + 3*h*w + appendix_length` bytes. The payload holds the alpha
  plane, then one filter byte per row, then the interleaved difference
  triples, then the appendix.
- It seeds a zeroed signed accumulator of `3*w*h` slots from the appendix.
- It walks the pixels in raster order. For each pixel it decodes the
  zig-zag differences over the seeded slots and undoes the row's
  prediction filter (modes 0 to 4).
- It applies the inverse colour transform and a modulo-257 wrap, and stores
  B, G, R and alpha.

`Load_SBit_EMJC` gives the decoder a bitmap of `height` rows with a pitch
of `width * 4`.

Modules:

- `CArith` (`c_arith.dfy`): C's truncating `/` and `%`, and how they
  compare with Dafny's Euclidean operators.
- `EmjcHeader` (`emjc_header.dfy`): header fields, an encoder for the
  round trip, the expected payload size and the split into four planes.
- `EmjcPixel` (`emjc_pixel.dfy`): `convert_to_difference`,
  `filter4_value`, the five filters, the inverse colour transform and the
  257 wrap. All of it is pure.
- `EmjcAppendix` (`emjc_appendix.dfy`): the appendix pass.
  - The functional specification `Seeded`, with a closed-form write
    position `Cursor`.
  - The in-place loop `SeedAppendix`.
- `EmjcReconstruct` (`emjc_reconstruct.dfy`): the pixel walk.
  - The functional specification `Reconstructed(img, i)` is recursive over
    the raster index, because a pixel depends only on earlier pixels.
  - The in-place step over the `array<int>` accumulator is proved against
    it.
- `EmjcDecode` (`emjc_decode.dfy`): the whole decode.
  - `Decode` is the functional result: none, or the BGRA bytes.
  - `DecodeBuffer` is the imperative decoder over the output array.
    `RasterWalk`, `WalkRows`, `DecodeRow`, `DecodePixel` and `StorePixel`
    are its loops and loop bodies.
  - `LoadSBitEmjc` is the loader's geometry.

Two details of the code decide behaviour that is easy to misread:

- In filter mode 1 the comparison is strict (`<`, emjc.c:123), so a tie
  takes the **left** neighbour.
- The appendix cursor runs over all `3*w*h` interleaved slots
  (emjc.c:105,108), so a correction can land in any channel of any pixel.

All integers are mathematical. The `int32_t` accumulator cannot overflow
for any 16-bit width and height, and `DecodedFitsInt32` proves it rather
than modelling wrap-around.

## Model

| member | source | states |
|---|---|---|
| CArith.CDiv | src/sfnt/emjc.c:176-192 | definition of C's truncating `/` for a positive divisor; its properties are in `TruncatingDivision` and `CDivVersusEuclid` |
| CArith.CMod | src/sfnt/emjc.c:193-195 | definition of C's `%` for a positive divisor; its properties are in `TruncatingDivision` and `CDivVersusEuclid` |
| CArith.TruncatingDivision | src/sfnt/emjc.c:176-192 | C division of `a` by a positive `b`: `q*b + r == a`, the remainder takes the sign of `a` and is smaller than `b`, and the quotient never exceeds `a/b` in magnitude |
| CArith.CDivVersusEuclid | src/sfnt/emjc.c:176-192 | C's quotient and remainder equal Dafny's Euclidean ones except for a negative dividend that `b` does not divide, where the quotient is one larger and the remainder `b` smaller |
| EmjcHeader.Width | src/sfnt/emjc.c:32-37 | definition of `emjc_width` (bytes 8, 9 little-endian); its properties are in `U16RoundTrip` and `EncodeParseHeader` |
| EmjcHeader.Height | src/sfnt/emjc.c:39-44 | definition of `emjc_height` (bytes 10, 11 little-endian); its properties are in `U16RoundTrip` and `EncodeParseHeader` |
| EmjcHeader.AppendixLength | src/sfnt/emjc.c:85 | definition of the appendix length read (bytes 12, 13 little-endian); its properties are in `U16RoundTrip` and `EncodeParseHeader` |
| EmjcHeader.ExpectedLength | src/sfnt/emjc.c:87-88 | definition of `dst_length`; its properties are in `SplitPlanes` and `Decode` |
| EmjcHeader.ParseHeader | src/sfnt/emjc.c:78-85 | a header is produced exactly when bytes 0..3 are `e`,`m`,`j`,`1`; its three fields are 16-bit values |
| EmjcHeader.U16RoundTrip | src/sfnt/emjc.c:32-44 | reading `lo + 256*hi` as a little-endian u16 and splitting it again gives back `lo` and `hi` |
| EmjcHeader.ParseEncodeHeader | src/sfnt/emjc.c:83-85 | parsing an encoded header returns that header |
| EmjcHeader.EncodeParseHeader | src/sfnt/emjc.c:78-85 | re-encoding a parsed header reproduces the magic and the width, height and appendix-length bytes (8..13) of the input |
| EmjcHeader.SplitPlanes | src/sfnt/emjc.c:87-100 | a payload of the expected size splits into alpha (`w*h`), filters (`h`), triples (`3*w*h`) and appendix (`appendix_length`), which concatenate back to the payload |
| EmjcPixel.ConvertToDifference | src/sfnt/emjc.c:55-61 | definition of `convert_to_difference`; its properties are in `ConvertEncodeDifference` and `EncodeConvertDifference` |
| EmjcPixel.ConvertEncodeDifference | src/sfnt/emjc.c:55-61 | every difference in [-511, 511], encoded as a raw byte plus an appendix class, is decoded back exactly by `convert_to_difference` |
| EmjcPixel.EncodeConvertDifference | src/sfnt/emjc.c:55-61 | every raw byte with a seed of 0, 128, 256 or 384 decodes to a difference in [-511, 511], and re-encoding it gives back that byte and class, except byte 1 with seed 0 ("negative zero") |
| EmjcPixel.Filter4Value | src/sfnt/emjc.c:63-70 | definition of `filter4_value`; its properties are in `Filter4Rounding` and `MagnitudeOfMean` |
| EmjcPixel.Filter4Rounding | src/sfnt/emjc.c:63-70 | `filter4_value(l, u)` is `(l+u+1)/2` truncated toward zero. For `l+u >= -1` it is the mean rounded half up. Below -1 it is the mean rounded toward zero for odd sums and the mean plus one for even sums. It is symmetric and no larger in magnitude than its larger input |
| EmjcPixel.Unfilter | src/sfnt/emjc.c:115-171 | definition of the filter switch on values; its properties are in `UnfilterAddsPredictor`, `UnfilterInvertsPrediction`, `Mode1TieGoesLeft` and `UnfilterBound` |
| EmjcPixel.UnfilterAddsPredictor | src/sfnt/emjc.c:115-171 | undoing any filter mode adds exactly the predictor of that mode to the baseline; the predictor is an independent table of which neighbour each mode uses |
| EmjcPixel.UnfilterInvertsPrediction | src/sfnt/emjc.c:115-171 | for every mode and neighbourhood, unfiltering the encoder's residual gives back the target pixel, and unfiltering zero gives the predictor |
| EmjcPixel.Mode1TieGoesLeft | src/sfnt/emjc.c:118-131 | with both neighbours present and equal channel-0 gradients, mode 1 adds the left neighbour |
| EmjcPixel.MagnitudeOfSum | src/sfnt/emjc.c:124-168 | the `+=` of a neighbour raises the largest channel magnitude by at most that neighbour's |
| EmjcPixel.MagnitudeOfMean | src/sfnt/emjc.c:157-160 | the per-channel `filter4_value` of two triples is bounded by their common magnitude bound |
| EmjcPixel.UnfilterBound | src/sfnt/emjc.c:115-171 | undoing a filter raises the magnitude of the baseline by at most the bound of the neighbours it may use |
| EmjcPixel.PredictorBound | src/sfnt/emjc.c:115-171 | every predictor (a neighbour, their mean or zero) is within the neighbours' magnitude bound |
| EmjcPixel.InverseColourTransform | src/sfnt/emjc.c:176-192 | definition of the four-way colour transform; its properties are in `InverseColourTransformIsYCoCgR`, `InverseColourTransformExact`, `ColourShape` and `InverseColourTransformBound` |
| EmjcPixel.YCoCgRRoundTrip | src/sfnt/emjc.c:176-192 | the reference YCoCg-R lifting pair, used to characterise the decoder's transform, is a bijection in both directions |
| EmjcPixel.InverseColourTransformIsYCoCgR | src/sfnt/emjc.c:176-192 | the four-way sign split equals the YCoCg-R inverse, except that a negative `p` lowers blue by one and a negative `q` lowers blue and red by one |
| EmjcPixel.InverseColourTransformExact | src/sfnt/emjc.c:176-192 | when the forward transform of a colour has non-negative chroma, the decoder's transform returns that colour exactly |
| EmjcPixel.ColourShape | src/sfnt/emjc.c:176-192 | the four branches are one formula, with a sign-dependent half of `p` and `q` per channel |
| EmjcPixel.InverseColourTransformBound | src/sfnt/emjc.c:176-192 | each of B, G, R is at most `2*bound + 1` in magnitude when the triple is within `bound` |
| EmjcPixel.Wrap257 | src/sfnt/emjc.c:193-195 | definition of `v < 0 ? (v % 257) + 257 : (v % 257)`; its properties are in `Wrap257Residue` |
| EmjcPixel.StoreColour | src/sfnt/emjc.c:193-195 | definition of the wrap followed by the `uint8_t` store; its properties are in `StoreColourResidue` |
| EmjcPixel.PixelBytes | src/sfnt/emjc.c:193-196 | definition of a pixel's four stored bytes B, G, R, alpha; its properties are in `BitmapPixel` and `StorePixel` |
| EmjcPixel.Wrap257Residue | src/sfnt/emjc.c:193-195 | the wrap `v < 0 ? v%257 + 257 : v%257` lies in [0, 257] and is congruent to `v` modulo 257; it is 257 exactly for negative multiples of 257 |
| EmjcPixel.StoreColourResidue | src/sfnt/emjc.c:193-195 | the stored byte is the residue modulo 257, except that residue 256 stores 0 and a negative multiple of 257 stores 1 |
| EmjcAppendix.Correction | src/sfnt/emjc.c:108 | definition of `128 * (appendix[i] % 4)`; its properties are in `SeededValues` |
| EmjcAppendix.Seeded | src/sfnt/emjc.c:101-109 | definition of the accumulator after the whole appendix pass; its properties are in `SeededWritten`, `SeededUntouched`, `SeededIgnoresTail`, `SeededValues` and `SeedAppendix` |
| EmjcAppendix.Cursor | src/sfnt/emjc.c:103-108 | definition of the write position of each appendix byte in closed form; its properties are in `CursorIncreasing` and `SeedCursor` |
| EmjcAppendix.SeedPrefix | src/sfnt/emjc.c:103-109 | after any prefix of the appendix the accumulator keeps its `3*w*h` slots, and a running pass has its cursor within them |
| EmjcAppendix.CursorIncreasing | src/sfnt/emjc.c:103-108 | the write positions of successive appendix bytes strictly increase |
| EmjcAppendix.SeedCursor | src/sfnt/emjc.c:103-107 | a running pass's cursor is one past the last write and every write fell inside the buffer; a stopped pass stopped on a byte whose position was `>= 3*w*h` |
| EmjcAppendix.SeedPrefixWritten | src/sfnt/emjc.c:108 | after `k` bytes, every earlier byte that aimed inside the buffer has left `128*(byte%4)` at its position |
| EmjcAppendix.SeedPrefixUntouched | src/sfnt/emjc.c:101-108 | after `k` bytes, a slot that no earlier byte aimed at is still 0 |
| EmjcAppendix.SeededWritten | src/sfnt/emjc.c:103-109 | after the whole pass, a slot that a byte aimed at inside the buffer holds that byte's correction |
| EmjcAppendix.SeededUntouched | src/sfnt/emjc.c:101-109 | after the whole pass, a slot that no byte aimed at is 0 |
| EmjcAppendix.SeededIgnoresTail | src/sfnt/emjc.c:105-107 | once a byte overruns the buffer, that byte and every later byte are ignored, with no error |
| EmjcAppendix.PrefixAgrees | src/sfnt/emjc.c:103 | the pass over the first `k` bytes reads only those bytes |
| EmjcAppendix.StoppedStays | src/sfnt/emjc.c:105-107 | a stopped pass stays stopped and changes nothing more |
| EmjcAppendix.SeededValues | src/sfnt/emjc.c:108 | every slot holds 0, 128, 256 or 384 |
| EmjcAppendix.SeedAppendix | src/sfnt/emjc.c:101-109 | the appendix loop over a zeroed array leaves exactly the specified seeded accumulator |
| EmjcReconstruct.RasterPosition | src/sfnt/emjc.c:110-111 | pixel (x, y) has raster index `y*w + x < w*h`, and that index gives back its row and column |
| EmjcReconstruct.RowWalk | src/sfnt/emjc.c:111 | stepping `x` along a row from its first pixel `i` reaches pixel `i + x` in the same row, at column `x` |
| EmjcReconstruct.NextRow | src/sfnt/emjc.c:110-111 | row `y + 1` starts `w` pixels after row `y`, no later than the end of the image |
| EmjcReconstruct.RowStartInImage | src/sfnt/emjc.c:110-111 | the shared counter `i` at the start of row `y < h` is at column 0 of row `y`, and the row ends inside the image |
| EmjcReconstruct.ImageRows | src/sfnt/emjc.c:110-111 | after `h` rows the shared counter equals `w*h` |
| EmjcReconstruct.RasterBounds | src/sfnt/emjc.c:110-111 | an index below `w*h` lies in a row below `h` and a column below `w` |
| EmjcReconstruct.LeftCoords | src/sfnt/emjc.c:119-122 | away from column 0, index `i - 1` is the left neighbour in the same row, and the upper-left one exists when the upper one does |
| EmjcReconstruct.Baseline | src/sfnt/emjc.c:112-114 | definition of a pixel's three decoded differences over its seeds; its properties are in `BaselineBound` and `ConvertPixel` |
| EmjcReconstruct.Reconstructed | src/sfnt/emjc.c:110-171 | definition of a pixel's final triple, recursive over the raster index; its properties are in `FirstPixelIsBaseline`, `InertRowIsBaseline`, `ReconstructedBound` and `ReconstructPixel` |
| EmjcReconstruct.NeighboursOf | src/sfnt/emjc.c:119-168 | definition of the reconstructed neighbours a pixel's filter may read; its properties are in `NeighboursFromBuffer` |
| EmjcReconstruct.FirstPixelIsBaseline | src/sfnt/emjc.c:115-171 | pixel 0 has no neighbours, so whatever its row's filter it is its decoded difference |
| EmjcReconstruct.InertRowIsBaseline | src/sfnt/emjc.c:115-117 | in a row whose filter byte is 0 or above 4, every pixel is its decoded difference |
| EmjcReconstruct.BaselineBound | src/sfnt/emjc.c:112-114 | with the appendix corrections as seeds, a decoded difference has magnitude at most 511 |
| EmjcReconstruct.ReconstructedBound | src/sfnt/emjc.c:110-171 | every reconstructed channel at column x, row y has magnitude at most `511 * (x + y + 1)` |
| EmjcReconstruct.ReconstructedFitsInt32 | src/sfnt/emjc.c:172-192 | for 16-bit width and height, every accumulator value and every B, G, R before the wrap fits `int32_t` |
| EmjcReconstruct.AddFrom | src/sfnt/emjc.c:133-135 | the three `+=` of an earlier pixel's triple change only pixel `i`'s slots and add that triple |
| EmjcReconstruct.AddMean | src/sfnt/emjc.c:158-160 | the three `+= filter4_value(...)` add the mean of the left and upper triples and change only pixel `i`'s slots |
| EmjcReconstruct.UndoFilter | src/sfnt/emjc.c:115-171 | the filter switch adds to pixel `i` what `Unfilter` specifies from the neighbours the accumulator holds, and touches no other slot |
| EmjcReconstruct.ConvertPixel | src/sfnt/emjc.c:112-114 | the three `convert_to_difference` stores each decode a raw byte over the value its slot held, and touch no other slot |
| EmjcReconstruct.NeighboursFromBuffer | src/sfnt/emjc.c:119-168 | once the earlier pixels hold their reconstructed triples, the neighbours the accumulator holds for pixel `i` are the specified neighbours |
| EmjcReconstruct.ReconstructPixel | src/sfnt/emjc.c:112-171 | one step of the walk: afterwards pixels `0..i` hold their specified triples, and no slot outside pixel `i` changes |
| EmjcDecode.ImageOf | src/sfnt/emjc.c:95-109 | the walk's inputs are the first three planes of the payload, and the seeds are the appendix pass over `3*w*h` slots |
| EmjcDecode.DecodedFitsInt32 | src/sfnt/emjc.c:95-192 | for every header and payload the size check admits, every accumulator triple and every colour before the wrap fits `int32_t` |
| EmjcDecode.BitmapPrefix | src/sfnt/emjc.c:193-196 | definition of the output bytes of the first `n` pixels; its properties are in `BitmapPrefixPixel` and `BitmapStep` |
| EmjcDecode.Bitmap | src/sfnt/emjc.c:110-196 | definition of the whole decoded BGRA bitmap; its properties are in `BitmapPixel`, `DecodedPixel` and `DecodeBuffer` |
| EmjcDecode.BitmapPrefixPixel | src/sfnt/emjc.c:193-196 | in the output of the first `n` pixels, bytes `4i..4i+3` are the stored bytes of pixel `i` |
| EmjcDecode.BitmapStep | src/sfnt/emjc.c:193-196 | storing pixel `i` extends the output of pixels `0..i-1` by its four bytes |
| EmjcDecode.BitmapPixel | src/sfnt/emjc.c:193-196 | bytes `4i..4i+3` of the bitmap are B, G, R of pixel `i`'s triple after the transform and the wrap, then its alpha |
| EmjcDecode.Decode | src/sfnt/emjc.c:78-94 | a result exists exactly when the magic matches and the payload has the expected length; it is `4*w*h` bytes |
| EmjcDecode.DecodedPixel | src/sfnt/emjc.c:193-196 | in a successful decode, pixel `i` is B, G, R of its reconstructed triple, then byte `i` of the payload (the alpha plane) copied verbatim |
| EmjcDecode.DecodeBuffer | src/sfnt/emjc.c:72-202 | returns 0 or -1. It returns 0 exactly when `Decode` succeeds, and then the first `4*w*h` bytes are the decoded bitmap. On -1 nothing is written. Bytes from `4*w*h` on never change |
| EmjcDecode.RasterWalk | src/sfnt/emjc.c:101-197 | the zeroed accumulator, the appendix pass and the nested loops store the bitmap in the first `4*w*h` bytes and nothing after them |
| EmjcDecode.WalkRows | src/sfnt/emjc.c:110-197 | the outer `y` loop over the seeded accumulator stores the whole bitmap and nothing after it |
| EmjcDecode.DecodeRow | src/sfnt/emjc.c:111-197 | one row of the walk: pixels up to the row's end are reconstructed and stored, later slots keep their seeds, and later output bytes are untouched |
| EmjcDecode.DecodePixel | src/sfnt/emjc.c:112-196 | one pixel of the walk: pixel `i` is reconstructed and its four bytes are appended to the stored output |
| EmjcDecode.StorePixel | src/sfnt/emjc.c:172-196 | the colour transform and the four stores write exactly bytes `4i..4i+3` with the pixel's stored bytes |
| EmjcDecode.LoadSBitEmjc | src/sfnt/emjc.c:204-235 | the metrics are the header's width and height. The load fails with an invalid-format error exactly when the decode fails. Otherwise the bitmap has `height` rows of pitch `width * 4`, and its buffer is the decoded bitmap |

## Left out

- `lzfse_decode_buffer` is a foreign decompressor. Its output is the parameter `plane`, and the length it reports is `|plane|`. The model keeps only the length check.
- `malloc`, `memset` and `free` are allocation plumbing. A freshly allocated, zero-filled array stands for the accumulator. The source does not handle a failed allocation either.
- `emjc_decode_buffer_size` is never called, and its formula (`8*w*h + h + a`) is not the payload size the decoder checks.
- `Load_SBit_EMJC`: `ft_glyphslot_alloc_bitmap` and its failure path are not modelled, and neither are `pixel_mode` and `num_grays`. The bitmap is a fresh zero-filled array, and the metrics are returned as a value.
- The version, reserved and padding header fields are not read by the decoder, and the model does not read them. `EncodeHeader` writes them as zero.
- The source reads header bytes 0..3 and 8..13 without checking `src_size`, and when `src_size < 16` the `size_t` subtraction `data_length - 16` (emjc.c:90) wraps around. Callers of `Decode` and `DecodeBuffer` must therefore pass at least the 16 header bytes.
- The output buffer must hold at least `4*w*h` bytes, as `Load_SBit_EMJC` guarantees.
- C `int` overflow in the index arithmetic is not modelled; integers are mathematical. The store index `i * 4 + k` (emjc.c:193-196) exceeds `INT_MAX` once `i` reaches 2^29, so any image of more than 536,870,912 pixels overflows there. The accumulator indices `i * 3 + k` (emjc.c:112-168) and `colors = pixels * 3` (emjc.c:96) overflow from about 715.8 million pixels, and `pixels = height * width` (emjc.c:95) from 2^31. Each of these is undefined behaviour in C, and such an image would need a payload of several gigabytes.
- Integer widths elsewhere are not modelled as wrapping. `DecodedFitsInt32` proves that the `int32_t` accumulator and colours cannot overflow.
- `src/sfnt/emjc.h` is not part of this model. It only declares the loader.
