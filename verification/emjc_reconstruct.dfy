/** The raster walk of the decoder: each pixel's triple is its zig-zag
    difference over the seeded accumulator, with the row filter undone
    against already reconstructed neighbours. `Reconstructed` is the
    functional specification, recursive over the raster index (a pixel
    depends only on strictly earlier ones); `ReconstructPixel` is the
    in-place step of the decoder's loop, proved against it. */
module EmjcReconstruct {
  import opened CArith
  import opened EmjcPixel

  /** What the raster walk reads: the geometry, the alpha plane, one filter
      byte per row, the raw difference triples and the seeded accumulator. */
  datatype Image = Image(width: nat, height: nat, alpha: seq<Byte>, filters: seq<Byte>,
                         rgb: seq<Byte>, seed: seq<int>)
  {
    function Pixels(): nat {
      width * height
    }

    predicate Valid() {
      |alpha| == Pixels() && |filters| == height && |rgb| == 3 * Pixels() && |seed| == 3 * Pixels()
    }
  }

  // ---------------------------------------------------------------------
  // Raster coordinates

  /** The row of raster index i in an image of width w (i / w). */
  function Row(i: nat, w: nat): nat
    requires w > 0
  {
    if i < w then 0 else Row(i - w, w) + 1
  }

  /** The column of raster index i in an image of width w (i % w). */
  function Column(i: nat, w: nat): nat
    requires w > 0
  {
    if i < w then i else Column(i - w, w)
  }

  lemma MulMonotone(a: nat, b: nat, c: nat)
    requires a <= b
    ensures a * c <= b * c
  {
    assert b * c == a * c + (b - a) * c;
  }

  /** Pixel (x, y) has raster index y * w + x inside the image, and that
      index gives back its row and column. */
  lemma {:induction false} RasterPosition(w: nat, h: nat, y: nat, x: nat)
    requires x < w && y < h
    ensures y * w + x < w * h
    ensures Row(y * w + x, w) == y && Column(y * w + x, w) == x
  {
    if y > 0 {
      assert y * w + x - w == (y - 1) * w + x;
      RasterPosition(w, h, y - 1, x);
    }
    assert (y + 1) * w <= h * w by {
      MulMonotone(y + 1, h, w);
    }
  }

  /** Walking along a row from its first pixel i: pixel p = i + x is in the
      same row, at column x. */
  lemma {:induction false} RowWalk(i: nat, w: nat, x: nat, p: nat)
    requires w > 0 && Column(i, w) == 0 && x < w && p == i + x
    ensures Row(p, w) == Row(i, w) && Column(p, w) == x
  {
    if i >= w {
      RowWalk(i - w, w, x, p - w);
    }
  }

  /** Row y + 1 starts w pixels after row y, and no later than the end. */
  lemma NextRow(w: nat, h: nat, y: nat, i: nat)
    requires i == y * w && y < h
    ensures i + w == (y + 1) * w && i + w <= w * h
  {
    MulMonotone(y + 1, h, w);
  }

  /** The raster index of the first pixel of row y, counted row by row. */
  function RowStart(y: nat, w: nat): nat {
    if y == 0 then 0 else RowStart(y - 1, w) + w
  }

  lemma {:induction false} RowStartIsProduct(y: nat, w: nat)
    ensures RowStart(y, w) == y * w
  {
    if y > 0 {
      RowStartIsProduct(y - 1, w);
      assert y * w == (y - 1) * w + w;
    }
  }

  /** Row y < h starts at column 0 of row y and ends inside the image; the
      rows together cover the image exactly. */
  lemma RowStartInImage(w: nat, h: nat, y: nat)
    requires y < h
    ensures RowStart(y, w) + w <= w * h
    ensures w > 0 ==> Row(RowStart(y, w), w) == y && Column(RowStart(y, w), w) == 0
  {
    RowStartIsProduct(y, w);
    NextRow(w, h, y, y * w);
    if w > 0 {
      RasterPosition(w, h, y, 0);
    }
  }

  lemma ImageRows(w: nat, h: nat)
    ensures RowStart(h, w) == w * h
  {
    RowStartIsProduct(h, w);
  }

  /** The decoder's `height * width` pixels and `height * width * 3` colour
      slots, in the order the model writes them. */
  lemma PlaneSizes(w: nat, h: nat)
    ensures h * w == w * h && h * w * 3 == 3 * (w * h)
  {
  }

  /** An index inside the image lies in one of its rows and columns. */
  lemma {:induction false} RasterBounds(i: nat, w: nat, h: nat)
    requires i < w * h
    ensures w > 0 && Row(i, w) < h && Column(i, w) < w
  {
    if w > 0 && i >= w {
      assert i - w < w * (h - 1);
      RasterBounds(i - w, w, h - 1);
    }
  }

  /** Away from column 0, the previous index is the left neighbour: one
      column back in the same row. */
  lemma {:induction false} LeftCoords(i: nat, w: nat)
    requires w > 0
    ensures Column(i, w) != 0 ==>
      i > 0 && Column(i - 1, w) == Column(i, w) - 1 && Row(i - 1, w) == Row(i, w) && (i >= w ==> i >= w + 1)
  {
    if i >= w {
      LeftCoords(i - w, w);
    }
  }

  // ---------------------------------------------------------------------
  // The functional specification

  /** A pixel's triple before filtering: each raw byte decoded as a
      difference over what the appendix seeded in that slot. */
  function Baseline(img: Image, i: nat): Triple
    requires img.Valid() && i < img.Pixels()
  {
    Triple(ConvertToDifference(img.rgb[3 * i], img.seed[3 * i]),
           ConvertToDifference(img.rgb[3 * i + 1], img.seed[3 * i + 1]),
           ConvertToDifference(img.rgb[3 * i + 2], img.seed[3 * i + 2]))
  }

  /** The final triple of pixel `i` after the raster walk. */
  function Reconstructed(img: Image, i: nat): Triple
    requires img.Valid() && i < img.Pixels()
    decreases i, 1
  {
    RasterBounds(i, img.width, img.height);
    Unfilter(img.filters[Row(i, img.width)], Baseline(img, i), NeighboursOf(img, i))
  }

  /** The reconstructed neighbours of pixel `i`: left when its column is not
      0, upper when its row is not 0, upper-left when both. */
  function NeighboursOf(img: Image, i: nat): (n: Neighbours)
    requires img.Valid() && i < img.Pixels()
    decreases i, 0
  {
    var w := img.width;
    RasterBounds(i, w, img.height);
    LeftCoords(i, w);
    var hasLeft, hasUpper := Column(i, w) != 0, i >= w;
    if hasLeft && hasUpper then
      Both(Reconstructed(img, i - 1), Reconstructed(img, i - w), Reconstructed(img, i - w - 1))
    else if hasLeft then LeftOnly(Reconstructed(img, i - 1))
    else if hasUpper then UpperOnly(Reconstructed(img, i - w))
    else NoNeighbour
  }

  /** The image's first pixel has no neighbours: whatever its row's filter,
      it is its baseline. */
  lemma FirstPixelIsBaseline(img: Image)
    requires img.Valid() && img.Pixels() > 0
    ensures Reconstructed(img, 0) == Baseline(img, 0)
  {
    RasterBounds(0, img.width, img.height);
  }

  /** A row whose filter byte is 0 or above 4 is plain difference coding: each
      of its pixels is its baseline. */
  lemma InertRowIsBaseline(img: Image, i: nat, y: nat)
    requires img.Valid() && i < img.Pixels() && img.width > 0
    requires y < img.height && Row(i, img.width) == y
    requires img.filters[y] == 0 || img.filters[y] > 4
    ensures Reconstructed(img, i) == Baseline(img, i)
  {
  }

  /** The baseline has magnitude at most 511 when every seed is one of the
      appendix corrections. */
  lemma BaselineBound(img: Image, i: nat)
    requires img.Valid() && i < img.Pixels()
    requires forall k :: 0 <= k < |img.seed| ==> 0 <= img.seed[k] <= 384
    ensures Magnitude(Baseline(img, i)) <= MaxDifference
  {
    assert 0 <= img.seed[3 * i] <= 384;
    assert 0 <= img.seed[3 * i + 1] <= 384;
    assert 0 <= img.seed[3 * i + 2] <= 384;
  }

  /** Each pixel's channels grow by at most 511 per step from the corner:
      |channel| <= 511 * (x + y + 1) at column x, row y. */
  lemma {:induction false} ReconstructedBound(img: Image, i: nat)
    requires img.Valid() && i < img.Pixels()
    requires forall k :: 0 <= k < |img.seed| ==> 0 <= img.seed[k] <= 384
    ensures img.width > 0
    ensures Magnitude(Reconstructed(img, i)) <= MaxDifference * (Column(i, img.width) + Row(i, img.width) + 1)
  {
    var w := img.width;
    RasterBounds(i, w, img.height);
    LeftCoords(i, w);
    var x, y := Column(i, w), Row(i, w);
    var bound := MaxDifference * (x + y);
    var n := NeighboursOf(img, i);
    if x != 0 {
      ReconstructedBound(img, i - 1);
      assert Magnitude(n.left) <= bound;
    }
    if i >= w {
      ReconstructedBound(img, i - w);
      assert Column(i - w, w) == x && Row(i - w, w) == y - 1;
      assert Magnitude(n.upper) <= bound;
    }
    BaselineBound(img, i);
    UnfilterBound(img.filters[y], Baseline(img, i), n, bound);
  }

  /** Hence, for any 16-bit width and height, every accumulator value and
      every colour before the wrap fits the decoder's `int32_t`. */
  lemma ReconstructedFitsInt32(img: Image, i: nat)
    requires img.Valid() && i < img.Pixels()
    requires img.width < 0x1_0000 && img.height < 0x1_0000
    requires forall k :: 0 <= k < |img.seed| ==> 0 <= img.seed[k] <= 384
    ensures var t := Reconstructed(img, i);
      IsInt32(t.c0) && IsInt32(t.c1) && IsInt32(t.c2)
    ensures var c := InverseColourTransform(Reconstructed(img, i));
      IsInt32(c.b) && IsInt32(c.g) && IsInt32(c.r)
  {
    ReconstructedBound(img, i);
    RasterBounds(i, img.width, img.height);
    var bound := MaxDifference * 131069;
    assert Magnitude(Reconstructed(img, i)) <= bound;
    InverseColourTransformBound(Reconstructed(img, i), bound);
  }

  // ---------------------------------------------------------------------
  // The in-place step

  /** The accumulator's triple of pixel `i`. */
  function TripleAt(buffer: array<int>, i: nat): Triple
    requires 3 * i + 2 < buffer.Length
    reads buffer
  {
    Triple(buffer[3 * i], buffer[3 * i + 1], buffer[3 * i + 2])
  }

  /** The neighbours of pixel `i` as the accumulator holds them. */
  function NeighboursIn(buffer: array<int>, i: nat, w: nat, hasLeft: bool, hasUpper: bool): Neighbours
    requires 3 * i + 2 < buffer.Length
    requires (hasLeft ==> i >= 1) && (hasUpper ==> i >= w) && (hasLeft && hasUpper ==> i >= w + 1)
    reads buffer
  {
    if hasLeft && hasUpper then Both(TripleAt(buffer, i - 1), TripleAt(buffer, i - w), TripleAt(buffer, i - w - 1))
    else if hasLeft then LeftOnly(TripleAt(buffer, i - 1))
    else if hasUpper then UpperOnly(TripleAt(buffer, i - w))
    else NoNeighbour
  }

  /** `buffer[i*3+k] += buffer[j*3+k]` for k = 0, 1, 2. */
  method AddFrom(buffer: array<int>, i: nat, j: nat)
    requires j < i && 3 * i + 2 < buffer.Length
    modifies buffer
    ensures TripleAt(buffer, i) == Add(old(TripleAt(buffer, i)), old(TripleAt(buffer, j)))
    ensures forall k :: 0 <= k < buffer.Length && (k < 3 * i || 3 * i + 2 < k) ==> buffer[k] == old(buffer[k])
    ensures forall m :: 0 <= m < i ==> TripleAt(buffer, m) == old(TripleAt(buffer, m))
  {
    buffer[i * 3 + 0] := buffer[i * 3 + 0] + buffer[j * 3 + 0];
    buffer[i * 3 + 1] := buffer[i * 3 + 1] + buffer[j * 3 + 1];
    buffer[i * 3 + 2] := buffer[i * 3 + 2] + buffer[j * 3 + 2];
  }

  /** `buffer[i*3+k] += filter4_value(buffer[l*3+k], buffer[u*3+k])`. */
  method AddMean(buffer: array<int>, i: nat, l: nat, u: nat)
    requires l < i && u < i && 3 * i + 2 < buffer.Length
    modifies buffer
    ensures TripleAt(buffer, i) == Add(old(TripleAt(buffer, i)), Mean(old(TripleAt(buffer, l)), old(TripleAt(buffer, u))))
    ensures forall k :: 0 <= k < buffer.Length && (k < 3 * i || 3 * i + 2 < k) ==> buffer[k] == old(buffer[k])
    ensures forall m :: 0 <= m < i ==> TripleAt(buffer, m) == old(TripleAt(buffer, m))
  {
    buffer[i * 3 + 0] := buffer[i * 3 + 0] + Filter4Value(buffer[l * 3 + 0], buffer[u * 3 + 0]);
    buffer[i * 3 + 1] := buffer[i * 3 + 1] + Filter4Value(buffer[l * 3 + 1], buffer[u * 3 + 1]);
    buffer[i * 3 + 2] := buffer[i * 3 + 2] + Filter4Value(buffer[l * 3 + 2], buffer[u * 3 + 2]);
  }

  /** The switch on the row's filter byte for pixel (x, y) at index i: adds
      to pixel i's triple what the filter predicts from the neighbours the
      accumulator holds, and touches no other slot. */
  method UndoFilter(buffer: array<int>, mode: Byte, w: nat, i: nat, x: nat, y: nat)
    requires 3 * i + 2 < buffer.Length && x < w
    requires (x > 0 ==> i >= 1) && (y > 0 ==> i >= w) && (x > 0 && y > 0 ==> i >= w + 1)
    modifies buffer
    ensures TripleAt(buffer, i) == Unfilter(mode, old(TripleAt(buffer, i)), old(NeighboursIn(buffer, i, w, x > 0, y > 0)))
    ensures forall k :: 0 <= k < buffer.Length && (k < 3 * i || 3 * i + 2 < k) ==> buffer[k] == old(buffer[k])
    ensures forall m :: 0 <= m < i ==> TripleAt(buffer, m) == old(TripleAt(buffer, m))
  {
    if mode == 1 {
      if x > 0 && y > 0 {
        var left := buffer[(i - 1) * 3 + 0];
        var upper := buffer[(i - w) * 3 + 0];
        var leftUpper := buffer[(i - w - 1) * 3 + 0];
        if Abs(left - leftUpper) < Abs(upper - leftUpper) {
          AddFrom(buffer, i, i - w);
        } else {
          AddFrom(buffer, i, i - 1);
        }
      } else if x > 0 {
        AddFrom(buffer, i, i - 1);
      } else if y > 0 {
        AddFrom(buffer, i, i - w);
      }
    } else if mode == 2 {
      if x > 0 {
        AddFrom(buffer, i, i - 1);
      }
    } else if mode == 3 {
      if y > 0 {
        AddFrom(buffer, i, i - w);
      }
    } else if mode == 4 {
      if x > 0 && y > 0 {
        AddMean(buffer, i, i - 1, i - w);
      } else if x > 0 {
        AddFrom(buffer, i, i - 1);
      } else if y > 0 {
        AddFrom(buffer, i, i - w);
      }
    }
  }

  /** Pixel (x, y), raster index i, in place: the three difference decodes
      over the seeded slots, then the row filter. Afterwards pixels 0..i hold
      their reconstructed triples and later slots still hold their seeds. */
  method ReconstructPixel(buffer: array<int>, ghost img: Image, rgb: seq<Byte>, mode: Byte,
                          w: nat, i: nat, x: nat, y: nat)
    requires img.Valid() && buffer.Length == 3 * img.Pixels()
    requires rgb == img.rgb && w == img.width && y < img.height && mode == img.filters[y]
    requires i < img.Pixels() && Row(i, w) == y && Column(i, w) == x
    requires forall j :: 0 <= j < i ==> TripleAt(buffer, j) == Reconstructed(img, j)
    requires forall k :: 3 * i <= k < buffer.Length ==> buffer[k] == img.seed[k]
    modifies buffer
    ensures forall j :: 0 <= j <= i ==> TripleAt(buffer, j) == Reconstructed(img, j)
    ensures forall k :: 0 <= k < buffer.Length && (k < 3 * i || 3 * i + 2 < k) ==> buffer[k] == old(buffer[k])
  {
    RasterBounds(i, w, img.height);
    LeftCoords(i, w);
    ConvertPixel(buffer, rgb, i);
    assert TripleAt(buffer, i) == Baseline(img, i);
    NeighboursFromBuffer(buffer, img, i, x, y);
    UndoFilter(buffer, mode, w, i, x, y);
  }

  /** The three `convert_to_difference` calls of pixel i, each over the value
      its slot holds. */
  method ConvertPixel(buffer: array<int>, rgb: seq<Byte>, i: nat)
    requires 3 * i + 2 < buffer.Length && 3 * i + 2 < |rgb|
    modifies buffer
    ensures TripleAt(buffer, i) == Triple(ConvertToDifference(rgb[3 * i], old(buffer[3 * i])),
                                          ConvertToDifference(rgb[3 * i + 1], old(buffer[3 * i + 1])),
                                          ConvertToDifference(rgb[3 * i + 2], old(buffer[3 * i + 2])))
    ensures forall k :: 0 <= k < buffer.Length && (k < 3 * i || 3 * i + 2 < k) ==> buffer[k] == old(buffer[k])
    ensures forall m :: 0 <= m < i ==> TripleAt(buffer, m) == old(TripleAt(buffer, m))
  {
    buffer[i * 3 + 0] := ConvertToDifference(rgb[i * 3 + 0], buffer[i * 3 + 0]);
    buffer[i * 3 + 1] := ConvertToDifference(rgb[i * 3 + 1], buffer[i * 3 + 1]);
    buffer[i * 3 + 2] := ConvertToDifference(rgb[i * 3 + 2], buffer[i * 3 + 2]);
  }

  /** Once pixels 0 .. i-1 hold their reconstructed triples, the neighbours
      the accumulator holds for pixel i are its specified neighbours. */
  lemma NeighboursFromBuffer(buffer: array<int>, img: Image, i: nat, x: nat, y: nat)
    requires img.Valid() && buffer.Length == 3 * img.Pixels() && i < img.Pixels()
    requires img.width > 0 && Row(i, img.width) == y && Column(i, img.width) == x
    requires forall j :: 0 <= j < i ==> TripleAt(buffer, j) == Reconstructed(img, j)
    ensures (x > 0 ==> i >= 1) && (y > 0 ==> i >= img.width) && (x > 0 && y > 0 ==> i >= img.width + 1)
    ensures NeighboursIn(buffer, i, img.width, x > 0, y > 0) == NeighboursOf(img, i)
  {
    LeftCoords(i, img.width);
  }
}
