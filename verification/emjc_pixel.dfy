/** Per-pixel arithmetic of the EMJC decoder: the zig-zag difference decode,
    the five row filters, the inverse colour transform and the modulo-257
    byte wrap. Everything here is pure; the in-place walk over the
    accumulator lives in EmjcReconstruct. */
module EmjcPixel {
  import opened CArith

  /** Each appendix class adds this much magnitude to a difference. */
  const CorrectionStep: nat := 128

  /** Largest magnitude a raw byte plus an appendix correction can express:
      127 + 3 * 128. */
  const MaxDifference: nat := 511

  /** The modulus of the final wrap: 257, not 256. */
  const WrapModulus: nat := 257

  /** One accumulator triple (base, p, q) of a pixel. */
  datatype Triple = Triple(c0: int, c1: int, c2: int)

  const Zero: Triple := Triple(0, 0, 0)

  function Add(a: Triple, b: Triple): Triple {
    Triple(a.c0 + b.c0, a.c1 + b.c1, a.c2 + b.c2)
  }

  function Sub(a: Triple, b: Triple): Triple {
    Triple(a.c0 - b.c0, a.c1 - b.c1, a.c2 - b.c2)
  }

  /** Largest channel magnitude of a triple. */
  function Magnitude(t: Triple): nat {
    var m := if Abs(t.c0) < Abs(t.c1) then Abs(t.c1) else Abs(t.c0);
    if m < Abs(t.c2) then Abs(t.c2) else m
  }

  // ---------------------------------------------------------------------
  // convert_to_difference

  /** `convert_to_difference(v, o)`: bit 0 of the raw byte is the sign, the
      other bits (v >> 1, which is v / 2 for a byte) the magnitude; the
      seeded offset `o` is added before the sign is applied. */
  function ConvertToDifference(v: Byte, o: int): int {
    if v % 2 == 1 then -(v / 2) - o else v / 2 + o
  }

  /** How an encoder splits a difference of magnitude at most 511 into a raw
      byte and an appendix class `c` (the decoder then sees offset 128*c). */
  function EncodeDifference(d: int): (vc: (Byte, nat))
    requires -(MaxDifference as int) <= d <= MaxDifference
    ensures vc.1 < 4
  {
    var m := Abs(d);
    (2 * (m % CorrectionStep) + (if d < 0 then 1 else 0), m / CorrectionStep)
  }

  /** The decoder recovers every difference in [-511, 511] from its encoding. */
  lemma ConvertEncodeDifference(d: int)
    requires -(MaxDifference as int) <= d <= MaxDifference
    ensures var (v, c) := EncodeDifference(d); ConvertToDifference(v, CorrectionStep * c) == d
  {
    var m := Abs(d);
    assert m == CorrectionStep * (m / CorrectionStep) + m % CorrectionStep;
  }

  /** Conversely, a raw byte with a seeded class-c offset decodes to a
      difference in [-511, 511] whose encoding is that byte and class, except
      for byte 1 with no correction: it is a "negative zero" and decodes to
      the same 0 as byte 0. */
  lemma EncodeConvertDifference(v: Byte, c: nat)
    requires c < 4
    ensures var d := ConvertToDifference(v, CorrectionStep * c);
      -(MaxDifference as int) <= d <= MaxDifference
      && (EncodeDifference(d) == (v, c) <==> !(v == 1 && c == 0))
  {
    var d := ConvertToDifference(v, CorrectionStep * c);
    var m := v / 2 + CorrectionStep * c;
    assert Abs(d) == m;
    assert m % CorrectionStep == v / 2 && m / CorrectionStep == c;
  }

  // ---------------------------------------------------------------------
  // filter4_value and the row filters

  /** `filter4_value(l, u)`: (l + u + 1) / 2 with C's truncating division. */
  function Filter4Value(left: int, upper: int): int {
    var value := left + upper + 1;
    if value < 0 then -((-value) / 2) else value / 2
  }

  /** Filter 4's average is (l + u + 1) / 2 truncated toward zero. For
      l + u >= -1 that is the mean rounded half up; below -1 it is the mean
      rounded toward zero for odd sums and the mean plus one for even sums.
      It never leaves the magnitude range of its inputs. */
  lemma Filter4Rounding(left: int, upper: int)
    ensures var r := Filter4Value(left, upper);
      r == CDiv(left + upper + 1, 2)
      && (left + upper >= -1 ==> left + upper <= 2 * r <= left + upper + 1)
      && (left + upper < -1 ==> left + upper + 1 <= 2 * r <= left + upper + 2)
      && Abs(r) <= (if Abs(left) < Abs(upper) then Abs(upper) else Abs(left))
      && r == Filter4Value(upper, left)
  {
  }

  function Mean(l: Triple, u: Triple): Triple {
    Triple(Filter4Value(l.c0, u.c0), Filter4Value(l.c1, u.c1), Filter4Value(l.c2, u.c2))
  }

  /** The already reconstructed neighbours of a pixel: left exists when the
      column is not 0, upper when the row is not 0, and the upper-left one
      is passed only when both do. */
  datatype Neighbours =
    | NoNeighbour
    | LeftOnly(left: Triple)
    | UpperOnly(upper: Triple)
    | Both(left: Triple, upper: Triple, leftUpper: Triple)

  /** Undoes the row filter `mode` on a pixel whose baseline (difference plus
      seed) is `base`. Mode 1 compares channel 0 only and, on a tie, takes
      the left neighbour; modes 0 and anything above 4 leave the baseline. */
  function Unfilter(mode: Byte, base: Triple, n: Neighbours): Triple {
    if mode == 1 then
      match n
      case Both(l, u, lu) =>
        if Abs(l.c0 - lu.c0) < Abs(u.c0 - lu.c0) then Add(base, u) else Add(base, l)
      case LeftOnly(l) => Add(base, l)
      case UpperOnly(u) => Add(base, u)
      case NoNeighbour => base
    else if mode == 2 then
      if n.LeftOnly? || n.Both? then Add(base, n.left) else base
    else if mode == 3 then
      if n.UpperOnly? || n.Both? then Add(base, n.upper) else base
    else if mode == 4 then
      match n
      case Both(l, u, _) => Add(base, Mean(l, u))
      case LeftOnly(l) => Add(base, l)
      case UpperOnly(u) => Add(base, u)
      case NoNeighbour => base
    else
      base
  }

  /** The predictor an encoder subtracts, written independently of Unfilter:
      which neighbour (or average) each mode predicts from. */
  function Predictor(mode: Byte, n: Neighbours): Triple {
    match n
    case NoNeighbour => Zero
    case LeftOnly(l) => if mode == 1 || mode == 2 || mode == 4 then l else Zero
    case UpperOnly(u) => if mode == 1 || mode == 3 || mode == 4 then u else Zero
    case Both(l, u, lu) =>
      if mode == 2 then l
      else if mode == 3 then u
      else if mode == 4 then Mean(l, u)
      else if mode == 1 then (if Abs(l.c0 - lu.c0) < Abs(u.c0 - lu.c0) then u else l)
      else Zero
  }

  /** Undoing any filter adds exactly that filter's predictor to the baseline. */
  lemma UnfilterAddsPredictor(mode: Byte, base: Triple, n: Neighbours)
    ensures Unfilter(mode, base, n) == Add(base, Predictor(mode, n))
  {
  }

  lemma SubThenAdd(a: Triple, b: Triple)
    ensures Add(Sub(a, b), b) == a && Sub(b, b) == Zero
  {
  }

  /** Hence unfiltering the encoder's residual gives back the pixel, for
      every mode and every neighbourhood. */
  lemma UnfilterInvertsPrediction(mode: Byte, target: Triple, n: Neighbours)
    ensures Unfilter(mode, Sub(target, Predictor(mode, n)), n) == target
    ensures Unfilter(mode, Zero, n) == Predictor(mode, n)
  {
    var pred := Predictor(mode, n);
    var residual := Sub(target, pred);
    UnfilterAddsPredictor(mode, residual, n);
    SubThenAdd(target, pred);
    UnfilterAddsPredictor(mode, Zero, n);
    SubThenAdd(pred, pred);
  }

  /** Mode 1 picks the upper neighbour only on a strict improvement of the
      channel-0 gradient; a tie picks the left one. */
  lemma Mode1TieGoesLeft(base: Triple, l: Triple, u: Triple, lu: Triple)
    requires Abs(l.c0 - lu.c0) == Abs(u.c0 - lu.c0)
    ensures Unfilter(1, base, Both(l, u, lu)) == Add(base, l)
  {
  }

  lemma MagnitudeOfSum(a: Triple, b: Triple)
    ensures Magnitude(Add(a, b)) <= Magnitude(a) + Magnitude(b)
  {
  }

  lemma MagnitudeOfMean(l: Triple, u: Triple, bound: nat)
    requires Magnitude(l) <= bound && Magnitude(u) <= bound
    ensures Magnitude(Mean(l, u)) <= bound
  {
    MagnitudeWithin(l, bound);
    MagnitudeWithin(u, bound);
    MeanChannelBound(l.c0, u.c0, bound);
    MeanChannelBound(l.c1, u.c1, bound);
    MeanChannelBound(l.c2, u.c2, bound);
    MagnitudeWithin(Mean(l, u), bound);
  }

  lemma MagnitudeWithin(t: Triple, bound: nat)
    ensures Magnitude(t) <= bound <==> Abs(t.c0) <= bound && Abs(t.c1) <= bound && Abs(t.c2) <= bound
  {
  }

  lemma MeanChannelBound(a: int, b: int, bound: nat)
    requires Abs(a) <= bound && Abs(b) <= bound
    ensures Abs(Filter4Value(a, b)) <= bound
  {
    Filter4Rounding(a, b);
  }

  /** The result is at most `bound` larger in magnitude than the baseline when
      every neighbour that is added has magnitude at most `bound`. */
  lemma UnfilterBound(mode: Byte, base: Triple, n: Neighbours, bound: nat)
    requires n.LeftOnly? || n.Both? ==> Magnitude(n.left) <= bound
    requires n.UpperOnly? || n.Both? ==> Magnitude(n.upper) <= bound
    ensures Magnitude(Unfilter(mode, base, n)) <= Magnitude(base) + bound
  {
    UnfilterAddsPredictor(mode, base, n);
    PredictorBound(mode, n, bound);
    MagnitudeOfSum(base, Predictor(mode, n));
  }

  /** A predictor is one of the neighbours, their mean, or zero. */
  lemma PredictorBound(mode: Byte, n: Neighbours, bound: nat)
    requires n.LeftOnly? || n.Both? ==> Magnitude(n.left) <= bound
    requires n.UpperOnly? || n.Both? ==> Magnitude(n.upper) <= bound
    ensures Magnitude(Predictor(mode, n)) <= bound
  {
    if n.Both? && mode == 4 {
      MagnitudeOfMean(n.left, n.upper, bound);
    }
  }

  // ---------------------------------------------------------------------
  // Inverse colour transform

  /** One pixel's blue, green and red before the wrap. */
  datatype Bgr = Bgr(b: int, g: int, r: int)

  /** The decoder's inverse colour transform: a four-way split on the signs of
      p and q, with C's truncating division by 2. */
  function InverseColourTransform(t: Triple): Bgr {
    var base, p, q := t.c0, t.c1, t.c2;
    if p < 0 && q < 0 then
      Bgr(base - CDiv(p + 1, 2) - CDiv(q + 1, 2), base + CDiv(q, 2), base + CDiv(p, 2) - CDiv(q + 1, 2))
    else if p < 0 then
      Bgr(base - CDiv(p + 1, 2) - CDiv(q, 2), base + CDiv(q + 1, 2), base + CDiv(p, 2) - CDiv(q, 2))
    else if q < 0 then
      Bgr(base - CDiv(p, 2) - CDiv(q + 1, 2), base + CDiv(q, 2), base + CDiv(p + 1, 2) - CDiv(q + 1, 2))
    else
      Bgr(base - CDiv(p, 2) - CDiv(q, 2), base + CDiv(q + 1, 2), base + CDiv(p + 1, 2) - CDiv(q, 2))
  }

  /** An arithmetic shift right by one: division by 2 rounding down. */
  function Shr1(x: int): int {
    x / 2
  }

  /** The lossless YCoCg-R lifting transform (with arithmetic shifts), as a
      reference: forward from (b, g, r) to (base, p, q)... */
  function ForwardYCoCgR(c: Bgr): Triple {
    var p := c.r - c.b;
    var t := c.b + Shr1(p);
    var q := c.g - t;
    Triple(t + Shr1(q), p, q)
  }

  /** ...and its inverse, undoing the lifting steps in reverse order. */
  function InverseYCoCgR(y: Triple): Bgr {
    var t := y.c0 - Shr1(y.c2);
    var g := y.c2 + t;
    var b := t - Shr1(y.c1);
    Bgr(b, g, b + y.c1)
  }

  /** The reference pair is a bijection. */
  lemma YCoCgRRoundTrip(c: Bgr, y: Triple)
    ensures InverseYCoCgR(ForwardYCoCgR(c)) == c
    ensures ForwardYCoCgR(InverseYCoCgR(y)) == y
  {
  }

  /** The decoder's transform is YCoCg-R's inverse, except that a negative p
      lowers blue by one and a negative q lowers blue and red by one: the
      truncating divisions of the negative branches round the other way. */
  lemma InverseColourTransformIsYCoCgR(t: Triple)
    ensures var ref := InverseYCoCgR(t);
      var dp := if t.c1 < 0 then 1 else 0;
      var dq := if t.c2 < 0 then 1 else 0;
      InverseColourTransform(t) == Bgr(ref.b - dp - dq, ref.g, ref.r - dq)
  {
    CDivVersusEuclid(t.c1, 2);
    CDivVersusEuclid(t.c1 + 1, 2);
    CDivVersusEuclid(t.c2, 2);
    CDivVersusEuclid(t.c2 + 1, 2);
  }

  /** Hence on non-negative chroma the decoder exactly inverts the forward
      YCoCg-R transform. */
  lemma InverseColourTransformExact(c: Bgr)
    requires ForwardYCoCgR(c).c1 >= 0 && ForwardYCoCgR(c).c2 >= 0
    ensures InverseColourTransform(ForwardYCoCgR(c)) == c
  {
    InverseColourTransformIsYCoCgR(ForwardYCoCgR(c));
    YCoCgRRoundTrip(c, ForwardYCoCgR(c));
  }

  /** Each output colour is within twice the triple's magnitude, plus one. */
  lemma InverseColourTransformBound(t: Triple, bound: nat)
    requires Magnitude(t) <= bound
    ensures var c := InverseColourTransform(t);
      Abs(c.b) <= 2 * bound + 1 && Abs(c.g) <= 2 * bound + 1 && Abs(c.r) <= 2 * bound + 1
  {
    var c := InverseColourTransform(t);
    ColourShape(t);
    var bp, bq, rp, gq := HalfTowardBlue(t.c1), HalfTowardBlue(t.c2), HalfTowardRed(t.c1), HalfTowardRed(t.c2);
    assert Abs(t.c0) <= bound && Abs(t.c1) <= bound && Abs(t.c2) <= bound;
    HalvesBound(t.c1, bound);
    HalvesBound(t.c2, bound);
    ChannelBound(c.b, t.c0, -bp, -bq, bound);
    ChannelBound(c.g, t.c0, gq, 0, bound);
    ChannelBound(c.r, t.c0, rp, -bq, bound);
  }

  /** The half of a chroma value that red (for p) and green (for q) add. */
  function HalfTowardRed(x: int): int {
    if x < 0 then CDiv(x, 2) else CDiv(x + 1, 2)
  }

  /** The half of a chroma value that blue (and red, for q) subtract. */
  function HalfTowardBlue(x: int): int {
    if x < 0 then CDiv(x + 1, 2) else CDiv(x, 2)
  }

  /** The four-way split is one formula with a sign-dependent half per channel. */
  lemma ColourShape(t: Triple)
    ensures InverseColourTransform(t) ==
      Bgr(t.c0 - HalfTowardBlue(t.c1) - HalfTowardBlue(t.c2),
          t.c0 + HalfTowardRed(t.c2),
          t.c0 + HalfTowardRed(t.c1) - HalfTowardBlue(t.c2))
  {
  }

  lemma ChannelBound(v: int, base: int, h1: int, h2: int, bound: nat)
    requires v == base + h1 + h2
    requires Abs(base) <= bound && 2 * Abs(h1) <= bound + 1 && 2 * Abs(h2) <= bound + 1
    ensures Abs(v) <= 2 * bound + 1
  {
  }

  /** Either half of a chroma value of magnitude at most `bound` is at most
      half of `bound + 1`. */
  lemma HalvesBound(x: int, bound: nat)
    requires Abs(x) <= bound
    ensures 2 * Abs(HalfTowardBlue(x)) <= bound + 1 && 2 * Abs(HalfTowardRed(x)) <= bound + 1
  {
    TruncatingDivision(x, 2);
    TruncatingDivision(x + 1, 2);
  }

  // ---------------------------------------------------------------------
  // The modulo-257 wrap and the byte store

  /** `v < 0 ? (v % 257) + 257 : (v % 257)` with C's `%`. */
  function Wrap257(v: int): int {
    if v < 0 then CMod(v, WrapModulus) + WrapModulus else CMod(v, WrapModulus)
  }

  /** The wrap lands in [0, 257], is congruent to v modulo 257, and is 257
      exactly for the negative multiples of 257; otherwise it is the
      ordinary residue. */
  lemma Wrap257Residue(v: int)
    ensures 0 <= Wrap257(v) <= WrapModulus
    ensures (Wrap257(v) - v) % WrapModulus == 0
    ensures Wrap257(v) == WrapModulus <==> v < 0 && v % WrapModulus == 0
    ensures Wrap257(v) == if v < 0 && v % WrapModulus == 0 then WrapModulus else v % WrapModulus
  {
    CDivVersusEuclid(v, WrapModulus);
    TruncatingDivision(v, WrapModulus);
    assert (Wrap257(v) - v) % WrapModulus == 0 by {
      var k := v / WrapModulus;
      assert v == WrapModulus * k + v % WrapModulus;
      if v < 0 && v % WrapModulus == 0 {
        assert Wrap257(v) - v == WrapModulus * (1 - k);
      } else {
        assert Wrap257(v) - v == WrapModulus * (-k);
      }
    }
  }

  /** Storing an int into a `uint8_t` keeps it modulo 256. */
  function ToUint8(v: int): Byte {
    v % 256
  }

  /** The stored colour byte: the residue modulo 257, so residue 256 is
      stored as 0, and a negative multiple of 257 (wrapped to 257) as 1. */
  function StoreColour(v: int): Byte {
    ToUint8(Wrap257(v))
  }

  lemma StoreColourResidue(v: int)
    ensures StoreColour(v) == if v < 0 && v % WrapModulus == 0 then 1
                              else if v % WrapModulus == 256 then 0
                              else v % WrapModulus
  {
    Wrap257Residue(v);
  }

  /** The four output bytes of a pixel in B, G, R, A order. */
  function PixelBytes(t: Triple, alpha: Byte): (px: seq<Byte>)
    ensures |px| == 4
  {
    var c := InverseColourTransform(t);
    [StoreColour(c.b), StoreColour(c.g), StoreColour(c.r), alpha]
  }
}
