/** The per-pixel blend rule shared by both placement strategies. */
module Blend {
  import opened Wrappers
  import opened Errors
  import opened Pixels

  /** The watermark transparency percentage, already range-checked. */
  type Percent = p: int | 0 <= p <= 100

  /** Everything the blend of one pixel depends on besides the two pixels:
      whether the watermark is read with its alpha channel (its transparency
      mode is TRANSLUCENT), the optional transparency colour and the opacity. */
  datatype Blending = Blending(useAlpha: bool, key: Option<Rgb>, opacity: Percent)

  function Min(x: int, y: int): int { if x <= y then x else y }
  function Max(x: int, y: int): int { if x <= y then y else x }

  /** One blended channel: `(p * w + (100 - p) * i) / 100`. Both operands are
      non-negative, so Kotlin's truncating division and Dafny's agree. The
      result lies between the two input channels, hence in 0..255, so the
      `Color` constructor never rejects it. */
  function Mix(p: Percent, w: Channel, i: Channel): (c: Channel)
    ensures Min(w, i) <= c <= Max(w, i)
    ensures p == 100 ==> c == w
    ensures p == 0 ==> c == i
  {
    MixBounds(p, w, i);
    (p * w + (100 - p) * i) / 100
  }

  /** The weighted sum lies between 100 times the smaller and 100 times the
      larger channel. */
  lemma MixBounds(p: Percent, w: Channel, i: Channel)
    ensures 100 * Min(w, i) <= p * w + (100 - p) * i <= 100 * Max(w, i)
    ensures p == 100 ==> p * w + (100 - p) * i == 100 * w
    ensures p == 0 ==> p * w + (100 - p) * i == 100 * i
  {
    var lo, hi := Min(w, i), Max(w, i);
    MulMonotone(p, lo, w);
    MulMonotone(p, w, hi);
    MulMonotone(100 - p, lo, i);
    MulMonotone(100 - p, i, hi);
    assert p * lo + (100 - p) * lo == 100 * lo;
    assert p * hi + (100 - p) * hi == 100 * hi;
  }

  lemma MulMonotone(k: int, x: int, y: int)
    requires 0 <= k && x <= y
    ensures k * x <= k * y
  {
    assert k * y - k * x == k * (y - x);
  }

  /** `w == transparencyColor`: java.awt.Color equality compares the packed
      ARGB value, and the transparency colour is opaque. */
  predicate MatchesKey(w: Pixel, key: Option<Rgb>)
    ensures MatchesKey(w, key) <==>
      key.Some? && w.a == 255 && w.r == key.value.r && w.g == key.value.g && w.b == key.value.b
  {
    key.Some? && w == FromRgb(key.value)
  }

  /** The `when` of the blend: a watermark pixel with alpha 0 or equal to the
      transparency colour leaves the base pixel; an opaque one is mixed in at
      the given opacity; any other alpha is an invalid watermark. */
  function BlendPixel(i: Pixel, w: Pixel, p: Percent, key: Option<Rgb>): (r: Result<Pixel, Error>)
    ensures r.Failure? <==> 0 < w.a < 255
    ensures r.Failure? ==> r.error == InvalidWatermarkImage
    ensures r.Success? && i.a == 255 ==> r.value.a == 255
  {
    if w.a == 0 || MatchesKey(w, key) then Success(i)
    else if w.a == 255 then
      Success(Pixel(Mix(p, w.r, i.r), Mix(p, w.g, i.g), Mix(p, w.b, i.b), 255))
    else Failure(InvalidWatermarkImage)
  }

  /** A stored watermark pixel that the composite refuses: only possible when
      the alpha channel is used, since otherwise alpha is read as 255. */
  predicate Rejects(w: Pixel, b: Blending) {
    b.useAlpha && 0 < w.a < 255
  }

  /** A stored watermark pixel that leaves the base pixel as it is. */
  predicate Transparent(w: Pixel, b: Blending) {
    var seen := ReadWatermark(w, b.useAlpha);
    seen.a == 0 || MatchesKey(seen, b.key)
  }

  /** One output pixel: the blend of the base pixel (read without alpha) with
      the watermark pixel (read with alpha only in translucent mode). */
  function Composite(base: Pixel, w: Pixel, b: Blending): (r: Result<Pixel, Error>)
    ensures r.Failure? <==> Rejects(w, b)
    ensures r.Failure? ==> r.error == InvalidWatermarkImage
    ensures r.Success? ==> r.value.a == 255
    ensures Transparent(w, b) ==> r == Success(ReadBase(base))
    ensures !Transparent(w, b) && !Rejects(w, b) ==>
      r.Success? && r.value.r == Mix(b.opacity, w.r, base.r)
      && r.value.g == Mix(b.opacity, w.g, base.g) && r.value.b == Mix(b.opacity, w.b, base.b)
  {
    BlendPixel(ReadBase(base), ReadWatermark(w, b.useAlpha), b.opacity, b.key)
  }

  /** At opacity 100 an opaque, non-key watermark pixel replaces the base
      colour; at opacity 0 the base colour is kept. */
  lemma OpacityExtremes(base: Pixel, w: Pixel, b: Blending)
    requires !Transparent(w, b) && !Rejects(w, b)
    ensures b.opacity == 100 ==> Composite(base, w, b) == Success(Pixel(w.r, w.g, w.b, 255))
    ensures b.opacity == 0 ==> Composite(base, w, b) == Success(ReadBase(base))
  {
  }

  /** A pixel equal to the transparency colour is never blended, however
      opaque it is. */
  lemma KeyedPixelIsKept(base: Pixel, w: Pixel, b: Blending)
    requires !b.useAlpha && b.key.Some?
    requires w.r == b.key.value.r && w.g == b.key.value.g && w.b == b.key.value.b
    ensures Composite(base, w, b) == Success(ReadBase(base))
  {
  }

  /** Without the alpha channel the transparency-colour test is exact RGB
      equality, whatever the stored alpha. */
  lemma KeyIsRgbEquality(w: Pixel, k: Rgb)
    ensures MatchesKey(ReadWatermark(w, false), Some(k)) <==> w.r == k.r && w.g == k.g && w.b == k.b
  {
  }

  /** Half-opaque white over black gives 127, by truncating division. */
  lemma HalfWhiteOverBlack()
    ensures Composite(Pixel(0, 0, 0, 255), Pixel(255, 255, 255, 255), Blending(false, None, 50))
      == Success(Pixel(127, 127, 127, 255))
  {
  }
}
