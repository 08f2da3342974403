/** The two placement strategies. Images are `array2<Pixel>` indexed
    `[x, y]`, with `Length0` the width and `Length1` the height, as
    `getRGB(x, y)` / `setRGB(x, y, rgb)` address a BufferedImage. */
module Compositor {
  import opened Wrappers
  import opened Errors
  import opened Pixels
  import opened Blend

  /** What the grid strategy writes at (x, y): the base pixel blended with the
      watermark pixel at (x mod width, y mod height). */
  function GridAt(base: array2<Pixel>, wm: array2<Pixel>, b: Blending, x: int, y: int): Result<Pixel, Error>
    reads base, wm
    requires 0 <= x < base.Length0 && 0 <= y < base.Length1
    requires wm.Length0 > 0 && wm.Length1 > 0
  {
    Composite(base[x, y], wm[x % wm.Length0, y % wm.Length1], b)
  }

  /** Some watermark pixel is one the blend refuses. */
  predicate HasInvalidPixel(wm: array2<Pixel>, b: Blending)
    reads wm
  {
    exists x, y :: 0 <= x < wm.Length0 && 0 <= y < wm.Length1 && Rejects(wm[x, y], b)
  }

  /** Whether (u, v) lies in the footprint of a watermark of the given size
      placed at (xPos, yPos). */
  predicate InFootprint(u: int, v: int, xPos: int, yPos: int, width: int, height: int) {
    xPos <= u < xPos + width && yPos <= v < yPos + height
  }

  /** addGridWatermark: a fresh image of the base's size in which every pixel
      is the blend of the base pixel with the tiled watermark. The base is only
      read. The composite fails exactly when some visited watermark pixel is
      refused by the blend. */
  method AddGridWatermark(base: array2<Pixel>, wm: array2<Pixel>, b: Blending)
    returns (res: Result<array2<Pixel>, Error>)
    requires wm.Length0 > 0 && wm.Length1 > 0
    ensures res.Failure? <==>
      exists x, y :: 0 <= x < base.Length0 && 0 <= y < base.Length1 && GridAt(base, wm, b, x, y).Failure?
    ensures res.Failure? ==> res.error == InvalidWatermarkImage
    ensures res.Success? ==>
      fresh(res.value) && res.value.Length0 == base.Length0 && res.value.Length1 == base.Length1
    ensures res.Success? ==> forall x, y :: 0 <= x < base.Length0 && 0 <= y < base.Length1 ==>
      GridAt(base, wm, b, x, y) == Success(res.value[x, y])
  {
    var output := new Pixel[base.Length0, base.Length1];
    for x := 0 to base.Length0
      invariant forall u, v :: 0 <= u < x && 0 <= v < base.Length1 ==>
        GridAt(base, wm, b, u, v) == Success(output[u, v])
    {
      for y := 0 to base.Length1
        invariant forall u, v :: 0 <= u < x && 0 <= v < base.Length1 ==>
          GridAt(base, wm, b, u, v) == Success(output[u, v])
        invariant forall v :: 0 <= v < y ==> GridAt(base, wm, b, x, v) == Success(output[x, v])
      {
        var color := Composite(base[x, y], wm[x % wm.Length0, y % wm.Length1], b);
        if color.Failure? {
          assert GridAt(base, wm, b, x, y).Failure?;
          return Failure(color.error);
        }
        output[x, y] := color.value;
      }
    }
    return Success(output);
  }

  /** addSingleWatermark: the watermark is blended into the base image itself
      at (xPos, yPos), which the caller has checked keeps it inside the base.
      On success the base is returned; pixels in the footprint hold the blend
      of their old value with the matching watermark pixel and all others are
      unchanged. The composite fails exactly when some watermark pixel is
      refused; the base is then partly overwritten and the caller discards it. */
  method AddSingleWatermark(base: array2<Pixel>, wm: array2<Pixel>, b: Blending, xPos: int, yPos: int)
    returns (res: Result<array2<Pixel>, Error>)
    requires base != wm
    requires 0 <= xPos <= base.Length0 - wm.Length0 && 0 <= yPos <= base.Length1 - wm.Length1
    modifies base
    ensures res.Failure? <==> HasInvalidPixel(wm, b)
    ensures res.Failure? ==> res.error == InvalidWatermarkImage
    ensures res.Success? ==> res.value == base
    ensures res.Success? ==> forall u, v :: 0 <= u < base.Length0 && 0 <= v < base.Length1 ==>
      if InFootprint(u, v, xPos, yPos, wm.Length0, wm.Length1)
      then Composite(old(base[u, v]), wm[u - xPos, v - yPos], b) == Success(base[u, v])
      else base[u, v] == old(base[u, v])
  {
    for x := 0 to wm.Length0
      invariant forall u, v :: 0 <= u < x && 0 <= v < wm.Length1 ==> !Rejects(wm[u, v], b)
      invariant forall u, v :: 0 <= u < base.Length0 && 0 <= v < base.Length1 ==>
        if InFootprint(u, v, xPos, yPos, x, wm.Length1)
        then Composite(old(base[u, v]), wm[u - xPos, v - yPos], b) == Success(base[u, v])
        else base[u, v] == old(base[u, v])
    {
      for y := 0 to wm.Length1
        invariant forall u, v :: 0 <= u < x && 0 <= v < wm.Length1 ==> !Rejects(wm[u, v], b)
        invariant forall v :: 0 <= v < y ==> !Rejects(wm[x, v], b)
        invariant forall u, v :: 0 <= u < base.Length0 && 0 <= v < base.Length1 ==>
          if InFootprint(u, v, xPos, yPos, x, wm.Length1) || (u == x + xPos && yPos <= v < yPos + y)
          then Composite(old(base[u, v]), wm[u - xPos, v - yPos], b) == Success(base[u, v])
          else base[u, v] == old(base[u, v])
      {
        var color := Composite(base[x + xPos, y + yPos], wm[x, y], b);
        if color.Failure? {
          return Failure(color.error);
        }
        base[x + xPos, y + yPos] := color.value;
      }
    }
    return Success(base);
  }

  /** The grid fails at (x, y) exactly when the tiled watermark pixel there
      is rejected. */
  lemma GridAtFails(base: array2<Pixel>, wm: array2<Pixel>, b: Blending, x: int, y: int)
    requires 0 <= x < base.Length0 && 0 <= y < base.Length1
    requires wm.Length0 > 0 && wm.Length1 > 0
    ensures 0 <= x % wm.Length0 < wm.Length0 && 0 <= y % wm.Length1 < wm.Length1
    ensures GridAt(base, wm, b, x, y).Failure? <==> Rejects(wm[x % wm.Length0, y % wm.Length1], b)
  {
  }

  /** When the base is at least as large as the watermark, the grid visits
      every watermark pixel, so both strategies fail on exactly the same
      watermarks. */
  lemma GridFailsIffInvalidPixel(base: array2<Pixel>, wm: array2<Pixel>, b: Blending)
    requires 0 < wm.Length0 <= base.Length0 && 0 < wm.Length1 <= base.Length1
    ensures (exists x, y :: 0 <= x < base.Length0 && 0 <= y < base.Length1 && GridAt(base, wm, b, x, y).Failure?)
      <==> HasInvalidPixel(wm, b)
  {
    GridFailureIsInvalidPixel(base, wm, b);
    InvalidPixelFailsGrid(base, wm, b);
  }

  lemma GridFailureIsInvalidPixel(base: array2<Pixel>, wm: array2<Pixel>, b: Blending)
    requires 0 < wm.Length0 && 0 < wm.Length1
    ensures (exists x, y :: 0 <= x < base.Length0 && 0 <= y < base.Length1 && GridAt(base, wm, b, x, y).Failure?)
      ==> HasInvalidPixel(wm, b)
  {
    if x, y :| 0 <= x < base.Length0 && 0 <= y < base.Length1 && GridAt(base, wm, b, x, y).Failure? {
      GridAtFails(base, wm, b, x, y);
      var u, v := x % wm.Length0, y % wm.Length1;
      assert Rejects(wm[u, v], b);
    }
  }

  lemma InvalidPixelFailsGrid(base: array2<Pixel>, wm: array2<Pixel>, b: Blending)
    requires 0 < wm.Length0 <= base.Length0 && 0 < wm.Length1 <= base.Length1
    ensures HasInvalidPixel(wm, b) ==>
      exists x, y :: 0 <= x < base.Length0 && 0 <= y < base.Length1 && GridAt(base, wm, b, x, y).Failure?
  {
    if u, v :| 0 <= u < wm.Length0 && 0 <= v < wm.Length1 && Rejects(wm[u, v], b) {
      GridAtFails(base, wm, b, u, v);
      assert u % wm.Length0 == u && v % wm.Length1 == v;
    }
  }

  /** Outside translucent mode no watermark is refused. */
  lemma OnlyTranslucentFails(wm: array2<Pixel>, b: Blending)
    requires !b.useAlpha
    ensures !HasInvalidPixel(wm, b)
  {
  }
}
