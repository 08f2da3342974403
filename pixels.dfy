/** Pixels as java.awt.Color sees them: four channels in 0..255. */
module Pixels {

  type Channel = c: int | 0 <= c <= 255

  /** An (r, g, b, a) colour; `a == 255` is fully opaque. */
  datatype Pixel = Pixel(r: Channel, g: Channel, b: Channel, a: Channel)

  /** An RGB triple, as built by `Color(r, g, b)` for the transparency colour. */
  datatype Rgb = Rgb(r: Channel, g: Channel, b: Channel)

  /** `Color(r, g, b)`: an opaque colour. */
  function FromRgb(c: Rgb): Pixel {
    Pixel(c.r, c.g, c.b, 255)
  }

  /** `Color(img.getRGB(x, y))`: the colour is read without its alpha, so the
      alpha channel is forced to 255 and the colour channels are kept. */
  function ReadBase(stored: Pixel): (p: Pixel)
    ensures p.a == 255
    ensures p.r == stored.r && p.g == stored.g && p.b == stored.b
  {
    stored.(a := 255)
  }

  /** `Color(img.getRGB(x, y), hasalpha)`: alpha is kept only with `hasalpha`. */
  function ReadWatermark(stored: Pixel, hasAlpha: bool): (p: Pixel)
    ensures p.r == stored.r && p.g == stored.g && p.b == stored.b
    ensures p.a == (if hasAlpha then stored.a else 255)
    ensures !hasAlpha ==> p == ReadBase(stored)
  {
    if hasAlpha then stored else stored.(a := 255)
  }
}
