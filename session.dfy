/** main without its terminal and file I/O: the images arrive decoded, the
    replies as strings, and the encoded output is described, not written. */
module Session {
  import opened Wrappers
  import opened Errors
  import opened Pixels
  import opened Blend
  import opened Compositor
  import opened Validation

  /** What main hands to `ImageIO.write`: the image, the format tag and the
      file name. */
  datatype Output = Output(image: array2<Pixel>, formatTag: string, fileName: string)

  /** main: formats, dimensions, transparency, percentage and placement are
      checked first (nothing is written if one fails); then the chosen
      strategy composites; then the output name is checked. Decoding gives
      two distinct images, so the base and the watermark never alias. */
  method Watermark(base: array2<Pixel>, baseFormat: Format, wm: array2<Pixel>, wmFormat: Format, answers: Answers)
    returns (res: Result<Output, Error>)
    requires base != wm
    requires wm.Length0 > 0 && wm.Length1 > 0
    modifies base
    ensures var pre := Prepare(baseFormat, wmFormat, base.Length0, base.Length1, wm.Length0, wm.Length1, answers);
      pre.Failure? ==> res == Failure(pre.error) && unchanged(base)
    ensures var pre := Prepare(baseFormat, wmFormat, base.Length0, base.Length1, wm.Length0, wm.Length1, answers);
      pre.Success? ==>
        ((res.Failure? && res.error == InvalidWatermarkImage) <==> HasInvalidPixel(wm, pre.value.blending))
    ensures var pre := Prepare(baseFormat, wmFormat, base.Length0, base.Length1, wm.Length0, wm.Length1, answers);
      pre.Success? && !HasInvalidPixel(wm, pre.value.blending) ==>
        match OutputFormat(answers.outputFileName)
        case Failure(e) => res == Failure(e)
        case Success(tag) => res.Success? && res.value.formatTag == tag && res.value.fileName == answers.outputFileName
    ensures res.Success? ==>
      var s := Prepare(baseFormat, wmFormat, base.Length0, base.Length1, wm.Length0, wm.Length1, answers).value;
      s.placement.Grid? ==>
        unchanged(base) && fresh(res.value.image)
        && res.value.image.Length0 == base.Length0 && res.value.image.Length1 == base.Length1
        && forall x, y :: 0 <= x < base.Length0 && 0 <= y < base.Length1 ==>
             GridAt(base, wm, s.blending, x, y) == Success(res.value.image[x, y])
    ensures res.Success? ==>
      var s := Prepare(baseFormat, wmFormat, base.Length0, base.Length1, wm.Length0, wm.Length1, answers).value;
      s.placement.Single? ==>
        res.value.image == base
        && forall u, v :: 0 <= u < base.Length0 && 0 <= v < base.Length1 ==>
             if InFootprint(u, v, s.placement.x, s.placement.y, wm.Length0, wm.Length1)
             then Composite(old(base[u, v]), wm[u - s.placement.x, v - s.placement.y], s.blending) == Success(base[u, v])
             else base[u, v] == old(base[u, v])
  {
    var pre := Prepare(baseFormat, wmFormat, base.Length0, base.Length1, wm.Length0, wm.Length1, answers);
    if pre.Failure? {
      return Failure(pre.error);
    }
    var settings := pre.value;
    var composite: Result<array2<Pixel>, Error>;
    match settings.placement {
      case Single(x, y) =>
        composite := AddSingleWatermark(base, wm, settings.blending, x, y);
      case Grid =>
        composite := AddGridWatermark(base, wm, settings.blending);
        GridFailsIffInvalidPixel(base, wm, settings.blending);
    }
    if composite.Failure? {
      return Failure(composite.error);
    }
    var tag := OutputFormat(answers.outputFileName);
    if tag.Failure? {
      return Failure(tag.error);
    }
    return Success(Output(composite.value, tag.value, answers.outputFileName));
  }

  /** The composite can only fail for a watermark whose colour model is
      TRANSLUCENT and whose alpha channel the user chose to use. */
  lemma OnlyTranslucentWatermarksFail(baseFormat: Format, wm: array2<Pixel>, wmFormat: Format,
                                      baseWidth: int, baseHeight: int, answers: Answers)
    requires Prepare(baseFormat, wmFormat, baseWidth, baseHeight, wm.Length0, wm.Length1, answers).Success?
    requires HasInvalidPixel(wm, Prepare(baseFormat, wmFormat, baseWidth, baseHeight, wm.Length0, wm.Length1, answers).value.blending)
    ensures wmFormat.transparency == Translucent
    ensures YesIgnoringCase(answers.useAlphaChannel)
  {
    var s := Prepare(baseFormat, wmFormat, baseWidth, baseHeight, wm.Length0, wm.Length1, answers).value;
    var x, y :| 0 <= x < wm.Length0 && 0 <= y < wm.Length1 && Rejects(wm[x, y], s.blending);
  }
}
