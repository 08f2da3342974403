/** The checks main makes before and after compositing, as pure functions of
    the decoded images' formats and sizes and of the user's answers. */
module Validation {
  import opened Wrappers
  import opened Errors
  import opened Pixels
  import opened Blend
  import opened Text

  /** `ColorModel.getTransparency()`. Only TRANSLUCENT offers the alpha prompt;
      OPAQUE and BITMASK watermarks go to the transparency-colour prompt. */
  datatype Transparency = OpaqueModel | Bitmask | Translucent

  /** What main reads off a decoded image's colour model. */
  datatype Format = Format(colorComponents: int, pixelSize: int, transparency: Transparency)

  /** The user's replies, one per prompt that main may show after the two file
      names. A reply is only consulted if main reaches its prompt. */
  datatype Answers = Answers(
    useAlphaChannel: string,
    setTransparencyColor: string,
    transparencyColor: string,
    percentage: string,
    positionMethod: string,
    position: string,
    outputFileName: string)

  datatype Placement = Single(x: int, y: int) | Grid

  datatype Settings = Settings(blending: Blending, placement: Placement)

  /** createBufferedImage's checks on a decoded image: three colour components
      first, then a pixel size of 24 or 32 bits. */
  function CheckFormat(f: Format, imageType: string): (r: Result<(), Error>)
    ensures r.Success? <==> f.colorComponents == 3 && (f.pixelSize == 24 || f.pixelSize == 32)
    ensures f.colorComponents != 3 ==> r == Failure(InvalidImageColorComponents(imageType))
    ensures f.colorComponents == 3 && f.pixelSize != 24 && f.pixelSize != 32 ==>
      r == Failure(InvalidImageBitsPerPixel(imageType))
  {
    if f.colorComponents != 3 then Failure(InvalidImageColorComponents(imageType))
    else if f.pixelSize != 24 && f.pixelSize != 32 then Failure(InvalidImageBitsPerPixel(imageType))
    else Success(())
  }

  /** The watermark may not be wider or taller than the base; checked before
      the placement method is chosen, so it guards the grid as well. */
  function CheckDimensions(baseWidth: int, baseHeight: int, wmWidth: int, wmHeight: int): (r: Result<(), Error>)
    ensures r.Success? <==> wmWidth <= baseWidth && wmHeight <= baseHeight
    ensures r.Failure? ==> r.error == DifferentImagesDimensions
  {
    if baseWidth < wmWidth || baseHeight < wmHeight then Failure(DifferentImagesDimensions) else Success(())
  }

  /** The alpha prompt compares `reply.lowercase() == "yes"`. */
  predicate YesIgnoringCase(reply: string)
    ensures YesIgnoringCase(reply) ==> |reply| == 3
  {
    LowerCase(reply) == "yes"
  }

  /** The transparency-colour prompt compares `reply == "yes"` exactly. */
  predicate YesExactly(reply: string)
    ensures YesExactly(reply) ==> YesIgnoringCase(reply)
  {
    reply == "yes"
  }

  lemma YesIgnoringCaseSpelled(reply: string)
    ensures YesIgnoringCase(reply) <==>
      |reply| == 3 && reply[0] in "yY" && reply[1] in "eE" && reply[2] in "sS"
  {
    if YesIgnoringCase(reply) {
      assert LowerCase(reply)[0] == 'y' && LowerCase(reply)[1] == 'e' && LowerCase(reply)[2] == 's';
    }
    if |reply| == 3 && reply[0] in "yY" && reply[1] in "eE" && reply[2] in "sS" {
      assert LowerCase(reply) == "yes";
    }
  }

  /** The two prompts differ in case sensitivity. */
  lemma PromptsDifferInCase()
    ensures YesIgnoringCase("YES") && !YesExactly("YES")
  {
    assert LowerCase("YES") == "yes";
  }

  /** `reply.matches(Regex("\\d+ \\d+ \\d+"))`: three non-empty runs of ASCII
      digits separated by single spaces. */
  predicate DigitTriple(reply: string)
    ensures DigitTriple(reply) ==> Count(reply, ' ') == 2
  {
    var parts := Split(reply, ' ');
    |parts| == 3 && forall i :: 0 <= i < 3 ==> parts[i] != [] && AllDigits(parts[i])
  }

  /** Every string of the regular expression's shape passes DigitTriple... */
  lemma DigitTripleAccepts(a: string, b: string, c: string)
    requires a != [] && AllDigits(a) && b != [] && AllDigits(b) && c != [] && AllDigits(c)
    ensures DigitTriple(a + " " + b + " " + c)
  {
    SplitOfThree(a, b, c);
  }

  /** ...and every string DigitTriple passes has that shape. */
  lemma DigitTripleShape(reply: string)
    requires DigitTriple(reply)
    ensures var parts := Split(reply, ' '); reply == parts[0] + " " + parts[1] + " " + parts[2]
  {
    var parts := Split(reply, ' ');
    JoinSplit(reply, ' ');
    assert parts[1..][1..] == [parts[2]];
    assert Join(parts[1..], ' ') == parts[1] + " " + parts[2];
  }

  lemma SplitOfThree(a: string, b: string, c: string)
    requires AllDigits(a) && AllDigits(b) && AllDigits(c)
    ensures Split(a + " " + b + " " + c, ' ') == [a, b, c]
  {
    assert ' ' !in a && ' ' !in b && ' ' !in c;
    assert Join([a, b, c], ' ') == a + " " + b + " " + c by {
      assert [a, b, c][1..] == [b, c];
      assert [b, c][1..] == [c];
      assert Join([b, c], ' ') == b + " " + c;
    }
    SplitJoin([a, b, c], ' ');
  }

  /** The transparency-colour reply: the regular expression, then `toInt()` on
      each run (a run too long for an Int throws NumberFormatException), then
      every value must lie in 0..255. */
  function ParseColorKey(reply: string): (r: Result<Rgb, Error>)
    ensures !DigitTriple(reply) ==> r == Failure(InvalidTransparencyColor)
    ensures r.Success? ==> DigitTriple(reply)
    ensures r.Success? ==> (var parts := Split(reply, ' ');
      r.value.r == DigitsValue(parts[0]) && r.value.g == DigitsValue(parts[1]) && r.value.b == DigitsValue(parts[2]))
  {
    if !DigitTriple(reply) then Failure(InvalidTransparencyColor)
    else
      var parts := Split(reply, ' ');
      var red :- ToInt(parts[0]);
      var green :- ToInt(parts[1]);
      var blue :- ToInt(parts[2]);
      if !(0 <= red <= 255 && 0 <= green <= 255 && 0 <= blue <= 255) then Failure(InvalidTransparencyColor)
      else Success(Rgb(red, green, blue))
  }

  /** `toInt()`: toIntOrNull, throwing NumberFormatException on null. */
  function ToInt(s: string): (r: Result<int, Error>)
    ensures s != [] && AllDigits(s) ==> (r.Success? <==> DigitsValue(s) <= IntMax)
    ensures s != [] && AllDigits(s) && r.Success? ==> r.value == DigitsValue(s)
    ensures r.Success? ==> IntMin <= r.value <= IntMax
    ensures r.Failure? ==> r == Failure(NumberFormat(s))
  {
    match ParseInt(s)
    case Some(n) => Success(n)
    case None => Failure(NumberFormat(s))
  }

  /** A colour written as three decimal numbers reads back as that colour. */
  lemma ColorKeyRoundTrip(c: Rgb)
    ensures ParseColorKey(Decimal(c.r) + " " + Decimal(c.g) + " " + Decimal(c.b)) == Success(c)
  {
    var reply := Decimal(c.r) + " " + Decimal(c.g) + " " + Decimal(c.b);
    DecimalValue(c.r);
    DecimalValue(c.g);
    DecimalValue(c.b);
    SplitOfThree(Decimal(c.r), Decimal(c.g), Decimal(c.b));
    assert DigitTriple(reply);
    ColorKeyRange(reply);
  }

  /** A reply of the right shape whose numbers fit in an Int is accepted
      exactly when every number is at most 255. */
  lemma ColorKeyRange(reply: string)
    requires DigitTriple(reply)
    requires forall i :: 0 <= i < 3 ==> DigitsValue(Split(reply, ' ')[i]) <= IntMax
    ensures ParseColorKey(reply).Success? <==>
      forall i :: 0 <= i < 3 ==> DigitsValue(Split(reply, ' ')[i]) <= 255
    ensures ParseColorKey(reply).Failure? ==> ParseColorKey(reply).error == InvalidTransparencyColor
  {
    var parts := Split(reply, ' ');
    var red, green, blue := DigitsValue(parts[0]), DigitsValue(parts[1]), DigitsValue(parts[2]);
    assert ToInt(parts[0]) == Success(red);
    assert ToInt(parts[1]) == Success(green);
    assert ToInt(parts[2]) == Success(blue);
    ColorKeyOfInts(reply, red, green, blue);
  }

  lemma ColorKeyOfInts(reply: string, red: int, green: int, blue: int)
    requires DigitTriple(reply)
    requires ToInt(Split(reply, ' ')[0]) == Success(red)
    requires ToInt(Split(reply, ' ')[1]) == Success(green)
    requires ToInt(Split(reply, ' ')[2]) == Success(blue)
    ensures ParseColorKey(reply) ==
      if 0 <= red <= 255 && 0 <= green <= 255 && 0 <= blue <= 255 then Success(Rgb(red, green, blue))
      else Failure(InvalidTransparencyColor)
  {
  }

  /** The first digit run too long for an Int makes `toInt()` throw, before
      any range check. */
  lemma ColorKeyOverflow(reply: string, i: nat)
    requires DigitTriple(reply) && i < 3
    requires DigitsValue(Split(reply, ' ')[i]) > IntMax
    requires forall j :: 0 <= j < i ==> DigitsValue(Split(reply, ' ')[j]) <= IntMax
    ensures ParseColorKey(reply) == Failure(NumberFormat(Split(reply, ' ')[i]))
  {
    var parts := Split(reply, ' ');
    assert ToInt(parts[i]) == Failure(NumberFormat(parts[i]));
    if i >= 1 {
      assert ToInt(parts[0]) == Success(DigitsValue(parts[0]));
    }
    if i == 2 {
      assert ToInt(parts[1]) == Success(DigitsValue(parts[1]));
    }
  }

  /** The percentage reply: an Int (toIntOrNull) in 0..100. */
  function ParsePercentage(reply: string): (r: Result<Percent, Error>)
    ensures r.Success? <==> ParseInt(reply).Some? && 0 <= ParseInt(reply).value <= 100
    ensures r.Success? ==> r.value == ParseInt(reply).value
    ensures ParseInt(reply).None? ==> r == Failure(PercentageNotAnInteger)
    ensures ParseInt(reply).Some? && r.Failure? ==> r.error == TransparencyPercentageOutOfRange
  {
    match ParseInt(reply)
    case None => Failure(PercentageNotAnInteger)
    case Some(p) => if 0 <= p <= 100 then Success(p) else Failure(TransparencyPercentageOutOfRange)
  }

  /** Every Int written in decimal is accepted exactly when it lies in 0..100. */
  lemma PercentageRoundTrip(n: int)
    requires IntMin <= n <= IntMax
    ensures 0 <= n <= 100 ==> ParsePercentage(Render(n)) == Success(n)
    ensures !(0 <= n <= 100) ==> ParsePercentage(Render(n)) == Failure(TransparencyPercentageOutOfRange)
  {
    ParseRender(n);
  }

  /** The position reply: split on single spaces into exactly two Int tokens
      (else InvalidPositionInput), each in 0..diff inclusive (else
      PositionInputOutOfRange). */
  function ParsePosition(reply: string, diffX: int, diffY: int): (r: Result<(int, int), Error>)
    ensures r.Success? ==> 0 <= r.value.0 <= diffX && 0 <= r.value.1 <= diffY
    ensures |Split(reply, ' ')| != 2 ==> r == Failure(InvalidPositionInput)
    ensures r.Success? ==> (|Split(reply, ' ')| == 2
      && ParseInt(Split(reply, ' ')[0]) == Some(r.value.0) && ParseInt(Split(reply, ' ')[1]) == Some(r.value.1))
    ensures var t := Split(reply, ' ');
      |t| == 2 && (ParseInt(t[0]).None? || ParseInt(t[1]).None?) ==> r == Failure(InvalidPositionInput)
    ensures var t := Split(reply, ' ');
      |t| == 2 && ParseInt(t[0]).Some? && ParseInt(t[1]).Some? ==>
        r == (if 0 <= ParseInt(t[0]).value <= diffX && 0 <= ParseInt(t[1]).value <= diffY
              then Success((ParseInt(t[0]).value, ParseInt(t[1]).value))
              else Failure(PositionInputOutOfRange))
  {
    var tokens := Split(reply, ' ');
    if |tokens| != 2 || ParseInt(tokens[0]).None? || ParseInt(tokens[1]).None? then
      Failure(InvalidPositionInput)
    else
      var x, y := ParseInt(tokens[0]).value, ParseInt(tokens[1]).value;
      if !(0 <= x <= diffX) || !(0 <= y <= diffY) then Failure(PositionInputOutOfRange)
      else Success((x, y))
  }

  lemma SplitOfTwo(a: string, b: string)
    requires ' ' !in a && ' ' !in b
    ensures Split(a + " " + b, ' ') == [a, b]
  {
    assert Join([a, b], ' ') == a + " " + b by {
      assert [a, b][1..] == [b];
    }
    SplitJoin([a, b], ' ');
  }

  /** Two Ints written in decimal are accepted exactly when each lies in
      0..diff; the boundary diff itself is accepted. */
  lemma PositionRoundTrip(x: int, y: int, diffX: int, diffY: int)
    requires IntMin <= x <= IntMax && IntMin <= y <= IntMax
    ensures 0 <= x <= diffX && 0 <= y <= diffY ==>
      ParsePosition(Render(x) + " " + Render(y), diffX, diffY) == Success((x, y))
    ensures !(0 <= x <= diffX && 0 <= y <= diffY) ==>
      ParsePosition(Render(x) + " " + Render(y), diffX, diffY) == Failure(PositionInputOutOfRange)
  {
    ParseRender(x);
    ParseRender(y);
    SplitOfTwo(Render(x), Render(y));
  }

  /** The position-method reply: exactly "single" (then the position prompt)
      or exactly "grid". */
  function ParsePlacement(methodReply: string, position: string, diffX: int, diffY: int): (r: Result<Placement, Error>)
    ensures methodReply != "single" && methodReply != "grid" ==> r == Failure(InvalidPositionMethod)
    ensures methodReply == "grid" ==> r == Success(Grid)
    ensures methodReply == "single" ==> (r.Success? <==> ParsePosition(position, diffX, diffY).Success?)
    ensures methodReply == "single" && r.Failure? ==> r.error == ParsePosition(position, diffX, diffY).error
    ensures r.Success? && r.value.Single? ==>
      methodReply == "single" && ParsePosition(position, diffX, diffY) == Success((r.value.x, r.value.y))
    ensures methodReply == "single" && r.Success? ==>
      r.value == Single(ParsePosition(position, diffX, diffY).value.0, ParsePosition(position, diffX, diffY).value.1)
  {
    if methodReply == "single" then
      var xy :- ParsePosition(position, diffX, diffY);
      Success(Single(xy.0, xy.1))
    else if methodReply == "grid" then Success(Grid)
    else Failure(InvalidPositionMethod)
  }

  /** The transparency mode and colour: a TRANSLUCENT watermark asks whether
      to use its alpha channel (and never takes a colour); any other asks for
      an optional transparency colour, and its alpha is then ignored. */
  function ChooseTransparency(t: Transparency, answers: Answers): (r: Result<(bool, Option<Rgb>), Error>)
    ensures r.Success? && r.value.0 ==> t == Translucent && r.value.1 == None
    ensures r.Success? && r.value.1.Some? ==> t != Translucent && YesExactly(answers.setTransparencyColor)
    ensures t == Translucent ==> r == Success((YesIgnoringCase(answers.useAlphaChannel), None))
    ensures t != Translucent && !YesExactly(answers.setTransparencyColor) ==> r == Success((false, None))
    ensures t != Translucent && YesExactly(answers.setTransparencyColor) ==>
      var key := ParseColorKey(answers.transparencyColor);
      && (r.Success? <==> key.Success?)
      && (r.Success? ==> r.value == (false, Some(key.value)))
      && (r.Failure? ==> r.error == key.error)
  {
    if t == Translucent then Success((YesIgnoringCase(answers.useAlphaChannel), None))
    else if YesExactly(answers.setTransparencyColor) then
      var key :- ParseColorKey(answers.transparencyColor);
      Success((false, Some(key)))
    else Success((false, None))
  }

  /** main's checks between decoding the images and compositing, in its order:
      dimensions, transparency, percentage, position method and position. */
  function Configure(baseWidth: int, baseHeight: int, wmWidth: int, wmHeight: int, t: Transparency, answers: Answers)
    : (r: Result<Settings, Error>)
    ensures CheckDimensions(baseWidth, baseHeight, wmWidth, wmHeight).Failure? ==>
      r == Failure(DifferentImagesDimensions)
    ensures r.Success? ==> wmWidth <= baseWidth && wmHeight <= baseHeight
    ensures r.Success? && r.value.placement.Single? ==>
      0 <= r.value.placement.x <= baseWidth - wmWidth && 0 <= r.value.placement.y <= baseHeight - wmHeight
    ensures r.Success? && r.value.blending.useAlpha ==> t == Translucent && r.value.blending.key == None
    ensures r.Success? && r.value.blending.key.Some? ==> t != Translucent
    ensures var choice, percentage := ChooseTransparency(t, answers), ParsePercentage(answers.percentage);
      var placement := ParsePlacement(answers.positionMethod, answers.position, baseWidth - wmWidth, baseHeight - wmHeight);
      && (r.Success? <==> CheckDimensions(baseWidth, baseHeight, wmWidth, wmHeight).Success?
                          && choice.Success? && percentage.Success? && placement.Success?)
      && (r.Success? ==> r.value.blending == Blending(choice.value.0, choice.value.1, percentage.value)
                         && r.value.placement == placement.value)
    ensures var choice, percentage := ChooseTransparency(t, answers), ParsePercentage(answers.percentage);
      var placement := ParsePlacement(answers.positionMethod, answers.position, baseWidth - wmWidth, baseHeight - wmHeight);
      CheckDimensions(baseWidth, baseHeight, wmWidth, wmHeight).Success? ==>
        && (choice.Failure? ==> r == Failure(choice.error))
        && (choice.Success? && percentage.Failure? ==> r == Failure(percentage.error))
        && (choice.Success? && percentage.Success? && placement.Failure? ==> r == Failure(placement.error))
    ensures r.Failure? ==> r.error != InvalidWatermarkImage && r.error != InvalidFileName
  {
    var _ :- CheckDimensions(baseWidth, baseHeight, wmWidth, wmHeight);
    var choice :- ChooseTransparency(t, answers);
    var p :- ParsePercentage(answers.percentage);
    var placement :- ParsePlacement(answers.positionMethod, answers.position, baseWidth - wmWidth, baseHeight - wmHeight);
    Success(Settings(Blending(choice.0, choice.1, p), placement))
  }

  /** Everything checked before compositing: the base image's format, the
      watermark's format, then Configure. */
  function Prepare(baseFormat: Format, wmFormat: Format, baseWidth: int, baseHeight: int,
                   wmWidth: int, wmHeight: int, answers: Answers): (r: Result<Settings, Error>)
    ensures CheckFormat(baseFormat, "image").Failure? ==> r == CheckFormat(baseFormat, "image").PropagateFailure()
    ensures CheckFormat(baseFormat, "image").Success? && CheckFormat(wmFormat, "watermark").Failure? ==>
      r == CheckFormat(wmFormat, "watermark").PropagateFailure()
    ensures r.Success? ==> CheckFormat(baseFormat, "image").Success? && CheckFormat(wmFormat, "watermark").Success?
    ensures r.Success? ==> wmWidth <= baseWidth && wmHeight <= baseHeight
    ensures r.Success? && r.value.blending.useAlpha ==> wmFormat.transparency == Translucent
    ensures CheckFormat(baseFormat, "image").Success? && CheckFormat(wmFormat, "watermark").Success? ==>
      r == Configure(baseWidth, baseHeight, wmWidth, wmHeight, wmFormat.transparency, answers)
    ensures var choice, percentage := ChooseTransparency(wmFormat.transparency, answers), ParsePercentage(answers.percentage);
      var placement := ParsePlacement(answers.positionMethod, answers.position, baseWidth - wmWidth, baseHeight - wmHeight);
      r.Success? ==>
        && choice.Success? && percentage.Success? && placement.Success?
        && r.value.blending == Blending(choice.value.0, choice.value.1, percentage.value)
        && r.value.placement == placement.value
    ensures r.Failure? ==> r.error != InvalidWatermarkImage && r.error != InvalidFileName
  {
    var _ :- CheckFormat(baseFormat, "image");
    var _ :- CheckFormat(wmFormat, "watermark");
    Configure(baseWidth, baseHeight, wmWidth, wmHeight, wmFormat.transparency, answers)
  }

  /** A character `.` does not match in a Java regular expression. */
  predicate LineTerminator(c: char) {
    c == '\n' || c == '\r' || c == '\U{85}' || c == '\U{2028}' || c == '\U{2029}'
  }

  /** The output file name must match `.+\.(jpg|png)`; the image format handed
      to the encoder is its last three characters. */
  function OutputFormat(name: string): (r: Result<string, Error>)
    ensures r.Success? ==> (r.value == "jpg" || r.value == "png") && |name| >= 5 && r.value == name[|name| - 3..]
    ensures r.Failure? ==> r.error == InvalidFileName
  {
    if |name| >= 5 && name[|name| - 4] == '.' && (name[|name| - 3..] == "jpg" || name[|name| - 3..] == "png")
       && forall i :: 0 <= i < |name| - 4 ==> !LineTerminator(name[i])
    then Success(name[|name| - 3..])
    else Failure(InvalidFileName)
  }

  /** A non-empty single-line stem followed by `.jpg` or `.png` is accepted,
      and its extension is the format; nothing else is. */
  lemma OutputFormatIff(name: string)
    ensures OutputFormat(name).Success? <==>
      exists stem, ext :: name == stem + "." + ext && stem != [] && (ext == "jpg" || ext == "png")
        && forall i :: 0 <= i < |stem| ==> !LineTerminator(stem[i])
  {
    if OutputFormat(name).Success? {
      var stem, ext := name[..|name| - 4], name[|name| - 3..];
      assert name == stem + "." + ext;
    }
  }
}
