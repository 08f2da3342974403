/** The exceptions the program raises, one variant per exception class of
    Exceptions.kt (the file-existence one excepted: file look-up is not part of
    this model), plus the two NumberFormatException sources in main. */
module Errors {

  datatype Error =
    | DifferentImagesDimensions
    | TransparencyPercentageOutOfRange
    | InvalidImageBitsPerPixel(imageType: string)
    | InvalidImageColorComponents(imageType: string)
    | InvalidFileName
    | InvalidWatermarkImage
    | InvalidTransparencyColor
    | InvalidPositionMethod
    | InvalidPositionInput
    | PositionInputOutOfRange
      /** `toIntOrNull() ?: throw NumberFormatException(...)` on the percentage */
    | PercentageNotAnInteger
      /** `toInt()` on a colour-key component that does not fit in an Int */
    | NumberFormat(input: string)
}
