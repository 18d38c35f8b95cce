/**
 * The colour-mode normalisation applied to every decoded image before it is
 * re-encoded as WebP (backend/main.py:83-91). Modes are PIL's mode tags.
 */
module ColourMode {

  /** What is done to a decoded picture before encoding. */
  datatype Conversion =
    | Keep            // RGB and L pictures are encoded as they are
    | FlattenOnWhite  // RGBA: pasted onto a white RGB background, alpha as mask
    | ConvertToRgb    // P and every other mode: converted to RGB

  /** The conversion chosen for a picture of the given mode. */
  function ConversionFor(mode: string): (c: Conversion)
    ensures c == FlattenOnWhite <==> mode == "RGBA"
    ensures c == Keep <==> mode == "RGB" || mode == "L"
    ensures mode == "P" ==> c == ConvertToRgb
  {
    if mode == "RGBA" then FlattenOnWhite
    else if mode == "P" then ConvertToRgb
    else if mode != "RGB" && mode != "L" then ConvertToRgb
    else Keep
  }

  /** The mode of a picture of mode `mode` after conversion `c`. */
  function ModeAfter(mode: string, c: Conversion): string
  {
    match c
    case Keep => mode
    case FlattenOnWhite => "RGB"
    case ConvertToRgb => "RGB"
  }

  /**
   * The mode a picture is encoded in: always RGB or L, unchanged exactly when it
   * already was one of those, and never in need of a second conversion.
   */
  function NormalisedMode(mode: string): (r: string)
    ensures r == "RGB" || r == "L"
    ensures r == mode <==> mode == "RGB" || mode == "L"
    ensures ConversionFor(r) == Keep
  {
    ModeAfter(mode, ConversionFor(mode))
  }
}
