/**
 * Pixels, textures and the per-pixel HSV tolerance test of the portrait game.
 *
 * Colours are RGBA over the reals; a pixel whose alpha is 0 stands for "unset"
 * in the reveal mask. The conversion RGB -> HSV is Unity's library routine and
 * the resampling of a guess to the ground truth's size is a GPU blit: neither
 * is visible here, so both are values of function type handed to the game
 * controller when it is built (see Game.MasterController).
 */
module Imaging {

  datatype Option<+T> = None | Some(value: T)

  /** An RGBA colour, each channel in [0,1] in the engine. */
  datatype Color = Color(r: real, g: real, b: real, a: real)

  /** A colour in hue/saturation/value form, as Color.RGBToHSV produces it. */
  datatype Hsv = Hsv(h: real, s: real, v: real)

  /** The "unset" sentinel of the reveal mask and of an overlay: black, alpha 0. */
  const Transparent: Color := Color(0.0, 0.0, 0.0, 0.0)

  /** Unity's Color.blue, written into the overlay wherever a guess matched. */
  const Blue: Color := Color(0.0, 0.0, 1.0, 1.0)

  const HueTolerance: real := 0.1
  const SaturationTolerance: real := 0.2
  const ValueTolerance: real := 0.2

  /** A texture: width x height pixels in raster order. */
  datatype Texture = Texture(width: int, height: int, pixels: seq<Color>) {
    /** What the engine guarantees of every texture it hands out. */
    predicate Valid() {
      width >= 1 && height >= 1 && |pixels| == width * height
    }
  }

  /** A cell of the reveal mask is unset while its alpha is 0. */
  predicate IsUnset(c: Color) {
    c.a == 0.0
  }

  /** The library routine that converts RGB to HSV. */
  type HsvConverter = Color -> Hsv

  /**
   * The resampling blit: whatever the source, it yields exactly w * h pixels.
   */
  type Resampler = f: (Texture, nat, nat) -> seq<Color>
    | forall t: Texture, w: nat, h: nat :: |f(t, w, h)| == w * h
    witness (t: Texture, w: nat, h: nat) => seq(w * h, _ => Transparent)

  function Abs(x: real): real {
    if x < 0.0 then -x else x
  }

  /**
   * The three-way tolerance test: a guess pixel matches the ground-truth pixel
   * when hue, saturation and value each differ by no more than their tolerance.
   */
  predicate PixelMatches(toHsv: HsvConverter, truth: Color, guess: Color) {
    var t := toHsv(truth);
    var g := toHsv(guess);
    Abs(t.h - g.h) <= HueTolerance
    && Abs(t.s - g.s) <= SaturationTolerance
    && Abs(t.v - g.v) <= ValueTolerance
  }

  /** The tolerance test does not depend on which colour is the ground truth. */
  lemma MatchSymmetric(toHsv: HsvConverter, a: Color, b: Color)
    ensures PixelMatches(toHsv, a, b) <==> PixelMatches(toHsv, b, a)
  {
  }

  /** Whatever the converter, a colour always matches itself. */
  lemma SelfMatch(toHsv: HsvConverter, c: Color)
    ensures PixelMatches(toHsv, c, c)
  {
  }
}
