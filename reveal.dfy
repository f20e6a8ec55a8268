/**
 * The progressive reveal of the ground truth, as functions on pixel sequences.
 *
 * One image guess latches every pixel that passes the tolerance test into the
 * reveal mask, unless the mask cell is already set; the counter of revealed
 * pixels grows by the number of cells latched. These functions are the
 * specification the imperative scan in Game.MasterController.VerifyImage is
 * proved against.
 */
module Reveal {
  import opened Imaging

  /** Mask, ground truth and resampled guess line up pixel for pixel. */
  predicate Aligned(mask: seq<Color>, truth: seq<Color>, guess: seq<Color>) {
    |mask| == |truth| && |truth| == |guess|
  }

  /** Every pixel of s is set (non-zero alpha). */
  predicate AllSet(s: seq<Color>) {
    forall i :: 0 <= i < |s| ==> !IsUnset(s[i])
  }

  /** Every pixel of s is unset: the mask of a round that has just started. */
  predicate AllUnset(s: seq<Color>) {
    forall i :: 0 <= i < |s| ==> IsUnset(s[i])
  }

  /** The pixel passes the tolerance test and its mask cell still reads as unset. */
  predicate NewlyRevealed(toHsv: HsvConverter, cell: Color, truth: Color, guess: Color) {
    IsUnset(cell) && PixelMatches(toHsv, truth, guess)
  }

  /** One mask cell after a guess. */
  function LatchCell(toHsv: HsvConverter, cell: Color, truth: Color, guess: Color): Color {
    if NewlyRevealed(toHsv, cell, truth, guess) then truth else cell
  }

  /** The whole mask after a guess. */
  function Latched(toHsv: HsvConverter, mask: seq<Color>, truth: seq<Color>, guess: seq<Color>): (r: seq<Color>)
    requires Aligned(mask, truth, guess)
    ensures |r| == |mask|
  {
    seq(|mask|, i requires 0 <= i < |mask| => LatchCell(toHsv, mask[i], truth[i], guess[i]))
  }

  /** The overlay of one guess: blue where the pixel matched, transparent elsewhere. */
  function MatchOverlay(toHsv: HsvConverter, truth: seq<Color>, guess: seq<Color>): (r: seq<Color>)
    requires |truth| == |guess|
    ensures |r| == |truth|
    ensures forall i :: 0 <= i < |r| ==> (r[i] == Blue <==> PixelMatches(toHsv, truth[i], guess[i]))
    ensures forall i :: 0 <= i < |r| && r[i] != Blue ==> r[i] == Transparent
  {
    seq(|truth|, i requires 0 <= i < |truth| => if PixelMatches(toHsv, truth[i], guess[i]) then Blue else Transparent)
  }

  /** The number of cells among the first n that this guess newly reveals. */
  function CountNew(toHsv: HsvConverter, mask: seq<Color>, truth: seq<Color>, guess: seq<Color>, n: nat): (c: nat)
    requires Aligned(mask, truth, guess) && n <= |mask|
    ensures c <= n
    decreases n
  {
    if n == 0 then 0
    else CountNew(toHsv, mask, truth, guess, n - 1)
         + (if NewlyRevealed(toHsv, mask[n - 1], truth[n - 1], guess[n - 1]) then 1 else 0)
  }

  /** The number of set cells among the first n of s. */
  function SetCount(s: seq<Color>, n: nat): (c: nat)
    requires n <= |s|
    ensures c <= n
    decreases n
  {
    if n == 0 then 0 else SetCount(s, n - 1) + (if IsUnset(s[n - 1]) then 0 else 1)
  }

  /**
   * With an opaque portrait, every counted pixel is a set cell of the mask;
   * this is what keeps the counter at or below the number of pixels.
   */
  predicate CountBacked(count: int, mask: seq<Color>, truth: seq<Color>)
    requires |mask| == |truth|
  {
    AllSet(truth) ==> count <= SetCount(mask, |mask|)
  }

  /** Every set cell of the mask holds the ground-truth pixel at its position. */
  predicate SetCellsFromTruth(mask: seq<Color>, truth: seq<Color>)
    requires |mask| == |truth|
  {
    forall i :: 0 <= i < |mask| && !IsUnset(mask[i]) ==> mask[i] == truth[i]
  }

  /** after has the size of before, and every cell set in before is unchanged in after. */
  predicate KeepsSetCells(before: seq<Color>, after: seq<Color>) {
    |after| == |before| && forall i :: 0 <= i < |before| && !IsUnset(before[i]) ==> after[i] == before[i]
  }

  /**
   * A guess keeps every set cell and latches only ground-truth pixels, so a
   * mask whose set cells come from the ground truth stays that way.
   */
  lemma LatchedFromTruth(toHsv: HsvConverter, mask: seq<Color>, truth: seq<Color>, guess: seq<Color>)
    requires Aligned(mask, truth, guess)
    ensures KeepsSetCells(mask, Latched(toHsv, mask, truth, guess))
    ensures SetCellsFromTruth(mask, truth) ==> SetCellsFromTruth(Latched(toHsv, mask, truth, guess), truth)
  {
  }

  /** Replacing a mask whose set cells come from the ground truth by the ground truth keeps its set cells. */
  lemma RevealKeepsSetCells(mask: seq<Color>, truth: seq<Color>)
    requires |mask| == |truth| && SetCellsFromTruth(mask, truth)
    ensures KeepsSetCells(mask, truth) && SetCellsFromTruth(truth, truth)
  {
  }

  /** Keeping the set cells twice in a row keeps them. */
  lemma KeepsSetCellsTransitive(a: seq<Color>, b: seq<Color>, c: seq<Color>)
    requires KeepsSetCells(a, b) && KeepsSetCells(b, c)
    ensures KeepsSetCells(a, c)
  {
  }

  /**
   * The latch: a cell set before the guess keeps its colour; a cell set after
   * it was either set before or was unset, matched, and now holds the truth;
   * an unset cell that did not match stays as it was.
   */
  lemma LatchKeepsSetCells(toHsv: HsvConverter, mask: seq<Color>, truth: seq<Color>, guess: seq<Color>, i: int)
    requires Aligned(mask, truth, guess) && 0 <= i < |mask|
    ensures !IsUnset(mask[i]) ==> Latched(toHsv, mask, truth, guess)[i] == mask[i]
    ensures IsUnset(mask[i]) && PixelMatches(toHsv, truth[i], guess[i]) ==> Latched(toHsv, mask, truth, guess)[i] == truth[i]
    ensures IsUnset(mask[i]) && !PixelMatches(toHsv, truth[i], guess[i]) ==> Latched(toHsv, mask, truth, guess)[i] == mask[i]
  {
  }

  /** Every cell this guess newly latches is shown blue in its overlay. */
  lemma LatchedCellsAreBlue(toHsv: HsvConverter, mask: seq<Color>, truth: seq<Color>, guess: seq<Color>, i: int)
    requires Aligned(mask, truth, guess) && 0 <= i < |mask|
    requires Latched(toHsv, mask, truth, guess)[i] != mask[i]
    ensures MatchOverlay(toHsv, truth, guess)[i] == Blue
  {
  }

  /**
   * When the ground truth has no transparent pixel, the set cells grow by
   * exactly the number of newly revealed cells.
   */
  lemma {:induction false} LatchedSetCount(toHsv: HsvConverter, mask: seq<Color>, truth: seq<Color>, guess: seq<Color>, n: nat)
    requires Aligned(mask, truth, guess) && n <= |mask|
    requires AllSet(truth)
    ensures SetCount(Latched(toHsv, mask, truth, guess), n)
            == SetCount(mask, n) + CountNew(toHsv, mask, truth, guess, n)
  {
    if n > 0 {
      LatchedSetCount(toHsv, mask, truth, guess, n - 1);
    }
  }

  /** A fully set sequence counts every one of its cells as set. */
  lemma {:induction false} AllSetCount(s: seq<Color>, n: nat)
    requires n <= |s| && AllSet(s)
    ensures SetCount(s, n) == n
  {
    if n > 0 {
      AllSetCount(s, n - 1);
    }
  }

  /** Latching the same guess twice changes nothing more. */
  lemma LatchIdempotent(toHsv: HsvConverter, mask: seq<Color>, truth: seq<Color>, guess: seq<Color>)
    requires Aligned(mask, truth, guess)
    ensures Latched(toHsv, Latched(toHsv, mask, truth, guess), truth, guess) == Latched(toHsv, mask, truth, guess)
  {
  }

  /** The mask is a union: the order in which two guesses are latched does not matter. */
  lemma LatchOrderIndependent(toHsv: HsvConverter, mask: seq<Color>, truth: seq<Color>, g1: seq<Color>, g2: seq<Color>)
    requires Aligned(mask, truth, g1) && |g2| == |g1|
    ensures Latched(toHsv, Latched(toHsv, mask, truth, g1), truth, g2)
            == Latched(toHsv, Latched(toHsv, mask, truth, g2), truth, g1)
  {
  }

  /**
   * With an opaque ground truth, repeating a guess reveals nothing new, so the
   * counter and the percentage stay where they are.
   */
  lemma {:induction false} RepeatGuessRevealsNothing(toHsv: HsvConverter, mask: seq<Color>, truth: seq<Color>, guess: seq<Color>, n: nat)
    requires Aligned(mask, truth, guess) && n <= |mask|
    requires AllSet(truth)
    ensures CountNew(toHsv, Latched(toHsv, mask, truth, guess), truth, guess, n) == 0
  {
    if n > 0 {
      RepeatGuessRevealsNothing(toHsv, mask, truth, guess, n - 1);
    }
  }

  /**
   * Guessing the ground truth itself on a fresh mask reveals every pixel and
   * counts each of them once.
   */
  lemma {:induction false} TruthRevealsEverything(toHsv: HsvConverter, mask: seq<Color>, truth: seq<Color>, n: nat)
    requires Aligned(mask, truth, truth) && n <= |mask|
    requires AllUnset(mask)
    ensures CountNew(toHsv, mask, truth, truth, n) == n
    ensures Latched(toHsv, mask, truth, truth) == truth
  {
    SelfMatch(toHsv, if n > 0 then truth[n - 1] else Transparent);
    if n > 0 {
      TruthRevealsEverything(toHsv, mask, truth, n - 1);
    }
    forall i | 0 <= i < |mask|
      ensures Latched(toHsv, mask, truth, truth)[i] == truth[i]
    {
      SelfMatch(toHsv, truth[i]);
    }
  }

  /** A cell that the guess newly reveals among the first n makes the count at least 1. */
  lemma {:induction false} CountNewCountsCell(toHsv: HsvConverter, mask: seq<Color>, truth: seq<Color>, guess: seq<Color>,
                                              n: nat, i: int)
    requires Aligned(mask, truth, guess) && n <= |mask| && 0 <= i < n
    requires NewlyRevealed(toHsv, mask[i], truth[i], guess[i])
    ensures CountNew(toHsv, mask, truth, guess, n) >= 1
  {
    if i < n - 1 {
      CountNewCountsCell(toHsv, mask, truth, guess, n - 1, i);
    }
  }

  /**
   * A ground-truth pixel with alpha 0 is latched as a colour that still reads
   * as unset: a matching guess counts the cell, the cell stays unset, and the
   * same guess (or any other matching one) counts it again.
   */
  lemma TransparentTruthCountedAgain(toHsv: HsvConverter, mask: seq<Color>, truth: seq<Color>, guess: seq<Color>, i: int)
    requires Aligned(mask, truth, guess) && 0 <= i < |mask|
    requires IsUnset(mask[i]) && IsUnset(truth[i]) && PixelMatches(toHsv, truth[i], guess[i])
    ensures CountNew(toHsv, mask, truth, guess, |mask|) >= 1
    ensures IsUnset(Latched(toHsv, mask, truth, guess)[i])
    ensures CountNew(toHsv, Latched(toHsv, mask, truth, guess), truth, guess, |mask|) >= 1
  {
    CountNewCountsCell(toHsv, mask, truth, guess, |mask|, i);
    var once := Latched(toHsv, mask, truth, guess);
    CountNewCountsCell(toHsv, once, truth, guess, |mask|, i);
  }

  /**
   * A transparent ground-truth pixel is latched as a colour that still reads as
   * unset, so the same guess counts it again: the counter can pass the number
   * of pixels.
   */
  lemma TransparentTruthCountedTwice(toHsv: HsvConverter)
    ensures var truth := [Transparent];
            var once := Latched(toHsv, [Transparent], truth, truth);
            CountNew(toHsv, [Transparent], truth, truth, 1) == 1
            && once == [Transparent]
            && CountNew(toHsv, once, truth, truth, 1) == 1
  {
    SelfMatch(toHsv, Transparent);
    var truth := [Transparent];
    var once := Latched(toHsv, [Transparent], truth, truth);
    assert once[0] == Transparent;
    assert once == [Transparent];
  }
}
