# Portrait-le: the guess-evaluation core

Portrait-le is a guessing game. A hidden portrait is revealed bit by bit as
the player photographs things whose colours match it. The player has five
photo tries and ten name tries per round.

This project models the round state held by `MasterController` and proves
properties of it:

- the portrait and its name;
- the reveal mask (`currentUnionedMatchImage`), where a pixel of alpha 0 is still hidden;
- the revealed-pixel counter and the match percentage;
- the two attempt counters and their fixed-size history arrays.

The model is imperative Dafny. `MasterController` is a class with those fields.
Its operations are methods with `modifies` frames:

- `SetTruth` starts a round.
- `VerifyImage` scores one photo.
- `HandleImageInput` spends the photo budget.
- `HandleTextInput` spends the name budget.

The per-pixel scan is a `for` loop that updates two arrays in place. It is
proved against specification functions on pixel sequences:

- `Latched` is the new mask;
- `MatchOverlay` is the blue-on-transparent overlay;
- `CountNew` is the number of cells newly revealed.

Module `Reveal` proves the properties of the reveal on those functions.

Files:

- `imaging.dfy`: colours, textures, the tolerance constants and the three-way HSV tolerance test.
- `reveal.dfy`: the reveal as functions on pixel sequences, and the lemmas about it.
- `game.dfy`: the controller class, the scan, and the portrait lookup by index.

On these points the model follows the code as written:

- Every matching pixel is marked `Color.blue` in the overlay. The overlay does not carry the guess colour or the portrait colour.
- The name comparison is exact and case-sensitive.
- A correct name changes nothing: that branch of `HandleTextInput` is empty.
- The game has no won or lost state. Reaching the 0.9 goal only replaces the mask with the portrait.
- `SetTruth` does not reset the match percentage of the previous round.
- The reveal treats alpha 0 as "unset", so a fully transparent portrait pixel is latched as a colour that still reads as unset. The same pixel is then counted again on every matching guess, and the counter can exceed the number of pixels. `Reveal.TransparentTruthCountedAgain` proves this for any such pixel, and `Reveal.TransparentTruthCountedTwice` gives a one-pixel instance. The bound `0 <= percentage <= 1` is proved only for portraits with no transparent pixel.

## Model

| member | source | states |
|---|---|---|
| Game.MasterController.constructor | Assets/Scripts/MasterController.cs:26-41 | Before the first round there is no portrait or name and the aspect ratio is the inverse golden ratio. Both counters, the revealed count and the percentage are 0. The history arrays are fresh. The transparent buffer is empty and so is the mask. The controller invariant holds. |
| Game.MasterController.SetTruth | Assets/Scripts/MasterController.cs:85-124 | Stores the name and portrait and sets the aspect ratio to width / height. Zeroes the revealed count and both counters. Both histories are fresh and all empty. The mask has width × height cells, all transparent (0, 0, 0, 0) and so unset. The percentage keeps its old value. The controller invariant holds afterwards. |
| Game.MasterController.ResetGuesses | Assets/Scripts/MasterController.cs:101-112 | The revealed count and both counters are 0. The histories are fresh arrays of lengths 10 and 10 with every slot empty. |
| Game.MasterController.HideAll | Assets/Scripts/MasterController.cs:114-121 | The transparent buffer is fresh, of length n, and all transparent. The mask has n cells, each exactly transparent (0, 0, 0, 0) and so unset. |
| Game.TransparentBuffer | Assets/Scripts/MasterController.cs:115-117 | Returns a fresh array of n pixels, every one of them transparent. |
| Game.MasterController.ScaleTexture | Assets/Scripts/MasterController.cs:186-205 | The resampled texture has the target's width and height and exactly width × height pixels. |
| Game.ScanPixels | Assets/Scripts/MasterController.cs:133-173 | The array loop returns exactly `Latched` of the old mask, exactly `MatchOverlay`, and exactly `CountNew` over all pixels. |
| Game.MasterController.VerifyImage | Assets/Scripts/MasterController.cs:126-184 | Without a portrait it returns None and changes nothing. Otherwise it returns an overlay of the portrait's size, equal to `MatchOverlay`. The mask becomes `Latched` of the old mask. The count grows by exactly `CountNew`, so it never decreases. The percentage becomes count / pixels. It never decreases once it already equals count / pixels, as it does after the round's first scored photo. The percentage kept from an earlier round can be higher and is then lowered. With no transparent portrait pixel the percentage lies in [0, 1]. Every cell set before the call keeps its colour. The controller invariant is kept, including that every set cell holds the portrait pixel at its position. |
| Game.MasterController.HandleImageInput | Assets/Scripts/MasterController.cs:311-345 | With 5 tries spent it changes nothing. Otherwise the counter rises by exactly 1, so it stays ≤ 5. The photo goes to history slot 2k and its overlay (or None without a portrait) to slot 2k+1. All other slots are unchanged. The count and percentage are as in `VerifyImage`. Once the percentage reaches 0.9, the mask equals the portrait's pixels. Every cell set before the call keeps its colour, including through that replacement. The controller invariant is kept. |
| Game.MasterController.RecordImageGuess | Assets/Scripts/MasterController.cs:322-324 | The history equals the old history with slot 2k set to the photo and slot 2k+1 to the overlay. The counter is k + 1, and the history invariant is kept. |
| Game.MasterController.HandleTextInput | Assets/Scripts/MasterController.cs:295-309 | With 10 tries spent, or when the guess is exactly the portrait's name, the counter and the history are unchanged. Any other guess is stored at the counter's slot and the counter rises by exactly 1, so it stays ≤ 10. |
| Game.GetPortraitByIndex | Assets/Scripts/MasterController.cs:265-275 | Returns a portrait exactly when 0 ≤ index < number of names. That portrait is the name at the index together with its texture. |
| Reveal.MatchOverlay | Assets/Scripts/MasterController.cs:147-172 | The overlay has one cell per portrait pixel. Cell i is blue exactly when pixel i passes the three tolerance tests, and is transparent otherwise. |
| Reveal.CountNew | Assets/Scripts/MasterController.cs:165-170 | The number of newly revealed cells among the first n is at most n. |
| Reveal.SetCount | Assets/Scripts/MasterController.cs:39 | The number of set (alpha ≠ 0) cells among the first n is at most n. |
| Reveal.Latched | Assets/Scripts/MasterController.cs:165-168 | The new mask has as many cells as the old one. |
| Game.MasterController.RevealPortrait | Assets/Scripts/MasterController.cs:328-332 | The mask becomes the portrait's pixels. Every cell set before keeps its colour, and the reveal part of the controller invariant is kept. |
| Reveal.LatchedFromTruth | Assets/Scripts/MasterController.cs:165-168 | After a guess, every cell set before keeps its colour and the mask keeps its size. If every set cell held the portrait pixel before, it still does. |
| Reveal.RevealKeepsSetCells | Assets/Scripts/MasterController.cs:328-332 | If every set cell holds the portrait pixel, replacing the mask by the portrait keeps every set cell. |
| Reveal.CountNewCountsCell | Assets/Scripts/MasterController.cs:165-170 | If a guess newly reveals some cell among the first n, the count over the first n is at least 1. |
| Reveal.TransparentTruthCountedAgain | Assets/Scripts/MasterController.cs:165-170 | Take any unset cell whose portrait pixel has alpha 0 and matches the guess. The guess counts it, the cell stays unset after the latch, and the same guess counts it again. |
| Reveal.LatchKeepsSetCells | Assets/Scripts/MasterController.cs:165-168 | A cell set before a guess is unchanged. An unset cell whose pixel matches becomes the portrait colour. An unset cell that does not match stays as it was. |
| Reveal.LatchedCellsAreBlue | Assets/Scripts/MasterController.cs:165-172 | Every cell a guess changes in the mask is blue in that guess's overlay. |
| Reveal.LatchedSetCount | Assets/Scripts/MasterController.cs:165-170 | With no transparent portrait pixel, the set cells after a guess are the set cells before it plus `CountNew`. |
| Reveal.AllSetCount | Assets/Scripts/MasterController.cs:328-332 | A mask replaced by a portrait with no transparent pixel counts every cell as set. This keeps count ≤ set cells after the reveal at 0.9. |
| Reveal.LatchIdempotent | Assets/Scripts/MasterController.cs:165-168 | Latching the same guess twice gives the same mask as latching it once. |
| Reveal.LatchOrderIndependent | Assets/Scripts/MasterController.cs:165-168 | Two guesses latched in either order give the same mask. |
| Reveal.RepeatGuessRevealsNothing | Assets/Scripts/MasterController.cs:165-170 | With no transparent portrait pixel, repeating a guess reveals no cell. |
| Reveal.TruthRevealsEverything | Assets/Scripts/MasterController.cs:153-170 | On a fresh mask, a guess whose resampled pixels equal the portrait's reveals and counts every pixel once, and the mask becomes the portrait. |
| Reveal.TransparentTruthCountedTwice | Assets/Scripts/MasterController.cs:166-169 | A one-pixel transparent portrait is counted once by a matching guess. The latched mask still reads as unset, so the same guess counts it again. |
| Imaging.PixelMatches | Assets/Scripts/MasterController.cs:153-163 | Convert both colours with `toHsv`. A guess pixel matches when the hue differs by at most 0.1, the saturation by at most 0.2 and the value by at most 0.2. This is the negation of the three `continue` tests. |
| Imaging.MatchSymmetric | Assets/Scripts/MasterController.cs:156-163 | The test gives the same answer with the ground-truth and guess colours swapped. |
| Imaging.SelfMatch | Assets/Scripts/MasterController.cs:153-163 | Every colour passes the three tolerance tests against itself, whatever the HSV conversion. |

## Left out

- `Color.RGBToHSV` is Unity's library routine. It is a parameter of the controller (`toHsv`), and `PixelMatches` writes out the three tolerance tests on its result.
- `ScaleTexture` is modelled only by its size, not by what the GPU blit does to the colours. The blit through a `RenderTexture` is a parameter (`resample`) that returns width × height pixels.
- Floating point is not modelled. Colours, tolerances, the aspect ratio and the percentage are reals. Float rounding, and the 0.9f goal being slightly different from 0.9, are not captured.
- Resampling a texture to its own size is not assumed to be the identity. So submitting the portrait itself is not proved to reveal it. `Reveal.TruthRevealsEverything` is about a guess whose resampled pixels equal the portrait's.
- The revealed counter is an unbounded integer. The source keeps it in a float.
- A texture is a value (width, height, pixels). The mask is the pixel sequence of the engine's texture, so texture identity and `Apply` uploads are not modelled.
- The `canSeeGroundTruth` debug early return in `SetTruth` is not modelled: the flag is taken to be false.
- The UI wiring is not modelled. This covers the `AspectRatioFitter` and `RawImage` updates, `imageHistoryRawImages`, disabling the camera button after the last try, `SetupUI`, `OpenCamera`, `CameraGuessCallback`, and `EndGame`, which is never called.
- `LoadPortraitsFromResources`, `GetRandomPortrait` and `GetPortraitByname` are not modelled: they use resource loading and Unity's random generator. `GetPortraitByIndex` takes the loaded names and textures as parameters, and its default tuple is None.
- SetTruth: requires a valid portrait. When no portrait loads, `Start` gets the default (null) tuple from `GetRandomPortrait` and calls `SetTruth` with it. The source then stores the null name and image and throws while reading the width, before any reset. That exception path and its partial update are not modelled.
- Null textures and strings are `None`. Before the first round, the transparent buffer is an empty array and the mask an empty sequence.
- The camera, menu, banner and input-history scripts are not part of this model.
