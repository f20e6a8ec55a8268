/**
 * The round state of the portrait-guessing game and its four operations:
 * starting a round (SetTruth), scoring one photo against the hidden portrait
 * (VerifyImage), and the two input handlers that spend the image and the
 * name budgets (HandleImageInput, HandleTextInput).
 */
module Game {
  import opened Imaging
  import opened Reveal

  const MaxImageTries: int := 5
  const MaxTextTries: int := 10
  const ImageMatchPercentageGoal: real := 0.9
  const GoldenRatio: real := 1.618
  const GoldenRatioInverse: real := 1.0 / GoldenRatio

  /** A count out of n, for 0 <= count <= n, is a fraction in [0, 1]. */
  lemma FractionInUnitInterval(count: int, n: int)
    requires 0 <= count <= n && 0 < n
    ensures 0.0 <= count as real / n as real <= 1.0
  {
  }

  /** Out of the same n, a larger count is a larger fraction. */
  lemma FractionMonotone(smaller: int, larger: int, n: int)
    requires smaller <= larger && 0 < n
    ensures smaller as real / n as real <= larger as real / n as real
  {
  }

  /**
   * The per-pixel scan of MasterController.VerifyImage. It copies the mask and
   * the transparent buffer into two pixel arrays, then marks blue every pixel
   * that passes the three tolerance tests and latches it to the ground-truth
   * colour when its mask cell is still unset. It returns the new mask, the
   * overlay and the number of cells latched.
   */
  method ScanPixels(toHsv: HsvConverter, groundTruthPixels: seq<Color>, guessPixels: seq<Color>,
                    unionedPixels: seq<Color>, transparentPixels: array<Color>)
    returns (newUnionedPixels: seq<Color>, overlayPixels: seq<Color>, currentMatchedPixelCount: nat)
    requires Aligned(unionedPixels, groundTruthPixels, guessPixels)
    requires transparentPixels.Length == |groundTruthPixels|
    requires forall k :: 0 <= k < transparentPixels.Length ==> transparentPixels[k] == Transparent
    ensures newUnionedPixels == Latched(toHsv, unionedPixels, groundTruthPixels, guessPixels)
    ensures overlayPixels == MatchOverlay(toHsv, groundTruthPixels, guessPixels)
    ensures currentMatchedPixelCount
            == CountNew(toHsv, unionedPixels, groundTruthPixels, guessPixels, |groundTruthPixels|)
  {
    var n := |groundTruthPixels|;
    var matchingPixels := new Color[n];
    forall k | 0 <= k < n {
      matchingPixels[k] := transparentPixels[k];
    }
    var currentBestGuessPixels := new Color[n];
    forall k | 0 <= k < n {
      currentBestGuessPixels[k] := unionedPixels[k];
    }

    currentMatchedPixelCount := 0;
    for i := 0 to n
      invariant forall k :: 0 <= k < n ==>
        currentBestGuessPixels[k]
          == if k < i then LatchCell(toHsv, unionedPixels[k], groundTruthPixels[k], guessPixels[k])
             else unionedPixels[k]
      invariant forall k :: 0 <= k < n ==>
        matchingPixels[k] == if k < i && PixelMatches(toHsv, groundTruthPixels[k], guessPixels[k]) then Blue else Transparent
      invariant currentMatchedPixelCount == CountNew(toHsv, unionedPixels, groundTruthPixels, guessPixels, i)
    {
      var groundTruthColor := groundTruthPixels[i];
      var guessColor := guessPixels[i];

      var groundTruthHsv := toHsv(groundTruthColor);
      var guessHsv := toHsv(guessColor);

      var hueDiff := Abs(groundTruthHsv.h - guessHsv.h);
      if hueDiff > HueTolerance {
        assert !PixelMatches(toHsv, groundTruthColor, guessColor);
        continue;
      }

      var saturationDiff := Abs(groundTruthHsv.s - guessHsv.s);
      if saturationDiff > SaturationTolerance {
        assert !PixelMatches(toHsv, groundTruthColor, guessColor);
        continue;
      }

      var valueDiff := Abs(groundTruthHsv.v - guessHsv.v);
      if valueDiff > ValueTolerance {
        assert !PixelMatches(toHsv, groundTruthColor, guessColor);
        continue;
      }
      assert PixelMatches(toHsv, groundTruthColor, guessColor);

      var currentGuess := currentBestGuessPixels[i];
      if IsUnset(currentGuess) {
        currentBestGuessPixels[i] := groundTruthColor;
        currentMatchedPixelCount := currentMatchedPixelCount + 1;
      }
      matchingPixels[i] := Blue;
    }
    newUnionedPixels := currentBestGuessPixels[..];
    overlayPixels := matchingPixels[..];
    assert newUnionedPixels == Latched(toHsv, unionedPixels, groundTruthPixels, guessPixels);
    assert overlayPixels == MatchOverlay(toHsv, groundTruthPixels, guessPixels);
  }

  /** A fresh buffer of n transparent pixels: how a round marks every pixel as unset. */
  method TransparentBuffer(n: nat) returns (pixels: array<Color>)
    ensures fresh(pixels) && pixels.Length == n
    ensures forall k :: 0 <= k < n ==> pixels[k] == Transparent
  {
    pixels := new Color[n];
    for i := 0 to n
      invariant forall k :: 0 <= k < i ==> pixels[k] == Transparent
    {
      pixels[i] := Transparent;
    }
  }

  class MasterController {
    /** Unity's Color.RGBToHSV. */
    const toHsv: HsvConverter
    /** The blit that resamples a texture to a given size. */
    const resample: Resampler

    // Truth related; None until the first round starts.
    var groundTruthImage: Option<Texture>
    var groundTruthName: Option<string>
    var groundTruthAspectRatio: real

    // Guess related: slots 2k and 2k+1 of imageHistory hold the k-th guess and its overlay.
    var imageHistory: array<Option<Texture>>
    var nameHistory: array<Option<string>>
    var imageGuessesMade: int
    var nameGuessesMade: int
    /** The all-transparent pixel buffer a new overlay starts from. */
    var transparentPixels: array<Color>
    /** The reveal mask shown to the player: an unset (alpha 0) cell is still hidden. */
    var currentUnionedMatchImage: seq<Color>
    var currentUnionedMatchedPixelCount: int
    var imageMatchPercentage: real

    ghost predicate Valid()
      reads this, imageHistory, nameHistory, transparentPixels
    {
      HistoriesValid() && TruthValid() && RevealValid()
    }

    /** The histories are filled in order; the slots past the counters are empty. */
    ghost predicate HistoriesValid()
      reads this`imageHistory, this`nameHistory, this`imageGuessesMade, this`nameGuessesMade
      reads imageHistory, nameHistory
    {
      && imageHistory.Length == 2 * MaxImageTries
      && nameHistory.Length == MaxTextTries
      && 0 <= imageGuessesMade <= MaxImageTries
      && 0 <= nameGuessesMade <= MaxTextTries
      && (forall j :: 2 * imageGuessesMade <= j < imageHistory.Length ==> imageHistory[j] == None)
      && (forall j :: nameGuessesMade <= j < nameHistory.Length ==> nameHistory[j] == None)
    }

    /** Once a round has started, the transparent buffer has the portrait's size. */
    ghost predicate TruthValid()
      reads this`groundTruthImage, this`transparentPixels, transparentPixels
    {
      groundTruthImage.Some? ==>
        && groundTruthImage.value.Valid()
        && transparentPixels.Length == |groundTruthImage.value.pixels|
        && (forall i :: 0 <= i < transparentPixels.Length ==> transparentPixels[i] == Transparent)
    }

    /**
     * Before the first round nothing is counted; within a round the mask has
     * the portrait's size and, with an opaque portrait, every counted pixel is a
     * set cell of the mask.
     */
    ghost predicate RevealValid()
      reads this`groundTruthImage, this`currentUnionedMatchImage
      reads this`currentUnionedMatchedPixelCount, this`imageMatchPercentage
    {
      && 0 <= currentUnionedMatchedPixelCount
      && (groundTruthImage.None? ==> currentUnionedMatchedPixelCount == 0 && imageMatchPercentage == 0.0)
      && (groundTruthImage.Some? ==>
            && |currentUnionedMatchImage| == |groundTruthImage.value.pixels|
            && SetCellsFromTruth(currentUnionedMatchImage, groundTruthImage.value.pixels)
            && CountBacked(currentUnionedMatchedPixelCount, currentUnionedMatchImage, groundTruthImage.value.pixels))
    }

    /** The state before the first round: the field initialisers of the controller. */
    constructor (toHsv: HsvConverter, resample: Resampler)
      ensures Valid()
      ensures this.toHsv == toHsv && this.resample == resample
      ensures groundTruthImage == None && groundTruthName == None
      ensures groundTruthAspectRatio == GoldenRatioInverse
      ensures imageGuessesMade == 0 && nameGuessesMade == 0
      ensures currentUnionedMatchedPixelCount == 0 && imageMatchPercentage == 0.0
      ensures fresh(imageHistory) && fresh(nameHistory)
      ensures transparentPixels.Length == 0 && currentUnionedMatchImage == []
    {
      this.toHsv := toHsv;
      this.resample := resample;
      groundTruthImage := None;
      groundTruthName := None;
      groundTruthAspectRatio := GoldenRatioInverse;
      imageHistory := new Option<Texture>[2 * MaxImageTries](_ => None);
      nameHistory := new Option<string>[MaxTextTries](_ => None);
      imageGuessesMade := 0;
      nameGuessesMade := 0;
      transparentPixels := new Color[0];
      currentUnionedMatchImage := [];
      currentUnionedMatchedPixelCount := 0;
      imageMatchPercentage := 0.0;
    }

    /** Resamples source to the size of target. */
    function ScaleTexture(source: Texture, target: Texture): (scaled: Texture)
      requires target.width >= 0 && target.height >= 0
      ensures scaled.width == target.width && scaled.height == target.height
      ensures |scaled.pixels| == target.width * target.height
    {
      Texture(target.width, target.height, resample(source, target.width, target.height))
    }

    /**
     * Starts a round: stores the portrait, empties both histories, zeroes both
     * counters and the revealed-pixel count, and hides every pixel again. The
     * match percentage of the previous round is left as it was.
     */
    method SetTruth(answerName: string, answerImage: Texture)
      requires answerImage.Valid()
      modifies this
      ensures Valid()
      ensures groundTruthName == Some(answerName) && groundTruthImage == Some(answerImage)
      ensures groundTruthAspectRatio == answerImage.width as real / answerImage.height as real
      ensures currentUnionedMatchedPixelCount == 0
      ensures imageGuessesMade == 0 && nameGuessesMade == 0
      ensures fresh(imageHistory) && fresh(nameHistory) && fresh(transparentPixels)
      ensures forall j :: 0 <= j < imageHistory.Length ==> imageHistory[j] == None
      ensures forall j :: 0 <= j < nameHistory.Length ==> nameHistory[j] == None
      ensures |currentUnionedMatchImage| == answerImage.width * answerImage.height
      ensures forall i :: 0 <= i < |currentUnionedMatchImage| ==> currentUnionedMatchImage[i] == Transparent
      ensures AllUnset(currentUnionedMatchImage)
      ensures imageMatchPercentage == old(imageMatchPercentage)
    {
      groundTruthName := Some(answerName);
      groundTruthImage := Some(answerImage);
      groundTruthAspectRatio := answerImage.width as real / answerImage.height as real;

      ResetGuesses();
      HideAll(|answerImage.pixels|);  // width * height pixels, by answerImage.Valid()
    }

    /** The part of SetTruth that forgets the guesses of the previous round. */
    method ResetGuesses()
      modifies this`currentUnionedMatchedPixelCount, this`imageHistory, this`nameHistory
      modifies this`imageGuessesMade, this`nameGuessesMade
      ensures HistoriesValid()
      ensures currentUnionedMatchedPixelCount == 0
      ensures imageGuessesMade == 0 && nameGuessesMade == 0
      ensures fresh(imageHistory) && fresh(nameHistory)
      ensures forall j :: 0 <= j < imageHistory.Length ==> imageHistory[j] == None
      ensures forall j :: 0 <= j < nameHistory.Length ==> nameHistory[j] == None
    {
      currentUnionedMatchedPixelCount := 0;
      imageHistory := new Option<Texture>[2 * MaxImageTries](_ => None);
      nameHistory := new Option<string>[MaxTextTries](_ => None);
      imageGuessesMade := 0;
      nameGuessesMade := 0;
    }

    /** The part of SetTruth that hides all n pixels of the new portrait. */
    method HideAll(n: nat)
      modifies this`transparentPixels, this`currentUnionedMatchImage
      ensures fresh(transparentPixels) && transparentPixels.Length == n
      ensures forall i :: 0 <= i < n ==> transparentPixels[i] == Transparent
      ensures |currentUnionedMatchImage| == n && AllUnset(currentUnionedMatchImage)
      ensures forall i :: 0 <= i < n ==> currentUnionedMatchImage[i] == Transparent
    {
      transparentPixels := TransparentBuffer(n);
      currentUnionedMatchImage := transparentPixels[..];
    }

    /**
     * Scores one photo. Without a ground truth it returns None and changes
     * nothing. Otherwise it resamples the photo to the portrait's size, latches
     * every matching pixel whose mask cell is unset, adds the number latched to
     * the revealed count, recomputes the percentage as count / pixels, and
     * returns the overlay: blue where this photo matched, transparent elsewhere.
     */
    method VerifyImage(image: Texture) returns (matchingTexture: Option<Texture>)
      requires Valid()
      modifies this`currentUnionedMatchImage, this`currentUnionedMatchedPixelCount, this`imageMatchPercentage
      ensures Valid()
      ensures groundTruthImage.None? ==> matchingTexture == None && unchanged(this)
      ensures KeepsSetCells(old(currentUnionedMatchImage), currentUnionedMatchImage)
      ensures groundTruthImage.Some? ==>
        var truth := groundTruthImage.value;
        var guess := ScaleTexture(image, truth).pixels;
        && matchingTexture == Some(Texture(truth.width, truth.height, MatchOverlay(toHsv, truth.pixels, guess)))
        && currentUnionedMatchImage == Latched(toHsv, old(currentUnionedMatchImage), truth.pixels, guess)
        && currentUnionedMatchedPixelCount
           == old(currentUnionedMatchedPixelCount)
              + CountNew(toHsv, old(currentUnionedMatchImage), truth.pixels, guess, |truth.pixels|)
        && imageMatchPercentage == currentUnionedMatchedPixelCount as real / |truth.pixels| as real
      ensures groundTruthImage.Some? && AllSet(groundTruthImage.value.pixels) ==>
        0.0 <= imageMatchPercentage <= 1.0
      ensures groundTruthImage.Some?
              && old(imageMatchPercentage)
                 == old(currentUnionedMatchedPixelCount) as real / |groundTruthImage.value.pixels| as real
              ==> old(imageMatchPercentage) <= imageMatchPercentage
    {
      if groundTruthImage.None? {
        return None;
      }
      var truth := groundTruthImage.value;
      var scaled := ScaleTexture(image, truth);
      var groundTruthPixels := truth.pixels;
      var guessPixels := scaled.pixels;
      var n := |groundTruthPixels|;
      ghost var mask := currentUnionedMatchImage;
      var currentBestGuessPixels, matchingPixels, currentMatchedPixelCount :=
        ScanPixels(toHsv, groundTruthPixels, guessPixels, currentUnionedMatchImage, transparentPixels);
      LatchedFromTruth(toHsv, mask, groundTruthPixels, guessPixels);
      currentUnionedMatchImage := currentBestGuessPixels;
      currentUnionedMatchedPixelCount := currentUnionedMatchedPixelCount + currentMatchedPixelCount;

      imageMatchPercentage := currentUnionedMatchedPixelCount as real / n as real;
      FractionMonotone(old(currentUnionedMatchedPixelCount), currentUnionedMatchedPixelCount, n);
      if AllSet(groundTruthPixels) {
        LatchedSetCount(toHsv, mask, groundTruthPixels, guessPixels, n);
        FractionInUnitInterval(currentUnionedMatchedPixelCount, n);
      }
      matchingTexture := Some(Texture(truth.width, truth.height, matchingPixels));
    }

    /**
     * An image guess. With the five tries spent it does nothing. Otherwise the
     * photo is scored, the photo and its overlay go to slots 2k and 2k+1 of the
     * history (k the number of earlier tries) and the try is counted; once the
     * percentage reaches the goal the mask becomes the whole portrait.
     */
    method HandleImageInput(image: Texture)
      requires Valid()
      modifies this`imageGuessesMade, this`currentUnionedMatchImage
      modifies this`currentUnionedMatchedPixelCount, this`imageMatchPercentage, imageHistory
      ensures Valid()
      ensures old(imageGuessesMade) >= MaxImageTries ==> unchanged(this) && unchanged(imageHistory)
      ensures KeepsSetCells(old(currentUnionedMatchImage), currentUnionedMatchImage)
      ensures old(imageGuessesMade) < MaxImageTries ==> imageGuessesMade == old(imageGuessesMade) + 1
      ensures old(imageGuessesMade) < MaxImageTries && groundTruthImage.None? ==>
        && imageHistory[..]
           == old(imageHistory[..])[2 * old(imageGuessesMade) := Some(image)][2 * old(imageGuessesMade) + 1 := None]
        && currentUnionedMatchImage == old(currentUnionedMatchImage)
        && currentUnionedMatchedPixelCount == old(currentUnionedMatchedPixelCount)
        && imageMatchPercentage == old(imageMatchPercentage)
      ensures old(imageGuessesMade) < MaxImageTries && groundTruthImage.Some? ==>
        var truth := groundTruthImage.value;
        var guess := ScaleTexture(image, truth).pixels;
        var overlay := Texture(truth.width, truth.height, MatchOverlay(toHsv, truth.pixels, guess));
        && imageHistory[..]
           == old(imageHistory[..])[2 * old(imageGuessesMade) := Some(image)][2 * old(imageGuessesMade) + 1 := Some(overlay)]
        && currentUnionedMatchedPixelCount
           == old(currentUnionedMatchedPixelCount)
              + CountNew(toHsv, old(currentUnionedMatchImage), truth.pixels, guess, |truth.pixels|)
        && imageMatchPercentage == currentUnionedMatchedPixelCount as real / |truth.pixels| as real
        && currentUnionedMatchImage
           == if imageMatchPercentage >= ImageMatchPercentageGoal then truth.pixels
              else Latched(toHsv, old(currentUnionedMatchImage), truth.pixels, guess)
    {
      if imageGuessesMade >= MaxImageTries {
        return;
      }

      var matchingTexture := VerifyImage(image);

      RecordImageGuess(image, matchingTexture);

      if imageMatchPercentage >= ImageMatchPercentageGoal {
        ghost var scored := currentUnionedMatchImage;
        RevealPortrait();
        KeepsSetCellsTransitive(old(currentUnionedMatchImage), scored, currentUnionedMatchImage);
      }
    }

    /** The part of HandleImageInput that shows the whole portrait once the goal is reached. */
    method RevealPortrait()
      requires groundTruthImage.Some? && RevealValid()
      modifies this`currentUnionedMatchImage
      ensures RevealValid()
      ensures currentUnionedMatchImage == groundTruthImage.value.pixels
      ensures KeepsSetCells(old(currentUnionedMatchImage), currentUnionedMatchImage)
    {
      var truth := groundTruthImage.value.pixels;
      if AllSet(truth) {
        AllSetCount(truth, |truth|);
      }
      RevealKeepsSetCells(currentUnionedMatchImage, truth);
      currentUnionedMatchImage := truth;
    }

    /** The part of HandleImageInput that files a scored photo and its overlay in the history. */
    method RecordImageGuess(image: Texture, matchingTexture: Option<Texture>)
      requires HistoriesValid() && imageGuessesMade < MaxImageTries
      modifies this`imageGuessesMade, imageHistory
      ensures HistoriesValid()
      ensures imageGuessesMade == old(imageGuessesMade) + 1
      ensures imageHistory[..]
              == old(imageHistory[..])[2 * old(imageGuessesMade) := Some(image)][2 * old(imageGuessesMade) + 1 := matchingTexture]
    {
      imageHistory[imageGuessesMade * 2] := Some(image);
      imageHistory[imageGuessesMade * 2 + 1] := matchingTexture;
      imageGuessesMade := imageGuessesMade + 1;
    }

    /**
     * A name guess. With the ten tries spent, or when the guess is exactly the
     * portrait's name (case-sensitive), nothing changes; any other guess is
     * recorded at the next slot of the name history and counted.
     */
    method HandleTextInput(guessText: string)
      requires Valid()
      modifies this`nameGuessesMade, nameHistory
      ensures Valid()
      ensures old(nameGuessesMade) >= MaxTextTries || groundTruthName == Some(guessText) ==>
        nameGuessesMade == old(nameGuessesMade) && nameHistory[..] == old(nameHistory[..])
      ensures old(nameGuessesMade) < MaxTextTries && groundTruthName != Some(guessText) ==>
        && nameGuessesMade == old(nameGuessesMade) + 1
        && nameHistory[..] == old(nameHistory[..])[old(nameGuessesMade) := Some(guessText)]
    {
      if nameGuessesMade >= MaxTextTries {
        return;
      }

      if Some(guessText) == groundTruthName {
        // a correct name: the round has no outcome to record
      } else {
        nameHistory[nameGuessesMade] := Some(guessText);
        nameGuessesMade := nameGuessesMade + 1;
      }
    }
  }

  /**
   * The portrait at a given index of the loaded portraits, or None (the
   * source's default tuple) when the index is out of bounds.
   */
  function GetPortraitByIndex(portraitNames: seq<string>, portraitData: map<string, Texture>, index: int)
    : (r: Option<(string, Texture)>)
    requires forall i :: 0 <= i < |portraitNames| ==> portraitNames[i] in portraitData
    ensures r.Some? <==> 0 <= index < |portraitNames|
    ensures r.Some? ==> r.value.0 == portraitNames[index] && r.value.1 == portraitData[portraitNames[index]]
  {
    if index < 0 || index >= |portraitNames| then None
    else
      var name := portraitNames[index];
      Some((name, portraitData[name]))
  }
}
