/**
 * The level table and the two queries on it from src/lib/utils.js: `getUserLevel`, which finds the
 * tier a placed-pixel count falls in, and `getAvailableProfileImages`, which lists every tier's
 * profile image with whether the count unlocks it.
 *
 * The tiers partition the counts into half-open bands [minPixels_i, minPixels_(i+1)), the last
 * band unbounded; a count equal to a tier's minPixels belongs to that tier.
 */
module Levels {
  import opened Wrappers

  datatype Level = Level(name: string, minPixels: nat, message: string, pixelLimit: nat, src: string)

  /** `LEVELS_CONFIG`: sixteen tiers, from "Pixel Peasant" at 0 to "The Glitch God" at 1000000. */
  const LevelsConfig: seq<Level> := [
    Level("Pixel Peasant", 0, "You've placed your first humble dot.", 6,
          "images/profiles/pixel-peasant.png"),
    Level("Color Dabbler", 500, "Starting to make a mess — in style.", 7,
          "images/profiles/color-dabbler.png"),
    Level("Dot Dropper", 1500, "You're making tiny waves in the canvas ocean.", 8,
          "images/profiles/dot-dropper.png"),
    Level("Hue Hustler", 3000, "You've got an eye for color and no shame in clicking.", 9,
          "images/profiles/hue-hustler.png"),
    Level("Shade Slinger", 6000, "Flipping palettes like a cowboy flips coins.", 10,
          "images/profiles/shade-slinger.png"),
    Level("Grid Graffiti", 10000, "Who needs permission to paint?", 11,
          "images/profiles/grid-graffiti.png"),
    Level("Palette Pioneer", 15000, "Blazing trails through pixels unknown.", 12,
          "images/profiles/palette-pioneer.png"),
    Level("Canvas Commander", 25000, "You don't paint pixels — you order them around.", 13,
          "images/profiles/canvas-commander.png"),
    Level("Bitmaster", 40000, "The binary bows to your will.", 14,
          "images/profiles/bitmaster.png"),
    Level("Pixel Picasso", 70000, "Your mess is starting to look like art.", 15,
          "images/profiles/pixel-picasso.png"),
    Level("Color Overlord", 120000, "You control more shades than the sunset.", 16,
          "images/profiles/color-overlord.png"),
    Level("The Dithering Duke", 200000, "Smoothing edges like a royal.", 18,
          "images/profiles/dithering-duke.png"),
    Level("Hue Sorcerer", 350000, "Summoning colors with a click and a curse.", 20,
          "images/profiles/hue-sorcerer.png"),
    Level("Render Ruler", 500000, "The canvas is your kingdom. The cursor is your crown.", 22,
          "images/profiles/render-ruler.png"),
    Level("Pixel Prophet", 700000, "You see the final image before it even exists.", 24,
          "images/profiles/pixel-prophet.png"),
    Level("The Glitch God", 1000000, "Reality bends at the power of your pixels.", 30,
          "images/profiles/glitch-god.png")
  ]

  /** Thresholds strictly increase from one tier to the next. */
  ghost predicate AscendingThresholds(t: seq<Level>) {
    forall i :: 0 < i < |t| ==> t[i - 1].minPixels < t[i].minPixels
  }

  /** From tier k on, each tier has a higher threshold and a higher quota than the one before. */
  ghost predicate AscendingFrom(t: seq<Level>, k: nat)
    decreases |t| - k
  {
    k + 1 >= |t| ||
    (&& t[k].minPixels < t[k + 1].minPixels
     && t[k].pixelLimit < t[k + 1].pixelLimit
     && AscendingFrom(t, k + 1))
  }

  /**
   * A table the classifier can work with: not empty, starting at 0, with strictly increasing
   * thresholds and strictly increasing quotas.
   */
  ghost predicate WellFormed(t: seq<Level>) {
    && |t| > 0
    && t[0].minPixels == 0
    && AscendingFrom(t, 0)
  }

  /** The source's table has that shape. */
  lemma LevelsConfigWellFormed()
    ensures WellFormed(LevelsConfig) && |LevelsConfig| == 16
  {
    var t := LevelsConfig;
    assert AscendingFrom(t, 15);
    assert AscendingFrom(t, 14);
    assert AscendingFrom(t, 13);
    assert AscendingFrom(t, 12);
    assert AscendingFrom(t, 11);
    assert AscendingFrom(t, 10);
    assert AscendingFrom(t, 9);
    assert AscendingFrom(t, 8);
    assert AscendingFrom(t, 7);
    assert AscendingFrom(t, 6);
    assert AscendingFrom(t, 5);
    assert AscendingFrom(t, 4);
    assert AscendingFrom(t, 3);
    assert AscendingFrom(t, 2);
    assert AscendingFrom(t, 1);
    assert AscendingFrom(t, 0);
  }

  lemma {:induction false} AdjacentIncreasing(t: seq<Level>, k: nat, i: nat)
    requires AscendingFrom(t, k) && k <= i && i + 1 < |t|
    ensures t[i].minPixels < t[i + 1].minPixels && t[i].pixelLimit < t[i + 1].pixelLimit
    decreases i - k
  {
    if k < i {
      AdjacentIncreasing(t, k + 1, i);
    }
  }

  /** Strict increase between neighbours gives strict increase between any two tiers. */
  lemma {:induction false} Increasing(t: seq<Level>, i: nat, j: nat)
    requires WellFormed(t) && i < j < |t|
    ensures t[i].minPixels < t[j].minPixels && t[i].pixelLimit < t[j].pixelLimit
    decreases j - i
  {
    AdjacentIncreasing(t, 0, j - 1);
    if i + 1 < j {
      Increasing(t, i, j - 1);
    }
  }

  lemma WellFormedAscending(t: seq<Level>)
    requires WellFormed(t)
    ensures AscendingThresholds(t)
  {
    forall i | 0 < i < |t| ensures t[i - 1].minPixels < t[i].minPixels {
      AdjacentIncreasing(t, 0, i - 1);
    }
  }

  lemma {:induction false} ThresholdsIncreasing(t: seq<Level>, i: nat, j: nat)
    requires AscendingThresholds(t) && i < j < |t|
    ensures t[i].minPixels < t[j].minPixels
    decreases j - i
  {
    if i + 1 < j {
      ThresholdsIncreasing(t, i, j - 1);
    }
  }

  /** The number of tiers whose threshold a count has reached. */
  function CountReached(t: seq<Level>, pixels: int): (n: nat)
    ensures n <= |t|
  {
    if t == [] then 0
    else CountReached(t[..|t| - 1], pixels) + (if t[|t| - 1].minPixels <= pixels then 1 else 0)
  }

  /** In an ascending table the reached tiers are exactly the first CountReached ones. */
  lemma {:induction false} CountReachedIsPrefix(t: seq<Level>, pixels: int)
    requires AscendingThresholds(t)
    ensures forall i :: 0 <= i < |t| ==> (t[i].minPixels <= pixels <==> i < CountReached(t, pixels))
  {
    if t != [] {
      var front := t[..|t| - 1];
      assert AscendingThresholds(front);
      CountReachedIsPrefix(front, pixels);
      var last := |t| - 1;
      if t[last].minPixels <= pixels {
        forall i | 0 <= i < last ensures front[i].minPixels <= pixels {
          ThresholdsIncreasing(t, i, last);
        }
      }
    }
  }

  /** The tier a count is in: the greatest i whose threshold the count has reached. */
  ghost predicate IsCurrentTier(t: seq<Level>, pixels: int, i: int) {
    && 0 <= i < |t|
    && t[i].minPixels <= pixels
    && forall j :: i < j < |t| ==> pixels < t[j].minPixels
  }

  /** The index of the tier a non-negative count is in. */
  function CurrentTier(t: seq<Level>, pixels: int): (i: nat)
    requires WellFormed(t) && pixels >= 0
    ensures IsCurrentTier(t, pixels, i)
  {
    WellFormedAscending(t);
    CountReachedIsPrefix(t, pixels);
    CountReached(t, pixels) - 1
  }

  /** A count is in tier i exactly when it lies in [minPixels_i, minPixels_(i+1)). */
  lemma CurrentTierIff(t: seq<Level>, pixels: int, i: nat)
    requires WellFormed(t) && pixels >= 0 && i < |t|
    ensures CurrentTier(t, pixels) == i <==>
              t[i].minPixels <= pixels && (i + 1 < |t| ==> pixels < t[i + 1].minPixels)
  {
    if t[i].minPixels <= pixels && (i + 1 < |t| ==> pixels < t[i + 1].minPixels) {
      InBand(t, pixels, i);
    }
  }

  /** A count between a tier's threshold and the next one's is in that tier. */
  lemma InBand(t: seq<Level>, pixels: int, i: nat)
    requires WellFormed(t) && i < |t|
    requires t[i].minPixels <= pixels && (i + 1 < |t| ==> pixels < t[i + 1].minPixels)
    ensures IsCurrentTier(t, pixels, i)
  {
    forall j | i + 1 < j < |t| ensures pixels < t[j].minPixels {
      Increasing(t, i + 1, j);
    }
  }

  /** What `getUserLevel` reports; `pixelsToNextLevel` is `None` where the source has Infinity. */
  datatype UserLevel = UserLevel(
    level: string,
    message: string,
    pixelsLimit: nat,
    imageSrc: string,
    pixelsForCurrentLevel: nat,
    pixelsToNextLevel: Option<nat>)

  /** The report for tier i of t. */
  function Report(t: seq<Level>, i: nat): UserLevel
    requires i < |t|
  {
    UserLevel(t[i].name, t[i].message, t[i].pixelLimit, t[i].src, t[i].minPixels,
              if i + 1 < |t| then Some(t[i + 1].minPixels) else None)
  }

  /**
   * The report for a count: its own tier's threshold is reached, the next tier's is not, and
   * there is no next threshold exactly at the top tier.
   */
  lemma ReportBrackets(t: seq<Level>, pixels: int)
    requires WellFormed(t) && pixels >= 0
    ensures Report(t, CurrentTier(t, pixels)).pixelsForCurrentLevel <= pixels
    ensures Report(t, CurrentTier(t, pixels)).pixelsToNextLevel.Some? ==>
              pixels < Report(t, CurrentTier(t, pixels)).pixelsToNextLevel.value
    ensures Report(t, CurrentTier(t, pixels)).pixelsToNextLevel.None? <==>
              CurrentTier(t, pixels) == |t| - 1
  {
  }

  /** More pixels never mean a lower tier. */
  lemma CurrentTierMonotone(t: seq<Level>, a: int, b: int)
    requires WellFormed(t) && 0 <= a <= b
    ensures CurrentTier(t, a) <= CurrentTier(t, b)
  {
  }

  /** More pixels never mean a smaller placement quota. */
  lemma PixelsLimitMonotone(t: seq<Level>, a: int, b: int)
    requires WellFormed(t) && 0 <= a <= b
    ensures Report(t, CurrentTier(t, a)).pixelsLimit <= Report(t, CurrentTier(t, b)).pixelsLimit
  {
    CurrentTierMonotone(t, a, b);
    if CurrentTier(t, a) < CurrentTier(t, b) {
      Increasing(t, CurrentTier(t, a), CurrentTier(t, b));
    }
  }

  /**
   * The loop of `getUserLevel` over a table: scan from the top tier down and stop at the first
   * tier whose threshold the count has reached. For a negative count no tier matches, the source
   * reads a field of `LEVELS_CONFIG[-1]` (undefined) and throws; that is `None` here.
   */
  method LevelOf(t: seq<Level>, pixelsPlaced: int) returns (r: Option<UserLevel>)
    requires WellFormed(t)
    ensures r.None? <==> pixelsPlaced < 0
    ensures r.Some? ==> r == Some(Report(t, CurrentTier(t, pixelsPlaced)))
    ensures r.Some? ==>
              && r.value.pixelsForCurrentLevel <= pixelsPlaced
              && (r.value.pixelsToNextLevel.Some? ==> pixelsPlaced < r.value.pixelsToNextLevel.value)
  {
    var currentLevelIndex := -1;
    var i := |t| - 1;
    while i >= 0
      invariant -1 <= i < |t|
      invariant forall j :: i < j < |t| ==> pixelsPlaced < t[j].minPixels
      invariant currentLevelIndex == -1
    {
      if pixelsPlaced >= t[i].minPixels {
        currentLevelIndex := i;
        break;
      }
      i := i - 1;
    }
    if currentLevelIndex == -1 {
      return None;
    }
    var current := t[currentLevelIndex];
    var next := if currentLevelIndex + 1 < |t| then Some(t[currentLevelIndex + 1].minPixels) else None;
    r := Some(UserLevel(current.name, current.message, current.pixelLimit, current.src,
                        current.minPixels, next));
    assert IsCurrentTier(t, pixelsPlaced, currentLevelIndex);
  }

  /** `getUserLevel`: the report for a count on the source's table. */
  method GetUserLevel(pixelsPlaced: int) returns (r: Option<UserLevel>)
    ensures r.None? <==> pixelsPlaced < 0
    ensures r.Some? ==> exists i :: IsCurrentTier(LevelsConfig, pixelsPlaced, i)
                                   && r.value == Report(LevelsConfig, i)
  {
    LevelsConfigWellFormed();
    r := LevelOf(LevelsConfig, pixelsPlaced);
  }

  /** The boundaries of the first tiers, on the source's own table. */
  lemma FirstTierBoundaries()
    ensures IsCurrentTier(LevelsConfig, 0, 0) && IsCurrentTier(LevelsConfig, 499, 0)
    ensures IsCurrentTier(LevelsConfig, 500, 1) && IsCurrentTier(LevelsConfig, 1499, 1)
    ensures IsCurrentTier(LevelsConfig, 1500, 2)
  {
    LevelsConfigWellFormed();
    var t := LevelsConfig;
    assert t[0].minPixels == 0 && t[1].minPixels == 500;
    assert t[2].minPixels == 1500 && t[3].minPixels == 3000;
    InBand(t, 0, 0);
    InBand(t, 499, 0);
    InBand(t, 500, 1);
    InBand(t, 1499, 1);
    InBand(t, 1500, 2);
  }

  /** The top tier, "The Glitch God" at 1000000, has no next threshold. */
  lemma TopTierBoundaries()
    ensures |LevelsConfig| == 16 && LevelsConfig[15].name == "The Glitch God"
    ensures IsCurrentTier(LevelsConfig, 999999, 14) && IsCurrentTier(LevelsConfig, 1000000, 15)
    ensures IsCurrentTier(LevelsConfig, 10000000, 15)
    ensures Report(LevelsConfig, 15).pixelsToNextLevel == None
  {
    assert LevelsConfig[14].minPixels == 700000 && LevelsConfig[15].minPixels == 1000000;
  }

  // ---------------------------------------------------------------------------------------------
  // getAvailableProfileImages

  datatype ProfileImage = ProfileImage(name: string, src: string, unlocked: bool)

  /** One entry per tier, in table order, unlocked when the count has reached the tier. */
  function ProfileImages(t: seq<Level>, pixels: int): (r: seq<ProfileImage>)
    ensures |r| == |t|
    ensures forall i :: 0 <= i < |t| ==>
              r[i].name == t[i].name && r[i].src == t[i].src
              && (r[i].unlocked <==> t[i].minPixels <= pixels)
  {
    seq(|t|, i requires 0 <= i < |t| => ProfileImage(t[i].name, t[i].src, pixels >= t[i].minPixels))
  }

  /**
   * `getAvailableProfileImages` on the source's table: sixteen images, none unlocked below 0, and
   * otherwise exactly those of the tiers up to the one `getUserLevel` reports.
   */
  function GetAvailableProfileImages(pixelsPlaced: int): (r: seq<ProfileImage>)
    ensures |r| == 16
    ensures pixelsPlaced < 0 ==> Unlocked(r) == {}
    ensures pixelsPlaced >= 0 ==> exists i :: IsCurrentTier(LevelsConfig, pixelsPlaced, i)
                                             && Unlocked(r) == Below(i + 1)
  {
    LevelsConfigWellFormed();
    var images := ProfileImages(LevelsConfig, pixelsPlaced);
    if pixelsPlaced < 0 then
      NothingUnlockedBelowZero(LevelsConfig, pixelsPlaced);
      images
    else
      UnlockedIsPrefix(LevelsConfig, pixelsPlaced);
      var c := CurrentTier(LevelsConfig, pixelsPlaced);
      assert IsCurrentTier(LevelsConfig, pixelsPlaced, c) && Unlocked(images) == Below(c + 1);
      images
  }

  /** The indices of the unlocked entries. */
  function Unlocked(images: seq<ProfileImage>): set<nat> {
    set i: nat | i < |images| && images[i].unlocked
  }

  /** The set {0, ..., n - 1}. */
  function Below(n: nat): (r: set<nat>)
    ensures forall i: nat :: i in r <==> i < n
  {
    if n == 0 then {} else Below(n - 1) + {n - 1}
  }

  /**
   * The unlocked images are a prefix of the list that ends at the tier `getUserLevel` reports:
   * exactly the tiers 0 .. CurrentTier.
   */
  lemma UnlockedIsPrefix(t: seq<Level>, pixels: int)
    requires WellFormed(t) && pixels >= 0
    ensures forall i :: 0 <= i < |t| ==>
              (ProfileImages(t, pixels)[i].unlocked <==> i <= CurrentTier(t, pixels))
    ensures Unlocked(ProfileImages(t, pixels)) == Below(CurrentTier(t, pixels) + 1)
  {
    var c := CurrentTier(t, pixels);
    forall i | 0 <= i < c ensures t[i].minPixels <= pixels {
      Increasing(t, i, c);
    }
  }

  /** Every threshold is a natural number, so a negative count unlocks no image. */
  lemma NothingUnlockedBelowZero(t: seq<Level>, pixels: int)
    requires pixels < 0
    ensures Unlocked(ProfileImages(t, pixels)) == {}
  {
  }

  /** Whatever a count unlocks stays unlocked at any larger count. */
  lemma UnlockedMonotone(t: seq<Level>, a: int, b: int)
    requires a <= b
    ensures Unlocked(ProfileImages(t, a)) <= Unlocked(ProfileImages(t, b))
  {
  }
}
