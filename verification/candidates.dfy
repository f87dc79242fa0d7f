/** Choosing the plate among the contours found in a frame. Each contour is
    reduced to the two numbers the detector reads from the image library: its
    area and the rotated rectangle of least area around it. */
module Candidates {
  import opened Wrappers
  import opened Geometry

  /** Contours smaller than this are skipped. */
  const MinArea: real := 1000.0

  /** The area at which the area score saturates. */
  const FullArea: real := 10000.0

  /** A candidate must score above this to be chosen. */
  const ScoreThreshold: real := 0.5

  const AspectWeight: real := 0.7
  const AreaWeight: real := 0.3

  /** `cv.minAreaRect` of a contour: its size and its four corners. */
  datatype RotatedRect = RotatedRect(width: NonNegReal, height: NonNegReal, vertices: Quad)

  /** One contour: `cv.contourArea` and `cv.minAreaRect`. */
  datatype Candidate = Candidate(area: NonNegReal, rect: RotatedRect)

  function Min(a: real, b: real): (m: real) { if a <= b then a else b }

  function Max(a: real, b: real): (m: real) { if a >= b then a else b }

  function Abs(a: real): (m: real) { if a < 0.0 then -a else a }

  /** A quotient of two sizes as a JavaScript number: a zero divisor gives
      `Infinity`, and `0 / 0` gives `NaN`. */
  datatype Ratio = Finite(value: real) | Infinite | NotANumber

  /** The long side over the short side. */
  function AspectRatio(width: NonNegReal, height: NonNegReal): (r: Ratio) {
    if width > height then
      if height == 0.0 then Infinite else Finite(width / height)
    else if width == 0.0 then
      if height == 0.0 then NotANumber else Infinite
    else
      Finite(height / width)
  }

  /** `NaN` exactly when both sides are 0, `Infinity` exactly when one is,
      and otherwise the factor that takes the short side to the long one. */
  lemma AspectRatioSpec(width: NonNegReal, height: NonNegReal)
    ensures var r := AspectRatio(width, height);
      && (r.NotANumber? <==> width == 0.0 && height == 0.0)
      && (r.Infinite? <==> (width == 0.0) != (height == 0.0))
      && (r.Finite? ==> r.value >= 1.0 && r.value * Min(width, height) == Max(width, height))
  {
    if width > height && height > 0.0 {
      assert width / height * height == width;
    } else if width > 0.0 && height >= width {
      assert height / width * width == height;
    }
  }

  /** `max(0, 1 - |ratio - 3| / 2)`. `NaN` propagates through `Math.max`,
      and is modelled as no score at all; an infinite ratio scores 0. */
  function AspectScore(r: Ratio): (s: Option<real>) {
    match r
    case NotANumber => None
    case Infinite => Some(0.0)
    case Finite(v) => Some(Max(0.0, 1.0 - Abs(v - PlateAspectRatio) / 2.0))
  }

  /** The aspect score lies in `[0, 1]`, is 1 exactly at the plate
      proportion, falls by one half per unit of distance from it, and is
      positive exactly for a finite ratio less than 2 away from it. */
  lemma AspectScoreSpec(r: Ratio)
    ensures var s := AspectScore(r);
      && (s.None? <==> r.NotANumber?)
      && (s.Some? ==> 0.0 <= s.value <= 1.0)
      && (s.Some? ==> (s.value == 1.0 <==> r == Finite(PlateAspectRatio)))
      && (s.Some? && s.value > 0.0 ==> r.Finite? && 2.0 * (1.0 - s.value) == Abs(r.value - PlateAspectRatio))
      && (s.Some? ==> (s.value > 0.0 <==> r.Finite? && Abs(r.value - PlateAspectRatio) < 2.0))
  {
  }

  /** `min(area / 10000, 1)`. */
  function AreaScore(area: NonNegReal): (s: real) {
    Min(area / FullArea, 1.0)
  }

  /** The area score lies in `[0, 1]`, saturates exactly at the full area,
      and below it is the area's share of the full area. */
  lemma AreaScoreSpec(area: NonNegReal)
    ensures var s := AreaScore(area);
      && 0.0 <= s <= 1.0
      && (s == 1.0 <==> area >= FullArea)
      && (area < FullArea ==> s * FullArea == area)
  {
  }

  /** The weighted score of a candidate; none when both sides of its
      rectangle are zero. */
  function Score(c: Candidate): (s: Option<real>) {
    var aspect := AspectScore(AspectRatio(c.rect.width, c.rect.height));
    if aspect.None? then None
    else Some(aspect.value * AspectWeight + AreaScore(c.area) * AreaWeight)
  }

  /** Every score lies in `[0, 1]`, and only a rectangle with no extent at
      all has none. */
  lemma ScoreSpec(c: Candidate)
    ensures Score(c).None? <==> c.rect.width == 0.0 && c.rect.height == 0.0
    ensures Score(c).Some? ==> 0.0 <= Score(c).value <= 1.0
  {
    AspectRatioSpec(c.rect.width, c.rect.height);
    AspectScoreSpec(AspectRatio(c.rect.width, c.rect.height));
    AreaScoreSpec(c.area);
  }

  /** Big enough and scoring above the threshold. */
  predicate Eligible(c: Candidate) {
    c.area >= MinArea && Score(c).Some? && Score(c).value > ScoreThreshold
  }

  function ScoreOf(c: Candidate): (v: real)
    requires Score(c).Some?
  {
    Score(c).value
  }

  /** What the detector's loop picks: nothing when no candidate is eligible;
      otherwise an eligible candidate with the highest score, and the first
      of those, since a later one must score strictly higher to replace it. */
  predicate IsSelection(cs: seq<Candidate>, r: Option<nat>) {
    && (r.None? <==> forall i :: 0 <= i < |cs| ==> !Eligible(cs[i]))
    && (r.Some? ==>
          && r.value < |cs| && Eligible(cs[r.value])
          && (forall i :: 0 <= i < |cs| && Eligible(cs[i]) ==> ScoreOf(cs[i]) <= ScoreOf(cs[r.value]))
          && (forall i :: 0 <= i < r.value && Eligible(cs[i]) ==> ScoreOf(cs[i]) < ScoreOf(cs[r.value])))
  }

  /** The scan over the contours, keeping the best score seen so far. */
  method SelectPlate(cs: seq<Candidate>) returns (r: Option<nat>)
    ensures IsSelection(cs, r)
  {
    var maxScore := 0.0;
    r := None;
    for i := 0 to |cs|
      invariant IsSelection(cs[..i], r)
      invariant r.None? ==> maxScore == 0.0
      invariant r.Some? ==> maxScore == ScoreOf(cs[r.value])
    {
      var c := cs[i];
      var before := r;
      if c.area >= MinArea {
        var score := Score(c);
        if score.Some? && score.value > maxScore && score.value > ScoreThreshold {
          maxScore := score.value;
          r := Some(i);
        }
      }
      assert cs[..i + 1] == cs[..i] + [c];
      SelectionStep(cs[..i], c, before, r);
    }
    assert cs[..|cs|] == cs;
  }

  /** One more contour: it takes over exactly when it is eligible and beats
      the current choice, or there is none yet. */
  lemma SelectionStep(s: seq<Candidate>, c: Candidate, r: Option<nat>, r': Option<nat>)
    requires IsSelection(s, r)
    requires r' == if Eligible(c) && (r.None? || ScoreOf(c) > ScoreOf(s[r.value])) then Some(|s|) else r
    ensures IsSelection(s + [c], r')
  {
    var t := s + [c];
    assert t[|s|] == c;
    assert forall i :: 0 <= i < |s| ==> t[i] == s[i];
  }

  /** At most one index meets the description, so it fixes the choice. */
  lemma SelectionIsUnique(cs: seq<Candidate>, r1: Option<nat>, r2: Option<nat>)
    requires IsSelection(cs, r1) && IsSelection(cs, r2)
    ensures r1 == r2
  {
  }

  /** Of two equal contours the first is kept. */
  lemma TieGoesToFirst(c: Candidate)
    requires Eligible(c)
    ensures IsSelection([c, c], Some(0))
    ensures !IsSelection([c, c], Some(1))
  {
  }

  /** A rectangle with a zero side never becomes the plate: `NaN` fails
      every comparison, and an infinite ratio caps the score at 0.3. */
  lemma DegenerateNeverEligible(c: Candidate)
    requires c.rect.width == 0.0 || c.rect.height == 0.0
    ensures !Eligible(c)
  {
  }

  /** An eligible candidate has a ratio strictly between 11/7 and 31/7: the
      area part alone adds at most 0.3, so the aspect part must exceed 2/7. */
  lemma EligibleAspectBand(c: Candidate)
    requires Eligible(c)
    ensures var r := AspectRatio(c.rect.width, c.rect.height);
      r.Finite? && 11.0 / 7.0 < r.value < 31.0 / 7.0
  {
    var r := AspectRatio(c.rect.width, c.rect.height);
    var aspect := AspectScore(r);
    assert aspect.value * AspectWeight > ScoreThreshold - AreaWeight;
    assert aspect.value > 2.0 / 7.0;
  }

  /** Conversely, the exact plate proportion is enough for a contour of the
      minimum area. */
  lemma ExactProportionIsEligible(c: Candidate)
    requires c.area >= MinArea && AspectRatio(c.rect.width, c.rect.height) == Finite(PlateAspectRatio)
    ensures Eligible(c)
    ensures ScoreOf(c) == AspectWeight + AreaWeight * AreaScore(c.area)
  {
    AreaScoreSpec(c.area);
  }

  /** A large contour of exactly the plate proportion scores the maximum. */
  lemma IdealPlateScoresOne(c: Candidate)
    requires c.area >= FullArea && AspectRatio(c.rect.width, c.rect.height) == Finite(PlateAspectRatio)
    ensures Score(c) == Some(1.0)
  {
  }

  /** The plate proportion is the same whichever side the image library
      reports first: a rectangle three times as wide as high, or three times
      as high as wide, has ratio 3. */
  lemma PlateProportionEitherWay(w: NonNegReal, h: NonNegReal)
    ensures AspectRatio(w, h) == Finite(PlateAspectRatio) <==> (h > 0.0 && w == PlateAspectRatio * h) || (w > 0.0 && h == PlateAspectRatio * w)
  {
    AspectRatioSpec(w, h);
    if w > 0.0 && h == PlateAspectRatio * w {
      assert h / w == PlateAspectRatio;
    }
    if h > 0.0 && w == PlateAspectRatio * h {
      assert w / h == PlateAspectRatio;
    }
  }

  /** A 500 by 100 rectangle (ratio 5) around a contour of area 5000 scores
      0.7 * 0 + 0.3 * 0.5 and is passed over. */
  lemma WideContourIsPassedOver(v: Quad)
    ensures Score(Candidate(5000.0, RotatedRect(500.0, 100.0, v))) == Some(0.15)
    ensures !Eligible(Candidate(5000.0, RotatedRect(500.0, 100.0, v)))
  {
    assert AspectRatio(500.0, 100.0) == Finite(5.0);
  }
}
