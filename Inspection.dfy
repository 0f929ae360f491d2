/** The decision logic of the gear inspection (Task.py): the contour noise
    filter, the worn/missing tooth counter, the inner-diameter classifier and
    the pipeline that feeds them from a reference and a test image. */
module Inspection {

  import opened Wrappers
  import opened Images
  import opened Contours

  /** The tunable constants of the inspection, which the program imports from
      its configuration module. Areas are in pixels, as `cv.contourArea`
      reports them; the model compares twice an area with twice a constant. */
  datatype Config = Config(
    minimumMissingTeeth: int,
    maximumMissingTeeth: int,
    innerDiameterNormalSize: int)

  /** The smallest point count of a contour that is not treated as noise. */
  const MinContourPoints: nat := 15

  /* ---------------------------------------------------------------------- */
  /* Contour filter                                                         */

  predicate IsSignificant(c: Contour)
  {
    |c| >= MinContourPoints
  }

  /** The contours with at least `MinContourPoints` points, in input order. */
  function Significant(cs: seq<Contour>): (r: seq<Contour>)
    ensures |r| <= |cs|
    ensures forall c :: c in r ==> IsSignificant(c)
  {
    if cs == [] then []
    else
      var last := cs[|cs| - 1];
      Significant(cs[..|cs| - 1]) + (if IsSignificant(last) then [last] else [])
  }

  /** `s` is `t` with some elements left out, the rest in their order. */
  ghost predicate IsSubsequence<T>(s: seq<T>, t: seq<T>)
    decreases |t|
  {
    s == [] ||
    (t != [] &&
      (IsSubsequence(s, t[..|t| - 1]) ||
        (s[|s| - 1] == t[|t| - 1] && IsSubsequence(s[..|s| - 1], t[..|t| - 1]))))
  }

  /** The filter keeps a contour exactly when it is an input contour with
      enough points. */
  lemma {:induction false} SignificantMembers(cs: seq<Contour>)
    ensures forall c :: c in Significant(cs) <==> c in cs && IsSignificant(c)
  {
    if cs != [] {
      var init, last := cs[..|cs| - 1], cs[|cs| - 1];
      SignificantMembers(init);
      assert cs == init + [last];
    }
  }

  /** The filter only drops contours; it never reorders them. */
  lemma {:induction false} SignificantIsSubsequence(cs: seq<Contour>)
    ensures IsSubsequence(Significant(cs), cs)
  {
    if cs != [] {
      var init, last := cs[..|cs| - 1], cs[|cs| - 1];
      SignificantIsSubsequence(init);
      var s := Significant(cs);
      assert cs[..|cs| - 1] == init && cs[|cs| - 1] == last;
      if IsSignificant(last) {
        assert s == Significant(init) + [last];
        assert s[..|s| - 1] == Significant(init) && s[|s| - 1] == last;
      } else {
        assert s == Significant(init);
      }
    }
  }

  /** Filtering a concatenation filters each part: the survivors keep the
      relative order they had in the input. */
  lemma {:induction false} SignificantAppend(a: seq<Contour>, b: seq<Contour>)
    ensures Significant(a + b) == Significant(a) + Significant(b)
  {
    if b == [] {
      assert a + b == a;
    } else {
      var init, last := b[..|b| - 1], b[|b| - 1];
      assert b == init + [last];
      assert (a + b)[|a + b| - 1] == last;
      SignificantAppend(a, init);
      assert (a + b)[..|a + b| - 1] == a + init;
    }
  }

  /** Filtering an already filtered list changes nothing. */
  lemma {:induction false} SignificantIdempotent(cs: seq<Contour>)
    ensures Significant(Significant(cs)) == Significant(cs)
  {
    if cs != [] {
      var init, last := cs[..|cs| - 1], cs[|cs| - 1];
      SignificantIdempotent(init);
      if IsSignificant(last) {
        assert Significant(cs) == Significant(init) + [last];
        SignificantAppend(Significant(init), [last]);
        assert [last][..0] == [];
        assert Significant([last]) == [last];
      } else {
        assert Significant(cs) == Significant(init);
      }
    }
  }

  /** A list made only of short contours filters to nothing. */
  lemma OnlyShortContoursFilterToEmpty(cs: seq<Contour>)
    requires forall c :: c in cs ==> |c| < MinContourPoints
    ensures Significant(cs) == []
  {
    SignificantMembers(cs);
    if Significant(cs) != [] {
      assert Significant(cs)[0] in Significant(cs);
    }
  }

  /** filtering_small_contours: keeps the contours with at least 15 points,
      appending them in input order to a new list. */
  method FilterSmallContours(allContours: seq<Contour>) returns (long: seq<Contour>)
    ensures long == Significant(allContours)
    ensures forall c :: c in long <==> c in allContours && |c| >= MinContourPoints
    ensures IsSubsequence(long, allContours)
  {
    long := [];
    for i := 0 to |allContours|
      invariant long == Significant(allContours[..i])
    {
      var contour := allContours[i];
      if |contour| >= MinContourPoints {
        long := long + [contour];
      }
      assert allContours[..i + 1][..i] == allContours[..i];
    }
    assert allContours[..|allContours|] == allContours;
    SignificantMembers(allContours);
    SignificantIsSubsequence(allContours);
  }

  /* ---------------------------------------------------------------------- */
  /* Tooth-defect classifier                                                */

  /** The area band, both ends included, of a missing tooth:
      `minimum <= contourArea(c) <= maximum`, stated on doubled values. */
  predicate InMissingBand(c: Contour, cfg: Config)
  {
    2 * cfg.minimumMissingTeeth <= TwiceArea(c) <= 2 * cfg.maximumMissingTeeth
  }

  /** The number of contours whose area lies in the missing-tooth band. */
  function MissingCount(cs: seq<Contour>, cfg: Config): (n: nat)
    ensures n <= |cs|
  {
    if cs == [] then 0
    else MissingCount(cs[..|cs| - 1], cfg) + (if InMissingBand(cs[|cs| - 1], cfg) then 1 else 0)
  }

  /** The number of contours whose area lies outside the missing-tooth band. */
  function WornCount(cs: seq<Contour>, cfg: Config): (n: nat)
    ensures n <= |cs|
  {
    if cs == [] then 0
    else WornCount(cs[..|cs| - 1], cfg) + (if InMissingBand(cs[|cs| - 1], cfg) then 0 else 1)
  }

  /** Every contour is counted once, as missing or as worn. */
  lemma {:induction false} CountsPartition(cs: seq<Contour>, cfg: Config)
    ensures MissingCount(cs, cfg) + WornCount(cs, cfg) == |cs|
  {
    if cs != [] {
      CountsPartition(cs[..|cs| - 1], cfg);
    }
  }

  /** Counting two lists one after the other, carrying the counts over as
      accumulators, is counting their concatenation. */
  lemma {:induction false} CountsAppend(a: seq<Contour>, b: seq<Contour>, cfg: Config)
    ensures MissingCount(a + b, cfg) == MissingCount(a, cfg) + MissingCount(b, cfg)
    ensures WornCount(a + b, cfg) == WornCount(a, cfg) + WornCount(b, cfg)
  {
    if b == [] {
      assert a + b == a;
    } else {
      CountsAppend(a, b[..|b| - 1], cfg);
      assert (a + b)[..|a + b| - 1] == a + b[..|b| - 1];
    }
  }

  /** No contour is counted as missing exactly when none lies in the band. */
  lemma {:induction false} NoMissingIff(cs: seq<Contour>, cfg: Config)
    ensures MissingCount(cs, cfg) == 0 <==> forall c :: c in cs ==> !InMissingBand(c, cfg)
  {
    if cs != [] {
      var init, last := cs[..|cs| - 1], cs[|cs| - 1];
      NoMissingIff(init, cfg);
      assert cs == init + [last];
    }
  }

  /** checking_contour_type: adds one per contour to the missing count when
      its area is in the band and to the worn count otherwise, starting from
      the counts the caller passes in. */
  method CheckContourType(contours: seq<Contour>, wornIn: int, missingIn: int, cfg: Config)
    returns (worn: int, missing: int)
    ensures missing == missingIn + MissingCount(contours, cfg)
    ensures worn == wornIn + WornCount(contours, cfg)
    ensures worn + missing == wornIn + missingIn + |contours|
    ensures wornIn <= worn && missingIn <= missing
  {
    worn, missing := wornIn, missingIn;
    for i := 0 to |contours|
      invariant missing == missingIn + MissingCount(contours[..i], cfg)
      invariant worn == wornIn + WornCount(contours[..i], cfg)
    {
      var contourArea := TwiceArea(contours[i]);
      if 2 * cfg.minimumMissingTeeth <= contourArea <= 2 * cfg.maximumMissingTeeth {
        missing := missing + 1;
      } else {
        worn := worn + 1;
      }
      assert contours[..i + 1][..i] == contours[..i];
    }
    assert contours[..|contours|] == contours;
    CountsPartition(contours, cfg);
  }

  /* ---------------------------------------------------------------------- */
  /* Inner-diameter classifier                                              */

  datatype DiameterStatus = Normal | Missing | Bigger | Smaller

  /** The status of a deviation region of the given doubled area. An area
      equal to the configured normal size is reported as Missing. */
  function ClassifyDiameterArea(twiceArea: int, cfg: Config): (s: DiameterStatus)
    ensures s != Normal
    ensures s == Missing <==> twiceArea == 2 * cfg.innerDiameterNormalSize
    ensures s == Bigger <==> twiceArea > 2 * cfg.innerDiameterNormalSize
    ensures s == Smaller <==> twiceArea < 2 * cfg.innerDiameterNormalSize
  {
    var normal := 2 * cfg.innerDiameterNormalSize;
    if twiceArea == normal then Missing
    else if twiceArea > normal then Bigger
    else Smaller
  }

  /** The status for the extracted deviation contours: Normal when there are
      none, otherwise decided by the area of the first one alone. */
  function DiameterDecision(contours: seq<Contour>, cfg: Config): (s: DiameterStatus)
    ensures s == Normal <==> contours == []
    ensures contours != [] ==>
      (s == Missing <==> TwiceArea(contours[0]) == 2 * cfg.innerDiameterNormalSize) &&
      (s == Bigger <==> TwiceArea(contours[0]) > 2 * cfg.innerDiameterNormalSize) &&
      (s == Smaller <==> TwiceArea(contours[0]) < 2 * cfg.innerDiameterNormalSize)
  {
    if contours == [] then Normal
    else ClassifyDiameterArea(TwiceArea(contours[0]), cfg)
  }

  /** Contours after the first never change the diameter status. */
  lemma FirstContourDecides(a: seq<Contour>, b: seq<Contour>, cfg: Config)
    requires a != [] && b != [] && a[0] == b[0]
    ensures DiameterDecision(a, cfg) == DiameterDecision(b, cfg)
  {
  }

  /** The fixed-threshold difference of the two inner-disc images. */
  function InnerDifference(ideal: Image, sample: Image): (d: Image)
    requires SameShape(ideal, sample)
    ensures SameShape(d, ideal) && IsBinary(d)
    ensures forall i, j :: InBounds(ideal, i, j) ==>
      (d[i][j] == MaxValue <==> (ideal[i][j] > ThresholdLevel) != (sample[i][j] > ThresholdLevel))
  {
    var d := Xor(Threshold(ideal), Threshold(sample));
    XorMarksDisagreement(Threshold(ideal), Threshold(sample));
    d
  }

  /** checking_inner_diameter_condition: thresholds both images at 90, XORs
      them and extracts the outer contours of the difference with
      `findContours`. No contour gives (Normal, None); otherwise the status of
      the first contour's area comes with the difference image. */
  function CheckInnerDiameter(
    ideal: Image, sample: Image, findContours: Image -> seq<Contour>, cfg: Config)
    : (r: (DiameterStatus, Option<Image>))
    requires SameShape(ideal, sample)
    ensures var contours := findContours(InnerDifference(ideal, sample));
      && (r.0 == Normal <==> contours == [])
      && (r.0 == Normal ==> r.1 == None)
      && (r.0 != Normal ==> r.1 == Some(InnerDifference(ideal, sample)))
      && (contours != [] ==> r.0 == ClassifyDiameterArea(TwiceArea(contours[0]), cfg))
      && r.0 == DiameterDecision(contours, cfg)
  {
    var difference := InnerDifference(ideal, sample);
    var status := DiameterDecision(findContours(difference), cfg);
    (status, if status == Normal then None else Some(difference))
  }

  /* ---------------------------------------------------------------------- */
  /* Pipeline                                                               */

  /** The difference shown to the user: the tooth-region difference, OR-ed
      with the inner-diameter difference when the diameter is not Normal. */
  function OverallDifference(toothDiff: Image, status: DiameterStatus, innerDiff: Option<Image>): (r: Image)
    requires status != Normal ==> innerDiff.Some? && SameShape(toothDiff, innerDiff.value)
    ensures SameShape(r, toothDiff)
  {
    if status != Normal then Or(toothDiff, innerDiff.value) else toothDiff
  }

  /** On binary difference maps the overall difference is binary, and it
      marks a pixel exactly when the tooth difference does, or the
      inner-diameter difference does and the diameter is not Normal. */
  lemma OverallDifferenceMarksDeviations(toothDiff: Image, status: DiameterStatus, innerDiff: Option<Image>)
    requires status != Normal ==> innerDiff.Some? && SameShape(toothDiff, innerDiff.value)
    requires IsBinary(toothDiff) && (innerDiff.Some? ==> IsBinary(innerDiff.value))
    ensures IsBinary(OverallDifference(toothDiff, status, innerDiff))
    ensures forall i, j :: InBounds(toothDiff, i, j) ==>
      (OverallDifference(toothDiff, status, innerDiff)[i][j] == MaxValue <==>
        toothDiff[i][j] == MaxValue || (status != Normal && innerDiff.value[i][j] == MaxValue))
  {
    if status != Normal {
      OrMarksEither(toothDiff, innerDiff.value);
    }
  }

  /** `cv.adaptiveThreshold(src, 255, ..., THRESH_BINARY, ...)` keeps the
      image's shape and writes only 0 and 255. */
  ghost predicate BinarisesKeepingShape(adaptiveThreshold: Image -> Image)
  {
    forall g :: SameShape(adaptiveThreshold(g), g) && IsBinary(adaptiveThreshold(g))
  }

  /** The difference of the outer (tooth) regions: both grey images masked
      with the complement of the inner-disc mask, binarised by
      `adaptiveThreshold` and XOR-ed. It is binary and on exactly where the
      two binarised outer regions disagree. */
  function ToothDifference(
    refGray: Image, testGray: Image, mask: Image, adaptiveThreshold: Image -> Image): (d: Image)
    requires SameShape(refGray, testGray) && SameShape(refGray, mask)
    requires BinarisesKeepingShape(adaptiveThreshold)
    ensures SameShape(d, refGray) && IsBinary(d)
    ensures forall i, j :: InBounds(refGray, i, j) ==>
      (d[i][j] == MaxValue <==>
        adaptiveThreshold(Masked(refGray, Not(mask)))[i][j] != adaptiveThreshold(Masked(testGray, Not(mask)))[i][j])
    ensures refGray == testGray ==> AllZero(d)
  {
    var invertedMask := Not(mask);
    var a := adaptiveThreshold(Masked(refGray, invertedMask));
    var b := adaptiveThreshold(Masked(testGray, invertedMask));
    assert SameShape(a, Masked(refGray, invertedMask)) && SameShape(b, Masked(testGray, invertedMask));
    XorSelfIsZero(a);
    XorMarksDisagreement(a, b);
    Xor(a, b)
  }

  /** Contour extraction finds no boundary in an image with no white pixel. */
  ghost predicate FindsNothingInBlank(findContours: Image -> seq<Contour>)
  {
    forall g :: AllZero(g) ==> findContours(g) == []
  }

  datatype Report = Report(
    wornTeeth: int,
    missingTeeth: int,
    diameter: DiameterStatus,
    overallDifference: Image,
    significantContours: seq<Contour>)

  /** The main block: split both grey images with the inner-disc mask and its
      complement, classify the inner diameter on the fixed-threshold
      difference, compare the outer regions after `adaptiveThreshold`, filter
      the contours of that difference and count worn and missing teeth from
      zero. `findContoursFull` and `findContoursSimple` stand for
      `cv.findContours` in its `CHAIN_APPROX_NONE` and `CHAIN_APPROX_SIMPLE`
      modes. */
  method Inspect(
    refGray: Image, testGray: Image, mask: Image, cfg: Config,
    adaptiveThreshold: Image -> Image,
    findContoursFull: Image -> seq<Contour>,
    findContoursSimple: Image -> seq<Contour>)
    returns (report: Report)
    requires SameShape(refGray, testGray) && SameShape(refGray, mask)
    requires BinarisesKeepingShape(adaptiveThreshold)
    ensures var inner := CheckInnerDiameter(Masked(refGray, mask), Masked(testGray, mask), findContoursFull, cfg);
      var toothDiff := ToothDifference(refGray, testGray, mask, adaptiveThreshold);
      && report.diameter == inner.0
      && report.overallDifference == OverallDifference(toothDiff, inner.0, inner.1)
      && report.significantContours == Significant(findContoursSimple(toothDiff))
    ensures var inner := CheckInnerDiameter(Masked(refGray, mask), Masked(testGray, mask), findContoursFull, cfg);
      var toothDiff := ToothDifference(refGray, testGray, mask, adaptiveThreshold);
      && IsBinary(report.overallDifference)
      && forall i, j :: InBounds(refGray, i, j) ==>
        (report.overallDifference[i][j] == MaxValue <==>
          toothDiff[i][j] == MaxValue || (inner.0 != Normal && inner.1.value[i][j] == MaxValue))
    ensures report.missingTeeth == MissingCount(report.significantContours, cfg)
    ensures report.wornTeeth == WornCount(report.significantContours, cfg)
    ensures report.wornTeeth + report.missingTeeth == |report.significantContours|
    ensures refGray == testGray && FindsNothingInBlank(findContoursFull) && FindsNothingInBlank(findContoursSimple)
      ==> report.wornTeeth == 0 && report.missingTeeth == 0 && report.diameter == Normal
          && AllZero(report.overallDifference)
  {
    var invertedMask := Not(mask);
    var maskedRef := Masked(refGray, mask);
    var maskedTest := Masked(testGray, mask);
    var invertedMaskedRef := Masked(refGray, invertedMask);
    var invertedMaskedTest := Masked(testGray, invertedMask);

    var inner := CheckInnerDiameter(maskedRef, maskedTest, findContoursFull, cfg);
    var (diameterStatus, innerDifference) := inner;

    var thresholdRef := adaptiveThreshold(invertedMaskedRef);
    var thresholdTest := adaptiveThreshold(invertedMaskedTest);
    var differenceImg := Xor(thresholdRef, thresholdTest);
    assert differenceImg == ToothDifference(refGray, testGray, mask, adaptiveThreshold);
    var overallDifferenceImg := OverallDifference(differenceImg, diameterStatus, innerDifference);

    var significantDiffContours := FilterSmallContours(findContoursSimple(differenceImg));
    var wornTeeth, missingTeeth := CheckContourType(significantDiffContours, 0, 0, cfg);

    report := Report(wornTeeth, missingTeeth, diameterStatus, overallDifferenceImg, significantDiffContours);

    OverallDifferenceMarksDeviations(differenceImg, diameterStatus, innerDifference);

    if refGray == testGray {
      XorSelfIsZero(thresholdRef);
      XorSelfIsZero(Threshold(maskedRef));
    }
  }
}
