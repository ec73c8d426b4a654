/**
  `compareWithPixelMatch` (vrt/misw-4103-pixelmatch/index.js:95-120): decode
  both screenshots, refuse pairs whose dimensions differ, otherwise count the
  mismatched pixels and express them as a percentage of the image area.

  Decoding is a parameter (None stands for a file `PNG.sync.read` rejects) and
  the pixel-difference primitive is a partial function that need only be
  defined on images of equal size: the model verifies only because it never
  applies the primitive to anything else.
*/
module PixelCompare {
  import opened Wrappers
  import opened Severity

  /** A decoded raster: its dimensions and its pixel buffer. */
  datatype Image = Image(width: nat, height: nat, data: seq<int>)

  /** What `pixelmatch` yields: the mismatched-pixel count and the pixels it drew into the diff buffer. */
  datatype PixelDiff = PixelDiff(count: nat, data: seq<int>)

  type PixelMatch = (Image, Image) --> PixelDiff

  type Decoder = string -> Option<Image>

  predicate SameSize(a: Image, b: Image)
  {
    a.width == b.width && a.height == b.height
  }

  /** The primitive accepts any two images of equal size (and perhaps nothing else). */
  ghost predicate DefinedOnEqualSizes(pm: PixelMatch)
  {
    forall a, b :: SameSize(a, b) ==> pm.requires(a, b)
  }

  /**
    The record `compareWithPixelMatch` returns, together with the image it
    writes to the diff path (None when it writes nothing).
  */
  datatype Outcome = Outcome(mismatchPixels: int, mismatchPercentage: Percentage,
                             dimensionMismatch: bool, diffImage: Option<Image>)

  /** `(count / total) * 100`, exact: NaN for 0/0 and +Infinity for a positive count over no pixels. */
  function PercentOf(count: nat, total: nat): (p: Percentage)
    ensures total > 0 ==> p.Ratio? && p.num * total == 100 * count * p.den
    ensures total > 0 ==> (p.num == 0 <==> count == 0)
    ensures total > 0 && count <= total ==> 0 <= p.num <= 100 * p.den
    ensures total == 0 ==> !p.Ratio?
  {
    if total > 0 then Ratio(100 * count, total)
    else if count == 0 then NaN
    else PosInfinity
  }

  /** The sentinel record for images of different dimensions. */
  const DimensionMismatchOutcome := Outcome(-1, Ratio(-1, 1), true, None)

  /** The part of `compareWithPixelMatch` after both images are decoded. */
  function CompareImages(img1: Image, img2: Image, pm: PixelMatch): (o: Outcome)
    requires DefinedOnEqualSizes(pm)
    ensures o.dimensionMismatch <==> !SameSize(img1, img2)
    ensures o.dimensionMismatch ==> o == DimensionMismatchOutcome
    ensures !o.dimensionMismatch ==>
              && o.mismatchPixels == pm(img1, img2).count
              && o.mismatchPercentage == PercentOf(pm(img1, img2).count, img1.width * img1.height)
              && o.diffImage == Some(Image(img1.width, img1.height, pm(img1, img2).data))
  {
    if img1.width != img2.width || img1.height != img2.height then
      DimensionMismatchOutcome
    else
      var d := pm(img1, img2);
      Outcome(d.count, PercentOf(d.count, img1.width * img1.height), false,
              Some(Image(img1.width, img1.height, d.data)))
  }

  /**
    `compareWithPixelMatch(old, new, diffPath)`: a file that does not decode
    raises an exception, modelled as Err carrying that file (the old one is read first).
  */
  function CompareWithPixelMatch(oldFile: string, newFile: string, readOld: Decoder, readNew: Decoder,
                                 pm: PixelMatch): (r: Result<Outcome, string>)
    requires DefinedOnEqualSizes(pm)
    ensures r.Err? <==> readOld(oldFile).None? || readNew(newFile).None?
    ensures r.Err? ==> r.error == if readOld(oldFile).None? then oldFile else newFile
    ensures r.Ok? ==> r.value == CompareImages(readOld(oldFile).value, readNew(newFile).value, pm)
  {
    match readOld(oldFile)
    case None => Err(oldFile)
    case Some(img1) =>
      match readNew(newFile)
      case None => Err(newFile)
      case Some(img2) => Ok(CompareImages(img1, img2, pm))
  }

  /** Rows for images of different sizes carry the number -1, so they get the green badge. */
  lemma DimensionMismatchBadge(img1: Image, img2: Image, pm: PixelMatch)
    requires DefinedOnEqualSizes(pm) && !SameSize(img1, img2)
    ensures ColorClass(CompareImages(img1, img2, pm).mismatchPercentage) == Green
    ensures CompareImages(img1, img2, pm).diffImage.None?
  {
  }

  /**
    For images of equal, non-empty size the badge follows the mismatched share
    of the area: green below a fifth, orange from a fifth to below a half, red from a half.
  */
  lemma EqualSizeBadge(img1: Image, img2: Image, pm: PixelMatch)
    requires DefinedOnEqualSizes(pm) && SameSize(img1, img2) && img1.width * img1.height > 0
    ensures var c, area := pm(img1, img2).count, img1.width * img1.height;
            var b := ColorClass(CompareImages(img1, img2, pm).mismatchPercentage);
            && (b == Green <==> 5 * c < area)
            && (b == Orange <==> area <= 5 * c && 2 * c < area)
            && (b == Red <==> area <= 2 * c)
  {
  }

  /**
    A pair the primitive finds identical reports 0 mismatched pixels, a
    percentage of exactly 0, a diff image and the green badge.
  */
  lemma IdenticalPairOutcome(img1: Image, img2: Image, pm: PixelMatch)
    requires DefinedOnEqualSizes(pm) && SameSize(img1, img2) && img1.width * img1.height > 0
    requires pm(img1, img2).count == 0
    ensures var o := CompareImages(img1, img2, pm);
            && o.mismatchPixels == 0 && o.mismatchPercentage.Ratio? && o.mismatchPercentage.num == 0
            && o.diffImage.Some? && ColorClass(o.mismatchPercentage) == Green
  {
  }

  /** 100 mismatched pixels on a 100 by 100 image are 1 percent. */
  lemma TenByTenBlockIsOnePercent(img1: Image, img2: Image, pm: PixelMatch)
    requires DefinedOnEqualSizes(pm) && SameSize(img1, img2) && img1.width == 100 && img1.height == 100
    requires pm(img1, img2).count == 100
    ensures var p := CompareImages(img1, img2, pm).mismatchPercentage;
            p.Ratio? && p.num == p.den
  {
  }
}
