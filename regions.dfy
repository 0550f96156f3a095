/** Frames, rectangles and `getColorDistribution`, which samples a rectangle of a frame. */
module Regions {
  import opened Pixels
  import opened Histograms
  import opened ColorDistributions

  /** A `cv::Point`. */
  datatype Point = Point(x: int, y: int)

  /**
   * A `Mat` of `Vec3b` with `rows` rows and `cols` columns; `at[y][x]` is
   * `input.at<Vec3b>(y, x)`. The modelled code only reads frames.
   */
  datatype Image = Image(rows: nat, cols: nat, at: seq<seq<Pixel>>)
  {
    predicate Valid()
    {
      |at| == rows && forall y :: 0 <= y < rows ==> |at[y]| == cols
    }
  }

  /** The half-open rectangle `[pt1, pt2)` lies inside the frame and has positive area. */
  predicate InFrame(img: Image, pt1: Point, pt2: Point)
  {
    0 <= pt1.x < pt2.x <= img.cols && 0 <= pt1.y < pt2.y <= img.rows
  }

  /**
   * The pixels of rows `y1..y2` and columns `x1..x2` (both half-open) in the
   * order the sampling loops visit them: row by row, each row left to right.
   */
  function RegionPixels(img: Image, x1: int, x2: int, y1: int, y2: int): seq<Pixel>
    requires img.Valid() && 0 <= x1 <= x2 <= img.cols && 0 <= y1 <= y2 <= img.rows
    decreases y2 - y1
  {
    if y2 == y1 then [] else RegionPixels(img, x1, x2, y1, y2 - 1) + img.at[y2 - 1][x1..x2]
  }

  /** The region holds one pixel per position of the rectangle. */
  lemma {:induction false} RegionSize(img: Image, x1: int, x2: int, y1: int, y2: int)
    requires img.Valid() && 0 <= x1 <= x2 <= img.cols && 0 <= y1 <= y2 <= img.rows
    ensures |RegionPixels(img, x1, x2, y1, y2)| == (x2 - x1) * (y2 - y1)
    decreases y2 - y1
  {
    if y2 > y1 {
      RegionSize(img, x1, x2, y1, y2 - 1);
      assert (x2 - x1) * (y2 - y1) == (x2 - x1) * (y2 - 1 - y1) + (x2 - x1);
    }
  }

  /** A rectangle painted in one colour yields only that colour. */
  lemma {:induction false} UniformRegion(img: Image, x1: int, x2: int, y1: int, y2: int, c: Pixel)
    requires img.Valid() && 0 <= x1 <= x2 <= img.cols && 0 <= y1 <= y2 <= img.rows
    requires forall y, x :: y1 <= y < y2 && x1 <= x < x2 ==> img.at[y][x] == c
    ensures forall i :: 0 <= i < |RegionPixels(img, x1, x2, y1, y2)| ==> RegionPixels(img, x1, x2, y1, y2)[i] == c
    decreases y2 - y1
  {
    if y2 > y1 {
      UniformRegion(img, x1, x2, y1, y2 - 1, c);
    }
  }

  /** Two frames that agree on a rectangle give the same region samples. */
  lemma {:induction false} RegionsAgree(img: Image, other: Image, x1: int, x2: int, y1: int, y2: int)
    requires img.Valid() && other.Valid() && 0 <= x1 <= x2 <= img.cols && 0 <= y1 <= y2 <= img.rows
    requires x2 <= other.cols && y2 <= other.rows
    requires forall y, x :: y1 <= y < y2 && x1 <= x < x2 ==> img.at[y][x] == other.at[y][x]
    ensures RegionPixels(img, x1, x2, y1, y2) == RegionPixels(other, x1, x2, y1, y2)
    decreases y2 - y1
  {
    if y2 > y1 {
      RegionsAgree(img, other, x1, x2, y1, y2 - 1);
      assert img.at[y2 - 1][x1..x2] == other.at[y2 - 1][x1..x2];
    }
  }

  /** The normalised histogram of a rectangle: the value `getColorDistribution` returns. */
  function RegionHistogram(img: Image, pt1: Point, pt2: Point): Histogram
    requires img.Valid() && InFrame(img, pt1, pt2)
  {
    var ps := RegionPixels(img, pt1.x, pt2.x, pt1.y, pt2.y);
    RegionSize(img, pt1.x, pt2.x, pt1.y, pt2.y);
    Normalised(Counts(ps), |ps|)
  }

  /** Every sampled rectangle yields a probability mass function over the 512 cells. */
  lemma RegionIsDistribution(img: Image, pt1: Point, pt2: Point)
    requires img.Valid() && InFrame(img, pt1, pt2)
    ensures IsDistribution(RegionHistogram(img, pt1, pt2))
  {
    RegionSize(img, pt1.x, pt2.x, pt1.y, pt2.y);
    HistogramOfSamples(RegionPixels(img, pt1.x, pt2.x, pt1.y, pt2.y));
  }

  /** A rectangle of one uniform colour `c` has a single non-zero cell, the cell of `c`, equal to 1. */
  lemma UniformRegionHistogram(img: Image, pt1: Point, pt2: Point, c: Pixel)
    requires img.Valid() && InFrame(img, pt1, pt2)
    requires forall y, x :: pt1.y <= y < pt2.y && pt1.x <= x < pt2.x ==> img.at[y][x] == c
    ensures RegionHistogram(img, pt1, pt2) == Indicator(Bin(c))
  {
    RegionSize(img, pt1.x, pt2.x, pt1.y, pt2.y);
    UniformRegion(img, pt1.x, pt2.x, pt1.y, pt2.y, c);
    UniformSamples(RegionPixels(img, pt1.x, pt2.x, pt1.y, pt2.y), c);
  }

  /** `RegionHistogram` of `img` as a function of the two corners; a rectangle outside the frame gets the empty histogram. */
  function Sampler(img: Image): (Point, Point) -> Histogram
    requires img.Valid()
  {
    (pt1, pt2) => if InFrame(img, pt1, pt2) then RegionHistogram(img, pt1, pt2) else Empty()
  }

  /** Inside the frame, `Sampler` measures exactly `RegionHistogram`. */
  lemma SamplerAt(img: Image, pt1: Point, pt2: Point)
    requires img.Valid() && InFrame(img, pt1, pt2)
    ensures Sampler(img)(pt1, pt2) == RegionHistogram(img, pt1, pt2)
  {
  }

  /** The counts `base` once the pixels `row[x1..x]` have been added to them, left to right. */
  function RowCounts(base: Histogram, row: seq<Pixel>, x1: int, x: int): (h: Histogram)
    requires |base| == Cells && 0 <= x1 <= x <= |row|
    ensures |h| == Cells
    decreases x - x1
  {
    if x == x1 then base
    else
      var h := RowCounts(base, row, x1, x - 1);
      var p := Bin(row[x - 1]);
      h[p := h[p] + 1.0]
  }

  lemma IncrementEqual(h: Histogram, h': Histogram, p: nat)
    requires h == h' && p < |h|
    ensures h[p := h[p] + 1.0] == h'[p := h'[p] + 1.0]
  {
  }

  lemma AppendLast(done: seq<Pixel>, row: seq<Pixel>, x1: int, x: int)
    requires 0 <= x1 < x <= |row|
    ensures done + row[x1..x] == (done + row[x1..x - 1]) + [row[x - 1]]
  {
    assert row[x1..x] == row[x1..x - 1] + [row[x - 1]];
  }

  /** Adding a row's pixels one by one counts them after the samples already counted. */
  lemma {:induction false} RowCountsIsCounts(done: seq<Pixel>, row: seq<Pixel>, x1: int, x: int)
    requires 0 <= x1 <= x <= |row|
    ensures RowCounts(Counts(done), row, x1, x) == Counts(done + row[x1..x])
    decreases x - x1
  {
    if x == x1 {
      assert done + row[x1..x] == done;
    } else {
      RowCountsIsCounts(done, row, x1, x - 1);
      RowCountsStep(done, row, x1, x);
    }
  }

  /** One more pixel of the row: both sides increment the cell of `row[x - 1]`. */
  lemma RowCountsStep(done: seq<Pixel>, row: seq<Pixel>, x1: int, x: int)
    requires 0 <= x1 < x <= |row|
    requires RowCounts(Counts(done), row, x1, x - 1) == Counts(done + row[x1..x - 1])
    ensures RowCounts(Counts(done), row, x1, x) == Counts(done + row[x1..x])
  {
    var before, c := done + row[x1..x - 1], row[x - 1];
    AppendLast(done, row, x1, x);
    CountsSnoc(before, c);
    IncrementEqual(RowCounts(Counts(done), row, x1, x - 1), Counts(before), Bin(c));
  }


  /** The inner loop of `getColorDistribution`: adds the pixels `row[x1..x2]`, left to right. */
  method AddPixels(cd: ColorDistribution, row: seq<Pixel>, x1: int, x2: int)
    requires cd.Valid() && 0 <= x1 <= x2 <= |row|
    modifies cd`nb, cd.data
    ensures cd.Valid()
    ensures cd.nb == old(cd.nb) + (x2 - x1)
    ensures cd.data[..] == RowCounts(old(cd.data[..]), row, x1, x2)
  {
    for x := x1 to x2
      invariant cd.Valid()
      invariant cd.nb == old(cd.nb) + (x - x1)
      invariant cd.data[..] == RowCounts(old(cd.data[..]), row, x1, x)
    {
      cd.Add(row[x]);
    }
  }

  /** Adding row `y` of the rectangle to the counts of the rows above it gives the counts of rows `y1..y + 1`. */
  lemma RegionRowStep(input: Image, x1: int, x2: int, y1: int, y: int)
    requires input.Valid() && 0 <= x1 <= x2 <= input.cols && 0 <= y1 <= y < input.rows
    ensures |RegionPixels(input, x1, x2, y1, y + 1)| == |RegionPixels(input, x1, x2, y1, y)| + (x2 - x1)
    ensures RowCounts(Counts(RegionPixels(input, x1, x2, y1, y)), input.at[y], x1, x2)
         == Counts(RegionPixels(input, x1, x2, y1, y + 1))
  {
    RowCountsIsCounts(RegionPixels(input, x1, x2, y1, y), input.at[y], x1, x2);
  }

  /** The two loops of `getColorDistribution`: adds the pixels of `[pt1, pt2)` to an empty histogram, row by row. */
  method AddRegion(cd: ColorDistribution, input: Image, pt1: Point, pt2: Point)
    requires input.Valid() && InFrame(input, pt1, pt2)
    requires cd.Valid() && cd.nb == 0 && cd.data[..] == Empty()
    modifies cd`nb, cd.data
    ensures cd.Valid()
    ensures cd.nb == |RegionPixels(input, pt1.x, pt2.x, pt1.y, pt2.y)|
    ensures cd.data[..] == Counts(RegionPixels(input, pt1.x, pt2.x, pt1.y, pt2.y))
  {
    assert Counts(RegionPixels(input, pt1.x, pt2.x, pt1.y, pt1.y)) == Empty();
    for y := pt1.y to pt2.y
      invariant cd.Valid()
      invariant cd.nb == |RegionPixels(input, pt1.x, pt2.x, pt1.y, y)|
      invariant cd.data[..] == Counts(RegionPixels(input, pt1.x, pt2.x, pt1.y, y))
    {
      RegionRowStep(input, pt1.x, pt2.x, pt1.y, y);
      AddPixels(cd, input.at[y], pt1.x, pt2.x);
    }
  }

  /**
   * `getColorDistribution`: adds every pixel of `[pt1, pt2)` to a fresh
   * histogram, then normalises it.
   */
  method GetColorDistribution(input: Image, pt1: Point, pt2: Point) returns (cd: ColorDistribution)
    requires input.Valid() && InFrame(input, pt1, pt2)
    ensures fresh(cd) && fresh(cd.data) && cd.Valid()
    ensures cd.nb == (pt2.x - pt1.x) * (pt2.y - pt1.y)
    ensures cd.data[..] == RegionHistogram(input, pt1, pt2)
  {
    cd := new ColorDistribution();
    AddRegion(cd, input, pt1, pt2);
    ghost var ps := RegionPixels(input, pt1.x, pt2.x, pt1.y, pt2.y);
    RegionSize(input, pt1.x, pt2.x, pt1.y, pt2.y);
    cd.Finished();
    assert cd.data[..] == Normalised(Counts(ps), |ps|);
  }

  /** `getColorDistribution` when only the resulting histogram is kept, as the class store keeps it. */
  method SampleRegion(input: Image, pt1: Point, pt2: Point) returns (h: Histogram)
    requires input.Valid() && InFrame(input, pt1, pt2)
    ensures h == RegionHistogram(input, pt1, pt2)
    ensures IsDistribution(h)
  {
    var cd := GetColorDistribution(input, pt1, pt2);
    RegionIsDistribution(input, pt1, pt2);
    h := cd.data[..];
  }
}
