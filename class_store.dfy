/**
 * The class store that `main`'s key commands update: the prototype lists
 * `all_col_hists` with the parallel colour table `colors`, and the two
 * working lists `col_hists` (background) and `col_hists_object`.
 */
module ClassStores {
  import opened Pixels
  import opened Histograms
  import opened ColorDistributions
  import opened Regions
  import opened Classifier
  import opened Palette

  /** The frame size the camera is set to: `width` and `height`. */
  const Width: int := 640
  const Height: int := 480
  /** `size`: the side of the target square in the middle of the frame. */
  const TargetSize: int := 50
  /** `bbloc`: the side of a background tile. */
  const BBloc: int := 128

  /** `pt1` and `pt2`, the corners of the target square. */
  const TargetPt1: Point := Point(Width / 2 - TargetSize / 2, Height / 2 - TargetSize / 2)
  const TargetPt2: Point := Point(Width / 2 + TargetSize / 2, Height / 2 + TargetSize / 2)

  /** A frame large enough for the target square. */
  predicate HoldsTarget(input: Image)
  {
    input.Valid() && InFrame(input, TargetPt1, TargetPt2)
  }

  /** A frame large enough for the background sweep: its last row of tiles ends at `(height / bbloc) * bbloc`, 384. */
  predicate HoldsTiles(input: Image)
  {
    input.Valid() && input.cols >= 640 && input.rows >= 384
  }

  /**
   * Where the loops of `'b'` stop: the last multiple of `bbloc` that a whole
   * tile still fits before, across (640) and down (384).
   */
  const SweptWidth: int := 640
  const SweptHeight: int := 384

  /** The histogram of the background tile whose top-left corner is (x, y), as `sample` measures it. */
  function Tile(sample: (Point, Point) -> Histogram, x: int, y: int): Histogram
  {
    sample(Point(x, y), Point(x + BBloc, y + BBloc))
  }

  /** The tiles of the row at height `y` that lie left of `x`, left to right. */
  function RowLeftOf(sample: (Point, Point) -> Histogram, y: int, x: int): seq<Histogram>
    decreases x
  {
    if x <= 0 then [] else RowLeftOf(sample, y, x - BBloc) + [Tile(sample, x - BBloc, y)]
  }

  /** The tiles of the rows above height `y`, row after row. */
  function TilesAbove(sample: (Point, Point) -> Histogram, y: int): seq<Histogram>
    decreases y
  {
    if y <= 0 then [] else TilesAbove(sample, y - BBloc) + RowLeftOf(sample, y - BBloc, SweptWidth)
  }

  /** The histograms the background sweep of `'b'` produces, in the order it produces them. */
  function BackgroundTiles(input: Image): seq<Histogram>
    requires input.Valid()
  {
    TilesAbove(Sampler(input), SweptHeight)
  }

  /** A row of the sweep holds five tiles, at x = 0, 128, …, 512. */
  lemma TileRowListed(sample: (Point, Point) -> Histogram, y: int)
    ensures |RowLeftOf(sample, y, SweptWidth)| == 5
    ensures forall c :: 0 <= c < 5 ==> RowLeftOf(sample, y, SweptWidth)[c] == Tile(sample, c * 128, y)
  {
    var row := [Tile(sample, 0, y), Tile(sample, 128, y), Tile(sample, 256, y), Tile(sample, 384, y), Tile(sample, 512, y)];
    assert RowLeftOf(sample, y, 0) == [];
    assert RowLeftOf(sample, y, 128) == row[..1];
    assert RowLeftOf(sample, y, 256) == row[..2];
    assert RowLeftOf(sample, y, 384) == row[..3];
    assert RowLeftOf(sample, y, 512) == row[..4];
    assert RowLeftOf(sample, y, SweptWidth) == row;
  }

  /** Entry `t` of the first three rows of the sweep is the tile at column `t % 5`, row `t / 5`. */
  lemma ThreeRowsAt(sample: (Point, Point) -> Histogram, t: int)
    requires 0 <= t < 15
    ensures var rows := RowLeftOf(sample, 0, SweptWidth) + RowLeftOf(sample, 128, SweptWidth) + RowLeftOf(sample, 256, SweptWidth);
            |rows| == 15 && rows[t] == Tile(sample, (t % 5) * 128, (t / 5) * 128)
  {
    var row0, row1, row2 := RowLeftOf(sample, 0, SweptWidth), RowLeftOf(sample, 128, SweptWidth), RowLeftOf(sample, 256, SweptWidth);
    TileRowListed(sample, 0);
    TileRowListed(sample, 128);
    TileRowListed(sample, 256);
    var r, c := t / 5, t % 5;
    assert t == 5 * r + c && 0 <= c < 5 && 0 <= r < 3;
    if r == 0 {
      assert (row0 + row1 + row2)[t] == row0[c];
    } else if r == 1 {
      assert (row0 + row1 + row2)[t] == row1[c];
    } else {
      assert (row0 + row1 + row2)[t] == row2[c];
    }
  }

  /** The sweep stops after three rows, so entry `t` is the tile at column `t % 5`, row `t / 5`. */
  lemma TilesAboveAt(sample: (Point, Point) -> Histogram, t: int)
    requires 0 <= t < 15
    ensures |TilesAbove(sample, SweptHeight)| == 15
    ensures TilesAbove(sample, SweptHeight)[t] == Tile(sample, (t % 5) * 128, (t / 5) * 128)
  {
    assert TilesAbove(sample, 128) == RowLeftOf(sample, 0, SweptWidth);
    assert TilesAbove(sample, 256) == RowLeftOf(sample, 0, SweptWidth) + RowLeftOf(sample, 128, SweptWidth);
    ThreeRowsAt(sample, t);
  }

  /** Tile `t` of the sweep is the normalised histogram of the 128×128 square at column `t % 5`, row `t / 5`. */
  lemma BackgroundTileAt(input: Image, t: int)
    requires HoldsTiles(input) && 0 <= t < 15
    ensures |BackgroundTiles(input)| == 15
    ensures var x, y := (t % 5) * 128, (t / 5) * 128;
            InFrame(input, Point(x, y), Point(x + BBloc, y + BBloc)) &&
            BackgroundTiles(input)[t] == RegionHistogram(input, Point(x, y), Point(x + BBloc, y + BBloc))
  {
    var col, row := t % 5, t / 5;
    assert 0 <= col < 5 && 0 <= row < 3;
    var x, y := col * 128, row * 128;
    assert 0 <= x <= 512 && 0 <= y <= 256;
    TilesAboveAt(Sampler(input), t);
    SamplerAt(input, Point(x, y), Point(x + BBloc, y + BBloc));
  }

  /**
   * The background sweep covers the 640×480 frame with the 15 tiles of
   * 128×128 that fit, five per row on three rows, in row-major order; the
   * bottom 96 rows are never sampled. Every tile is a normalised histogram.
   */
  lemma BackgroundTilesListed(input: Image)
    requires HoldsTiles(input)
    ensures |BackgroundTiles(input)| == 15
    ensures forall t :: 0 <= t < 15 ==>
              var x, y := (t % 5) * 128, (t / 5) * 128;
              InFrame(input, Point(x, y), Point(x + BBloc, y + BBloc)) &&
              BackgroundTiles(input)[t] == RegionHistogram(input, Point(x, y), Point(x + BBloc, y + BBloc))
    ensures Prototypes(BackgroundTiles(input))
  {
    var tiles := BackgroundTiles(input);
    BackgroundTileAt(input, 0);
    forall t | 0 <= t < 15
      ensures var x, y := (t % 5) * 128, (t / 5) * 128;
              InFrame(input, Point(x, y), Point(x + BBloc, y + BBloc)) &&
              tiles[t] == RegionHistogram(input, Point(x, y), Point(x + BBloc, y + BBloc))
      ensures IsDistribution(tiles[t])
    {
      BackgroundTileAt(input, t);
      var x, y := (t % 5) * 128, (t / 5) * 128;
      RegionIsDistribution(input, Point(x, y), Point(x + BBloc, y + BBloc));
    }
  }

  /** The index of the first draw that is similar to no colour of the table; `|draws|` if there is none. */
  function FirstDissimilar(draws: seq<Pixel>, colors: seq<Pixel>): nat
  {
    if draws == [] then 0
    else if !SimilarToAny(draws[0], colors) then 0
    else 1 + FirstDissimilar(draws[1..], colors)
  }

  /** `FirstDissimilar` finds the first acceptable draw, and only runs off the end when every draw is rejected. */
  lemma {:induction false} FirstDissimilarIsFirst(draws: seq<Pixel>, colors: seq<Pixel>)
    ensures FirstDissimilar(draws, colors) <= |draws|
    ensures forall j :: 0 <= j < FirstDissimilar(draws, colors) ==> SimilarToAny(draws[j], colors)
    ensures FirstDissimilar(draws, colors) < |draws| ==> !SimilarToAny(draws[FirstDissimilar(draws, colors)], colors)
  {
    if draws != [] && SimilarToAny(draws[0], colors) {
      FirstDissimilarIsFirst(draws[1..], colors);
      forall j | 0 < j < FirstDissimilar(draws, colors)
        ensures SimilarToAny(draws[j], colors)
      {
        assert draws[j] == draws[1..][j - 1];
      }
    }
  }

  /** An index where the draws first stop being rejected is `FirstDissimilar`. */
  lemma FirstDissimilarUnique(draws: seq<Pixel>, colors: seq<Pixel>, i: nat)
    requires i <= |draws|
    requires forall j :: 0 <= j < i ==> SimilarToAny(draws[j], colors)
    requires i < |draws| ==> !SimilarToAny(draws[i], colors)
    ensures FirstDissimilar(draws, colors) == i
  {
    FirstDissimilarIsFirst(draws, colors);
  }

  /** The index of the first draw that the test as written lets through; `|draws|` if there is none. */
  function FirstDissimilarAsWritten(draws: seq<Pixel>, colors: seq<Pixel>): nat
  {
    if draws == [] then 0
    else if !SimilarToAnyAsWritten(draws[0], colors) then 0
    else 1 + FirstDissimilarAsWritten(draws[1..], colors)
  }

  /**
   * The test as written rejects at least every draw the distance test
   * rejects, so the corrected loop stops no later than the loop as written,
   * and the colour the loop as written picks keeps the table separated.
   */
  lemma {:induction false} CorrectedStopsNoLater(draws: seq<Pixel>, colors: seq<Pixel>)
    ensures FirstDissimilar(draws, colors) <= FirstDissimilarAsWritten(draws, colors) <= |draws|
    ensures FirstDissimilarAsWritten(draws, colors) < |draws| ==>
              !SimilarToAny(draws[FirstDissimilarAsWritten(draws, colors)], colors)
  {
    if draws != [] {
      var rest := draws[1..];
      if !SimilarToAnyAsWritten(draws[0], colors) {
        DissimilarAsWrittenIsDissimilar(draws[0], colors);
        assert FirstDissimilar(draws, colors) == 0;
      } else {
        CorrectedStopsNoLater(rest, colors);
        var k := FirstDissimilarAsWritten(rest, colors);
        assert FirstDissimilarAsWritten(draws, colors) == k + 1;
        assert FirstDissimilar(draws, colors) <= 1 + FirstDissimilar(rest, colors);
        if k < |rest| {
          assert draws[k + 1] == rest[k];
        }
      }
    }
  }

  /** As written, the draw (10, 10, 128) is rejected against the starting table although it is far from black and red. */
  lemma RedShadowDraw()
    ensures FirstDissimilar([Pixel(10, 10, 128)], [Black, Red]) == 0
    ensures FirstDissimilarAsWritten([Pixel(10, 10, 128)], [Black, Red]) == 1
  {
    var table := [Black, Red];
    RedShadowAsWritten();
    assert SimilarAsWritten(Pixel(10, 10, 128), table[1]);
    assert [Pixel(10, 10, 128)][1..] == [];
  }

  /**
   * The rejection loop of `'n'`: draws candidate colours until one is
   * similar to no colour of the table, and answers its index, or `|draws|`
   * when the draws run out first.
   */
  method DrawColor(draws: seq<Pixel>, colors: seq<Pixel>) returns (i: nat)
    ensures i == FirstDissimilar(draws, colors)
  {
    i := 0;
    var found := false;
    while !found && i < |draws|
      invariant 0 <= i <= |draws|
      invariant forall j :: 0 <= j < i ==> SimilarToAny(draws[j], colors)
      invariant found ==> i < |draws| && !SimilarToAny(draws[i], colors)
      decreases |draws| - i, if found then 0 else 1
    {
      var similar := IsSimilarToBackground(draws[i], colors);
      if similar {
        i := i + 1;
      } else {
        found := true;
      }
    }
    FirstDissimilarUnique(draws, colors, i);
  }

  /** The inner loop of `'b'`: the tiles of the row at height `y`, left to right. */
  method SweepRow(input: Image, y: int) returns (row: seq<Histogram>)
    requires HoldsTiles(input) && 0 <= y <= SweptHeight - BBloc
    ensures row == RowLeftOf(Sampler(input), y, SweptWidth)
  {
    ghost var sample := Sampler(input);
    row := [];
    var x := 0;
    while x <= Width - BBloc
      invariant x in {0, 128, 256, 384, 512, 640}
      invariant row == RowLeftOf(sample, y, x)
      decreases Width - x
    {
      var blockHist := SampleRegion(input, Point(x, y), Point(x + BBloc, y + BBloc));
      SamplerAt(input, Point(x, y), Point(x + BBloc, y + BBloc));
      row := row + [blockHist];
      x := x + BBloc;
    }
  }

  /**
   * The loops of `'b'`: sample every 128×128 tile of the frame, row by row,
   * each row left to right, and answer the histograms in that order.
   */
  method SweepBackground(input: Image) returns (tiles: seq<Histogram>)
    requires HoldsTiles(input)
    ensures tiles == BackgroundTiles(input)
  {
    ghost var sample := Sampler(input);
    tiles := [];
    var y := 0;
    while y <= Height - BBloc
      invariant y in {0, 128, 256, 384}
      invariant tiles == TilesAbove(sample, y)
      decreases Height - y
    {
      var row := SweepRow(input, y);
      tiles := tiles + row;
      y := y + BBloc;
    }
  }

  /** The class store of `main`. */
  class ClassStore {
    /** `col_hists`: the background tiles of the last `'b'`. */
    var colHists: seq<Histogram>
    /** `col_hists_object`: the object sample of the last `'a'`. */
    var colHistsObject: seq<Histogram>
    /** `all_col_hists`: the prototype list of every class; class `i` is painted `colors[i]`. */
    var allColHists: seq<seq<Histogram>>
    /** `colors`: the display colour of every class. */
    var colors: seq<Pixel>

    /**
     * Every class has a colour (so `colors[closestIndex]` in `recoObject`
     * is in range), there are at least the two starting classes, every
     * prototype is a normalised histogram, and no colour is similar to an
     * earlier one.
     */
    ghost predicate Valid()
      reads this
    {
      |allColHists| == |colors| >= 2 &&
      AllShaped(allColHists) && AllPrototypes(allColHists) &&
      Prototypes(colHists) && Prototypes(colHistsObject) &&
      Separated(colors)
    }

    /** The state before any key: two empty classes, black and red. */
    constructor ()
      ensures Valid()
      ensures colHists == [] && colHistsObject == []
      ensures allColHists == [[], []] && colors == [Black, Red]
    {
      colHists := [];
      colHistsObject := [];
      allColHists := [[], []];
      colors := [Black, Red];
      InitialColorsSeparated();
    }

    /** `'c'`: clears both working lists and restores two empty classes coloured black and red. */
    method Reset()
      modifies this
      ensures Valid()
      ensures colHists == [] && colHistsObject == []
      ensures allColHists == [[], []] && colors == [Black, Red]
    {
      colHists := [];
      colHistsObject := [];
      allColHists := [[], []];
      colors := [Black, Red];
      InitialColorsSeparated();
    }

    /**
     * `'b'`: the background sweep. `col_hists` is cleared and receives the
     * 15 tiles, but class 0 keeps its old prototypes and receives the tiles
     * after them.
     */
    method CaptureBackground(input: Image)
      requires Valid() && HoldsTiles(input)
      modifies this
      ensures Valid()
      ensures colHists == BackgroundTiles(input)
      ensures allColHists == old(allColHists)[0 := old(allColHists)[0] + BackgroundTiles(input)]
      ensures colHistsObject == old(colHistsObject) && colors == old(colors)
    {
      var tiles := SweepBackground(input);
      BackgroundTilesListed(input);
      ExtendClass(allColHists, 0, tiles);
      colHists := tiles;
      allColHists := allColHists[0 := allColHists[0] + tiles];
    }

    /**
     * `'a'`: the target square is sampled; `col_hists_object` becomes that
     * one histogram, and so does class 0, whose background prototypes are
     * replaced.
     */
    method CaptureObject(input: Image)
      requires Valid() && HoldsTarget(input)
      modifies this
      ensures Valid()
      ensures colHistsObject == [RegionHistogram(input, TargetPt1, TargetPt2)]
      ensures allColHists == old(allColHists)[0 := [RegionHistogram(input, TargetPt1, TargetPt2)]]
      ensures colHists == old(colHists) && colors == old(colors)
    {
      var objectHist := SampleRegion(input, TargetPt1, TargetPt2);
      colHistsObject := [objectHist];
      allColHists := allColHists[0 := colHistsObject];
    }

    /**
     * `'n'`: the target square is sampled into a new class of one prototype,
     * and the class gets the first of the candidate colours `draws` that is
     * similar to no existing colour. When every draw is rejected the
     * rejection loop would still be running: nothing is added.
     */
    method AddClass(input: Image, draws: seq<Pixel>) returns (added: bool)
      requires Valid() && HoldsTarget(input)
      modifies this
      ensures Valid()
      ensures added <==> FirstDissimilar(draws, old(colors)) < |draws|
      ensures added ==> colors == old(colors) + [draws[FirstDissimilar(draws, old(colors))]]
      ensures added ==> allColHists == old(allColHists) + [[RegionHistogram(input, TargetPt1, TargetPt2)]]
      ensures !added ==> colors == old(colors) && allColHists == old(allColHists)
      ensures colHists == old(colHists) && colHistsObject == old(colHistsObject)
    {
      var newHist := SampleRegion(input, TargetPt1, TargetPt2);
      var i := DrawColor(draws, colors);
      FirstDissimilarIsFirst(draws, colors);
      if i == |draws| {
        return false;
      }
      AppendDissimilar(colors, draws[i]);
      allColHists := allColHists + [[newHist]];
      colors := colors + [draws[i]];
      added := true;
    }
  }

  /** Every label the sweeps produce over a valid store's classes is -1 or the index of a colour. */
  lemma LabelsHaveColors(input: Image, allColHists: seq<seq<Histogram>>, colors: seq<Pixel>, bloc: int, step: int, r: nat, c: nat)
    requires input.Valid() && AllShaped(allColHists) && |allColHists| == |colors| && 0 < bloc <= step
    requires r < input.rows / step && c < input.cols / step
    ensures r < |Grid(input, allColHists, bloc, step)| && c < |Grid(input, allColHists, bloc, step)[r]|
    ensures -1 <= Grid(input, allColHists, bloc, step)[r][c] < |colors|
  {
    GridAt(input, allColHists, bloc, step, r, c);
    MulMonotone(0, c, step);
    MulMonotone(0, r, step);
    BlockLabelRange(input, allColHists, c * step, r * step, bloc);
  }
}
