/**
 * Nearest-prototype classification: `minDistance`, the scan over the classes
 * that `recoObject` and `groupBlocksAndLabel` share, and the two block
 * sweeps, which produce a grid of class labels.
 */
module Classifier {
  import opened Pixels
  import opened Histograms
  import opened ColorDistributions
  import opened Regions

  /** `FLT_MAX` (also `std::numeric_limits<float>::max()`): the starting minimum of every scan. */
  const FltMax: real := 340282346638528859811704183484516925440.0

  /** A prototype list whose histograms all have 512 cells. */
  predicate Shaped(hists: seq<Histogram>)
  {
    forall i :: 0 <= i < |hists| ==> |hists[i]| == Cells
  }

  predicate AllShaped(classes: seq<seq<Histogram>>)
  {
    forall i :: 0 <= i < |classes| ==> Shaped(classes[i])
  }

  /** A prototype list of normalised histograms, as sampling produces them. */
  ghost predicate Prototypes(hists: seq<Histogram>)
  {
    forall i :: 0 <= i < |hists| ==> IsDistribution(hists[i])
  }

  ghost predicate AllPrototypes(classes: seq<seq<Histogram>>)
  {
    forall i :: 0 <= i < |classes| ==> Prototypes(classes[i])
  }

  /** Appending normalised histograms to one class keeps every class a list of normalised prototypes. */
  lemma ExtendClass(classes: seq<seq<Histogram>>, k: int, extra: seq<Histogram>)
    requires AllShaped(classes) && AllPrototypes(classes) && 0 <= k < |classes| && Prototypes(extra)
    ensures AllShaped(classes[k := classes[k] + extra]) && AllPrototypes(classes[k := classes[k] + extra])
  {
    var grown := classes[k] + extra;
    assert forall i :: 0 <= i < |grown| ==> grown[i] == if i < |classes[k]| then classes[k][i] else extra[i - |classes[k]|];
  }

  // ---------------------------------------------------------------------
  // minDistance
  // ---------------------------------------------------------------------

  /** The running minimum of `minDistance` after scanning `hists` in order, starting from `FLT_MAX`. */
  function MinDist(h: Histogram, hists: seq<Histogram>): real
    requires |h| == Cells && Shaped(hists)
  {
    if hists == [] then FltMax
    else
      var m := MinDist(h, hists[..|hists| - 1]);
      var d := L1(h, hists[|hists| - 1]);
      if d < m then d else m
  }

  /**
   * The result of `minDistance` is at most every distance to a prototype and
   * at most `FLT_MAX`, and is either `FLT_MAX` or one of those distances; an
   * empty list gives `FLT_MAX`.
   */
  lemma {:induction false} MinDistIsMinimum(h: Histogram, hists: seq<Histogram>)
    requires |h| == Cells && Shaped(hists)
    ensures MinDist(h, hists) <= FltMax
    ensures forall i :: 0 <= i < |hists| ==> MinDist(h, hists) <= L1(h, hists[i])
    ensures MinDist(h, hists) == FltMax || exists i :: 0 <= i < |hists| && MinDist(h, hists) == L1(h, hists[i])
    ensures hists == [] ==> MinDist(h, hists) == FltMax
  {
    if hists != [] {
      var n := |hists|;
      var init := hists[..n - 1];
      MinDistIsMinimum(h, init);
      assert forall i :: 0 <= i < n - 1 ==> init[i] == hists[i];
      if MinDist(h, hists) != FltMax && MinDist(h, hists) != L1(h, hists[n - 1]) {
        var i :| 0 <= i < n - 1 && MinDist(h, init) == L1(h, init[i]);
        assert MinDist(h, hists) == L1(h, hists[i]);
      }
    }
  }

  /** Between normalised histograms, a non-empty prototype list gives a distance in [0, 2] that one prototype attains. */
  lemma MinDistOfPrototypes(h: Histogram, hists: seq<Histogram>)
    requires IsDistribution(h) && Prototypes(hists) && hists != []
    ensures 0.0 <= MinDist(h, hists) <= 2.0
    ensures exists i :: 0 <= i < |hists| && MinDist(h, hists) == L1(h, hists[i])
  {
    MinDistIsMinimum(h, hists);
    DistributionDistance(h, hists[0]);
    var i :| 0 <= i < |hists| && MinDist(h, hists) == L1(h, hists[i]);
  }

  /** `minDistance`: the loop over the prototype list. */
  method MinDistance(h: Histogram, hists: seq<Histogram>) returns (minDist: real)
    requires |h| == Cells && Shaped(hists)
    ensures minDist == MinDist(h, hists)
  {
    minDist := FltMax;
    for i := 0 to |hists|
      invariant minDist == MinDist(h, hists[..i])
    {
      var dist := Distance(h, hists[i]);
      assert hists[..i + 1][..i] == hists[..i];
      if dist < minDist {
        minDist := dist;
      }
    }
    assert hists[..|hists|] == hists;
  }

  // ---------------------------------------------------------------------
  // The scan over the classes
  // ---------------------------------------------------------------------

  /** The outcome of a scan over the classes: the winning class (-1 for none) and its distance. */
  datatype Match = Match(closest: int, dist: real)

  /**
   * The scan of `recoObject` and `groupBlocksAndLabel` after visiting
   * `classes` in order: a class replaces the current winner only when its
   * minimum distance is strictly smaller.
   */
  function Nearest(h: Histogram, classes: seq<seq<Histogram>>): Match
    requires |h| == Cells && AllShaped(classes)
  {
    if classes == [] then Match(-1, FltMax)
    else
      var best := Nearest(h, classes[..|classes| - 1]);
      var d := MinDist(h, classes[|classes| - 1]);
      if d < best.dist then Match(|classes| - 1, d) else best
  }

  /**
   * The label is the LOWEST index whose class attains the global minimum
   * distance; a class without prototypes never wins; -1 means no class came
   * below `FLT_MAX`.
   */
  lemma {:induction false} NearestIsFirstMinimum(h: Histogram, classes: seq<seq<Histogram>>)
    requires |h| == Cells && AllShaped(classes)
    ensures -1 <= Nearest(h, classes).closest < |classes|
    ensures forall j :: 0 <= j < |classes| ==> Nearest(h, classes).dist <= MinDist(h, classes[j])
    ensures forall j :: 0 <= j < Nearest(h, classes).closest ==> Nearest(h, classes).dist < MinDist(h, classes[j])
    ensures Nearest(h, classes).closest == -1 ==> Nearest(h, classes).dist == FltMax
    ensures Nearest(h, classes).closest >= 0 ==>
              var k := Nearest(h, classes).closest;
              Nearest(h, classes).dist == MinDist(h, classes[k]) < FltMax && classes[k] != []
  {
    if classes != [] {
      var n := |classes|;
      var init := classes[..n - 1];
      NearestIsFirstMinimum(h, init);
      assert forall j :: 0 <= j < n - 1 ==> init[j] == classes[j];
      var best := Nearest(h, init);
      var d := MinDist(h, classes[n - 1]);
      if d < best.dist {
        assert best.dist <= FltMax;
        assert classes[n - 1] == [] ==> d == FltMax;
      }
    }
  }

  /** With normalised prototypes, a block is left unlabelled exactly when every class is empty. */
  lemma UnlabelledIffNoPrototypes(h: Histogram, classes: seq<seq<Histogram>>)
    requires IsDistribution(h) && AllPrototypes(classes)
    ensures Nearest(h, classes).closest == -1 <==> forall j :: 0 <= j < |classes| ==> classes[j] == []
  {
    NearestIsFirstMinimum(h, classes);
    if Nearest(h, classes).closest == -1 {
      forall j | 0 <= j < |classes| ensures classes[j] == [] {
        if classes[j] != [] {
          MinDistOfPrototypes(h, classes[j]);
        }
      }
    }
  }

  /** The scan never ends below zero: every distance it compares is an L1 distance or `FLT_MAX`. */
  lemma MinDistNonNegative(h: Histogram, hists: seq<Histogram>)
    requires |h| == Cells && Shaped(hists)
    ensures MinDist(h, hists) >= 0.0
    ensures MinDist(h, hists) == 0.0 <==> h in hists
  {
    MinDistIsMinimum(h, hists);
    if MinDist(h, hists) != FltMax {
      var i :| 0 <= i < |hists| && MinDist(h, hists) == L1(h, hists[i]);
      L1ZeroIffEqual(h, hists[i]);
    }
    if h in hists {
      var i :| 0 <= i < |hists| && hists[i] == h;
      L1ZeroIffEqual(h, hists[i]);
    }
  }

  /**
   * A block whose histogram is itself a prototype of class `k`, and of no
   * earlier class, is labelled `k` at distance 0.
   */
  lemma ExactPrototypeWins(h: Histogram, classes: seq<seq<Histogram>>, k: int)
    requires |h| == Cells && AllShaped(classes)
    requires 0 <= k < |classes| && h in classes[k]
    requires forall j :: 0 <= j < k ==> h !in classes[j]
    ensures Nearest(h, classes) == Match(k, 0.0)
  {
    NearestIsFirstMinimum(h, classes);
    MinDistNonNegative(h, classes[k]);
    var m := Nearest(h, classes);
    assert m.closest >= 0;
    MinDistNonNegative(h, classes[m.closest]);
    if m.closest < k {
      assert false;
    }
  }

  /** The scan over the classes, shared by `recoObject` and `groupBlocksAndLabel`. */
  method ClosestClass(h: Histogram, allColHists: seq<seq<Histogram>>) returns (closestIndex: int, minDist: real)
    requires |h| == Cells && AllShaped(allColHists)
    ensures Match(closestIndex, minDist) == Nearest(h, allColHists)
  {
    closestIndex := -1;
    minDist := FltMax;
    for i := 0 to |allColHists|
      invariant Match(closestIndex, minDist) == Nearest(h, allColHists[..i])
    {
      var dist := MinDistance(h, allColHists[i]);
      assert allColHists[..i + 1][..i] == allColHists[..i];
      if dist < minDist {
        minDist := dist;
        closestIndex := i;
      }
    }
    assert allColHists[..|allColHists|] == allColHists;
  }

  // ---------------------------------------------------------------------
  // The block sweeps
  // ---------------------------------------------------------------------

  /** Block `k` of a sweep with stride `step` starts at `k * step`; it fits before `n` exactly when `k < n / step`. */
  lemma BlockFits(n: int, step: int, k: int)
    requires step > 0 && k >= 0
    ensures k < n / step <==> k * step + step <= n
  {
    var q := n / step;
    if k < q {
      assert k + 1 <= q;
      MulMonotone(k + 1, q, step);
      assert (k + 1) * step == k * step + step;
    } else {
      MulMonotone(q + 1, k + 1, step);
      assert (k + 1) * step == k * step + step;
      assert (q + 1) * step == q * step + step;
    }
  }

  lemma MulSucc(a: int, m: int)
    ensures (a + 1) * m == a * m + m
  {
  }

  lemma MulMonotone(a: int, b: int, m: nat)
    requires a <= b
    ensures a * m <= b * m
  {
    assert b * m == a * m + (b - a) * m;
  }

  /** The label of the bloc×bloc block whose top-left corner is (x, y). */
  function BlockLabel(input: Image, classes: seq<seq<Histogram>>, x: int, y: int, bloc: int): int
    requires input.Valid() && AllShaped(classes) && bloc > 0
    requires 0 <= x && x + bloc <= input.cols && 0 <= y && y + bloc <= input.rows
  {
    Nearest(RegionHistogram(input, Point(x, y), Point(x + bloc, y + bloc)), classes).closest
  }

  /** A block's label is -1 or the index of one of the classes. */
  lemma BlockLabelRange(input: Image, classes: seq<seq<Histogram>>, x: int, y: int, bloc: int)
    requires input.Valid() && AllShaped(classes) && bloc > 0
    requires 0 <= x && x + bloc <= input.cols && 0 <= y && y + bloc <= input.rows
    ensures -1 <= BlockLabel(input, classes, x, y, bloc) < |classes|
  {
    NearestIsFirstMinimum(RegionHistogram(input, Point(x, y), Point(x + bloc, y + bloc)), classes);
  }

  /** `BlockLabel` for every top-left corner (x, y); a block that leaves the frame gets -1. */
  function BlockLabels(input: Image, classes: seq<seq<Histogram>>, bloc: int): (labelAt: (int, int) -> int)
    requires input.Valid() && AllShaped(classes) && bloc > 0
    ensures forall x, y :: 0 <= x && x + bloc <= input.cols && 0 <= y && y + bloc <= input.rows ==>
              labelAt(x, y) == BlockLabel(input, classes, x, y, bloc)
  {
    (x, y) => if 0 <= x && x + bloc <= input.cols && 0 <= y && y + bloc <= input.rows
              then BlockLabel(input, classes, x, y, bloc) else -1
  }

  /**
   * The first `n` blocks of the sweep row at height `y` with stride `step`,
   * left to right: block `c` has its corner at x = c * step.
   */
  function SweepRow(labelAt: (int, int) -> int, step: int, y: int, n: int): seq<int>
  {
    if n <= 0 then [] else SweepRow(labelAt, step, y, n - 1) + [labelAt((n - 1) * step, y)]
  }

  /** The first `m` rows of a sweep with stride `step`, top to bottom, each of `n` blocks. */
  function SweepRows(labelAt: (int, int) -> int, step: int, n: int, m: int): seq<seq<int>>
  {
    if m <= 0 then [] else SweepRows(labelAt, step, n, m - 1) + [SweepRow(labelAt, step, (m - 1) * step, n)]
  }

  /**
   * The label grid of a sweep with stride `step` over the whole frame: the
   * `rows / step` rows of `cols / step` blocks that fit. `recoObject` is the
   * sweep with `step == bloc`; `groupBlocksAndLabel` the sweep with
   * `step == 4 * bloc`.
   */
  function Grid(input: Image, classes: seq<seq<Histogram>>, bloc: int, step: int): seq<seq<int>>
    requires input.Valid() && AllShaped(classes) && 0 < bloc <= step
  {
    SweepRows(BlockLabels(input, classes, bloc), step, input.cols / step, input.rows / step)
  }

  lemma {:induction false} SweepRowAt(labelAt: (int, int) -> int, step: int, y: int, n: nat, c: nat)
    requires c < n
    ensures |SweepRow(labelAt, step, y, n)| == n
    ensures SweepRow(labelAt, step, y, n)[c] == labelAt(c * step, y)
  {
    if c < n - 1 {
      SweepRowAt(labelAt, step, y, n - 1, c);
    } else {
      SweepRowLength(labelAt, step, y, n - 1);
    }
  }

  lemma {:induction false} SweepRowLength(labelAt: (int, int) -> int, step: int, y: int, n: nat)
    ensures |SweepRow(labelAt, step, y, n)| == n
  {
    if n > 0 {
      SweepRowLength(labelAt, step, y, n - 1);
    }
  }

  lemma {:induction false} SweepRowsAt(labelAt: (int, int) -> int, step: int, n: nat, m: nat, r: nat)
    requires r < m
    ensures |SweepRows(labelAt, step, n, m)| == m
    ensures SweepRows(labelAt, step, n, m)[r] == SweepRow(labelAt, step, r * step, n)
  {
    if r < m - 1 {
      SweepRowsAt(labelAt, step, n, m - 1, r);
    } else {
      SweepRowsLength(labelAt, step, n, m - 1);
    }
  }

  lemma {:induction false} SweepRowsLength(labelAt: (int, int) -> int, step: int, n: nat, m: nat)
    ensures |SweepRows(labelAt, step, n, m)| == m
  {
    if m > 0 {
      SweepRowsLength(labelAt, step, n, m - 1);
    }
  }

  /**
   * Sweep coverage: a sweep with stride `step` visits exactly the corners at
   * multiples of the stride whose block of side `step` fits in the frame,
   * `rows / step` rows of `cols / step` blocks each.
   */
  lemma SweepCoverage(labelAt: (int, int) -> int, rows: nat, cols: nat, step: int, r: nat, c: nat)
    requires step > 0
    ensures |SweepRows(labelAt, step, cols / step, rows / step)| == rows / step
    ensures r < rows / step <==> r * step + step <= rows
    ensures c < cols / step <==> c * step + step <= cols
    ensures r < rows / step && c < cols / step ==>
              |SweepRows(labelAt, step, cols / step, rows / step)[r]| == cols / step &&
              SweepRows(labelAt, step, cols / step, rows / step)[r][c] == labelAt(c * step, r * step)
  {
    SweepRowsLength(labelAt, step, cols / step, rows / step);
    BlockFits(rows, step, r);
    BlockFits(cols, step, c);
    if r < rows / step && c < cols / step {
      SweepRowsAt(labelAt, step, cols / step, rows / step, r);
      SweepRowAt(labelAt, step, r * step, cols / step, c);
    }
  }

  /** Grid shape: the label grid has `rows / step` rows of `cols / step` labels each. */
  lemma GridShape(input: Image, classes: seq<seq<Histogram>>, bloc: int, step: int)
    requires input.Valid() && AllShaped(classes) && 0 < bloc <= step
    ensures |Grid(input, classes, bloc, step)| == input.rows / step
    ensures forall r :: 0 <= r < input.rows / step ==> |Grid(input, classes, bloc, step)[r]| == input.cols / step
  {
    var labelAt := BlockLabels(input, classes, bloc);
    SweepRowsLength(labelAt, step, input.cols / step, input.rows / step);
    forall r | 0 <= r < input.rows / step
      ensures |Grid(input, classes, bloc, step)[r]| == input.cols / step
    {
      SweepRowsAt(labelAt, step, input.cols / step, input.rows / step, r);
      SweepRowLength(labelAt, step, r * step, input.cols / step);
    }
  }

  /**
   * Grid coverage: the label at row `r`, column `c` of the grid is that of
   * the bloc×bloc block whose top-left corner is (c * step, r * step), a
   * block that lies inside the frame.
   */
  lemma GridAt(input: Image, classes: seq<seq<Histogram>>, bloc: int, step: int, r: nat, c: nat)
    requires input.Valid() && AllShaped(classes) && 0 < bloc <= step
    requires r < input.rows / step && c < input.cols / step
    ensures r * step + step <= input.rows && c * step + step <= input.cols
    ensures |Grid(input, classes, bloc, step)| == input.rows / step
    ensures |Grid(input, classes, bloc, step)[r]| == input.cols / step
    ensures Grid(input, classes, bloc, step)[r][c] == BlockLabel(input, classes, c * step, r * step, bloc)
  {
    var labelAt := BlockLabels(input, classes, bloc);
    SweepCoverage(labelAt, input.rows, input.cols, step, r, c);
    MulMonotone(0, r, step);
    MulMonotone(0, c, step);
  }

  /** The loop guard of a sweep: with `k` blocks done at `k * step`, another fits exactly while `k < n / step`. */
  lemma SweepGuard(n: int, step: int, k: nat)
    requires step > 0
    ensures k * step <= n - step <==> k < n / step
    ensures (k + 1) * step == k * step + step
  {
    BlockFits(n, step, k);
  }

  lemma SweepEnd(n: int, step: int, k: nat)
    requires step > 0 && k * step <= n < k * step + step
    ensures k == n / step
  {
    BlockFits(n, step, k);
    if k > 0 {
      BlockFits(n, step, k - 1);
      MulSucc(k - 1, step);
    }
  }

  /** One row of `recoObject`'s sweep: the blocks at height `y`, left to right. */
  method RecoRow(input: Image, allColHists: seq<seq<Histogram>>, bloc: int, y: int) returns (row: seq<int>)
    requires input.Valid() && AllShaped(allColHists) && bloc > 0
    requires 0 <= y && y + bloc <= input.rows
    ensures row == SweepRow(BlockLabels(input, allColHists, bloc), bloc, y, input.cols / bloc)
  {
    var width := input.cols;
    ghost var labelAt := BlockLabels(input, allColHists, bloc);
    row := [];
    var x := 0;
    ghost var c: nat := 0;
    while x <= width - bloc
      invariant c <= width / bloc && x == c * bloc
      invariant row == SweepRow(labelAt, bloc, y, c)
      decreases width - x
    {
      SweepGuard(width, bloc, c);
      var h := SampleRegion(input, Point(x, y), Point(x + bloc, y + bloc));
      var closestIndex, minDist := ClosestClass(h, allColHists);
      row := row + [closestIndex];
      x := x + bloc;
      c := c + 1;
    }
    SweepGuard(width, bloc, c);
  }

  /**
   * `recoObject` (label grid only): every full bloc×bloc block, at x and y
   * multiples of `bloc`, is sampled and labelled with its nearest class;
   * a block whose label is -1 is the one left unpainted.
   */
  method RecoObject(input: Image, allColHists: seq<seq<Histogram>>, bloc: int) returns (labels: seq<seq<int>>)
    requires input.Valid() && AllShaped(allColHists) && bloc > 0
    ensures labels == Grid(input, allColHists, bloc, bloc)
  {
    var height := input.rows;
    ghost var labelAt := BlockLabels(input, allColHists, bloc);
    labels := [];
    var y := 0;
    ghost var r: nat := 0;
    while y <= height - bloc
      invariant r <= height / bloc && y == r * bloc
      invariant labels == SweepRows(labelAt, bloc, input.cols / bloc, r)
      decreases height - y
    {
      SweepGuard(height, bloc, r);
      var row := RecoRow(input, allColHists, bloc, y);
      labels := labels + [row];
      y := y + bloc;
      r := r + 1;
    }
    SweepGuard(height, bloc, r);
  }

  /**
   * The body of `groupBlocksAndLabel`'s sweep for the macro-block at (x, y):
   * the 16 sub-block histograms are computed, and the scan over the classes
   * is run on the first of them.
   */
  method GroupLabel(imgInput: Image, allColHists: seq<seq<Histogram>>, bloc: int, step: int, x: int, y: int) returns (groupLabel: int)
    requires imgInput.Valid() && AllShaped(allColHists) && bloc > 0 && step == bloc * 4
    requires 0 <= x && x + step <= imgInput.cols && 0 <= y && y + step <= imgInput.rows
    ensures groupLabel == BlockLabel(imgInput, allColHists, x, y, bloc)
  {
    var groupHists := GroupHistograms(imgInput, bloc, x, y);
    var minDist;
    groupLabel, minDist := ClosestClass(groupHists[0], allColHists);
  }

  /** One row of `groupBlocksAndLabel`'s sweep: the macro-blocks at height `y`, left to right. */
  method GroupRow(imgInput: Image, allColHists: seq<seq<Histogram>>, bloc: int, y: int) returns (row: seq<int>)
    requires imgInput.Valid() && AllShaped(allColHists) && bloc > 0
    requires 0 <= y && y + bloc * 4 <= imgInput.rows
    ensures row == SweepRow(BlockLabels(imgInput, allColHists, bloc), bloc * 4, y, imgInput.cols / (bloc * 4))
  {
    var step := bloc * 4;
    var width := imgInput.cols;
    ghost var labelAt := BlockLabels(imgInput, allColHists, bloc);
    row := [];
    var x := 0;
    ghost var c: nat := 0;
    while x <= width - step
      invariant 0 <= x <= width && x == c * step
      invariant row == SweepRow(labelAt, step, y, c)
      decreases width - x
    {
      SweepGuard(width, step, c);
      assert x + step <= width;
      assert x + bloc <= width && y + bloc <= imgInput.rows;
      var groupLabel := GroupLabel(imgInput, allColHists, bloc, step, x, y);
      assert groupLabel == labelAt(c * step, y);
      row := row + [groupLabel];
      x := x + step;
      c := c + 1;
    }
    SweepEnd(width, step, c);
  }

  /**
   * `groupBlocksAndLabel` (label grid only): every full 4bloc×4bloc
   * macro-block gets the histograms of its 16 sub-blocks, but its label is
   * decided by `groupHists[0]`, the top-left sub-block, alone.
   */
  method GroupBlocksAndLabel(imgInput: Image, allColHists: seq<seq<Histogram>>, bloc: int) returns (labels: seq<seq<int>>)
    requires imgInput.Valid() && AllShaped(allColHists) && bloc > 0
    ensures labels == Grid(imgInput, allColHists, bloc, bloc * 4)
  {
    var height := imgInput.rows;
    ghost var labelAt := BlockLabels(imgInput, allColHists, bloc);
    var step := bloc * 4;
    assert step > 0 by { SubBlockFits(bloc, 3); }
    labels := [];
    var y := 0;
    ghost var r: nat := 0;
    while y <= height - step
      invariant 0 <= y <= height && y == r * step
      invariant labels == SweepRows(labelAt, step, imgInput.cols / step, r)
      decreases height - y
    {
      SweepGuard(height, step, r);
      var row := GroupRow(imgInput, allColHists, bloc, y);
      labels := labels + [row];
      y := y + step;
      r := r + 1;
    }
    SweepEnd(height, step, r);
  }

  /** Sub-block `d` of a macro-block starts `d * bloc` in and ends inside the macro-block. */
  lemma SubBlockFits(bloc: int, d: int)
    requires bloc > 0 && 0 <= d < 4
    ensures 0 <= d * bloc && (d + 1) * bloc == d * bloc + bloc && d * bloc + bloc <= bloc * 4
  {
    MulMonotone(0, d, bloc);
    MulMonotone(d + 1, 4, bloc);
  }

  /** The histogram of sub-block `dx` across and `dy` down of the macro-block at (x, y). */
  function SubBlockHistogram(imgInput: Image, bloc: int, x: int, y: int, dx: int, dy: int): Histogram
    requires imgInput.Valid() && bloc > 0 && 0 <= dx < 4 && 0 <= dy < 4
    requires 0 <= x && x + bloc * 4 <= imgInput.cols && 0 <= y && y + bloc * 4 <= imgInput.rows
  {
    SubBlockFits(bloc, dx);
    SubBlockFits(bloc, dy);
    RegionHistogram(imgInput, Point(x + dx * bloc, y + dy * bloc), Point(x + (dx + 1) * bloc, y + (dy + 1) * bloc))
  }

  /** One row of a macro-block: the histograms of the 4 sub-blocks `dy` blocks down, left to right. */
  method SubBlockRow(imgInput: Image, bloc: int, x: int, y: int, dy: int) returns (rowHists: seq<Histogram>)
    requires imgInput.Valid() && bloc > 0 && 0 <= dy < 4
    requires 0 <= x && x + bloc * 4 <= imgInput.cols && 0 <= y && y + bloc * 4 <= imgInput.rows
    ensures |rowHists| == 4
    ensures forall dx :: 0 <= dx < 4 ==> rowHists[dx] == SubBlockHistogram(imgInput, bloc, x, y, dx, dy)
  {
    rowHists := [];
    SubBlockFits(bloc, dy);
    for dx := 0 to 4
      invariant |rowHists| == dx
      invariant forall dx' :: 0 <= dx' < dx ==> rowHists[dx'] == SubBlockHistogram(imgInput, bloc, x, y, dx', dy)
    {
      SubBlockFits(bloc, dx);
      var blockPt1 := Point(x + dx * bloc, y + dy * bloc);
      var blockPt2 := Point(x + (dx + 1) * bloc, y + (dy + 1) * bloc);
      var blockHist := SampleRegion(imgInput, blockPt1, blockPt2);
      rowHists := rowHists + [blockHist];
    }
  }

  /**
   * The 16 sub-block histograms of the macro-block at (x, y), row by row:
   * entry `dy * 4 + dx` is the sub-block `dx` blocks across and `dy` down.
   */
  method GroupHistograms(imgInput: Image, bloc: int, x: int, y: int) returns (groupHists: seq<Histogram>)
    requires imgInput.Valid() && bloc > 0
    requires 0 <= x && x + bloc * 4 <= imgInput.cols && 0 <= y && y + bloc * 4 <= imgInput.rows
    ensures |groupHists| == 16
    ensures forall dy, dx :: 0 <= dy < 4 && 0 <= dx < 4 ==> groupHists[dy * 4 + dx] == SubBlockHistogram(imgInput, bloc, x, y, dx, dy)
    ensures groupHists[0] == RegionHistogram(imgInput, Point(x, y), Point(x + bloc, y + bloc))
  {
    groupHists := [];
    for dy := 0 to 4
      invariant |groupHists| == dy * 4
      invariant forall dy', dx' :: 0 <= dy' < dy && 0 <= dx' < 4 ==>
                  groupHists[dy' * 4 + dx'] == SubBlockHistogram(imgInput, bloc, x, y, dx', dy')
    {
      var rowHists := SubBlockRow(imgInput, bloc, x, y, dy);
      groupHists := groupHists + rowHists;
    }
    assert groupHists[0 * 4 + 0] == SubBlockHistogram(imgInput, bloc, x, y, 0, 0);
  }


  // ---------------------------------------------------------------------
  // What the sweeps label
  // ---------------------------------------------------------------------

  /**
   * A block painted in one colour `c` is labelled with the first class that
   * holds the single-cell histogram of `c` as a prototype.
   */
  lemma UniformBlockLabel(input: Image, classes: seq<seq<Histogram>>, x: int, y: int, bloc: int, c: Pixel, k: int)
    requires input.Valid() && AllShaped(classes) && bloc > 0
    requires 0 <= x && x + bloc <= input.cols && 0 <= y && y + bloc <= input.rows
    requires forall yy, xx :: y <= yy < y + bloc && x <= xx < x + bloc ==> input.at[yy][xx] == c
    requires 0 <= k < |classes| && Indicator(Bin(c)) in classes[k]
    requires forall j :: 0 <= j < k ==> Indicator(Bin(c)) !in classes[j]
    ensures BlockLabel(input, classes, x, y, bloc) == k
  {
    UniformRegionHistogram(input, Point(x, y), Point(x + bloc, y + bloc), c);
    ExactPrototypeWins(Indicator(Bin(c)), classes, k);
  }

  /**
   * `groupBlocksAndLabel` gives each 4bloc×4bloc macro-block the label that
   * `recoObject` gives its top-left bloc×bloc block.
   */
  lemma GroupLabelIsTopLeftLabel(input: Image, classes: seq<seq<Histogram>>, bloc: int, r: nat, c: nat)
    requires input.Valid() && AllShaped(classes) && bloc > 0
    requires r < input.rows / (bloc * 4) && c < input.cols / (bloc * 4)
    ensures 4 * r < |Grid(input, classes, bloc, bloc)| && 4 * c < |Grid(input, classes, bloc, bloc)[4 * r]|
    ensures r < |Grid(input, classes, bloc, bloc * 4)| && c < |Grid(input, classes, bloc, bloc * 4)[r]|
    ensures Grid(input, classes, bloc, bloc * 4)[r][c] == Grid(input, classes, bloc, bloc)[4 * r][4 * c]
  {
    GridAt(input, classes, bloc, bloc * 4, r, c);
    FourStrides(r, bloc);
    FourStrides(c, bloc);
    BlockFits(input.rows, bloc, 4 * r);
    BlockFits(input.cols, bloc, 4 * c);
    GridAt(input, classes, bloc, bloc, 4 * r, 4 * c);
  }

  lemma FourStrides(k: int, bloc: int)
    ensures (4 * k) * bloc == k * (bloc * 4)
  {
  }

  /** An offset smaller than the stride survives `% step`. */
  lemma OffsetInStride(r: nat, step: int, d: int)
    requires 0 <= d < step
    ensures (r * step + d) % step == d
  {
    var n := r * step + d;
    var q := n / step;
    assert n == q * step + n % step;
    if q < r {
      MulMonotone(q + 1, r, step);
      assert false;
    } else if q > r {
      MulMonotone(r + 1, q, step);
      assert false;
    }
  }

  /**
   * `groupBlocksAndLabel` only looks at the top-left sub-block of each
   * macro-block: two frames of one size that agree on every pixel whose row
   * and column both lie in the first `bloc` of their macro-block stride get
   * the same label grid, whatever the other 15 sub-blocks hold.
   */
  lemma GroupGridSeesTopLeftOnly(input: Image, other: Image, classes: seq<seq<Histogram>>, bloc: int)
    requires input.Valid() && other.Valid() && AllShaped(classes) && bloc > 0
    requires input.rows == other.rows && input.cols == other.cols
    requires forall y, x ::
               (0 <= y < input.rows && 0 <= x < input.cols && y % (bloc * 4) < bloc && x % (bloc * 4) < bloc) ==>
               input.at[y][x] == other.at[y][x]
    ensures Grid(input, classes, bloc, bloc * 4) == Grid(other, classes, bloc, bloc * 4)
  {
    var step := bloc * 4;
    var g := Grid(input, classes, bloc, step);
    var g' := Grid(other, classes, bloc, step);
    GridShape(input, classes, bloc, step);
    GridShape(other, classes, bloc, step);
    forall r | 0 <= r < |g|
      ensures g[r] == g'[r]
    {
      forall c | 0 <= c < |g[r]|
        ensures g[r][c] == g'[r][c]
      {
        GridAt(input, classes, bloc, step, r, c);
        GridAt(other, classes, bloc, step, r, c);
        TopLeftBlocksAgree(input, other, classes, bloc, step, r, c);
      }
    }
  }

  /** The top-left sub-blocks of macro-block (r, c) are the same in two frames that agree on all top-left sub-blocks. */
  lemma TopLeftBlocksAgree(input: Image, other: Image, classes: seq<seq<Histogram>>, bloc: int, step: int, r: nat, c: nat)
    requires input.Valid() && other.Valid() && AllShaped(classes) && 0 < bloc <= step
    requires input.rows == other.rows && input.cols == other.cols
    requires forall y, x ::
               (0 <= y < input.rows && 0 <= x < input.cols && y % step < bloc && x % step < bloc) ==>
               input.at[y][x] == other.at[y][x]
    requires r * step + bloc <= input.rows && c * step + bloc <= input.cols
    ensures BlockLabel(input, classes, c * step, r * step, bloc) == BlockLabel(other, classes, c * step, r * step, bloc)
  {
    var x, y := c * step, r * step;
    MulMonotone(0, r, step);
    MulMonotone(0, c, step);
    forall yy, xx | y <= yy < y + bloc && x <= xx < x + bloc
      ensures input.at[yy][xx] == other.at[yy][xx]
    {
      OffsetInStride(r, step, yy - y);
      OffsetInStride(c, step, xx - x);
    }
    RegionsAgree(input, other, x, x + bloc, y, y + bloc);
  }


  /** `reco_bloc`: the block side `recoObject` is called with. */
  const RecoBloc: int := 16

  /** On the 640×480 frames the camera is set to, `recoObject` labels a grid of 30 rows of 40 blocks. */
  lemma RecoGridOnVga(input: Image, classes: seq<seq<Histogram>>)
    requires input.Valid() && AllShaped(classes) && input.rows == 480 && input.cols == 640
    ensures |Grid(input, classes, RecoBloc, RecoBloc)| == 30
    ensures forall r :: 0 <= r < |Grid(input, classes, RecoBloc, RecoBloc)| ==> |Grid(input, classes, RecoBloc, RecoBloc)[r]| == 40
  {
    assert 480 / 16 == 30 && 640 / 16 == 40;
    GridShape(input, classes, RecoBloc, RecoBloc);
  }

  /** On the same frames, a sweep in 64-pixel macro-blocks labels 7 rows of 10; the last 32 rows are never labelled. */
  lemma GroupGridOnVga(input: Image, classes: seq<seq<Histogram>>)
    requires input.Valid() && AllShaped(classes) && input.rows == 480 && input.cols == 640
    ensures |Grid(input, classes, RecoBloc, RecoBloc * 4)| == 7
    ensures forall r :: 0 <= r < |Grid(input, classes, RecoBloc, RecoBloc * 4)| ==> |Grid(input, classes, RecoBloc, RecoBloc * 4)[r]| == 10
  {
    assert 480 / 64 == 7 && 640 / 64 == 10;
    GridShape(input, classes, RecoBloc, RecoBloc * 4);
  }

}
