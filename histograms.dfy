/**
 * The value side of `ColorDistribution`: a 512-cell colour histogram, the
 * quantisation of a pixel to its cell, normalisation and the L1 distance.
 *
 * The C array `data[8][8][8]` is laid out row-major, so `data[i][j][k]` is
 * cell `i * 64 + j * 8 + k` of a flat sequence; `i` is the red level, `j`
 * the green level and `k` the blue level.
 */
module Histograms {
  import opened Pixels

  /** Quantisation levels per channel. */
  const Levels: nat := 8
  /** Number of cells, `8 * 8 * 8`. */
  const Cells: nat := 512

  type Histogram = seq<real>

  /** The level of one channel, `v / 32`: the 32-wide band that holds `v`. */
  function Level(v: byte): (q: nat)
    ensures q < Levels
    ensures q * 32 <= v as int < q * 32 + 32
  {
    v as int / 32
  }

  /** Position of `data[i][j][k]` in the flat layout. */
  function CellIndex(i: nat, j: nat, k: nat): (p: nat)
    requires i < Levels && j < Levels && k < Levels
    ensures p < Cells
  {
    i * 64 + j * 8 + k
  }

  /** Distinct index triples have distinct flat positions. */
  lemma CellIndexInjective(i: nat, j: nat, k: nat, i2: nat, j2: nat, k2: nat)
    requires i < Levels && j < Levels && k < Levels && i2 < Levels && j2 < Levels && k2 < Levels
    ensures CellIndex(i, j, k) == CellIndex(i2, j2, k2) <==> (i == i2 && j == j2 && k == k2)
  {
    assert 0 <= j * 8 + k < 64 && 0 <= j2 * 8 + k2 < 64;
    if i < i2 || i2 < i {
      assert CellIndex(i, j, k) != CellIndex(i2, j2, k2);
    } else if j < j2 || j2 < j {
      assert CellIndex(i, j, k) != CellIndex(i2, j2, k2);
    }
  }

  /** The cell `data[color[2]/32][color[1]/32][color[0]/32]` that `add` increments. */
  function Bin(c: Pixel): (p: nat)
    ensures p < Cells
  {
    CellIndex(Level(c.r), Level(c.g), Level(c.b))
  }

  /** Two colours share a cell exactly when each channel falls in the same band. */
  lemma SameBinIffSameLevels(c: Pixel, d: Pixel)
    ensures Bin(c) == Bin(d) <==> (Level(c.r) == Level(d.r) && Level(c.g) == Level(d.g) && Level(c.b) == Level(d.b))
  {
    CellIndexInjective(Level(c.r), Level(c.g), Level(c.b), Level(d.r), Level(d.g), Level(d.b));
  }

  /** The histogram after `reset`: every cell zero. */
  function Empty(): (h: Histogram)
    ensures |h| == Cells
  {
    seq(Cells, _ => 0.0)
  }

  /** The histogram with all its mass, 1.0, in cell `p`. */
  function Indicator(p: nat): (h: Histogram)
    requires p < Cells
    ensures |h| == Cells
  {
    Empty()[p := 1.0]
  }

  function Sum(s: seq<real>): real
  {
    if s == [] then 0.0 else Sum(s[..|s| - 1]) + s[|s| - 1]
  }

  function Abs(x: real): real
  {
    if x < 0.0 then -x else x
  }

  /** Sum of the absolute cell-by-cell differences: what `distance` accumulates. */
  function L1(a: seq<real>, b: seq<real>): (d: real)
    requires |a| == |b|
    ensures d >= 0.0
  {
    if a == [] then 0.0 else L1(a[..|a| - 1], b[..|b| - 1]) + Abs(a[|a| - 1] - b[|b| - 1])
  }

  /** Every cell divided by the sample count: what `finished` does to `data`. */
  function Normalised(s: seq<real>, n: int): (r: seq<real>)
    requires n > 0
    ensures |r| == |s|
  {
    seq(|s|, p requires 0 <= p < |s| => s[p] / n as real)
  }

  /** The histogram counts after `add` has been called once for each sample of `ps`, in order. */
  function Counts(ps: seq<Pixel>): (h: Histogram)
    ensures |h| == Cells
  {
    if |ps| == 0 then Empty()
    else
      var h := Counts(ps[..|ps| - 1]);
      var p := Bin(ps[|ps| - 1]);
      h[p := h[p] + 1.0]
  }

  /** Counting one more sample increments its cell. */
  lemma CountsSnoc(ps: seq<Pixel>, c: Pixel)
    ensures Counts(ps + [c]) == Counts(ps)[Bin(c) := Counts(ps)[Bin(c)] + 1.0]
  {
    assert (ps + [c])[..|ps|] == ps;
  }

  /** The cells the samples fall in, in order. */
  function Bins(ps: seq<Pixel>): (bs: seq<nat>)
    ensures |bs| == |ps|
  {
    seq(|ps|, i requires 0 <= i < |ps| => Bin(ps[i]))
  }

  /** A normalised histogram: 512 non-negative cells summing to 1. */
  ghost predicate IsDistribution(h: Histogram)
  {
    |h| == Cells && (forall p :: 0 <= p < Cells ==> h[p] >= 0.0) && Sum(h) == 1.0
  }

  ghost predicate NonNegative(s: seq<real>)
  {
    forall p :: 0 <= p < |s| ==> s[p] >= 0.0
  }

  // ---------------------------------------------------------------------
  // Counting
  // ---------------------------------------------------------------------

  /** Before normalisation, cell `p` holds the number of samples whose colour falls in it. */
  lemma {:induction false} CountsAreOccurrences(ps: seq<Pixel>, p: nat)
    requires p < Cells
    ensures Counts(ps)[p] == multiset(Bins(ps))[p] as real
  {
    if ps != [] {
      var init := ps[..|ps| - 1];
      CountsAreOccurrences(init, p);
      assert Bins(ps) == Bins(init) + [Bin(ps[|ps| - 1])];
    }
  }

  lemma {:induction false} SumOfZeros(n: nat)
    ensures Sum(seq(n, _ => 0.0)) == 0.0
  {
    if n > 0 {
      assert seq(n, _ => 0.0)[..n - 1] == seq(n - 1, _ => 0.0);
      SumOfZeros(n - 1);
    }
  }

  /** Replacing one cell changes the sum by the difference. */
  lemma {:induction false} SumUpdate(s: seq<real>, k: nat, v: real)
    requires k < |s|
    ensures Sum(s[k := v]) == Sum(s) - s[k] + v
  {
    var n := |s|;
    if k == n - 1 {
      assert s[k := v][..n - 1] == s[..n - 1];
    } else {
      assert s[k := v][..n - 1] == s[..n - 1][k := v];
      SumUpdate(s[..n - 1], k, v);
    }
  }

  /** Before normalisation the counts sum to the number of samples, `nb`. */
  lemma {:induction false} SumOfCounts(ps: seq<Pixel>)
    ensures Sum(Counts(ps)) == |ps| as real
  {
    if ps == [] {
      SumOfZeros(Cells);
      assert Counts(ps) == seq(Cells, _ => 0.0);
    } else {
      var init := ps[..|ps| - 1];
      var h := Counts(init);
      var p := Bin(ps[|ps| - 1]);
      assert Counts(ps) == h[p := h[p] + 1.0];
      SumOfCounts(init);
      SumUpdate(h, p, h[p] + 1.0);
    }
  }

  lemma CountsNonNegative(ps: seq<Pixel>)
    ensures NonNegative(Counts(ps))
  {
    forall p | 0 <= p < Cells ensures Counts(ps)[p] >= 0.0 {
      CountsAreOccurrences(ps, p);
    }
  }

  lemma {:induction false} SumNormalised(s: seq<real>, n: int)
    requires n > 0
    ensures Sum(Normalised(s, n)) == Sum(s) / n as real
  {
    if s != [] {
      var m := |s|;
      assert Normalised(s, n)[..m - 1] == Normalised(s[..m - 1], n);
      SumNormalised(s[..m - 1], n);
    }
  }

  lemma Quotient(x: real, n: real)
    requires n > 0.0
    ensures x >= 0.0 ==> x / n >= 0.0
    ensures x == 0.0 ==> x / n == 0.0
    ensures x == n ==> x / n == 1.0
  {
  }

  /** The histogram of a non-empty sample is a probability mass function over the 512 cells. */
  lemma HistogramOfSamples(ps: seq<Pixel>)
    requires |ps| > 0
    ensures IsDistribution(Normalised(Counts(ps), |ps|))
  {
    var counts, n := Counts(ps), |ps| as real;
    var h := Normalised(counts, |ps|);
    SumOfCounts(ps);
    SumNormalised(counts, |ps|);
    Quotient(n, n);
    CountsNonNegative(ps);
    forall p | 0 <= p < Cells ensures h[p] >= 0.0 {
      Quotient(counts[p], n);
    }
  }

  lemma {:induction false} UniformCounts(ps: seq<Pixel>, c: Pixel)
    requires forall i :: 0 <= i < |ps| ==> ps[i] == c
    ensures Counts(ps) == Empty()[Bin(c) := |ps| as real]
  {
    if ps != [] {
      var init := ps[..|ps| - 1];
      var p := Bin(c);
      UniformCounts(init, c);
      var h := Empty()[p := (|ps| - 1) as real];
      assert Counts(init) == h;
      assert ps[|ps| - 1] == c;
      assert Counts(ps) == h[p := h[p] + 1.0];
      assert h[p := h[p] + 1.0] == Empty()[p := |ps| as real];
    }
  }

  /** Samples of one uniform colour give a single non-zero cell, at that colour's cell, equal to 1. */
  lemma UniformSamples(ps: seq<Pixel>, c: Pixel)
    requires |ps| > 0
    requires forall i :: 0 <= i < |ps| ==> ps[i] == c
    ensures Normalised(Counts(ps), |ps|) == Indicator(Bin(c))
  {
    UniformCounts(ps, c);
    var h := Normalised(Counts(ps), |ps|);
    var n := |ps| as real;
    forall p | 0 <= p < Cells ensures h[p] == Indicator(Bin(c))[p] {
      Quotient(Counts(ps)[p], n);
    }
  }

  // ---------------------------------------------------------------------
  // The distance
  // ---------------------------------------------------------------------

  /** The distance accumulated over the first `n` cells, in the order the triple loop visits them. */
  function L1Upto(a: seq<real>, b: seq<real>, n: nat): real
    requires n <= |a| && n <= |b|
  {
    if n == 0 then 0.0 else L1Upto(a, b, n - 1) + Abs(a[n - 1] - b[n - 1])
  }

  lemma {:induction false} L1UptoPrefix(a: seq<real>, b: seq<real>, n: nat)
    requires |a| == |b| && n <= |a|
    ensures L1Upto(a, b, n) == L1(a[..n], b[..n])
  {
    if n > 0 {
      L1UptoPrefix(a, b, n - 1);
      assert a[..n][..n - 1] == a[..n - 1];
      assert b[..n][..n - 1] == b[..n - 1];
    }
  }

  /** The distance is zero exactly between identical histograms (`h.distance(h) == 0` among them). */
  lemma {:induction false} L1ZeroIffEqual(a: seq<real>, b: seq<real>)
    requires |a| == |b|
    ensures L1(a, b) == 0.0 <==> a == b
  {
    if a != [] {
      var n := |a|;
      L1ZeroIffEqual(a[..n - 1], b[..n - 1]);
      if a == b {
        assert a[..n - 1] == b[..n - 1];
      } else if a[..n - 1] == b[..n - 1] {
        assert a[n - 1] != b[n - 1] by {
          assert a == a[..n - 1] + [a[n - 1]] && b == b[..n - 1] + [b[n - 1]];
        }
      }
    }
  }

  lemma {:induction false} L1Symmetric(a: seq<real>, b: seq<real>)
    requires |a| == |b|
    ensures L1(a, b) == L1(b, a)
  {
    if a != [] {
      L1Symmetric(a[..|a| - 1], b[..|b| - 1]);
    }
  }

  lemma {:induction false} L1Triangle(a: seq<real>, b: seq<real>, c: seq<real>)
    requires |a| == |b| == |c|
    ensures L1(a, c) <= L1(a, b) + L1(b, c)
  {
    if a != [] {
      var n := |a|;
      L1Triangle(a[..n - 1], b[..n - 1], c[..n - 1]);
    }
  }

  lemma {:induction false} L1AtMostSums(a: seq<real>, b: seq<real>)
    requires |a| == |b| && NonNegative(a) && NonNegative(b)
    ensures L1(a, b) <= Sum(a) + Sum(b)
  {
    if a != [] {
      var n := |a|;
      L1AtMostSums(a[..n - 1], b[..n - 1]);
    }
  }

  /** Between two normalised histograms the distance lies in [0, 2]. */
  lemma DistributionDistance(a: Histogram, b: Histogram)
    requires IsDistribution(a) && IsDistribution(b)
    ensures 0.0 <= L1(a, b) <= 2.0
  {
    L1AtMostSums(a, b);
  }

  /** The triple loop of `distance`, over two histogram values. */
  method Distance(a: Histogram, b: Histogram) returns (dist: real)
    requires |a| == Cells && |b| == Cells
    ensures dist == L1(a, b)
  {
    dist := 0.0;
    for i := 0 to Levels
      invariant dist == L1Upto(a, b, i * 64)
    {
      for j := 0 to Levels
        invariant dist == L1Upto(a, b, i * 64 + j * 8)
      {
        for k := 0 to Levels
          invariant dist == L1Upto(a, b, i * 64 + j * 8 + k)
        {
          var p := CellIndex(i, j, k);
          dist := dist + Abs(a[p] - b[p]);
        }
      }
    }
    L1UptoPrefix(a, b, Cells);
    assert a[..Cells] == a && b[..Cells] == b;
  }
}
