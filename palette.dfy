/**
 * The display colours of the classes and `isSimilarToBackground`, the test
 * a new class colour must fail before it is accepted.
 */
module Palette {
  import opened Pixels

  /** `Vec3b(0, 0, 0)`, the colour of class 0. */
  const Black: Pixel := Pixel(0, 0, 0)
  /** `Vec3b(0, 0, 255)`: red, since channels are stored B, G, R; the colour of class 1. */
  const Red: Pixel := Pixel(0, 0, 255)
  const White: Pixel := Pixel(255, 255, 255)

  /** The threshold 50 on the colour distance, squared so that the test stays in integers. */
  const SimilarityBound: nat := 50 * 50

  /** Two colours closer than 50 in Euclidean distance. */
  predicate Similar(c: Pixel, e: Pixel)
  {
    SqDist(c, e) < SimilarityBound
  }

  /** Some colour of the table is similar to `c`. */
  predicate SimilarToAny(c: Pixel, colors: seq<Pixel>)
  {
    exists i :: 0 <= i < |colors| && Similar(c, colors[i])
  }

  /** No colour of the table is similar to an earlier one. */
  predicate Separated(colors: seq<Pixel>)
  {
    forall i, j :: 0 <= i < j < |colors| ==> !Similar(colors[j], colors[i])
  }

  /**
   * `isSimilarToBackground`: scans the table and answers true at the first
   * colour within distance 50 of `color`.
   */
  method IsSimilarToBackground(color: Pixel, existingColors: seq<Pixel>) returns (similar: bool)
    ensures similar <==> SimilarToAny(color, existingColors)
  {
    for i := 0 to |existingColors|
      invariant forall j :: 0 <= j < i ==> !Similar(color, existingColors[j])
    {
      if SqDist(color, existingColors[i]) < SimilarityBound {
        return true;
      }
    }
    return false;
  }

  /** The starting table is separated: black and red are 255 apart. */
  lemma InitialColorsSeparated()
    ensures Separated([Black, Red])
  {
    assert SqDist(Red, Black) == 255 * 255;
  }

  /** Appending a colour that is similar to none of the table keeps the table separated. */
  lemma AppendDissimilar(colors: seq<Pixel>, c: Pixel)
    requires Separated(colors) && !SimilarToAny(c, colors)
    ensures Separated(colors + [c])
  {
    var cs := colors + [c];
    forall i, j | 0 <= i < j < |cs|
      ensures !Similar(cs[j], cs[i])
    {
      if j == |colors| {
        assert cs[j] == c && cs[i] == colors[i];
      } else {
        assert cs[j] == colors[j] && cs[i] == colors[i];
      }
    }
  }

  // ---------------------------------------------------------------------
  // The test as written: `color - existing_color` on `Vec3b`
  // ---------------------------------------------------------------------

  /** `saturate_cast<uchar>(a - b)`: the difference of two channels, clamped at 0. */
  function SaturatingSub(a: byte, b: byte): (d: byte)
    ensures d as int == if a >= b then a as int - b as int else 0
  {
    if a >= b then a - b else 0
  }

  /** `color - existing_color` on two `Vec3b`: channel-wise saturating subtraction. */
  function SaturatedDiff(c: Pixel, e: Pixel): Pixel
  {
    Pixel(SaturatingSub(c.b, e.b), SaturatingSub(c.g, e.g), SaturatingSub(c.r, e.r))
  }

  /** The squared `cv::norm` of a `Vec3b`. */
  function SqNorm(p: Pixel): nat
  {
    Square(p.b as int) + Square(p.g as int) + Square(p.r as int)
  }

  /** The test `cv::norm(color - existing_color) < 50` as it is evaluated. */
  predicate SimilarAsWritten(c: Pixel, e: Pixel)
  {
    SqNorm(SaturatedDiff(c, e)) < SimilarityBound
  }

  predicate SimilarToAnyAsWritten(c: Pixel, colors: seq<Pixel>)
  {
    exists i :: 0 <= i < |colors| && SimilarAsWritten(c, colors[i])
  }

  /** Clamping a difference at 0 never increases its square. */
  lemma ClampedSquare(a: byte, b: byte)
    ensures Square(SaturatingSub(a, b) as int) <= Square(a as int - b as int)
  {
  }

  /**
   * The test as written accepts every pair the Euclidean test accepts: it
   * rejects at least as many candidates, so the colours it lets through are
   * still separated.
   */
  lemma SimilarImpliesSimilarAsWritten(c: Pixel, e: Pixel)
    ensures Similar(c, e) ==> SimilarAsWritten(c, e)
  {
    ClampedSquare(c.b, e.b);
    ClampedSquare(c.g, e.g);
    ClampedSquare(c.r, e.r);
  }

  /** A colour the test as written finds similar to none of the table is similar to none of it by distance either. */
  lemma DissimilarAsWrittenIsDissimilar(c: Pixel, colors: seq<Pixel>)
    requires !SimilarToAnyAsWritten(c, colors)
    ensures !SimilarToAny(c, colors)
  {
    forall i | 0 <= i < |colors|
      ensures !Similar(c, colors[i])
    {
      SimilarImpliesSimilarAsWritten(c, colors[i]);
    }
  }

  /** The table stays separated when it grows by a colour that passes the test as written. */
  lemma AppendDissimilarAsWritten(colors: seq<Pixel>, c: Pixel)
    requires Separated(colors) && !SimilarToAnyAsWritten(c, colors)
    ensures Separated(colors + [c])
  {
    DissimilarAsWrittenIsDissimilar(c, colors);
    AppendDissimilar(colors, c);
  }

  /**
   * With saturation, white is "similar" to every colour: each channel of
   * `c - white` clamps to 0, so a table holding white rejects every
   * candidate and the rejection loop of a new class never ends.
   */
  lemma WhiteAbsorbsEveryCandidate(c: Pixel, colors: seq<Pixel>)
    requires White in colors
    ensures SimilarToAnyAsWritten(c, colors)
  {
    var i :| 0 <= i < |colors| && colors[i] == White;
    assert SaturatedDiff(c, White) == Black;
  }

  /**
   * White itself passes the test as written against the starting table, so a
   * draw of white can become a class colour; the Euclidean test accepts a
   * candidate such as (128, 128, 128) next to white, which the test as
   * written rejects.
   */
  lemma WhiteReachableAsWritten()
    ensures !SimilarToAnyAsWritten(White, [Black, Red])
    ensures !SimilarToAny(Pixel(128, 128, 128), [Black, Red, White])
    ensures SimilarToAnyAsWritten(Pixel(128, 128, 128), [Black, Red, White])
  {
    var gray := Pixel(128, 128, 128);
    var table := [Black, Red, White];
    assert SqNorm(SaturatedDiff(White, Black)) == 3 * 255 * 255;
    assert SqNorm(SaturatedDiff(White, Red)) == 2 * 255 * 255;
    assert !Similar(gray, table[0]) by { assert SqDist(gray, Black) == 3 * 128 * 128; }
    assert !Similar(gray, table[1]) by { assert SqDist(gray, Red) == 2 * 128 * 128 + 127 * 127; }
    assert !Similar(gray, table[2]) by { assert SqDist(gray, White) == 3 * 127 * 127; }
    WhiteAbsorbsEveryCandidate(gray, table);
  }

  /**
   * Even on the starting table the test as written rejects colours far from
   * both black and red: against red, the red channel of `c - red` clamps to
   * 0, so every colour with little blue and green counts as "similar to red".
   */
  lemma RedShadowAsWritten()
    ensures SimilarAsWritten(Pixel(10, 10, 128), Red)
    ensures !SimilarToAny(Pixel(10, 10, 128), [Black, Red])
  {
    var c := Pixel(10, 10, 128);
    assert SaturatedDiff(c, Red) == Pixel(10, 10, 0);
    assert !Similar(c, [Black, Red][0]) by { assert SqDist(c, Black) == 100 + 100 + 128 * 128; }
    assert !Similar(c, [Black, Red][1]) by { assert SqDist(c, Red) == 100 + 100 + 127 * 127; }
  }
}
