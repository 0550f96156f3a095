/** The `ColorDistribution` struct: a histogram that is filled, normalised and compared in place. */
module ColorDistributions {
  import opened Pixels
  import opened Histograms

  class ColorDistribution {
    /** `float data[8][8][8]`, flattened row-major. */
    var data: array<real>
    /** `int nb`: the number of samples added since the last reset. */
    var nb: int

    ghost predicate Valid()
      reads this
    {
      data.Length == Cells
    }

    /** The default constructor calls `reset`. */
    constructor ()
      ensures Valid() && fresh(data)
      ensures data[..] == Empty() && nb == 0
    {
      data := new real[Cells];
      nb := 0;
      new;
      Reset();
    }

    /** Zeroes every cell (the `fill` over the 512 floats) and the sample count. */
    method Reset()
      requires Valid()
      modifies this`nb, data
      ensures Valid()
      ensures data[..] == Empty() && nb == 0
    {
      for p := 0 to data.Length
        invariant forall q :: 0 <= q < p ==> data[q] == 0.0
      {
        data[p] := 0.0;
      }
      nb := 0;
    }

    /** Counts one sample in the cell of its colour; no other cell changes. */
    method Add(color: Pixel)
      requires Valid()
      modifies this`nb, data
      ensures Valid()
      ensures data[..] == old(data[..])[Bin(color) := old(data[Bin(color)]) + 1.0]
      ensures nb == old(nb) + 1
    {
      var rBin := Level(color.r);
      var gBin := Level(color.g);
      var bBin := Level(color.b);
      var p := CellIndex(rBin, gBin, bBin);
      data[p] := data[p] + 1.0;
      nb := nb + 1;
    }

    /** Divides every cell by the sample count, in the triple loop over the three levels. */
    method Finished()
      requires Valid() && nb > 0
      modifies data
      ensures Valid()
      ensures data[..] == Normalised(old(data[..]), nb)
    {
      var n := nb as real;
      for i := 0 to Levels
        invariant forall q :: 0 <= q < i * 64 ==> data[q] == old(data[q]) / n
        invariant forall q :: i * 64 <= q < Cells ==> data[q] == old(data[q])
      {
        for j := 0 to Levels
          invariant forall q :: 0 <= q < i * 64 + j * 8 ==> data[q] == old(data[q]) / n
          invariant forall q :: i * 64 + j * 8 <= q < Cells ==> data[q] == old(data[q])
        {
          for k := 0 to Levels
            invariant forall q :: 0 <= q < i * 64 + j * 8 + k ==> data[q] == old(data[q]) / n
            invariant forall q :: i * 64 + j * 8 + k <= q < Cells ==> data[q] == old(data[q])
          {
            var p := CellIndex(i, j, k);
            data[p] := data[p] / n;
          }
        }
      }
    }

    /** `distance`: the L1 distance between this histogram and `other` (which may be this one). */
    method Distance(other: ColorDistribution) returns (dist: real)
      requires Valid() && other.Valid()
      ensures dist == L1(data[..], other.data[..])
    {
      dist := Histograms.Distance(data[..], other.data[..]);
    }
  }
}
