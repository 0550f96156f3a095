/** Pixels of an 8-bit, 3-channel OpenCV image (`Vec3b`). */
module Pixels {

  /** One 8-bit channel value (`uchar`). */
  newtype byte = x: int | 0 <= x < 256

  /** A `Vec3b`. OpenCV keeps channels in B, G, R order: `color[0]` is blue, `color[2]` is red. */
  datatype Pixel = Pixel(b: byte, g: byte, r: byte)

  function Square(x: int): (s: nat)
  {
    x * x
  }

  /** Squared Euclidean distance between two colours, in integer arithmetic. */
  function SqDist(c: Pixel, e: Pixel): (d: nat)
    ensures d == 0 <==> c == e
  {
    Square(c.b as int - e.b as int) + Square(c.g as int - e.g as int) + Square(c.r as int - e.r as int)
  }
}
