/** What the rasterisers share: points and 16-bit coordinates. */
module Pixels {
  type int16 = x: int | -0x8000 <= x < 0x8000

  datatype Point = Point(x: int, y: int)

  function Abs(a: int): (r: int) { if a < 0 then -a else a }

  function Max(a: int, b: int): (r: int) { if a < b then b else a }

  function Min(a: int, b: int): (r: int) { if a < b then a else b }
}
