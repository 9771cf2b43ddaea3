/**
 The per-frame texture refresh of the application and the image it
 refreshes: the grid dimensions and rule parameters the automaton is built
 with, the zeroed RGBA8 image allocated at start-up, and the replacement of
 that image's bytes by the encoded cell states on every update.
 */
module Visualization {
  import opened Numeric
  import opened Colorizer
  import opened PixelBuffer

  /** Grid width and height, in cells (and texture pixels). */
  const W: u32 := 2048
  const H: u32 := 2048

  /** The cyclic automaton's state count. */
  const STATES: u32 := 6

  /** The ways the modelled code can abort. */
  datatype Panic =
    | DivideByZero      // `/ states` with `states == 0`
    | MultiplyOverflow  // the run-time `u32` image size out of range (overflow-checked build)

  datatype Outcome<+T> = Done(value: T) | Panicked(panic: Panic)

  /**
   The image data allocated at start-up: `w * h * 4` zero bytes, the size
   computed in `u32` from the grid's run-time dimensions; it panics exactly
   when that size does not fit.
   */
  function SetupImageData(w: u32, h: u32): (r: Outcome<seq<nat>>)
    ensures r.Done? <==> w * h * BYTES_PER_PIXEL < U32_MODULUS
    ensures r.Done? ==> |r.value| == w * h * BYTES_PER_PIXEL
    ensures r.Done? ==> forall j :: 0 <= j < |r.value| ==> r.value[j] == 0
    ensures r.Panicked? ==> r.panic == MultiplyOverflow
  {
    match CheckedMulU32(w, h)
    case None => Panicked(MultiplyOverflow)
    case Some(cells) =>
      match CheckedMulU32(cells, BYTES_PER_PIXEL)
      case None => Panicked(MultiplyOverflow)
      case Some(n) => Done(seq(n, _ => 0))
  }

  /**
   The texture data one update writes into the image, from the automaton's
   state count and its flat cell states. The grey mapping divides by
   `states`, so a zero state count panics, but only once a cell is coloured:
   an empty grid never divides. No other panic is possible in the
   pixel-buffer code (the asset lookups before it are not modelled): the `u32`
   product of a byte and 255 never overflows (`ProductFitsU32`, used by
   `Channel`). Otherwise the data is whole opaque grey pixels, one per cell,
   each the cell's floored grey level.
   */
  function UpdateVisualization(states: u32, cells: seq<nat>): (r: Outcome<seq<nat>>)
    ensures r.Panicked? <==> states == 0 && |cells| > 0
    ensures r.Panicked? ==> r.panic == DivideByZero
    ensures r.Done? ==> |r.value| == BYTES_PER_PIXEL * |cells| && OpaqueGrey(r.value)
    ensures r.Done? && states > 0 ==>
      forall i :: 0 <= i < |cells| ==> PixelAt(r.value, i) == Pixel(states, cells[i])
  {
    if |cells| == 0 then Done([])
    else if states == 0 then Panicked(DivideByZero)
    else
      EncodeOpaqueGrey(states, cells);
      Done(Encode(states, cells))
  }

  /**
   Whenever the image is allocated for a `w` by `h` grid, each update of that
   grid's cells writes data of exactly the allocated length.
   */
  lemma UpdateFitsImage(w: u32, h: u32, states: u32, cells: seq<nat>)
    requires states > 0
    requires |cells| == w * h
    requires SetupImageData(w, h).Done?
    ensures UpdateVisualization(states, cells).Done?
    ensures |UpdateVisualization(states, cells).value| == |SetupImageData(w, h).value|
  {
  }

  /**
   The shipped 2048 by 2048 grid fits `u32` arithmetic: the constant cell
   count `W * H` is 4194304 (a constant product that overflowed would not
   compile), the image is 16777216 bytes, and every update with the shipped
   state count fills the image exactly.
   */
  lemma ShippedImageFits(cells: seq<nat>)
    requires |cells| == W * H
    ensures W * H == 4194304 < U32_MODULUS
    ensures SetupImageData(W, H).Done? && |SetupImageData(W, H).value| == 16777216
    ensures UpdateVisualization(STATES, cells).Done?
    ensures |UpdateVisualization(STATES, cells).value| == |SetupImageData(W, H).value|
  {
    UpdateFitsImage(W, H, STATES, cells);
  }

  /** The six grey levels of the shipped automaton, state 0 to state 5. */
  lemma ShippedPalette()
    ensures [Channel(STATES, 0), Channel(STATES, 1), Channel(STATES, 2), Channel(STATES, 3), Channel(STATES, 4), Channel(STATES, 5)]
         == [0, 42, 85, 127, 170, 212]
  {
  }

  /**
   With the shipped six states, the texture of a grid of valid cells is a
   faithful picture of it: the cells can be read back from the image.
   */
  lemma ShippedTextureDeterminesGrid(cells: seq<nat>)
    requires ValidCells(STATES, cells)
    ensures UpdateVisualization(STATES, cells).Done?
    ensures Decode(STATES, UpdateVisualization(STATES, cells).value) == cells
  {
    if |cells| > 0 {
      DecodeEncode(STATES, cells);
    }
  }
}
