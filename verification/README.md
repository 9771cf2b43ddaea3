# natural — the state-to-pixel encoder, in Dafny

`natural` runs a cyclic cellular automaton on a 2048 × 2048 grid with six
states. After each generation it repaints a texture from the
grid. `update_visualization` reads the automaton's state count and its flat,
row-major cell states. It then builds the RGBA8 bytes that replace the
image data. This project models that encoder and the image it fills:

- `Numeric` (numeric.dfy): the `u32` values and the `as u8` casts, written
  out over unbounded naturals.
- `Colorizer` (colorizer.dfy): one cell's grey channel. The state is
  truncated to a byte, scaled by `v * 255 / states` with floor division,
  and truncated to a byte again. Each pixel is `[g, g, g, 255]`.
- `PixelBuffer` (pixel_buffer.dfy): the concatenation of the pixels in
  cell order (`Encode`), an imperative builder (`BuildTextureData`), and a
  decoder (`Decode`) that inverts the encoding when there are at most 255
  states and every cell holds a valid state, below the state count.
- `Visualization` (visualization.dfy): the grid constants, the zeroed
  image allocated at start-up, and one update, including the panics of
  its pixel-buffer code (src/main.rs:88-111).

The code floors the grey level. A rounding colouriser (`round(state * 255 /
states)`, halves rounded up) would give 73 instead of 72 for state 2 of 7,
for example. The model follows the code. `FloorWithinOneOfRound` bounds the
difference by one level, and `FloorDiffersFromRound` shows it at state 2 of
7, which is not a tie, so any rounding rule gives 73 there.

A zero state count makes the division panic. The map is lazy, so the panic
happens only when a cell is actually coloured. `UpdateVisualization`
therefore returns `Panicked(DivideByZero)` exactly when `states == 0` and
the grid is non-empty. `Encode` itself requires `states > 0`.

The state is truncated to its low byte before scaling. Above 256 states this
breaks the order of colours (`ManyStatesBreakOrder`). The shipped automaton
has six states, so monotonicity is stated for states that fit in a byte.

## Model

| member | source | states |
|---|---|---|
| Numeric.AsU8 | src/main.rs:96 | `as u8` gives a byte; a value below 256 is kept unchanged; the value and the result differ by a multiple of 256 |
| Numeric.AsU8Periodic | src/main.rs:96 | adding any multiple of 256 before the cast does not change the byte |
| Colorizer.Channel | src/main.rs:99-101 | the grey channel is a byte; when the truncated state `v` is below `states`, the channel is the largest `g` with `g * states <= v * 255` (floor, not rounding) |
| Colorizer.ScaledBelowWhite | src/main.rs:99 | for `v < states` the unwrapped quotient `v * 255 / states` is at most 254; the quotient brackets `v * 255` within one multiple of `states` |
| Colorizer.ProductFitsU32 | src/main.rs:99 | the `u32` product `v * 255` of a byte never overflows, so the division by zero is the only panic of lines 88-111 |
| Colorizer.ChannelNoWrap | src/main.rs:99-101 | if the truncated state is below `states`, the final `as u8` does not wrap and the channel is at most 254 |
| Colorizer.ChannelIgnoresHighBits | src/main.rs:96-101 | states that differ by a multiple of 256 get the same grey |
| Colorizer.ChannelMonotone | src/main.rs:99 | for a fixed state count, the grey does not decrease as the state rises through the valid states that fit in a byte |
| Colorizer.ChannelStrictlyMonotone | src/main.rs:99 | with at most 255 states, a higher valid state gets a strictly lighter grey |
| Colorizer.ChannelRoundTrip | src/main.rs:96-101 | with at most 255 states, `StateOfChannel` recovers every valid state from its grey |
| Colorizer.FloorWithinOneOfRound | src/main.rs:99 | the floored grey is at most one level below the rounded grey `round(v * 255 / states)`, and never above it |
| Colorizer.FloorDiffersFromRound | src/main.rs:99 | with seven states, state 2 floors to 72 where rounding (510 / 7 = 72.86, not a tie) gives 73 |
| Colorizer.InvalidStateWraps | src/main.rs:99-101 | a state outside `[0, states)` can wrap: with six states, state 7 scales to 297 and is shown as 41 |
| Colorizer.ManyStatesBreakOrder | src/main.rs:96-99 | with 300 states, state 255 is grey 216 but state 256 is truncated to byte 0 and is black |
| PixelBuffer.Encode | src/main.rs:92-105 | the buffer has exactly 4 bytes per cell, and the 4 bytes at offset `4 * i` are the pixel `[g, g, g, 255]` of cell `i`, so pixels follow cell order |
| PixelBuffer.EncodeByte | src/main.rs:97-104 | byte `j` of the buffer is 255 when `j % 4 == 3` and otherwise the grey of cell `j / 4` |
| PixelBuffer.EncodeOpaqueGrey | src/main.rs:97-104 | every encoded buffer is whole pixels of bytes, with R == G == B and alpha 255 |
| PixelBuffer.EncodeAppend | src/main.rs:92-105 | encoding the concatenation of two cell sequences gives the concatenation of their buffers, in order |
| PixelBuffer.EncodeUpdateLocal | src/main.rs:92-105 | changing cell `i` to state `s` repaints pixel `i` in the colour of `s` and leaves every other pixel unchanged |
| PixelBuffer.GreysOfEncode | src/main.rs:97-104 | the red bytes of the encoded buffer are the cells' greys, in cell order |
| PixelBuffer.DecodeEncode | src/main.rs:92-105 | with at most 255 states and valid cells, decoding the buffer gives back the cells |
| PixelBuffer.EncodeInjective | src/main.rs:92-105 | with at most 255 states, two grids of valid cells with the same buffer are equal |
| PixelBuffer.PixelsDetermineBuffer | src/main.rs:105 | two buffers of `n` whole pixels that agree pixel by pixel are the same bytes |
| PixelBuffer.BuildTextureData | src/main.rs:92-105 | the builder appends one pixel per cell and returns 4 bytes per cell, with pixel `i` the colour of cell `i`; its result equals `Encode` |
| Visualization.SetupImageData | src/main.rs:162-170 | the start-up image is `w * h * 4` zero bytes; it panics exactly when that `u32` size overflows |
| Visualization.UpdateVisualization | src/main.rs:88-111 | panics with division by zero iff `states == 0` and the grid is non-empty; otherwise writes 4 opaque grey bytes per cell, pixel `i` being cell `i`'s colour |
| Visualization.UpdateFitsImage | src/main.rs:170 | for a `w` by `h` grid whose image size fits `u32`, each update writes exactly as many bytes as the image was allocated with |
| Visualization.ShippedImageFits | src/main.rs:41-48 | the 2048 × 2048 grid has 4194304 cells, below 2^32, and a 16777216-byte image, and each update with six states fills that image exactly |
| Visualization.ShippedPalette | src/main.rs:44 | the six states are painted 0, 42, 85, 127, 170 and 212 |
| Visualization.ShippedTextureDeterminesGrid | src/main.rs:44 | with six states, the cells of a valid grid can be read back from the texture of one update |

## Left out

- The cyclic automaton rule, its threshold, the grid (`HyperGraphHeap::new_grid`), the initial fill (`DiscreteState::filled_vector`) and the GPU step come from the external `gpca` crate (src/main.rs:10-18, 47-50, 84). That source is not part of this model, so the cell states and the state count are parameters.
- The type of a cell state is defined in `gpca`. Any unsigned width truncates the same way under `as u8`, so cells are naturals.
- The Bevy wiring is left out: app and plugin setup, camera, light, mesh, material, and asset-handle lookups with their `unwrap`s (src/main.rs:56-66, 84, 86, 132-135, 138-212). It is framework state, not logic.
- The plane size `*w as f32 / 100.0` is floating-point arithmetic used only for display (src/main.rs:192-195).
- Commented-out code is not live behaviour (src/main.rs:68-72, 107, 109, 113-130).
- `create_gpu_device`, GPU resources and concurrency are out of scope (src/main.rs:208).
- Visualization.SetupImageData: the run-time `u32` size `*w * *h * 4` (src/main.rs:170) is modelled as panicking on overflow, which is how a build with overflow checks behaves. A release build would wrap instead. The shipped 2048 × 2048 size overflows in neither build.
- The grid's cell count `W * H` (src/main.rs:47) multiplies two `u32` constants. An overflow there is a compile-time error, not a run-time panic, so it is not modelled as a function. `ShippedImageFits` states that the shipped product fits.
