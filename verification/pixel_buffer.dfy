/**
 The RGBA8 texture data built from the automaton's flat, row-major cell
 states: each cell is coloured on its own and the four-byte pixels are
 concatenated in cell order (the `map`/`flat_map`/`collect` chain of
 `update_visualization`).
 */
module PixelBuffer {
  import opened Numeric
  import opened Colorizer

  /** Bytes per RGBA8 pixel. */
  const BYTES_PER_PIXEL: nat := 4

  /** Offset of the alpha byte inside a pixel. */
  const ALPHA: nat := 3

  /** The pixel of cell `i`: the four bytes starting at `4 * i`. */
  function PixelAt(buf: seq<nat>, i: nat): seq<nat>
    requires BYTES_PER_PIXEL * i + BYTES_PER_PIXEL <= |buf|
  {
    buf[BYTES_PER_PIXEL * i .. BYTES_PER_PIXEL * i + BYTES_PER_PIXEL]
  }

  /**
   The texture data for `cells`: exactly four bytes per cell, and pixel `i`
   is the colour of cell `i`, so pixels appear in cell order and each
   depends on its own cell only.
   */
  function Encode(states: u32, cells: seq<nat>): (buf: seq<nat>)
    requires states > 0
    ensures |buf| == BYTES_PER_PIXEL * |cells|
    ensures forall i :: 0 <= i < |cells| ==> PixelAt(buf, i) == Pixel(states, cells[i])
  {
    if |cells| == 0 then []
    else
      var rest := Encode(states, cells[1..]);
      var buf := Pixel(states, cells[0]) + rest;
      assert forall i :: 1 <= i < |cells| ==> PixelAt(buf, i) == PixelAt(rest, i - 1) by {
        forall i | 1 <= i < |cells| {
          PixelAtAfter(Pixel(states, cells[0]), rest, 1, i);
        }
      }
      assert PixelAt(buf, 0) == Pixel(states, cells[0]);
      buf
  }

  /** A pixel lying in the first part of a concatenation is read from that part. */
  lemma PixelAtBefore(a: seq<nat>, b: seq<nat>, i: nat)
    requires BYTES_PER_PIXEL * i + BYTES_PER_PIXEL <= |a|
    ensures PixelAt(a + b, i) == PixelAt(a, i)
  {
    var lo := BYTES_PER_PIXEL * i;
    assert (a + b)[lo .. lo + BYTES_PER_PIXEL] == a[lo .. lo + BYTES_PER_PIXEL];
  }

  /** A pixel lying after `m` whole pixels of a concatenation is read from the second part. */
  lemma PixelAtAfter(a: seq<nat>, b: seq<nat>, m: nat, i: nat)
    requires |a| == BYTES_PER_PIXEL * m
    requires m <= i
    requires BYTES_PER_PIXEL * i + BYTES_PER_PIXEL <= |a + b|
    ensures BYTES_PER_PIXEL * (i - m) + BYTES_PER_PIXEL <= |b|
    ensures PixelAt(a + b, i) == PixelAt(b, i - m)
  {
    var lo := BYTES_PER_PIXEL * i;
    var lo' := BYTES_PER_PIXEL * (i - m);
    assert lo' == lo - |a|;
    assert (a + b)[lo .. lo + BYTES_PER_PIXEL] == b[lo' .. lo' + BYTES_PER_PIXEL];
  }

  /** Byte `j` of a buffer is byte `j % 4` of pixel `j / 4`. */
  lemma ByteInPixel(buf: seq<nat>, j: nat)
    requires j < |buf|
    requires |buf| % BYTES_PER_PIXEL == 0
    ensures BYTES_PER_PIXEL * (j / BYTES_PER_PIXEL) + BYTES_PER_PIXEL <= |buf|
    ensures buf[j] == PixelAt(buf, j / BYTES_PER_PIXEL)[j % BYTES_PER_PIXEL]
  {
    var i, k := j / BYTES_PER_PIXEL, j % BYTES_PER_PIXEL;
    assert j == BYTES_PER_PIXEL * i + k;
    var n := |buf| / BYTES_PER_PIXEL;
    assert |buf| == BYTES_PER_PIXEL * n;
    MulCancelLess(BYTES_PER_PIXEL, i, n);
  }

  /**
   The bytes of an encoded buffer, one by one: the alpha byte of each pixel
   (`j % 4 == 3`) is 255, and R, G and B all carry the grey of cell `j / 4`.
   */
  lemma EncodeByte(states: u32, cells: seq<nat>, j: nat)
    requires states > 0
    requires j < BYTES_PER_PIXEL * |cells|
    ensures j / BYTES_PER_PIXEL < |cells|
    ensures Encode(states, cells)[j] ==
      if j % BYTES_PER_PIXEL == ALPHA then OPAQUE else Channel(states, cells[j / BYTES_PER_PIXEL])
  {
    var buf := Encode(states, cells);
    assert |buf| % BYTES_PER_PIXEL == 0;
    ByteInPixel(buf, j);
    MulCancelLess(BYTES_PER_PIXEL, j / BYTES_PER_PIXEL, |cells|);
  }

  /** Two buffers of `n` whole pixels that agree pixel by pixel are equal. */
  lemma PixelsDetermineBuffer(a: seq<nat>, b: seq<nat>, n: nat)
    requires |a| == |b| == BYTES_PER_PIXEL * n
    requires forall i :: 0 <= i < n ==> PixelAt(a, i) == PixelAt(b, i)
    ensures a == b
  {
    forall j | 0 <= j < |a|
      ensures a[j] == b[j]
    {
      ByteInPixel(a, j);
      ByteInPixel(b, j);
      MulCancelLess(BYTES_PER_PIXEL, j / BYTES_PER_PIXEL, n);
    }
  }

  /** Pixel `i` of `buf` is an opaque grey of byte values: R == G == B < 256 and alpha 255. */
  ghost predicate OpaqueGreyPixel(buf: seq<nat>, i: nat)
    requires BYTES_PER_PIXEL * i + BYTES_PER_PIXEL <= |buf|
  {
    var p := PixelAt(buf, i);
    p[0] == p[1] == p[2] < U8_MODULUS && p[ALPHA] == OPAQUE
  }

  /** A buffer of whole RGBA8 pixels, each an opaque grey. */
  ghost predicate OpaqueGrey(buf: seq<nat>)
  {
    && |buf| % BYTES_PER_PIXEL == 0
    && forall i: nat :: i < |buf| / BYTES_PER_PIXEL ==> OpaqueGreyPixel(buf, i)
  }

  /** Every encoded buffer is whole pixels, each an opaque grey of byte values. */
  lemma EncodeOpaqueGrey(states: u32, cells: seq<nat>)
    requires states > 0
    ensures OpaqueGrey(Encode(states, cells))
  {
    var buf := Encode(states, cells);
    assert |buf| / BYTES_PER_PIXEL == |cells|;
    forall i: nat | i < |cells|
      ensures OpaqueGreyPixel(buf, i)
    {
      assert PixelAt(buf, i) == Pixel(states, cells[i]);
    }
  }

  /**
   Encoding distributes over concatenation of cell sequences: the buffer of
   a grid is the buffers of its parts, in order.
   */
  lemma {:induction false} EncodeAppend(states: u32, a: seq<nat>, b: seq<nat>)
    requires states > 0
    ensures Encode(states, a + b) == Encode(states, a) + Encode(states, b)
  {
    if |a| == 0 {
      assert a + b == b;
    } else {
      assert (a + b)[1..] == a[1..] + b;
      EncodeAppend(states, a[1..], b);
    }
  }

  /**
   Changing cell `i` to state `s` repaints pixel `i` in the colour of `s`
   and leaves every other pixel as it was.
   */
  lemma EncodeUpdateLocal(states: u32, cells: seq<nat>, i: nat, s: nat)
    requires states > 0
    requires i < |cells|
    ensures |Encode(states, cells[i := s])| == |Encode(states, cells)|
    ensures PixelAt(Encode(states, cells[i := s]), i) == Pixel(states, s)
    ensures forall k :: 0 <= k < |cells| && k != i ==>
      PixelAt(Encode(states, cells[i := s]), k) == PixelAt(Encode(states, cells), k)
  {
  }

  /** The grey levels of a buffer of whole pixels: the red byte of each pixel. */
  function Greys(buf: seq<nat>): seq<nat>
    requires |buf| % BYTES_PER_PIXEL == 0
  {
    seq(|buf| / BYTES_PER_PIXEL, i requires 0 <= i < |buf| / BYTES_PER_PIXEL => buf[BYTES_PER_PIXEL * i])
  }

  /**
   Reads the cell states back from a buffer, inverting the grey scale pixel
   by pixel; meaningful for at most 255 states.
   */
  function Decode(states: u32, buf: seq<nat>): seq<nat>
    requires |buf| % BYTES_PER_PIXEL == 0
  {
    var g := Greys(buf);
    seq(|g|, i requires 0 <= i < |g| => StateOfChannel(states, g[i]))
  }

  /** Every cell holds a valid state, `[0, states)`. */
  ghost predicate ValidCells(states: nat, cells: seq<nat>)
  {
    forall i :: 0 <= i < |cells| ==> cells[i] < states
  }

  /** The grey levels of an encoded buffer are the cells' channels, in cell order. */
  lemma GreysOfEncode(states: u32, cells: seq<nat>)
    requires states > 0
    ensures |Encode(states, cells)| % BYTES_PER_PIXEL == 0
    ensures |Greys(Encode(states, cells))| == |cells|
    ensures forall i :: 0 <= i < |cells| ==> Greys(Encode(states, cells))[i] == Channel(states, cells[i])
  {
    var buf := Encode(states, cells);
    forall i | 0 <= i < |cells|
      ensures Greys(buf)[i] == Channel(states, cells[i])
    {
      assert buf[BYTES_PER_PIXEL * i] == PixelAt(buf, i)[0];
    }
  }

  /**
   With at most 255 states, the texture of a grid of valid cells determines
   the grid: decoding the encoded buffer gives back the cells.
   */
  lemma DecodeEncode(states: u32, cells: seq<nat>)
    requires 0 < states <= WHITE
    requires ValidCells(states, cells)
    ensures Decode(states, Encode(states, cells)) == cells
  {
    var buf := Encode(states, cells);
    GreysOfEncode(states, cells);
    forall i | 0 <= i < |cells|
      ensures Decode(states, buf)[i] == cells[i]
    {
      ChannelRoundTrip(states, cells[i]);
    }
  }

  /** With at most 255 states, two grids of valid cells with the same texture are the same grid. */
  lemma EncodeInjective(states: u32, a: seq<nat>, b: seq<nat>)
    requires 0 < states <= WHITE
    requires ValidCells(states, a) && ValidCells(states, b)
    requires Encode(states, a) == Encode(states, b)
    ensures a == b
  {
    DecodeEncode(states, a);
    DecodeEncode(states, b);
  }

  /**
   Builds the texture data cell by cell, appending one pixel per cell, as
   the iterator chain does; the result is the encoding of the cells.
   */
  method BuildTextureData(states: u32, cells: seq<nat>) returns (data: seq<nat>)
    requires states > 0
    ensures |data| == BYTES_PER_PIXEL * |cells|
    ensures forall i :: 0 <= i < |cells| ==> PixelAt(data, i) == Pixel(states, cells[i])
    ensures data == Encode(states, cells)
  {
    data := [];
    var n := 0;
    while n < |cells|
      invariant n <= |cells|
      invariant |data| == BYTES_PER_PIXEL * n
      invariant forall i :: 0 <= i < n ==> PixelAt(data, i) == Pixel(states, cells[i])
    {
      var next := data + Pixel(states, cells[n]);
      forall i | 0 <= i < n
        ensures PixelAt(next, i) == Pixel(states, cells[i])
      {
        PixelAtBefore(data, Pixel(states, cells[n]), i);
      }
      PixelAtAfter(data, Pixel(states, cells[n]), n, n);
      data := next;
      n := n + 1;
    }
    PixelsDetermineBuffer(data, Encode(states, cells), |cells|);
  }
}
