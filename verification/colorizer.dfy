/**
 The per-cell colouring of `update_visualization`: a cell's state is cut to
 its low byte, scaled to a grey level by `v * 255 / states` with integer
 (floor) division, cut to a byte again, and replicated into an opaque RGBA8
 pixel.
 */
module Colorizer {
  import opened Numeric

  /** The alpha byte of every pixel: fully opaque. */
  const OPAQUE: nat := 255

  /**
   The top of the scale `v * 255 / states`, reached only when `v == states`:
   no valid state is painted white (see `ChannelNoWrap`).
   */
  const WHITE: nat := 255

  /** The grey level before the final `as u8`: `v * 255 / states`, floored. */
  function Scaled(states: u32, v: nat): nat
    requires states > 0
  {
    (v * WHITE) / states
  }

  /**
   The grey channel of a cell in state `s`. The result is a byte, and when
   the byte-truncated state `v` lies below `states` it is exactly the floor
   of `v * 255 / states`: the largest `g` with `g * states <= v * 255`.
   */
  function Channel(states: u32, s: nat): (g: nat)
    requires states > 0
    ensures g < U8_MODULUS
    ensures AsU8(s) < states ==> g * states <= AsU8(s) * WHITE < g * states + states
  {
    var v := AsU8(s);
    ProductFitsU32(s);
    ScaledBelowWhite(states, v);
    AsU8(Scaled(states, v))
  }

  /** One RGBA8 pixel: the grey channel three times, then the alpha byte. */
  function Pixel(states: u32, s: nat): seq<nat>
    requires states > 0
  {
    var g := Channel(states, s);
    [g, g, g, OPAQUE]
  }

  /**
   For a byte `v` below `states` the floored product stays below 255, so the
   final `as u8` never wraps; this also fixes the floor-division bracket.
   */
  lemma ScaledBelowWhite(states: u32, v: nat)
    requires states > 0
    ensures v < states ==> Scaled(states, v) < WHITE
    ensures Scaled(states, v) * states <= v * WHITE < Scaled(states, v) * states + states
  {
    var q := Scaled(states, v);
    assert v * WHITE == states * q + (v * WHITE) % states;
    if v < states {
      assert v * WHITE < states * WHITE;
      MulCancelLess(states, q, WHITE);
    }
  }

  /** The product `v as u32 * 255` of a byte never overflows 32 bits. */
  lemma ProductFitsU32(s: nat)
    ensures AsU8(s) * WHITE < U32_MODULUS
  {
    var v := AsU8(s);
    assert v * WHITE <= 255 * WHITE;
  }

  /**
   When the byte-truncated state is a valid state, the channel equals the
   unwrapped floor quotient, and it is at most 254.
   */
  lemma ChannelNoWrap(states: u32, s: nat)
    requires states > 0
    requires AsU8(s) < states
    ensures Channel(states, s) == Scaled(states, AsU8(s))
    ensures Channel(states, s) <= WHITE - 1
  {
    ScaledBelowWhite(states, AsU8(s));
  }

  /** Only the low byte of a state matters: states 256 apart share a colour. */
  lemma ChannelIgnoresHighBits(states: u32, s: nat, k: nat)
    requires states > 0
    ensures Channel(states, s + k * U8_MODULUS) == Channel(states, s)
  {
    AsU8Periodic(s, k);
  }

  /** Multiplying by a natural preserves `<=`. */
  lemma MulMonotone(d: nat, a: int, b: int)
    ensures a <= b ==> d * a <= d * b
  {
    assert d * b - d * a == d * (b - a);
  }

  /** A positive factor can be cancelled from a strict inequality. */
  lemma MulCancelLess(d: nat, a: int, b: int)
    requires d * a < d * b
    ensures a < b
  {
    MulMonotone(d, b, a);
  }

  /** Floor division by a positive divisor is monotone in the dividend. */
  lemma DivMonotone(x: nat, y: nat, d: nat)
    requires d > 0
    requires x <= y
    ensures x / d <= y / d
  {
    assert x == d * (x / d) + x % d;
    assert y == d * (y / d) + y % d;
    assert d * (y / d) + d == d * (y / d + 1);
    MulCancelLess(d, x / d, y / d + 1);
  }

  /**
   For a fixed state count, the grey level does not decrease as the state
   rises through the valid states that fit in a byte.
   */
  lemma ChannelMonotone(states: u32, a: nat, b: nat)
    requires states > 0
    requires a <= b < states
    requires b < U8_MODULUS
    ensures Channel(states, a) <= Channel(states, b)
  {
    ChannelNoWrap(states, a);
    ChannelNoWrap(states, b);
    assert a * WHITE <= b * WHITE;
    DivMonotone(a * WHITE, b * WHITE, states);
  }

  /**
   With at most 255 states, consecutive states are at least one grey level
   apart, so distinct valid states get distinct colours.
   */
  lemma ChannelStrictlyMonotone(states: u32, a: nat, b: nat)
    requires 0 < states <= WHITE
    requires a < b < states
    ensures Channel(states, a) < Channel(states, b)
  {
    ChannelNoWrap(states, a);
    ChannelNoWrap(states, b);
    var ga, gb := Scaled(states, a), Scaled(states, b);
    ScaledBelowWhite(states, a);
    ScaledBelowWhite(states, b);
    assert ga * states + states <= b * WHITE;
    assert states * ga < states * gb;
    MulCancelLess(states, ga, gb);
  }

  /**
   The inverse of the grey scale for at most 255 states: the least state
   whose colour reaches `g`, that is `g * states / 255` rounded up.
   */
  function StateOfChannel(states: u32, g: nat): nat
  {
    (g * states + (WHITE - 1)) / WHITE
  }

  /** With at most 255 states, the colour of a valid state determines it. */
  lemma ChannelRoundTrip(states: u32, s: nat)
    requires 0 < states <= WHITE
    requires s < states
    ensures StateOfChannel(states, Channel(states, s)) == s
  {
    ChannelNoWrap(states, s);
    var g := Channel(states, s);
    ScaledBelowWhite(states, s);
    assert g * states <= s * WHITE < g * states + states;
    var x := g * states + (WHITE - 1);
    assert s * WHITE <= x;
    assert x < s * WHITE + WHITE;
    DivBracket(x, s, WHITE);
  }

  /** `q` is the floor quotient of `x` by `d` when `q * d <= x < q * d + d`. */
  lemma DivBracket(x: nat, q: nat, d: nat)
    requires d > 0
    requires q * d <= x < q * d + d
    ensures x / d == q
  {
    var q' := x / d;
    assert x == d * q' + x % d;
    assert d * q' < d * (q + 1);
    assert d * q < d * (q' + 1);
    MulCancelLess(d, q', q + 1);
    MulCancelLess(d, q, q' + 1);
  }

  /**
   The grey level `round(v * 255 / states)` with halves rounded up: the
   reference formula of a rounding colouriser, which the code does not use.
   */
  function RoundedChannel(states: u32, v: nat): nat
    requires states > 0
  {
    (2 * v * WHITE + states) / (2 * states)
  }

  /**
   The code floors where a rounding colouriser would round: for every valid
   state the two grey levels differ by at most one, the floored one below.
   */
  lemma FloorWithinOneOfRound(states: u32, s: nat)
    requires states > 0
    requires s < states
    requires s < U8_MODULUS
    ensures Channel(states, s) <= RoundedChannel(states, s) <= Channel(states, s) + 1
  {
    ChannelNoWrap(states, s);
    var g := Channel(states, s);
    ScaledBelowWhite(states, s);
    var p := g * states;
    assert p <= s * WHITE < p + states;
    var d := 2 * states;
    var x := 2 * s * WHITE + states;
    assert d * g == 2 * p;
    assert d * (g + 2) == 2 * p + 4 * states;
    DivWithin(x, d, g, g + 2);
  }

  /** A dividend between `d * lo` and `d * hi` has its floor quotient in `[lo, hi)`. */
  lemma DivWithin(x: nat, d: nat, lo: nat, hi: nat)
    requires d > 0
    requires d * lo <= x < d * hi
    ensures lo <= x / d < hi
  {
    var q := x / d;
    assert x == d * q + x % d;
    assert d * lo < d * (q + 1);
    MulCancelLess(d, lo, q + 1);
    MulCancelLess(d, q, hi);
  }

  /**
   Floor and rounding differ even away from ties: with seven states, state 2
   scales to 510 / 7 = 72.86, which floors to 72 but rounds to 73.
   */
  lemma FloorDiffersFromRound()
    ensures Channel(7, 2) == 72
    ensures RoundedChannel(7, 2) == 73
  {
  }

  /** A cell state outside `[0, states)` can wrap: with 6 states, state 7 gives 297, shown as 41. */
  lemma InvalidStateWraps()
    ensures Scaled(6, 7) == 297
    ensures Channel(6, 7) == 41
  {
  }

  /**
   Above 256 states the byte truncation of the state breaks the order of
   colours: with 300 states, state 255 is grey 216 but state 256 is black.
   */
  lemma ManyStatesBreakOrder()
    ensures Channel(300, 255) == 216
    ensures Channel(300, 256) == 0
  {
  }
}
