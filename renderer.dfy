/** The integer arithmetic of the renderer (src/renderer.ts): rounding a
    texture stride, fitting the canvas to the field, cycling colour schemes
    and rotating the dither offset. */
module Render {
  import opened Numeric
  import opened Fields

  /** toMultipleOfFour as written: round n up to an integer, then add 4 minus
      JavaScript's remainder, which is negative for a negative dividend. */
  function ToMultipleOfFour(n: real): (r: int)
    ensures r % 4 == 0
    ensures n <= r as real < n + 8.0
  {
    var m := Ceil(n);
    var r := JsRem(m, 4);
    if r != 0 then m + 4 - r else m
  }

  /** For every n > -1 (every width the renderer passes) the result is the
      smallest multiple of 4 that is at least n. */
  lemma ToMultipleOfFourSmallest(n: real)
    requires n > -1.0
    ensures ToMultipleOfFour(n) % 4 == 0
    ensures n <= ToMultipleOfFour(n) as real < n + 4.0
  {
  }

  /** A multiple of 4, of either sign, is returned unchanged. */
  lemma ToMultipleOfFourIdempotent(k: int)
    requires k % 4 == 0
    ensures ToMultipleOfFour(k as real) == k
  {
    assert Ceil(k as real) == k;
  }

  /** When Ceil(n) is negative and not a multiple of 4, the truncating
      remainder makes the result 4 too large: for -1 it gives 4 although 0 is
      the smallest multiple of 4 at or above -1. */
  lemma ToMultipleOfFourOvershoots()
    ensures ToMultipleOfFour(-1.0) == 4
    ensures RoundUpToMultipleOfFour(-1.0) == 0
  {
    assert Ceil(-1.0) == -1;
  }

  /** The rounding the function's documentation describes, for every n. */
  function RoundUpToMultipleOfFour(n: real): (r: int)
    ensures r % 4 == 0
    ensures n <= r as real < n + 4.0
  {
    var m := Ceil(n);
    m + (4 - m % 4) % 4
  }

  /** Exactly where the code as written departs from the documented rounding:
      it is 4 too large when Ceil(n) is negative and not a multiple of 4, and
      agrees everywhere else. */
  lemma ToMultipleOfFourExtent(n: real)
    ensures ToMultipleOfFour(n) ==
      RoundUpToMultipleOfFour(n) + (if Ceil(n) < 0 && Ceil(n) % 4 != 0 then 4 else 0)
  {
  }

  // ---------------------------------------------------------------------------
  // Canvas fitting

  /** Pixel counts per cell at which the next scale starts. */
  const ScaleBreakPoints: seq<int> := [0, 6, 21, 36, MaxSafeInteger]

  /** The triple [width, height, scale] bestFit returns; NaNFit stands for
      [NaN, NaN, 0], what a canvas smaller than one pixel per cell yields
      (the cell size computes 0 % 0). */
  datatype CanvasFit = Fit(width: int, height: int, scale: nat) | NaNFit

  /** Math.floor(Math.min(w / 32, h / 16)) for integer canvas sizes: the
      floor of the smaller ratio is the smaller of the floors. */
  function MaxPixelsPerCell(availableWidth: nat, availableHeight: nat): nat {
    Min(availableWidth / Width, availableHeight / Height)
  }

  lemma RoundDownToScale(m: nat, s: nat)
    requires 1 <= s <= |ScaleBreakPoints|
    ensures (m - m % s) % s == 0 && m - s < m - m % s <= m
  {
  }

  /** Renderer.bestFit: scale is the first index whose break point is not
      below the pixel count per cell (1..4 for any real canvas); the cell size
      is that pixel count rounded down to a multiple of the scale, and the
      canvas it gives fits the available space. */
  method BestFit(availableWidth: nat, availableHeight: nat) returns (fit: CanvasFit)
    ensures var m := MaxPixelsPerCell(availableWidth, availableHeight);
      && (fit.NaNFit? <==> m == 0)
      && (fit.Fit? ==>
        && 1 <= fit.scale <= |ScaleBreakPoints|
        && (forall k :: 0 <= k < fit.scale ==> ScaleBreakPoints[k] < m)
        && (fit.scale < |ScaleBreakPoints| ==> m <= ScaleBreakPoints[fit.scale])
        && (m <= MaxSafeInteger ==> fit.scale <= 4)
        && fit.width % Width == 0
        && fit.height == Height * (fit.width / Width)
        && (fit.width / Width) % fit.scale == 0
        && fit.width / Width <= m < fit.width / Width + fit.scale
        && fit.width <= availableWidth && fit.height <= availableHeight)
  {
    var maxPixelsPerCell := MaxPixelsPerCell(availableWidth, availableHeight);
    var scale := 0;
    // reading past the table yields undefined, and a comparison with it is false
    while scale < |ScaleBreakPoints| && maxPixelsPerCell > ScaleBreakPoints[scale]
      invariant 0 <= scale <= |ScaleBreakPoints|
      invariant forall k :: 0 <= k < scale ==> ScaleBreakPoints[k] < maxPixelsPerCell
    {
      scale := scale + 1;
    }
    assert ScaleBreakPoints[4] == MaxSafeInteger;
    if scale == 0 {
      return NaNFit;
    }
    RoundDownToScale(maxPixelsPerCell, scale);
    var cellSize := maxPixelsPerCell - maxPixelsPerCell % scale;
    fit := Fit(Width * cellSize, Height * cellSize, scale);
  }

  // ---------------------------------------------------------------------------
  // Colour schemes and dither

  /** Four colour schemes of four RGB colours each. */
  const ColorTexData: seq<byte> := [
    0x00, 0x00, 0x00,  0x00, 0x97, 0x36,  0xee, 0x2a, 0x35,  0xff, 0xff, 0xff,
    0x10, 0x00, 0x00,  0xa0, 0x24, 0xa7,  0x06, 0x8a, 0x45,  0xb0, 0x90, 0x62,
    0x1b, 0x10, 0x00,  0xff, 0x40, 0x00,  0xff, 0xff, 0xdd,  0x90, 0xd8, 0x32,
    0xdd, 0xdd, 0xdd,  0x00, 0xa0, 0x20,  0xff, 0x00, 0x05,  0x10, 0x10, 0x10
  ]

  const DitherIncrement: int := 45
  /** Seconds between dither steps. */
  const DitherDelay: real := 0.3

  /** The renderer's scheme and dither state (its GPU objects are not modelled). */
  class Renderer {
    var colorSchemeIndex: int
    const colorSchemeCount: int
    var ditherTimer: real
    var ditherOffset: int

    ghost predicate Valid()
      reads this
    {
      && colorSchemeCount == |ColorTexData| / 12
      && 0 <= colorSchemeIndex < colorSchemeCount
      && 0 <= ditherOffset < 256
    }

    constructor ()
      ensures Valid()
      ensures colorSchemeCount == 4
      ensures colorSchemeIndex == 0 && ditherTimer == 0.0 && ditherOffset == 0
    {
      colorSchemeIndex := 0;
      colorSchemeCount := |ColorTexData| / 12;
      ditherTimer := 0.0;
      ditherOffset := 0;
    }

    /** Moves to the next scheme, from the last back to the first. */
    method NextColorScheme()
      requires Valid()
      modifies this`colorSchemeIndex
      ensures Valid()
      ensures colorSchemeIndex ==
        if old(colorSchemeIndex) == colorSchemeCount - 1 then 0 else old(colorSchemeIndex) + 1
    {
      colorSchemeIndex := colorSchemeIndex + 1;
      colorSchemeIndex := colorSchemeIndex % colorSchemeCount;
    }

    /** Counts the timer down by delta; when it drops below zero it is reset
        to the delay and the offset advances by 45 modulo 256. */
    method DitherRotate(delta: real)
      requires Valid()
      modifies this`ditherTimer, this`ditherOffset
      ensures Valid()
      ensures old(ditherTimer) - delta < 0.0 ==>
        ditherTimer == DitherDelay && ditherOffset == (old(ditherOffset) + DitherIncrement) % 256
      ensures old(ditherTimer) - delta >= 0.0 ==>
        ditherTimer == old(ditherTimer) - delta && ditherOffset == old(ditherOffset)
    {
      ditherTimer := ditherTimer - delta;
      if ditherTimer < 0.0 {
        ditherTimer := DitherDelay;
        ditherOffset := (ditherOffset + DitherIncrement) % 256;
      }
    }
  }
}
