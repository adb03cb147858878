/** The score screen (src/score-screen.ts): the final score drawn as a row of
    3 x 5 digit glyphs, centred on the field. It adds only a constructor to
    BaseScreen, so its input and update are those of Screens.BaseScreen. */
module ScoreScreens {
  import opened Numeric
  import opened Wrappers
  import opened Fields

  /** digitSrcMapping: the cell value for each glyph character. */
  function DigitSrcMapping(c: char): Option<byte> {
    if c == '.' then Some(0) else if c == '#' then Some(0x32) else None
  }

  /** Glyph of each decimal digit: five rows of three characters, rows separated by a newline. */
  const Digits: seq<string> := [
    "###\n#.#\n#.#\n#.#\n###",
    "##.\n.#.\n.#.\n.#.\n###",
    "###\n..#\n###\n#..\n###",
    "###\n..#\n###\n..#\n###",
    "#.#\n#.#\n###\n..#\n..#",
    "###\n#..\n###\n..#\n###",
    "###\n#..\n###\n#.#\n###",
    "###\n..#\n..#\n..#\n..#",
    "###\n#.#\n###\n#.#\n###",
    "###\n#.#\n###\n..#\n###"
  ]

  const GlyphWidth: int := 3
  const GlyphHeight: int := 5
  /** Horizontal distance between the left edges of consecutive glyphs. */
  const GlyphAdvance: int := 4

  predicate GlyphShaped(g: string) {
    && |g| == GlyphHeight * (GlyphWidth + 1) - 1
    && forall k :: 0 <= k < |g| ==>
        if k % (GlyphWidth + 1) == GlyphWidth then g[k] == '\n' else DigitSrcMapping(g[k]).Some?
  }

  /** There is a glyph for each digit 0..9, each 5 rows of 3 characters that
      the mapping turns into cells (0 or 0x32). */
  lemma GlyphTable()
    ensures |Digits| == 10
    ensures forall d :: 0 <= d < 10 ==> GlyphShaped(Digits[d])
  {
  }

  // ---------------------------------------------------------------------------
  // Decimal digits of the score ("" + score)

  function DigitChar(d: int): char
    requires 0 <= d < 10
  {
    ('0' as int + d) as char
  }

  /** Number(c) for a digit character. */
  function DigitValue(c: char): int {
    c as int - '0' as int
  }

  /** The decimal text of a non-negative integer, as "" + n gives it. */
  function DecimalString(n: nat): (s: string)
    ensures |s| >= 1
    ensures forall k :: 0 <= k < |s| ==> 0 <= DigitValue(s[k]) < 10
    decreases n
  {
    if n < 10 then [DigitChar(n)] else DecimalString(n / 10) + [DigitChar(n % 10)]
  }

  /** Reads a digit sequence left to right as a base-10 number. */
  function DigitsValue(ds: seq<int>): int {
    if ds == [] then 0 else 10 * DigitsValue(ds[..|ds| - 1]) + ds[|ds| - 1]
  }

  function Pow10(k: nat): nat {
    if k == 0 then 1 else 10 * Pow10(k - 1)
  }

  /** Number(c) for each character of s. */
  function DigitValues(s: string): seq<int> {
    seq(|s|, k requires 0 <= k < |s| => DigitValue(s[k]))
  }

  /** The digits of DecimalString(n), read left to right, give back n. */
  lemma {:induction false} DecimalRoundTrip(n: nat)
    ensures DigitsValue(DigitValues(DecimalString(n))) == n
    decreases n
  {
    var ds := DigitValues(DecimalString(n));
    if n >= 10 {
      DecimalRoundTrip(n / 10);
      assert ds[..|ds| - 1] == DigitValues(DecimalString(n / 10));
      assert ds[|ds| - 1] == n % 10;
    } else {
      assert ds == [n];
      assert ds[..0] == [];
    }
  }

  /** The text has no leading zero unless the score is 0. */
  lemma {:induction false} DecimalNoLeadingZero(n: nat)
    ensures DecimalString(n)[0] == '0' <==> n == 0
    decreases n
  {
    if n >= 10 {
      DecimalNoLeadingZero(n / 10);
    }
  }

  /** n has at most k decimal digits exactly when n < 10^k. */
  lemma {:induction false} DecimalLength(n: nat, k: nat)
    requires k >= 1
    ensures |DecimalString(n)| <= k <==> n < Pow10(k)
    decreases n
  {
    if n >= 10 {
      if k >= 2 {
        DecimalLength(n / 10, k - 1);
      } else {
        assert |DecimalString(n)| >= 2;
      }
    } else {
      PowPositive(k);
    }
  }

  lemma {:induction false} PowPositive(k: nat)
    requires k >= 1
    ensures Pow10(k) >= 10
  {
    if k > 1 {
      PowPositive(k - 1);
    }
  }

  // ---------------------------------------------------------------------------
  // Glyph placement

  /** One call to paste: the glyph of `digit` with its top-left corner at (x, y). */
  datatype GlyphPaste = GlyphPaste(digit: int, x: int, y: int)

  /** Left edge of glyph i of a centred row of `count` glyphs (Math.floor of a
      division by 2 is Dafny's division of an integer by 2). */
  function GlyphX(count: int, i: int): int {
    (Width - count * GlyphAdvance) / 2 + GlyphAdvance * i
  }

  /** Top edge of every glyph. */
  const GlyphY: int := Height / 2 - 3

  function PastedDigits(pastes: seq<GlyphPaste>): seq<int> {
    seq(|pastes|, i requires 0 <= i < |pastes| => pastes[i].digit)
  }

  /** ScoreScreen's constructor: the paste calls it makes, in order, one per
      decimal digit of the score, advancing x by 4 each time. The digits read
      left to right give back the score. */
  method ScoreLayout(score: nat) returns (pastes: seq<GlyphPaste>)
    requires score <= MaxSafeInteger
    ensures |pastes| == |DecimalString(score)|
    ensures DigitsValue(PastedDigits(pastes)) == score
    ensures forall i :: 0 <= i < |pastes| ==>
      && 0 <= pastes[i].digit < 10
      && pastes[i].digit == DigitValue(DecimalString(score)[i])
      && pastes[i].x == GlyphX(|pastes|, i)
      && pastes[i].y == GlyphY
  {
    var scoreStr := DecimalString(score);
    var digitCount := |scoreStr|;
    var width := digitCount * 4;
    var y := Height / 2 - 3;
    var x := (Width - width) / 2;
    pastes := [];
    for k := 0 to digitCount
      invariant |pastes| == k
      invariant x == GlyphX(digitCount, k)
      invariant forall i :: 0 <= i < k ==>
        pastes[i] == GlyphPaste(DigitValue(scoreStr[i]), GlyphX(digitCount, i), y)
    {
      pastes := pastes + [GlyphPaste(DigitValue(scoreStr[k]), x, y)];
      x := x + 4;
    }
    DecimalRoundTrip(score);
    assert PastedDigits(pastes) == DigitValues(scoreStr);
  }

  /** Consecutive glyphs leave exactly one blank column between them; the row
      of 4-wide slots has equal margins on both sides; all glyphs fit on the
      32 x 16 field exactly when there are at most 8 of them. */
  lemma GlyphPlacement(count: nat)
    ensures forall i :: 0 <= i < count - 1 ==> GlyphX(count, i) + GlyphWidth + 1 == GlyphX(count, i + 1)
    ensures GlyphX(count, 0) == Width - GlyphX(count, count)
    ensures 0 <= GlyphY && GlyphY + GlyphHeight <= Height
    ensures count <= 8 <==>
      forall i :: 0 <= i < count ==> 0 <= GlyphX(count, i) && GlyphX(count, i) + GlyphWidth <= Width
  {
    if count > 8 {
      assert GlyphX(count, 0) < 0;
    }
  }
}
