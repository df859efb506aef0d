/**
 * What the runtime renderer and the offline baker share: the glyph ramp,
 * BT.601 luminance, the luminance-to-glyph index and the layout of a glyph
 * grid as newline-terminated rows.
 */
module Glyphs {

  /** One colour channel of a decoded pixel. */
  type Byte = x: int | 0 <= x < 256

  /** The glyph ramp, darkest-looking glyph first. Index 11 is a backtick. */
  const RAMP: string := "$@#%*+=-:. `'"

  function Min(a: int, b: int): int { if a <= b then a else b }
  function Max(a: int, b: int): int { if a >= b then a else b }

  /** Perceived brightness with the ITU-R BT.601 weights. */
  function Luminance(r: Byte, g: Byte, b: Byte): (lum: real)
    ensures 0.0 <= lum <= 255.0
    ensures r == g == b ==> lum == r as real
  {
    0.299 * r as real + 0.587 * g as real + 0.114 * b as real
  }

  /** `floor(v / 255 * (RAMP.length - 1))`: the ramp position of a brightness in 0..255. */
  function GlyphIndex(v: real): (i: int)
    requires 0.0 <= v <= 255.0
    ensures 0 <= i < |RAMP|
    ensures i as real <= v / 255.0 * 12.0 < i as real + 1.0
  {
    (v / 255.0 * (|RAMP| - 1) as real).Floor
  }

  /** The ramp glyph of a brightness in 0..255. */
  function Glyph(v: real): (c: char)
    requires 0.0 <= v <= 255.0
    ensures c in RAMP
  {
    RAMP[GlyphIndex(v)]
  }

  /** `Floor` keeps the order of reals. */
  lemma FloorMonotone(a: real, b: real)
    requires a <= b
    ensures a.Floor <= b.Floor
  {
    assert a.Floor as real <= a;
    assert b < b.Floor as real + 1.0;
  }

  /** A brighter value never selects an earlier (darker) glyph. */
  lemma GlyphIndexMonotone(u: real, v: real)
    requires 0.0 <= u <= v <= 255.0
    ensures GlyphIndex(u) <= GlyphIndex(v)
  {
    assert u / 255.0 * 12.0 <= v / 255.0 * 12.0;
  }

  /** Black selects the first glyph `$`, full white the last glyph `'`. */
  lemma GlyphEnds()
    ensures GlyphIndex(0.0) == 0 && Glyph(0.0) == '$'
    ensures GlyphIndex(255.0) == |RAMP| - 1 == 12 && Glyph(255.0) == '\''
  {
  }

  /** Every character of `s` is a ramp glyph or a line break. */
  ghost predicate GlyphText(s: string)
  {
    forall i :: 0 <= i < |s| ==> s[i] in RAMP || s[i] == '\n'
  }

  /** Every row of `rows` has exactly `w` characters. */
  ghost predicate Uniform(rows: seq<string>, w: nat)
  {
    forall y :: 0 <= y < |rows| ==> |rows[y]| == w
  }

  /** Rows top to bottom, each followed by a line break. */
  function Lines(rows: seq<string>): string
  {
    if rows == [] then "" else Lines(rows[..|rows| - 1]) + rows[|rows| - 1] + "\n"
  }

  /** `h` rows of `w` characters take `h * (w + 1)` characters. */
  lemma {:induction false} LinesLength(rows: seq<string>, w: nat)
    requires Uniform(rows, w)
    ensures |Lines(rows)| == |rows| * (w + 1)
  {
    if rows != [] {
      var init := rows[..|rows| - 1];
      LinesLength(init, w);
      assert |rows[|rows| - 1]| == w;
      calc {
        |Lines(rows)|;
        |Lines(init)| + w + 1;
        |init| * (w + 1) + (w + 1);
        { assert |init| + 1 == |rows|; }
        |rows| * (w + 1);
      }
    }
  }

  /**
   * Character `x` of line `y` sits at offset `y * (w + 1) + x`: a row character
   * for `x < w`, the line break for `x == w`.
   */
  lemma {:induction false} LinesAt(rows: seq<string>, w: nat, y: nat, x: nat)
    requires Uniform(rows, w)
    requires y < |rows| && x <= w
    ensures y * (w + 1) + x < |Lines(rows)|
    ensures Lines(rows)[y * (w + 1) + x] == if x < w then rows[y][x] else '\n'
  {
    var init := rows[..|rows| - 1];
    LinesLength(rows, w);
    LinesLength(init, w);
    assert Lines(rows) == Lines(init) + rows[|rows| - 1] + "\n";
    if y == |rows| - 1 {
      assert |Lines(init)| == y * (w + 1);
    } else {
      LinesAt(init, w, y, x);
      assert y * (w + 1) + x < |Lines(init)|;
      assert init[y] == rows[y];
    }
  }

  /** Rows made of ramp glyphs lay out into glyph text. */
  lemma {:induction false} LinesGlyphText(rows: seq<string>)
    requires forall y :: 0 <= y < |rows| ==> GlyphText(rows[y])
    ensures GlyphText(Lines(rows))
  {
    if rows != [] {
      var init := rows[..|rows| - 1];
      LinesGlyphText(init);
      assert GlyphText(rows[|rows| - 1]);
    }
  }
}
