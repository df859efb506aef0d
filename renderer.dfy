/**
 * The in-browser renderer of script.js: brightness adjustment, sampling an
 * RGBA buffer into glyph text, and the playback state (frame list, current
 * index, displayed text, sampling resolution).
 */
module Renderer {
  import opened Options
  import opened Glyphs

  /** Gamma, contrast and brightness applied to each luminance before lookup. */
  datatype Settings = Settings(gamma: real, contrast: real, brightness: real)

  /** The settings script.js ships with. */
  const SETTINGS: Settings := Settings(0.9, 1.2, 0.0)

  /** The settings under which adjustment is the identity. */
  const NEUTRAL: Settings := Settings(1.0, 1.0, 0.0)

  /** Frames `frame_001.png` to `frame_720.png`. */
  const TOTAL_FRAMES: nat := 720

  /** Horizontal page margin in pixels. */
  const MARGIN: real := 20.0

  /** `Math.max(a, Math.min(b, v))`. */
  function Clamp(v: int, a: int, b: int): (r: int)
    ensures a <= b ==> a <= r <= b
    ensures a <= v <= b ==> r == v
    ensures a <= b && v < a ==> r == a
    ensures a <= b && b < v ==> r == b
    ensures b < a ==> r == a
  {
    Max(a, Min(b, v))
  }

  /** `Math.round`: the nearest integer, halves rounded up. */
  function Round(x: real): (n: int)
    ensures x - 0.5 < n as real <= x + 0.5
  {
    (x + 0.5).Floor
  }

  /** The adjusted luminance before rounding: gamma, then contrast around 128, then brightness. */
  function Contrasted(v: real, s: Settings, pow: (real, real) -> real): real
  {
    var n := v / 255.0;
    var n' := if s.gamma != 1.0 && s.gamma > 0.0 then pow(n, s.gamma) else n;
    Stretch(n', s)
  }

  /** Contrast around 128 and brightness, applied to a normalised value. */
  function Stretch(n: real, s: Settings): real
  {
    (n * 255.0 - 128.0) * s.contrast + 128.0 + s.brightness
  }

  /**
   * `adjustLuminance`: gamma (through `pow`, skipped when gamma is 1 or not
   * positive), contrast, brightness, then rounding and a clamp to 0..255.
   */
  function AdjustLuminance(v: real, s: Settings, pow: (real, real) -> real): (r: int)
    ensures 0 <= r <= 255
  {
    Clamp(Round(Contrasted(v, s, pow)), 0, 255)
  }

  /** Under neutral settings every channel value comes back unchanged. */
  lemma AdjustIdentity(v: int, pow: (real, real) -> real)
    requires 0 <= v <= 255
    ensures AdjustLuminance(v as real, NEUTRAL, pow) == v
  {
    assert Contrasted(v as real, NEUTRAL, pow) == v as real;
  }

  /** When gamma is 1 or not positive, `pow` is never consulted. */
  lemma GammaSkipped(v: real, s: Settings, pow1: (real, real) -> real, pow2: (real, real) -> real)
    requires s.gamma == 1.0 || s.gamma <= 0.0
    ensures AdjustLuminance(v, s, pow1) == AdjustLuminance(v, s, pow2)
    ensures AdjustLuminance(v, s, pow1)
         == Clamp(Round((v - 128.0) * s.contrast + 128.0 + s.brightness), 0, 255)
  {
    var n := v / 255.0;
    assert n * 255.0 - 128.0 == v - 128.0;
    assert Contrasted(v, s, pow1) == Stretch(n, s) == Contrasted(v, s, pow2);
  }

  /** A non-negative contrast keeps the order of normalised values. */
  lemma StretchMonotone(a: real, b: real, s: Settings)
    requires a <= b && 0.0 <= s.contrast
    ensures Stretch(a, s) <= Stretch(b, s)
  {
    var a', b' := a * 255.0 - 128.0, b * 255.0 - 128.0;
    assert a' * s.contrast <= b' * s.contrast;
  }

  /**
   * With a non-negative contrast, and a `pow` that does not reverse the order
   * of the two normalised inputs, adjustment keeps the order of luminances.
   */
  lemma AdjustMonotone(u: real, v: real, s: Settings, pow: (real, real) -> real)
    requires u <= v && 0.0 <= s.contrast
    requires s.gamma != 1.0 && s.gamma > 0.0 ==> pow(u / 255.0, s.gamma) <= pow(v / 255.0, s.gamma)
    ensures AdjustLuminance(u, s, pow) <= AdjustLuminance(v, s, pow)
  {
    var gammaOn := s.gamma != 1.0 && s.gamma > 0.0;
    var nu := if gammaOn then pow(u / 255.0, s.gamma) else u / 255.0;
    var nv := if gammaOn then pow(v / 255.0, s.gamma) else v / 255.0;
    assert nu <= nv;
    StretchMonotone(nu, nv, s);
    var cu, cv := Contrasted(u, s, pow), Contrasted(v, s, pow);
    assert cu == Stretch(nu, s) && cv == Stretch(nv, s);
    FloorMonotone(cu + 0.5, cv + 0.5);
    assert Round(cu) <= Round(cv);
  }

  /** Black under the shipped settings shows `$` (given `pow(0, g) == 0`, as `Math.pow` does). */
  lemma BlackShowsFirstGlyph(pow: (real, real) -> real)
    requires pow(0.0, SETTINGS.gamma) == 0.0
    ensures Luminance(0, 0, 0) == 0.0
    ensures AdjustLuminance(0.0, SETTINGS, pow) == 0
    ensures Glyph(AdjustLuminance(Luminance(0, 0, 0), SETTINGS, pow) as real) == '$'
  {
    assert Contrasted(0.0, SETTINGS, pow) == -25.6;
    assert Round(-25.6) == -26;
    GlyphEnds();
  }

  /** White under the shipped settings clamps to 255 and shows `'` (given `pow(1, g) == 1`). */
  lemma WhiteShowsLastGlyph(pow: (real, real) -> real)
    requires pow(1.0, SETTINGS.gamma) == 1.0
    ensures Luminance(255, 255, 255) == 255.0
    ensures AdjustLuminance(255.0, SETTINGS, pow) == 255
    ensures Glyph(AdjustLuminance(Luminance(255, 255, 255), SETTINGS, pow) as real) == '\''
  {
    assert Contrasted(255.0, SETTINGS, pow) == 280.4;
    assert Round(280.4) == 280;
    GlyphEnds();
  }

  // ---------------------------------------------------------------------
  // Sampling an RGBA buffer

  /** Pixel `p` of an RGBA buffer occupies bytes `4p .. 4p+3`; the alpha byte is unused. */
  function PixelLuminance(raw: seq<Byte>, p: nat): real
    requires 4 * p + 2 < |raw|
  {
    Luminance(raw[4 * p], raw[4 * p + 1], raw[4 * p + 2])
  }

  /** The glyph that pixel `p` becomes. */
  function PixelGlyph(raw: seq<Byte>, p: nat, s: Settings, pow: (real, real) -> real): char
    requires 4 * p + 2 < |raw|
  {
    Glyph(AdjustLuminance(PixelLuminance(raw, p), s, pow) as real)
  }

  /** `a <= b` survives multiplication by a natural number. */
  lemma {:induction false} MulMonotone(a: nat, b: nat, c: nat)
    requires a <= b
    ensures a * c <= b * c
  {
    if c > 0 {
      MulMonotone(a, b, c - 1);
      assert a * c == a * (c - 1) + a;
      assert b * c == b * (c - 1) + b;
    }
  }

  /** Each read `(y * w + x) * 4 + k` with `k <= 2` of a `w` by `h` buffer is in bounds. */
  lemma PixelInBounds(w: nat, h: nat, x: nat, y: nat)
    requires x < w && y < h
    ensures y * w + x < w * h
    ensures (y * w + x) * 4 + 2 < 4 * (w * h)
  {
    MulMonotone(y + 1, h, w);
    assert (y + 1) * w == y * w + w;
    assert h * w == w * h;
  }

  /** The glyph at column `x` of row `y`. */
  function CellGlyph(raw: seq<Byte>, w: nat, h: nat, x: nat, y: nat, s: Settings, pow: (real, real) -> real): char
    requires |raw| == 4 * (w * h)
    requires x < w && y < h
  {
    PixelInBounds(w, h, x, y);
    PixelGlyph(raw, y * w + x, s, pow)
  }

  /** The glyph grid of a `w` by `h` buffer, one string per row. */
  function ScreenGrid(raw: seq<Byte>, w: nat, h: nat, s: Settings, pow: (real, real) -> real): (rows: seq<string>)
    requires |raw| == 4 * (w * h)
    ensures |rows| == h && Uniform(rows, w)
  {
    seq(h, y requires 0 <= y < h =>
      seq(w, x requires 0 <= x < w => CellGlyph(raw, w, h, x, y, s, pow)))
  }

  /** The text a `w` by `h` buffer samples to. */
  function ScreenText(raw: seq<Byte>, w: nat, h: nat, s: Settings, pow: (real, real) -> real): string
    requires |raw| == 4 * (w * h)
  {
    Lines(ScreenGrid(raw, w, h, s, pow))
  }

  /**
   * The sampled text has `h` lines of `w` glyphs each followed by a line
   * break; character `x` of line `y` is pixel `y * w + x`'s glyph.
   */
  lemma ScreenTextShape(raw: seq<Byte>, w: nat, h: nat, s: Settings, pow: (real, real) -> real, x: nat, y: nat)
    requires |raw| == 4 * (w * h)
    requires x <= w && y < h
    ensures |ScreenText(raw, w, h, s, pow)| == h * (w + 1)
    ensures y * (w + 1) + x < |ScreenText(raw, w, h, s, pow)|
    ensures y * w + x <= w * h
    ensures x < w ==> 4 * (y * w + x) + 2 < |raw|
    ensures ScreenText(raw, w, h, s, pow)[y * (w + 1) + x]
         == if x < w then PixelGlyph(raw, y * w + x, s, pow) else '\n'
  {
    var rows := ScreenGrid(raw, w, h, s, pow);
    LinesLength(rows, w);
    LinesAt(rows, w, y, x);
    if x < w {
      PixelInBounds(w, h, x, y);
    } else {
      MulMonotone(y + 1, h, w);
      assert y * w + x == (y + 1) * w;
      assert h * w == w * h;
    }
  }

  /** The glyph in row `y`, column `x` of the grid is read from bytes `i .. i+2`, `i = (y * w + x) * 4`. */
  lemma ScreenCell(raw: seq<Byte>, w: nat, h: nat, s: Settings, pow: (real, real) -> real, x: nat, y: nat, i: nat)
    requires |raw| == 4 * (w * h)
    requires x < w && y < h && i == (y * w + x) * 4
    ensures i + 2 < |raw|
    ensures ScreenGrid(raw, w, h, s, pow)[y][x]
         == RAMP[GlyphIndex(AdjustLuminance(Luminance(raw[i], raw[i + 1], raw[i + 2]), s, pow) as real)]
  {
    PixelInBounds(w, h, x, y);
    var p := y * w + x;
    assert 4 * p == i;
  }

  /** Sampled text consists only of ramp glyphs and line breaks. */
  lemma ScreenTextGlyphs(raw: seq<Byte>, w: nat, h: nat, s: Settings, pow: (real, real) -> real)
    requires |raw| == 4 * (w * h)
    ensures GlyphText(ScreenText(raw, w, h, s, pow))
  {
    var rows := ScreenGrid(raw, w, h, s, pow);
    forall y | 0 <= y < |rows|
      ensures GlyphText(rows[y])
    {
      assert forall x :: 0 <= x < w ==> rows[y][x] == CellGlyph(raw, w, h, x, y, s, pow);
    }
    LinesGlyphText(rows);
  }

  /** A buffer of one solid colour samples to a grid of that colour's glyph. */
  lemma SolidColour(raw: seq<Byte>, w: nat, h: nat, s: Settings, pow: (real, real) -> real, r: Byte, g: Byte, b: Byte)
    requires |raw| == 4 * (w * h)
    requires forall p :: 0 <= p < w * h ==> PixelLuminance(raw, p) == Luminance(r, g, b)
    ensures ScreenText(raw, w, h, s, pow)
         == Lines(seq(h, _ => seq(w, _ => Glyph(AdjustLuminance(Luminance(r, g, b), s, pow) as real))))
  {
    var c := Glyph(AdjustLuminance(Luminance(r, g, b), s, pow) as real);
    var rows := ScreenGrid(raw, w, h, s, pow);
    forall y | 0 <= y < h
      ensures rows[y] == seq(w, _ => c)
    {
      forall x | 0 <= x < w
        ensures rows[y][x] == c
      {
        PixelInBounds(w, h, x, y);
        assert PixelLuminance(raw, y * w + x) == Luminance(r, g, b);
      }
    }
    assert rows == seq(h, _ => seq(w, _ => c));
  }

  // ---------------------------------------------------------------------
  // The host page, as far as the renderer sees it

  /** A frame: the image handle created for a path. */
  datatype Image = Image(src: string)

  /**
   * What the browser contributes: whether an image is `complete` (loaded, or
   * failed to load), the RGBA buffer of an image drawn to a `w` by `h` canvas
   * (`None` when the image is broken and `drawImage` throws), and `Math.pow`.
   */
  datatype Browser = Browser(
    complete: Image -> bool,
    draw: (Image, nat, nat) -> Option<seq<Byte>>,
    pow: (real, real) -> real)

  /** `getImageData` yields four bytes per canvas pixel. */
  ghost predicate Drawable(browser: Browser)
  {
    forall img, w: nat, h: nat :: browser.draw(img, w, h).Some? ==> |browser.draw(img, w, h).value| == 4 * (w * h)
  }

  /** How `imageToASCII` ends: it returns `null`, it throws, or it returns the text. */
  datatype Sample = Null | Thrown | Ascii(text: string)

  /**
   * The sampler's outcome: `null` for a missing or incomplete image, an
   * exception for a complete but broken one, else the sampled text.
   */
  function Sampled(img: Option<Image>, browser: Browser, w: nat, h: nat, s: Settings): (r: Sample)
    requires Drawable(browser)
    ensures r.Null? <==> img.None? || !browser.complete(img.value)
    ensures r.Thrown? <==> img.Some? && browser.complete(img.value) && browser.draw(img.value, w, h).None?
    ensures r.Ascii? ==> |r.text| == h * (w + 1) && GlyphText(r.text)
  {
    if img.None? || !browser.complete(img.value) then Null
    else match browser.draw(img.value, w, h)
      case None => Thrown
      case Some(raw) =>
        ScreenTextGlyphs(raw, w, h, s, browser.pow);
        LinesLength(ScreenGrid(raw, w, h, s, browser.pow), w);
        Ascii(ScreenText(raw, w, h, s, browser.pow))
  }

  /**
   * `imageToASCII`: draws the image at the sampling resolution and walks the
   * buffer row by row, one glyph per pixel and a line break per row.
   */
  method ImageToAscii(img: Option<Image>, browser: Browser, w: nat, h: nat, s: Settings) returns (out: Sample)
    requires Drawable(browser)
    ensures out.Null? <==> img.None? || !browser.complete(img.value)
    ensures out == Sampled(img, browser, w, h, s)
  {
    if img.None? || !browser.complete(img.value) {
      return Null;
    }
    var drawn := browser.draw(img.value, w, h);
    if drawn.None? {
      return Thrown;
    }
    var raw := drawn.value;
    ghost var rows := ScreenGrid(raw, w, h, s, browser.pow);
    var text := "";
    var y := 0;
    while y < h
      invariant 0 <= y <= h
      invariant text == Lines(rows[..y])
    {
      ghost var done, row := text, rows[y];
      assert |row| == w;
      var x := 0;
      while x < w
        invariant 0 <= x <= w
        invariant text == done + row[..x]
      {
        var i := (y * w + x) * 4;
        ScreenCell(raw, w, h, s, browser.pow, x, y, i);
        var r, g, b := raw[i], raw[i + 1], raw[i + 2];
        var lum := Luminance(r, g, b);
        var v := AdjustLuminance(lum, s, browser.pow);
        var ci := GlyphIndex(v as real);
        assert row[..x + 1] == row[..x] + [RAMP[ci]];
        text := text + [RAMP[ci]];
        x := x + 1;
      }
      assert row[..w] == row;
      text := text + "\n";
      assert rows[..y + 1][..y] == rows[..y];
      y := y + 1;
    }
    assert rows[..h] == rows;
    return Ascii(text);
  }

  // ---------------------------------------------------------------------
  // Playback bookkeeping

  /** `frames[clamp(idx, 0, frames.length - 1)]`, absent on an empty list. */
  function FrameAt(frames: seq<Image>, idx: int): (img: Option<Image>)
    ensures img.None? <==> frames == []
    ensures 0 <= idx < |frames| ==> img == Some(frames[idx])
    ensures frames != [] && idx < 0 ==> img == Some(frames[0])
    ensures frames != [] && |frames| <= idx ==> img == Some(frames[|frames| - 1])
  {
    var i := Clamp(idx, 0, |frames| - 1);
    if i < |frames| then Some(frames[i]) else None
  }

  /** What the text element shows after a sample: the new text, or the old one on `null` or an exception. */
  function Shown(previous: string, sample: Sample): (shown: string)
    ensures !sample.Ascii? ==> shown == previous
    ensures sample.Ascii? ==> shown == sample.text
  {
    if sample.Ascii? then sample.text else previous
  }

  /** JavaScript's `%` on integers: the remainder takes the sign of the dividend. */
  function JsRem(a: int, n: int): (r: int)
    requires n > 0
    ensures 0 <= a ==> r == a % n
    ensures a < 0 ==> -n < r <= 0
  {
    if a >= 0 then a % n else -((-a) % n)
  }

  /** The index after one tick on a list of `n` frames; no change on an empty list. */
  function NextIndex(i: int, n: nat): (r: int)
    ensures n == 0 ==> r == i
    ensures 0 < n && 0 <= i ==> 0 <= r < n
    ensures 0 < n && 0 <= i < n - 1 ==> r == i + 1
    ensures 0 < n && i == n - 1 ==> r == 0
  {
    if n == 0 then i else JsRem(i + 1, n)
  }

  /** The index after `k` ticks. */
  function Ticks(i: int, n: nat, k: nat): int
  {
    if k == 0 then i else NextIndex(Ticks(i, n, k - 1), n)
  }

  /** `k` ticks from `i` land on `(i + k) mod n`. */
  lemma {:induction false} TicksFormula(i: int, n: nat, k: nat)
    requires 0 <= i < n
    ensures Ticks(i, n, k) == (i + k) % n
  {
    if k > 0 {
      TicksFormula(i, n, k - 1);
      var j := (i + k - 1) % n;
      assert Ticks(i, n, k) == (j + 1) % n;
      ModSucc(i + k - 1, n);
    }
  }

  /** `q * n + r` with `0 <= r < n` leaves remainder `r`. */
  lemma ModUnique(a: int, n: nat, q: int, r: int)
    requires n > 0 && 0 <= r < n && a == q * n + r
    ensures a % n == r
  {
    var q', r' := a / n, a % n;
    assert a == q' * n + r';
    if q > q' {
      assert (q - q') * n == q * n - q' * n;
      MulMonotone(1, q - q', n);
    } else if q < q' {
      assert (q' - q) * n == q' * n - q * n;
      MulMonotone(1, q' - q, n);
    }
  }

  lemma ModSucc(a: nat, n: nat)
    requires n > 0
    ensures (a % n + 1) % n == (a + 1) % n
  {
    var q, r := a / n, a % n;
    assert a == q * n + r;
    if r + 1 < n {
      ModUnique(a + 1, n, q, r + 1);
      ModUnique(r + 1, n, 0, r + 1);
    } else {
      ModUnique(a + 1, n, q + 1, 0);
      ModUnique(r + 1, n, 1, 0);
    }
  }

  /** Playback is cyclic: `n` ticks bring the index back to where it started. */
  lemma FullCycle(i: int, n: nat)
    requires 0 <= i < n
    ensures Ticks(i, n, n) == i
    ensures forall k :: 0 < k < n ==> Ticks(i, n, k) != i
  {
    TicksFormula(i, n, n);
    ModUnique(i + n, n, 1, i);
    forall k | 0 < k < n
      ensures Ticks(i, n, k) != i
    {
      TicksFormula(i, n, k);
      if i + k < n {
        ModUnique(i + k, n, 0, i + k);
      } else {
        ModUnique(i + k, n, 1, i + k - n);
      }
    }
  }

  /** On an empty list no number of ticks moves the index. */
  lemma {:induction false} EmptyNeverTicks(i: int, k: nat)
    ensures Ticks(i, 0, k) == i
  {
    if k > 0 {
      EmptyNeverTicks(i, k - 1);
    }
  }

  // ---------------------------------------------------------------------
  // Frame paths

  /** Decimal digit characters. */
  predicate IsDigit(c: char) { '0' <= c <= '9' }

  ghost predicate AllDigits(s: string)
  {
    forall i :: 0 <= i < |s| ==> IsDigit(s[i])
  }

  /** The number a digit string denotes. */
  ghost function DecimalValue(s: string): nat
    requires AllDigits(s)
  {
    if s == [] then 0 else DecimalValue(s[..|s| - 1]) * 10 + (s[|s| - 1] as int - '0' as int)
  }

  /** `String(n)`: the decimal digits of `n`, without leading zeros. */
  function DecimalString(n: nat): (s: string)
    ensures 1 <= |s| && AllDigits(s) && DecimalValue(s) == n
    ensures |s| == 1 <==> n < 10
    ensures n < 1000 ==> |s| <= 3
  {
    var last := ['0' + (n % 10) as char];
    if n < 10 then last
    else
      var s := DecimalString(n / 10) + last;
      assert s[..|s| - 1] == DecimalString(n / 10);
      s
  }

  /** `s.padStart(len, fill)`. */
  function PadStart(s: string, len: nat, fill: char): (r: string)
    ensures |r| == if |s| < len then len else |s|
    ensures r[|r| - |s|..] == s
    ensures forall i :: 0 <= i < |r| - |s| ==> r[i] == fill
  {
    if |s| < len then seq(len - |s|, _ => fill) + s else s
  }

  /** Leading zeros do not change the value of a digit string. */
  lemma {:induction false} LeadingZeros(z: nat, s: string)
    requires AllDigits(s)
    ensures AllDigits(seq(z, _ => '0') + s)
    ensures DecimalValue(seq(z, _ => '0') + s) == DecimalValue(s)
  {
    var t := seq(z, _ => '0') + s;
    if s == [] {
      assert t == seq(z, _ => '0');
      if z > 0 {
        assert t[..|t| - 1] == seq(z - 1, _ => '0') + [];
        LeadingZeros(z - 1, []);
      }
    } else {
      var init := s[..|s| - 1];
      assert t[..|t| - 1] == seq(z, _ => '0') + init;
      LeadingZeros(z, init);
    }
  }

  /** `String(n).padStart(3, '0')`. */
  function FrameNumber(n: nat): string
  {
    PadStart(DecimalString(n), 3, '0')
  }

  /** For 1..999 the frame number is three digits whose value is `n`. */
  lemma FrameNumberDigits(n: nat)
    requires n < 1000
    ensures |FrameNumber(n)| == 3
    ensures AllDigits(FrameNumber(n)) && DecimalValue(FrameNumber(n)) == n
  {
    var d := DecimalString(n);
    assert FrameNumber(n) == seq(3 - |d|, _ => '0') + d;
    LeadingZeros(3 - |d|, d);
  }

  /** The file a frame is loaded from. */
  function FramePath(n: nat): string
  {
    "frames/frame_" + FrameNumber(n) + ".png"
  }

  /** Distinct frame numbers below 1000 give distinct paths. */
  lemma FramePathInjective(m: nat, n: nat)
    requires m < 1000 && n < 1000 && m != n
    ensures FramePath(m) != FramePath(n)
  {
    FrameNumberDigits(m);
    FrameNumberDigits(n);
    var pm, pn := FrameNumber(m), FrameNumber(n);
    assert pm != pn;
    SliceOfMiddle("frames/frame_", pm, ".png");
    SliceOfMiddle("frames/frame_", pn, ".png");
  }

  lemma SliceOfMiddle(a: string, mid: string, b: string)
    ensures (a + mid + b)[|a|..|a| + |mid|] == mid
  {
  }

  /** The handles for frames 1 to `n`, in order. */
  function FrameList(n: nat): seq<Image>
  {
    seq(n, k requires 0 <= k < n => Image(FramePath(k + 1)))
  }

  lemma FrameListSnoc(n: nat)
    requires n > 0
    ensures FrameList(n) == FrameList(n - 1) + [Image(FramePath(n))]
  {
  }

  lemma FrameListAt(n: nat, k: nat)
    requires k < n
    ensures |FrameList(n)| == n && FrameList(n)[k] == Image(FramePath(k + 1))
  {
  }

  /** The 720 image handles `preloadFrames` creates, in order. */
  function PreloadList(): seq<Image>
  {
    FrameList(TOTAL_FRAMES)
  }

  /**
   * Entry `k` of the first `n < 1000` handles is `frames/frame_NNN.png` with
   * NNN the three digits of `k + 1`, and no other entry shares its path.
   */
  lemma FrameListEntry(n: nat, k: nat)
    requires n < 1000 && k < n
    ensures |FrameList(n)| == n
    ensures FrameList(n)[k].src == "frames/frame_" + FrameNumber(k + 1) + ".png"
    ensures |FrameNumber(k + 1)| == 3 && AllDigits(FrameNumber(k + 1))
    ensures DecimalValue(FrameNumber(k + 1)) == k + 1
    ensures forall j :: 0 <= j < n && j != k ==> FrameList(n)[j] != FrameList(n)[k]
  {
    FrameNumberDigits(k + 1);
    FrameListAt(n, k);
    forall j | 0 <= j < n && j != k
      ensures FrameList(n)[j] != FrameList(n)[k]
    {
      FrameListAt(n, j);
      FramePathInjective(j + 1, k + 1);
    }
  }

  /** `preloadFrames` creates exactly 720 handles, entry `k` for `frame_NNN.png` with NNN = k + 1. */
  lemma PreloadEntry(k: nat)
    requires k < TOTAL_FRAMES
    ensures |PreloadList()| == 720
    ensures PreloadList()[k].src == "frames/frame_" + FrameNumber(k + 1) + ".png"
    ensures |FrameNumber(k + 1)| == 3 && AllDigits(FrameNumber(k + 1))
    ensures DecimalValue(FrameNumber(k + 1)) == k + 1
    ensures forall j :: 0 <= j < TOTAL_FRAMES && j != k ==> PreloadList()[j] != PreloadList()[k]
  {
    FrameListEntry(TOTAL_FRAMES, k);
  }

  // ---------------------------------------------------------------------
  // Output surface

  /** `Math.max(2, Math.floor(W / 4))`. */
  function SampleColumns(W: real): (c: nat)
    ensures 2 <= c
    ensures W < 12.0 ==> c == 2
    ensures 8.0 <= W ==> c as real <= W / 4.0 < c as real + 1.0
  {
    Max(2, (W / 4.0).Floor)
  }

  /** `Math.max(2, Math.floor(H / 6))`. */
  function SampleRows(H: real): (r: nat)
    ensures 2 <= r
    ensures H < 18.0 ==> r == 2
    ensures 12.0 <= H ==> r as real <= H / 6.0 < r as real + 1.0
  {
    Max(2, (H / 6.0).Floor)
  }

  // ---------------------------------------------------------------------
  // The page's module-level state

  class Player {
    /** The image handles, in playback order. */
    var frames: seq<Image>
    var currentFrameIndex: int
    /** The text the glyph element displays. */
    var text: string
    /** The offscreen canvas size, which is the sampling resolution. */
    var width: nat
    var height: nat

    ghost predicate Valid()
      reads this
    {
      0 <= currentFrameIndex && (currentFrameIndex < |frames| || currentFrameIndex == 0)
    }

    /** The page as loaded: no frames yet, index 0, the element's initial text and canvas size. */
    constructor (initialText: string, canvasWidth: nat, canvasHeight: nat)
      ensures Valid()
      ensures frames == [] && currentFrameIndex == 0 && text == initialText
      ensures width == canvasWidth && height == canvasHeight
    {
      frames := [];
      currentFrameIndex := 0;
      text := initialText;
      width, height := canvasWidth, canvasHeight;
    }

    /** `computeOutputSize`: the sampling resolution for the viewport; returns `{W, H}`. */
    method ComputeOutputSize(innerWidth: real, innerHeight: real) returns (W: real, H: real)
      modifies this`width, this`height
      ensures W == innerWidth - 2.0 * MARGIN && H == innerHeight * 0.6
      ensures width == SampleColumns(W) && height == SampleRows(H)
      ensures 2 <= width && 2 <= height
    {
      W := innerWidth - 2.0 * MARGIN;
      H := innerHeight * 0.6;
      width := SampleColumns(W);
      height := SampleRows(H);
    }

    /**
     * `renderFrame`: shows the clamped index's frame, keeping the old text on
     * `null`; `threw` reports the exception a broken image raises, before
     * the text is assigned.
     */
    method RenderFrame(idx: int, browser: Browser) returns (threw: bool)
      requires Drawable(browser)
      modifies this`text
      ensures text == Shown(old(text), Sampled(FrameAt(frames, idx), browser, width, height, SETTINGS))
      ensures threw <==> Sampled(FrameAt(frames, idx), browser, width, height, SETTINGS).Thrown?
      ensures frames == [] ==> text == old(text) && !threw
    {
      var i := Clamp(idx, 0, |frames| - 1);
      var img := if 0 <= i < |frames| then Some(frames[i]) else None;
      var ascii := ImageToAscii(img, browser, width, height, SETTINGS);
      threw := ascii.Thrown?;
      if ascii.Ascii? {
        text := ascii.text;
      }
    }

    /** `advanceFrame`: one playback tick; on a broken frame the index has already moved when it throws. */
    method AdvanceFrame(browser: Browser) returns (threw: bool)
      requires Valid() && Drawable(browser)
      modifies this`currentFrameIndex, this`text
      ensures Valid()
      ensures currentFrameIndex == NextIndex(old(currentFrameIndex), |frames|)
      ensures frames == [] ==> text == old(text) && !threw
      ensures frames != [] ==>
        text == Shown(old(text), Sampled(Some(frames[currentFrameIndex]), browser, width, height, SETTINGS))
      ensures frames != [] ==>
        (threw <==> Sampled(Some(frames[currentFrameIndex]), browser, width, height, SETTINGS).Thrown?)
    {
      if |frames| == 0 {
        return false;
      }
      currentFrameIndex := JsRem(currentFrameIndex + 1, |frames|);
      threw := RenderFrame(currentFrameIndex, browser);
    }

    /** `preloadFrames`: appends the 720 frame handles. */
    method PreloadFrames()
      requires Valid()
      modifies this`frames
      ensures Valid()
      ensures frames == old(frames) + PreloadList()
    {
      for i := 1 to TOTAL_FRAMES + 1
        invariant frames == old(frames) + FrameList(i - 1)
      {
        var num := PadStart(DecimalString(i), 3, '0');
        var img := Image("frames/frame_" + num + ".png");
        assert img == Image(FramePath(i));
        assert FrameList(i) == FrameList(i - 1) + [img] by {
          FrameListSnoc(i);
        }
        frames := frames + [img];
      }
    }

    /** The resize listener: new sampling resolution, same frame re-rendered. */
    method OnResize(innerWidth: real, innerHeight: real, browser: Browser) returns (threw: bool)
      requires Valid() && Drawable(browser)
      modifies this`width, this`height, this`text
      ensures Valid()
      ensures width == SampleColumns(innerWidth - 2.0 * MARGIN) && height == SampleRows(innerHeight * 0.6)
      ensures text == Shown(old(text), Sampled(FrameAt(frames, currentFrameIndex), browser, width, height, SETTINGS))
      ensures threw <==> Sampled(FrameAt(frames, currentFrameIndex), browser, width, height, SETTINGS).Thrown?
    {
      var _, _ := ComputeOutputSize(innerWidth, innerHeight);
      threw := RenderFrame(currentFrameIndex, browser);
    }

    /**
     * Page start-up: preload, size the output, show frame 0. `threw` reports
     * an exception from the first render, which would stop the rest of the
     * page script.
     */
    method Start(innerWidth: real, innerHeight: real, browser: Browser) returns (threw: bool)
      requires Valid() && Drawable(browser)
      modifies this`frames, this`width, this`height, this`text
      ensures Valid()
      ensures frames == old(frames) + PreloadList()
      ensures width == SampleColumns(innerWidth - 2.0 * MARGIN) && height == SampleRows(innerHeight * 0.6)
      ensures text == Shown(old(text), Sampled(Some(frames[0]), browser, width, height, SETTINGS))
      ensures threw <==> Sampled(Some(frames[0]), browser, width, height, SETTINGS).Thrown?
    {
      PreloadFrames();
      var _, _ := ComputeOutputSize(innerWidth, innerHeight);
      threw := RenderFrame(0, browser);
    }
  }
}
