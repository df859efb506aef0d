# ASCII frame renderer and frame baker, in Dafny

The site plays a 720-frame animation as text. There are two programs.

- `script.js` runs in the browser. For each frame it does the following:
  - draws the frame image onto an offscreen canvas at a small resolution;
  - reads the RGBA pixels back;
  - turns each pixel into one glyph of a 13-character ramp (`$@#%*+=-:. `'`). The glyph comes from the pixel's BT.601 luminance after gamma, contrast and brightness adjustment.
  - shows the resulting lines of text.

  A timer advances the frame index cyclically. A resize handler recomputes the sampling resolution and re-renders the current frame.
- `build-scripts/generateFrames.js` is the offline baker. It takes every `.png` in the frames directory, in name order, and does the following:
  - shrinks each image by fixed scale factors;
  - converts it to glyph text by the same luminance-to-ramp rule, without the adjustment;
  - escapes the backticks;
  - writes all frames as template literals of one `export const frames = [...]` module.

The model has four modules.

- `Options` (`options.dfy`): the `Option` type. It stands in for `null` results.
- `Glyphs` (`glyphs.dfy`): what both programs share.
  - The ramp.
  - `Luminance`.
  - The ramp index `floor(v / 255 * 12)`.
  - `Lines`, the layout of a glyph grid into newline-terminated rows.
- `Renderer` (`renderer.dfy`): `script.js`.
  - The pure adjustment functions.
  - The pixel loop `ImageToAscii`, a method proved equal to the specification `Sampled`/`ScreenText`.
  - The frame-path construction.
  - The class `Player`, which holds the page's module-level state and has one method per state-changing function. The state is the frame list, the current index, the displayed text and the offscreen canvas size.

  The browser's contributions are fields of a `Browser` value passed in:
  - whether an image is `complete`, which holds once it has loaded or has failed to load;
  - the RGBA buffer `getImageData` yields for a drawn image, or nothing when the image is broken and `drawImage` throws;
  - `Math.pow`.
- `Baker` (`baker.dfy`): `generateFrames.js`.
  - The target-size formulas.
  - The pixel loop `ImageToAscii`, a method proved equal to `BakedFrame`.
  - The `.png` filter.
  - The sort, as an insertion sort on the lexicographic character order, with the proof that the sorted order is unique, so any correct sort gives the same list.
  - The backtick escape.
  - The module text.
  - `Generate`, the loop method.

  As the partner of the generated module there is a reader for it, `ParseFile`, which reads template literals with their `\c` escapes. The round trip is proved: loading the written module gives back exactly the baked frames.

`generateFrames.js` disagrees with its own comment about the vertical scale. The constant `scaleY = 0.1667` is annotated as the canvas's `/ 6`. The model keeps `0.1667` as written and proves two things. `Baker.RowsMatchSixthBelow5003` shows that the two agree for image heights up to 5002 pixels. `Baker.RowsExceedSixthAt5003` shows that at 5003 pixels `0.1667` gives 834 rows where `/ 6` gives 833.

## Model

| member | source | states |
|---|---|---|
| Glyphs.Luminance | script.js:91 | BT.601 luminance of three channel bytes lies in 0..255, and a grey `(v, v, v)` has luminance exactly `v`. |
| Glyphs.GlyphIndex | script.js:97 | For a value in 0..255 the ramp index is a valid position `0..12` and is the floor of `v / 255 * 12`. |
| Glyphs.Glyph | script.js:97-98 | The glyph chosen for any value in 0..255 is a character of the ramp. |
| Glyphs.GlyphIndexMonotone | script.js:97 | A brighter value never selects an earlier ramp position. |
| Glyphs.GlyphEnds | script.js:10 | Value 0 selects index 0, which is `$`. Value 255 selects index 12, the last one, which is `'`. |
| Glyphs.Lines | script.js:98-100 | Each row followed by a line break, top to bottom, as both loops build it (also build-scripts/generateFrames.js:24-26). Its length and every character are given by `Glyphs.LinesLength` and `Glyphs.LinesAt`. |
| Glyphs.LinesLength | script.js:85-101 | `h` rows of `w` glyphs, each followed by a line break, take `h * (w + 1)` characters. |
| Glyphs.LinesAt | script.js:85-101 | Offset `y * (w + 1) + x` of the laid-out text is column `x` of row `y` for `x < w`, and the line break for `x == w`. |
| Glyphs.LinesGlyphText | script.js:98-100 | Rows of ramp glyphs lay out into text made only of ramp glyphs and line breaks. |
| Renderer.Clamp | script.js:25 | With `a <= b` the result is in `[a, b]`. It is `v` itself when `v` is in range, `a` below the range and `b` above it. With `b < a` it is `a`. |
| Renderer.Round | script.js:69 | `Math.round` gives the integer within one half of `x`, with halves rounded up. |
| Renderer.Contrasted | script.js:54-66 | The value before rounding: gamma through `pow` when gamma is neither 1 nor non-positive, then contrast around 128 and brightness. Its meaning is fixed by `Renderer.GammaSkipped` and `Renderer.AdjustMonotone`. |
| Renderer.AdjustLuminance | script.js:52-70 | For every input, every gamma, contrast and brightness, and every `pow`, the adjusted value is an integer in 0..255. |
| Renderer.AdjustIdentity | script.js:52-70 | With gamma 1, contrast 1 and brightness 0, every integer `v` in 0..255 comes back unchanged. |
| Renderer.GammaSkipped | script.js:57-59 | When gamma is 1 or not positive the result does not depend on `pow`. It is `clamp(round((v - 128) * contrast + 128 + brightness), 0, 255)`. |
| Renderer.AdjustMonotone | script.js:52-70 | With non-negative contrast, and a `pow` that keeps the order of the two inputs, adjustment keeps the order of luminances. |
| Renderer.BlackShowsFirstGlyph | script.js:18-22 | Under the shipped settings (gamma 0.9, contrast 1.2, brightness 0), black adjusts to 0 and shows `$`, given `pow(0, 0.9) == 0`. |
| Renderer.WhiteShowsLastGlyph | script.js:18-22 | Under the shipped settings, white adjusts to 255 and shows `'`, given `pow(1, 0.9) == 1`. |
| Renderer.PixelInBounds | script.js:87-88 | For `x < w` and `y < h`, every read `(y * w + x) * 4 + k` with `k <= 2` is below `4 * w * h`. |
| Renderer.ScreenGrid | script.js:85-101 | A `w` by `h` buffer samples to exactly `h` rows of exactly `w` glyphs. |
| Renderer.ScreenText | script.js:85-103 | The text a buffer samples to. `Renderer.ScreenTextShape` gives its length and every character, and `Renderer.ScreenTextGlyphs` shows it is only glyphs and line breaks. |
| Renderer.ScreenTextShape | script.js:85-101 | The sampled text has length `h * (w + 1)`. The character at `y * (w + 1) + x` is the glyph of pixel `y * w + x` for `x < w`, and `\n` at `x == w`. |
| Renderer.ScreenCell | script.js:87-98 | The glyph at row `y`, column `x` is the ramp entry for the adjusted luminance of bytes `i`, `i+1`, `i+2`, with `i = (y * w + x) * 4`, all within the buffer. |
| Renderer.ScreenTextGlyphs | script.js:98-100 | Sampled text consists only of ramp glyphs and line breaks. |
| Renderer.SolidColour | script.js:85-101 | A buffer of one colour samples to `h` lines of `w` copies of that colour's glyph. |
| Renderer.Sampled | script.js:74-104 | `null` exactly for a missing or incomplete image. An exception exactly for a complete image that cannot be drawn. Otherwise text of `h * (w + 1)` characters, only glyphs and line breaks. |
| Renderer.ImageToAscii | script.js:74-104 | `null` exactly when the image is missing or not complete. An exception when a complete image cannot be drawn. Otherwise the nested loop's text equals the sampled text of the drawn buffer. |
| Renderer.FrameAt | script.js:107-108 | An empty list has no frame. An index in range picks that frame, one below picks the first and one beyond picks the last. |
| Renderer.Shown | script.js:109 | The display keeps its previous text when sampling yields `null` or throws, and otherwise shows the sample. |
| Renderer.JsRem | script.js:115 | JavaScript `%` agrees with the mathematical remainder for a non-negative dividend. It lies in `(-n, 0]` for a negative one. |
| Renderer.NextIndex | script.js:114-115 | No change on an empty list. Otherwise a non-negative index stays in `[0, n)`, moving to `i + 1` or wrapping from `n - 1` to 0. |
| Renderer.Ticks | script.js:112-117 | The index after `k` ticks. `Renderer.TicksFormula`, `Renderer.FullCycle` and `Renderer.EmptyNeverTicks` state where it lands. |
| Renderer.TicksFormula | script.js:115 | `k` ticks from `i` in `[0, n)` land on `(i + k) mod n`. |
| Renderer.FullCycle | script.js:112-117 | `n` ticks bring the index back to its start, and no fewer ticks do. |
| Renderer.EmptyNeverTicks | script.js:114 | On an empty list no number of ticks moves the index. |
| Renderer.DecimalString | script.js:122 | `String(n)` is a non-empty digit string whose value is `n`. It is one digit exactly for `n < 10`, and at most three below 1000. |
| Renderer.PadStart | script.js:122 | `padStart` yields length `len` or the length of `s`, whichever is larger, with `s` as the suffix and only `fill` before it. |
| Renderer.LeadingZeros | script.js:122 | Zero-padding a digit string keeps it a digit string of the same value. |
| Renderer.FrameNumberDigits | script.js:122 | For `n < 1000` the padded frame number is three digits whose value is `n`. |
| Renderer.FrameNumber | script.js:122 | `String(n).padStart(3, '0')`. `Renderer.FrameNumberDigits` shows it is three digits whose value is `n` below 1000. |
| Renderer.FramePath | script.js:124 | `frames/frame_${num}.png`. `Renderer.FramePathInjective` shows distinct numbers give distinct paths. |
| Renderer.FramePathInjective | script.js:124 | Distinct frame numbers below 1000 give distinct paths. |
| Renderer.FrameListEntry | script.js:120-126 | Of the first `n < 1000` handles, entry `k` has src `frames/frame_NNN.png` with NNN the three digits of `k + 1`, and no other entry equals it. |
| Renderer.PreloadList | script.js:120-126 | The 720 handles in order. `Renderer.PreloadEntry` gives each entry's path and shows they are distinct. |
| Renderer.PreloadEntry | script.js:120-126 | The preloaded list has 720 entries. Entry `k` is `frames/frame_NNN.png` with NNN the three digits of `k + 1`, and all entries are distinct. |
| Renderer.SampleColumns | script.js:34 | The sampling width is at least 2. It is 2 for `W < 12`, and from `W >= 8` on it is `floor(W / 4)`. |
| Renderer.SampleRows | script.js:35 | The sampling height is at least 2. It is 2 for `H < 18`, and from `H >= 12` on it is `floor(H / 6)`. |
| Renderer.Player.constructor | script.js:12-13 | The page starts with no frames, index 0, and the element's initial text and canvas size. |
| Renderer.Player.ComputeOutputSize | script.js:28-48 | Returns `W = innerWidth - 40` and `H = innerHeight * 0.6`, and sets the canvas to `SampleColumns(W)` by `SampleRows(H)`, both at least 2. |
| Renderer.Player.RenderFrame | script.js:106-110 | The display becomes the sample of the clamped index's frame, or keeps its old text on `null` or an exception. `threw` is set exactly when the frame is broken. An empty list always keeps the text and never throws. |
| Renderer.Player.AdvanceFrame | script.js:112-117 | On an empty list nothing changes. Otherwise the index becomes `(i + 1) % n` and stays valid, even when the new frame then throws. The new frame's sample is shown when there is one. |
| Renderer.Player.PreloadFrames | script.js:120-127 | Appends exactly the 720 handles `frames/frame_001.png` to `frames/frame_720.png`, in order. |
| Renderer.Player.OnResize | script.js:135-138 | Recomputes the sampling size and re-renders the current index at the new size. It reports an exception exactly when that frame is broken. |
| Renderer.Player.Start | script.js:130-132 | After start-up the list holds the 720 handles and the size is set. Frame 0's sample is shown, or the old text if it has not loaded. An exception is reported exactly when frame 0 is broken. |
| Baker.TargetWidth | build-scripts/generateFrames.js:14 | The target width is at least 2. It is 2 for widths below 12, and from width 8 on it is `floor(width * 0.25)`. |
| Baker.TargetHeight | build-scripts/generateFrames.js:15 | The target height is at least 2. It is 2 for heights below 18, and from height 12 on it is `floor(height * 0.1667)`. |
| Baker.ColumnsMatchQuarter | build-scripts/generateFrames.js:9-14 | `scaleX = 0.25` gives exactly the canvas's `max(2, floor(width / 4))`. |
| Baker.RowsMatchSixthBelow5003 | build-scripts/generateFrames.js:10-15 | Up to height 5002, `scaleY = 0.1667` gives the same rows as the canvas's `max(2, floor(height / 6))`. |
| Baker.RowsExceedSixthAt5003 | build-scripts/generateFrames.js:10-15 | At height 5003, `0.1667` gives 834 rows where `/ 6` gives 833. |
| Baker.ColourGlyphOrder | build-scripts/generateFrames.js:21-24 | Black bakes to `$` and white to `'`, and a brighter grey never bakes to an earlier ramp position. |
| Baker.ColourGlyph | build-scripts/generateFrames.js:21-24 | The glyph of a pixel colour is always a ramp character. |
| Baker.BakedGrid | build-scripts/generateFrames.js:14-27 | A bitmap bakes to exactly `TargetHeight` rows of `TargetWidth` glyphs. |
| Baker.BakedFrame | build-scripts/generateFrames.js:18-28 | The text of one frame. `Baker.BakedFrameShape` gives its length and every character, and `Baker.BakedFrameGlyphs` shows it is only glyphs and line breaks. |
| Baker.ImageToAscii | build-scripts/generateFrames.js:12-29 | The nested loop over the resized pixels yields exactly the baked frame of the bitmap. |
| Baker.BakedFrameShape | build-scripts/generateFrames.js:18-28 | A baked frame has length `h * (w + 1)`. The character at `y * (w + 1) + x` is the glyph of resized pixel `(x, y)` for `x < w`, and `\n` at `x == w`. |
| Baker.BakedFrameGlyphs | build-scripts/generateFrames.js:18-28 | A baked frame consists only of ramp glyphs and line breaks. |
| Baker.IsPng | build-scripts/generateFrames.js:33 | `endsWith('.png')`, case-sensitive. `Baker.IsPngExactly` shows it holds exactly for names of the form `base + ".png"`. |
| Baker.IsPngExactly | build-scripts/generateFrames.js:33 | Every `base + ".png"` is a PNG name, and every PNG name is its own first part followed by `.png`. |
| Baker.PngFilter | build-scripts/generateFrames.js:33 | Keeps a name exactly when it is listed and ends in `.png`. Each kept name occurs as often as in the listing, every other name not at all. The list never grows. |
| Baker.Insert | build-scripts/generateFrames.js:34 | Inserting a name adds exactly one copy of it to the multiset of names. |
| Baker.InsertSorted | build-scripts/generateFrames.js:34 | Inserting into a sorted list keeps it sorted. |
| Baker.Sort | build-scripts/generateFrames.js:34 | `.sort()` keeps the length and the multiset of names. `Baker.SortCorrect` shows the result is ascending. |
| Baker.SortCorrect | build-scripts/generateFrames.js:34 | The sorted list is in ascending character order and is a permutation of its input. |
| Baker.SortedUnique | build-scripts/generateFrames.js:34 | Two ascending lists with the same names are equal, so every correct sort yields the same order. |
| Baker.PngNames | build-scripts/generateFrames.js:32-34 | The files in processing order. `Baker.PngNamesCorrect` states what they are. |
| Baker.PngNamesCorrect | build-scripts/generateFrames.js:32-34 | The processed names are exactly the `.png` names of the listing, with multiplicity, ascending, and equal to any other ascending arrangement of them. |
| Baker.Escape | build-scripts/generateFrames.js:40 | The backtick-escaping `replace` never shortens the text. `Baker.EscapeIdentity`, `Baker.EscapeLength`, `Baker.EscapeSafe` and `Baker.ReadEscaped` give its meaning. |
| Baker.EscapeIdentity | build-scripts/generateFrames.js:40 | Text without backticks is left unchanged. |
| Baker.EscapeLength | build-scripts/generateFrames.js:40 | Escaping lengthens the text by one character per backtick. |
| Baker.EscapeSafe | build-scripts/generateFrames.js:40 | In escaped backslash-free text every backtick is preceded by a backslash, and every backslash is followed by a backtick. |
| Baker.ReadEscaped | build-scripts/generateFrames.js:40 | An escaped plain text followed by a closing backtick reads back, by template-literal rules, as the original text, with the rest untouched. |
| Baker.ReadLiteral | build-scripts/generateFrames.js:44 | Reads one template literal with its `\c` escapes, as loading the generated module does, always consuming at least the closing backtick. `Baker.ReadEscaped` shows it undoes the escape. |
| Baker.GlyphTextPlain | build-scripts/generateFrames.js:8 | Glyph text has no backslash and no `{`, so it is plain. |
| Baker.Quoted | build-scripts/generateFrames.js:44 | Wrapping in backticks keeps one entry per frame. |
| Baker.Join | build-scripts/generateFrames.js:44 | `join(sep)`. `Baker.JoinEnds` shows a joined list starts with its first part and ends with its last. |
| Baker.JoinEnds | build-scripts/generateFrames.js:44 | A non-empty joined list starts with its first part and ends with its last part. |
| Baker.FileContent | build-scripts/generateFrames.js:43-45 | The module text. `Baker.FileContentShape` and `Baker.FileRoundTrip` state its shape and meaning. |
| Baker.FileContentShape | build-scripts/generateFrames.js:43-45 | The text opens with `export const frames = [\n` and closes with `\n];\n`. With no frames it is just those two. |
| Baker.EscapedAll | build-scripts/generateFrames.js:40 | Escaping keeps one entry per frame. |
| Baker.ParseJoined | build-scripts/generateFrames.js:44-45 | The joined backtick-quoted escaped frames, followed by the footer, read back as exactly those frames. |
| Baker.ParseFile | build-scripts/generateFrames.js:43-45 | Loading the generated module to get its `frames` array. `Baker.FileRoundTrip` shows it inverts the writer. |
| Baker.FileRoundTrip | build-scripts/generateFrames.js:43-45 | Loading the module text built from escaped plain frames gives back exactly those frames, including the empty list. |
| Baker.BakedFrames | build-scripts/generateFrames.js:37-41 | One baked frame per selected file. |
| Baker.BakedFramesPlain | build-scripts/generateFrames.js:37-41 | Every baked frame is plain text, so its escape is undone on loading. |
| Baker.Generate | build-scripts/generateFrames.js:31-49 | `framesArray` holds the escaped frames of the `.png` files in name order. `content` is header, backtick-quoted entries joined by `,\n`, and footer. Loading `content` gives back the baked frames. |

## Left out

- The page's DOM and UI glue is not modelled: element lookup, font and hero sizing, fade-in delays and the contact button. It has no logic beyond assignments.
- `setInterval` and the resize listener are not modelled as timers. `AdvanceFrame` and `OnResize` are plain method calls, and `frameRate` is not used.
- Canvas `clearRect`, `drawImage` and `getImageData` are not modelled. Their result is the `Browser.draw` parameter, which yields four bytes per pixel, or nothing for a broken image, on which `drawImage` throws. `img.complete` is the `Browser.complete` parameter, true for a loaded image and for one whose load failed.
- Exceptions are reported, not propagated. A broken frame makes `imageToASCII` throw, and the `threw` result of `RenderFrame`, `AdvanceFrame`, `OnResize` and `Start` reports that, with the text left as it was. What the page does after an uncaught exception is not modelled: at start-up it would stop the script before the timer and the resize listener are registered.
- Jimp's `read`, `resize`, `getPixelColor` and `intToRGBA` are not modelled. The resized pixel colours are the `Bitmap.resized` parameter.
- The directory listing is an input. `Jimp.read` of each file is the `read` parameter. File writing and console output are not modelled: the module text is returned. The per-file progress line is omitted.
- `async`/`await` and the `.catch` handler are not modelled.
- Floating point is modelled by exact reals. Luminance weights, `Math.pow`, `innerHeight * 0.6` and the scale factors are computed exactly, so results that IEEE-754 rounding would move across an integer boundary are not captured. Colours whose exact luminance lands on a glyph boundary are the visible case. For example, colour (66, 2, 3) has exact luminance 21.25 and ramp index 1 (`@`) in the model. In double arithmetic the weighted sum comes out just below 21.25, so the baker's `Math.floor` gives index 0 (`$`).
- `Math.pow` is a parameter. Properties about specific gamma values hold only under the stated assumptions on it, such as `pow(0, g) == 0`.
- Renderer.AdjustMonotone: requires `pow` to keep the order of the two inputs, because `pow` is a parameter rather than `Math.pow`.
- Baker.SortCorrect: orders Dafny characters, which are Unicode scalar values. JavaScript's default sort compares UTF-16 code units, and the two orders differ only for names with characters outside the Basic Multilingual Plane.
- Baker.ReadEscaped: the reader of the generated module handles only the `\c` escape and a `${` substitution, which it rejects. Other template-literal escapes are not modelled, and neither is line-terminator normalisation. Baked text has no backslash, `{` or carriage return, so neither case arises.
