/**
 * The offline baker of build-scripts/generateFrames.js: each PNG frame is
 * shrunk by fixed scale factors and turned into glyph text (no gamma or
 * contrast), and the frames are written out, in file-name order, as the
 * template literals of one JavaScript module.
 */
module Baker {
  import opened Options
  import opened Glyphs

  /** Horizontal scale, the runtime's `/ 4`. */
  const SCALE_X: real := 0.25

  /** Vertical scale, meant as the runtime's `/ 6`. */
  const SCALE_Y: real := 0.1667

  // ---------------------------------------------------------------------
  // One frame

  /** A pixel colour as `Jimp.intToRGBA` returns it (alpha unused). */
  datatype Rgb = Rgb(r: Byte, g: Byte, b: Byte)

  /**
   * A decoded PNG: its size, and the colour of pixel `(x, y)` once the image
   * has been resized to `w` by `h` (`resized(w, h, x, y)`).
   */
  datatype Bitmap = Bitmap(width: nat, height: nat, resized: (nat, nat, nat, nat) -> Rgb)

  /** `Math.max(2, Math.floor(width * scaleX))`. */
  function TargetWidth(width: nat): (w: nat)
    ensures 2 <= w
    ensures width < 12 ==> w == 2
    ensures 8 <= width ==> w as real <= width as real * SCALE_X < w as real + 1.0
  {
    Max(2, (width as real * SCALE_X).Floor)
  }

  /** `Math.max(2, Math.floor(height * scaleY))`. */
  function TargetHeight(height: nat): (h: nat)
    ensures 2 <= h
    ensures height < 18 ==> h == 2
    ensures 12 <= height ==> h as real <= height as real * SCALE_Y < h as real + 1.0
  {
    Max(2, (height as real * SCALE_Y).Floor)
  }

  /** The column count always equals the runtime's `floor(width / 4)` ratio (floored at 2). */
  lemma ColumnsMatchQuarter(width: nat)
    ensures TargetWidth(width) == Max(2, width / 4)
  {
    var q, r := width / 4, width % 4;
    assert width == 4 * q + r;
    assert width as real * SCALE_X == q as real + r as real / 4.0;
  }

  /** Up to 5002 pixels of height the row count equals `floor(height / 6)` (floored at 2). */
  lemma RowsMatchSixthBelow5003(height: nat)
    requires height <= 5002
    ensures TargetHeight(height) == Max(2, height / 6)
  {
    var q, r := height / 6, height % 6;
    assert height == 6 * q + r;
    // 0.1667 == 1/6 + 1/30000
    assert height as real * SCALE_Y == q as real + r as real / 6.0 + height as real / 30000.0;
    assert r as real / 6.0 + height as real / 30000.0 < 1.0;
  }

  /** At 5003 pixels of height `0.1667` gives one row more than `/ 6` would. */
  lemma RowsExceedSixthAt5003()
    ensures 5003 / 6 == 833
    ensures TargetHeight(5003) == 834
  {
    assert 5003.0 * SCALE_Y == 834.0001;
  }

  /** The glyph of a pixel colour: BT.601 luminance straight to the ramp. */
  function ColourGlyph(c: Rgb): (g: char)
    ensures g in RAMP
  {
    Glyph(Luminance(c.r, c.g, c.b))
  }

  /** Black bakes to `$`, white to `'`, and a brighter grey never to an earlier glyph. */
  lemma ColourGlyphOrder(u: Byte, v: Byte)
    requires u <= v
    ensures ColourGlyph(Rgb(0, 0, 0)) == '$' && ColourGlyph(Rgb(255, 255, 255)) == '\''
    ensures GlyphIndex(Luminance(u, u, u)) <= GlyphIndex(Luminance(v, v, v))
  {
    GlyphEnds();
    GlyphIndexMonotone(Luminance(u, u, u), Luminance(v, v, v));
  }

  /** The rows of glyphs a bitmap bakes to. */
  function BakedGrid(image: Bitmap): (rows: seq<string>)
    ensures |rows| == TargetHeight(image.height) && Uniform(rows, TargetWidth(image.width))
  {
    var w, h := TargetWidth(image.width), TargetHeight(image.height);
    seq(h, y requires 0 <= y < h =>
      seq(w, x requires 0 <= x < w => ColourGlyph(image.resized(w, h, x, y))))
  }

  /** The text a bitmap bakes to. */
  function BakedFrame(image: Bitmap): string
  {
    Lines(BakedGrid(image))
  }

  /**
   * `imageToASCII`: resize to the target size and walk the pixels row by
   * row, one glyph per pixel and a line break per row.
   */
  method ImageToAscii(image: Bitmap) returns (ascii: string)
    ensures ascii == BakedFrame(image)
  {
    var w := Max(2, (image.width as real * SCALE_X).Floor);
    var h := Max(2, (image.height as real * SCALE_Y).Floor);
    ghost var rows := BakedGrid(image);
    ascii := "";
    var y := 0;
    while y < h
      invariant 0 <= y <= h
      invariant ascii == Lines(rows[..y])
    {
      ghost var done, row := ascii, rows[y];
      var x := 0;
      while x < w
        invariant 0 <= x <= w
        invariant ascii == done + row[..x]
      {
        var c := image.resized(w, h, x, y);
        var lum := Luminance(c.r, c.g, c.b);
        var idx := GlyphIndex(lum);
        assert row[..x + 1] == row[..x] + [RAMP[idx]];
        ascii := ascii + [RAMP[idx]];
        x := x + 1;
      }
      assert row[..w] == row;
      ascii := ascii + "\n";
      assert rows[..y + 1][..y] == rows[..y];
      y := y + 1;
    }
    assert rows[..h] == rows;
  }

  /**
   * A baked frame has `h` lines of `w` glyphs each followed by a line break;
   * character `x` of line `y` is the glyph of resized pixel `(x, y)`.
   */
  lemma BakedFrameShape(image: Bitmap, x: nat, y: nat)
    requires x <= TargetWidth(image.width) && y < TargetHeight(image.height)
    ensures |BakedFrame(image)| == TargetHeight(image.height) * (TargetWidth(image.width) + 1)
    ensures y * (TargetWidth(image.width) + 1) + x < |BakedFrame(image)|
    ensures BakedFrame(image)[y * (TargetWidth(image.width) + 1) + x]
         == if x < TargetWidth(image.width)
            then ColourGlyph(image.resized(TargetWidth(image.width), TargetHeight(image.height), x, y))
            else '\n'
  {
    var w, h := TargetWidth(image.width), TargetHeight(image.height);
    var rows := BakedGrid(image);
    assert |BakedFrame(image)| == h * (w + 1) by {
      LinesLength(rows, w);
    }
    LinesAt(rows, w, y, x);
    if x < w {
      assert rows[y][x] == ColourGlyph(image.resized(w, h, x, y));
    }
  }

  /** A baked frame consists only of ramp glyphs and line breaks. */
  lemma BakedFrameGlyphs(image: Bitmap)
    ensures GlyphText(BakedFrame(image))
  {
    var w, h := TargetWidth(image.width), TargetHeight(image.height);
    var rows := BakedGrid(image);
    forall y | 0 <= y < |rows|
      ensures GlyphText(rows[y])
    {
      assert forall x :: 0 <= x < w ==> rows[y][x] == ColourGlyph(image.resized(w, h, x, y));
    }
    LinesGlyphText(rows);
  }

  // ---------------------------------------------------------------------
  // Choosing and ordering the frame files

  /** `f.endsWith('.png')`, case-sensitive. */
  predicate IsPng(name: string)
  {
    |name| >= 4 && name[|name| - 4..] == ".png"
  }

  /** The PNG names are exactly the names of the form `base + ".png"`. */
  lemma IsPngExactly(base: string, name: string)
    ensures IsPng(base + ".png")
    ensures IsPng(name) ==> name == name[..|name| - 4] + ".png"
  {
    assert (base + ".png")[|base|..] == ".png";
  }

  /** `files.filter(f => f.endsWith('.png'))`. */
  function PngFilter(names: seq<string>): (r: seq<string>)
    ensures forall n :: n in r <==> n in names && IsPng(n)
    ensures forall i :: 0 <= i < |r| ==> IsPng(r[i])
    ensures |r| <= |names|
    ensures forall n :: multiset(r)[n] == if IsPng(n) then multiset(names)[n] else 0
  {
    if names == [] then []
    else
      assert names == [names[0]] + names[1..];
      if IsPng(names[0]) then [names[0]] + PngFilter(names[1..])
      else PngFilter(names[1..])
  }

  /** The default comparison of `Array.prototype.sort`: lexicographic by character code. */
  predicate LexLeq(a: string, b: string)
  {
    a == [] || (b != [] && (a[0] < b[0] || (a[0] == b[0] && LexLeq(a[1..], b[1..]))))
  }

  lemma {:induction false} LexLeqReflexive(a: string)
    ensures LexLeq(a, a)
  {
    if a != [] {
      LexLeqReflexive(a[1..]);
    }
  }

  lemma {:induction false} LexLeqTotal(a: string, b: string)
    ensures LexLeq(a, b) || LexLeq(b, a)
  {
    if a != [] && b != [] && a[0] == b[0] {
      LexLeqTotal(a[1..], b[1..]);
    }
  }

  lemma {:induction false} LexLeqAntisymmetric(a: string, b: string)
    requires LexLeq(a, b) && LexLeq(b, a)
    ensures a == b
  {
    if a != [] && b != [] {
      LexLeqAntisymmetric(a[1..], b[1..]);
      assert a == [a[0]] + a[1..];
      assert b == [b[0]] + b[1..];
    }
  }

  lemma {:induction false} LexLeqTransitive(a: string, b: string, c: string)
    requires LexLeq(a, b) && LexLeq(b, c)
    ensures LexLeq(a, c)
  {
    if a != [] && b != [] && c != [] && a[0] == b[0] == c[0] {
      LexLeqTransitive(a[1..], b[1..], c[1..]);
    }
  }

  ghost predicate Sorted(s: seq<string>)
  {
    forall i, j :: 0 <= i < j < |s| ==> LexLeq(s[i], s[j])
  }

  /** Every element of `s` is at least `lo`. */
  ghost predicate AtLeast(lo: string, s: seq<string>)
  {
    forall j :: 0 <= j < |s| ==> LexLeq(lo, s[j])
  }

  /** Inserts `x` into a sorted list in front of the first element it does not exceed. */
  function Insert(x: string, s: seq<string>): (r: seq<string>)
    ensures multiset(r) == multiset(s) + multiset{x}
  {
    if s == [] then [x]
    else if LexLeq(x, s[0]) then [x] + s
    else
      var r := [s[0]] + Insert(x, s[1..]);
      assert s == [s[0]] + s[1..];
      r
  }

  /** A sorted list behind a head that bounds it is sorted. */
  lemma ConsSorted(lo: string, s: seq<string>)
    requires Sorted(s) && AtLeast(lo, s)
    ensures Sorted([lo] + s)
  {
  }

  /** A lower bound of a list and of `x` bounds the list with `x` inserted. */
  lemma InsertAtLeast(lo: string, x: string, s: seq<string>)
    requires AtLeast(lo, s) && LexLeq(lo, x)
    ensures AtLeast(lo, Insert(x, s))
  {
    var r := Insert(x, s);
    forall j | 0 <= j < |r|
      ensures LexLeq(lo, r[j])
    {
      assert r[j] in multiset(r);
      if r[j] != x {
        assert r[j] in multiset(s);
      }
    }
  }

  lemma {:induction false} InsertSorted(x: string, s: seq<string>)
    requires Sorted(s)
    ensures Sorted(Insert(x, s))
  {
    if s == [] {
    } else if LexLeq(x, s[0]) {
      forall j | 0 <= j < |s|
        ensures LexLeq(x, s[j])
      {
        if j > 0 {
          LexLeqTransitive(x, s[0], s[j]);
        }
      }
      ConsSorted(x, s);
    } else {
      LexLeqTotal(x, s[0]);
      InsertSorted(x, s[1..]);
      assert AtLeast(s[0], s[1..]);
      InsertAtLeast(s[0], x, s[1..]);
      ConsSorted(s[0], Insert(x, s[1..]));
    }
  }

  /** `.sort()` on the file names; any correct sort gives the same list (see `SortedUnique`). */
  function Sort(s: seq<string>): (r: seq<string>)
    ensures |r| == |s| && multiset(r) == multiset(s)
  {
    if s == [] then []
    else
      assert s == [s[0]] + s[1..];
      var r := Insert(s[0], Sort(s[1..]));
      assert |r| == |multiset(r)|;
      r
  }

  /** The sorted list is ordered and holds exactly the names it was given. */
  lemma {:induction false} SortCorrect(s: seq<string>)
    ensures Sorted(Sort(s))
    ensures multiset(Sort(s)) == multiset(s)
  {
    if s != [] {
      SortCorrect(s[1..]);
      InsertSorted(s[0], Sort(s[1..]));
      assert s == [s[0]] + s[1..];
    }
  }

  /** The first element of an ordered list does not exceed any of its elements. */
  lemma SortedHeadLeast(s: seq<string>, x: string)
    requires Sorted(s) && x in multiset(s)
    ensures s != [] && LexLeq(s[0], x)
  {
    var i :| 0 <= i < |s| && s[i] == x;
    if i == 0 {
      LexLeqReflexive(x);
    }
  }

  /** Dropping the head removes one copy of it from the multiset. */
  lemma TailMultiset(s: seq<string>)
    requires s != []
    ensures multiset(s[1..]) == multiset(s) - multiset{s[0]}
  {
    assert s == [s[0]] + s[1..];
  }

  /** Two ordered lists with the same names are equal: the sorted order is unique. */
  lemma {:induction false} SortedUnique(a: seq<string>, b: seq<string>)
    requires Sorted(a) && Sorted(b) && multiset(a) == multiset(b)
    ensures a == b
  {
    if a != [] {
      assert a[0] in multiset(a);
      SortedHeadLeast(b, a[0]);
      assert b[0] in multiset(b);
      SortedHeadLeast(a, b[0]);
      LexLeqAntisymmetric(a[0], b[0]);
      TailMultiset(a);
      TailMultiset(b);
      SortedUnique(a[1..], b[1..]);
      assert a == [a[0]] + a[1..];
      assert b == [b[0]] + b[1..];
    } else {
      assert |b| == |multiset(b)| == 0;
    }
  }

  /** The frame files in processing order: the PNG names, sorted. */
  function PngNames(listing: seq<string>): seq<string>
  {
    Sort(PngFilter(listing))
  }

  /**
   * Exactly the PNG names of the listing, each as often as listed, in
   * ascending order; and no other order has those properties.
   */
  lemma PngNamesCorrect(listing: seq<string>, other: seq<string>)
    ensures Sorted(PngNames(listing))
    ensures multiset(PngNames(listing)) == multiset(PngFilter(listing))
    ensures forall n :: n in PngNames(listing) <==> n in listing && IsPng(n)
    ensures Sorted(other) && multiset(other) == multiset(PngFilter(listing)) ==> other == PngNames(listing)
  {
    SortCorrect(PngFilter(listing));
    forall n
      ensures n in PngNames(listing) <==> n in PngFilter(listing)
    {
      assert n in PngNames(listing) <==> n in multiset(PngNames(listing));
      assert n in PngFilter(listing) <==> n in multiset(PngFilter(listing));
    }
    if Sorted(other) && multiset(other) == multiset(PngFilter(listing)) {
      SortedUnique(other, PngNames(listing));
    }
  }

  // ---------------------------------------------------------------------
  // Escaping and the generated module

  /** `ascii.replace(/`/g, '\\`')`: a backslash before every backtick. */
  function Escape(s: string): (r: string)
    ensures |s| <= |r|
  {
    if s == [] then ""
    else (if s[0] == '`' then "\\`" else [s[0]]) + Escape(s[1..])
  }

  /** The number of backticks in `s`. */
  function Backticks(s: string): nat
  {
    if s == [] then 0 else (if s[0] == '`' then 1 else 0) + Backticks(s[1..])
  }

  /** Text without backticks is left as it is. */
  lemma {:induction false} EscapeIdentity(s: string)
    requires forall i :: 0 <= i < |s| ==> s[i] != '`'
    ensures Escape(s) == s
  {
    if s != [] {
      assert forall i :: 0 <= i < |s[1..]| ==> s[1..][i] == s[i + 1];
      EscapeIdentity(s[1..]);
    }
  }

  /** Escaping adds one character per backtick. */
  lemma {:induction false} EscapeLength(s: string)
    ensures |Escape(s)| == |s| + Backticks(s)
  {
    if s != [] {
      EscapeLength(s[1..]);
    }
  }

  /**
   * Text a template literal reproduces unchanged once its backticks are
   * escaped: no backslash, and no `${` that would start a substitution.
   */
  ghost predicate Plain(s: string)
  {
    forall i :: 0 <= i < |s| ==> s[i] != '\\' && (s[i] == '$' && i + 1 < |s| ==> s[i + 1] != '{')
  }

  /** In escaped plain text every backtick follows a backslash and every backslash precedes a backtick. */
  lemma {:induction false} EscapeSafe(s: string)
    requires Plain(s)
    ensures forall i :: 0 <= i < |Escape(s)| && Escape(s)[i] == '`' ==> 0 < i && Escape(s)[i - 1] == '\\'
    ensures forall i :: 0 <= i < |Escape(s)| && Escape(s)[i] == '\\' ==> i + 1 < |Escape(s)| && Escape(s)[i + 1] == '`'
  {
    if s != [] {
      EscapeSafe(s[1..]);
      var head := if s[0] == '`' then "\\`" else [s[0]];
      assert Escape(s) == head + Escape(s[1..]);
      forall i | 0 <= i < |Escape(s)| && Escape(s)[i] == '`'
        ensures 0 < i && Escape(s)[i - 1] == '\\'
      {
        if i >= |head| {
          assert Escape(s)[i] == Escape(s[1..])[i - |head|];
        }
      }
      forall i | 0 <= i < |Escape(s)| && Escape(s)[i] == '\\'
        ensures i + 1 < |Escape(s)| && Escape(s)[i + 1] == '`'
      {
        if i >= |head| {
          assert Escape(s)[i] == Escape(s[1..])[i - |head|];
        }
      }
    }
  }

  /**
   * Reads the body of a template literal up to its closing backtick, where
   * `\c` stands for `c`; returns the text and what follows the backtick.
   * A substitution `${` is outside what the baker writes and reads as failure.
   */
  function ReadLiteral(t: string): (r: Option<(string, string)>)
    ensures r.Some? ==> |r.value.1| < |t|
  {
    if t == [] then None
    else if t[0] == '`' then Some(("", t[1..]))
    else if t[0] == '$' && |t| >= 2 && t[1] == '{' then None
    else if t[0] == '\\' then
      if |t| < 2 then None
      else match ReadLiteral(t[2..])
        case None => None
        case Some((body, rest)) => Some(([t[1]] + body, rest))
    else match ReadLiteral(t[1..])
      case None => None
      case Some((body, rest)) => Some(([t[0]] + body, rest))
  }

  /** An escaped plain text, closed by a backtick, reads back as the text. */
  lemma {:induction false} ReadEscaped(s: string, rest: string)
    requires Plain(s)
    ensures ReadLiteral(Escape(s) + "`" + rest) == Some((s, rest))
  {
    var t := Escape(s) + "`" + rest;
    if s == [] {
      assert t == "`" + rest;
    } else {
      assert Plain(s[1..]) by {
        forall i | 0 <= i < |s[1..]|
          ensures s[1..][i] != '\\' && (s[1..][i] == '$' && i + 1 < |s[1..]| ==> s[1..][i + 1] != '{')
        {
          assert s[1..][i] == s[i + 1];
        }
      }
      ReadEscaped(s[1..], rest);
      var tail := Escape(s[1..]) + "`" + rest;
      assert s == [s[0]] + s[1..];
      if s[0] == '`' {
        assert t == "\\`" + tail;
        assert t[2..] == tail;
      } else {
        assert t == [s[0]] + tail;
        assert t[1..] == tail;
        if s[0] == '$' {
          assert |s| == 1 || s[1] != '{';
          assert tail[0] != '{' by {
            if |s| == 1 {
              assert tail[0] == '`';
            } else if s[1] == '`' {
              assert tail[0] == '\\';
            } else {
              assert tail[0] == s[1];
            }
          }
        }
      }
    }
  }

  const HEADER: string := "export const frames = [\n"
  const SEPARATOR: string := ",\n"
  const FOOTER: string := "\n];\n"

  /** `arr.join(sep)`. */
  function Join(parts: seq<string>, sep: string): string
  {
    if parts == [] then ""
    else if |parts| == 1 then parts[0]
    else parts[0] + sep + Join(parts[1..], sep)
  }

  /** A joined list starts with its first part and ends with its last. */
  lemma {:induction false} JoinEnds(parts: seq<string>, sep: string)
    requires parts != []
    ensures |parts[0]| <= |Join(parts, sep)| && Join(parts, sep)[..|parts[0]|] == parts[0]
    ensures var last := parts[|parts| - 1]; var j := Join(parts, sep);
      |last| <= |j| && j[|j| - |last|..] == last
  {
    if |parts| > 1 {
      JoinEnds(parts[1..], sep);
      assert Join(parts, sep) == parts[0] + (sep + Join(parts[1..], sep));
      assert parts[1..][|parts[1..]| - 1] == parts[|parts| - 1];
    }
  }

  /** Each entry in backticks. */
  function Quoted(entries: seq<string>): (q: seq<string>)
    ensures |q| == |entries|
  {
    seq(|entries|, k requires 0 <= k < |entries| => "`" + entries[k] + "`")
  }

  /** The generated module for escaped entries. */
  function FileContent(entries: seq<string>): string
  {
    HEADER + Join(Quoted(entries), SEPARATOR) + FOOTER
  }

  /** The module text opens with the array header and closes with the footer; no entries leave just the two. */
  lemma FileContentShape(entries: seq<string>)
    ensures var c := FileContent(entries);
      |HEADER| + |FOOTER| <= |c| && c[..|HEADER|] == HEADER && c[|c| - |FOOTER|..] == FOOTER
    ensures entries == [] ==> FileContent(entries) == HEADER + FOOTER
  {
    var body := Join(Quoted(entries), SEPARATOR);
    assert FileContent(entries) == HEADER + body + FOOTER;
  }

  /** Reads the comma-separated literals of a generated module up to its footer. */
  function ParseEntries(t: string): Option<seq<string>>
    decreases |t|
  {
    if t == [] || t[0] != '`' then None
    else match ReadLiteral(t[1..])
      case None => None
      case Some((body, rest)) =>
        if rest == FOOTER then Some([body])
        else if |rest| >= 2 && rest[..2] == SEPARATOR then
          match ParseEntries(rest[2..])
          case None => None
          case Some(more) => Some([body] + more)
        else None
  }

  /** Reads back the frames of a generated module, as loading it would. */
  function ParseFile(content: string): Option<seq<string>>
  {
    if |content| < |HEADER| || content[..|HEADER|] != HEADER then None
    else
      var t := content[|HEADER|..];
      if t == FOOTER then Some([]) else ParseEntries(t)
  }

  /** The escaped forms of `frames`. */
  function EscapedAll(frames: seq<string>): (e: seq<string>)
    ensures |e| == |frames|
  {
    seq(|frames|, k requires 0 <= k < |frames| => Escape(frames[k]))
  }

  lemma EscapedAllSnoc(frames: seq<string>, last: string)
    ensures EscapedAll(frames + [last]) == EscapedAll(frames) + [Escape(last)]
  {
  }

  lemma QuotedEscapedTail(frames: seq<string>)
    requires frames != []
    ensures Quoted(EscapedAll(frames))[0] == "`" + Escape(frames[0]) + "`"
    ensures Quoted(EscapedAll(frames))[1..] == Quoted(EscapedAll(frames[1..]))
  {
  }

  /** Parsing steps over a leading literal, then expects the footer or a separator. */
  lemma ParseAfterLiteral(t: string, body: string, rest: string)
    requires t != [] && t[0] == '`' && ReadLiteral(t[1..]) == Some((body, rest))
    ensures ParseEntries(t) ==
      if rest == FOOTER then Some([body])
      else if |rest| >= 2 && rest[..2] == SEPARATOR then
        match ParseEntries(rest[2..])
        case None => None
        case Some(more) => Some([body] + more)
      else None
  {
  }

  /** One literal at the front: it reads back as its plain text and parsing goes on after it. */
  lemma ParseFirst(s: string, after: string)
    requires Plain(s)
    ensures ParseEntries("`" + Escape(s) + "`" + after) ==
      if after == FOOTER then Some([s])
      else if |after| >= 2 && after[..2] == SEPARATOR then
        match ParseEntries(after[2..])
        case None => None
        case Some(more) => Some([s] + more)
      else None
  {
    var t := "`" + Escape(s) + "`" + after;
    assert t[1..] == Escape(s) + "`" + after;
    ReadEscaped(s, after);
    ParseAfterLiteral(t, s, after);
  }

  /** The joined literals of escaped plain frames, closed by the footer, read back as the frames. */
  lemma {:induction false} ParseJoined(frames: seq<string>)
    requires frames != []
    requires forall k :: 0 <= k < |frames| ==> Plain(frames[k])
    ensures ParseEntries(Join(Quoted(EscapedAll(frames)), SEPARATOR) + FOOTER) == Some(frames)
  {
    var q := Quoted(EscapedAll(frames));
    QuotedEscapedTail(frames);
    var head := Escape(frames[0]);
    if |frames| == 1 {
      assert Join(q, SEPARATOR) + FOOTER == "`" + head + "`" + FOOTER;
      ParseFirst(frames[0], FOOTER);
      assert frames == [frames[0]];
    } else {
      var more := frames[1..];
      var t' := Join(q[1..], SEPARATOR) + FOOTER;
      var after := SEPARATOR + t';
      assert Join(q, SEPARATOR) + FOOTER == "`" + head + "`" + after;
      ParseFirst(frames[0], after);
      assert after != FOOTER by {
        assert after[0] == ',';
      }
      assert after[..2] == SEPARATOR;
      assert after[2..] == t';
      ParseJoined(more);
      assert frames == [frames[0]] + more;
    }
  }

  /** Loading the generated module gives back exactly the plain frames that were escaped into it. */
  lemma FileRoundTrip(frames: seq<string>)
    requires forall k :: 0 <= k < |frames| ==> Plain(frames[k])
    ensures ParseFile(FileContent(EscapedAll(frames))) == Some(frames)
  {
    var content := FileContent(EscapedAll(frames));
    var body := Join(Quoted(EscapedAll(frames)), SEPARATOR) + FOOTER;
    assert content == HEADER + body;
    assert content[..|HEADER|] == HEADER;
    assert content[|HEADER|..] == body;
    if frames == [] {
      assert body == FOOTER;
    } else {
      ParseJoined(frames);
      assert body != FOOTER by {
        assert body[0] == '`';
      }
    }
  }

  /** Glyph text is plain: the ramp has no backslash and no `{`. */
  lemma GlyphTextPlain(s: string)
    requires GlyphText(s)
    ensures Plain(s)
  {
    forall i | 0 <= i < |s|
      ensures s[i] != '\\' && s[i] != '{'
    {
      assert s[i] in RAMP || s[i] == '\n';
    }
  }

  /** The text of each selected file, in processing order. */
  function BakedFrames(listing: seq<string>, read: string -> Bitmap): (frames: seq<string>)
    ensures |frames| == |PngNames(listing)|
  {
    var names := PngNames(listing);
    seq(|names|, k requires 0 <= k < |names| => BakedFrame(read(names[k])))
  }

  /** Entry `k` of the baked frames is the baked `k`-th selected file. */
  lemma BakedFramesAt(listing: seq<string>, read: string -> Bitmap, k: nat)
    requires k < |PngNames(listing)|
    ensures BakedFrames(listing, read)[k] == BakedFrame(read(PngNames(listing)[k]))
  {
  }

  lemma PrefixSnoc(s: seq<string>, k: nat)
    requires k < |s|
    ensures s[..k + 1] == s[..k] + [s[k]]
  {
  }

  /** Baked frames are plain text, so escaping them is undone on reading. */
  lemma BakedFramesPlain(listing: seq<string>, read: string -> Bitmap)
    ensures forall k :: 0 <= k < |BakedFrames(listing, read)| ==> Plain(BakedFrames(listing, read)[k])
  {
    var names := PngNames(listing);
    var baked := BakedFrames(listing, read);
    forall k | 0 <= k < |baked|
      ensures Plain(baked[k])
    {
      assert baked[k] == BakedFrame(read(names[k]));
      BakedFrameGlyphs(read(names[k]));
      GlyphTextPlain(baked[k]);
    }
  }

  /**
   * `generate`: bakes each PNG of the listing in name order, escapes it, and
   * assembles the module text that is written to `frames.js`.
   */
  method Generate(listing: seq<string>, read: string -> Bitmap) returns (framesArray: seq<string>, content: string)
    ensures framesArray == EscapedAll(BakedFrames(listing, read))
    ensures content == FileContent(framesArray)
    ensures ParseFile(content) == Some(BakedFrames(listing, read))
  {
    var files := Sort(PngFilter(listing));
    ghost var baked := BakedFrames(listing, read);
    framesArray := [];
    for k := 0 to |files|
      invariant framesArray == EscapedAll(baked[..k])
    {
      var ascii := ImageToAscii(read(files[k]));
      BakedFramesAt(listing, read, k);
      PrefixSnoc(baked, k);
      EscapedAllSnoc(baked[..k], ascii);
      framesArray := framesArray + [Escape(ascii)];
    }
    assert baked[..|files|] == baked;
    content := HEADER + Join(Quoted(framesArray), SEPARATOR) + FOOTER;
    BakedFramesPlain(listing, read);
    FileRoundTrip(baked);
  }
}
