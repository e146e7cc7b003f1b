/// Text output: `draw_letter` and `draw_text`. Glyphs come from a font whose
/// rasterisation is outside this model; a `Font` is whatever
/// `font.get_letter(letter, color, background, landscape)` returns.
module Text {
  import opened Builtins
  import opened Bus
  import opened Panel
  import opened Window
  import opened Fill

  /// A glyph's pixel bytes (two per pixel) and its width and height in pixels.
  datatype Glyph = Glyph(buf: seq<byte>, w: int, h: int)

  type Font = (char, int, int, bool) -> Glyph

  /// The keyword arguments `draw_letter` and `draw_text` share.
  datatype Style = Style(color: int, background: int, landscape: bool, rotate180: bool, spacing: int)

  /// The buffer `draw_letter` builds for `rotate_180`: a zeroed `bytearray`
  /// of the same length whose 2-byte pixels are those of `buf` in reverse
  /// order; an odd last byte is left 0.
  function Rotated(buf: seq<byte>): (r: seq<byte>)
    ensures |r| == |buf|
  {
    var n := |buf| / 2;
    seq(|buf|, k requires 0 <= k < |buf| => if k < 2 * n then buf[2 * (n - 1 - k / 2) + k % 2] else 0)
  }

  /// Pixel `i` of the rotated buffer is pixel `n - 1 - i` of the original,
  /// both bytes in their original order, so each RGB565 value is kept.
  lemma RotatedPixel(buf: seq<byte>, i: nat)
    requires i < |buf| / 2
    ensures var j := |buf| / 2 - 1 - i;
      Rotated(buf)[2 * i] == buf[2 * j] && Rotated(buf)[2 * i + 1] == buf[2 * j + 1]
  {
    var r := Rotated(buf);
    assert (2 * i) / 2 == i && (2 * i) % 2 == 0;
    assert (2 * i + 1) / 2 == i && (2 * i + 1) % 2 == 1;
  }

  /// Rotating an even-length buffer twice gives it back.
  lemma RotatedTwice(buf: seq<byte>)
    requires |buf| % 2 == 0
    ensures Rotated(Rotated(buf)) == buf
  {
    var n := |buf| / 2;
    var r := Rotated(buf);
    forall k | 0 <= k < |buf|
      ensures Rotated(r)[k] == buf[k]
    {
      var j := 2 * (n - 1 - k / 2) + k % 2;
      assert r[j] == buf[2 * (n - 1 - j / 2) + j % 2];
      assert j / 2 == n - 1 - k / 2 && j % 2 == k % 2;
    }
  }

  /// What `draw_letter` sends, and the `(w, h)` it returns.
  datatype Letter = Letter(run: Run, w: int, h: int)

  /// `draw_letter(x, y, letter, font, ...)`: nothing and `(0, h)` for a
  /// glyph of width 0; nothing and `(0, 0)` when the glyph's window is off
  /// the grid; otherwise one block. In landscape the glyph is `h` columns
  /// wide and `w` rows tall and ends on row `y - 1`.
  function LetterRun(p: Panel, font: Font, style: Style, x: int, y: int, c: char): Letter
  {
    var g := font(c, style.color, style.background, style.landscape);
    var buf := if style.rotate180 then Rotated(g.buf) else g.buf;
    if g.w == 0 then Letter(Emit([]), g.w, g.h)
    else
      var b := LetterWindow(x, y, g, style.landscape, buf);
      if IsOffGrid(p, b.x0, b.y0, b.x1, b.y1) then Letter(Emit([]), 0, 0)
      else Letter(BlockRun(b, true, true), g.w, g.h)
  }

  /// The window a glyph is drawn into.
  function LetterWindow(x: int, y: int, g: Glyph, landscape: bool, buf: seq<byte>): (b: Blit)
    ensures b.x1 - b.x0 + 1 == (if landscape then g.h else g.w)
    ensures b.y1 - b.y0 + 1 == (if landscape then g.w else g.h)
    ensures b.x0 == x && b.y0 == (if landscape then y - g.w else y) && b.data == buf
  {
    if landscape then Blit(x, y - g.w, x + g.h - 1, y - 1, buf)
    else Blit(x, y, x + g.w - 1, y + g.h - 1, buf)
  }

  /// `draw_letter` reports a non-zero width only after drawing the glyph,
  /// inside the panel, into a window of exactly its size (transposed in
  /// landscape) that holds its pixel bytes, reversed pixel by pixel for
  /// `rotate_180`; otherwise it sends nothing.
  lemma LetterWire(p: Panel, font: Font, style: Style, x: int, y: int, c: char)
    ensures var g := font(c, style.color, style.background, style.landscape);
      var l := LetterRun(p, font, style, x, y, c);
      var buf := if style.rotate180 then Rotated(g.buf) else g.buf;
      var b := LetterWindow(x, y, g, style.landscape, buf);
      (l.w != 0 <==> g.w != 0 && 0 <= b.x0 && 0 <= b.y0 && b.x1 < p.width && b.y1 < p.height) &&
      (l.w != 0 ==> l == Letter(BlockRun(b, true, true), g.w, g.h)) &&
      (l.w == 0 ==> l.run == Emit([]))
  {
  }

  /// The gap `draw_text` fills after a letter when `spacing` is non-zero:
  /// `spacing` columns right of the letter in portrait, `spacing` rows above
  /// it in landscape, in the background colour.
  function GapRun(p: Panel, style: Style, x: int, y: int, w: int, h: int): Run
  {
    if style.spacing == 0 then Emit([])
    else if style.landscape then FillHRectRun(p, x, y - w - style.spacing, h, style.spacing, style.background)
    else FillHRectRun(p, x + w, y, style.spacing, h, style.background)
  }

  /// The pen after a letter of width `w`: right by `w + spacing` in
  /// portrait, up by `w + spacing` in landscape.
  function Advance(style: Style, x: int, y: int, w: int): (int, int)
  {
    if style.landscape then (x, y - (w + style.spacing)) else (x + (w + style.spacing), y)
  }

  /// The loop of `draw_text` over `letters` from pen `(x, y)`: each letter,
  /// then its gap, then the rest from the advanced pen; it stops after the
  /// first letter that reports a zero width or height.
  function TextSteps(p: Panel, font: Font, style: Style, x: int, y: int, letters: seq<char>): Run
    decreases |letters|
  {
    if letters == [] then Emit([])
    else
      var l := LetterRun(p, font, style, x, y, letters[0]);
      if l.w == 0 || l.h == 0 then l.run
      else
        var next := Advance(style, x, y, l.w);
        Then(Then(l.run, GapRun(p, style, x, y, l.w, l.h)), TextSteps(p, font, style, next.0, next.1, letters[1..]))
  }

  /// The letters in the order `draw_text` visits them.
  function Visit(text: seq<char>, rotate180: bool): (letters: seq<char>)
    ensures multiset(letters) == multiset(text)
    ensures |letters| == |text|
    ensures !rotate180 ==> letters == text
    ensures rotate180 ==> forall k :: 0 <= k < |text| ==> letters[k] == text[|text| - 1 - k]
  {
    if rotate180 then
      ReverseMultiset(text);
      forall k | 0 <= k < |text| ensures Reverse(text)[k] == text[|text| - 1 - k] {
        ReverseAt(text, k);
      }
      Reverse(text)
    else text
  }

  lemma ReverseMultiset(s: seq<char>)
    ensures multiset(Reverse(s)) == multiset(s)
  {
    if s != [] {
      ReverseMultiset(s[1..]);
      assert s == [s[0]] + s[1..];
    }
  }

  /// `draw_text(x, y, text, font, ...)`.
  function TextRun(p: Panel, font: Font, style: Style, x: int, y: int, text: seq<char>): Run
  {
    TextSteps(p, font, style, x, y, Visit(text, style.rotate180))
  }

  /// Every letter of `letters` is drawn and reports a non-zero size when
  /// the pen starts at `(x, y)`.
  predicate AllDrawn(p: Panel, font: Font, style: Style, x: int, y: int, letters: seq<char>)
    decreases |letters|
  {
    letters == [] ||
    (var l := LetterRun(p, font, style, x, y, letters[0]);
     l.w != 0 && l.h != 0 &&
     var next := Advance(style, x, y, l.w);
     AllDrawn(p, font, style, next.0, next.1, letters[1..]))
  }

  /// The pen after drawing `letters` from `(x, y)`.
  function Pen(p: Panel, font: Font, style: Style, x: int, y: int, letters: seq<char>): (int, int)
    decreases |letters|
  {
    if letters == [] then (x, y)
    else
      var l := LetterRun(p, font, style, x, y, letters[0]);
      var next := Advance(style, x, y, l.w);
      Pen(p, font, style, next.0, next.1, letters[1..])
  }

  /// The widths of the glyphs of `letters` plus one spacing each.
  function Extent(font: Font, style: Style, letters: seq<char>): int
  {
    if letters == [] then 0
    else font(letters[0], style.color, style.background, style.landscape).w + style.spacing +
         Extent(font, style, letters[1..])
  }

  /// Text that is all drawn moves the pen by the sum of its glyph widths and
  /// spacings: along x in portrait, up along y in landscape.
  lemma {:induction false} PenMoves(p: Panel, font: Font, style: Style, x: int, y: int, letters: seq<char>)
    requires AllDrawn(p, font, style, x, y, letters)
    ensures Pen(p, font, style, x, y, letters) ==
            if style.landscape then (x, y - Extent(font, style, letters))
            else (x + Extent(font, style, letters), y)
    decreases |letters|
  {
    if letters != [] {
      var l := LetterRun(p, font, style, x, y, letters[0]);
      LetterWire(p, font, style, x, y, letters[0]);
      var next := Advance(style, x, y, l.w);
      PenMoves(p, font, style, next.0, next.1, letters[1..]);
    }
  }

  /// Drawing `a + b` is drawing `a`, then drawing `b` from where the pen
  /// ended, as long as every letter of `a` was drawn.
  lemma {:induction false} TextAppend(p: Panel, font: Font, style: Style, x: int, y: int,
                                      a: seq<char>, b: seq<char>)
    requires AllDrawn(p, font, style, x, y, a)
    ensures var pen := Pen(p, font, style, x, y, a);
      TextSteps(p, font, style, x, y, a + b) ==
      Then(TextSteps(p, font, style, x, y, a), TextSteps(p, font, style, pen.0, pen.1, b))
    decreases |a|
  {
    if a == [] {
      assert a + b == b;
      ThenEmitNil(TextSteps(p, font, style, x, y, b));
    } else {
      var l := LetterRun(p, font, style, x, y, a[0]);
      var next := Advance(style, x, y, l.w);
      var pen := Pen(p, font, style, x, y, a);
      assert (a + b)[0] == a[0] && (a + b)[1..] == a[1..] + b;
      TextAppend(p, font, style, next.0, next.1, a[1..], b);
      var head := Then(l.run, GapRun(p, style, x, y, l.w, l.h));
      ThenAssoc(head, TextSteps(p, font, style, next.0, next.1, a[1..]),
                TextSteps(p, font, style, pen.0, pen.1, b));
    }
  }

  /// A letter of non-zero size after the all-drawn `a` leaves `a + [c]`
  /// all drawn, with the pen advanced past `c`.
  lemma {:induction false} DrawnSnoc(p: Panel, font: Font, style: Style, x: int, y: int, a: seq<char>, c: char)
    requires AllDrawn(p, font, style, x, y, a)
    requires var pen := Pen(p, font, style, x, y, a);
      var l := LetterRun(p, font, style, pen.0, pen.1, c); l.w != 0 && l.h != 0
    ensures AllDrawn(p, font, style, x, y, a + [c])
    ensures var pen := Pen(p, font, style, x, y, a);
      var l := LetterRun(p, font, style, pen.0, pen.1, c);
      Pen(p, font, style, x, y, a + [c]) == Advance(style, pen.0, pen.1, l.w)
    decreases |a|
  {
    if a == [] {
      assert a + [c] == [c] && [c][1..] == [];
    } else {
      var l := LetterRun(p, font, style, x, y, a[0]);
      var next := Advance(style, x, y, l.w);
      assert (a + [c])[0] == a[0] && (a + [c])[1..] == a[1..] + [c];
      DrawnSnoc(p, font, style, next.0, next.1, a[1..], c);
    }
  }

  /// One more letter of non-zero size: the text sends `a`, then the
  /// letter, then its gap.
  lemma TextSnoc(p: Panel, font: Font, style: Style, x: int, y: int, a: seq<char>, c: char)
    requires AllDrawn(p, font, style, x, y, a)
    requires var pen := Pen(p, font, style, x, y, a);
      var l := LetterRun(p, font, style, pen.0, pen.1, c); l.w != 0 && l.h != 0
    ensures AllDrawn(p, font, style, x, y, a + [c])
    ensures var pen := Pen(p, font, style, x, y, a);
      var l := LetterRun(p, font, style, pen.0, pen.1, c);
      Pen(p, font, style, x, y, a + [c]) == Advance(style, pen.0, pen.1, l.w) &&
      TextSteps(p, font, style, x, y, a + [c]) ==
        Then(TextSteps(p, font, style, x, y, a), Then(l.run, GapRun(p, style, pen.0, pen.1, l.w, l.h)))
  {
    var pen := Pen(p, font, style, x, y, a);
    var l := LetterRun(p, font, style, pen.0, pen.1, c);
    DrawnSnoc(p, font, style, x, y, a, c);
    TextAppend(p, font, style, x, y, a, [c]);
    var one := Then(l.run, GapRun(p, style, pen.0, pen.1, l.w, l.h));
    assert [c][1..] == [];
    assert one.events + [] == one.events;
    assert TextSteps(p, font, style, pen.0, pen.1, [c]) == one;
  }

  /// One turn of `draw_text`'s loop at letter `i`, the pen where the
  /// letters before it left it: the letter, and its gap unless it reported
  /// a zero size. A zero size or a raise ends the text there; otherwise the
  /// letters up to `i` are all drawn and the pen moves past letter `i`.
  lemma TextTurn(p: Panel, font: Font, style: Style, x: int, y: int, letters: seq<char>, i: nat)
    requires i < |letters| && AllDrawn(p, font, style, x, y, letters[..i])
    ensures var pen := Pen(p, font, style, x, y, letters[..i]);
      var l := LetterRun(p, font, style, pen.0, pen.1, letters[i]);
      var turn := if l.w == 0 || l.h == 0 then l.run else Then(l.run, GapRun(p, style, pen.0, pen.1, l.w, l.h));
      var before := TextSteps(p, font, style, x, y, letters[..i]);
      (l.w == 0 || l.h == 0 || turn.out.Raised? ==> TextSteps(p, font, style, x, y, letters) == Then(before, turn)) &&
      (l.w != 0 && l.h != 0 ==>
         AllDrawn(p, font, style, x, y, letters[..i + 1]) &&
         Pen(p, font, style, x, y, letters[..i + 1]) == Advance(style, pen.0, pen.1, l.w) &&
         TextSteps(p, font, style, x, y, letters[..i + 1]) == Then(before, turn))
  {
    var a, c, b := letters[..i], letters[i], letters[i + 1..];
    var pen := Pen(p, font, style, x, y, a);
    var l := LetterRun(p, font, style, pen.0, pen.1, c);
    assert a + [c] + b == letters;
    if l.w == 0 || l.h == 0 {
      TextStops(p, font, style, x, y, a, c, b);
    } else {
      TextSnoc(p, font, style, x, y, a, c);
      assert letters[..i + 1] == a + [c];
      TextAppend(p, font, style, x, y, a + [c], b);
      ThenAssoc(TextSteps(p, font, style, x, y, a), Then(l.run, GapRun(p, style, pen.0, pen.1, l.w, l.h)),
                TextSteps(p, font, style, Pen(p, font, style, x, y, a + [c]).0,
                          Pen(p, font, style, x, y, a + [c]).1, b));
    }
  }

  /// One turn of `draw_text`'s loop, given the events and outcome of letter
  /// `i` and its gap: when the letter reported a zero size or something
  /// raised, the whole text has been sent; otherwise the first `i + 1`
  /// letters have, and the pen has advanced past letter `i`.
  lemma TextStepDone(p: Panel, font: Font, style: Style, x: int, y: int, letters: seq<char>, i: nat,
                     px: int, py: int, t0: seq<Event>, tr: seq<Event>, w: int, h: int, out: Outcome)
    requires i < |letters| && AllDrawn(p, font, style, x, y, letters[..i])
    requires (px, py) == Pen(p, font, style, x, y, letters[..i])
    requires TextSteps(p, font, style, x, y, letters[..i]).out == Done
    requires var l := LetterRun(p, font, style, px, py, letters[i]);
      var r := if l.w == 0 || l.h == 0 then l.run else Then(l.run, GapRun(p, style, px, py, l.w, l.h));
      tr == t0 + TextSteps(p, font, style, x, y, letters[..i]).events + r.events && out == r.out &&
      w == l.w && h == l.h
    ensures w == 0 || h == 0 || out.Raised? ==>
      var r := TextSteps(p, font, style, x, y, letters); tr == t0 + r.events && out == r.out
    ensures !(w == 0 || h == 0 || out.Raised?) ==>
      out == Done && AllDrawn(p, font, style, x, y, letters[..i + 1]) &&
      Pen(p, font, style, x, y, letters[..i + 1]) == Advance(style, px, py, w) &&
      TextSteps(p, font, style, x, y, letters[..i + 1]).out == Done &&
      tr == t0 + TextSteps(p, font, style, x, y, letters[..i + 1]).events
  {
    var l := LetterRun(p, font, style, px, py, letters[i]);
    var turn := if l.w == 0 || l.h == 0 then l.run else Then(l.run, GapRun(p, style, px, py, l.w, l.h));
    var done := TextSteps(p, font, style, x, y, letters[..i]);
    ThenTrace(t0, done, turn);
    TextTurn(p, font, style, x, y, letters, i);
  }

  /// A letter that reports a zero size ends the text: nothing after it is sent.
  lemma {:induction false} TextStops(p: Panel, font: Font, style: Style, x: int, y: int,
                                     a: seq<char>, c: char, b: seq<char>)
    requires AllDrawn(p, font, style, x, y, a)
    requires var pen := Pen(p, font, style, x, y, a);
      var l := LetterRun(p, font, style, pen.0, pen.1, c); l.w == 0 || l.h == 0
    ensures var pen := Pen(p, font, style, x, y, a);
      TextSteps(p, font, style, x, y, a + [c] + b) ==
      Then(TextSteps(p, font, style, x, y, a), LetterRun(p, font, style, pen.0, pen.1, c).run)
  {
    var pen := Pen(p, font, style, x, y, a);
    assert a + [c] + b == a + ([c] + b);
    TextAppend(p, font, style, x, y, a, [c] + b);
    assert ([c] + b)[0] == c;
  }
}
